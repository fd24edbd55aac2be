/** Interleavings against serial runs: exactly when each commit is what its request does alone
    on the latest store, so that an interleaving is the serial run of its commits. */
module MongoSerializability {
  import opened Model
  import opened MongoValidation
  import opened MongoTransactions
  import opened MongoConcurrency
  import opened MongoClaims
  import opened MongoIntegrity
  import opened MongoOrder
  import opened StoreChanges
  import Serial = MongoSerial

  // ----- What the locks keep still -----

  /** A locked uuid that is no owner's in the view of the query is no owner's in the latest store. */
  lemma StillNoOwner(s: Store, now: Store, view: Store, s': Store, locks: set<DocumentUuid>,
      refs: seq<MeadowlarkId>, uuid: DocumentUuid)
    requires Still(s, now, s', locks) && Still(s, view, s', locks) && uuid in locks
    requires !LockFails(view, refs, uuid)
    ensures !LockFails(now, refs, uuid)
  {
    forall y | y in Matching(now, refs) && now[y].documentUuid == uuid ensures y in Matching(view, refs) {
      assert now[y] == s[y];
    }
  }

  /** The owners of resolved, covered references are the same in the snapshot and now. */
  lemma SameOwners(s: Store, now: Store, s': Store, locks: set<DocumentUuid>, refs: seq<MeadowlarkId>)
    requires Still(s, now, s', locks) && AliasDisjoint(now)
    requires OwnerUuids(s, refs) <= locks && AllResolve(s, refs)
    ensures Matching(now, refs) == Matching(s, refs)
    ensures forall y :: y in Matching(s, refs) ==> now[y] == s[y]
  {
    forall y | y in Matching(s, refs) ensures y in Matching(now, refs) && now[y] == s[y] {
      assert s[y].documentUuid in OwnerUuids(s, refs);
    }
    forall y | y in Matching(now, refs) ensures y in Matching(s, refs) {
      var r :| r in now[y].aliasIds && r in refs;
      var z :| z in s && r in s[z].aliasIds;
      assert z in Matching(s, refs);
    }
  }

  lemma StillResolve(s: Store, now: Store, s': Store, locks: set<DocumentUuid>, refs: seq<MeadowlarkId>)
    requires Still(s, now, s', locks) && AliasDisjoint(now)
    requires OwnerUuids(s, refs) <= locks && AllResolve(s, refs)
    ensures AllResolve(now, refs)
  {
    SameOwners(s, now, s', locks, refs);
    forall r | r in refs ensures Resolves(now, r) {
      var y :| y in s && r in s[y].aliasIds;
      assert y in Matching(s, refs);
    }
  }

  lemma StillNamedOnce(s: Store, now: Store, s': Store, locks: set<DocumentUuid>, refs: seq<MeadowlarkId>,
      docs: seq<MeadowlarkId>)
    requires Still(s, now, s', locks) && AliasDisjoint(now)
    requires OwnerUuids(s, refs) <= locks && AllResolve(s, refs) && forall a :: a in docs ==> a in refs
    ensures NamedTwice(now, docs) ==> NamedTwice(s, docs)
  {
    SameOwners(s, now, s', locks, refs);
    forall y, a | y in now && a in now[y].aliasIds && a in docs ensures y in s && s[y] == now[y] {
      assert y in Matching(now, refs);
    }
  }

  lemma StillPasses(schema: Schema, s: Store, now: Store, s': Store, locks: set<DocumentUuid>, w: WriteRequest)
    requires Invariant(schema, s) && Invariant(schema, now) && Still(s, now, s', locks)
    requires WellFormedWrite(schema, w) && OwnerUuids(s, OutboundRefs(w.info)) <= locks
    requires WriteFailures(s, w) == []
    ensures WriteFailures(now, w) == []
  {
    if w.validate {
      PassIff(schema, s, w.info);
      PassIff(schema, now, w.info);
      StillResolve(s, now, s', locks, OutboundRefs(w.info));
      StillNamedOnce(s, now, s', locks, OutboundRefs(w.info), Targets(w.info.documentReferences));
    }
  }

  // ----- The condition -----

  /** On the latest store the superclass claim is free, and nobody refers to what is removed. */
  ghost predicate Settled(schema: Schema, now: Store, s: Store, s': Store, req: Request) {
    && ClaimsFree(schema, now, s, s')
    && (ValidatingDelete(req) ==> forall x :: x in s && x !in s' ==> x in now && Unreferenced(now, x))
  }

  /** A transaction that ends as `o` on its own views ends the same alone on the latest store. */
  ghost predicate Repeats<R>(o: Outcome<R>, p: Outcome<R>, s: Store, now: Store) {
    p.result == o.result && p.store == Overlay(now, s, o.store)
  }

  lemma OverlayPut(now: Store, s: Store, d: Document)
    requires d.id in s ==> s[d.id] != d
    ensures Changed(s, s[d.id := d]) == {d.id}
    ensures Overlay(now, s, s[d.id := d]) == now[d.id := d]
  {
  }

  lemma OverlayMove(now: Store, s: Store, x: MeadowlarkId, d: Document)
    requires x in s && x != d.id && (d.id in s ==> s[d.id] != d)
    ensures Changed(s, (s - {x})[d.id := d]) == {x, d.id}
    ensures Overlay(now, s, (s - {x})[d.id := d]) == (now - {x})[d.id := d]
  {
  }

  lemma OverlayRemove(now: Store, s: Store, x: MeadowlarkId)
    requires x in s
    ensures Changed(s, s - {x}) == {x}
    ensures Overlay(now, s, s - {x}) == now - {x}
  {
  }

  // ----- Upserts -----

  /** The document an upsert writes. */
  function Upserting(s: Store, w: WriteRequest, freshUuid: DocumentUuid): Document {
    if w.meadowlarkId !in s then DocumentFrom(w, freshUuid, Some(w.info.requestTimestamp))
    else
      var stored := s[w.meadowlarkId];
      DocumentFrom(w, stored.documentUuid,
        if stored.createdAt.None? then Some(w.info.requestTimestamp) else stored.createdAt)
  }

  lemma WritingEvaluates(view: Store, s: Store, w: WriteRequest, freshUuid: DocumentUuid)
    ensures var d := Upserting(s, w, freshUuid);
      LockAndReplace(view, s, w, freshUuid, None) ==
      if LockFails(view, d.outboundRefs, d.documentUuid) then Outcome(s, {}, true, UpsertUnknownFailure)
      else Replace(s, OwnerUuids(view, d.outboundRefs) + {d.documentUuid}, d, d.documentUuid)
  {
  }

  lemma UpsertEvaluates(view: Store, s: Store, w: WriteRequest, freshUuid: DocumentUuid)
    ensures var o := UpsertTransaction(view, s, w, freshUuid, None);
      var d := Upserting(s, w, freshUuid);
      Succeeded(Upserted(o.result)) <==>
        && UpsertRefusal(s, w, false).None? && !LockFails(view, d.outboundRefs, d.documentUuid)
        && (d.id in s ==> s[d.id] != d)
    ensures var o := UpsertTransaction(view, s, w, freshUuid, None);
      var d := Upserting(s, w, freshUuid);
      Succeeded(Upserted(o.result)) ==>
        && o.store == s[d.id := d] && d.documentUuid in o.locks
        && o.result == if d.id in s then UpsertUpdateSuccess(d.documentUuid) else InsertSuccess(d.documentUuid)
  {
    WritingEvaluates(view, s, w, freshUuid);
  }

  /** Checked again on the latest store, an upsert can only fail on its superclass claim. */
  lemma UpsertRefusalIff(schema: Schema, s: Store, now: Store, locks: set<DocumentUuid>, w: WriteRequest, d: Document)
    requires Invariant(schema, s) && Invariant(schema, now) && WellFormedWrite(schema, w) && d.id == w.meadowlarkId
    requires (d.id in s <==> d.id in now) && (d.id in s ==> now[d.id] == s[d.id])
    requires UpsertRefusal(s, w, false).None? && WriteFailures(now, w) == []
    ensures UpsertRefusal(now, w, false).None? <==> ClaimsFree(schema, now, s, s[d.id := d])
  {
    if w.info.superclassId.Some? {
      Serial.ClaimCheck(now, w.info.superclassId.value);
    }
  }

  lemma StillThere(s: Store, now: Store, locks: set<DocumentUuid>, d: Document)
    requires Still(s, now, s[d.id := d], locks) && (d.id in s ==> s[d.id] != d)
    ensures d.id in s <==> d.id in now
    ensures d.id in s ==> now[d.id] == s[d.id]
  {
    assert d.id in Changed(s, s[d.id := d]);
  }

  /** On the latest store the same document would be written, and only the claim is open. */
  lemma UpsertStillIff(schema: Schema, view: Store, s: Store, now: Store, w: WriteRequest, freshUuid: DocumentUuid,
      locks: set<DocumentUuid>, d: Document)
    requires Invariant(schema, s) && Invariant(schema, now) && WellFormedWrite(schema, w)
    requires d == Upserting(s, w, freshUuid) && (d.id in s ==> s[d.id] != d) && d.documentUuid in locks
    requires Still(s, now, s[d.id := d], locks) && Still(s, view, s[d.id := d], locks)
    requires OwnerUuids(s, OutboundRefs(w.info)) <= locks
    requires UpsertRefusal(s, w, false).None? && !LockFails(view, d.outboundRefs, d.documentUuid)
    ensures Upserting(now, w, freshUuid) == d && (d.id in now ==> now[d.id] != d) && (d.id in now <==> d.id in s)
    ensures !LockFails(now, d.outboundRefs, d.documentUuid)
    ensures UpsertRefusal(now, w, false).None? <==> ClaimsFree(schema, now, s, s[d.id := d])
  {
    StillThere(s, now, locks, d);
    StillPasses(schema, s, now, s[d.id := d], locks, w);
    UpsertRefusalIff(schema, s, now, locks, w, d);
    StillNoOwner(s, now, view, s[d.id := d], locks, d.outboundRefs, d.documentUuid);
  }

  lemma UpsertRepeatsIff(schema: Schema, view: Store, s: Store, now: Store, w: WriteRequest, freshUuid: DocumentUuid)
    requires Invariant(schema, s) && Invariant(schema, now) && WellFormedWrite(schema, w)
    requires var o := UpsertTransaction(view, s, w, freshUuid, None);
      && Succeeded(Upserted(o.result))
      && Still(s, now, o.store, o.locks) && Still(s, view, o.store, o.locks)
      && OwnerUuids(s, OutboundRefs(w.info)) <= o.locks
    ensures var o, p := UpsertTransaction(view, s, w, freshUuid, None), UpsertTransaction(now, now, w, freshUuid, None);
      Repeats(o, p, s, now) <==> Settled(schema, now, s, o.store, Upsert(w, freshUuid))
  {
    var o := UpsertTransaction(view, s, w, freshUuid, None);
    var d := Upserting(s, w, freshUuid);
    UpsertEvaluates(view, s, w, freshUuid);
    UpsertEvaluates(now, now, w, freshUuid);
    OverlayPut(now, s, d);
    UpsertStillIff(schema, view, s, now, w, freshUuid, o.locks, d);
  }

  // ----- Updates -----

  lemma SameMatch(s: Store, now: Store, s': Store, locks: set<DocumentUuid>, w: WriteRequest, uuid: DocumentUuid)
    requires Still(s, now, s', locks) && uuid in locks
    ensures UpdateMatches(now, w, uuid) <==> UpdateMatches(s, w, uuid)
    ensures UpdateMatches(s, w, uuid) ==> now[w.meadowlarkId] == s[w.meadowlarkId]
  {
  }

  lemma SameFound(s: Store, now: Store, s': Store, locks: set<DocumentUuid>, uuid: DocumentUuid)
    requires Still(s, now, s', locks) && uuid in locks && UuidsDistinct(s) && UuidsDistinct(now)
    ensures FindByUuid(now, uuid) == FindByUuid(s, uuid)
    ensures FindByUuid(s, uuid).Some? ==> now[FindByUuid(s, uuid).value] == s[FindByUuid(s, uuid).value]
  {
    if x :| x in now && now[x].documentUuid == uuid {
      assert s[x] == now[x] && s[x].documentUuid in Uuids(s) && now[x].documentUuid in Uuids(now);
    } else {
      assert FindByUuid(now, uuid).None?;
    }
  }

  /** An update in place. */
  lemma ReplacementEvaluates(first: Store, second: Store, s: Store, w: WriteRequest, uuid: DocumentUuid,
      freshUuid: DocumentUuid)
    requires UpdateMatches(s, w, uuid)
    ensures var o := UpdateTransaction(first, second, s, w, uuid, freshUuid);
      var d := SetFields(s[w.meadowlarkId], DocumentFrom(w, uuid, None));
      && (o.result.UpdateSuccess? <==> WriteFailures(s, w) == [] && !LockFails(first, OutboundRefs(w.info), uuid))
      && (o.result.UpdateSuccess? ==> o.store == s[d.id := d] && uuid in o.locks && d != s[d.id])
  {
  }

  lemma ReplacementRepeats(schema: Schema, first: Store, second: Store, s: Store, now: Store, w: WriteRequest,
      uuid: DocumentUuid, freshUuid: DocumentUuid)
    requires Invariant(schema, s) && Invariant(schema, now) && WellFormedWrite(schema, w) && UpdateMatches(s, w, uuid)
    requires var o := UpdateTransaction(first, second, s, w, uuid, freshUuid);
      && o.result.UpdateSuccess?
      && Still(s, now, o.store, o.locks) && Still(s, first, o.store, o.locks)
      && OwnerUuids(s, OutboundRefs(w.info)) <= o.locks
    ensures var o := UpdateTransaction(first, second, s, w, uuid, freshUuid);
      var p := UpdateTransaction(now, now, now, w, uuid, freshUuid);
      Repeats(o, p, s, now) && Settled(schema, now, s, o.store, Update(w, uuid, freshUuid))
  {
    var o := UpdateTransaction(first, second, s, w, uuid, freshUuid);
    ReplacementEvaluates(first, second, s, w, uuid, freshUuid);
    SameMatch(s, now, o.store, o.locks, w, uuid);
    ReplacementEvaluates(now, now, now, w, uuid, freshUuid);
    OverlayPut(now, s, SetFields(s[w.meadowlarkId], DocumentFrom(w, uuid, None)));
    StillPasses(schema, s, now, o.store, o.locks, w);
    StillNoOwner(s, now, first, o.store, o.locks, OutboundRefs(w.info), uuid);
  }

  /** The claim check of the insert half, on the collection without the document moved. */
  ghost predicate MoveClaimFree(s: Store, x: MeadowlarkId, w: WriteRequest) {
    w.meadowlarkId !in s ==> SuperclassFree(s - {x}, w)
  }

  /** The insert half, on the collection without the document moved. */
  lemma ReinsertEvaluates(view: Store, rest: Store, w: WriteRequest, d: Document, freshUuid: DocumentUuid)
    requires d.id == w.meadowlarkId && d.lastModifiedAt == w.info.requestTimestamp
    ensures var o := UpsertTransaction(view, rest, w, freshUuid, Some(d));
      && (Succeeded(Upserted(o.result)) <==>
           && (d.id !in rest ==> SuperclassFree(rest, w))
           && (d.id in rest ==> rest[d.id].lastModifiedAt < w.info.requestTimestamp)
           && !LockFails(view, d.outboundRefs, WrittenUuid(rest, d.id, freshUuid)))
      && (Succeeded(Upserted(o.result)) ==>
           o.store == rest[d.id := d] && WrittenUuid(rest, d.id, freshUuid) in o.locks)
  {
    if w.info.superclassId.Some? {
      Serial.ClaimCheck(rest, w.info.superclassId.value);
    }
  }

  lemma ChangeEvaluates(second: Store, s: Store, w: WriteRequest, d: Document, locks: set<DocumentUuid>,
      freshUuid: DocumentUuid, x: MeadowlarkId)
    requires d.id == w.meadowlarkId && FindByUuid(s, d.documentUuid) == Some(x) && x != d.id
    requires d.lastModifiedAt == w.info.requestTimestamp
    ensures var o := ChangeIdentity(second, s, w, d, locks, freshUuid);
      && (o.result.UpdateSuccess? <==>
           && Unreferenced(s, x) && MoveClaimFree(s, x, w)
           && (d.id in s ==> s[d.id].lastModifiedAt < w.info.requestTimestamp)
           && !LockFails(second, d.outboundRefs, WrittenUuid(s, d.id, freshUuid)))
      && (o.result.UpdateSuccess? ==>
           o.store == (s - {x})[d.id := d] && WrittenUuid(s, d.id, freshUuid) in o.locks && locks <= o.locks)
  {
    ReinsertEvaluates(second, s - {x}, w, d, freshUuid);
  }

  /** The checks of an update, up to the delete half of a move of the document at `x`. */
  ghost predicate MayMove(view: Store, s: Store, w: WriteRequest, uuid: DocumentUuid, x: MeadowlarkId) {
    && WriteFailures(s, w) == [] && !LockFails(view, OutboundRefs(w.info), uuid)
    && FindByUuid(s, uuid) == Some(x) && s[x].lastModifiedAt < w.info.requestTimestamp && w.allowIdentityUpdates
  }

  /** The checks of the two halves. */
  ghost predicate MayChange(view: Store, s: Store, w: WriteRequest, x: MeadowlarkId, freshUuid: DocumentUuid)
    requires x in s
  {
    && Unreferenced(s, x) && MoveClaimFree(s, x, w)
    && (w.meadowlarkId in s ==> s[w.meadowlarkId].lastModifiedAt < w.info.requestTimestamp)
    && !LockFails(view, OutboundRefs(w.info), WrittenUuid(s, w.meadowlarkId, freshUuid))
  }

  lemma MoveEvaluates(first: Store, second: Store, s: Store, w: WriteRequest, uuid: DocumentUuid,
      freshUuid: DocumentUuid, x: MeadowlarkId)
    requires !UpdateMatches(s, w, uuid) && FindByUuid(s, uuid) == Some(x)
    ensures var o := UpdateTransaction(first, second, s, w, uuid, freshUuid);
      && (o.result.UpdateSuccess? <==> MayMove(first, s, w, uuid, x) && MayChange(second, s, w, x, freshUuid))
      && (o.result.UpdateSuccess? ==>
           && x != w.meadowlarkId
           && o.store == (s - {x})[w.meadowlarkId := DocumentFrom(w, uuid, s[x].createdAt)]
           && uuid in o.locks && WrittenUuid(s, w.meadowlarkId, freshUuid) in o.locks)
  {
    if x != w.meadowlarkId {
      var locks := OwnerUuids(first, OutboundRefs(w.info)) + {uuid};
      ChangeEvaluates(second, s, w, DocumentFrom(w, uuid, s[x].createdAt), locks, freshUuid, x);
    }
  }

  lemma MoveClaimIff(schema: Schema, s: Store, now: Store, w: WriteRequest, x: MeadowlarkId, d: Document)
    requires Invariant(schema, s) && Invariant(schema, now) && WellFormedWrite(schema, w) && d.id == w.meadowlarkId
    requires x in s && x in now && x != d.id && (d.id in s <==> d.id in now)
    ensures MoveClaimFree(now, x, w) <==> ClaimsFree(schema, now, s, (s - {x})[d.id := d])
  {
    var s', rest := (s - {x})[d.id := d], now - {x};
    assert forall y :: y in now && !(y in s && y !in s') <==> y in rest;
    assert forall y :: y in rest ==> rest[y] == now[y];
    assert forall z :: z in s' && z !in s <==> z == d.id && d.id !in now;
  }

  /** On the latest store the checks pass again, but for the referrers and the claim. */
  lemma MoveStillIff(schema: Schema, first: Store, second: Store, s: Store, now: Store, w: WriteRequest,
      uuid: DocumentUuid, freshUuid: DocumentUuid, x: MeadowlarkId, s': Store, locks: set<DocumentUuid>)
    requires Invariant(schema, s) && Invariant(schema, now) && WellFormedWrite(schema, w)
    requires MayMove(first, s, w, uuid, x) && MayChange(second, s, w, x, freshUuid)
    requires Still(s, now, s', locks) && Still(s, first, s', locks) && Still(s, second, s', locks)
    requires OwnerUuids(s, OutboundRefs(w.info)) <= locks && w.meadowlarkId in Changed(s, s')
    requires uuid in locks && WrittenUuid(s, w.meadowlarkId, freshUuid) in locks
    ensures x in now && now[x] == s[x] && MayMove(now, now, w, uuid, x)
    ensures MayChange(now, now, w, x, freshUuid) <==> Unreferenced(now, x) && MoveClaimFree(now, x, w)
  {
    SameFound(s, now, s', locks, uuid);
    StillPasses(schema, s, now, s', locks, w);
    StillNoOwner(s, now, first, s', locks, OutboundRefs(w.info), uuid);
    StillNoOwner(s, now, second, s', locks, OutboundRefs(w.info), WrittenUuid(s, w.meadowlarkId, freshUuid));
  }

  /** A move writes one document and removes one, and has passed every check. */
  lemma MoveParts(first: Store, second: Store, s: Store, w: WriteRequest, uuid: DocumentUuid, freshUuid: DocumentUuid)
    returns (x: MeadowlarkId, d: Document, locks: set<DocumentUuid>)
    requires !UpdateMatches(s, w, uuid)
    requires UpdateTransaction(first, second, s, w, uuid, freshUuid).result.UpdateSuccess?
    ensures FindByUuid(s, uuid) == Some(x) && x != d.id && d == DocumentFrom(w, uuid, s[x].createdAt)
    ensures UpdateTransaction(first, second, s, w, uuid, freshUuid).store == (s - {x})[d.id := d]
    ensures UpdateTransaction(first, second, s, w, uuid, freshUuid).locks == locks
    ensures uuid in locks && WrittenUuid(s, d.id, freshUuid) in locks
    ensures MayMove(first, s, w, uuid, x) && MayChange(second, s, w, x, freshUuid)
  {
    x := IdentityChangeMoves(first, second, s, w, uuid, freshUuid);
    d := DocumentFrom(w, uuid, s[x].createdAt);
    locks := UpdateTransaction(first, second, s, w, uuid, freshUuid).locks;
    MoveEvaluates(first, second, s, w, uuid, freshUuid, x);
  }

  /** What the move does alone on the latest store. */
  lemma MoveNowIff(schema: Schema, first: Store, second: Store, s: Store, now: Store, w: WriteRequest,
      uuid: DocumentUuid, freshUuid: DocumentUuid, x: MeadowlarkId, d: Document, locks: set<DocumentUuid>)
    requires Invariant(schema, s) && Invariant(schema, now) && WellFormedWrite(schema, w) && !UpdateMatches(s, w, uuid)
    requires MayMove(first, s, w, uuid, x) && MayChange(second, s, w, x, freshUuid)
    requires x != d.id && d == DocumentFrom(w, uuid, s[x].createdAt) && (d.id in s ==> s[d.id] != d)
    requires var s' := (s - {x})[d.id := d];
      Still(s, now, s', locks) && Still(s, first, s', locks) && Still(s, second, s', locks)
    requires OwnerUuids(s, OutboundRefs(w.info)) <= locks
    requires uuid in locks && WrittenUuid(s, d.id, freshUuid) in locks
    ensures x in now
    ensures var p := UpdateTransaction(now, now, now, w, uuid, freshUuid);
      && (p.result.UpdateSuccess? <==> Unreferenced(now, x) && ClaimsFree(schema, now, s, (s - {x})[d.id := d]))
      && (p.result.UpdateSuccess? ==> p.store == (now - {x})[d.id := d])
  {
    OverlayMove(now, s, x, d);
    SameMatch(s, now, (s - {x})[d.id := d], locks, w, uuid);
    MoveStillIff(schema, first, second, s, now, w, uuid, freshUuid, x, (s - {x})[d.id := d], locks);
    MoveEvaluates(now, now, now, w, uuid, freshUuid, x);
    MoveClaimIff(schema, s, now, w, x, d);
  }

  lemma MoveRepeatsIff(schema: Schema, first: Store, second: Store, s: Store, now: Store, w: WriteRequest,
      uuid: DocumentUuid, freshUuid: DocumentUuid)
    requires Invariant(schema, s) && Invariant(schema, now) && WellFormedWrite(schema, w) && !UpdateMatches(s, w, uuid)
    requires var o := UpdateTransaction(first, second, s, w, uuid, freshUuid);
      && o.result.UpdateSuccess?
      && Still(s, now, o.store, o.locks) && Still(s, first, o.store, o.locks) && Still(s, second, o.store, o.locks)
      && OwnerUuids(s, OutboundRefs(w.info)) <= o.locks
    ensures var o := UpdateTransaction(first, second, s, w, uuid, freshUuid);
      var p := UpdateTransaction(now, now, now, w, uuid, freshUuid);
      Repeats(o, p, s, now) <==> Settled(schema, now, s, o.store, Update(w, uuid, freshUuid))
  {
    var x, d, locks := MoveParts(first, second, s, w, uuid, freshUuid);
    OverlayMove(now, s, x, d);
    MoveNowIff(schema, first, second, s, now, w, uuid, freshUuid, x, d, locks);
  }

  lemma UpdateRepeatsIff(schema: Schema, first: Store, second: Store, s: Store, now: Store, w: WriteRequest,
      uuid: DocumentUuid, freshUuid: DocumentUuid)
    requires Invariant(schema, s) && Invariant(schema, now) && WellFormedWrite(schema, w)
    requires var o := UpdateTransaction(first, second, s, w, uuid, freshUuid);
      && o.result.UpdateSuccess?
      && Still(s, now, o.store, o.locks) && Still(s, first, o.store, o.locks) && Still(s, second, o.store, o.locks)
      && OwnerUuids(s, OutboundRefs(w.info)) <= o.locks
    ensures var o := UpdateTransaction(first, second, s, w, uuid, freshUuid);
      var p := UpdateTransaction(now, now, now, w, uuid, freshUuid);
      Repeats(o, p, s, now) <==> Settled(schema, now, s, o.store, Update(w, uuid, freshUuid))
  {
    if UpdateMatches(s, w, uuid) {
      ReplacementRepeats(schema, first, second, s, now, w, uuid, freshUuid);
    } else {
      MoveRepeatsIff(schema, first, second, s, now, w, uuid, freshUuid);
    }
  }

  // ----- Deletes -----

  lemma DeleteRepeatsIff(schema: Schema, s: Store, now: Store, uuid: DocumentUuid, resource: ResourceInfo,
      validate: bool)
    requires UuidsDistinct(s) && UuidsDistinct(now)
    requires var o := DeleteTransaction(s, uuid, validate);
      o.result.DeleteSuccess? && Still(s, now, o.store, o.locks)
    ensures var o, p := DeleteTransaction(s, uuid, validate), DeleteTransaction(now, uuid, validate);
      Repeats(o, p, s, now) <==> Settled(schema, now, s, o.store, Delete(uuid, resource, validate))
  {
    var o := DeleteTransaction(s, uuid, validate);
    SameFound(s, now, o.store, o.locks, uuid);
    OverlayRemove(now, s, FindByUuid(s, uuid).value);
  }

  // ----- One commit -----

  /** A successful transaction whose views show what its snapshot shows of what it touches. */
  ghost predicate Undisturbed(schema: Schema, first: Store, second: Store, s: Store, now: Store, req: Request) {
    var o := Transaction(first, second, s, req);
    && Invariant(schema, s) && Invariant(schema, now) && WellFormed(schema, req) && Succeeded(o.result)
    && Still(s, now, o.store, o.locks) && Still(s, first, o.store, o.locks) && Still(s, second, o.store, o.locks)
    && (!req.Delete? ==> OwnerUuids(s, OutboundRefs(req.write.info)) <= o.locks)
  }

  /** Exactly when a transaction would do the same alone on the latest store, with the same answer. */
  lemma TransactionRepeatsIff(schema: Schema, first: Store, second: Store, s: Store, now: Store, req: Request)
    requires Undisturbed(schema, first, second, s, now, req)
    ensures var o := Transaction(first, second, s, req);
      Serial.Serve(now, req) == (Overlay(now, s, o.store), o.result) <==> Settled(schema, now, s, o.store, req)
  {
    match req
    case Upsert(w, freshUuid) => UpsertRepeatsIff(schema, first, s, now, w, freshUuid);
    case Update(w, uuid, freshUuid) => UpdateRepeatsIff(schema, first, second, s, now, w, uuid, freshUuid);
    case Delete(uuid, resource, validate) => DeleteRepeatsIff(schema, s, now, uuid, resource, validate);
  }

  // ----- One step -----

  /** The transaction `t` does what its request does alone on the latest store. */
  ghost predicate CommitRepeats(a: State, b: State, t: nat)
    requires CommitTx(a, b, t)
  {
    Serial.Serve(Current(a), a.active[t].request) == (Current(b), Effect(a.history, a.active[t]).result)
  }

  ghost predicate CommitsRepeat(a: State, b: State) {
    forall t :: CommitTx(a, b, t) ==> CommitRepeats(a, b, t)
  }

  ghost predicate CommitSettled(schema: Schema, a: State, b: State, t: nat)
    requires CommitTx(a, b, t)
  {
    Settled(schema, Current(a), a.history[a.active[t].start].store, Effect(a.history, a.active[t]).store,
      a.active[t].request)
  }

  ghost predicate CommitsSettled(schema: Schema, a: State, b: State) {
    forall t :: CommitTx(a, b, t) ==> CommitSettled(schema, a, b, t)
  }

  /** What every state of a run with free claims keeps. */
  ghost predicate Steady(schema: Schema, st: State) {
    && SoundState(schema, st) && RequestsFit(schema, st)
    && forall k :: 0 <= k < |st.history| ==> Invariant(schema, st.history[k].store)
  }

  lemma CommitUndisturbed(schema: Schema, a: State, b: State, t: nat)
    requires Steady(schema, a) && CommitTx(a, b, t) && Covers(a.history, a.active[t])
    ensures var (h, tx) := (a.history, a.active[t]);
      Undisturbed(schema, h[tx.first.value].store, h[tx.second.value].store, h[tx.start].store, Current(a), tx.request)
  {
    var h, tx := a.history, a.active[t];
    var o := Effect(h, tx);
    ViewStill(schema, h, tx.start, |h| - 1, o.store, o.locks);
    ViewStill(schema, h, tx.start, tx.first.value, o.store, o.locks);
    ViewStill(schema, h, tx.start, tx.second.value, o.store, o.locks);
  }

  lemma CommitRepeatsIff(schema: Schema, a: State, b: State, t: nat)
    requires Steady(schema, a) && CommitTx(a, b, t) && Covers(a.history, a.active[t])
    ensures CommitRepeats(a, b, t) <==> CommitSettled(schema, a, b, t)
  {
    var h, tx := a.history, a.active[t];
    CommitUndisturbed(schema, a, b, t);
    TransactionRepeatsIff(schema, h[tx.first.value].store, h[tx.second.value].store, h[tx.start].store, Current(a),
      tx.request);
  }

  lemma StepRepeatsIff(schema: Schema, a: State, b: State)
    requires Steady(schema, a) && CommitsCovered(a, b)
    ensures CommitsRepeat(a, b) <==> CommitsSettled(schema, a, b)
  {
    forall t | CommitTx(a, b, t) ensures CommitRepeats(a, b, t) <==> CommitSettled(schema, a, b, t) {
      CommitRepeatsIff(schema, a, b, t);
    }
  }

  lemma SettledClaims(schema: Schema, a: State, b: State)
    requires CommitsSettled(schema, a, b)
    ensures CommitsClaimFree(schema, a, b)
  {
    forall t | CommitTx(a, b, t) ensures CommitClaimFree(schema, a, t) {
      assert CommitSettled(schema, a, b, t);
    }
  }

  // ----- The serial run of the commits -----

  lemma OneCommitter(a: State, b: State, t: nat, u: nat)
    requires CommitTx(a, b, t) && CommitTx(a, b, u)
    ensures t == u
  {
    assert t !in b.active && u !in b.active;
  }

  ghost function Committer(a: State, b: State): (t: Option<nat>)
    ensures t.Some? ==> CommitTx(a, b, t.value)
    ensures t.None? ==> forall u :: !CommitTx(a, b, u)
  {
    if t: nat :| CommitTx(a, b, t) then Some(t) else None
  }

  /** The requests committed up to state `i`, in the order of their commits, and their answers. */
  ghost function Committed(run: seq<State>, i: nat): seq<(Request, Result)>
    requires i < |run|
  {
    if i == 0 then [] else Committed(run, i - 1) + CommittedBy(run[i - 1], run[i])
  }

  ghost function CommittedBy(a: State, b: State): seq<(Request, Result)> {
    match Committer(a, b)
    case None => []
    case Some(t) => [(a.active[t].request, Effect(a.history, a.active[t]).result)]
  }

  /** The serial run of `served` goes through the states of the history and gives its answers. */
  ghost predicate SerialHistory(h: History, served: seq<(Request, Result)>) {
    if served == [] then |h| == 1 && h[0].store == map[]
    else
      var n := |served|;
      && |h| == n + 1 && SerialHistory(h[..n], served[..n - 1])
      && Serial.Serve(h[n - 1].store, served[n - 1].0) == (h[n].store, served[n - 1].1)
  }

  lemma {:induction false} SerialStepIff(h: History, served: seq<(Request, Result)>, c: Commit, last: (Request, Result))
    requires |h| == |served| + 1
    ensures SerialHistory(h + [c], served + [last])
            <==> SerialHistory(h, served) && Serial.Serve(h[|h| - 1].store, last.0) == (c.store, last.1)
  {
    assert (h + [c])[..|h|] == h && (served + [last])[..|served|] == served;
  }

  lemma {:induction false} CommitSerialIff(a: State, b: State, t: nat, served: seq<(Request, Result)>)
    requires CommitTx(a, b, t) && |a.history| == |served| + 1
    ensures var more := served + [(a.active[t].request, Effect(a.history, a.active[t]).result)];
      && |b.history| == |more| + 1
      && (SerialHistory(b.history, more) <==> SerialHistory(a.history, served) && CommitRepeats(a, b, t))
  {
    var c := b.history[|a.history|];
    assert b.history == a.history + [c];
    SerialStepIff(a.history, served, c, (a.active[t].request, Effect(a.history, a.active[t]).result));
  }

  lemma {:induction false} StepSerialIff(a: State, b: State, served: seq<(Request, Result)>)
    requires Next(a, b) && |a.history| == |served| + 1
    ensures |b.history| == |served + CommittedBy(a, b)| + 1
    ensures SerialHistory(b.history, served + CommittedBy(a, b))
            <==> SerialHistory(a.history, served) && CommitsRepeat(a, b)
  {
    match Committer(a, b)
    case None => assert b.history == a.history && served + [] == served;
    case Some(t) =>
      CommitSerialIff(a, b, t, served);
      forall u | CommitTx(a, b, u) ensures u == t { OneCommitter(a, b, t, u); }
  }

  ghost predicate RepeatsBefore(run: seq<State>, i: nat)
    requires i < |run|
  {
    i > 0 ==> RepeatsBefore(run, i - 1) && CommitsRepeat(run[i - 1], run[i])
  }

  lemma {:induction false} SerialRunIff(run: seq<State>, i: nat)
    requires Run(run) && i < |run|
    ensures |run[i].history| == |Committed(run, i)| + 1
    ensures SerialHistory(run[i].history, Committed(run, i)) <==> RepeatsBefore(run, i)
  {
    if i > 0 {
      SerialRunIff(run, i - 1);
      assert StepAt(run, i - 1);
      StepSerialIff(run[i - 1], run[i], Committed(run, i - 1));
    }
  }

  function Requests(served: seq<(Request, Result)>): (reqs: seq<Request>)
    ensures |reqs| == |served| && forall k :: 0 <= k < |served| ==> reqs[k] == served[k].0
  {
    seq(|served|, k requires 0 <= k < |served| => served[k].0)
  }

  lemma {:induction false} EndIsSerial(h: History, served: seq<(Request, Result)>)
    requires SerialHistory(h, served)
    ensures |h| == |served| + 1 && h[|served|].store == Serial.After(Requests(served))
  {
    var n := |served|;
    if n > 0 {
      EndIsSerial(h[..n], served[..n - 1]);
      assert Requests(served)[..n - 1] == Requests(served[..n - 1]);
    }
  }

  lemma {:induction false} StatesAreSerial(h: History, served: seq<(Request, Result)>, k: nat)
    requires SerialHistory(h, served) && k <= |served|
    ensures |h| == |served| + 1 && h[k].store == Serial.After(Requests(served)[..k])
  {
    if k == |served| {
      EndIsSerial(h, served);
      assert Requests(served)[..k] == Requests(served);
    } else {
      var n := |served|;
      StatesAreSerial(h[..n], served[..n - 1], k);
      assert Requests(served)[..k] == Requests(served[..n - 1])[..k];
    }
  }

  // ----- Whole runs -----

  /** What the result needs of every run: well-formed requests, fresh uuids, covering lock rows. */
  ghost predicate Locking(schema: Schema, run: seq<State>) {
    && Run(run) && WellFormedRequests(schema, run) && DrawsFresh(run)
    && forall i :: 0 <= i < |run| - 1 ==> CommitsCovered(run[i], run[i + 1])
  }

  ghost predicate StepSettled(schema: Schema, run: seq<State>, k: nat)
    requires k + 1 < |run|
  {
    CommitsSettled(schema, run[k], run[k + 1])
  }

  ghost predicate SettledBefore(schema: Schema, run: seq<State>, i: nat)
    requires i < |run|
  {
    forall k: nat :: k < i ==> StepSettled(schema, run, k)
  }

  lemma {:induction false} SteadyState(schema: Schema, run: seq<State>, i: nat)
    requires Locking(schema, run) && i < |run| && SettledBefore(schema, run, i)
    ensures Steady(schema, run[i])
  {
    forall k | 0 <= k < i ensures CommitsClaimFree(schema, run[k], run[k + 1]) {
      assert StepSettled(schema, run, k);
      SettledClaims(schema, run[k], run[k + 1]);
    }
    RunAllDisjoint(schema, run, i);
    RunOrderly(schema, run, i);
  }

  lemma {:induction false} SettledIffRepeats(schema: Schema, run: seq<State>, i: nat)
    requires Locking(schema, run) && i + 1 < |run| && SettledBefore(schema, run, i)
    ensures StepSettled(schema, run, i) <==> CommitsRepeat(run[i], run[i + 1])
  {
    SteadyState(schema, run, i);
    assert CommitsCovered(run[i], run[i + 1]);
    StepRepeatsIff(schema, run[i], run[i + 1]);
  }

  lemma {:induction false} RepeatsIffSettled(schema: Schema, run: seq<State>, i: nat)
    requires Locking(schema, run) && i < |run|
    ensures RepeatsBefore(run, i) <==> SettledBefore(schema, run, i)
  {
    if i > 0 {
      RepeatsIffSettled(schema, run, i - 1);
      if SettledBefore(schema, run, i - 1) {
        SettledIffRepeats(schema, run, i - 1);
      }
    }
  }

  /** Main result: with covering lock rows an interleaving is the serial run of the requests it
      commits, in the order of their commits and with their answers, exactly when every commit
      finds its claim free and nobody referring to what it removes. */
  lemma {:induction false} SerializableIff(schema: Schema, run: seq<State>, i: nat)
    requires Locking(schema, run) && i < |run|
    ensures SerialHistory(run[i].history, Committed(run, i)) <==> SettledBefore(schema, run, i)
  {
    SerialRunIff(run, i);
    RepeatsIffSettled(schema, run, i);
  }

  // ----- Validating requests -----

  /** Every request validates: writes their references, deletes the absence of referrers. */
  ghost predicate AllValidate(run: seq<State>) {
    forall i, t :: 0 <= i < |run| && t in run[i].active ==> Validating(run[i].active[t].request)
  }

  predicate Validating(req: Request) {
    if req.Delete? then req.validateNoReferences else req.write.validate
  }

  ghost predicate StoredValidated(s: Store) {
    forall x :: x in s ==> s[x].validated
  }

  lemma ServeKeepsValidated(s: Store, req: Request)
    requires StoredValidated(s) && Validating(req)
    ensures StoredValidated(Serial.Serve(s, req).0)
  {
    if Succeeded(Serial.Serve(s, req).1) {
      match req
      case Upsert(w, freshUuid) => var d := Serial.UpsertShape(s, w, freshUuid);
      case Update(w, uuid, freshUuid) => var x, d := Serial.UpdateShape(s, w, uuid, freshUuid);
      case Delete(uuid, resource, validate) => var x := Serial.DeleteShape(s, uuid, resource, validate);
    }
  }

  /** A referrer of a locked document was already there in the snapshot: whoever has committed
      a reference to it since then has locked it. */
  lemma ReferrerIsOld(h: History, start: nat, s': Store, locks: set<DocumentUuid>, x: MeadowlarkId, z: MeadowlarkId,
      r: MeadowlarkId)
    requires start < |h| && NoConflict(h, start, s', locks) && Supported(h)
    requires StoredValidated(h[|h| - 1].store) && AliasDisjoint(h[|h| - 1].store)
    requires var now := h[|h| - 1].store;
      && x in now && now[x].documentUuid in locks && r in now[x].aliasIds
      && z in now && r in now[z].outboundRefs
    ensures z in h[start].store && h[start].store[z] == h[|h| - 1].store[z]
  {
    var y :| Supports(h, z, r, y);
    assert y == x;
  }

  /** What a disciplined transaction removes, nobody refers to on the latest store. */
  lemma RemovedUnreferenced(schema: Schema, h: History, start: nat, s': Store, locks: set<DocumentUuid>,
      x: MeadowlarkId)
    requires Ready(schema, h, start, s', locks) && x in h[start].store && x !in s'
    requires StoredValidated(h[|h| - 1].store) && AliasDisjoint(h[|h| - 1].store)
    ensures x in h[|h| - 1].store && Unreferenced(h[|h| - 1].store, x)
  {
    var s, now := h[start].store, h[|h| - 1].store;
    SnapshotStable(schema, h, start, s', locks);
    assert x in Changed(s, s') && s[x] == now[x] && s[x].documentUuid in locks;
    forall z | z in now ensures !Intersects(now[z].outboundRefs, now[x].aliasIds) {
      if r :| r in now[z].outboundRefs && r in now[x].aliasIds {
        ReferrerIsOld(h, start, s', locks, x, z, r);
      }
    }
  }

  lemma ReadySettled(schema: Schema, h: History, start: nat, s': Store, locks: set<DocumentUuid>, req: Request)
    requires Ready(schema, h, start, s', locks)
    requires StoredValidated(h[|h| - 1].store) && AliasDisjoint(h[|h| - 1].store)
    requires ClaimsFree(schema, h[|h| - 1].store, h[start].store, s')
    ensures Settled(schema, h[|h| - 1].store, h[start].store, s', req)
  {
    forall x | x in h[start].store && x !in s'
      ensures x in h[|h| - 1].store && Unreferenced(h[|h| - 1].store, x)
    {
      RemovedUnreferenced(schema, h, start, s', locks, x);
    }
  }

  lemma RemovalSettled(schema: Schema, a: State, b: State, t: nat)
    requires Steady(schema, a) && CommitTx(a, b, t) && Covers(a.history, a.active[t])
    requires Supported(a.history) && StoredValidated(Current(a)) && CommitClaimFree(schema, a, t)
    requires ValidatingDelete(a.active[t].request)
    ensures CommitSettled(schema, a, b, t)
  {
    EffectReady(schema, a, b, t);
    var tx := a.active[t];
    ReadySettled(schema, a.history, tx.start, Effect(a.history, tx).store, Effect(a.history, tx).locks, tx.request);
  }

  lemma CommitStaysValidated(a: State, b: State, t: nat)
    requires CommitTx(a, b, t) && CommitRepeats(a, b, t)
    requires StoredValidated(Current(a)) && Validating(a.active[t].request)
    ensures StoredValidated(Current(b))
  {
    ServeKeepsValidated(Current(a), a.active[t].request);
  }

  lemma StepValidated(schema: Schema, a: State, b: State)
    requires Steady(schema, a) && Next(a, b) && CommitsCovered(a, b) && CommitsClaimFree(schema, a, b)
    requires Supported(a.history) && StoredValidated(Current(a))
    requires forall t :: t in a.active ==> Validating(a.active[t].request)
    ensures CommitsSettled(schema, a, b) && StoredValidated(Current(b))
  {
    forall t | CommitTx(a, b, t) ensures CommitSettled(schema, a, b, t) {
      assert CommitClaimFree(schema, a, t);
      RemovalSettled(schema, a, b, t);
    }
    StepRepeatsIff(schema, a, b);
    if t :| CommitTx(a, b, t) {
      assert CommitRepeats(a, b, t);
      CommitStaysValidated(a, b, t);
    } else {
      assert b.history == a.history;
    }
  }

  lemma {:induction false} ValidatedStep(schema: Schema, run: seq<State>, i: nat)
    requires Locking(schema, run) && Behaved(schema, run) && AllValidate(run) && i + 1 < |run|
    requires SettledBefore(schema, run, i) && StoredValidated(Current(run[i]))
    ensures StepSettled(schema, run, i) && StoredValidated(Current(run[i + 1]))
  {
    RunSupported(schema, run, i);
    SteadyState(schema, run, i);
    assert CommitsCovered(run[i], run[i + 1]) && CommitsClaimFree(schema, run[i], run[i + 1]);
    assert StepAt(run, i);
    StepValidated(schema, run[i], run[i + 1]);
  }

  lemma {:induction false} RunValidated(schema: Schema, run: seq<State>, i: nat)
    requires Locking(schema, run) && Behaved(schema, run) && AllValidate(run) && i < |run|
    ensures StoredValidated(Current(run[i])) && SettledBefore(schema, run, i)
  {
    if i == 0 {
      assert Current(run[0]) == map[];
    } else {
      RunValidated(schema, run, i - 1);
      ValidatedStep(schema, run, i - 1);
    }
  }

  /** Main result: an interleaving in which every request validates, lock rows cover and claims
      are free goes through the states of the serial run of its commits and gives its answers. */
  lemma {:induction false} ValidatingRunsAreSerial(schema: Schema, run: seq<State>, i: nat)
    requires Run(run) && Behaved(schema, run) && DrawsFresh(run) && AllValidate(run) && i < |run|
    ensures SerialHistory(run[i].history, Committed(run, i))
    ensures Current(run[i]) == Serial.After(Requests(Committed(run, i)))
  {
    RunValidated(schema, run, i);
    SerializableIff(schema, run, i);
    EndIsSerial(run[i].history, Committed(run, i));
  }
}
