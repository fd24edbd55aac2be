/** Serial runs of the MongoDB backend, from an empty collection: one request after the
    other, each either committed or without effect. */
module MongoSerial {
  import opened Model
  import opened MongoValidation
  import opened MongoTransactions
  import opened StoreChanges

  /** A transaction whose answer is not a success is aborted. */
  ghost function Serve(s: Store, req: Request): (Store, Result) {
    var o := Transaction(s, s, s, req);
    (if Succeeded(o.result) then o.store else s, o.result)
  }

  ghost function After(reqs: seq<Request>): Store {
    if reqs == [] then map[] else Serve(After(reqs[..|reqs| - 1]), reqs[|reqs| - 1]).0
  }

  /** All or nothing: an answer that is not a success leaves the store as it was, also after the
      delete half of an identity change. */
  lemma FailureChangesNothing(s: Store, req: Request)
    ensures !Succeeded(Serve(s, req).1) ==> Serve(s, req).0 == s
  {
  }

  // ----- The shapes of a successful transaction -----

  /** A MongoDB identity change moves a document nobody refers to. */
  ghost predicate Relocates(s: Store, s': Store, x: MeadowlarkId, d: Document) {
    Renames(s, s', x, d) && Unreferenced(s, x)
  }

  lemma ClaimCheck(s: Store, a: MeadowlarkId)
    ensures Matching(s, [a]) == {} <==> !Resolves(s, a)
  {
    assert forall x :: x in s && a in s[x].aliasIds ==> a in [a] && x in Matching(s, [a]);
    if x :| x in Matching(s, [a]) {
      assert a in s[x].aliasIds;
    }
  }

  /** Exactly when an upsert may write: it is newer than what it replaces, the superclass
      alias of what it inserts is free, and, unless it comes from an update, a validated
      request has all references resolved and names no document twice. */
  lemma UpsertAcceptedIff(schema: Schema, s: Store, w: WriteRequest, fromUpdate: bool)
    requires Indexed(schema, s) && AliasDisjoint(s) && WellFormedWrite(schema, w)
    ensures UpsertRefusal(s, w, fromUpdate).None? <==>
            && (w.meadowlarkId in s ==> s[w.meadowlarkId].lastModifiedAt < w.info.requestTimestamp)
            && (w.meadowlarkId !in s ==> SuperclassFree(s, w))
            && (w.validate && !fromUpdate ==>
                 AllResolve(s, OutboundRefs(w.info)) && !NamedTwice(s, Targets(w.info.documentReferences)))
  {
    PassIff(schema, s, w.info);
    if w.info.superclassId.Some? {
      ClaimCheck(s, w.info.superclassId.value);
    }
  }

  lemma UpsertWrites(view: Store, s: Store, w: WriteRequest, freshUuid: DocumentUuid) returns (d: Document)
    requires Succeeded(Upserted(UpsertTransaction(view, s, w, freshUuid, None).result))
    ensures var o := UpsertTransaction(view, s, w, freshUuid, None);
      && Carries(d, w) && d.createdBy == w.clientId
      && match o.result
         case InsertSuccess(u) => Inserts(s, o.store, d) && u == d.documentUuid == freshUuid && SuperclassFree(s, w)
         case UpsertUpdateSuccess(u) => Replaces(s, o.store, d) && u == d.documentUuid && d.createdAt.Some?
         case _ => false
  {
    d := UpsertTransaction(view, s, w, freshUuid, None).store[w.meadowlarkId];
    if w.meadowlarkId !in s && w.info.superclassId.Some? {
      ClaimCheck(s, w.info.superclassId.value);
    }
  }

  /** A PUT keeps the creator when it replaces in place, and not when it moves the document. */
  lemma UpdateWrites(first: Store, second: Store, s: Store, w: WriteRequest, uuid: DocumentUuid,
      freshUuid: DocumentUuid)
    returns (x: MeadowlarkId, d: Document)
    requires UpdateTransaction(first, second, s, w, uuid, freshUuid).result.UpdateSuccess?
    ensures var s' := UpdateTransaction(first, second, s, w, uuid, freshUuid).store;
      && Carries(d, w) && d.documentUuid == uuid
      && x in s && s[x].documentUuid == uuid
      && d.createdAt == s[x].createdAt
      && (if x == d.id then Replaces(s, s', d) && d.createdBy == s[x].createdBy
          else
            && w.allowIdentityUpdates && Relocates(s, s', x, d) && d.createdBy == w.clientId
            && (d.id !in s ==> SuperclassFree(s - {x}, w)))
  {
    if UpdateMatches(s, w, uuid) {
      x := w.meadowlarkId;
      d := UpdateTransaction(first, second, s, w, uuid, freshUuid).store[x];
    } else {
      x := IdentityChangeMoves(first, second, s, w, uuid, freshUuid);
      d := DocumentFrom(w, uuid, s[x].createdAt);
      if d.id !in s && w.info.superclassId.Some? {
        assert Matching(s - {x}, [w.info.superclassId.value]) == {};
        ClaimCheck(s - {x}, w.info.superclassId.value);
      }
    }
  }

  lemma UpsertShape(s: Store, w: WriteRequest, freshUuid: DocumentUuid) returns (d: Document)
    requires Succeeded(Serve(s, Upsert(w, freshUuid)).1)
    ensures var (s', r) := Serve(s, Upsert(w, freshUuid));
      && Carries(d, w) && d.createdBy == w.clientId
      && match r.upsert
         case InsertSuccess(u) => Inserts(s, s', d) && u == d.documentUuid == freshUuid && SuperclassFree(s, w)
         case UpsertUpdateSuccess(u) => Replaces(s, s', d) && u == d.documentUuid
         case _ => false
  {
    d := UpsertWrites(s, s, w, freshUuid);
  }

  lemma UpdateShape(s: Store, w: WriteRequest, uuid: DocumentUuid, freshUuid: DocumentUuid)
    returns (x: MeadowlarkId, d: Document)
    requires Succeeded(Serve(s, Update(w, uuid, freshUuid)).1)
    ensures var s' := Serve(s, Update(w, uuid, freshUuid)).0;
      && Carries(d, w) && d.documentUuid == uuid
      && x in s && s[x].documentUuid == uuid
      && (if x == d.id then Replaces(s, s', d) && d.createdBy == s[x].createdBy
          else
            && w.allowIdentityUpdates && Relocates(s, s', x, d) && d.createdBy == w.clientId
            && (d.id !in s ==> SuperclassFree(s - {x}, w)))
  {
    x, d := UpdateWrites(s, s, s, w, uuid, freshUuid);
  }

  lemma DeleteShape(s: Store, uuid: DocumentUuid, resource: ResourceInfo, validate: bool) returns (x: MeadowlarkId)
    requires Succeeded(Serve(s, Delete(uuid, resource, validate)).1)
    ensures Removes(s, Serve(s, Delete(uuid, resource, validate)).0, x) && s[x].documentUuid == uuid
    ensures validate ==> Unreferenced(s, x)
  {
    x := FindByUuid(s, uuid).value;
  }

  // ----- Alias disjointness and uuid uniqueness -----

  lemma ServeKeepsInvariant(schema: Schema, s: Store, req: Request)
    requires Invariant(schema, s) && WellFormed(schema, req) && FreshUuids(req) !! Uuids(s)
    ensures Invariant(schema, Serve(s, req).0)
  {
    if Succeeded(Serve(s, req).1) {
      match req
      case Upsert(w, freshUuid) =>
        var d := UpsertShape(s, w, freshUuid);
        if d.id in s { OtherUuids(s, d.id); }
        WriteKeepsInvariant(schema, s, w, d);
      case Update(w, uuid, freshUuid) =>
        var x, d := UpdateShape(s, w, uuid, freshUuid);
        OtherUuids(s, x);
        SubstoreKeeps(schema, s, x);
        if x == d.id {
          WriteKeepsInvariant(schema, s, w, d);
        } else {
          assert Uuids(s - {x} - {d.id}) <= Uuids(s - {x});
          WriteKeepsInvariant(schema, s - {x}, w, d);
        }
      case Delete(uuid, resource, validate) =>
        var x := DeleteShape(s, uuid, resource, validate);
        SubstoreKeeps(schema, s, x);
    }
  }

  lemma ServeUuids(s: Store, req: Request)
    ensures Uuids(Serve(s, req).0) <= Uuids(s) + FreshUuids(req)
  {
    if Succeeded(Serve(s, req).1) {
      var s' := Serve(s, req).0;
      forall y | y in s' ensures s'[y].documentUuid in Uuids(s) + FreshUuids(req) {
        match req
        case Upsert(w, freshUuid) =>
          var d := UpsertShape(s, w, freshUuid);
        case Update(w, uuid, freshUuid) =>
          var x, d := UpdateShape(s, w, uuid, freshUuid);
          assert s[x].documentUuid in Uuids(s);
        case Delete(uuid, resource, validate) =>
          var x := DeleteShape(s, uuid, resource, validate);
      }
    }
  }

  /** Main result: in every serial run no alias has two owners and no uuid two ids, through
      inserts, replacements, identity changes and deletes. */
  lemma {:induction false} RunKeepsInvariant(schema: Schema, reqs: seq<Request>)
    requires WellFormedRun(schema, reqs)
    ensures Invariant(schema, After(reqs))
    ensures Uuids(After(reqs)) <= UsedUuids(reqs)
  {
    if reqs != [] {
      var n := |reqs| - 1;
      RunKeepsInvariant(schema, reqs[..n]);
      RunFresh(schema, reqs, n);
      ServeKeepsInvariant(schema, After(reqs[..n]), reqs[n]);
      ServeUuids(After(reqs[..n]), reqs[n]);
      UsedGrows(reqs);
    }
  }

  // ----- Referential integrity -----

  /** Integrity survives any transaction that resolves what it validates and removes only
      what nobody refers to, because a document keeps its aliases as long as it keeps its id. */
  lemma DisciplineKeepsIntegrity(schema: Schema, s: Store, s': Store, locks: set<DocumentUuid>)
    requires Indexed(schema, s) && ReferentialIntegrity(s)
    requires Disciplined(schema, s, s', locks) && RemovesUnreferenced(s, s')
    ensures ReferentialIntegrity(s')
  {
    forall y, r | y in s' && s'[y].validated && r in s'[y].outboundRefs ensures Resolves(s', r) {
      if y !in Changed(s, s') {
        assert s[y] == s'[y];
      }
      assert AllResolve(s, s'[y].outboundRefs);
      var x :| x in s && r in s[x].aliasIds;
      if x !in s' {
        assert Intersects(s'[y].outboundRefs, s[x].aliasIds);
      }
    }
  }

  /** Main result: if deletes validate references, then after every serial run every
      validated document has all its references resolved. */
  lemma {:induction false} RunKeepsIntegrity(schema: Schema, reqs: seq<Request>)
    requires WellFormedRun(schema, reqs)
    requires forall i :: 0 <= i < |reqs| ==> ValidatingDelete(reqs[i])
    ensures ReferentialIntegrity(After(reqs))
  {
    if reqs != [] {
      var n := |reqs| - 1;
      var s, req := After(reqs[..n]), reqs[n];
      RunKeepsIntegrity(schema, reqs[..n]);
      RunKeepsInvariant(schema, reqs[..n]);
      if Succeeded(Serve(s, req).1) {
        var o := Transaction(s, s, s, req);
        TransactionDisciplined(schema, s, s, s, req);
        DisciplineKeepsIntegrity(schema, s, o.store, o.locks);
      }
    }
  }
}
