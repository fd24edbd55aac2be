/** The two backends side by side: on the same requests, with identity updates off, they
    succeed together and hold the same documents, up to the recorded creator. */
module BackendSimulation {
  import opened Model
  import opened ReferenceReport
  import opened StoreChanges
  import Mongo = MongoSerial
  import MongoHistory
  import MongoTx = MongoTransactions
  import MongoCheck = MongoValidation
  import Postgres = PostgresSerial
  import PostgresTx = PostgresTransactions
  import PostgresCheck = PostgresValidation

  /** All fields agree but `createdBy`: an in-place PUT keeps the creator in MongoDB and
      overwrites it in PostgreSQL. */
  ghost predicate Corresponds(m: Store, p: Store) {
    m.Keys == p.Keys && forall x :: x in m ==> m[x].(createdBy := p[x].createdBy) == p[x]
  }

  /** No reference to the document itself. */
  predicate RefersToSelf(w: WriteRequest) {
    Intersects(OutboundRefs(w.info), AliasIds(w.meadowlarkId, w.info.superclassId))
  }

  /** One document named both by its own id and by its superclass id. */
  ghost predicate NamesTwice(schema: Schema, w: WriteRequest) {
    exists a, b :: a in Targets(w.info.documentReferences) && b in Targets(w.info.documentReferences)
      && schema.superclassOf(a) == Some(b)
  }

  ghost predicate Comparable(schema: Schema, req: Request) {
    && Postgres.IdentityFixed(req)
    && (!req.Delete? ==> !RefersToSelf(req.write) && !NamesTwice(schema, req.write))
  }

  ghost predicate NoSelfReferences(s: Store) {
    forall x :: x in s ==> !Intersects(s[x].outboundRefs, s[x].aliasIds)
  }

  ghost predicate Agreement(schema: Schema, m: Store, p: Store) {
    Invariant(schema, m) && NoSelfReferences(m) && Stamped(m) && Corresponds(m, p)
  }

  // ----- Validation -----

  lemma NotNamedTwice(schema: Schema, s: Store, w: WriteRequest)
    requires Indexed(schema, s) && !NamesTwice(schema, w)
    ensures !MongoCheck.NamedTwice(s, Targets(w.info.documentReferences))
  {
    var ids := Targets(w.info.documentReferences);
    forall x, a, b | x in s && a in s[x].aliasIds && b in s[x].aliasIds && a in ids && b in ids ensures a == b {
      assert a != b ==> schema.superclassOf(a) == Some(b) || schema.superclassOf(b) == Some(a);
    }
  }

  lemma MatchedIffOwned(s: Store, ids: seq<MeadowlarkId>, a: MeadowlarkId)
    requires !MongoCheck.NamedTwice(s, ids) && a in ids
    ensures a in MongoCheck.MatchedAliases(s, ids).Values <==> a in PostgresCheck.Owned(s)
  {
    var m := MongoCheck.MatchedAliases(s, ids);
    if a in PostgresCheck.Owned(s) {
      var x :| x in s && a in s[x].aliasIds;
      assert x in m && m[x] == a;
    }
    if a in m.Values {
      var x :| x in m && m[x] == a;
    }
  }

  lemma DocumentReportsAgree(s: Store, refs: seq<DocumentReference>)
    requires AliasDisjoint(s) && !MongoCheck.NamedTwice(s, Targets(refs))
    ensures MongoCheck.DocumentFailures(s, refs) == FindMissing(refs, PostgresCheck.Owned(s))
  {
    var ids := Targets(refs);
    var matched, owned := MongoCheck.MatchedAliases(s, ids).Values, PostgresCheck.Owned(s);
    forall a | a in ids ensures a in matched <==> a in owned {
      MatchedIffOwned(s, ids, a);
    }
    PostgresCheck.DifferenceCongruent(ids, matched, owned);
    if |ids| == |MongoCheck.Matching(s, ids)| {
      MongoCheck.CountShortcut(s, ids);
      FindMissingEmptyIff(refs, owned);
    }
  }

  lemma DescriptorReportsAgree(schema: Schema, s: Store, refs: seq<DocumentReference>)
    requires Indexed(schema, s) && AliasDisjoint(s)
    requires forall r :: r in refs ==> !schema.isAbstract(r.target)
    ensures MongoCheck.DescriptorFailures(s, refs) == FindMissing(refs, PostgresCheck.Owned(s))
  {
    var ids := Targets(refs);
    MongoCheck.ConcreteNamesOwnId(schema, s, refs);
    forall a | a in ids ensures a in MongoCheck.Matching(s, ids) <==> a in PostgresCheck.Owned(s) {
      if a in PostgresCheck.Owned(s) {
        var x :| x in s && a in s[x].aliasIds;
      }
    }
    PostgresCheck.DifferenceCongruent(ids, MongoCheck.Matching(s, ids), PostgresCheck.Owned(s));
    if |ids| == |MongoCheck.Matching(s, ids)| {
      MongoCheck.CountShortcut(s, ids);
      FindMissingEmptyIff(refs, PostgresCheck.Owned(s));
    }
  }

  /** The count shortcut over documents and the one over alias rows give the same report. */
  lemma ReportsAgree(schema: Schema, m: Store, p: Store, w: WriteRequest)
    requires Agreement(schema, m, p) && WellFormedWrite(schema, w) && !NamesTwice(schema, w)
    ensures MongoCheck.Failures(m, w.info) == PostgresCheck.Report(p, w.info)
  {
    NotNamedTwice(schema, m, w);
    DocumentReportsAgree(m, w.info.documentReferences);
    DescriptorReportsAgree(schema, m, w.info.descriptorReferences);
    assert PostgresCheck.Owned(m) == PostgresCheck.Owned(p);
  }

  // ----- One request -----

  lemma SameLookup(m: Store, p: Store, uuid: DocumentUuid)
    requires UuidsDistinct(m) && Corresponds(m, p)
    ensures FindByUuid(m, uuid) == FindByUuid(p, uuid)
    ensures Uuids(m) == Uuids(p) && UuidsDistinct(p)
  {
    forall x | x in m
      ensures m[x].documentUuid == p[x].documentUuid && m[x].documentUuid in Uuids(p) && p[x].documentUuid in Uuids(m)
    {
    }
  }

  lemma SameResolution(m: Store, p: Store, a: MeadowlarkId)
    requires Corresponds(m, p)
    ensures Resolves(m, a) <==> Resolves(p, a)
    ensures Resolves(m, a) <==> MongoCheck.Matching(m, [a]) != {}
  {
    if Resolves(m, a) {
      var x :| x in m && a in m[x].aliasIds;
      assert x in p && a in p[x].aliasIds && a in [a] && x in MongoCheck.Matching(m, [a]);
    }
    if Resolves(p, a) {
      var x :| x in p && a in p[x].aliasIds;
      assert x in m && a in m[x].aliasIds;
    }
    if MongoCheck.Matching(m, [a]) != {} {
      var x :| x in MongoCheck.Matching(m, [a]);
    }
  }

  /** Without a reference to itself a document never collides with its own lock row. */
  lemma NeverThrows(schema: Schema, s: Store, w: WriteRequest, uuid: DocumentUuid)
    requires Invariant(schema, s) && WellFormedWrite(schema, w) && !RefersToSelf(w)
    requires uuid in Uuids(s) ==> w.meadowlarkId in s && s[w.meadowlarkId].documentUuid == uuid
    ensures !MongoTx.LockFails(s, OutboundRefs(w.info), uuid)
  {
    var refs := OutboundRefs(w.info);
    forall x | x in s && s[x].documentUuid == uuid ensures x !in MongoCheck.Matching(s, refs) {
      assert uuid in Uuids(s) && x == w.meadowlarkId;
      assert !Intersects(refs, s[x].aliasIds);
    }
  }

  lemma PutCorresponds(m: Store, p: Store, d: Document, e: Document)
    requires Corresponds(m, p) && d.(createdBy := e.createdBy) == e
    ensures Corresponds(m[d.id := d], p[e.id := e])
  {
  }

  ghost function PostgresServe(p: Store, req: Request): (Store, Result) {
    Postgres.Serve(p, Postgres.Event(req, Postgres.Expected(p, req)))
  }

  /** Away from the lock rows the two upserts are one function of the store. */
  lemma MongoUpsertIs(s: Store, w: WriteRequest, freshUuid: DocumentUuid)
    requires var uuid := if w.meadowlarkId in s then s[w.meadowlarkId].documentUuid else freshUuid;
      !MongoTx.LockFails(s, OutboundRefs(w.info), uuid)
    requires w.info.superclassId.Some? ==>
      (Resolves(s, w.info.superclassId.value) <==> MongoCheck.Matching(s, [w.info.superclassId.value]) != {})
    requires w.meadowlarkId in s ==> s[w.meadowlarkId].createdAt.Some?
    ensures Mongo.Serve(s, Upsert(w, freshUuid))
      == Postgres.Serve(s, Postgres.Event(Upsert(w, freshUuid), MongoTx.WriteFailures(s, w)))
  {
  }

  lemma UpsertCongruent(m: Store, p: Store, w: WriteRequest, freshUuid: DocumentUuid, failures: seq<MissingIdentity>)
    requires Corresponds(m, p)
    requires w.info.superclassId.Some? ==>
      (Resolves(m, w.info.superclassId.value) <==> Resolves(p, w.info.superclassId.value))
    ensures var e := Postgres.Event(Upsert(w, freshUuid), failures);
      Postgres.Serve(m, e).1 == Postgres.Serve(p, e).1 && Corresponds(Postgres.Serve(m, e).0, Postgres.Serve(p, e).0)
  {
    var id := w.meadowlarkId;
    if id in m {
      var d := DocumentFrom(w, m[id].documentUuid, m[id].createdAt);
      PutCorresponds(m, p, d, d);
    } else {
      var d := DocumentFrom(w, freshUuid, Some(w.info.requestTimestamp));
      PutCorresponds(m, p, d, d);
    }
  }

  lemma ExpectedAgrees(schema: Schema, m: Store, p: Store, req: Request)
    requires Agreement(schema, m, p) && WellFormed(schema, req) && Comparable(schema, req)
    ensures !req.Delete? ==> MongoTx.WriteFailures(m, req.write) == Postgres.Expected(p, req)
  {
    if !req.Delete? { ReportsAgree(schema, m, p, req.write); }
  }

  lemma UpsertsAgree(schema: Schema, m: Store, p: Store, w: WriteRequest, freshUuid: DocumentUuid)
    requires Agreement(schema, m, p) && WellFormedWrite(schema, w) && freshUuid !in Uuids(m)
    requires !RefersToSelf(w) && !NamesTwice(schema, w)
    ensures Mongo.Serve(m, Upsert(w, freshUuid)).1 == PostgresServe(p, Upsert(w, freshUuid)).1
    ensures Corresponds(Mongo.Serve(m, Upsert(w, freshUuid)).0, PostgresServe(p, Upsert(w, freshUuid)).0)
  {
    var req := Upsert(w, freshUuid);
    ExpectedAgrees(schema, m, p, req);
    if w.info.superclassId.Some? { SameResolution(m, p, w.info.superclassId.value); }
    assert w.meadowlarkId in m ==> m[w.meadowlarkId].documentUuid in Uuids(m);
    NeverThrows(schema, m, w, if w.meadowlarkId in m then m[w.meadowlarkId].documentUuid else freshUuid);
    MongoUpsertIs(m, w, freshUuid);
    UpsertCongruent(m, p, w, freshUuid, Postgres.Expected(p, req));
  }

  /** The backends check an update in different orders: MongoDB validates references first,
      PostgreSQL last. So they may refuse an update for different reasons. */
  predicate SameVerdict(m: UpdateResult, p: UpdateResult, failures: seq<MissingIdentity>) {
    || m == p
    || (m == UpdateFailureReference(failures) && failures != []
      && (p.UpdateFailureNotExists? || p.UpdateFailureWriteConflict? || p.UpdateFailureImmutableIdentity?))
    || (m.UpdateUnknownFailure? && (p.UpdateFailureWriteConflict? || p.UpdateFailureImmutableIdentity?))
  }

  lemma MongoUpdateAnswers(s: Store, w: WriteRequest, uuid: DocumentUuid, freshUuid: DocumentUuid)
    requires MongoTx.WriteFailures(s, w) == [] && !MongoTx.LockFails(s, OutboundRefs(w.info), uuid)
    requires MongoTx.UpdateMatches(s, w, uuid)
    ensures Mongo.Serve(s, Update(w, uuid, freshUuid))
            == (s[w.meadowlarkId := MongoTx.SetFields(s[w.meadowlarkId], DocumentFrom(w, uuid, None))],
              Updated(UpdateSuccess))
  {
  }

  /** Why a valid update that matches no document is refused. */
  ghost function Reason(s: Store, w: WriteRequest, uuid: DocumentUuid): UpdateResult {
    var found := FindByUuid(s, uuid);
    if found.None? then UpdateFailureNotExists
    else if s[found.value].lastModifiedAt >= w.info.requestTimestamp then UpdateFailureWriteConflict
    else UpdateFailureImmutableIdentity
  }

  lemma MongoReason(s: Store, w: WriteRequest, uuid: DocumentUuid, locks: set<DocumentUuid>, freshUuid: DocumentUuid)
    requires !w.allowIdentityUpdates && !MongoTx.UpdateMatches(s, w, uuid)
    ensures var o := MongoTx.ReplaceOrMove(s, s, w, uuid, locks, freshUuid);
      o.store == s && o.result == Reason(s, w, uuid)
  {
  }

  lemma PostgresReason(s: Store, w: WriteRequest, uuid: DocumentUuid, failures: seq<MissingIdentity>)
    requires UuidsDistinct(s) && !w.allowIdentityUpdates
    ensures !MongoTx.UpdateMatches(s, w, uuid) ==>
      PostgresTx.UpdateTransaction(s, w, uuid, failures).1 == Reason(s, w, uuid)
    ensures MongoTx.UpdateMatches(s, w, uuid) && failures != [] ==>
      PostgresTx.UpdateTransaction(s, w, uuid, failures).1 == UpdateFailureReference(failures)
  {
    SameUuidSameId(s, w.meadowlarkId, uuid);
  }

  lemma MongoUpdateRefused(s: Store, w: WriteRequest, uuid: DocumentUuid, freshUuid: DocumentUuid)
    requires UuidsDistinct(s) && !w.allowIdentityUpdates
    requires MongoTx.WriteFailures(s, w) != [] || !MongoTx.UpdateMatches(s, w, uuid)
    requires FindByUuid(s, uuid) == Some(w.meadowlarkId) ==> !MongoTx.LockFails(s, OutboundRefs(w.info), uuid)
    ensures var failures := MongoTx.WriteFailures(s, w);
      var (s', r) := Mongo.Serve(s, Update(w, uuid, freshUuid));
      && s' == s && r.Updated? && !r.update.UpdateSuccess?
      && SameVerdict(r.update, PostgresTx.UpdateTransaction(s, w, uuid, failures).1, failures)
  {
    var failures := MongoTx.WriteFailures(s, w);
    PostgresReason(s, w, uuid, failures);
    if failures == [] {
      MongoReason(s, w, uuid, MongoTx.OwnerUuids(s, OutboundRefs(w.info)) + {uuid}, freshUuid);
      MongoLockRefusal(s, w, uuid);
    }
  }

  /** If the lock rows of an update repeat its uuid, there is a document with that uuid. */
  lemma MongoLockRefusal(s: Store, w: WriteRequest, uuid: DocumentUuid)
    ensures MongoTx.LockFails(s, OutboundRefs(w.info), uuid) ==> !Reason(s, w, uuid).UpdateFailureNotExists?
  {
    if x :| x in MongoCheck.Matching(s, OutboundRefs(w.info)) && s[x].documentUuid == uuid {
      assert s[x].documentUuid in Uuids(s);
    }
  }

  lemma MongoUpdateIs(s: Store, w: WriteRequest, uuid: DocumentUuid, freshUuid: DocumentUuid)
    requires UuidsDistinct(s) && !w.allowIdentityUpdates
    requires FindByUuid(s, uuid) == Some(w.meadowlarkId) ==> !MongoTx.LockFails(s, OutboundRefs(w.info), uuid)
    ensures var failures := MongoTx.WriteFailures(s, w);
      var d := DocumentFrom(w, uuid, None);
      var (s', r) := Mongo.Serve(s, Update(w, uuid, freshUuid));
      && r.Updated?
      && (if failures == [] && MongoTx.UpdateMatches(s, w, uuid) then
            s' == s[w.meadowlarkId := MongoTx.SetFields(s[w.meadowlarkId], d)] && r.update.UpdateSuccess?
          else
            s' == s && SameVerdict(r.update, PostgresTx.UpdateTransaction(s, w, uuid, failures).1, failures)
              && !r.update.UpdateSuccess?)
  {
    SameUuidSameId(s, w.meadowlarkId, uuid);
    if MongoTx.WriteFailures(s, w) == [] && MongoTx.UpdateMatches(s, w, uuid) {
      MongoUpdateAnswers(s, w, uuid, freshUuid);
    } else {
      MongoUpdateRefused(s, w, uuid, freshUuid);
    }
  }

  lemma SameUuidSameId(s: Store, id: MeadowlarkId, uuid: DocumentUuid)
    requires UuidsDistinct(s)
    ensures FindByUuid(s, uuid) == Some(id) <==> id in s && s[id].documentUuid == uuid
  {
    if id in s && s[id].documentUuid == uuid { assert uuid in Uuids(s); }
  }

  lemma PostgresUpdateIs(s: Store, w: WriteRequest, uuid: DocumentUuid, failures: seq<MissingIdentity>)
    requires UuidsDistinct(s) && !w.allowIdentityUpdates
    ensures var (s', r) := PostgresTx.UpdateTransaction(s, w, uuid, failures);
      if failures == [] && MongoTx.UpdateMatches(s, w, uuid) then
        s' == s[w.meadowlarkId := DocumentFrom(w, uuid, s[w.meadowlarkId].createdAt)] && r.UpdateSuccess?
      else
        s' == s && !r.UpdateSuccess?
  {
    var id := w.meadowlarkId;
    SameUuidSameId(s, id, uuid);
    if id in s {
      var d := DocumentFrom(w, uuid, s[id].createdAt);
      assert (s - {id})[id := d] == s[id := d];
    }
  }

  lemma RefusalCongruent(m: Store, p: Store, w: WriteRequest, uuid: DocumentUuid, failures: seq<MissingIdentity>)
    requires Corresponds(m, p) && FindByUuid(m, uuid) == FindByUuid(p, uuid)
    ensures PostgresTx.UpdateTransaction(m, w, uuid, failures).1 == PostgresTx.UpdateTransaction(p, w, uuid, failures).1
  {
    var found := FindByUuid(m, uuid);
    assert found.Some? ==> m[found.value].lastModifiedAt == p[found.value].lastModifiedAt;
    assert PostgresTx.UpdateRefusal(m, w, found, failures) == PostgresTx.UpdateRefusal(p, w, found, failures);
  }

  lemma UpdatesAgree(schema: Schema, m: Store, p: Store, w: WriteRequest, uuid: DocumentUuid, freshUuid: DocumentUuid)
    requires Agreement(schema, m, p) && WellFormedWrite(schema, w)
    requires !RefersToSelf(w) && !NamesTwice(schema, w) && !w.allowIdentityUpdates
    ensures var req := Update(w, uuid, freshUuid);
      && Mongo.Serve(m, req).1.Updated? && PostgresServe(p, req).1.Updated?
      && SameVerdict(Mongo.Serve(m, req).1.update, PostgresServe(p, req).1.update, Postgres.Expected(p, req))
      && (Succeeded(Mongo.Serve(m, req).1) <==> Succeeded(PostgresServe(p, req).1))
      && Corresponds(Mongo.Serve(m, req).0, PostgresServe(p, req).0)
  {
    var id := w.meadowlarkId;
    var failures := Postgres.Expected(p, Update(w, uuid, freshUuid));
    ExpectedAgrees(schema, m, p, Update(w, uuid, freshUuid));
    SameLookup(m, p, uuid);
    SameUuidSameId(m, id, uuid);
    if FindByUuid(m, uuid) == Some(id) { NeverThrows(schema, m, w, uuid); }
    MongoUpdateIs(m, w, uuid, freshUuid);
    PostgresUpdateIs(p, w, uuid, failures);
    RefusalCongruent(m, p, w, uuid, failures);
    assert MongoTx.UpdateMatches(m, w, uuid) == MongoTx.UpdateMatches(p, w, uuid);
    if MongoTx.UpdateMatches(m, w, uuid) {
      PutCorresponds(m, p, MongoTx.SetFields(m[id], DocumentFrom(w, uuid, None)),
        DocumentFrom(w, uuid, p[id].createdAt));
    }
  }

  lemma SameInbound(m: Store, p: Store, x: MeadowlarkId)
    requires Corresponds(m, p) && NoSelfReferences(m) && x in m
    ensures Unreferenced(m, x) <==> !PostgresTx.ReferencedByAnother(p, x)
  {
    forall y | y in m ensures m[y].outboundRefs == p[y].outboundRefs && m[x].aliasIds == p[x].aliasIds {
    }
  }

  lemma DeletesAgree(schema: Schema, m: Store, p: Store, uuid: DocumentUuid, resource: ResourceInfo, validate: bool)
    requires Agreement(schema, m, p)
    ensures Mongo.Serve(m, Delete(uuid, resource, validate)).1 == PostgresServe(p, Delete(uuid, resource, validate)).1
    ensures Corresponds(Mongo.Serve(m, Delete(uuid, resource, validate)).0,
      PostgresServe(p, Delete(uuid, resource, validate)).0)
  {
    SameLookup(m, p, uuid);
    var found := FindByUuid(m, uuid);
    if found.Some? { SameInbound(m, p, found.value); }
  }

  // ----- Whole runs -----

  lemma ServeKeepsNoSelfReferences(schema: Schema, s: Store, req: Request)
    requires Invariant(schema, s) && NoSelfReferences(s) && WellFormed(schema, req) && Comparable(schema, req)
    ensures NoSelfReferences(Mongo.Serve(s, req).0)
  {
    if Succeeded(Mongo.Serve(s, req).1) {
      match req
      case Upsert(w, freshUuid) => var d := Mongo.UpsertShape(s, w, freshUuid);
      case Update(w, uuid, freshUuid) => var x, d := Mongo.UpdateShape(s, w, uuid, freshUuid);
      case Delete(uuid, resource, validate) => var x := Mongo.DeleteShape(s, uuid, resource, validate);
    }
  }

  /** One request takes agreeing stores to agreeing stores, and succeeds in both or in neither. */
  lemma ServeAgrees(schema: Schema, m: Store, p: Store, req: Request)
    requires Agreement(schema, m, p) && WellFormed(schema, req) && Comparable(schema, req)
    requires FreshUuids(req) !! Uuids(m)
    ensures Succeeded(Mongo.Serve(m, req).1) <==> Succeeded(PostgresServe(p, req).1)
    ensures Agreement(schema, Mongo.Serve(m, req).0, PostgresServe(p, req).0)
  {
    Mongo.ServeKeepsInvariant(schema, m, req);
    MongoHistory.ServeEvolves(schema, m, req);
    ServeKeepsNoSelfReferences(schema, m, req);
    match req
    case Upsert(w, freshUuid) => UpsertsAgree(schema, m, p, w, freshUuid);
    case Update(w, uuid, freshUuid) => UpdatesAgree(schema, m, p, w, uuid, freshUuid);
    case Delete(uuid, resource, validate) => DeletesAgree(schema, m, p, uuid, resource, validate);
  }

  /** What a run has established before its request `n`. */
  lemma {:induction false} BeforeRequest(schema: Schema, events: seq<Postgres.Event>, n: nat)
    requires Postgres.WellFormedEvents(schema, events) && n < |events|
    requires forall i :: 0 <= i < |events| ==> Comparable(schema, events[i].request)
    ensures FreshUuids(events[n].request) !! Uuids(Mongo.After(Postgres.Requests(events[..n])))
    ensures WellFormed(schema, events[n].request) && AliasDisjoint(Postgres.After(events[..n]))
  {
    Postgres.Prefix(schema, events, n);
    Mongo.RunKeepsInvariant(schema, Postgres.Requests(events[..n]));
    Postgres.RunKeepsInvariant(schema, events[..n]);
  }

  /** Main result: after every serial run of comparable requests the two stores agree. */
  lemma {:induction false} RunsAgree(schema: Schema, events: seq<Postgres.Event>)
    requires Postgres.WellFormedEvents(schema, events) && Postgres.Validated(events)
    requires forall i :: 0 <= i < |events| ==> Comparable(schema, events[i].request)
    ensures Agreement(schema, Mongo.After(Postgres.Requests(events)), Postgres.After(events))
  {
    if events != [] {
      var n := |events| - 1;
      Postgres.Prefix(schema, events, n);
      Postgres.ValidatedPrefix(events, n);
      RunsAgree(schema, events[..n]);
      BeforeRequest(schema, events, n);
      ServeAgrees(schema, Mongo.After(Postgres.Requests(events[..n])), Postgres.After(events[..n]), events[n].request);
    }
  }

  /** Main result: the two backends succeed on exactly the same requests of every such run. */
  lemma {:induction false} SameSuccesses(schema: Schema, events: seq<Postgres.Event>, i: nat)
    requires Postgres.WellFormedEvents(schema, events) && Postgres.Validated(events) && i < |events|
    requires forall k :: 0 <= k < |events| ==> Comparable(schema, events[k].request)
    ensures Succeeded(Mongo.Serve(Mongo.After(Postgres.Requests(events[..i])), events[i].request).1)
            <==> Succeeded(Postgres.Serve(Postgres.After(events[..i]), events[i]).1)
  {
    Postgres.Prefix(schema, events, i);
    Postgres.ValidatedPrefix(events, i);
    RunsAgree(schema, events[..i]);
    BeforeRequest(schema, events, i);
    ServeAgrees(schema, Mongo.After(Postgres.Requests(events[..i])), Postgres.After(events[..i]), events[i].request);
  }
}
