/** The search index beside each document store, over serial runs in which every index call
    succeeds. */
module SearchMirror {
  import opened Model
  import opened StoreChanges
  import opened SearchIndex
  import Mongo = MongoSerial
  import Postgres = PostgresSerial

  // ----- MongoDB -----

  ghost function MongoIndex(reqs: seq<Request>): Index {
    if reqs == [] then map[]
    else
      var n := |reqs| - 1;
      Listen(MongoIndex(reqs[..n]), reqs[n], Mongo.Serve(Mongo.After(reqs[..n]), reqs[n]).1)
  }

  lemma SameUuid(s: Store, x: MeadowlarkId)
    requires UuidsDistinct(s) && x in s
    ensures forall y :: y in s && s[y].documentUuid == s[x].documentUuid ==> y == x
  {
  }

  /** A document written under its own id, new or not. */
  lemma PutMirrorsIff(index: Index, s: Store, d: Document, e: Entry, owners: bool)
    requires UuidsDistinct(s) && Mirrors(index, s, owners) && Shows(e, d, owners)
    requires if d.id in s then s[d.id].documentUuid == d.documentUuid else d.documentUuid !in Uuids(s)
    ensures Mirrors(index[KeyOf(d) := e], s[d.id := d], owners)
            <==> (d.id in s ==> IndexName(s[d.id].resource) == IndexName(d.resource))
  {
    if d.id in s {
      assert (s - {d.id})[d.id := d] == s[d.id := d];
      ReplaceMirrorsIff(index, s, d.id, d, e, owners);
    } else {
      InsertMirrors(index, s, d, e, owners);
    }
  }

  /** An in-place PUT comes from the client that created the document. */
  ghost predicate CreatorKept(s: Store, req: Request) {
    req.Update? ==>
      forall x :: x in s && x == req.write.meadowlarkId && s[x].documentUuid == req.documentUuid ==>
        s[x].createdBy == req.write.clientId
  }

  lemma UpsertedMirrorsIff(index: Index, s: Store, req: Request, result: Result, d: Document, owners: bool)
    requires UuidsDistinct(s) && Mirrors(index, s, owners) && req.Upsert?
    requires Carries(d, req.write) && d.createdBy == req.write.clientId
    requires result in {Upserted(InsertSuccess(d.documentUuid)), Upserted(UpsertUpdateSuccess(d.documentUuid))}
    requires if d.id in s then s[d.id].documentUuid == d.documentUuid else d.documentUuid !in Uuids(s)
    ensures Mirrors(Listen(index, req, result), s[d.id := d], owners) <==> NamesOwnResource(s, req)
  {
    PutMirrorsIff(index, s, d, EntryFor(req.write, d.documentUuid), owners);
  }

  lemma MongoUpsertMirrorsIff(schema: Schema, index: Index, s: Store, req: Request, owners: bool)
    requires Invariant(schema, s) && FreshUuids(req) !! Uuids(s) && Mirrors(index, s, owners)
    requires req.Upsert? && Succeeded(Mongo.Serve(s, req).1)
    ensures Mirrors(Listen(index, req, Mongo.Serve(s, req).1), Mongo.Serve(s, req).0, owners)
            <==> MongoIndexable(s, req, owners)
  {
    var d := Mongo.UpsertShape(s, req.write, req.freshUuid);
    UpsertedMirrorsIff(index, s, req, Mongo.Serve(s, req).1, d, owners);
  }

  lemma UpdatedMirrorsIff(index: Index, s: Store, req: Request, x: MeadowlarkId, d: Document, owners: bool)
    requires UuidsDistinct(s) && Mirrors(index, s, owners) && req.Update?
    requires x in s && s[x].documentUuid == req.documentUuid == d.documentUuid && Carries(d, req.write)
    requires d.createdBy == if x == d.id then s[x].createdBy else req.write.clientId
    ensures Mirrors(Listen(index, req, Updated(UpdateSuccess)), (s - {x})[d.id := d], owners)
            <==> NamesOwnResource(s, req) && !Overwrites(s, req) && (owners ==> CreatorKept(s, req))
  {
    SameUuid(s, x);
    UpdateConditions(s, req, x, d);
    ReplaceMirrorsIff(index, s, x, d, EntryFor(req.write, req.documentUuid), owners);
  }

  lemma UpdateConditions(s: Store, req: Request, x: MeadowlarkId, d: Document)
    requires req.Update? && x in s && s[x].documentUuid == req.documentUuid && Carries(d, req.write)
    requires forall y :: y in s && s[y].documentUuid == s[x].documentUuid ==> y == x
    requires d.createdBy == if x == d.id then s[x].createdBy else req.write.clientId
    ensures NamesOwnResource(s, req) <==> IndexName(s[x].resource) == IndexName(d.resource)
    ensures Overwrites(s, req) <==> d.id in s && d.id != x
    ensures CreatorKept(s, req) <==> d.createdBy == req.write.clientId
  {
  }

  lemma MongoUpdateMirrorsIff(schema: Schema, index: Index, s: Store, req: Request, owners: bool)
    requires Invariant(schema, s) && Mirrors(index, s, owners)
    requires req.Update? && Succeeded(Mongo.Serve(s, req).1)
    ensures Mirrors(Listen(index, req, Mongo.Serve(s, req).1), Mongo.Serve(s, req).0, owners)
            <==> MongoIndexable(s, req, owners)
  {
    var x, d := Mongo.UpdateShape(s, req.write, req.documentUuid, req.freshUuid);
    assert (s - {d.id})[d.id := d] == s[d.id := d];
    UpdatedMirrorsIff(index, s, req, x, d, owners);
  }

  lemma MongoDeleteMirrorsIff(index: Index, s: Store, req: Request, owners: bool)
    requires UuidsDistinct(s) && Mirrors(index, s, owners)
    requires req.Delete? && Succeeded(Mongo.Serve(s, req).1)
    ensures Mirrors(Listen(index, req, Mongo.Serve(s, req).1), Mongo.Serve(s, req).0, owners)
            <==> MongoIndexable(s, req, owners)
  {
    var x := Mongo.DeleteShape(s, req.documentUuid, req.resource, req.validateNoReferences);
    RemovedMirrorsIff(index, s, req, Mongo.Serve(s, req).1, x, owners);
  }

  lemma RemovedMirrorsIff(index: Index, s: Store, req: Request, result: Result, x: MeadowlarkId, owners: bool)
    requires UuidsDistinct(s) && Mirrors(index, s, owners) && req.Delete? && result == Deleted(DeleteSuccess)
    requires x in s && s[x].documentUuid == req.documentUuid
    ensures Mirrors(Listen(index, req, result), s - {x}, owners) <==> NamesOwnResource(s, req)
  {
    OwnResource(s, x, req.documentUuid, req.resource, req.validateNoReferences);
    RemoveMirrorsIff(index, s, x, IndexName(req.resource), owners);
  }

  lemma OwnResource(s: Store, x: MeadowlarkId, uuid: DocumentUuid, resource: ResourceInfo, validate: bool)
    requires UuidsDistinct(s) && x in s && s[x].documentUuid == uuid
    ensures NamesOwnResource(s, Delete(uuid, resource, validate)) <==> IndexName(s[x].resource) == IndexName(resource)
  {
  }

  /** What a success must meet for the index to follow it. */
  ghost predicate MongoIndexable(s: Store, req: Request, owners: bool) {
    NamesOwnResource(s, req) && !Overwrites(s, req) && (owners ==> CreatorKept(s, req))
  }

  /** Exactly when the index still agrees after one success: the request names the resource
      its document is indexed under, and no held id is overwritten; for the creators to agree
      too, an in-place PUT comes from the creator, because the store keeps the creator then
      and the index does not. */
  lemma MongoStepMirrorsIff(schema: Schema, index: Index, s: Store, req: Request, owners: bool)
    requires Invariant(schema, s) && FreshUuids(req) !! Uuids(s) && Mirrors(index, s, owners)
    requires Succeeded(Mongo.Serve(s, req).1)
    ensures Mirrors(Listen(index, req, Mongo.Serve(s, req).1), Mongo.Serve(s, req).0, owners)
            <==> MongoIndexable(s, req, owners)
  {
    match req
    case Upsert(_, _) => MongoUpsertMirrorsIff(schema, index, s, req, owners);
    case Update(_, _, _) => MongoUpdateMirrorsIff(schema, index, s, req, owners);
    case Delete(_, _, _) => MongoDeleteMirrorsIff(index, s, req, owners);
  }

  lemma FailureIgnored(index: Index, req: Request, result: Result)
    requires !Succeeded(result)
    ensures Listen(index, req, result) == index
  {
  }

  ghost predicate MongoIndexableAt(reqs: seq<Request>, i: nat, owners: bool)
    requires i < |reqs|
  {
    Succeeded(Mongo.Serve(Mongo.After(reqs[..i]), reqs[i]).1) ==>
      MongoIndexable(Mongo.After(reqs[..i]), reqs[i], owners)
  }

  /** A failure changes neither the store nor the index. */
  lemma {:induction false} MongoServeMirrorsIff(schema: Schema, reqs: seq<Request>, i: nat, owners: bool)
    requires WellFormedRun(schema, reqs) && i < |reqs|
    requires Mirrors(MongoIndex(reqs[..i]), Mongo.After(reqs[..i]), owners)
    ensures Mirrors(MongoIndex(reqs[..i + 1]), Mongo.After(reqs[..i + 1]), owners)
            <==> MongoIndexableAt(reqs, i, owners)
  {
    assert reqs[..i + 1][..i] == reqs[..i];
    var index, s := MongoIndex(reqs[..i]), Mongo.After(reqs[..i]);
    Mongo.RunKeepsInvariant(schema, reqs[..i]);
    RunFresh(schema, reqs, i);
    if Succeeded(Mongo.Serve(s, reqs[i]).1) {
      MongoStepMirrorsIff(schema, index, s, reqs[i], owners);
    } else {
      FailureIgnored(index, reqs[i], Mongo.Serve(s, reqs[i]).1);
    }
  }

  ghost predicate MongoRunIndexable(reqs: seq<Request>, owners: bool) {
    forall i: nat :: i < |reqs| ==> MongoIndexableAt(reqs, i, owners)
  }

  lemma {:induction false} MongoPrefixMirrors(schema: Schema, reqs: seq<Request>, i: nat, owners: bool)
    requires WellFormedRun(schema, reqs) && MongoRunIndexable(reqs, owners) && i <= |reqs|
    ensures Mirrors(MongoIndex(reqs[..i]), Mongo.After(reqs[..i]), owners)
  {
    if i > 0 {
      MongoPrefixMirrors(schema, reqs, i - 1, owners);
      MongoServeMirrorsIff(schema, reqs, i - 1, owners);
    }
  }

  /** Main result: beside MongoDB the index shows exactly the stored documents after every
      request of a serial run if and only if every success of the run is indexable; with
      `owners` it shows their creators as well. */
  lemma {:induction false} MongoIndexAgreesIff(schema: Schema, reqs: seq<Request>, owners: bool)
    requires WellFormedRun(schema, reqs)
    ensures (forall i :: 0 <= i <= |reqs| ==> Mirrors(MongoIndex(reqs[..i]), Mongo.After(reqs[..i]), owners))
            <==> MongoRunIndexable(reqs, owners)
  {
    if MongoRunIndexable(reqs, owners) {
      forall i | 0 <= i <= |reqs| ensures Mirrors(MongoIndex(reqs[..i]), Mongo.After(reqs[..i]), owners) {
        MongoPrefixMirrors(schema, reqs, i, owners);
      }
    }
    if forall i :: 0 <= i <= |reqs| ==> Mirrors(MongoIndex(reqs[..i]), Mongo.After(reqs[..i]), owners) {
      forall i: nat | i < |reqs| ensures MongoIndexableAt(reqs, i, owners) {
        MongoServeMirrorsIff(schema, reqs, i, owners);
      }
    }
  }

  // ----- PostgreSQL -----

  ghost function PostgresIndex(events: seq<Postgres.Event>): Index {
    if events == [] then map[]
    else
      var n := |events| - 1;
      Listen(PostgresIndex(events[..n]), events[n].request, Postgres.Serve(Postgres.After(events[..n]), events[n]).1)
  }

  lemma PostgresUpsertMirrorsIff(index: Index, s: Store, w: WriteRequest, freshUuid: DocumentUuid,
      failures: seq<MissingIdentity>)
    requires UuidsDistinct(s) && freshUuid !in Uuids(s) && Mirrors(index, s, true)
    requires Succeeded(Postgres.Serve(s, Postgres.Event(Upsert(w, freshUuid), failures)).1)
    ensures var (s', result) := Postgres.Serve(s, Postgres.Event(Upsert(w, freshUuid), failures));
      Mirrors(Listen(index, Upsert(w, freshUuid), result), s', true) <==> NamesOwnResource(s, Upsert(w, freshUuid))
  {
    var d := Postgres.UpsertShape(s, w, freshUuid, failures);
    UpsertedMirrorsIff(index, s, Upsert(w, freshUuid),
      Postgres.Serve(s, Postgres.Event(Upsert(w, freshUuid), failures)).1, d, true);
  }

  lemma PostgresUpdateMirrorsIff(index: Index, s: Store, w: WriteRequest, uuid: DocumentUuid, freshUuid: DocumentUuid,
      failures: seq<MissingIdentity>)
    requires UuidsDistinct(s) && Mirrors(index, s, true)
    requires Succeeded(Postgres.Serve(s, Postgres.Event(Update(w, uuid, freshUuid), failures)).1)
    ensures var req := Update(w, uuid, freshUuid);
      var (s', result) := Postgres.Serve(s, Postgres.Event(req, failures));
      Mirrors(Listen(index, req, result), s', true) <==> NamesOwnResource(s, req)
  {
    var x, d := Postgres.UpdateShape(s, w, uuid, freshUuid, failures);
    SameUuid(s, x);
    assert (s - {d.id})[d.id := d] == s[d.id := d];
    ReplaceMirrorsIff(index, s, x, d, EntryFor(w, uuid), true);
  }

  lemma PostgresDeleteMirrorsIff(index: Index, s: Store, uuid: DocumentUuid, resource: ResourceInfo, validate: bool,
      failures: seq<MissingIdentity>)
    requires UuidsDistinct(s) && Mirrors(index, s, true)
    requires Succeeded(Postgres.Serve(s, Postgres.Event(Delete(uuid, resource, validate), failures)).1)
    ensures var req := Delete(uuid, resource, validate);
      var (s', result) := Postgres.Serve(s, Postgres.Event(req, failures));
      Mirrors(Listen(index, req, result), s', true) <==> NamesOwnResource(s, req)
  {
    var x := Postgres.DeleteShape(s, uuid, resource, validate, failures);
    RemovedMirrorsIff(index, s, Delete(uuid, resource, validate),
      Postgres.Serve(s, Postgres.Event(Delete(uuid, resource, validate), failures)).1, x, true);
  }

  /** The unique index on ids leaves one condition. The creator agrees as well. */
  lemma PostgresStepMirrorsIff(index: Index, s: Store, e: Postgres.Event)
    requires UuidsDistinct(s) && FreshUuids(e.request) !! Uuids(s) && Mirrors(index, s, true)
    requires Succeeded(Postgres.Serve(s, e).1)
    ensures Mirrors(Listen(index, e.request, Postgres.Serve(s, e).1), Postgres.Serve(s, e).0, true)
            <==> NamesOwnResource(s, e.request)
  {
    match e.request
    case Upsert(w, freshUuid) => PostgresUpsertMirrorsIff(index, s, w, freshUuid, e.failures);
    case Update(w, uuid, freshUuid) => PostgresUpdateMirrorsIff(index, s, w, uuid, freshUuid, e.failures);
    case Delete(uuid, resource, validate) => PostgresDeleteMirrorsIff(index, s, uuid, resource, validate, e.failures);
  }

  ghost predicate PostgresIndexableAt(events: seq<Postgres.Event>, i: nat)
    requires i < |events|
  {
    Succeeded(Postgres.Serve(Postgres.After(events[..i]), events[i]).1) ==>
      NamesOwnResource(Postgres.After(events[..i]), events[i].request)
  }

  lemma {:induction false} PostgresServeMirrorsIff(schema: Schema, events: seq<Postgres.Event>, i: nat)
    requires Postgres.WellFormedEvents(schema, events) && i < |events|
    requires Mirrors(PostgresIndex(events[..i]), Postgres.After(events[..i]), true)
    ensures Mirrors(PostgresIndex(events[..i + 1]), Postgres.After(events[..i + 1]), true)
            <==> PostgresIndexableAt(events, i)
  {
    assert events[..i + 1][..i] == events[..i];
    var index, s, e := PostgresIndex(events[..i]), Postgres.After(events[..i]), events[i];
    Postgres.Prefix(schema, events, i);
    Postgres.RunKeepsUuids(schema, events[..i]);
    if Succeeded(Postgres.Serve(s, e).1) {
      PostgresStepMirrorsIff(index, s, e);
    } else {
      Postgres.FailureChangesNothing(s, e);
      FailureIgnored(index, e.request, Postgres.Serve(s, e).1);
    }
  }

  ghost predicate PostgresRunIndexable(events: seq<Postgres.Event>) {
    forall i: nat :: i < |events| ==> PostgresIndexableAt(events, i)
  }

  lemma {:induction false} PostgresPrefixMirrors(schema: Schema, events: seq<Postgres.Event>, i: nat)
    requires Postgres.WellFormedEvents(schema, events) && PostgresRunIndexable(events) && i <= |events|
    ensures Mirrors(PostgresIndex(events[..i]), Postgres.After(events[..i]), true)
  {
    if i > 0 {
      PostgresPrefixMirrors(schema, events, i - 1);
      PostgresServeMirrorsIff(schema, events, i - 1);
    }
  }

  /** Main result: beside PostgreSQL the index shows exactly the stored documents, creators
      included, after every request of a serial run if and only if every success names its
      document's own resource. */
  lemma {:induction false} PostgresIndexAgreesIff(schema: Schema, events: seq<Postgres.Event>)
    requires Postgres.WellFormedEvents(schema, events)
    ensures (forall i :: 0 <= i <= |events| ==> Mirrors(PostgresIndex(events[..i]), Postgres.After(events[..i]), true))
            <==> PostgresRunIndexable(events)
  {
    if PostgresRunIndexable(events) {
      forall i | 0 <= i <= |events| ensures Mirrors(PostgresIndex(events[..i]), Postgres.After(events[..i]), true) {
        PostgresPrefixMirrors(schema, events, i);
      }
    }
    if forall i :: 0 <= i <= |events| ==> Mirrors(PostgresIndex(events[..i]), Postgres.After(events[..i]), true) {
      forall i: nat | i < |events| ensures PostgresIndexableAt(events, i) {
        PostgresServeMirrorsIff(schema, events, i);
      }
    }
  }

  // ----- Listeners and queries over a run -----

  /** A search engine whose listeners have heard every answer of a run. */
  method FollowRun(reqs: seq<Request>, results: seq<Result>, ghost events: seq<Postgres.Event>)
    returns (engine: SearchEngine)
    requires Postgres.Requests(events) == reqs && |results| == |reqs|
    requires forall i :: 0 <= i < |events| ==> results[i] == Postgres.Serve(Postgres.After(events[..i]), events[i]).1
    ensures fresh(engine) && engine.entries == PostgresIndex(events)
  {
    engine := new SearchEngine();
    for i := 0 to |reqs|
      invariant fresh(engine) && engine.entries == PostgresIndex(events[..i])
    {
      engine.Notify(reqs[i], results[i], true);
      assert events[..i + 1][..i] == events[..i];
    }
    assert events[..|reqs|] == events;
  }

  /** Main result: after a serial PostgreSQL run a query returns exactly the stored documents
      in its index that satisfy its parameters and, if it is restricted to an owner, whose
      creator the engine matches with the client. */
  method QueryAfterRun(ghost schema: Schema, reqs: seq<Request>, results: seq<Result>,
      ghost events: seq<Postgres.Event>, resource: ResourceInfo, parameters: seq<(string, string)>,
      strategy: AuthorizationStrategy, clientId: string, search: TextSearch) returns (hits: set<Key>)
    requires Postgres.WellFormedEvents(schema, events) && PostgresRunIndexable(events)
    requires Postgres.Requests(events) == reqs && |results| == |reqs|
    requires forall i :: 0 <= i < |events| ==> results[i] == Postgres.Serve(Postgres.After(events[..i]), events[i]).1
    ensures var s := Postgres.After(events);
      hits == set x | x in s && IndexName(s[x].resource) == IndexName(resource)
                      && Wanted(EntryOf(s[x]), resource, parameters, strategy, clientId, search) :: KeyOf(s[x])
  {
    var engine := FollowRun(reqs, results, events);
    hits := engine.QueryDocuments(resource, parameters, strategy, clientId, search);
    PostgresPrefixMirrors(schema, events, |events|);
    assert events[..|events|] == events;
    QueryExact(engine.entries, Postgres.After(events), resource, parameters, strategy, clientId, search, hits);
  }

  /** Main result: after such a run an ownership-filtered query without parameters returns exactly
      the client's documents in its index if and only if the engine's match tells the client
      from every other creator there. */
  method OwnedAfterRun(ghost schema: Schema, reqs: seq<Request>, results: seq<Result>,
      ghost events: seq<Postgres.Event>, resource: ResourceInfo, clientId: string, search: TextSearch)
    returns (hits: set<Key>)
    requires Postgres.WellFormedEvents(schema, events) && PostgresRunIndexable(events) && !resource.isDescriptor
    requires Postgres.Requests(events) == reqs && |results| == |reqs|
    requires forall i :: 0 <= i < |events| ==> results[i] == Postgres.Serve(Postgres.After(events[..i]), events[i]).1
    ensures var s := Postgres.After(events);
      hits == Owned(s, resource, clientId) <==>
        forall x :: x in s && IndexName(s[x].resource) == IndexName(resource) ==>
          (search.creator(s[x].createdBy, clientId) <==> s[x].createdBy == clientId)
  {
    hits := QueryAfterRun(schema, reqs, results, events, resource, [], OwnershipBased, clientId, search);
    Postgres.RunKeepsUuids(schema, events);
    OwnershipQueryExactIff(Postgres.After(events), resource, clientId, search, hits);
  }
}
