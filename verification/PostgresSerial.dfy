/** Serial runs of the PostgreSQL backend, from empty tables. An event is a request together
    with what reference validation answered; most results hold whatever it answered. */
module PostgresSerial {
  import opened Model
  import opened PostgresTransactions
  import opened StoreChanges
  import Validation = PostgresValidation

  datatype Event = Event(request: Request, failures: seq<MissingIdentity>)

  function Requests(events: seq<Event>): (reqs: seq<Request>)
    ensures |reqs| == |events| && forall i :: 0 <= i < |events| ==> reqs[i] == events[i].request
  {
    seq(|events|, i requires 0 <= i < |events| => events[i].request)
  }

  ghost function Serve(s: Store, e: Event): (Store, Result) {
    Transaction(s, e.request, e.failures)
  }

  ghost function After(events: seq<Event>): Store {
    if events == [] then map[] else Serve(After(events[..|events| - 1]), events[|events| - 1]).0
  }

  ghost predicate WellFormedEvents(schema: Schema, events: seq<Event>) {
    WellFormedRun(schema, Requests(events))
  }

  predicate IdentityFixed(req: Request) {
    req.Update? ==> !req.write.allowIdentityUpdates
  }

  /** What validation answers when no alias has two owners. */
  function Expected(s: Store, req: Request): seq<MissingIdentity> {
    if req.Delete? || !req.write.validate then [] else Validation.Report(s, req.write.info)
  }

  ghost predicate Validated(events: seq<Event>) {
    forall i :: 0 <= i < |events| && AliasDisjoint(After(events[..i])) ==>
      events[i].failures == Expected(After(events[..i]), events[i].request)
  }

  /** The hypotheses of a run hold of its prefixes. */
  lemma {:induction false} Prefix(schema: Schema, events: seq<Event>, n: nat)
    requires WellFormedEvents(schema, events) && n < |events|
    ensures Requests(events)[..n] == Requests(events[..n])
    ensures WellFormedEvents(schema, events[..n]) && WellFormed(schema, events[n].request)
    ensures FreshUuids(events[n].request) !! UsedUuids(Requests(events[..n]))
  {
    assert Requests(events)[..n] == Requests(events[..n]);
    assert WellFormed(schema, Requests(events)[n]);
    RunFresh(schema, Requests(events), n);
  }

  lemma {:induction false} ValidatedPrefix(events: seq<Event>, n: nat)
    requires Validated(events) && n <= |events|
    ensures Validated(events[..n])
  {
    forall i | 0 <= i < n ensures events[..n][..i] == events[..i] {
    }
  }

  lemma {:induction false} ValidatedOneMore(events: seq<Event>, e: Event)
    requires Validated(events) && (AliasDisjoint(After(events)) ==> e.failures == Expected(After(events), e.request))
    ensures Validated(events + [e])
    ensures After(events + [e]) == Serve(After(events), e).0
  {
    var more := events + [e];
    assert more[..|events|] == events;
    forall i | 0 <= i < |more| ensures more[..i] == if i < |events| then events[..i] else events {
    }
  }

  /** All or nothing: an answer that is not a success leaves the store as it was. */
  lemma FailureChangesNothing(s: Store, e: Event)
    ensures !Succeeded(Serve(s, e).1) ==> Serve(s, e).0 == s
  {
    match e.request
    case Upsert(w, freshUuid) => assert WriteUpserted(s, w, freshUuid).1.InsertSuccess?
      || WriteUpserted(s, w, freshUuid).1.UpsertUpdateSuccess?;
    case Update(w, uuid, freshUuid) =>
    case Delete(uuid, resource, validate) =>
  }

  // ----- The shapes of a successful transaction -----

  lemma UpsertShape(s: Store, w: WriteRequest, freshUuid: DocumentUuid, failures: seq<MissingIdentity>)
    returns (d: Document)
    requires Succeeded(Serve(s, Event(Upsert(w, freshUuid), failures)).1)
    ensures var (s', r) := Serve(s, Event(Upsert(w, freshUuid), failures));
      && Carries(d, w) && d.createdBy == w.clientId
      && match r.upsert
         case InsertSuccess(u) => Inserts(s, s', d) && u == d.documentUuid == freshUuid && SuperclassFree(s, w)
         case UpsertUpdateSuccess(u) => Replaces(s, s', d) && u == d.documentUuid
         case _ => false
    ensures failures == []
  {
    d := Serve(s, Event(Upsert(w, freshUuid), failures)).0[w.meadowlarkId];
  }

  /** A PUT makes its client the creator, and moves a document only onto a free id. */
  lemma UpdateShape(s: Store, w: WriteRequest, uuid: DocumentUuid, freshUuid: DocumentUuid,
      failures: seq<MissingIdentity>) returns (x: MeadowlarkId, d: Document)
    requires Succeeded(Serve(s, Event(Update(w, uuid, freshUuid), failures)).1)
    ensures var s' := Serve(s, Event(Update(w, uuid, freshUuid), failures)).0;
      && Carries(d, w) && d.documentUuid == uuid && d.createdBy == w.clientId
      && x in s && s[x].documentUuid == uuid && FindByUuid(s, uuid) == Some(x)
      && d == DocumentFrom(w, uuid, s[x].createdAt)
      && (if x == d.id then Replaces(s, s', d)
          else w.allowIdentityUpdates && Renames(s, s', x, d) && d.id !in s)
    ensures failures == []
  {
    x := FindByUuid(s, uuid).value;
    d := DocumentFrom(w, uuid, s[x].createdAt);
    assert (s - {d.id})[d.id := d] == s[d.id := d];
  }

  lemma DeleteShape(s: Store, uuid: DocumentUuid, resource: ResourceInfo, validate: bool,
      failures: seq<MissingIdentity>) returns (x: MeadowlarkId)
    requires Succeeded(Serve(s, Event(Delete(uuid, resource, validate), failures)).1)
    ensures Removes(s, Serve(s, Event(Delete(uuid, resource, validate), failures)).0, x) && s[x].documentUuid == uuid
    ensures validate ==> !ReferencedByAnother(s, x)
  {
    x := FindByUuid(s, uuid).value;
  }

  // ----- Alias disjointness and uuid uniqueness -----

  lemma ServeKeepsUuids(s: Store, e: Event)
    requires UuidsDistinct(s) && FreshUuids(e.request) !! Uuids(s)
    ensures UuidsDistinct(Serve(s, e).0)
    ensures Uuids(Serve(s, e).0) <= Uuids(s) + FreshUuids(e.request)
  {
    FailureChangesNothing(s, e);
    if Succeeded(Serve(s, e).1) {
      match e.request
      case Upsert(w, freshUuid) =>
        var d := UpsertShape(s, w, freshUuid, e.failures);
        if d.id in s { OtherUuids(s, d.id); } else { assert s - {d.id} == s; }
        PutKeepsUuids(s, d);
      case Update(w, uuid, freshUuid) =>
        var x, d := UpdateShape(s, w, uuid, freshUuid, e.failures);
        OtherUuids(s, x);
        assert d.id != x ==> s - {x} - {d.id} == s - {x};
        PutKeepsUuids(if x == d.id then s else s - {x}, d);
      case Delete(uuid, resource, validate) =>
        var x := DeleteShape(s, uuid, resource, validate, e.failures);
        OtherUuids(s, x);
    }
  }

  /** A successful update that moves its document to another id. */
  ghost predicate IdentityChange(s: Store, e: Event) {
    e.request.Update? && Succeeded(Serve(s, e).1)
      && FindByUuid(s, e.request.documentUuid) != Some(e.request.write.meadowlarkId)
  }

  lemma FixedMeansNoChange(s: Store, e: Event)
    requires IdentityFixed(e.request)
    ensures !IdentityChange(s, e)
  {
    if IdentityChange(s, e) {
      var x, d := UpdateShape(s, e.request.write, e.request.documentUuid, e.request.freshUuid, e.failures);
    }
  }

  lemma ServeKeepsInvariant(schema: Schema, s: Store, e: Event)
    requires Invariant(schema, s) && WellFormed(schema, e.request) && FreshUuids(e.request) !! Uuids(s)
    requires !IdentityChange(s, e)
    ensures Invariant(schema, Serve(s, e).0)
  {
    FailureChangesNothing(s, e);
    if Succeeded(Serve(s, e).1) {
      match e.request
      case Upsert(w, freshUuid) =>
        var d := UpsertShape(s, w, freshUuid, e.failures);
        if d.id in s { OtherUuids(s, d.id); }
        WriteKeepsInvariant(schema, s, w, d);
      case Update(w, uuid, freshUuid) =>
        var x, d := UpdateShape(s, w, uuid, freshUuid, e.failures);
        OtherUuids(s, x);
        WriteKeepsInvariant(schema, s, w, d);
      case Delete(uuid, resource, validate) =>
        var x := DeleteShape(s, uuid, resource, validate, e.failures);
        SubstoreKeeps(schema, s, x);
    }
  }

  lemma PutIndexed(schema: Schema, s: Store, w: WriteRequest, d: Document)
    requires Indexed(schema, s) && WellFormedWrite(schema, w) && Carries(d, w)
    ensures Indexed(schema, s[d.id := d])
  {
    var s' := s[d.id := d];
    forall x | x in s'
      ensures s'[x].id == x && Concrete(schema, x) && s'[x].aliasIds == AliasIds(x, schema.superclassOf(x))
    {
    }
  }

  lemma ServeKeepsIndexed(schema: Schema, s: Store, e: Event)
    requires Indexed(schema, s) && WellFormed(schema, e.request)
    ensures Indexed(schema, Serve(s, e).0)
  {
    FailureChangesNothing(s, e);
    if Succeeded(Serve(s, e).1) {
      match e.request
      case Upsert(w, freshUuid) =>
        var d := UpsertShape(s, w, freshUuid, e.failures);
        PutIndexed(schema, s, w, d);
      case Update(w, uuid, freshUuid) =>
        var x, d := UpdateShape(s, w, uuid, freshUuid, e.failures);
        PutIndexed(schema, if x == d.id then s else s - {x}, w, d);
      case Delete(uuid, resource, validate) =>
        var x := DeleteShape(s, uuid, resource, validate, e.failures);
    }
  }

  /** Identity changes included, every document answers to exactly the aliases its id implies. */
  lemma {:induction false} RunKeepsIndexed(schema: Schema, events: seq<Event>)
    requires WellFormedEvents(schema, events)
    ensures Indexed(schema, After(events))
  {
    if events != [] {
      var n := |events| - 1;
      Prefix(schema, events, n);
      RunKeepsIndexed(schema, events[..n]);
      ServeKeepsIndexed(schema, After(events[..n]), events[n]);
    }
  }

  /** Identity changes included, no uuid is ever shared. */
  lemma {:induction false} RunKeepsUuids(schema: Schema, events: seq<Event>)
    requires WellFormedEvents(schema, events)
    ensures UuidsDistinct(After(events)) && Uuids(After(events)) <= UsedUuids(Requests(events))
  {
    if events != [] {
      var n := |events| - 1;
      Prefix(schema, events, n);
      RunKeepsUuids(schema, events[..n]);
      ServeKeepsUuids(After(events[..n]), events[n]);
      UsedGrows(Requests(events));
    }
  }

  /** Main result: with identity updates off, in every serial run no alias has two owners. */
  lemma {:induction false} RunKeepsInvariant(schema: Schema, events: seq<Event>)
    requires WellFormedEvents(schema, events)
    requires forall i :: 0 <= i < |events| ==> IdentityFixed(events[i].request)
    ensures Invariant(schema, After(events))
  {
    if events != [] {
      var n := |events| - 1;
      Prefix(schema, events, n);
      RunKeepsInvariant(schema, events[..n]);
      RunKeepsUuids(schema, events[..n]);
      FixedMeansNoChange(After(events[..n]), events[n]);
      ServeKeepsInvariant(schema, After(events[..n]), events[n]);
    }
  }

  // ----- Referential integrity -----

  lemma WriteKeepsIntegrity(schema: Schema, s: Store, w: WriteRequest, d: Document)
    requires Indexed(schema, s) && ReferentialIntegrity(s) && WellFormedWrite(schema, w)
    requires Carries(d, w) && (d.validated ==> AllResolve(s, d.outboundRefs))
    ensures ReferentialIntegrity(s[d.id := d])
  {
    var s' := s[d.id := d];
    forall y, r | y in s' && s'[y].validated && r in s'[y].outboundRefs ensures Resolves(s', r) {
      assert AllResolve(s, s'[y].outboundRefs);
      var x :| x in s && r in s[x].aliasIds;
      assert r in s'[x].aliasIds;
    }
  }

  lemma ServeKeepsIntegrity(schema: Schema, s: Store, e: Event)
    requires Invariant(schema, s) && ReferentialIntegrity(s) && WellFormed(schema, e.request)
    requires !IdentityChange(s, e) && (e.request.Delete? ==> e.request.validateNoReferences)
    requires e.failures == Expected(s, e.request)
    ensures ReferentialIntegrity(Serve(s, e).0)
  {
    FailureChangesNothing(s, e);
    if !e.request.Delete? { Validation.ReportEmptyIff(s, e.request.write.info); }
    if Succeeded(Serve(s, e).1) {
      match e.request
      case Upsert(w, freshUuid) =>
        var d := UpsertShape(s, w, freshUuid, e.failures);
        WriteKeepsIntegrity(schema, s, w, d);
      case Update(w, uuid, freshUuid) =>
        var x, d := UpdateShape(s, w, uuid, freshUuid, e.failures);
        WriteKeepsIntegrity(schema, s, w, d);
      case Delete(uuid, resource, validate) =>
        var x := DeleteShape(s, uuid, resource, validate, e.failures);
        RemovalKeepsIntegrity(s, x);
    }
  }

  lemma RemovalKeepsIntegrity(s: Store, x: MeadowlarkId)
    requires x in s && ReferentialIntegrity(s) && !ReferencedByAnother(s, x)
    ensures ReferentialIntegrity(s - {x})
  {
    var s' := s - {x};
    forall y, r | y in s' && s'[y].validated && r in s'[y].outboundRefs ensures Resolves(s', r) {
      assert AllResolve(s, s[y].outboundRefs);
      var z :| z in s && r in s[z].aliasIds;
      assert z == x ==> Intersects(s[y].outboundRefs, s[x].aliasIds);
      assert z in s' && r in s'[z].aliasIds;
    }
  }

  /** Main result: with identity updates off and validating deletes, every validated document
      has all its references resolved after every serial run. */
  lemma {:induction false} RunKeepsIntegrity(schema: Schema, events: seq<Event>)
    requires WellFormedEvents(schema, events) && Validated(events)
    requires forall i :: 0 <= i < |events| ==> IdentityFixed(events[i].request)
    requires DeletesValidate(events)
    ensures ReferentialIntegrity(After(events))
  {
    if events != [] {
      var n := |events| - 1;
      Prefix(schema, events, n);
      ValidatedPrefix(events, n);
      RunKeepsIntegrity(schema, events[..n]);
      RunKeepsInvariant(schema, events[..n]);
      FixedMeansNoChange(After(events[..n]), events[n]);
      ServeKeepsIntegrity(schema, After(events[..n]), events[n]);
    }
  }

  // ----- What an identity change can break -----

  /** The aliases that nobody answers to once `s[x]` has become `d`. */
  predicate Lost(s: Store, x: MeadowlarkId, d: Document, a: MeadowlarkId)
    requires x in s
  {
    a in s[x].aliasIds && a !in d.aliasIds
  }

  /** A validated document, `d` included, refers to an alias that is lost. */
  ghost predicate RefersToLost(s: Store, x: MeadowlarkId, d: Document)
    requires x in s
  {
    || (exists y, a :: y in s && y != x && s[y].validated && a in s[y].outboundRefs && Lost(s, x, d, a))
    || (d.validated && exists a :: a in d.outboundRefs && Lost(s, x, d, a))
  }

  lemma RenameKeepsIntegrityIff(s: Store, s': Store, x: MeadowlarkId, d: Document)
    requires AliasDisjoint(s) && ReferentialIntegrity(s)
    requires Renames(s, s', x, d) && d.id !in s && (d.validated ==> AllResolve(s, d.outboundRefs))
    ensures ReferentialIntegrity(s') <==> !RefersToLost(s, x, d)
  {
    forall y, r | y in s' && s'[y].validated && r in s'[y].outboundRefs
      ensures Resolves(s', r) <==> !Lost(s, x, d, r)
    {
      assert AllResolve(s, s'[y].outboundRefs);
      var z :| z in s && r in s[z].aliasIds;
      if z != x {
        assert z in s' && r in s'[z].aliasIds;
      } else if r in d.aliasIds {
        assert d.id in s' && r in s'[d.id].aliasIds;
      }
    }
    assert s'[d.id] == d && forall y :: y in s && y != x ==> s'[y] == s[y];
    if RefersToLost(s, x, d) {
      if y, a :| y in s && y != x && s[y].validated && a in s[y].outboundRefs && Lost(s, x, d, a) {
        assert y in s' && s'[y].validated && a in s'[y].outboundRefs;
      } else {
        var a :| a in d.outboundRefs && Lost(s, x, d, a);
        assert d.id in s' && a in s'[d.id].outboundRefs;
      }
      assert !ReferentialIntegrity(s');
    }
  }

  /** An identity change checks neither inbound references nor the superclass claim. It keeps
      every reference resolved exactly when no validated document refers to a lost alias, and
      keeps aliases disjoint exactly when the superclass alias is free. */
  lemma IdentityChangeSafeIff(schema: Schema, s: Store, w: WriteRequest, uuid: DocumentUuid, freshUuid: DocumentUuid)
    returns (x: MeadowlarkId, d: Document)
    requires Invariant(schema, s) && ReferentialIntegrity(s) && WellFormedWrite(schema, w)
    requires var e := Event(Update(w, uuid, freshUuid), Expected(s, Update(w, uuid, freshUuid)));
      Succeeded(Serve(s, e).1) && FindByUuid(s, uuid) != Some(w.meadowlarkId)
    ensures FindByUuid(s, uuid) == Some(x) && d == DocumentFrom(w, uuid, s[x].createdAt)
    ensures var s' := Serve(s, Event(Update(w, uuid, freshUuid), Expected(s, Update(w, uuid, freshUuid)))).0;
      && (ReferentialIntegrity(s') <==> !RefersToLost(s, x, d))
      && (AliasDisjoint(s') <==> SuperclassFree(s - {x}, w))
  {
    var e := Event(Update(w, uuid, freshUuid), Expected(s, Update(w, uuid, freshUuid)));
    var s' := Serve(s, e).0;
    x, d := UpdateShape(s, w, uuid, freshUuid, e.failures);
    Validation.ReportEmptyIff(s, w.info);
    RenameKeepsIntegrityIff(s, s', x, d);
    SubstoreKeeps(schema, s, x);
    if SuperclassFree(s - {x}, w) {
      PutKeepsAliasesDisjoint(schema, s - {x}, d);
    } else {
      var y :| y in s - {x} && w.info.superclassId.value in (s - {x})[y].aliasIds;
      assert w.info.superclassId.value in s'[y].aliasIds && w.info.superclassId.value in s'[d.id].aliasIds && y != d.id;
    }
  }

  // ----- Runs with identity changes -----

  /** An identity change that no validated reference and no superclass claim stands against. */
  ghost predicate ChangeSafe(s: Store, e: Event) {
    IdentityChange(s, e) && FindByUuid(s, e.request.documentUuid).Some? ==>
      var w, x := e.request.write, FindByUuid(s, e.request.documentUuid).value;
      !RefersToLost(s, x, DocumentFrom(w, e.request.documentUuid, s[x].createdAt)) && SuperclassFree(s - {x}, w)
  }

  ghost predicate Healthy(schema: Schema, s: Store) {
    Invariant(schema, s) && ReferentialIntegrity(s)
  }

  lemma StepHealthyIff(schema: Schema, s: Store, e: Event)
    requires Healthy(schema, s) && WellFormed(schema, e.request) && FreshUuids(e.request) !! Uuids(s)
    requires e.request.Delete? ==> e.request.validateNoReferences
    requires e.failures == Expected(s, e.request)
    ensures Healthy(schema, Serve(s, e).0) <==> ChangeSafe(s, e)
  {
    if IdentityChange(s, e) {
      var w, uuid, freshUuid := e.request.write, e.request.documentUuid, e.request.freshUuid;
      assert e == Event(Update(w, uuid, freshUuid), Expected(s, Update(w, uuid, freshUuid)));
      var x, d := IdentityChangeSafeIff(schema, s, w, uuid, freshUuid);
      ServeKeepsUuids(s, e);
      ServeKeepsIndexed(schema, s, e);
    } else {
      ServeKeepsInvariant(schema, s, e);
      ServeKeepsIntegrity(schema, s, e);
    }
  }

  ghost predicate DeletesValidate(events: seq<Event>) {
    forall i :: 0 <= i < |events| && events[i].request.Delete? ==> events[i].request.validateNoReferences
  }

  ghost predicate ChangesSafe(events: seq<Event>) {
    forall i :: 0 <= i < |events| ==> ChangeSafe(After(events[..i]), events[i])
  }

  lemma {:induction false} StepOfRun(schema: Schema, events: seq<Event>, i: nat)
    requires WellFormedEvents(schema, events) && Validated(events) && i < |events|
    requires DeletesValidate(events)
    requires Healthy(schema, After(events[..i]))
    ensures Healthy(schema, After(events[..i + 1])) <==> ChangeSafe(After(events[..i]), events[i])
  {
    Prefix(schema, events, i);
    RunKeepsUuids(schema, events[..i]);
    assert events[..i + 1][..i] == events[..i];
    StepHealthyIff(schema, After(events[..i]), events[i]);
  }

  lemma {:induction false} HealthyPrefix(schema: Schema, events: seq<Event>, i: nat)
    requires WellFormedEvents(schema, events) && Validated(events) && i <= |events|
    requires DeletesValidate(events)
    requires ChangesSafe(events)
    ensures Healthy(schema, After(events[..i]))
  {
    if i > 0 {
      HealthyPrefix(schema, events, i - 1);
      StepOfRun(schema, events, i - 1);
    }
  }

  /** Main result, with identity updates on: in every serial run with validating deletes, all
      states have disjoint aliases and resolved references exactly when each identity change
      refers to no lost alias and claims a free superclass alias. */
  lemma {:induction false} RunHealthyIff(schema: Schema, events: seq<Event>)
    requires WellFormedEvents(schema, events) && Validated(events)
    requires DeletesValidate(events)
    ensures (forall i :: 0 <= i <= |events| ==> Healthy(schema, After(events[..i])))
            <==> ChangesSafe(events)
  {
    if ChangesSafe(events) {
      forall i | 0 <= i <= |events| ensures Healthy(schema, After(events[..i])) {
        HealthyPrefix(schema, events, i);
      }
    }
    if forall i :: 0 <= i <= |events| ==> Healthy(schema, After(events[..i])) {
      forall i | 0 <= i < |events| ensures ChangeSafe(After(events[..i]), events[i]) {
        StepOfRun(schema, events, i);
      }
    }
  }
}
