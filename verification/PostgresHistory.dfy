/** What serial runs of the PostgreSQL backend conserve, identity changes included. */
module PostgresHistory {
  import opened Model
  import opened PostgresTransactions
  import opened PostgresSerial
  import opened StoreChanges

  /** INSERT_SUCCESS adds exactly the returned uuid, DELETE_SUCCESS removes exactly one, and
      every other success keeps the uuids; no other document changes. The unique index makes
      this hold for identity changes too. */
  lemma SuccessConserves(s: Store, e: Event)
    requires UuidsDistinct(s) && FreshUuids(e.request) !! Uuids(s)
    requires Succeeded(Serve(s, e).1)
    ensures var (s', result) := Serve(s, e);
      match result
      case Upserted(InsertSuccess(u)) => u !in Uuids(s) && Uuids(s') == Uuids(s) + {u} && OthersUntouched(s, s', u)
      case Upserted(UpsertUpdateSuccess(u)) => u in Uuids(s) && Uuids(s') == Uuids(s) && OthersUntouched(s, s', u)
      case Updated(_) => e.request.documentUuid in Uuids(s) && Uuids(s') == Uuids(s)
        && OthersUntouched(s, s', e.request.documentUuid)
      case Deleted(_) => e.request.documentUuid in Uuids(s) && Uuids(s') == Uuids(s) - {e.request.documentUuid}
        && OthersUntouched(s, s', e.request.documentUuid)
      case _ => false
  {
    match e.request
    case Upsert(w, freshUuid) =>
      var d := UpsertShape(s, w, freshUuid, e.failures);
      PutUuids(s, d);
      if d.id in s { OtherUuids(s, d.id); } else { assert s - {d.id} == s; }
    case Update(w, uuid, freshUuid) =>
      var x, d := UpdateShape(s, w, uuid, freshUuid, e.failures);
      OtherUuids(s, x);
      if x == d.id {
        PutUuids(s, d);
      } else {
        PutUuids(s - {x}, d);
        assert s - {x} - {d.id} == s - {x};
      }
    case Delete(uuid, resource, validate) =>
      var x := DeleteShape(s, uuid, resource, validate, e.failures);
      OtherUuids(s, x);
  }

  // ----- Order of writes -----

  ghost function Trace(events: seq<Event>): (trace: seq<Store>)
    ensures |trace| == |events| + 1 && forall i :: 0 <= i <= |events| ==> trace[i] == After(events[..i])
  {
    seq(|events| + 1, i requires 0 <= i <= |events| => After(events[..i]))
  }

  lemma ServeEvolves(s: Store, e: Event)
    requires UuidsDistinct(s) && Stamped(s) && FreshUuids(e.request) !! Uuids(s)
    ensures Stamped(Serve(s, e).0) && Evolves(s, Serve(s, e).0)
  {
    var (s', result) := Serve(s, e);
    FailureChangesNothing(s, e);
    if Succeeded(result) {
      match e.request
      case Upsert(w, freshUuid) =>
        var d := UpsertShape(s, w, freshUuid, e.failures);
        PutEvolves(s, s', d);
      case Update(w, uuid, freshUuid) =>
        var x, d := UpdateShape(s, w, uuid, freshUuid, e.failures);
        if x == d.id { PutEvolves(s, s', d); } else { RenameEvolves(s, s', x, d); }
      case Delete(uuid, resource, validate) =>
        var x := DeleteShape(s, uuid, resource, validate, e.failures);
    }
  }

  lemma {:induction false} RunFreshAt(schema: Schema, events: seq<Event>, i: nat)
    requires WellFormedEvents(schema, events) && i < |events|
    ensures UuidsDistinct(After(events[..i])) && FreshUuids(events[i].request) !! Uuids(After(events[..i]))
    ensures After(events[..i + 1]) == Serve(After(events[..i]), events[i]).0
  {
    Prefix(schema, events, i);
    RunKeepsUuids(schema, events[..i]);
    assert events[..i + 1][..i] == events[..i];
  }

  lemma {:induction false} RunStamped(schema: Schema, events: seq<Event>)
    requires WellFormedEvents(schema, events)
    ensures Stamped(After(events))
  {
    if events != [] {
      var n := |events| - 1;
      assert Requests(events)[..n] == Requests(events[..n]);
      RunStamped(schema, events[..n]);
      RunFreshAt(schema, events, n);
      ServeEvolves(After(events[..n]), events[n]);
    }
  }

  lemma {:induction false} RunChronicle(schema: Schema, events: seq<Event>)
    requires WellFormedEvents(schema, events)
    ensures Chronicle(schema, Trace(events), Requests(events))
  {
    var trace := Trace(events);
    forall i | 0 <= i < |events|
      ensures Evolves(trace[i], trace[i + 1])
      ensures Uuids(trace[i + 1]) <= Uuids(trace[i]) + FreshUuids(Requests(events)[i])
    {
      assert Requests(events)[..i] == Requests(events[..i]);
      RunFreshAt(schema, events, i);
      RunStamped(schema, events[..i]);
      ServeEvolves(trace[i], events[i]);
      ServeKeepsUuids(trace[i], events[i]);
    }
  }

  lemma {:induction false} TraceDistinct(schema: Schema, events: seq<Event>, i: nat)
    requires WellFormedEvents(schema, events) && i <= |events|
    ensures UuidsDistinct(Trace(events)[i])
  {
    assert Requests(events)[..i] == Requests(events[..i]);
    RunKeepsUuids(schema, events[..i]);
  }

  /** Main result: between any two points of a serial run a document that lives in both keeps
      its creation time, and has changed only if it carries a later modification time. */
  lemma {:induction false} RunEvolves(schema: Schema, events: seq<Event>, i: nat)
    requires WellFormedEvents(schema, events) && i <= |events|
    ensures Stamped(After(events)) && Evolves(After(events[..i]), After(events))
  {
    RunStamped(schema, events);
    RunChronicle(schema, events);
    TraceDistinct(schema, events, i);
    ChronicleEvolves(schema, Trace(events), Requests(events), i, |events|);
    assert events[..|events|] == events;
  }

  ghost function Outcome(events: seq<Event>, i: nat): Result
    requires i < |events|
  {
    Serve(After(events[..i]), events[i]).1
  }

  lemma WriteStamps(s: Store, e: Event, u: DocumentUuid)
    requires UuidsDistinct(s) && FreshUuids(e.request) !! Uuids(s)
    requires Target(e.request, Serve(s, e).1) == Some(u)
    ensures !e.request.Delete? && Stamps(s, Serve(s, e).0, e.request, u, e.request.write.info.requestTimestamp)
  {
    match e.request
    case Upsert(w, freshUuid) =>
      var d := UpsertShape(s, w, freshUuid, e.failures);
      assert Serve(s, e).0[d.id] == d;
      assert forall x :: x in s ==> s[x].documentUuid in Uuids(s);
    case Update(w, uuid, freshUuid) =>
      var x, d := UpdateShape(s, w, uuid, freshUuid, e.failures);
      assert Serve(s, e).0[d.id] == d;
      assert s[x].documentUuid in Uuids(s);
  }

  lemma {:induction false} StampsAt(schema: Schema, events: seq<Event>, k: nat, u: DocumentUuid)
    requires WellFormedEvents(schema, events) && k < |events|
      && Target(events[k].request, Outcome(events, k)) == Some(u)
    ensures !events[k].request.Delete?
    ensures Stamps(Trace(events)[k], Trace(events)[k + 1], events[k].request, u,
      events[k].request.write.info.requestTimestamp)
  {
    RunFreshAt(schema, events, k);
    WriteStamps(After(events[..k]), events[k], u);
  }

  /** Main result: the successful writes to one uuid carry strictly increasing timestamps. */
  lemma {:induction false} WritesStrictlyOrdered(schema: Schema, events: seq<Event>, i: nat, j: nat, u: DocumentUuid)
    requires WellFormedEvents(schema, events) && i < j < |events|
    requires Target(events[i].request, Outcome(events, i)) == Some(u) == Target(events[j].request, Outcome(events, j))
    ensures !events[i].request.Delete? && !events[j].request.Delete?
    ensures events[i].request.write.info.requestTimestamp < events[j].request.write.info.requestTimestamp
  {
    var reqs := Requests(events);
    StampsAt(schema, events, i, u);
    StampsAt(schema, events, j, u);
    RunChronicle(schema, events);
    RunFreshAt(schema, events, i + 1);
    WritesOrdered(schema, Trace(events), reqs, i, j, u, reqs[i].write.info.requestTimestamp,
      reqs[j].write.info.requestTimestamp);
  }

  // ----- What a stored document shows -----

  lemma WriteShows(s: Store, e: Event, x: MeadowlarkId)
    requires UuidsDistinct(s) && FreshUuids(e.request) !! Uuids(s)
    requires x in Serve(s, e).0
    ensures (x in s && Serve(s, e).0[x] == s[x]) ||
            (!e.request.Delete? && Carries(Serve(s, e).0[x], e.request.write)
             && Target(e.request, Serve(s, e).1) == Some(Serve(s, e).0[x].documentUuid))
  {
    FailureChangesNothing(s, e);
    if Succeeded(Serve(s, e).1) {
      match e.request
      case Upsert(w, freshUuid) => var d := UpsertShape(s, w, freshUuid, e.failures);
      case Update(w, uuid, freshUuid) => var y, d := UpdateShape(s, w, uuid, freshUuid, e.failures);
      case Delete(uuid, resource, validate) => var y := DeleteShape(s, uuid, resource, validate, e.failures);
    }
  }

  /** A document that a success leaves alone is not the one it targets. */
  lemma OldIsNotTarget(s: Store, e: Event, x: MeadowlarkId)
    requires UuidsDistinct(s) && FreshUuids(e.request) !! Uuids(s)
    requires x in s && x in Serve(s, e).0 && Serve(s, e).0[x] == s[x]
    ensures Target(e.request, Serve(s, e).1) != Some(s[x].documentUuid)
  {
    if Target(e.request, Serve(s, e).1) == Some(s[x].documentUuid) {
      WriteStamps(s, e, s[x].documentUuid);
      ServeKeepsUuids(s, e);
    }
  }

  /** The uuid each event wrote, if it wrote one. */
  ghost function Written(events: seq<Event>): (written: seq<Option<DocumentUuid>>)
    ensures |written| == |events|
    ensures forall i :: 0 <= i < |events| ==> written[i] == Target(events[i].request, Outcome(events, i))
  {
    seq(|events|, i requires 0 <= i < |events| => Target(events[i].request, Outcome(events, i)))
  }

  lemma {:induction false} WrittenOfPrefix(events: seq<Event>, n: nat)
    requires n <= |events|
    ensures Written(events[..n]) == Written(events)[..n]
  {
    forall j | 0 <= j < n ensures Written(events[..n])[j] == Written(events)[j] {
      assert events[..n][..j] == events[..j];
    }
  }

  predicate LastWrite(written: seq<Option<DocumentUuid>>, uuid: DocumentUuid, i: nat) {
    && i < |written| && written[i] == Some(uuid)
    && forall j :: i < j < |written| ==> written[j] != Some(uuid)
  }

  lemma {:induction false} StillLast(written: seq<Option<DocumentUuid>>, uuid: DocumentUuid, i: nat)
    requires written != [] && written[|written| - 1] != Some(uuid)
    requires LastWrite(written[..|written| - 1], uuid, i)
    ensures LastWrite(written, uuid, i)
  {
    var n := |written| - 1;
    assert forall j :: 0 <= j < n ==> written[..n][j] == written[j];
  }

  /** A document shows a request: id, identity, body, aliases and outbound references. */
  ghost predicate Shows(d: Document, req: Request) {
    !req.Delete? && Carries(d, req.write)
  }

  lemma {:induction false} StillShown(events: seq<Event>, n: nat, d: Document, i: nat)
    requires |events| == n + 1 && Written(events)[n] != Some(d.documentUuid)
    requires LastWrite(Written(events[..n]), d.documentUuid, i) && Shows(d, events[..n][i].request)
    ensures LastWrite(Written(events), d.documentUuid, i) && Shows(d, events[i].request)
  {
    WrittenOfPrefix(events, n);
    StillLast(Written(events), d.documentUuid, i);
  }

  lemma {:induction false} LastEventShown(schema: Schema, events: seq<Event>, x: MeadowlarkId)
    requires WellFormedEvents(schema, events) && events != [] && x in After(events)
    ensures var (n, d) := (|events| - 1, After(events)[x]);
      if Written(events)[n] == Some(d.documentUuid) then Shows(d, events[n].request)
      else x in After(events[..n]) && After(events[..n])[x] == d
  {
    var n := |events| - 1;
    var s := After(events[..n]);
    RunFreshAt(schema, events, n);
    WriteShows(s, events[n], x);
    if x in s && After(events)[x] == s[x] {
      OldIsNotTarget(s, events[n], x);
    }
  }

  /** Main result: every stored document shows the last success that wrote its uuid. */
  lemma {:induction false} LastWriteShown(schema: Schema, events: seq<Event>, x: MeadowlarkId) returns (i: nat)
    requires WellFormedEvents(schema, events) && x in After(events)
    ensures LastWrite(Written(events), After(events)[x].documentUuid, i) && Shows(After(events)[x], events[i].request)
  {
    var n := |events| - 1;
    Prefix(schema, events, n);
    LastEventShown(schema, events, x);
    if Written(events)[n] == Some(After(events)[x].documentUuid) {
      i := n;
    } else {
      i := LastWriteShown(schema, events[..n], x);
      StillShown(events, n, After(events)[x], i);
    }
  }
}
