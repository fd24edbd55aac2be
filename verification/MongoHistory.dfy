/** What serial runs of the MongoDB backend conserve: uuids, creation times, and the order
    of the writes to one document. */
module MongoHistory {
  import opened Model
  import opened MongoSerial
  import opened StoreChanges

  // ----- Conservation -----

  /** INSERT_SUCCESS adds exactly the returned uuid; a replacing upsert changes one document;
      DELETE_SUCCESS removes exactly one. */
  lemma UpsertAndDeleteConserve(schema: Schema, s: Store, req: Request)
    requires Invariant(schema, s) && FreshUuids(req) !! Uuids(s) && !req.Update?
    requires Succeeded(Serve(s, req).1)
    ensures var (s', result) := Serve(s, req);
      match result
      case Upserted(InsertSuccess(u)) => u !in Uuids(s) && Uuids(s') == Uuids(s) + {u} && OthersUntouched(s, s', u)
      case Upserted(UpsertUpdateSuccess(u)) => u in Uuids(s) && Uuids(s') == Uuids(s) && OthersUntouched(s, s', u)
      case Deleted(_) => req.documentUuid in Uuids(s) && Uuids(s') == Uuids(s) - {req.documentUuid}
        && OthersUntouched(s, s', req.documentUuid)
      case _ => false
  {
    match req
    case Upsert(w, freshUuid) =>
      var d := UpsertShape(s, w, freshUuid);
      PutUuids(s, d);
      if d.id in s { OtherUuids(s, d.id); } else { assert s - {d.id} == s; }
    case Delete(uuid, resource, validate) =>
      var x := DeleteShape(s, uuid, resource, validate);
      OtherUuids(s, x);
  }

  /** UPDATE_SUCCESS keeps every uuid and every other document, unless another document holds
      the new identity: that document is overwritten and its uuid is lost. */
  lemma UpdateConservesIff(schema: Schema, s: Store, w: WriteRequest, uuid: DocumentUuid, freshUuid: DocumentUuid)
    requires Invariant(schema, s)
    requires Succeeded(Serve(s, Update(w, uuid, freshUuid)).1)
    ensures var s' := Serve(s, Update(w, uuid, freshUuid)).0;
      && uuid in Uuids(s) && uuid in Uuids(s')
      && (Uuids(s') == Uuids(s) <==> !HeldByAnother(s, w.meadowlarkId, uuid))
      && (OthersUntouched(s, s', uuid) <==> !HeldByAnother(s, w.meadowlarkId, uuid))
      && (HeldByAnother(s, w.meadowlarkId, uuid) ==> Uuids(s') == Uuids(s) - {s[w.meadowlarkId].documentUuid})
  {
    var x, d := UpdateShape(s, w, uuid, freshUuid);
    var s' := Serve(s, Update(w, uuid, freshUuid)).0;
    OtherUuids(s, x);
    assert s'[d.id] == d;
    if x == d.id {
      PutUuids(s, d);
    } else {
      PutUuids(s - {x}, d);
      if d.id in s {
        OtherUuids(s, d.id);
        OtherUuids(s - {x}, d.id);
      } else {
        assert s - {x} - {d.id} == s - {x};
      }
    }
  }

  /** An identity change is a move: the uuid and the creation time stay, the old id is free,
      and nobody referred to the old aliases. */
  lemma IdentityChangeIsMove(schema: Schema, s: Store, w: WriteRequest, uuid: DocumentUuid, freshUuid: DocumentUuid)
    returns (x: MeadowlarkId)
    requires Invariant(schema, s)
    requires Succeeded(Serve(s, Update(w, uuid, freshUuid)).1)
    ensures x in s && s[x].documentUuid == uuid
    ensures x != w.meadowlarkId ==>
      var s' := Serve(s, Update(w, uuid, freshUuid)).0;
      && w.allowIdentityUpdates && Unreferenced(s, x)
      && x !in s' && w.meadowlarkId in s'
      && s'[w.meadowlarkId].documentUuid == uuid
      && s'[w.meadowlarkId].createdAt == s[x].createdAt
      && Carries(s'[w.meadowlarkId], w)
  {
    var d;
    x, d := UpdateShape(s, w, uuid, freshUuid);
  }

  // ----- Order of writes -----

  ghost function Trace(reqs: seq<Request>): (trace: seq<Store>)
    ensures |trace| == |reqs| + 1 && forall i :: 0 <= i <= |reqs| ==> trace[i] == After(reqs[..i])
  {
    seq(|reqs| + 1, i requires 0 <= i <= |reqs| => After(reqs[..i]))
  }

  lemma ServeEvolves(schema: Schema, s: Store, req: Request)
    requires Invariant(schema, s) && Stamped(s) && FreshUuids(req) !! Uuids(s)
    ensures Stamped(Serve(s, req).0) && Evolves(s, Serve(s, req).0)
  {
    var (s', result) := Serve(s, req);
    if Succeeded(result) {
      match req
      case Upsert(w, freshUuid) =>
        var d := UpsertShape(s, w, freshUuid);
        PutEvolves(s, s', d);
      case Update(w, uuid, freshUuid) =>
        var x, d := UpdateShape(s, w, uuid, freshUuid);
        if x == d.id { PutEvolves(s, s', d); } else { RenameEvolves(s, s', x, d); }
      case Delete(uuid, resource, validate) =>
        var x := DeleteShape(s, uuid, resource, validate);
    }
  }

  lemma {:induction false} RunStamped(schema: Schema, reqs: seq<Request>)
    requires WellFormedRun(schema, reqs)
    ensures Invariant(schema, After(reqs)) && Stamped(After(reqs))
  {
    RunKeepsInvariant(schema, reqs);
    if reqs != [] {
      var n := |reqs| - 1;
      RunStamped(schema, reqs[..n]);
      RunKeepsInvariant(schema, reqs[..n]);
      RunFresh(schema, reqs, n);
      ServeEvolves(schema, After(reqs[..n]), reqs[n]);
    }
  }

  lemma {:induction false} RunChronicle(schema: Schema, reqs: seq<Request>)
    requires WellFormedRun(schema, reqs)
    ensures Chronicle(schema, Trace(reqs), reqs)
  {
    var trace := Trace(reqs);
    forall i | 0 <= i < |reqs|
      ensures Evolves(trace[i], trace[i + 1]) && Uuids(trace[i + 1]) <= Uuids(trace[i]) + FreshUuids(reqs[i])
    {
      var before := reqs[..i + 1];
      assert before[..i] == reqs[..i];
      RunStamped(schema, reqs[..i]);
      RunKeepsInvariant(schema, reqs[..i]);
      RunFresh(schema, reqs, i);
      ServeEvolves(schema, trace[i], reqs[i]);
      ServeUuids(trace[i], reqs[i]);
    }
  }

  /** Main result: between any two points of a serial run a document that lives in both keeps
      its creation time, and has changed only if it carries a later modification time. */
  lemma {:induction false} RunEvolves(schema: Schema, reqs: seq<Request>, i: nat)
    requires WellFormedRun(schema, reqs) && i <= |reqs|
    ensures Stamped(After(reqs)) && Evolves(After(reqs[..i]), After(reqs))
  {
    RunStamped(schema, reqs);
    RunStamped(schema, reqs[..i]);
    RunChronicle(schema, reqs);
    ChronicleEvolves(schema, Trace(reqs), reqs, i, |reqs|);
    assert reqs[..|reqs|] == reqs;
  }

  ghost function Outcome(reqs: seq<Request>, i: nat): Result
    requires i < |reqs|
  {
    Serve(After(reqs[..i]), reqs[i]).1
  }

  lemma WriteStamps(schema: Schema, s: Store, req: Request, u: DocumentUuid)
    requires Invariant(schema, s) && FreshUuids(req) !! Uuids(s)
    requires Target(req, Serve(s, req).1) == Some(u)
    ensures !req.Delete? && Stamps(s, Serve(s, req).0, req, u, req.write.info.requestTimestamp)
  {
    match req
    case Upsert(w, freshUuid) =>
      var d := UpsertShape(s, w, freshUuid);
      assert Serve(s, req).0[d.id] == d;
      assert forall x :: x in s ==> s[x].documentUuid in Uuids(s);
    case Update(w, uuid, freshUuid) =>
      var x, d := UpdateShape(s, w, uuid, freshUuid);
      assert Serve(s, req).0[d.id] == d;
      assert s[x].documentUuid in Uuids(s);
  }

  lemma {:induction false} StampsAt(schema: Schema, reqs: seq<Request>, k: nat, u: DocumentUuid)
    requires WellFormedRun(schema, reqs) && k < |reqs| && Target(reqs[k], Outcome(reqs, k)) == Some(u)
    ensures !reqs[k].Delete?
    ensures Stamps(Trace(reqs)[k], Trace(reqs)[k + 1], reqs[k], u, reqs[k].write.info.requestTimestamp)
  {
    RunKeepsInvariant(schema, reqs[..k]);
    RunFresh(schema, reqs, k);
    WriteStamps(schema, After(reqs[..k]), reqs[k], u);
    assert reqs[..k + 1][..k] == reqs[..k];
  }

  /** Main result: the successful writes to one uuid carry strictly increasing timestamps. */
  lemma {:induction false} WritesStrictlyOrdered(schema: Schema, reqs: seq<Request>, i: nat, j: nat, u: DocumentUuid)
    requires WellFormedRun(schema, reqs) && i < j < |reqs|
    requires Target(reqs[i], Outcome(reqs, i)) == Some(u) == Target(reqs[j], Outcome(reqs, j))
    ensures !reqs[i].Delete? && !reqs[j].Delete?
    ensures reqs[i].write.info.requestTimestamp < reqs[j].write.info.requestTimestamp
  {
    StampsAt(schema, reqs, i, u);
    StampsAt(schema, reqs, j, u);
    RunChronicle(schema, reqs);
    TraceDistinct(schema, reqs, i + 1);
    WritesOrdered(schema, Trace(reqs), reqs, i, j, u, reqs[i].write.info.requestTimestamp,
      reqs[j].write.info.requestTimestamp);
  }

  lemma {:induction false} TraceDistinct(schema: Schema, reqs: seq<Request>, i: nat)
    requires WellFormedRun(schema, reqs) && i <= |reqs|
    ensures UuidsDistinct(Trace(reqs)[i])
  {
    RunKeepsInvariant(schema, reqs[..i]);
  }
}
