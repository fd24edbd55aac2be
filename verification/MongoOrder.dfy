/** Uuids and the order of writes under concurrency: what serial runs keep, every
    interleaving keeps, because each transaction locks the uuid it writes. */
module MongoOrder {
  import opened Model
  import opened MongoTransactions
  import opened MongoConcurrency
  import opened StoreChanges
  import Serial = MongoSerial

  // ----- One transaction -----

  /** What a transaction does to uuids and times, on the store its session sees. */
  ghost predicate WellTimed(s: Store, s': Store, drawn: set<DocumentUuid>) {
    && UuidsDistinct(s') && Stamped(s') && Evolves(s, s')
    && Uuids(s') <= Uuids(s) + drawn
  }

  lemma PutWellTimed(s: Store, s': Store, d: Document, drawn: set<DocumentUuid>)
    requires UuidsDistinct(s) && Stamped(s)
    requires (Inserts(s, s', d) && d.documentUuid in drawn && d.documentUuid !in Uuids(s)) || Replaces(s, s', d)
    ensures WellTimed(s, s', drawn)
  {
    PutEvolves(s, s', d);
    if d.id in s { OtherUuids(s, d.id); } else { assert s - {d.id} == s; }
    PutKeepsUuids(s, d);
  }

  lemma RenameWellTimed(s: Store, s': Store, x: MeadowlarkId, d: Document)
    requires UuidsDistinct(s) && Stamped(s) && Renames(s, s', x, d)
    ensures WellTimed(s, s', {})
  {
    RenameEvolves(s, s', x, d);
    OtherUuids(s, x);
    var rest := s - {x};
    assert Uuids(rest - {d.id}) <= Uuids(rest);
    PutKeepsUuids(rest, d);
  }

  lemma RemovalWellTimed(s: Store, x: MeadowlarkId)
    requires UuidsDistinct(s) && Stamped(s) && x in s
    ensures WellTimed(s, s - {x}, {})
  {
    OtherUuids(s, x);
  }

  lemma UpdateWellTimed(first: Store, second: Store, s: Store, w: WriteRequest, uuid: DocumentUuid,
      freshUuid: DocumentUuid)
    requires UuidsDistinct(s) && Stamped(s)
    requires UpdateTransaction(first, second, s, w, uuid, freshUuid).result.UpdateSuccess?
    ensures WellTimed(s, UpdateTransaction(first, second, s, w, uuid, freshUuid).store, {})
  {
    var x, d := Serial.UpdateWrites(first, second, s, w, uuid, freshUuid);
    var s' := UpdateTransaction(first, second, s, w, uuid, freshUuid).store;
    if x == d.id { PutWellTimed(s, s', d, {}); } else { RenameWellTimed(s, s', x, d); }
  }

  lemma TransactionWellTimed(first: Store, second: Store, s: Store, req: Request)
    requires UuidsDistinct(s) && Stamped(s) && FreshUuids(req) !! Uuids(s)
    requires Succeeded(Transaction(first, second, s, req).result)
    ensures WellTimed(s, Transaction(first, second, s, req).store, FreshUuids(req))
  {
    match req
    case Upsert(w, freshUuid) =>
      var d := Serial.UpsertWrites(first, s, w, freshUuid);
      PutWellTimed(s, UpsertTransaction(first, s, w, freshUuid, None).store, d, {freshUuid});
    case Update(w, uuid, freshUuid) => UpdateWellTimed(first, second, s, w, uuid, freshUuid);
    case Delete(uuid, _, validate) => RemovalWellTimed(s, FindByUuid(s, uuid).value);
  }

  // ----- One commit -----

  ghost predicate EachTimed(h: History) {
    forall i :: 0 <= i < |h| ==> UuidsDistinct(h[i].store) && Stamped(h[i].store)
  }

  /** A uuid that lives in two states lives in every state between them. */
  ghost predicate Through(h: History, i: nat, j: nat)
    requires i <= j < |h|
  {
    forall k :: i <= k <= j ==> Uuids(h[i].store) * Uuids(h[j].store) <= Uuids(h[k].store)
  }

  ghost predicate EvolvesThrough(h: History, i: nat, j: nat)
    requires i <= j < |h|
  {
    Evolves(h[i].store, h[j].store) && Through(h, i, j)
  }

  /** Every committed state evolves into every later one, and a uuid that is gone stays gone. */
  ghost predicate Orderly(h: History) {
    EachTimed(h) && forall i: nat, j: nat :: i <= j < |h| ==> EvolvesThrough(h, i, j)
  }

  /** A write set that may commit, of a transaction whose random uuids nobody has used. */
  ghost predicate Timely(schema: Schema, h: History, start: nat, s': Store, locks: set<DocumentUuid>,
      drawn: set<DocumentUuid>)
  {
    && Committable(schema, h, start, s', locks) && Orderly(h)
    && WellTimed(h[start].store, s', drawn)
    && forall k :: 0 <= k <= start ==> drawn !! Uuids(h[k].store)
  }

  /** A document with a locked uuid is the same in the snapshot and in the latest store. */
  lemma LockedUuid(schema: Schema, h: History, start: nat, s': Store, locks: set<DocumentUuid>, u: DocumentUuid)
    requires Committable(schema, h, start, s', locks) && u in locks
    ensures u in Uuids(h[start].store) <==> u in Uuids(h[|h| - 1].store)
  {
    var s, now := h[start].store, h[|h| - 1].store;
    SnapshotStable(schema, h, start, s', locks);
    if u in Uuids(s) {
      var x :| x in s && s[x].documentUuid == u;
      assert now[x].documentUuid == u;
    }
    if u in Uuids(now) {
      var x :| x in now && now[x].documentUuid == u;
      assert s[x].documentUuid == u;
    }
  }

  lemma NextDistinct(schema: Schema, h: History, start: nat, s': Store, locks: set<DocumentUuid>)
    requires Committable(schema, h, start, s', locks)
    requires UuidsDistinct(h[|h| - 1].store) && UuidsDistinct(s')
    ensures UuidsDistinct(Append(h, start, s', locks)[|h|].store)
  {
    var s, now := h[start].store, h[|h| - 1].store;
    SnapshotStable(schema, h, start, s', locks);
    var next := Overlay(now, s, s');
    forall x, y | x in next && y in next && next[x].documentUuid == next[y].documentUuid && x in Changed(s, s')
      ensures x == y
    {
      if y !in Changed(s, s') {
        assert now[y].documentUuid in locks && y in s' && s'[y] == now[y];
      }
    }
  }

  /** A document of the next store is unwritten, or it was written over one the snapshot shows. */
  lemma NextFrom(schema: Schema, h: History, start: nat, s': Store, locks: set<DocumentUuid>, x: MeadowlarkId,
      y: MeadowlarkId)
    requires Committable(schema, h, start, s', locks) && UuidsDistinct(h[|h| - 1].store)
    requires x in h[|h| - 1].store && y in Overlay(h[|h| - 1].store, h[start].store, s')
    requires h[|h| - 1].store[x].documentUuid == Overlay(h[|h| - 1].store, h[start].store, s')[y].documentUuid
    ensures var s, now, next := h[start].store, h[|h| - 1].store, Overlay(h[|h| - 1].store, h[start].store, s');
      (x in s && s[x] == now[x] && y in s' && next[y] == s'[y]) || next[y] == now[x]
  {
    SnapshotStable(schema, h, start, s', locks);
  }

  lemma EvolvesFrom(s: Store, s': Store, now: Store, next: Store)
    requires Evolves(s, s')
    requires forall x, y :: x in now && y in next && now[x].documentUuid == next[y].documentUuid ==>
      (x in s && s[x] == now[x] && y in s' && next[y] == s'[y]) || next[y] == now[x]
    ensures Evolves(now, next)
  {
  }

  lemma NextEvolves(schema: Schema, h: History, start: nat, s': Store, locks: set<DocumentUuid>)
    requires Committable(schema, h, start, s', locks)
    requires UuidsDistinct(h[|h| - 1].store) && Evolves(h[start].store, s')
    ensures Evolves(h[|h| - 1].store, Append(h, start, s', locks)[|h|].store)
  {
    var s, now := h[start].store, h[|h| - 1].store;
    var next := Overlay(now, s, s');
    forall x, y | x in now && y in next && now[x].documentUuid == next[y].documentUuid
      ensures (x in s && s[x] == now[x] && y in s' && next[y] == s'[y]) || next[y] == now[x]
    {
      NextFrom(schema, h, start, s', locks, x, y);
    }
    EvolvesFrom(s, s', now, next);
  }

  /** A uuid the commit brings into the latest store is locked and freshly drawn. */
  lemma NewUuidIsDrawn(schema: Schema, h: History, start: nat, s': Store, locks: set<DocumentUuid>,
      drawn: set<DocumentUuid>, u: DocumentUuid)
    requires Timely(schema, h, start, s', locks, drawn)
    requires u in Uuids(Append(h, start, s', locks)[|h|].store) && u !in Uuids(h[|h| - 1].store)
    ensures u in locks && u in drawn && u !in Uuids(h[start].store)
  {
    var s, now := h[start].store, h[|h| - 1].store;
    var next := Overlay(now, s, s');
    var y :| y in next && next[y].documentUuid == u;
    assert forall x :: x in now ==> now[x].documentUuid in Uuids(now);
    assert y in Changed(s, s') && s'[y].documentUuid in Uuids(s');
    LockedUuid(schema, h, start, s', locks, u);
  }

  lemma LockedUuidBetween(schema: Schema, h: History, start: nat, s': Store, locks: set<DocumentUuid>, u: DocumentUuid,
      k: nat)
    requires Committable(schema, h, start, s', locks) && u in locks && start <= k < |h|
    requires u !in Uuids(h[start].store)
    ensures u !in Uuids(h[k].store)
  {
    if x :| x in h[k].store && h[k].store[x].documentUuid == u {
      LockedOld(schema, h, start, k, x);
    }
  }

  /** A uuid the commit brings into the latest store was in no earlier state. */
  lemma NewUuidIsNew(schema: Schema, h: History, start: nat, s': Store, locks: set<DocumentUuid>,
      drawn: set<DocumentUuid>, k: nat)
    requires Timely(schema, h, start, s', locks, drawn) && k < |h|
    ensures Uuids(h[k].store) * Uuids(Append(h, start, s', locks)[|h|].store) <= Uuids(h[|h| - 1].store)
  {
    forall u | u in Uuids(Append(h, start, s', locks)[|h|].store) && u !in Uuids(h[|h| - 1].store)
      ensures u !in Uuids(h[k].store)
    {
      NewUuidIsDrawn(schema, h, start, s', locks, drawn, u);
      if k > start { LockedUuidBetween(schema, h, start, s', locks, u, k); }
    }
  }

  /** The latest store is reached from every earlier one. */
  lemma ReachesNext(h: History, h': History, i: nat)
    requires Orderly(h) && i < |h| && |h'| == |h| + 1 && h <= h'
    requires Evolves(h[|h| - 1].store, h'[|h|].store)
    requires Uuids(h[i].store) * Uuids(h'[|h|].store) <= Uuids(h[|h| - 1].store)
    ensures EvolvesThrough(h', i, |h|)
  {
    assert EvolvesThrough(h, i, |h| - 1);
    Transit(h[i].store, h[|h| - 1].store, h'[|h|].store);
    forall k | i <= k < |h| ensures Uuids(h'[i].store) * Uuids(h'[|h|].store) <= Uuids(h'[k].store) {
      assert h'[k] == h[k] && h'[i] == h[i];
    }
  }

  lemma OldReached(h: History, h': History, i: nat, j: nat)
    requires Orderly(h) && i <= j < |h| && h <= h'
    ensures EvolvesThrough(h', i, j)
  {
    assert EvolvesThrough(h, i, j);
    assert h'[i] == h[i] && h'[j] == h[j];
    forall k | i <= k <= j ensures Uuids(h'[i].store) * Uuids(h'[j].store) <= Uuids(h'[k].store) {
      assert h'[k] == h[k];
    }
  }

  lemma CommitOrderly(schema: Schema, h: History, start: nat, s': Store, locks: set<DocumentUuid>,
      drawn: set<DocumentUuid>)
    requires Timely(schema, h, start, s', locks, drawn)
    ensures Orderly(Append(h, start, s', locks))
  {
    var h' := Append(h, start, s', locks);
    CommitTimed(schema, h, start, s', locks, drawn);
    NextEvolves(schema, h, start, s', locks);
    forall i: nat, j: nat | i <= j < |h'| ensures EvolvesThrough(h', i, j) {
      if j < |h| {
        OldReached(h, h', i, j);
      } else if i < |h| {
        NewUuidIsNew(schema, h, start, s', locks, drawn, i);
        ReachesNext(h, h', i);
      }
    }
  }

  lemma CommitTimed(schema: Schema, h: History, start: nat, s': Store, locks: set<DocumentUuid>,
      drawn: set<DocumentUuid>)
    requires Timely(schema, h, start, s', locks, drawn)
    ensures EachTimed(Append(h, start, s', locks))
  {
    NextDistinct(schema, h, start, s', locks);
    assert Stamped(Overlay(h[|h| - 1].store, h[start].store, s'));
  }

  // ----- Whole runs -----

  /** The random uuids of a running transaction were in no committed state when it began. */
  ghost predicate FreshDraws(st: State) {
    forall t, k :: t in st.active && 0 <= k <= st.active[t].start && k < |st.history| ==>
      FreshUuids(st.active[t].request) !! Uuids(st.history[k].store)
  }

  ghost predicate DrawsFresh(run: seq<State>) {
    forall i :: 0 <= i < |run| ==> FreshDraws(run[i])
  }

  lemma StepOrderly(schema: Schema, a: State, b: State)
    requires SoundState(schema, a) && RequestsFit(schema, a) && FreshDraws(a) && Orderly(a.history) && Next(a, b)
    ensures Orderly(b.history)
  {
    if t :| CommitTx(a, b, t) {
      var h, tx := a.history, a.active[t];
      var o := Effect(h, tx);
      EffectCommittable(schema, a, b, t);
      TransactionWellTimed(h[tx.first.value].store, h[tx.second.value].store, h[tx.start].store, tx.request);
      CommitOrderly(schema, h, tx.start, o.store, o.locks, FreshUuids(tx.request));
    }
  }

  lemma {:induction false} RunOrderly(schema: Schema, run: seq<State>, i: nat)
    requires Run(run) && WellFormedRequests(schema, run) && DrawsFresh(run) && i < |run|
    ensures SoundState(schema, run[i]) && Orderly(run[i].history)
  {
    if i == 0 {
      assert run[0].history == [Commit(map[], {}, {})];
    } else {
      RunOrderly(schema, run, i - 1);
      assert StepAt(run, i - 1);
      StepSound(schema, run[i - 1], run[i]);
      StepOrderly(schema, run[i - 1], run[i]);
    }
  }

  /** Main result: in every interleaving no uuid has two ids, and between any two committed
      states a uuid that lives in both keeps its creation time and has changed only if its
      modification time grew. */
  lemma {:induction false} InterleavingsEvolve(schema: Schema, run: seq<State>, i: nat, j: nat)
    requires Run(run) && WellFormedRequests(schema, run) && DrawsFresh(run)
    requires i <= j < |Last(run).history|
    ensures UuidsDistinct(Last(run).history[i].store)
    ensures Evolves(Last(run).history[i].store, Last(run).history[j].store)
  {
    RunOrderly(schema, run, |run| - 1);
    assert EvolvesThrough(Last(run).history, i, j);
  }

  /** The commit at position `p` wrote the document at `x`. */
  ghost predicate WroteAt(h: History, p: nat, x: MeadowlarkId) {
    0 < p < |h| && x in h[p].store && x in Changed(h[p - 1].store, h[p].store)
  }

  /** Main result: in every interleaving the writes to one uuid are committed in the strict
      order of their timestamps. */
  lemma {:induction false} InterleavedWritesOrdered(schema: Schema, run: seq<State>, p: nat, q: nat, x: MeadowlarkId,
      y: MeadowlarkId)
    requires Run(run) && WellFormedRequests(schema, run) && DrawsFresh(run) && p < q
    requires WroteAt(Last(run).history, p, x) && WroteAt(Last(run).history, q, y)
    requires Last(run).history[p].store[x].documentUuid == Last(run).history[q].store[y].documentUuid
    ensures Last(run).history[p].store[x].lastModifiedAt < Last(run).history[q].store[y].lastModifiedAt
  {
    var h := Last(run).history;
    RunOrderly(schema, run, |run| - 1);
    Rewritten(h, p, q, x, y);
  }

  lemma Rewritten(h: History, p: nat, q: nat, x: MeadowlarkId, y: MeadowlarkId)
    requires Orderly(h) && p < q && WroteAt(h, p, x) && WroteAt(h, q, y)
    requires h[p].store[x].documentUuid == h[q].store[y].documentUuid
    requires forall i, z :: 0 <= i < |h| && z in h[i].store ==> h[i].store[z].id == z
    ensures h[p].store[x].lastModifiedAt < h[q].store[y].lastModifiedAt
  {
    var before, u := h[q - 1].store, h[p].store[x].documentUuid;
    assert EvolvesThrough(h, p, q) && EvolvesThrough(h, p, q - 1) && EvolvesThrough(h, q - 1, q);
    assert u in Uuids(h[p].store) && h[q].store[y].documentUuid in Uuids(h[q].store);
    assert u in Uuids(before);
    var z :| z in before && before[z].documentUuid == u;
    assert before[z] != h[q].store[y];
  }

  // ----- Serial runs among the interleavings -----

  lemma {:induction false} ServeAlone(run: seq<State>, req: Request, reqs: set<Request>) returns (run': seq<State>)
    requires Run(run) && Uses(run, reqs) && req in reqs
    requires Last(run).active == map[] && |Last(run).history| > 0
    ensures Run(run') && Uses(run', reqs) && Last(run').active == map[] && |Last(run').history| > 0
    ensures Current(Last(run')) == Serial.Serve(Current(Last(run)), req).0
  {
    var h, s := Last(run).history, Current(Last(run));
    var o := Effect(h, Unshared(h, req));
    UnsharedEffect(h, req, s);
    run' := run;
    if Succeeded(o.result) {
      run' := RunAlone(run, 0, req, o, reqs);
    }
  }

  /** Every serial run is an interleaving: each success commits alone, and nothing else does. */
  lemma {:induction false} SerialRunsInterleave(reqs: seq<Request>, all: set<Request>) returns (run: seq<State>)
    requires forall req :: req in reqs ==> req in all
    ensures Run(run) && Uses(run, all) && Last(run).active == map[] && |Last(run).history| > 0
    ensures Current(Last(run)) == Serial.After(reqs)
  {
    if reqs == [] {
      run := [State([Commit(map[], {}, {})], map[])];
    } else {
      run := SerialRunsInterleave(reqs[..|reqs| - 1], all);
      run := ServeAlone(run, reqs[|reqs| - 1], all);
    }
  }
}
