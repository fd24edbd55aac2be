/** The MongoDB backend under concurrency.

    The database is modelled by its contract: a transaction reads the snapshot of its start,
    and its commit is refused if a transaction that committed since then wrote one of the
    same documents or one of the same lock rows. The two sessionless queries for lock rows
    read whatever is committed when they run. Transactions interleave freely. */
module MongoConcurrency {
  import opened Model
  import opened MongoValidation
  import opened MongoTransactions

  /** A committed state and the write set that led to it. */
  datatype Commit = Commit(store: Store, locks: set<DocumentUuid>, written: set<MeadowlarkId>)
  type History = seq<Commit>

  /** A running transaction: where its snapshot is in the history, and where the history
      stood at its two sessionless queries, once they have run. */
  datatype Tx = Tx(request: Request, start: nat, first: Option<nat>, second: Option<nat>)

  datatype State = State(history: History, active: map<nat, Tx>)

  ghost predicate Sane(h: History, tx: Tx) {
    && tx.start < |h|
    && (tx.first.Some? ==> tx.start <= tx.first.value < |h|)
    && (tx.second.Some? ==> tx.start <= tx.second.value < |h|)
  }

  ghost function Effect(h: History, tx: Tx): Outcome<Result>
    requires Sane(h, tx) && tx.first.Some? && tx.second.Some?
  {
    Transaction(h[tx.first.value].store, h[tx.second.value].store, h[tx.start].store, tx.request)
  }

  /** The committed store with the transaction's writes laid over it. */
  function Overlay(current: Store, s: Store, s': Store): Store {
    map x | x in current.Keys + s'.Keys && (if x in Changed(s, s') then x in s' else x in current) ::
      if x in Changed(s, s') then s'[x] else current[x]
  }

  /** No write conflict: every commit since the snapshot wrote other documents and other lock rows. */
  ghost predicate NoConflict(h: History, start: nat, s': Store, locks: set<DocumentUuid>)
    requires start < |h|
  {
    forall j :: start < j < |h| ==> h[j].locks !! locks && h[j].written !! Changed(h[start].store, s')
  }

  ghost function Append(h: History, start: nat, s': Store, locks: set<DocumentUuid>): History
    requires start < |h|
  {
    h + [Commit(Overlay(h[|h| - 1].store, h[start].store, s'), locks, Changed(h[start].store, s'))]
  }

  // ----- Steps -----

  ghost predicate Begin(a: State, b: State, t: nat, req: Request) {
    && t !in a.active && |a.history| > 0
    && b == State(a.history, a.active[t := Tx(req, |a.history| - 1, None, None)])
  }

  /** One of the sessionless queries for the owners of the references. */
  ghost predicate FindOwners(a: State, b: State, t: nat) {
    && t in a.active && |a.history| > 0
    && var now := Some(|a.history| - 1);
       var tx := a.active[t];
       || (tx.first.None? && b == State(a.history, a.active[t := tx.(first := now)]))
       || (tx.first.Some? && tx.second.None? && b == State(a.history, a.active[t := tx.(second := now)]))
  }

  ghost predicate CommitTx(a: State, b: State, t: nat) {
    && t in a.active
    && var tx := a.active[t];
       && Sane(a.history, tx) && tx.first.Some? && tx.second.Some?
       && Succeeded(Effect(a.history, tx).result)
       && var o := Effect(a.history, tx);
       && NoConflict(a.history, tx.start, o.store, o.locks)
       && b == State(Append(a.history, tx.start, o.store, o.locks), a.active - {t})
  }

  /** An answer that is not a success, an exception, or a write conflict. */
  ghost predicate Abort(a: State, b: State, t: nat) {
    t in a.active && b == State(a.history, a.active - {t})
  }

  ghost predicate Next(a: State, b: State) {
    || (exists t, req :: Begin(a, b, t, req))
    || (exists t :: FindOwners(a, b, t))
    || (exists t :: CommitTx(a, b, t))
    || (exists t :: Abort(a, b, t))
  }

  /** An interleaving of any number of transactions, from the empty collection. */
  ghost predicate Run(run: seq<State>) {
    && |run| > 0
    && run[0] == State([Commit(map[], {}, {})], map[])
    && forall i: nat :: i + 1 < |run| ==> StepAt(run, i)
  }

  ghost predicate StepAt(run: seq<State>, i: nat)
    requires i + 1 < |run|
  {
    Next(run[i], run[i + 1])
  }

  ghost function Current(st: State): Store {
    if st.history == [] then map[] else st.history[|st.history| - 1].store
  }

  ghost predicate RequestsFit(schema: Schema, st: State) {
    forall t :: t in st.active ==> WellFormed(schema, st.active[t].request)
  }

  // ----- What every history keeps -----

  /** Writing or removing a document is visible as a write of its id and of its lock row. */
  ghost predicate Logged(before: Store, c: Commit) {
    forall x :: x in Changed(before, c.store) ==>
      && x in c.written
      && (x in before ==> before[x].documentUuid in c.locks)
      && (x in c.store ==> c.store[x].documentUuid in c.locks)
  }

  ghost predicate WritesLogged(h: History) {
    forall j :: 0 < j < |h| ==> Logged(h[j - 1].store, h[j])
  }

  ghost predicate Sound(schema: Schema, h: History) {
    && |h| > 0
    && (forall i :: 0 <= i < |h| ==> Indexed(schema, h[i].store))
    && WritesLogged(h)
  }

  /** A document a transaction writes is still what its snapshot showed. */
  lemma {:induction false} WrittenStable(schema: Schema, h: History, s: nat, k: nat, x: MeadowlarkId)
    requires Sound(schema, h) && s <= k < |h|
    requires forall j :: s < j <= k ==> x !in h[j].written
    ensures x in h[s].store <==> x in h[k].store
    ensures x in h[s].store ==> h[s].store[x] == h[k].store[x]
  {
    if s < k {
      WrittenStable(schema, h, s, k - 1, x);
      assert x !in Changed(h[k - 1].store, h[k].store);
    }
  }

  /** A document a transaction has locked is still what its snapshot showed. */
  lemma {:induction false} LockedStable(schema: Schema, h: History, s: nat, k: nat, x: MeadowlarkId)
    requires Sound(schema, h) && s <= k < |h| && x in h[s].store
    requires forall j :: s < j <= k ==> h[s].store[x].documentUuid !in h[j].locks
    ensures x in h[k].store && h[s].store[x] == h[k].store[x]
  {
    if s < k {
      LockedStable(schema, h, s, k - 1, x);
      assert x !in Changed(h[k - 1].store, h[k].store);
    }
  }

  /** A document with a locked uuid was already there in the snapshot. */
  lemma {:induction false} LockedOld(schema: Schema, h: History, s: nat, k: nat, x: MeadowlarkId)
    requires Sound(schema, h) && s <= k < |h| && x in h[k].store
    requires forall j :: s < j <= k ==> h[k].store[x].documentUuid !in h[j].locks
    ensures x in h[s].store && h[s].store[x] == h[k].store[x]
  {
    if s < k {
      assert x !in Changed(h[k - 1].store, h[k].store);
      LockedOld(schema, h, s, k - 1, x);
    }
  }

  /** A view that shows what the snapshot shows of everything written or locked. */
  ghost predicate Still(s: Store, view: Store, s': Store, locks: set<DocumentUuid>) {
    && (forall x :: x in Changed(s, s') ==> (x in s <==> x in view) && (x in s ==> view[x] == s[x]))
    && (forall x :: x in s && s[x].documentUuid in locks ==> x in view && view[x] == s[x])
    && (forall x :: x in view && view[x].documentUuid in locks ==> x in s && view[x] == s[x])
  }

  lemma ViewStill(schema: Schema, h: History, start: nat, k: nat, s': Store, locks: set<DocumentUuid>)
    requires Sound(schema, h) && start <= k < |h| && NoConflict(h, start, s', locks)
    ensures Still(h[start].store, h[k].store, s', locks)
  {
    var s, view := h[start].store, h[k].store;
    forall x | x in Changed(s, s') ensures (x in s <==> x in view) && (x in s ==> view[x] == s[x]) {
      WrittenStable(schema, h, start, k, x);
    }
    forall x | x in s && s[x].documentUuid in locks ensures x in view && view[x] == s[x] {
      LockedStable(schema, h, start, k, x);
    }
    forall x | x in view && view[x].documentUuid in locks ensures x in s && view[x] == s[x] {
      LockedOld(schema, h, start, k, x);
    }
  }

  lemma SnapshotStable(schema: Schema, h: History, start: nat, s': Store, locks: set<DocumentUuid>)
    requires Sound(schema, h) && start < |h| && NoConflict(h, start, s', locks)
    ensures Still(h[start].store, h[|h| - 1].store, s', locks)
  {
    ViewStill(schema, h, start, |h| - 1, s', locks);
  }

  /** A write set that may commit; the transaction itself is forgotten. */
  ghost predicate Committable(schema: Schema, h: History, start: nat, s': Store, locks: set<DocumentUuid>) {
    && Sound(schema, h) && start < |h|
    && NoConflict(h, start, s', locks)
    && LocksWrites(schema, h[start].store, s', locks)
  }

  lemma CommitSound(schema: Schema, h: History, start: nat, s': Store, locks: set<DocumentUuid>)
    requires Committable(schema, h, start, s', locks)
    ensures Sound(schema, Append(h, start, s', locks))
  {
    OverlayLogged(schema, h, start, s', locks);
    assert Indexed(schema, Append(h, start, s', locks)[|h|].store);
  }

  lemma OverlayLogged(schema: Schema, h: History, start: nat, s': Store, locks: set<DocumentUuid>)
    requires Committable(schema, h, start, s', locks)
    ensures Logged(h[|h| - 1].store, Append(h, start, s', locks)[|h|])
  {
    SnapshotStable(schema, h, start, s', locks);
  }

  ghost predicate SoundState(schema: Schema, st: State) {
    Sound(schema, st.history) && forall t :: t in st.active ==> Sane(st.history, st.active[t])
  }

  lemma EffectCommittable(schema: Schema, a: State, b: State, t: nat)
    requires SoundState(schema, a) && RequestsFit(schema, a) && CommitTx(a, b, t)
    ensures var o := Effect(a.history, a.active[t]);
      && Committable(schema, a.history, a.active[t].start, o.store, o.locks)
      && WritesOne(a.history[a.active[t].start].store, o.store)
  {
    var h, tx := a.history, a.active[t];
    TransactionLocks(schema, h[tx.first.value].store, h[tx.second.value].store, h[tx.start].store, tx.request);
  }

  /** The write set a commit adds to the history. */
  lemma CommitLands(schema: Schema, a: State, b: State, t: nat)
    returns (start: nat, s': Store, locks: set<DocumentUuid>)
    requires SoundState(schema, a) && RequestsFit(schema, a) && CommitTx(a, b, t)
    ensures Committable(schema, a.history, start, s', locks) && WritesOne(a.history[start].store, s')
    ensures b.history == Append(a.history, start, s', locks)
    ensures start == a.active[t].start && s' == Effect(a.history, a.active[t]).store
  {
    EffectCommittable(schema, a, b, t);
    var o := Effect(a.history, a.active[t]);
    start, s', locks := a.active[t].start, o.store, o.locks;
  }

  lemma StepSound(schema: Schema, a: State, b: State)
    requires SoundState(schema, a) && RequestsFit(schema, a) && Next(a, b)
    ensures SoundState(schema, b) && a.history <= b.history
  {
    if t :| CommitTx(a, b, t) {
      var start, s', locks := CommitLands(schema, a, b, t);
      CommitSound(schema, a.history, start, s', locks);
    }
  }

  ghost predicate WellFormedRequests(schema: Schema, run: seq<State>) {
    forall i :: 0 <= i < |run| ==> RequestsFit(schema, run[i])
  }

  lemma {:induction false} RunSound(schema: Schema, run: seq<State>, i: nat)
    requires Run(run) && WellFormedRequests(schema, run) && i < |run|
    ensures SoundState(schema, run[i])
  {
    if i == 0 {
      assert run[0].history == [Commit(map[], {}, {})];
    } else {
      RunSound(schema, run, i - 1);
      assert StepAt(run, i - 1);
      StepSound(schema, run[i - 1], run[i]);
    }
  }

  // ----- Building runs -----

  ghost function Last(run: seq<State>): State
    requires |run| > 0
  {
    run[|run| - 1]
  }

  /** Every transaction of the run serves one of `reqs`. */
  ghost predicate Uses(run: seq<State>, reqs: set<Request>) {
    forall i :: 0 <= i < |run| ==> Active(run[i], reqs)
  }

  ghost predicate Active(st: State, reqs: set<Request>) {
    forall t :: t in st.active ==> st.active[t].request in reqs
  }

  lemma {:induction false} UsesFit(schema: Schema, run: seq<State>, reqs: set<Request>)
    requires Uses(run, reqs) && forall req :: req in reqs ==> WellFormed(schema, req)
    ensures WellFormedRequests(schema, run)
  {
    forall i | 0 <= i < |run| ensures RequestsFit(schema, run[i]) {
      assert Active(run[i], reqs);
    }
  }

  lemma {:induction false} Extend(run: seq<State>, b: State, reqs: set<Request>) returns (run': seq<State>)
    requires Run(run) && Uses(run, reqs) && Next(Last(run), b) && Active(b, reqs)
    ensures Run(run') && Uses(run', reqs) && run <= run' && Last(run') == b
  {
    run' := run + [b];
    forall i: nat | i + 1 < |run'| ensures StepAt(run', i) {
      assert i + 1 < |run| ==> StepAt(run, i);
    }
  }

  lemma {:induction false} RunBegin(run: seq<State>, t: nat, req: Request, reqs: set<Request>)
    returns (run': seq<State>)
    requires Run(run) && Uses(run, reqs) && req in reqs
    requires t !in Last(run).active && |Last(run).history| > 0
    ensures Run(run') && Uses(run', reqs) && run <= run'
    ensures Last(run') == State(Last(run).history, Last(run).active[t := Tx(req, |Last(run).history| - 1, None, None)])
  {
    var b := State(Last(run).history, Last(run).active[t := Tx(req, |Last(run).history| - 1, None, None)]);
    assert Begin(Last(run), b, t, req);
    assert Active(Last(run), reqs);
    run' := Extend(run, b, reqs);
  }

  /** Both sessionless queries of `t`, one right after the other. */
  lemma {:induction false} RunQueries(run: seq<State>, t: nat, reqs: set<Request>) returns (run': seq<State>)
    requires Run(run) && Uses(run, reqs) && t in Last(run).active && |Last(run).history| > 0
    requires Last(run).active[t].first.None? && Last(run).active[t].second.None?
    ensures Run(run') && Uses(run', reqs) && run <= run'
    ensures var st := Last(run);
      var now := Some(|st.history| - 1);
      Last(run') == State(st.history, st.active[t := st.active[t].(first := now, second := now)])
  {
    var st := Last(run);
    var now := Some(|st.history| - 1);
    assert Active(st, reqs);
    var b := State(st.history, st.active[t := st.active[t].(first := now)]);
    assert FindOwners(st, b, t);
    run' := Extend(run, b, reqs);
    var c := State(st.history, b.active[t := b.active[t].(second := now)]);
    assert FindOwners(b, c, t);
    run' := Extend(run', c, reqs);
    assert c.active == st.active[t := st.active[t].(first := now, second := now)];
  }

  lemma {:induction false} RunCommit(run: seq<State>, t: nat, s': Store, locks: set<DocumentUuid>, reqs: set<Request>)
    returns (run': seq<State>)
    requires Run(run) && Uses(run, reqs) && t in Last(run).active
    requires var h, tx := Last(run).history, Last(run).active[t];
      && Sane(h, tx) && tx.first.Some? && tx.second.Some?
      && Succeeded(Effect(h, tx).result) && Effect(h, tx).store == s' && Effect(h, tx).locks == locks
      && NoConflict(h, tx.start, s', locks)
    ensures Run(run') && Uses(run', reqs) && run <= run'
    ensures Last(run') == State(Append(Last(run).history, Last(run).active[t].start, s', locks), Last(run).active - {t})
  {
    var b := State(Append(Last(run).history, Last(run).active[t].start, s', locks), Last(run).active - {t});
    assert CommitTx(Last(run), b, t);
    assert Active(Last(run), reqs);
    run' := Extend(run, b, reqs);
  }

  lemma {:induction false} RunPrepared(run: seq<State>, t: nat, req: Request, reqs: set<Request>)
    returns (run': seq<State>)
    requires Run(run) && Uses(run, reqs) && req in reqs
    requires t !in Last(run).active && |Last(run).history| > 0
    ensures Run(run') && Uses(run', reqs) && run <= run'
    ensures Last(run') == State(Last(run).history, Last(run).active[t := Unshared(Last(run).history, req)])
  {
    run' := RunBegin(run, t, req, reqs);
    run' := RunQueries(run', t, reqs);
    assert Last(run').active == Last(run).active[t := Unshared(Last(run).history, req)];
  }

  /** A transaction whose three views are the latest store commits what it does serially. */
  lemma {:induction false} CommitPrepared(run: seq<State>, t: nat, o: Outcome<Result>, reqs: set<Request>)
    returns (run': seq<State>)
    requires Run(run) && Uses(run, reqs) && t in Last(run).active && |Last(run).history| > 0
    requires var h, tx := Last(run).history, Last(run).active[t];
      tx == Unshared(h, tx.request) && Effect(h, tx) == o && Succeeded(o.result)
    ensures Run(run') && Uses(run', reqs) && run <= run'
    ensures Last(run').active == Last(run).active - {t}
    ensures Last(run').history ==
            Last(run).history + [Commit(o.store, o.locks, Changed(Current(Last(run)), o.store))]
  {
    run' := RunCommit(run, t, o.store, o.locks, reqs);
    OverlayAlone(Current(Last(run)), o.store);
  }

  /** A transaction that runs alone commits what it does serially. */
  lemma {:induction false} RunAlone(run: seq<State>, t: nat, req: Request, o: Outcome<Result>, reqs: set<Request>)
    returns (run': seq<State>)
    requires Run(run) && Uses(run, reqs) && req in reqs
    requires t !in Last(run).active && |Last(run).history| > 0
    requires Effect(Last(run).history, Unshared(Last(run).history, req)) == o && Succeeded(o.result)
    ensures Run(run') && Uses(run', reqs) && run <= run'
    ensures Last(run').active == Last(run).active
    ensures Last(run').history ==
            Last(run).history + [Commit(o.store, o.locks, Changed(Current(Last(run)), o.store))]
  {
    var prepared := RunPrepared(run, t, req, reqs);
    run' := CommitPrepared(prepared, t, o, reqs);
    Restored(Last(run).active, t, Unshared(Last(run).history, req));
  }

  /** A transaction that sees nothing but the latest store. */
  function Unshared(h: History, req: Request): Tx
    requires |h| > 0
  {
    Tx(req, |h| - 1, Some(|h| - 1), Some(|h| - 1))
  }

  /** All views of an unshared transaction are the latest store. */
  lemma UnsharedEffect(h: History, req: Request, s: Store)
    requires |h| > 0 && h[|h| - 1].store == s
    ensures Effect(h, Unshared(h, req)) == Transaction(s, s, s, req)
  {
    EffectOfViews(h, Unshared(h, req), s);
  }

  lemma EffectOfViews(h: History, tx: Tx, s: Store)
    requires Sane(h, tx) && tx.first.Some? && tx.second.Some?
    requires h[tx.first.value].store == s && h[tx.second.value].store == s && h[tx.start].store == s
    ensures Effect(h, tx) == Transaction(s, s, s, tx.request)
  {
  }

  lemma Restored(active: map<nat, Tx>, t: nat, tx: Tx)
    requires t !in active
    ensures active[t := tx] - {t} == active
  {
  }

  lemma OverlayAlone(s: Store, s': Store)
    ensures Overlay(s, s, s') == s'
  {
  }
}
