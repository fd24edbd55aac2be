/** Referential integrity under concurrency: a locking argument that gives it for every
    interleaving, and the exact condition on each commit. */
module MongoIntegrity {
  import opened Model
  import opened MongoValidation
  import opened MongoTransactions
  import opened MongoConcurrency
  import opened MongoClaims

  // ----- The invariant -----

  /** The lock rows of the transaction cover the documents its references resolved to. */
  ghost predicate Covers(h: History, tx: Tx)
    requires Sane(h, tx) && tx.first.Some? && tx.second.Some?
  {
    !tx.request.Delete? ==>
      OwnerUuids(h[tx.start].store, OutboundRefs(tx.request.write.info)) <= Effect(h, tx).locks
  }

  ghost predicate CommitsCovered(a: State, b: State) {
    forall t :: CommitTx(a, b, t) ==> Covers(a.history, a.active[t])
  }

  /** Document `y` supports the reference `r` of document `z`: whoever tries to delete `y`
      from a snapshot at `i` either sees the reference or meets the lock on `y`. */
  ghost predicate Supports(h: History, z: MeadowlarkId, r: MeadowlarkId, y: MeadowlarkId)
    requires |h| > 0 && z in h[|h| - 1].store
  {
    var now := h[|h| - 1].store;
    && y in now && r in now[y].aliasIds
    && forall i :: 0 <= i < |h| ==>
         || (z in h[i].store && h[i].store[z] == now[z])
         || Locked(h, i, now[y].documentUuid)
  }

  /** Some commit after `i` locked `uuid`. */
  ghost predicate Locked(h: History, i: int, uuid: DocumentUuid) {
    exists j :: 0 <= i < j < |h| && uuid in h[j].locks
  }

  ghost predicate Supported(h: History)
    requires |h| > 0
  {
    var now := h[|h| - 1].store;
    forall z, r :: z in now && now[z].validated && r in now[z].outboundRefs ==> exists y :: Supports(h, z, r, y)
  }

  // ----- One commit -----

  /** What a write set satisfies when it commits. */
  ghost predicate Ready(schema: Schema, h: History, start: nat, s': Store, locks: set<DocumentUuid>) {
    && Committable(schema, h, start, s', locks)
    && Supported(h)
    && Disciplined(schema, h[start].store, s', locks)
    && RemovesUnreferenced(h[start].store, s')
    && OwnersLocked(h[start].store, s', locks)
  }

  /** Every document a newly written reference resolved to is locked. */
  ghost predicate OwnersLocked(s: Store, s': Store, locks: set<DocumentUuid>) {
    forall z, y :: z in Changed(s, s') && z in s' && y in s && Intersects(s[y].aliasIds, s'[z].outboundRefs) ==>
      s[y].documentUuid in locks
  }

  /** A reference to a document whose lock row the last commit wrote is supported. */
  lemma SupportedByLast(h: History, z: MeadowlarkId, r: MeadowlarkId, y: MeadowlarkId)
    requires |h| > 0
    requires var now := h[|h| - 1].store;
      z in now && y in now && r in now[y].aliasIds && now[y].documentUuid in h[|h| - 1].locks
    ensures Supports(h, z, r, y)
  {
    LockedByLast(h, h[|h| - 1].store[y].documentUuid);
  }

  /** An owner, locked by the transaction, of a reference the transaction has validated. */
  lemma LockedOwner(schema: Schema, h: History, start: nat, s': Store, locks: set<DocumentUuid>, z: MeadowlarkId,
      r: MeadowlarkId) returns (y: MeadowlarkId)
    requires Ready(schema, h, start, s', locks)
    requires z in Changed(h[start].store, s') && z in s' && s'[z].validated && r in s'[z].outboundRefs
    ensures y in h[start].store && r in h[start].store[y].aliasIds && h[start].store[y].documentUuid in locks
    ensures y in Changed(h[start].store, s') ==> y in s' && r in s'[y].aliasIds && s'[y].documentUuid in locks
  {
    var s := h[start].store;
    assert Resolves(s, r);
    y :| y in s && r in s[y].aliasIds;
    assert Intersects(s[y].aliasIds, s'[z].outboundRefs);
    assert y !in s' ==> Intersects(s'[z].outboundRefs, s[y].aliasIds);
  }

  /** A document the transaction writes finds, after the commit, an owner of each reference
      that the transaction has locked. */
  lemma NewReferenceSupported(schema: Schema, h: History, start: nat, s': Store, locks: set<DocumentUuid>,
      z: MeadowlarkId, r: MeadowlarkId) returns (y: MeadowlarkId)
    requires Ready(schema, h, start, s', locks)
    requires z in Changed(h[start].store, s') && z in s' && s'[z].validated && r in s'[z].outboundRefs
    ensures z in Append(h, start, s', locks)[|h|].store
    ensures Supports(Append(h, start, s', locks), z, r, y)
  {
    y := LockedOwner(schema, h, start, s', locks, z, r);
    SnapshotStable(schema, h, start, s', locks);
    SupportedByLast(Append(h, start, s', locks), z, r, y);
  }

  lemma LockedByLast(h: History, uuid: DocumentUuid)
    requires |h| > 0 && uuid in h[|h| - 1].locks
    ensures forall i :: 0 <= i < |h| - 1 ==> Locked(h, i, uuid)
  {
  }

  lemma LockedStill(h: History, c: Commit, uuid: DocumentUuid)
    ensures forall i :: Locked(h, i, uuid) ==> Locked(h + [c], i, uuid)
  {
    forall i | Locked(h, i, uuid) ensures Locked(h + [c], i, uuid) {
      var j :| 0 <= i < j < |h| && uuid in h[j].locks;
      assert (h + [c])[j] == h[j];
    }
  }

  /** The document that supports a reference cannot be the one removed: its deleter would
      have seen the reference in its snapshot or met the lock. */
  lemma SupportNotRemoved(schema: Schema, h: History, start: nat, s': Store, locks: set<DocumentUuid>, z: MeadowlarkId,
      r: MeadowlarkId, y: MeadowlarkId)
    requires Ready(schema, h, start, s', locks)
    requires z in h[|h| - 1].store && r in h[|h| - 1].store[z].outboundRefs && Supports(h, z, r, y)
    ensures y in Changed(h[start].store, s') ==> y in s'
  {
    var s, now := h[start].store, h[|h| - 1].store;
    SnapshotStable(schema, h, start, s', locks);
    assert y in Changed(s, s') && y !in s' ==> Unreferenced(s, y) && Intersects(now[z].outboundRefs, s[y].aliasIds);
  }

  /** A reference that was supported before the commit still is. */
  lemma OldReferenceSupported(schema: Schema, h: History, start: nat, s': Store, locks: set<DocumentUuid>,
      z: MeadowlarkId, r: MeadowlarkId, y: MeadowlarkId)
    requires Ready(schema, h, start, s', locks)
    requires z !in Changed(h[start].store, s') && z in h[|h| - 1].store
    requires r in h[|h| - 1].store[z].outboundRefs && Supports(h, z, r, y)
    ensures z in Append(h, start, s', locks)[|h|].store
    ensures Supports(Append(h, start, s', locks), z, r, y)
  {
    var s, h', now := h[start].store, Append(h, start, s', locks), h[|h| - 1].store;
    var now' := h'[|h|].store;
    SnapshotStable(schema, h, start, s', locks);
    SupportNotRemoved(schema, h, start, s', locks, z, r, y);
    assert now'[z] == now[z];
    if y in Changed(s, s') {
      assert now'[y] == s'[y] && s[y] == now[y];
      LockedByLast(h', now'[y].documentUuid);
    } else {
      assert now'[y] == now[y];
      LockedStill(h, h'[|h|], now[y].documentUuid);
    }
  }

  lemma CommitSupported(schema: Schema, h: History, start: nat, s': Store, locks: set<DocumentUuid>)
    requires Ready(schema, h, start, s', locks)
    ensures Supported(Append(h, start, s', locks))
  {
    var s, h', now := h[start].store, Append(h, start, s', locks), h[|h| - 1].store;
    var now' := h'[|h|].store;
    SnapshotStable(schema, h, start, s', locks);
    forall z, r | z in now' && now'[z].validated && r in now'[z].outboundRefs
      ensures exists y :: Supports(h', z, r, y)
    {
      if z in Changed(s, s') {
        var y := NewReferenceSupported(schema, h, start, s', locks, z, r);
      } else {
        var y :| Supports(h, z, r, y);
        OldReferenceSupported(schema, h, start, s', locks, z, r, y);
      }
    }
  }

  // ----- Whole runs -----

  lemma EffectReady(schema: Schema, a: State, b: State, t: nat)
    requires SoundState(schema, a) && Supported(a.history) && RequestsFit(schema, a) && CommitTx(a, b, t)
    requires AliasDisjoint(a.history[a.active[t].start].store) && Covers(a.history, a.active[t])
    requires ValidatingDelete(a.active[t].request)
    ensures var o := Effect(a.history, a.active[t]);
      Ready(schema, a.history, a.active[t].start, o.store, o.locks)
  {
    var h, tx := a.history, a.active[t];
    var s, o := h[tx.start].store, Effect(h, tx);
    var first, second := h[tx.first.value].store, h[tx.second.value].store;
    EffectCommittable(schema, a, b, t);
    ViewsAgree(schema, h, tx);
    TransactionDisciplined(schema, first, second, s, tx.request);
    forall z, y | z in Changed(s, o.store) && z in o.store && y in s
      && Intersects(s[y].aliasIds, o.store[z].outboundRefs)
      ensures s[y].documentUuid in o.locks
    {
      WritesRequestRefs(first, second, s, tx.request, z);
      assert y in Matching(s, OutboundRefs(tx.request.write.info));
    }
  }

  lemma ViewsAgree(schema: Schema, h: History, tx: Tx)
    requires Sound(schema, h) && Sane(h, tx) && tx.first.Some? && tx.second.Some?
    requires NoConflict(h, tx.start, Effect(h, tx).store, Effect(h, tx).locks)
    ensures Agrees(h[tx.first.value].store, h[tx.start].store, Effect(h, tx).store)
  {
    var s, s' := h[tx.start].store, Effect(h, tx).store;
    forall x | x in s && x in Changed(s, s')
      ensures x in h[tx.first.value].store && h[tx.first.value].store[x] == s[x]
    {
      WrittenStable(schema, h, tx.start, tx.first.value, x);
    }
  }

  lemma StepSupported(schema: Schema, a: State, b: State)
    requires SoundState(schema, a) && Supported(a.history) && RequestsFit(schema, a) && DeletesValidate(a)
    requires AllDisjoint(a.history) && Next(a, b) && CommitsCovered(a, b)
    ensures SoundState(schema, b) && Supported(b.history)
  {
    StepSound(schema, a, b);
    if t :| CommitTx(a, b, t) {
      EffectReady(schema, a, b, t);
      var o := Effect(a.history, a.active[t]);
      CommitSupported(schema, a.history, a.active[t].start, o.store, o.locks);
    }
  }

  ghost predicate DeletesValidate(st: State) {
    forall t :: t in st.active ==> ValidatingDelete(st.active[t].request)
  }

  /** Validating deletes, covering lock rows, and superclass claims that are still free. */
  ghost predicate Behaved(schema: Schema, run: seq<State>) {
    && WellFormedRequests(schema, run)
    && (forall i :: 0 <= i < |run| ==> DeletesValidate(run[i]))
    && (forall i :: 0 <= i < |run| - 1 ==> CommitsCovered(run[i], run[i + 1]))
    && (forall i :: 0 <= i < |run| - 1 ==> CommitsClaimFree(schema, run[i], run[i + 1]))
  }

  lemma {:induction false} RunSupported(schema: Schema, run: seq<State>, i: nat)
    requires Run(run) && Behaved(schema, run) && i < |run|
    ensures SoundState(schema, run[i]) && Supported(run[i].history)
  {
    if i == 0 {
      assert run[0].history == [Commit(map[], {}, {})];
    } else {
      RunSupported(schema, run, i - 1);
      RunAllDisjoint(schema, run, i - 1);
      assert StepAt(run, i - 1) && CommitsCovered(run[i - 1], run[i - 1 + 1]);
      StepSupported(schema, run[i - 1], run[i]);
    }
  }

  /** Main result: in every interleaving of validating transactions, every committed state
      has all references of its validated documents resolved. */
  lemma {:induction false} EveryCommittedStateHasIntegrity(schema: Schema, run: seq<State>, i: nat)
    requires Run(run) && Behaved(schema, run) && i < |run|
    ensures ReferentialIntegrity(Current(run[i]))
  {
    RunSupported(schema, run, i);
    var h := run[i].history;
    forall z, r | z in Current(run[i]) && Current(run[i])[z].validated && r in Current(run[i])[z].outboundRefs
      ensures Resolves(Current(run[i]), r)
    {
      var y :| Supports(h, z, r, y);
    }
  }

  /** If the queries for lock rows read the snapshot of their own session, the hypothesis
      on the lock rows holds by itself. */
  lemma SessionReadsCover(h: History, tx: Tx)
    requires Sane(h, tx) && tx.first.Some? && tx.second.Some?
    requires Succeeded(Effect(h, tx).result)
    requires tx.first.value == tx.start
    ensures Covers(h, tx)
  {
    if tx.request.Update? && !UpdateMatches(h[tx.start].store, tx.request.write, tx.request.documentUuid) {
      var s := h[tx.start].store;
      var x := IdentityChangeMoves(s, h[tx.second.value].store, s, tx.request.write, tx.request.documentUuid,
        tx.request.freshUuid);
    }
  }

  /** The repair: with the session passed to those queries, integrity needs no hypothesis on
      the lock rows. */
  lemma {:induction false} SessionReadsSuffice(schema: Schema, run: seq<State>, i: nat)
    requires Run(run) && i < |run|
    requires WellFormedRequests(schema, run) && forall k :: 0 <= k < |run| ==> DeletesValidate(run[k])
    requires forall k :: 0 <= k < |run| - 1 ==> CommitsClaimFree(schema, run[k], run[k + 1])
    requires forall k, t :: 0 <= k < |run| - 1 && CommitTx(run[k], run[k + 1], t) ==>
               run[k].active[t].first == Some(run[k].active[t].start)
    ensures ReferentialIntegrity(Current(run[i]))
  {
    forall k | 0 <= k < |run| - 1 ensures CommitsCovered(run[k], run[k + 1]) {
      forall t | CommitTx(run[k], run[k + 1], t) ensures Covers(run[k].history, run[k].active[t]) {
        SessionReadsCover(run[k].history, run[k].active[t]);
      }
    }
    EveryCommittedStateHasIntegrity(schema, run, i);
  }

  // ----- The exact condition on one commit -----

  /** Some document answers to `r` after the commit: one of the latest store that is not
      removed, or the one that is written. */
  ghost predicate Kept(now: Store, s: Store, s': Store, r: MeadowlarkId) {
    || (exists y :: y in now && y !in Changed(s, s') && r in now[y].aliasIds)
    || (exists y :: y in s' && y in Changed(s, s') && r in s'[y].aliasIds)
  }

  /** Checked on the latest store: the references being written are still owned, and so are
      the references of other documents to what is being removed. */
  ghost predicate ReferencesHold(now: Store, s: Store, s': Store) {
    && (forall z, r :: z in Changed(s, s') && z in s' && s'[z].validated && r in s'[z].outboundRefs ==>
         Kept(now, s, s', r))
    && (forall z, x, r :: z in now && z !in Changed(s, s') && now[z].validated && x in s && x !in s' ==>
         r in now[z].outboundRefs && r in s[x].aliasIds ==> Kept(now, s, s', r))
  }

  lemma KeptIff(schema: Schema, h: History, start: nat, s': Store, locks: set<DocumentUuid>, r: MeadowlarkId)
    requires Committable(schema, h, start, s', locks)
    ensures Resolves(Append(h, start, s', locks)[|h|].store, r) <==> Kept(h[|h| - 1].store, h[start].store, s', r)
  {
    var s, now, next := h[start].store, h[|h| - 1].store, Append(h, start, s', locks)[|h|].store;
    assert next == Overlay(now, s, s');
    if y :| y in next && r in next[y].aliasIds {
      assert y in Changed(s, s') || (y in now && next[y] == now[y]);
    }
    if y :| y in now && y !in Changed(s, s') && r in now[y].aliasIds {
      assert y in next && next[y] == now[y];
    }
    if y :| y in s' && y in Changed(s, s') && r in s'[y].aliasIds {
      assert y in next && next[y] == s'[y];
    }
  }

  /** An owner in the latest store is only lost by being removed: an overwritten document
      keeps its aliases. */
  lemma OwnerKept(schema: Schema, h: History, start: nat, s': Store, locks: set<DocumentUuid>, y: MeadowlarkId,
      r: MeadowlarkId)
    requires Committable(schema, h, start, s', locks)
    requires y in h[|h| - 1].store && r in h[|h| - 1].store[y].aliasIds && !(y in h[start].store && y !in s')
    ensures Kept(h[|h| - 1].store, h[start].store, s', r)
  {
    var s, now := h[start].store, h[|h| - 1].store;
    SnapshotStable(schema, h, start, s', locks);
    if y in Changed(s, s') {
      assert y in s' && s'[y].aliasIds == now[y].aliasIds;
    }
  }

  /** Exactly when a commit keeps every reference resolved, whatever it has locked. */
  lemma CommitIntegrityIff(schema: Schema, h: History, start: nat, s': Store, locks: set<DocumentUuid>)
    requires Committable(schema, h, start, s', locks) && ReferentialIntegrity(h[|h| - 1].store)
    ensures ReferentialIntegrity(Append(h, start, s', locks)[|h|].store)
      <==> ReferencesHold(h[|h| - 1].store, h[start].store, s')
  {
    var s, now, next := h[start].store, h[|h| - 1].store, Append(h, start, s', locks)[|h|].store;
    forall r ensures Resolves(next, r) <==> Kept(now, s, s', r) {
      KeptIff(schema, h, start, s', locks, r);
    }
    if ReferencesHold(now, s, s') {
      forall z, r | z in next && next[z].validated && r in next[z].outboundRefs ensures Resolves(next, r) {
        if z !in Changed(s, s') {
          UnwrittenReference(schema, h, start, s', locks, z, r);
        }
      }
    }
    if ReferentialIntegrity(next) {
      IntegrityMeansHold(now, s, s', next);
    }
  }

  lemma UnwrittenReference(schema: Schema, h: History, start: nat, s': Store, locks: set<DocumentUuid>,
      z: MeadowlarkId, r: MeadowlarkId)
    requires Committable(schema, h, start, s', locks) && ReferentialIntegrity(h[|h| - 1].store)
    requires var s, now := h[start].store, h[|h| - 1].store;
      && ReferencesHold(now, s, s')
      && z in now && z !in Changed(s, s') && now[z].validated && r in now[z].outboundRefs
    ensures Kept(h[|h| - 1].store, h[start].store, s', r)
  {
    var s, now := h[start].store, h[|h| - 1].store;
    SnapshotStable(schema, h, start, s', locks);
    assert AllResolve(now, now[z].outboundRefs);
    var y :| y in now && r in now[y].aliasIds;
    if y in s && y !in s' {
      assert y in Changed(s, s') && s[y] == now[y];
    } else {
      OwnerKept(schema, h, start, s', locks, y, r);
    }
  }

  lemma IntegrityMeansHold(now: Store, s: Store, s': Store, next: Store)
    requires next == Overlay(now, s, s') && ReferentialIntegrity(next)
    requires forall r :: Resolves(next, r) <==> Kept(now, s, s', r)
    ensures ReferencesHold(now, s, s')
  {
    forall z, r | z in Changed(s, s') && z in s' && s'[z].validated && r in s'[z].outboundRefs
      ensures Kept(now, s, s', r)
    {
      assert z in next && next[z] == s'[z] && AllResolve(next, next[z].outboundRefs);
    }
    forall z, r | z in now && z !in Changed(s, s') && now[z].validated && r in now[z].outboundRefs
      ensures Kept(now, s, s', r)
    {
      assert z in next && next[z] == now[z] && AllResolve(next, next[z].outboundRefs);
    }
  }

  ghost predicate CommitsReferencesHold(a: State, b: State) {
    forall t :: CommitTx(a, b, t) ==> CommitReferencesHold(a, t)
  }

  ghost predicate CommitReferencesHold(a: State, t: nat)
    requires t in a.active
    requires Sane(a.history, a.active[t]) && a.active[t].first.Some? && a.active[t].second.Some?
  {
    ReferencesHold(Current(a), a.history[a.active[t].start].store, Effect(a.history, a.active[t]).store)
  }

  lemma AppendIntegrityIff(schema: Schema, h: History, start: nat, s': Store, locks: set<DocumentUuid>, h': History)
    requires Committable(schema, h, start, s', locks) && ReferentialIntegrity(h[|h| - 1].store)
    requires h' == Append(h, start, s', locks)
    ensures ReferentialIntegrity(h'[|h'| - 1].store)
            <==> ReferencesHold(h[|h| - 1].store, h[start].store, s')
  {
    CommitIntegrityIff(schema, h, start, s', locks);
  }

  lemma StepIntegrityIff(schema: Schema, a: State, b: State)
    requires SoundState(schema, a) && RequestsFit(schema, a) && Next(a, b) && ReferentialIntegrity(Current(a))
    ensures ReferentialIntegrity(Current(b)) <==> CommitsReferencesHold(a, b)
  {
    forall t | CommitTx(a, b, t) ensures ReferentialIntegrity(Current(b)) <==> CommitReferencesHold(a, t) {
      var start, s', locks := CommitLands(schema, a, b, t);
      AppendIntegrityIff(schema, a.history, start, s', locks, b.history);
    }
    if !exists t :: CommitTx(a, b, t) {
      assert b.history == a.history;
    }
  }

  lemma {:induction false} RunIntegrityFrom(schema: Schema, run: seq<State>, i: nat)
    requires Run(run) && WellFormedRequests(schema, run) && i < |run|
    requires forall k :: 0 <= k < i ==> CommitsReferencesHold(run[k], run[k + 1])
    ensures ReferentialIntegrity(Current(run[i]))
  {
    if i == 0 {
      assert Current(run[0]) == map[];
    } else {
      RunIntegrityFrom(schema, run, i - 1);
      RunSound(schema, run, i - 1);
      assert StepAt(run, i - 1);
      assert CommitsReferencesHold(run[i - 1], run[i - 1 + 1]);
      StepIntegrityIff(schema, run[i - 1], run[i]);
    }
  }

  /** Main result: in every interleaving, with any lock rows, any deletes and any claims,
      every committed state has all references resolved exactly when every commit still finds
      them owned. */
  lemma {:induction false} RunIntegrityIff(schema: Schema, run: seq<State>)
    requires Run(run) && WellFormedRequests(schema, run)
    ensures (forall i :: 0 <= i < |run| ==> ReferentialIntegrity(Current(run[i])))
            <==> (forall i :: 0 <= i < |run| - 1 ==> CommitsReferencesHold(run[i], run[i + 1]))
  {
    if forall i :: 0 <= i < |run| - 1 ==> CommitsReferencesHold(run[i], run[i + 1]) {
      forall i | 0 <= i < |run| ensures ReferentialIntegrity(Current(run[i])) {
        RunIntegrityFrom(schema, run, i);
      }
    }
    if forall i :: 0 <= i < |run| ==> ReferentialIntegrity(Current(run[i])) {
      forall i | 0 <= i < |run| - 1 ensures CommitsReferencesHold(run[i], run[i + 1]) {
        RunSound(schema, run, i);
        assert StepAt(run, i);
        StepIntegrityIff(schema, run[i], run[i + 1]);
      }
    }
  }
}
