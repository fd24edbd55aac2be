/** Superclass claims under concurrency. Nothing locks a claim, so disjoint aliases depend on
    the interleaving: this module says exactly on what. */
module MongoClaims {
  import opened Model
  import opened MongoTransactions
  import opened MongoConcurrency

  /** The claim check, repeated on the latest committed store instead of the snapshot: nobody
      but a document that is just being removed holds the superclass alias of a document that
      is being inserted. */
  ghost predicate ClaimsFree(schema: Schema, now: Store, s: Store, s': Store) {
    forall z, y :: z in s' && z !in s && y in now && !(y in s && y !in s') && y != z && schema.superclassOf(z).Some? ==>
      schema.superclassOf(z).value !in now[y].aliasIds
  }

  lemma OverlayAliases(schema: Schema, h: History, start: nat, s': Store, locks: set<DocumentUuid>)
    requires Committable(schema, h, start, s', locks)
    ensures var s, now, next := h[start].store, h[|h| - 1].store, Append(h, start, s', locks)[|h|].store;
      && Indexed(schema, next)
      && (forall y :: y in next <==> (y in now && !(y in s && y !in s')) || (y in s' && y !in s))
      && (forall z :: z in s' && z !in s ==> z !in now && z in Changed(s, s'))
  {
    var s, now := h[start].store, h[|h| - 1].store;
    CommitSound(schema, h, start, s', locks);
    SnapshotStable(schema, h, start, s', locks);
    assert Append(h, start, s', locks)[|h|].store == Overlay(now, s, s');
    assert forall y :: y in s && y !in s' ==> y in Changed(s, s');
  }

  /** Exactly when a commit keeps aliases disjoint. */
  lemma CommitDisjointIff(schema: Schema, h: History, start: nat, s': Store, locks: set<DocumentUuid>)
    requires Committable(schema, h, start, s', locks) && WritesOne(h[start].store, s')
    requires AliasDisjoint(h[|h| - 1].store)
    ensures AliasDisjoint(Append(h, start, s', locks)[|h|].store)
            <==> ClaimsFree(schema, h[|h| - 1].store, h[start].store, s')
  {
    var s, now, next := h[start].store, h[|h| - 1].store, Append(h, start, s', locks)[|h|].store;
    OverlayAliases(schema, h, start, s', locks);
    assert Indexed(schema, now) && Indexed(schema, next);
    assert forall y :: y in now && y in next ==> now[y].aliasIds == next[y].aliasIds;
    if ClaimsFree(schema, now, s, s') {
      FreeMeansDisjoint(schema, now, s, s', next);
    } else {
      var z, y :| z in s' && z !in s && y in now && !(y in s && y !in s') && y != z
        && schema.superclassOf(z).Some? && schema.superclassOf(z).value in now[y].aliasIds;
      var a := schema.superclassOf(z).value;
      assert a in next[z].aliasIds && a in next[y].aliasIds;
    }
  }

  /** Two documents can only share the superclass alias of one that was inserted. */
  lemma FreeMeansDisjoint(schema: Schema, now: Store, s: Store, s': Store, next: Store)
    requires Indexed(schema, now) && Indexed(schema, next) && AliasDisjoint(now) && WritesOne(s, s')
    requires forall y :: y in next <==> (y in now && !(y in s && y !in s')) || (y in s' && y !in s)
    requires forall z :: z in s' && z !in s ==> z !in now && z in Changed(s, s')
    requires ClaimsFree(schema, now, s, s')
    ensures AliasDisjoint(next)
  {
    assert forall z :: z in now && z in next ==> now[z].aliasIds == next[z].aliasIds;
    forall x, y, a | x in next && y in next && a in next[x].aliasIds && a in next[y].aliasIds ensures x == y {
      SharedAlias(schema, next, x, y, a);
      if x != y {
        if x !in now { InsertedClaim(schema, now, s, s', x, y); }
        if y !in now { InsertedClaim(schema, now, s, s', y, x); }
      }
    }
  }

  /** An alias two documents share is the superclass alias of both. */
  lemma SharedAlias(schema: Schema, s: Store, x: MeadowlarkId, y: MeadowlarkId, a: MeadowlarkId)
    requires Indexed(schema, s) && x in s && y in s && a in s[x].aliasIds && a in s[y].aliasIds
    ensures x != y ==> schema.superclassOf(x) == Some(a) == schema.superclassOf(y)
  {
  }

  lemma InsertedClaim(schema: Schema, now: Store, s: Store, s': Store, z: MeadowlarkId, y: MeadowlarkId)
    requires Indexed(schema, now) && WritesOne(s, s') && ClaimsFree(schema, now, s, s') && y != z
    requires z !in now && z in s' && z !in s && z in Changed(s, s')
    requires (y in now && !(y in s && y !in s')) || (y in s' && y !in s && y in Changed(s, s'))
    ensures schema.superclassOf(z).None? || schema.superclassOf(y) != schema.superclassOf(z)
  {
  }

  // ----- Whole runs -----

  /** Every transaction this step may commit finds its superclass claim still free. */
  ghost predicate CommitsClaimFree(schema: Schema, a: State, b: State) {
    forall t :: CommitTx(a, b, t) ==> CommitClaimFree(schema, a, t)
  }

  ghost predicate CommitClaimFree(schema: Schema, a: State, t: nat)
    requires t in a.active
    requires Sane(a.history, a.active[t]) && a.active[t].first.Some? && a.active[t].second.Some?
  {
    ClaimsFree(schema, Current(a), a.history[a.active[t].start].store, Effect(a.history, a.active[t]).store)
  }

  ghost predicate AllDisjoint(h: History) {
    forall k :: 0 <= k < |h| ==> AliasDisjoint(h[k].store)
  }

  lemma StepDisjointIff(schema: Schema, a: State, b: State)
    requires SoundState(schema, a) && RequestsFit(schema, a) && Next(a, b)
    requires AllDisjoint(a.history)
    ensures AliasDisjoint(Current(b)) <==> CommitsClaimFree(schema, a, b)
    ensures AliasDisjoint(Current(b)) ==> AllDisjoint(b.history)
  {
    forall t | CommitTx(a, b, t)
      ensures AliasDisjoint(Current(b)) <==> CommitClaimFree(schema, a, t)
      ensures AliasDisjoint(Current(b)) ==> AllDisjoint(b.history)
    {
      var start, s', locks := CommitLands(schema, a, b, t);
      AppendDisjointIff(schema, a.history, start, s', locks, b.history);
    }
    if !exists t :: CommitTx(a, b, t) {
      assert b.history == a.history;
    }
  }

  lemma AppendDisjointIff(schema: Schema, h: History, start: nat, s': Store, locks: set<DocumentUuid>, h': History)
    requires Committable(schema, h, start, s', locks) && WritesOne(h[start].store, s') && AllDisjoint(h)
    requires h' == Append(h, start, s', locks)
    ensures AliasDisjoint(h'[|h'| - 1].store) <==> ClaimsFree(schema, h[|h| - 1].store, h[start].store, s')
    ensures AliasDisjoint(h'[|h'| - 1].store) ==> AllDisjoint(h')
  {
    CommitDisjointIff(schema, h, start, s', locks);
    assert forall k :: 0 <= k < |h| ==> h'[k] == h[k];
  }

  lemma {:induction false} RunAllDisjoint(schema: Schema, run: seq<State>, i: nat)
    requires Run(run) && WellFormedRequests(schema, run) && i < |run|
    requires forall k :: 0 <= k < i ==> CommitsClaimFree(schema, run[k], run[k + 1])
    ensures AllDisjoint(run[i].history)
  {
    if i == 0 {
      assert run[0].history == [Commit(map[], {}, {})];
    } else {
      RunAllDisjoint(schema, run, i - 1);
      RunSound(schema, run, i - 1);
      assert StepAt(run, i - 1);
      StepDisjointIff(schema, run[i - 1], run[i]);
      assert CommitsClaimFree(schema, run[i - 1], run[i - 1 + 1]);
    }
  }

  lemma {:induction false} DisjointStates(schema: Schema, run: seq<State>, i: nat)
    requires Run(run) && WellFormedRequests(schema, run) && i < |run|
    requires forall k :: 0 <= k <= i ==> AliasDisjoint(Current(run[k]))
    ensures AllDisjoint(run[i].history)
  {
    if i == 0 {
      assert run[0].history == [Commit(map[], {}, {})];
    } else {
      DisjointStates(schema, run, i - 1);
      RunSound(schema, run, i - 1);
      assert StepAt(run, i - 1);
      StepDisjointIff(schema, run[i - 1], run[i]);
    }
  }

  /** Main result: in every interleaving, every committed state has disjoint aliases exactly
      when every commit finds its superclass claim still free. */
  lemma {:induction false} RunDisjointIff(schema: Schema, run: seq<State>)
    requires Run(run) && WellFormedRequests(schema, run)
    ensures (forall i :: 0 <= i < |run| ==> AliasDisjoint(Current(run[i])))
            <==> (forall i :: 0 <= i < |run| - 1 ==> CommitsClaimFree(schema, run[i], run[i + 1]))
  {
    if forall i :: 0 <= i < |run| - 1 ==> CommitsClaimFree(schema, run[i], run[i + 1]) {
      forall i | 0 <= i < |run| ensures AliasDisjoint(Current(run[i])) {
        RunAllDisjoint(schema, run, i);
        RunSound(schema, run, i);
      }
    }
    if forall i :: 0 <= i < |run| ==> AliasDisjoint(Current(run[i])) {
      forall i | 0 <= i < |run| - 1 ensures CommitsClaimFree(schema, run[i], run[i + 1]) {
        DisjointStates(schema, run, i);
        RunSound(schema, run, i);
        assert StepAt(run, i);
        StepDisjointIff(schema, run[i], run[i + 1]);
      }
    }
  }

  /** Without subclasses there is nothing to claim. */
  lemma NoSuperclassNoClaims(schema: Schema, a: State, b: State)
    requires forall x :: schema.superclassOf(x).None?
    ensures CommitsClaimFree(schema, a, b)
  {
  }
}
