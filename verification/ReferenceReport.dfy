/** `findMissingReferences`, which the two backends share: a set difference on ids, and
    then a lookup of the reference each missing id came from. */
module ReferenceReport {
  import opened Model
  import opened Collections

  /** `R.difference(xs, present)`: the elements of `xs` not in `present`, without
      duplicates, in order of first occurrence. */
  function Difference(xs: seq<MeadowlarkId>, present: set<MeadowlarkId>): (d: seq<MeadowlarkId>)
    ensures forall a :: a in d <==> a in xs && a !in present
  {
    if xs == [] then []
    else
      var init, last := xs[..|xs| - 1], xs[|xs| - 1];
      assert xs == init + [last];
      if last in present || last in init then Difference(init, present)
      else Difference(init, present) + [last]
  }

  function Missing(ref: DocumentReference): MissingIdentity {
    MissingIdentity(ref.resourceName, ref.identity)
  }

  function FindMissing(refs: seq<DocumentReference>, present: set<MeadowlarkId>): seq<MissingIdentity> {
    var ids := Targets(refs);
    var absent := Difference(ids, present);
    seq(|absent|, k requires 0 <= k < |absent| =>
      assert absent[k] in absent;
      Missing(refs[IndexOf(ids, absent[k])]))
  }

  /** `where` lists, in increasing order, exactly the positions at which an id outside
      `present` occurs for the first time, and `report` describes the references there. */
  ghost predicate ExactReport(report: seq<MissingIdentity>, refs: seq<DocumentReference>, present: set<MeadowlarkId>,
      where: seq<nat>)
  {
    && |where| == |report|
    && (forall i, j :: 0 <= i < j < |where| ==> where[i] < where[j])
    && (forall i: nat :: i in where <==> i < |refs| && FirstAbsent(refs, present, i))
    && (forall k :: 0 <= k < |where| ==>
         where[k] < |refs| && report[k] == MissingIdentity(refs[where[k]].resourceName, refs[where[k]].identity))
  }

  ghost predicate FirstAbsent(refs: seq<DocumentReference>, present: set<MeadowlarkId>, i: nat)
    requires i < |refs|
  {
    refs[i].target !in present && forall j :: 0 <= j < i ==> refs[j].target != refs[i].target
  }

  lemma FirstAbsentPrefix(refs: seq<DocumentReference>, present: set<MeadowlarkId>, n: nat)
    requires n < |refs|
    ensures forall i: nat :: i < n ==> (FirstAbsent(refs, present, i) <==> FirstAbsent(refs[..n], present, i))
    ensures FirstAbsent(refs, present, n) <==> refs[n].target !in present && refs[n].target !in Targets(refs[..n])
  {
    var ids := Targets(refs[..n]);
    if refs[n].target in ids {
      var j :| 0 <= j < |ids| && ids[j] == refs[n].target;
      assert refs[j].target == refs[n].target;
    } else {
      forall j | 0 <= j < n ensures refs[j].target != refs[n].target {
        assert ids[j] in ids;
      }
    }
  }

  /** The positions, in order, from which the set difference picks its elements. */
  ghost predicate Picks(where: seq<nat>, refs: seq<DocumentReference>, present: set<MeadowlarkId>) {
    var d := Difference(Targets(refs), present);
    && |where| == |d|
    && (forall i, j :: 0 <= i < j < |where| ==> where[i] < where[j])
    && (forall i: nat :: i in where <==> i < |refs| && FirstAbsent(refs, present, i))
    && (forall k :: 0 <= k < |where| ==> where[k] < |refs| && refs[where[k]].target == d[k])
  }

  lemma DifferenceSnoc(refs: seq<DocumentReference>, present: set<MeadowlarkId>, n: nat)
    requires |refs| == n + 1
    ensures var before := Difference(Targets(refs[..n]), present);
      Difference(Targets(refs), present) == if FirstAbsent(refs, present, n) then before + [refs[n].target] else before
  {
    FirstAbsentPrefix(refs, present, n);
    assert Targets(refs)[..n] == Targets(refs[..n]);
  }

  lemma PicksSnoc(init: seq<nat>, where: seq<nat>, refs: seq<DocumentReference>, present: set<MeadowlarkId>, n: nat)
    requires |refs| == n + 1 && Picks(init, refs[..n], present)
    requires where == if FirstAbsent(refs, present, n) then init + [n] else init
    ensures Picks(where, refs, present)
  {
    FirstAbsentPrefix(refs, present, n);
    DifferenceSnoc(refs, present, n);
    assert forall k :: 0 <= k < |init| ==> init[k] in init;
    forall i: nat ensures i in where <==> i < |refs| && FirstAbsent(refs, present, i) {
      assert i in where <==> i in init || (i == n && FirstAbsent(refs, present, n));
    }
    forall k | 0 <= k < |where|
      ensures where[k] < |refs| && refs[where[k]].target == Difference(Targets(refs), present)[k]
    {
      if k < |init| {
        assert refs[..n][init[k]].target == Difference(Targets(refs[..n]), present)[k];
      }
    }
  }

  lemma {:induction false} DifferencePositions(refs: seq<DocumentReference>, present: set<MeadowlarkId>)
    returns (where: seq<nat>)
    ensures Picks(where, refs, present)
  {
    if refs == [] {
      where := [];
    } else {
      var n := |refs| - 1;
      var init := DifferencePositions(refs[..n], present);
      FirstAbsentPrefix(refs, present, n);
      assert Targets(refs)[..n] == Targets(refs[..n]);
      where := if FirstAbsent(refs, present, n) then init + [n] else init;
      PicksSnoc(init, where, refs, present, n);
    }
  }

  /** The report names every distinct absent reference exactly once, in order of first
      occurrence, with its own resource name and identity. */
  lemma FindMissingIsExact(refs: seq<DocumentReference>, present: set<MeadowlarkId>) returns (where: seq<nat>)
    ensures ExactReport(FindMissing(refs, present), refs, present, where)
  {
    where := DifferencePositions(refs, present);
    var ids := Targets(refs);
    var d := Difference(ids, present);
    forall k | 0 <= k < |where|
      ensures FindMissing(refs, present)[k] == Missing(refs[where[k]])
    {
      var i := IndexOf(ids, d[k]);
      assert where[k] in where;
      assert FirstAbsent(refs, present, where[k]);
      if i < where[k] {
        assert refs[i].target == refs[where[k]].target;
      }
      assert where[k] < |ids| && ids[where[k]] == d[k];
    }
  }

  lemma FindMissingEmptyIff(refs: seq<DocumentReference>, present: set<MeadowlarkId>)
    ensures FindMissing(refs, present) == [] <==> forall a :: a in Targets(refs) ==> a in present
  {
    var d := Difference(Targets(refs), present);
    if FindMissing(refs, present) == [] {
      assert d == [];
      assert forall a :: a !in d;
    } else {
      assert d[0] in d;
    }
  }
}
