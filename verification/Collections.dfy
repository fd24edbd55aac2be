/** Positions in sequences, and the cardinality facts behind the count shortcuts of reference
    validation. */
module Collections {

  function IndexOf<T(==)>(xs: seq<T>, a: T): (i: nat)
    requires a in xs
    ensures i < |xs| && xs[i] == a && forall j :: 0 <= j < i ==> xs[j] != a
  {
    if xs[0] == a then 0 else 1 + IndexOf(xs[1..], a)
  }

  lemma {:induction false} SetOfSeqSize<T>(xs: seq<T>)
    ensures |set x | x in xs| <= |xs|
  {
    if xs != [] {
      var n := |xs| - 1;
      SetOfSeqSize(xs[..n]);
      assert xs == xs[..n] + [xs[n]];
      assert (set x | x in xs) == (set x | x in xs[..n]) + {xs[n]};
    }
  }

  lemma {:induction false} DistinctSeqSize<T>(xs: seq<T>)
    requires forall i, j :: 0 <= i < j < |xs| ==> xs[i] != xs[j]
    ensures |set x | x in xs| == |xs|
  {
    if xs != [] {
      var n := |xs| - 1;
      DistinctSeqSize(xs[..n]);
      assert xs == xs[..n] + [xs[n]];
      assert (set x | x in xs) == (set x | x in xs[..n]) + {xs[n]};
      assert xs[n] !in xs[..n];
    }
  }

  lemma SubsetSize<T>(a: set<T>, b: set<T>)
    requires a <= b
    ensures |a| <= |b|
    ensures |a| == |b| ==> a == b
  {
    assert b == a + (b - a);
  }

  lemma {:induction false} InjectiveImageSize<A, B>(m: map<A, B>)
    requires forall x, y :: x in m && y in m && m[x] == m[y] ==> x == y
    ensures |m.Values| == |m.Keys|
  {
    if m.Keys == {} {
      assert m.Values == {};
    } else {
      var x :| x in m.Keys;
      var rest := m - {x};
      InjectiveImageSize(rest);
      assert m.Keys == rest.Keys + {x};
      assert forall y :: y in rest ==> rest[y] == m[y] && y in m;
      forall v ensures v in m.Values <==> v in rest.Values + {m[x]} {
        if v in m.Values {
          var y :| y in m && m[y] == v;
          if y != x { assert y in rest; }
        }
        if v in rest.Values {
          var y :| y in rest && rest[y] == v;
          assert m[y] == v;
        }
      }
      assert m.Values == rest.Values + {m[x]};
      assert m[x] !in rest.Values;
    }
  }

  // ----- Concatenation -----

  /** The length of the first `i` parts together. */
  function Total<T>(parts: seq<seq<T>>, i: nat): nat
    requires i <= |parts|
  {
    if i == 0 then 0 else Total(parts, i - 1) + |parts[i - 1]|
  }

  /** Part `i` stands where the lengths of the earlier parts put it. */
  ghost predicate PartAt<T>(parts: seq<seq<T>>, all: seq<T>, i: nat)
    requires i < |parts|
  {
    var start := Total(parts, i);
    start + |parts[i]| <= |all| && all[start..start + |parts[i]|] == parts[i]
  }

  ghost predicate Concatenates<T>(parts: seq<seq<T>>, all: seq<T>) {
    |all| == Total(parts, |parts|) && forall i: nat :: i < |parts| ==> PartAt(parts, all, i)
  }

  lemma {:induction false} TotalOfPrefix<T>(parts: seq<seq<T>>, last: seq<T>, i: nat)
    requires i <= |parts|
    ensures Total(parts + [last], i) == Total(parts, i)
  {
    if i > 0 {
      TotalOfPrefix(parts, last, i - 1);
    }
  }

  lemma ConcatenatesOneMore<T>(parts: seq<seq<T>>, all: seq<T>, last: seq<T>)
    requires Concatenates(parts, all)
    ensures Concatenates(parts + [last], all + last)
  {
    var n, more := |parts|, parts + [last];
    TotalOfPrefix(parts, last, n);
    forall i: nat | i < n + 1 ensures PartAt(more, all + last, i) {
      TotalOfPrefix(parts, last, i);
      if i < n {
        assert PartAt(parts, all, i);
        var start := Total(parts, i);
        assert (all + last)[start..start + |parts[i]|] == all[start..start + |parts[i]|];
      }
    }
  }

  /** Parts that are nowhere longer, and shorter at `k`, are shorter together. */
  lemma {:induction false} ShorterTotal<T>(a: seq<seq<T>>, b: seq<seq<T>>, i: nat, k: nat)
    requires i <= |a| == |b| && k < |a| && |a[k]| < |b[k]|
    requires forall j :: 0 <= j < |a| ==> |a[j]| <= |b[j]|
    ensures Total(a, i) <= Total(b, i) && (k < i ==> Total(a, i) < Total(b, i))
  {
    if i > 0 {
      ShorterTotal(a, b, i - 1, k);
    }
  }
}
