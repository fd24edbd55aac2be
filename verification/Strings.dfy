/** How concatenated strings come apart again. */
module Strings {

  /** `toLowerCase` on ASCII letters. */
  function LowerChar(c: char): char {
    if 'A' <= c <= 'Z' then c - 'A' + 'a' else c
  }

  lemma Associative(a: string, b: string, c: string)
    ensures (a + b) + c == a + (b + c)
  {
  }

  /** A string is split in one way at the first occurrence of a character. */
  lemma {:induction false} FirstDelimiter(delimiter: char, a: string, b: string, c: string, d: string)
    requires delimiter !in a && delimiter !in c && a + [delimiter] + b == c + [delimiter] + d
    ensures a == c && b == d
  {
    var s, t := a + [delimiter] + b, c + [delimiter] + d;
    assert (if a == "" then delimiter else a[0]) == s[0] == t[0] == if c == "" then delimiter else c[0];
    if a == "" {
      assert c == "" && b == s[1..] && d == t[1..];
    } else {
      assert a[1..] + [delimiter] + b == s[1..] == t[1..] == c[1..] + [delimiter] + d;
      FirstDelimiter(delimiter, a[1..], b, c[1..], d);
    }
  }

  ghost predicate OccursAt(pattern: string, s: string, p: nat) {
    p + |pattern| <= |s| && s[p..p + |pattern|] == pattern
  }

  ghost predicate Occurs(pattern: string, s: string) {
    exists p: nat :: OccursAt(pattern, s, p)
  }

  /** Two occurrences of a pattern whose first character does not come back in it are apart. */
  lemma OccurrencesApart(pattern: string, s: string, p: nat, q: nat)
    requires forall i :: 1 <= i < |pattern| ==> pattern[i] != pattern[0]
    requires |pattern| > 0 && OccursAt(pattern, s, p) && OccursAt(pattern, s, q)
    ensures p < q ==> p + |pattern| <= q
  {
    assert s[q] == s[q..q + |pattern|][0] == pattern[0];
    assert forall k :: p <= k < p + |pattern| ==> s[k] == s[p..p + |pattern|][k - p];
  }

  lemma OccursInPrefix(pattern: string, a: string, b: string, p: nat)
    ensures OccursAt(pattern, a + b, p) && p + |pattern| <= |a| ==> OccursAt(pattern, a, p)
  {
    if p + |pattern| <= |a| {
      assert (a + b)[p..p + |pattern|] == a[p..p + |pattern|];
    }
  }

  /** A string is split in one way at the first occurrence of such a pattern. */
  lemma FirstPattern(pattern: string, a: string, b: string, c: string, d: string)
    requires |pattern| > 0 && forall i :: 1 <= i < |pattern| ==> pattern[i] != pattern[0]
    requires !Occurs(pattern, a) && !Occurs(pattern, c)
    requires a + (pattern + b) == c + (pattern + d)
    ensures a == c && b == d
  {
    var s, t := a + (pattern + b), c + (pattern + d);
    assert OccursAt(pattern, s, |a|) && OccursAt(pattern, t, |c|);
    OccurrencesApart(pattern, s, |a|, |c|);
    OccurrencesApart(pattern, s, |c|, |a|);
    OccursInPrefix(pattern, c, pattern + d, |a|);
    OccursInPrefix(pattern, a, pattern + b, |c|);
    assert a == s[..|a|] && c == t[..|c|];
    assert b == s[|a| + |pattern|..] && d == t[|c| + |pattern|..];
  }
}
