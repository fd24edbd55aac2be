/** Resource paths: how they are parsed and how they are built. */
module ResourceUri {
  import opened Model
  import opened Strings

  datatype PathComponents = PathComponents(projectShortVersion: string, projectNamespace: string, endpointName: string,
    documentUuid: Option<string>)

  // ----- The regular expression -----

  /** The end of the longest run without a slash that starts at `i`. */
  function RunEnd(path: string, i: nat): (j: nat)
    requires i <= |path|
    ensures i <= j <= |path| && (j == |path| || path[j] == '/')
    ensures forall k :: i <= k < j ==> path[k] != '/'
    decreases |path| - i
  {
    if i == |path| || path[i] == '/' then i else RunEnd(path, i + 1)
  }

  /** With the multiline flag `$` matches at the end and before every line terminator. */
  predicate AtLineEnd(path: string, i: nat)
    requires i <= |path|
  {
    i == |path| || path[i] in {'\n', '\r', '\U{2028}', '\U{2029}'}
  }

  /** The longest match of `[^/]*$` at `i`, given the end `j` of the run without a slash. */
  function LongestTail(path: string, i: nat, j: nat): (tail: Option<string>)
    requires i <= j <= |path|
    ensures AtLineEnd(path, j) ==> tail == Some(path[i..j])
    ensures tail.Some? ==> tail.value <= path[i..j]
  {
    if AtLineEnd(path, j) then Some(path[i..j])
    else if j == i then None
    else
      assert path[i..j - 1] <= path[i..j];
      LongestTail(path, i, j - 1)
  }

  /** The optional group is skipped rather than matched with nothing. */
  function OptionalUuid(path: string, i: nat): (uuid: Option<string>)
    requires i <= |path|
    ensures uuid.Some? ==> uuid.value != "" && '/' !in uuid.value
  {
    var tail := LongestTail(path, i, RunEnd(path, i));
    if tail == Some("") then None else tail
  }

  /** The match that starts at the slash at `p`. The three names are the maximal runs between
      slashes: a shorter run would have to be followed by a slash. */
  function MatchAt(path: string, p: nat): (m: Option<PathComponents>)
    requires p < |path|
    ensures m.Some? ==> ProperNames(m.value)
  {
    if path[p] != '/' then None
    else
      var a := RunEnd(path, p + 1);
      if a == p + 1 || a == |path| then None
      else
        var b := RunEnd(path, a + 1);
        if b == a + 1 || b == |path| then None
        else
          var c := RunEnd(path, b + 1);
          if c == b + 1 then None
          else
            var uuid := if c == |path| then None else OptionalUuid(path, c + 1);
            Some(PathComponents(path[p + 1..a], path[a + 1..b], path[b + 1..c], uuid))
  }

  predicate ProperName(name: string) {
    name != "" && '/' !in name
  }

  predicate ProperNames(c: PathComponents) {
    && ProperName(c.projectShortVersion) && ProperName(c.projectNamespace) && ProperName(c.endpointName)
    && (c.documentUuid.Some? ==> ProperName(c.documentUuid.value))
  }

  /** The leftmost match from `p` on. */
  function Search(path: string, p: nat): (m: Option<PathComponents>)
    requires p <= |path|
    ensures m.Some? ==> ProperNames(m.value)
    decreases |path| - p
  {
    if p == |path| then None
    else if MatchAt(path, p).Some? then MatchAt(path, p)
    else Search(path, p + 1)
  }

  // ----- Parsing and building -----

  function Lower(s: string): (t: string)
    ensures |t| == |s| && forall i :: 0 <= i < |s| ==> t[i] == LowerChar(s[i])
  {
    seq(|s|, i requires 0 <= i < |s| => LowerChar(s[i]))
  }

  function Decapitalize(s: string): string {
    if s == "" then s else [LowerChar(s[0])] + s[1..]
  }

  function PathComponentsFrom(path: string): Option<PathComponents> {
    match Search(path, 0)
    case None => None
    case Some(m) =>
      Some(m.(projectNamespace := Lower(m.projectNamespace), endpointName := Decapitalize(m.endpointName)))
  }

  function ResourceUriFrom(c: PathComponents, documentUuid: string): string {
    "/" + c.projectShortVersion + "/" + c.projectNamespace + "/" + c.endpointName + "/" + documentUuid
  }

  // ----- What a parse is -----

  /** Three slashes, each followed by a name, at `p`, `a` and `b`; the last name ends at `c`. */
  ghost predicate NamesAt(path: string, p: nat, a: nat, b: nat, c: nat) {
    && p + 1 < a && a + 1 < b && b + 1 < c <= |path|
    && path[p] == path[a] == path[b] == '/' && (c == |path| || path[c] == '/')
    && '/' !in path[p + 1..a] && '/' !in path[a + 1..b] && '/' !in path[b + 1..c]
  }

  /** An ASCII capital becomes the small letter; everything else stays. */
  predicate SmallOf(x: char, y: char) {
    y as int == if 65 <= x as int <= 90 then x as int + 32 else x as int
  }

  ghost predicate NoNamesAt(path: string, p: nat) {
    forall a: nat, b: nat, c: nat :: !NamesAt(path, p, a, b, c)
  }

  lemma NamesMatch(path: string, p: nat, a: nat, b: nat, c: nat)
    requires NamesAt(path, p, a, b, c)
    ensures MatchAt(path, p).Some?
  {
    RunIs(path, p + 1, a);
    RunIs(path, a + 1, b);
    RunIs(path, b + 1, c);
  }

  /** The three names of a match, before they are folded. */
  ghost predicate MatchIs(path: string, p: nat, a: nat, b: nat, c: nat, m: PathComponents) {
    && NamesAt(path, p, a, b, c)
    && m.projectShortVersion == path[p + 1..a] && m.projectNamespace == path[a + 1..b]
    && m.endpointName == path[b + 1..c]
    && m.documentUuid == if c == |path| then None else OptionalUuid(path, c + 1)
  }

  lemma MatchRuns(path: string, p: nat) returns (a: nat, b: nat, c: nat, m: PathComponents)
    requires p < |path| && MatchAt(path, p).Some?
    ensures p + 1 < a && a + 1 < b && b + 1 < c <= |path| && (c == |path| || path[c] == '/')
    ensures path[p] == path[a] == path[b] == '/'
    ensures MatchAt(path, p) == Some(m) && m == PathComponents(path[p + 1..a], path[a + 1..b], path[b + 1..c],
      if c == |path| then None else OptionalUuid(path, c + 1))
  {
    a := RunEnd(path, p + 1);
    b := RunEnd(path, a + 1);
    c := RunEnd(path, b + 1);
    m := MatchAt(path, p).value;
  }

  lemma MatchAtIs(path: string, p: nat) returns (a: nat, b: nat, c: nat)
    requires p < |path| && MatchAt(path, p).Some?
    ensures MatchIs(path, p, a, b, c, MatchAt(path, p).value)
  {
    var m;
    a, b, c, m := MatchRuns(path, p);
    assert ProperNames(m);
  }

  lemma NoMatchAt(path: string, p: nat)
    requires p < |path| && MatchAt(path, p).None?
    ensures NoNamesAt(path, p)
  {
    forall a: nat, b: nat, c: nat | NamesAt(path, p, a, b, c) ensures MatchAt(path, p).Some? {
      NamesMatch(path, p, a, b, c);
    }
  }

  lemma {:induction false} SearchIs(path: string, p: nat) returns (q: nat)
    requires p <= |path|
    ensures p <= q <= |path| && forall r: nat :: p <= r < q ==> NoNamesAt(path, r)
    ensures if q < |path| then MatchAt(path, q).Some? && Search(path, p) == MatchAt(path, q)
            else Search(path, p) == None
    decreases |path| - p
  {
    q := p;
    if p < |path| && MatchAt(path, p).None? {
      NoMatchAt(path, p);
      q := SearchIs(path, p + 1);
    }
  }

  /** `path[i..e]` is free of slashes and followed by the end of a line. */
  ghost predicate EndsLine(path: string, i: nat, e: nat) {
    i <= e <= |path| && '/' !in path[i..e] && (e == |path| || path[e] in ['\n', '\r', '\U{2028}', '\U{2029}'])
  }

  ghost predicate LastEnd(path: string, i: nat, e: nat) {
    EndsLine(path, i, e) && forall f: nat :: EndsLine(path, i, f) ==> f <= e
  }

  /** The uuid is the longest text at `i` without a slash that ends a line, unless that is empty. */
  ghost predicate UuidAt(path: string, i: nat, uuid: Option<string>) {
    || (exists e: nat :: LastEnd(path, i, e) && uuid == if e == i then None else Some(path[i..e]))
    || (uuid == None && forall e: nat :: !EndsLine(path, i, e))
  }

  lemma EndsLineInRun(path: string, i: nat, e: nat)
    requires i <= |path|
    ensures EndsLine(path, i, e) <==> i <= e <= RunEnd(path, i) && AtLineEnd(path, e)
  {
    var j := RunEnd(path, i);
    if i <= e <= j {
      assert forall k :: 0 <= k < e - i ==> path[i..e][k] == path[i + k];
    } else if j < e <= |path| {
      assert path[i..e][j - i] == '/';
    }
  }

  lemma {:induction false} LongestTailIs(path: string, i: nat, j: nat)
    requires i <= j <= |path|
    ensures LongestTail(path, i, j).Some? ==>
      exists e: nat :: LastLineEnd(path, i, j, e) && LongestTail(path, i, j) == Some(path[i..e])
    ensures LongestTail(path, i, j).None? ==> forall e: nat :: i <= e <= j ==> !AtLineEnd(path, e)
  {
    if AtLineEnd(path, j) {
      assert LastLineEnd(path, i, j, j);
    } else if i < j {
      LongestTailIs(path, i, j - 1);
      if LongestTail(path, i, j).Some? {
        var e: nat :| LastLineEnd(path, i, j - 1, e) && LongestTail(path, i, j - 1) == Some(path[i..e]);
        assert LastLineEnd(path, i, j, e);
      }
    }
  }

  ghost predicate LastLineEnd(path: string, i: nat, j: nat, e: nat) {
    i <= e <= j <= |path| && AtLineEnd(path, e) && forall f: nat :: e < f <= j ==> !AtLineEnd(path, f)
  }

  lemma LastEnds(path: string, i: nat, e: nat)
    requires i <= |path|
    ensures LastLineEnd(path, i, RunEnd(path, i), e) ==> LastEnd(path, i, e)
  {
    forall f: nat ensures EndsLine(path, i, f) <==> i <= f <= RunEnd(path, i) && AtLineEnd(path, f) {
      EndsLineInRun(path, i, f);
    }
  }

  lemma OptionalUuidIs(path: string, i: nat)
    requires i <= |path|
    ensures UuidAt(path, i, OptionalUuid(path, i))
  {
    var j := RunEnd(path, i);
    LongestTailIs(path, i, j);
    if LongestTail(path, i, j).Some? {
      var e: nat :| LastLineEnd(path, i, j, e) && LongestTail(path, i, j) == Some(path[i..e]);
      LastEnds(path, i, e);
    } else {
      forall e: nat ensures !EndsLine(path, i, e) {
        EndsLineInRun(path, i, e);
      }
    }
  }

  /** What folding makes of the names of a match. */
  ghost predicate Folds(n: string, e: string, c: PathComponents) {
    && |c.projectNamespace| == |n| && (forall i :: 0 <= i < |n| ==> SmallOf(n[i], c.projectNamespace[i]))
    && |c.endpointName| == |e| && (e != "" ==> SmallOf(e[0], c.endpointName[0]) && c.endpointName[1..] == e[1..])
  }

  lemma NamesFold(m: PathComponents)
    ensures Folds(m.projectNamespace, m.endpointName,
      m.(projectNamespace := Lower(m.projectNamespace), endpointName := Decapitalize(m.endpointName)))
  {
  }

  /** The three names become the version as it stands, the namespace in small letters, and the
      endpoint starting with one; the uuid is read behind one more slash. */
  ghost predicate ParsedAs(path: string, p: nat, a: nat, b: nat, c: nat, m: PathComponents) {
    && NamesAt(path, p, a, b, c)
    && m.projectShortVersion == path[p + 1..a] && Folds(path[a + 1..b], path[b + 1..c], m)
    && (if c == |path| then m.documentUuid == None else UuidAt(path, c + 1, m.documentUuid))
  }

  lemma MatchParses(path: string, p: nat, a: nat, b: nat, c: nat, m: PathComponents)
    requires MatchIs(path, p, a, b, c, m)
    ensures ParsedAs(path, p, a, b, c,
      m.(projectNamespace := Lower(m.projectNamespace), endpointName := Decapitalize(m.endpointName)))
  {
    NamesFold(m);
    if c < |path| {
      OptionalUuidIs(path, c + 1);
    }
  }

  /** Main result: a path parses if and only if it contains three names between slashes, and the
      parse takes the leftmost three. */
  lemma ParseIs(path: string) returns (p: nat, a: nat, b: nat, c: nat)
    ensures PathComponentsFrom(path).None? <==> forall q: nat :: q <= |path| ==> NoNamesAt(path, q)
    ensures PathComponentsFrom(path).Some? ==>
      ParsedAs(path, p, a, b, c, PathComponentsFrom(path).value) && forall q: nat :: q < p ==> NoNamesAt(path, q)
  {
    p := SearchIs(path, 0);
    a, b, c := 0, 0, 0;
    if p < |path| {
      a, b, c := MatchAtIs(path, p);
      MatchParses(path, p, a, b, c, MatchAt(path, p).value);
      assert !NoNamesAt(path, p);
    } else {
      assert NoNamesAt(path, |path|);
    }
  }

  // ----- Round trip -----

  lemma RunIs(path: string, i: nat, j: nat)
    requires i <= j <= |path| && '/' !in path[i..j] && (j == |path| || path[j] == '/')
    ensures RunEnd(path, i) == j
  {
    forall k | i <= k < j ensures path[k] != '/' {
      assert path[k] == path[i..j][k - i];
    }
  }

  lemma Segment(path: string, before: string, name: string, after: string)
    requires path == before + "/" + name + after
    ensures |path| == |before| + 1 + |name| + |after|
    ensures path[|before|] == '/' && path[|before| + 1..|before| + 1 + |name|] == name
  {
  }

  /** A URI, split around each of its segments. */
  lemma UriAround(v: string, n: string, e: string, u: string)
    ensures var path := ResourceUriFrom(PathComponents(v, n, e, None), u);
      var one, two, three := "/" + v, "/" + v + "/" + n, "/" + v + "/" + n + "/" + e;
      && path == three + "/" + u + ""
      && path == two + "/" + e + ("/" + u)
      && path == one + "/" + n + ("/" + e + ("/" + u))
      && path == "" + "/" + v + ("/" + n + ("/" + e + ("/" + u)))
  {
    var one := "/" + v;
    var two := one + "/" + n;
    Associative(two + "/" + e, "/", u);
    Associative(one + "/" + n, "/", e);
    Associative(one + "/" + n, "/" + e, "/" + u);
    Associative("/" + v, "/", n);
    Associative("/" + v, "/" + n, "/" + e + ("/" + u));
  }

  /** Where the four segments of a URI are. */
  lemma UriSegments(v: string, n: string, e: string, u: string)
    ensures var path := ResourceUriFrom(PathComponents(v, n, e, None), u);
      var a, b, d := 1 + |v|, 2 + |v| + |n|, 3 + |v| + |n| + |e|;
      && |path| == d + 1 + |u|
      && path[0] == path[a] == path[b] == path[d] == '/'
      && path[1..a] == v && path[a + 1..b] == n && path[b + 1..d] == e && path[d + 1..|path|] == u
  {
    var path := ResourceUriFrom(PathComponents(v, n, e, None), u);
    UriAround(v, n, e, u);
    Segment(path, "/" + v + "/" + n + "/" + e, u, "");
    Segment(path, "/" + v + "/" + n, e, "/" + u);
    Segment(path, "/" + v, n, "/" + e + ("/" + u));
    Segment(path, "", v, "/" + n + ("/" + e + ("/" + u)));
  }

  lemma MatchOfRuns(path: string, a: nat, b: nat, d: nat, m: PathComponents)
    requires 1 < a && a + 1 < b && b + 1 < d < |path|
    requires path[0] == '/' && RunEnd(path, 1) == a && RunEnd(path, a + 1) == b && RunEnd(path, b + 1) == d
      && RunEnd(path, d + 1) == |path|
    requires m.projectShortVersion == path[1..a] && m.projectNamespace == path[a + 1..b]
      && m.endpointName == path[b + 1..d]
    requires m.documentUuid.Some? && m.documentUuid.value == path[d + 1..|path|] && m.documentUuid.value != ""
    ensures Search(path, 0) == Some(m)
  {
  }

  lemma MatchOfSegments(path: string, a: nat, b: nat, d: nat, m: PathComponents)
    requires ProperNames(m) && m.documentUuid.Some?
    requires 1 < a && a + 1 < b && b + 1 < d < |path|
    requires path[0] == path[a] == path[b] == path[d] == '/'
    requires m.projectShortVersion == path[1..a] && m.projectNamespace == path[a + 1..b]
    requires m.endpointName == path[b + 1..d] && m.documentUuid.value == path[d + 1..|path|]
    ensures Search(path, 0) == Some(m)
  {
    RunIs(path, 1, a);
    RunIs(path, a + 1, b);
    RunIs(path, b + 1, d);
    RunIs(path, d + 1, |path|);
    MatchOfRuns(path, a, b, d, m);
  }

  lemma MatchOfUri(c: PathComponents, documentUuid: string)
    requires ProperNames(c) && ProperName(documentUuid)
    ensures Search(ResourceUriFrom(c, documentUuid), 0) == Some(c.(documentUuid := Some(documentUuid)))
  {
    UriSegments(c.projectShortVersion, c.projectNamespace, c.endpointName, documentUuid);
    var a := 1 + |c.projectShortVersion|;
    var b := a + 1 + |c.projectNamespace|;
    MatchOfSegments(ResourceUriFrom(c, documentUuid), a, b, b + 1 + |c.endpointName|,
      c.(documentUuid := Some(documentUuid)));
  }

  lemma LowerStable(s: string)
    ensures Lower(Lower(s)) == Lower(s) && Decapitalize(Decapitalize(s)) == Decapitalize(s)
    ensures ProperName(s) ==> ProperName(Lower(s)) && ProperName(Decapitalize(s))
  {
    assert forall i :: 0 <= i < |s| ==> s[i] in s;
    assert s != "" ==> Decapitalize(s)[1..] == s[1..];
  }

  /** Main result: for components that came out of the parser, the URI parses back to the same
      components with the uuid exactly when the uuid is not empty and has no slash. */
  lemma UriRoundTripIff(path: string, documentUuid: string)
    requires PathComponentsFrom(path).Some?
    ensures var c := PathComponentsFrom(path).value;
      PathComponentsFrom(ResourceUriFrom(c, documentUuid)) == Some(c.(documentUuid := Some(documentUuid)))
      <==> documentUuid != "" && '/' !in documentUuid
  {
    var m := Search(path, 0).value;
    var c := PathComponentsFrom(path).value;
    LowerStable(m.projectNamespace);
    LowerStable(m.endpointName);
    if ProperName(documentUuid) {
      MatchOfUri(c, documentUuid);
    }
  }
}
