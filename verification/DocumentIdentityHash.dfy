/** Meadowlark ids: an identity written as a string, hashed, and encoded in base64url. The
    hash is a parameter; what is needed of it is said where it is needed. */
module DocumentIdentityHash {
  import opened Model
  import opened Strings

  // ----- Identity strings -----

  function ElementString(e: IdentityElement): string {
    e.key + "=" + e.value
  }

  /** The elements as `key=value`, joined by `#`. */
  function IdentityString(identity: DocumentIdentity): string {
    if identity == [] then ""
    else if |identity| == 1 then ElementString(identity[0])
    else ElementString(identity[0]) + "#" + IdentityString(identity[1..])
  }

  /** Read from the other end: every element but the first is appended behind a `#`, with its
      value behind an `=`. */
  lemma {:induction false} IdentityStringAppend(a: DocumentIdentity, e: IdentityElement)
    ensures IdentityString([e]) == e.key + "=" + e.value
    ensures a != [] ==> IdentityString(a + [e]) == IdentityString(a) + ("#" + (e.key + "=" + e.value))
  {
    if a != [] {
      var head, tail := ElementString(a[0]), "#" + (e.key + "=" + e.value);
      assert (a + [e])[1..] == a[1..] + [e] && (a + [e])[0] == a[0];
      if |a| == 1 {
        assert a[1..] + [e] == [e];
        Associative(head, "#", e.key + "=" + e.value);
      } else {
        IdentityStringAppend(a[1..], e);
        Associative(head + "#", IdentityString(a[1..]), tail);
      }
    }
  }

  predicate SameKeys(a: DocumentIdentity, b: DocumentIdentity) {
    |a| == |b| && forall i :: 0 <= i < |a| ==> a[i].key == b[i].key
  }

  predicate PlainKeys(a: DocumentIdentity) {
    forall i :: 0 <= i < |a| ==> '#' !in a[i].key
  }

  function Separator(e: IdentityElement): string {
    "#" + e.key + "="
  }

  /** No value but the last contains the text that would start the next element. */
  ghost predicate Clean(a: DocumentIdentity) {
    forall i :: 0 <= i < |a| - 1 ==> !Occurs(Separator(a[i + 1]), a[i].value)
  }

  /** What follows the first separator. */
  function Remainder(a: DocumentIdentity): string
    requires a != []
  {
    if |a| == 1 then a[0].value else a[0].value + "#" + IdentityString(a[1..])
  }

  lemma StringIs(a: DocumentIdentity)
    requires a != []
    ensures IdentityString(a) == a[0].key + "=" + Remainder(a)
  {
    if |a| > 1 {
      var start, v := a[0].key + "=", a[0].value;
      Associative(start, v, "#");
      Associative(start, v + "#", IdentityString(a[1..]));
    }
  }

  lemma RemainderSplits(a: DocumentIdentity)
    requires |a| >= 2
    ensures Remainder(a) == a[0].value + (Separator(a[1]) + Remainder(a[1..]))
  {
    var v, k, r := a[0].value, a[1].key, Remainder(a[1..]);
    StringIs(a[1..]);
    assert v + "#" + (k + "=" + r) == v + ("#" + k + "=" + r);
  }

  lemma {:induction false} CleanRemaindersInjective(a: DocumentIdentity, b: DocumentIdentity)
    requires a != [] && SameKeys(a, b) && PlainKeys(a) && Clean(a) && Clean(b)
    requires Remainder(a) == Remainder(b)
    ensures a == b
  {
    if |a| > 1 {
      RemainderSplits(a);
      RemainderSplits(b);
      assert forall i :: 1 <= i < |Separator(a[1])| ==> Separator(a[1])[i] == (a[1].key + "=")[i - 1];
      assert !Occurs(Separator(a[0 + 1]), a[0].value) && !Occurs(Separator(b[0 + 1]), b[0].value);
      FirstPattern(Separator(a[1]), a[0].value, Remainder(a[1..]), b[0].value, Remainder(b[1..]));
      TailClean(a);
      TailClean(b);
      CleanRemaindersInjective(a[1..], b[1..]);
    }
    assert a[0] == b[0] && a == [a[0]] + a[1..] && b == [b[0]] + b[1..];
  }

  lemma TailClean(a: DocumentIdentity)
    requires Clean(a) && a != []
    ensures Clean(a[1..])
  {
    var t := a[1..];
    forall i | 0 <= i < |t| - 1 ensures !Occurs(Separator(t[i + 1]), t[i].value) {
      assert t[i] == a[i + 1] && t[i + 1] == a[(i + 1) + 1];
    }
  }

  /** Main result: for a fixed list of keys, the identity string determines a clean identity. */
  lemma CleanStringsInjective(a: DocumentIdentity, b: DocumentIdentity)
    requires SameKeys(a, b) && PlainKeys(a) && Clean(a) && Clean(b)
    requires IdentityString(a) == IdentityString(b)
    ensures a == b
  {
    if a != [] {
      var k := a[0].key + "=";
      StringIs(a);
      StringIs(b);
      assert Remainder(a) == IdentityString(a)[|k|..] && Remainder(b) == IdentityString(b)[|k|..];
      CleanRemaindersInjective(a, b);
    }
  }

  /** The condition cannot be weakened: an identity that is not clean shares its string with
      a different identity of the same keys. */
  lemma UncleanCollides(a: DocumentIdentity) returns (b: DocumentIdentity)
    requires !Clean(a)
    ensures SameKeys(a, b) && a != b && IdentityString(a) == IdentityString(b)
  {
    var i :| 0 <= i < |a| - 1 && Occurs(Separator(a[i + 1]), a[i].value);
    var p: nat :| OccursAt(Separator(a[i + 1]), a[i].value, p);
    b := Shifted(a, i, p);
    ShiftKeepsString(a, i, p);
    assert |b[i].value| < |a[i].value|;
  }

  /** Everything in `a[i].value` from the separator at `p` on, moved to the next element. */
  function Shifted(a: DocumentIdentity, i: nat, p: nat): (b: DocumentIdentity)
    requires i < |a| - 1 && p + |Separator(a[i + 1])| <= |a[i].value|
    ensures SameKeys(a, b)
  {
    var v, separator := a[i].value, Separator(a[i + 1]);
    a[i := a[i].(value := v[..p])][i + 1 := a[i + 1].(value := v[p + |separator|..] + separator + a[i + 1].value)]
  }

  lemma {:induction false} ShiftKeepsString(a: DocumentIdentity, i: nat, p: nat)
    requires i < |a| - 1 && OccursAt(Separator(a[i + 1]), a[i].value, p)
    ensures IdentityString(Shifted(a, i, p)) == IdentityString(a)
  {
    var b := Shifted(a, i, p);
    if i > 0 {
      ShiftKeepsString(a[1..], i - 1, p);
      assert b[1..] == Shifted(a[1..], i - 1, p);
    } else {
      var v, separator := a[0].value, Separator(a[1]);
      var before, after := v[..p], v[p + |separator|..];
      var r := Remainder(a[1..]);
      StringIs(a);
      StringIs(b);
      RemainderSplits(a);
      RemainderSplits(b);
      RemainderMoves(a[1..], b[1..], after + separator);
      assert v == before + separator + after;
      Associative(after, separator, r);
      Associative(before + separator, after, separator + r);
      Associative(before, separator, after + (separator + r));
    }
  }

  lemma RemainderMoves(a: DocumentIdentity, b: DocumentIdentity, prefix: string)
    requires a != [] && b == a[0 := a[0].(value := prefix + a[0].value)]
    ensures Remainder(b) == prefix + Remainder(a)
  {
    assert a[1..] == b[1..];
    if |a| > 1 {
      assert prefix + a[0].value + "#" + IdentityString(a[1..]) == prefix + (a[0].value + "#" + IdentityString(a[1..]));
    }
  }

  // ----- Base64 (sections 4 and 5 of RFC 4648) -----

  type byte = x: int | 0 <= x < 256
  type sextet = x: int | 0 <= x < 64

  function Sextets(bytes: seq<byte>): (out: seq<sextet>)
    ensures |out| == (4 * |bytes| + 2) / 3
  {
    if |bytes| == 0 then []
    else if |bytes| == 1 then [bytes[0] / 4, bytes[0] % 4 * 16]
    else if |bytes| == 2 then [bytes[0] / 4, bytes[0] % 4 * 16 + bytes[1] / 16, bytes[1] % 16 * 4]
    else
      [bytes[0] / 4, bytes[0] % 4 * 16 + bytes[1] / 16, bytes[1] % 16 * 4 + bytes[2] / 64, bytes[2] % 64]
      + Sextets(bytes[3..])
  }

  function Bytes(sextets: seq<sextet>): seq<byte> {
    if |sextets| < 2 then []
    else if |sextets| == 2 then [sextets[0] as int * 4 + sextets[1] / 16]
    else if |sextets| == 3 then [sextets[0] as int * 4 + sextets[1] / 16, sextets[1] as int % 16 * 16 + sextets[2] / 4]
    else
      [sextets[0] as int * 4 + sextets[1] / 16, sextets[1] as int % 16 * 16 + sextets[2] / 4,
        sextets[2] as int % 4 * 64 + sextets[3]]
      + Bytes(sextets[4..])
  }

  function Digit(x: sextet): char {
    if x < 26 then 'A' + x as char
    else if x < 52 then 'a' + (x - 26) as char
    else if x < 62 then '0' + (x - 52) as char
    else if x == 62 then '+'
    else '/'
  }

  function Padding(n: nat): string {
    if n % 3 == 0 then "" else if n % 3 == 1 then "==" else "="
  }

  function Base64(bytes: seq<byte>): string {
    var sextets := Sextets(bytes);
    seq(|sextets|, i requires 0 <= i < |sextets| => Digit(sextets[i])) + Padding(|bytes|)
  }

  function UrlCharacter(c: char): char {
    if c == '+' then '-' else if c == '/' then '_' else c
  }

  function StripTrailing(s: string): string {
    if s != "" && s[|s| - 1] == '=' then StripTrailing(s[..|s| - 1]) else s
  }

  /** Replaces `+` and `/` and removes the padding. */
  function ToBase64Url(base64: string): string {
    StripTrailing(seq(|base64|, i requires 0 <= i < |base64| => UrlCharacter(base64[i])))
  }

  function DigitValue(c: char): sextet {
    if 'A' <= c <= 'Z' then (c - 'A') as int
    else if 'a' <= c <= 'z' then (c - 'a') as int + 26
    else if '0' <= c <= '9' then (c - '0') as int + 52
    else if c == '-' then 62
    else 63
  }

  function DecodeBase64Url(s: string): seq<byte> {
    Bytes(seq(|s|, i requires 0 <= i < |s| => DigitValue(s[i])))
  }

  function Encoded(bytes: seq<byte>): string {
    ToBase64Url(Base64(bytes))
  }

  lemma {:induction false} SextetsRoundTrip(bytes: seq<byte>)
    ensures Bytes(Sextets(bytes)) == bytes
  {
    if |bytes| >= 3 {
      SextetsRoundTrip(bytes[3..]);
      var out := Sextets(bytes);
      assert out[4..] == Sextets(bytes[3..]);
      assert bytes == [bytes[0], bytes[1], bytes[2]] + bytes[3..];
    }
  }

  lemma StripOne(s: string)
    ensures StripTrailing(s + "=") == StripTrailing(s)
  {
    assert (s + "=")[..|s|] == s;
  }

  lemma StripPadding(digits: string, n: nat)
    requires digits != "" ==> digits[|digits| - 1] != '='
    ensures StripTrailing(digits + Padding(n)) == digits
  {
    StripOne(digits);
    StripOne(digits + "=");
    assert digits + "==" == digits + "=" + "=" && digits + "" == digits;
  }

  lemma EncodedDigits(bytes: seq<byte>)
    ensures |Encoded(bytes)| == |Sextets(bytes)|
    ensures forall i :: 0 <= i < |Encoded(bytes)| ==> Encoded(bytes)[i] == UrlCharacter(Digit(Sextets(bytes)[i]))
  {
    var sextets, base64 := Sextets(bytes), Base64(bytes);
    var digits := seq(|sextets|, i requires 0 <= i < |sextets| => UrlCharacter(Digit(sextets[i])));
    var replaced := seq(|base64|, i requires 0 <= i < |base64| => UrlCharacter(base64[i]));
    assert replaced == digits + Padding(|bytes|);
    StripPadding(digits, |bytes|);
  }

  /** The encoding is reversible, and its length depends on the number of bytes alone: 12
      bytes take 16 characters and 16 bytes take 22. */
  lemma EncodingRoundTrip(bytes: seq<byte>)
    ensures DecodeBase64Url(Encoded(bytes)) == bytes
    ensures |Encoded(bytes)| == (4 * |bytes| + 2) / 3
  {
    var s := Encoded(bytes);
    EncodedDigits(bytes);
    assert seq(|s|, i requires 0 <= i < |s| => DigitValue(s[i])) == Sextets(bytes);
    SextetsRoundTrip(bytes);
  }

  function LastSextet(bytes: seq<byte>): (x: sextet)
    requires bytes != []
  {
    var out := Sextets(bytes);
    out[|out| - 1]
  }

  /** The bits of the last digit that no byte fills are zero. */
  lemma {:induction false} UnusedBits(bytes: seq<byte>)
    requires bytes != []
    ensures |bytes| % 3 == 1 ==> LastSextet(bytes) % 16 == 0
    ensures |bytes| % 3 == 2 ==> LastSextet(bytes) % 4 == 0
  {
    if |bytes| > 3 {
      var rest := bytes[3..];
      UnusedBits(rest);
      assert |bytes| % 3 == |rest| % 3;
      assert LastSextet(bytes) == LastSextet(rest);
    } else if |bytes| == 2 {
      assert LastSextet(bytes) == bytes[1] % 16 * 4;
    } else if |bytes| == 1 {
      assert LastSextet(bytes) == bytes[0] % 4 * 16;
    }
  }

  /** Padding fills groups of four characters. */
  lemma PaddedLength(bytes: seq<byte>)
    ensures |Base64(bytes)| == (|bytes| + 2) / 3 * 4
  {
    var k := |bytes| / 3;
    assert |bytes| == 3 * k || |bytes| == 3 * k + 1 || |bytes| == 3 * k + 2;
  }

  /** Two test vectors of section 10 of RFC 4648, and two bytes that need the URL alphabet. */
  lemma EncodingVectors()
    ensures Encoded([102]) == "Zg" && Encoded([102, 111, 111]) == "Zm9v" && Encoded([251, 240]) == "-_A"
  {
    EncodedDigits([102]);
    EncodedDigits([102, 111, 111]);
    EncodedDigits([251, 240]);
    assert Sextets([102]) == [25, 32];
    assert Sextets([102, 111, 111]) == [25, 38, 61, 47];
    assert Sextets([251, 240]) == [62, 63, 0];
  }

  // ----- Ids -----

  /** SHAKE256 with an output length in bytes. */
  type Hash = (string, nat) -> seq<byte>

  ghost predicate OutputLengths(hash: Hash) {
    forall data, n :: |hash(data, n)| == n
  }

  function ResourceString(projectName: string, resourceName: string): string {
    projectName + "#" + resourceName
  }

  function IdFor(hash: Hash, projectName: string, resourceName: string, identity: DocumentIdentity): MeadowlarkId {
    var resourceHash := hash(ResourceString(projectName, resourceName), 12);
    MeadowlarkId(Encoded(resourceHash) + Encoded(hash(IdentityString(identity), 16)))
  }

  /** An id is 38 characters long and determines both digests. */
  lemma IdDeterminesDigests(hash: Hash, p: string, r: string, a: DocumentIdentity, q: string, s: string,
      b: DocumentIdentity)
    requires OutputLengths(hash)
    ensures |IdFor(hash, p, r, a).text| == 38
    ensures IdFor(hash, p, r, a) == IdFor(hash, q, s, b) <==>
            && hash(ResourceString(p, r), 12) == hash(ResourceString(q, s), 12)
            && hash(IdentityString(a), 16) == hash(IdentityString(b), 16)
  {
    var first, second := hash(ResourceString(p, r), 12), hash(IdentityString(a), 16);
    var first', second' := hash(ResourceString(q, s), 12), hash(IdentityString(b), 16);
    EncodingRoundTrip(first);
    EncodingRoundTrip(second);
    EncodingRoundTrip(first');
    EncodingRoundTrip(second');
    var x, y := Encoded(first) + Encoded(second), Encoded(first') + Encoded(second');
    assert x[..16] == Encoded(first) && x[16..] == Encoded(second);
    assert y[..16] == Encoded(first') && y[16..] == Encoded(second');
  }

  /** The form of an id: 16 characters that decode to the digest of the project and resource
      names, and 22 that decode to the digest of the identity. */
  lemma IdForm(hash: Hash, projectName: string, resourceName: string, a: DocumentIdentity)
    requires OutputLengths(hash)
    ensures var text := IdFor(hash, projectName, resourceName, a).text;
      && |text| == 38
      && DecodeBase64Url(text[..16]) == hash(projectName + "#" + resourceName, 12)
      && DecodeBase64Url(text[16..]) == hash(IdentityString(a), 16)
  {
    var first, second := hash(ResourceString(projectName, resourceName), 12), hash(IdentityString(a), 16);
    EncodingRoundTrip(first);
    EncodingRoundTrip(second);
    var text := Encoded(first) + Encoded(second);
    assert text[..16] == Encoded(first) && text[16..] == Encoded(second);
  }

  /** Two ids start alike exactly when the resource digests are equal, and end alike exactly when
      the identity digests are. */
  lemma IdPartsIff(hash: Hash, p: string, r: string, a: DocumentIdentity, q: string, s: string, b: DocumentIdentity)
    requires OutputLengths(hash)
    ensures |IdFor(hash, p, r, a).text| == |IdFor(hash, q, s, b).text| == 38
    ensures IdFor(hash, p, r, a).text[..16] == IdFor(hash, q, s, b).text[..16] <==>
            hash(p + "#" + r, 12) == hash(q + "#" + s, 12)
    ensures IdFor(hash, p, r, a).text[16..] == IdFor(hash, q, s, b).text[16..] <==>
            hash(IdentityString(a), 16) == hash(IdentityString(b), 16)
  {
    IdForm(hash, p, r, a);
    IdForm(hash, q, s, b);
    var first, second := Encoded(hash(ResourceString(p, r), 12)), Encoded(hash(IdentityString(a), 16));
    var first', second' := Encoded(hash(ResourceString(q, s), 12)), Encoded(hash(IdentityString(b), 16));
    EncodingRoundTrip(hash(ResourceString(p, r), 12));
    EncodingRoundTrip(hash(ResourceString(q, s), 12));
    assert (first + second)[..16] == first && (first + second)[16..] == second;
    assert (first' + second')[..16] == first' && (first' + second')[16..] == second';
  }

  /** The hash does not confuse these two inputs. */
  predicate NoCollision(hash: Hash, a: string, b: string, n: nat) {
    hash(a, n) == hash(b, n) ==> a == b
  }

  /** Main result: unless the hash collides, two clean identities with the same keys have one
      id exactly when resource and identity are the same. */
  lemma IdsEqualIff(hash: Hash, p: string, r: string, a: DocumentIdentity, q: string, s: string, b: DocumentIdentity)
    requires OutputLengths(hash) && '#' !in p && '#' !in q
    requires SameKeys(a, b) && PlainKeys(a) && Clean(a) && Clean(b)
    requires NoCollision(hash, ResourceString(p, r), ResourceString(q, s), 12)
    requires NoCollision(hash, IdentityString(a), IdentityString(b), 16)
    ensures IdFor(hash, p, r, a) == IdFor(hash, q, s, b) <==> p == q && r == s && a == b
  {
    IdDeterminesDigests(hash, p, r, a, q, s, b);
    if IdFor(hash, p, r, a) == IdFor(hash, q, s, b) {
      FirstDelimiter('#', p, r, q, s);
      CleanStringsInjective(a, b);
    }
  }
}
