/** Extraction of a document's own identity, and the equality constraints that are meant to
    make it independent of which of several paths for one key wins. */
module IdentityExtraction {
  import opened Model
  import opened Json
  import opened ExtractionResult

  /** The paths of each property of the resource. */
  type PathsMapping = map<string, map<string, Path>>

  datatype EqualityConstraint = EqualityConstraint(source: Path, target: Path)

  // ----- Equality constraints -----

  predicate AllEqual(values: seq<Json>) {
    forall i :: 0 <= i < |values| ==> values[i] == values[0]
  }

  predicate Holds(c: EqualityConstraint, body: Json) {
    AllEqual(Values(c.source, body) + Values(c.target, body))
  }

  function Violations(constraints: seq<EqualityConstraint>, body: Json): (failures: seq<EqualityConstraint>)
    ensures failures == [] <==> forall c :: c in constraints ==> Holds(c, body)
  {
    if constraints == [] then []
    else
      var init, last := constraints[..|constraints| - 1], constraints[|constraints| - 1];
      assert constraints == init + [last];
      if Holds(last, body) then Violations(init, body) else Violations(init, body) + [last]
  }

  method ValidateEqualityConstraints(constraints: seq<EqualityConstraint>, body: Json)
    returns (failures: seq<EqualityConstraint>)
    ensures failures == Violations(constraints, body)
  {
    failures := [];
    for i := 0 to |constraints|
      invariant failures == Violations(constraints[..i], body)
    {
      var sourceValues := Values(constraints[i].source, body);
      var targetValues := Values(constraints[i].target, body);
      if !AllEqual(sourceValues + targetValues) {
        failures := failures + [constraints[i]];
      }
      assert constraints[..i + 1][..i] == constraints[..i];
    }
    assert constraints[..|constraints|] == constraints;
  }

  /** Two of the values the constraint speaks of differ. */
  ghost predicate Violated(c: EqualityConstraint, body: Json) {
    exists u, v ::
      && (u in Values(c.source, body) || u in Values(c.target, body))
      && (v in Values(c.source, body) || v in Values(c.target, body)) && u != v
  }

  lemma HoldsIff(c: EqualityConstraint, body: Json)
    ensures Holds(c, body) <==> !Violated(c, body)
  {
    var values := Values(c.source, body) + Values(c.target, body);
    assert forall u :: u in values <==> u in Values(c.source, body) || u in Values(c.target, body);
    if !Holds(c, body) {
      var i :| 0 <= i < |values| && values[i] != values[0];
      assert values[i] in values && values[0] in values;
    }
  }

  /** The failures are the constraints at `where`: in order, exactly those that are violated. */
  ghost predicate ExactViolations(constraints: seq<EqualityConstraint>, body: Json,
      failures: seq<EqualityConstraint>, where: seq<nat>)
  {
    && |where| == |failures|
    && (forall i, j :: 0 <= i < j < |where| ==> where[i] < where[j])
    && (forall i: nat :: i in where <==> i < |constraints| && Violated(constraints[i], body))
    && (forall k :: 0 <= k < |where| ==> where[k] < |constraints| && failures[k] == constraints[where[k]])
  }

  lemma ExactHolds(constraints: seq<EqualityConstraint>, body: Json, failures: seq<EqualityConstraint>,
      where: seq<nat>, n: nat)
    requires |constraints| == n + 1 && !Violated(constraints[n], body)
    requires ExactViolations(constraints[..n], body, failures, where)
    ensures ExactViolations(constraints, body, failures, where)
  {
    assert forall i :: 0 <= i < n ==> constraints[..n][i] == constraints[i];
  }

  lemma ExactViolated(constraints: seq<EqualityConstraint>, body: Json, failures: seq<EqualityConstraint>,
      where: seq<nat>, n: nat)
    requires |constraints| == n + 1 && Violated(constraints[n], body)
    requires ExactViolations(constraints[..n], body, failures, where)
    ensures ExactViolations(constraints, body, failures + [constraints[n]], where + [n])
  {
    assert forall i :: 0 <= i < n ==> constraints[..n][i] == constraints[i];
    assert forall k :: 0 <= k < |where| ==> where[k] in where;
    forall i: nat ensures i in where + [n] <==> i < |constraints| && Violated(constraints[i], body) {
      assert i in where + [n] <==> i in where || i == n;
    }
  }

  /** Main result: each violated constraint is reported once, in order, and no other. */
  lemma {:induction false} ViolationsExact(constraints: seq<EqualityConstraint>, body: Json) returns (where: seq<nat>)
    ensures ExactViolations(constraints, body, Violations(constraints, body), where)
  {
    where := [];
    if constraints != [] {
      var n := |constraints| - 1;
      where := ViolationsExact(constraints[..n], body);
      HoldsIff(constraints[n], body);
      if Holds(constraints[n], body) {
        ExactHolds(constraints, body, Violations(constraints[..n], body), where, n);
      } else {
        ExactViolated(constraints, body, Violations(constraints[..n], body), where, n);
        where := where + [n];
      }
    }
  }

  // ----- Extraction -----

  /** The path that wins for each key: a later property overwrites an earlier one. */
  function Winners(fullnames: seq<string>, mapping: PathsMapping): map<string, Path>
    requires forall f :: f in fullnames ==> f in mapping
  {
    if fullnames == [] then map[]
    else
      var last := fullnames[|fullnames| - 1];
      assert last in fullnames;
      Winners(fullnames[..|fullnames| - 1], mapping) + mapping[last]
  }

  /** The value at the winning path; anything but one value that is not null is an exception. */
  function ElementValue(winners: map<string, Path>, key: string, body: Json): Extracted<Json> {
    if key !in winners then Error(NoValue)
    else
      match Single(winners[key], body)
      case None => Error(NoValue)
      case Some(v) => if v.Array? then Error(MultipleValues) else if v.Null? then Error(NoValue) else Ok(v)
  }

  function Elements(winners: map<string, Path>, order: seq<string>, body: Json): Extracted<seq<Pair>> {
    if order == [] then Ok([])
    else
      match Elements(winners, order[..|order| - 1], body)
      case Error(failure) => Error(failure)
      case Ok(before) =>
        match ElementValue(winners, order[|order| - 1], body)
        case Error(failure) => Error(failure)
        case Ok(v) => Ok(before + [Pair(order[|order| - 1], Some(v))])
  }

  function Identity(fullnames: seq<string>, mapping: PathsMapping, order: seq<string>,
      body: Json): Extracted<seq<Pair>>
  {
    if exists f :: f in fullnames && f !in mapping then Error(UnknownProperty)
    else
      match Elements(Winners(fullnames, mapping), order, body)
      case Error(failure) => Error(failure)
      case Ok(elements) => if elements == [] then Error(EmptyIdentity) else Ok(elements)
  }

  /** Overwrites the entries of `winners` with those of `paths`, one by one. */
  method OverwritePaths(winners: map<string, Path>, paths: map<string, Path>) returns (merged: map<string, Path>)
    ensures merged == winners + paths
  {
    merged := winners;
    var todo := paths.Keys;
    while todo != {}
      invariant todo <= paths.Keys
      invariant merged.Keys == winners.Keys + (paths.Keys - todo)
      invariant forall k :: k in merged ==> merged[k] == if k in paths && k !in todo then paths[k] else winners[k]
    {
      var documentKey :| documentKey in todo;
      merged := merged[documentKey := paths[documentKey]];
      todo := todo - {documentKey};
    }
  }

  method ExtractDocumentIdentity(fullnames: seq<string>, mapping: PathsMapping, order: seq<string>, body: Json)
    returns (r: Extracted<seq<Pair>>)
    ensures r == Identity(fullnames, mapping, order, body)
  {
    var identityDocumentPaths: map<string, Path> := map[];
    for i := 0 to |fullnames|
      invariant forall f :: f in fullnames[..i] ==> f in mapping
      invariant identityDocumentPaths == Winners(fullnames[..i], mapping)
    {
      if fullnames[i] !in mapping {
        return Error(UnknownProperty);
      }
      identityDocumentPaths := OverwritePaths(identityDocumentPaths, mapping[fullnames[i]]);
      assert fullnames[..i + 1] == fullnames[..i] + [fullnames[i]];
    }
    assert fullnames[..|fullnames|] == fullnames;
    var documentIdentity: seq<Pair> := [];
    for i := 0 to |order|
      invariant Elements(identityDocumentPaths, order[..i], body) == Ok(documentIdentity)
    {
      var v := ElementValue(identityDocumentPaths, order[i], body);
      assert order[..i + 1][..i] == order[..i];
      if v.Error? {
        ElementFailureSpreads(identityDocumentPaths, order, body, i + 1);
        return Error(v.failure);
      }
      documentIdentity := documentIdentity + [Pair(order[i], Some(v.value))];
    }
    assert order[..|order|] == order;
    if |documentIdentity| == 0 {
      return Error(EmptyIdentity);
    }
    return Ok(documentIdentity);
  }

  lemma {:induction false} ElementFailureSpreads(winners: map<string, Path>, order: seq<string>, body: Json, i: nat)
    requires i <= |order| && Elements(winners, order[..i], body).Error?
    ensures Elements(winners, order, body) == Elements(winners, order[..i], body)
  {
    if i == |order| {
      assert order[..i] == order;
    } else {
      var n := |order| - 1;
      assert order[..n][..i] == order[..i];
      ElementFailureSpreads(winners, order[..n], body, i);
    }
  }

  /** A successful extraction lists the keys of the identity path order, in that order. */
  lemma {:induction false} ElementKeys(winners: map<string, Path>, order: seq<string>, body: Json)
    requires Elements(winners, order, body).Ok?
    ensures var elements := Elements(winners, order, body).value;
      && |elements| == |order|
      && forall i :: 0 <= i < |order| ==>
           elements[i].key == order[i] && elements[i].value.Some?
             && ElementValue(winners, order[i], body) == Ok(elements[i].value.value)
  {
    if order != [] {
      ElementKeys(winners, order[..|order| - 1], body);
    }
  }

  // ----- What the extraction returns -----

  /** The last property that offers a path for `key` offers `path`. */
  ghost predicate LastOffer(fullnames: seq<string>, mapping: PathsMapping, key: string, path: Path) {
    exists i: nat :: OfferedLast(fullnames, mapping, key, i) && mapping[fullnames[i]][key] == path
  }

  ghost predicate OfferedLast(fullnames: seq<string>, mapping: PathsMapping, key: string, i: nat) {
    && i < |fullnames| && fullnames[i] in mapping && key in mapping[fullnames[i]]
    && forall j :: i < j < |fullnames| ==> fullnames[j] in mapping && key !in mapping[fullnames[j]]
  }

  /** The winning path is that of the last property that offers one. */
  lemma {:induction false} WinnerIsLast(fullnames: seq<string>, mapping: PathsMapping, key: string)
    requires forall f :: f in fullnames ==> f in mapping
    ensures forall path :: LastOffer(fullnames, mapping, key, path) <==>
      key in Winners(fullnames, mapping) && Winners(fullnames, mapping)[key] == path
  {
    if fullnames != [] {
      var n := |fullnames| - 1;
      assert fullnames == fullnames[..n] + [fullnames[n]] && fullnames[n] in fullnames;
      if key in mapping[fullnames[n]] {
        forall i: nat ensures OfferedLast(fullnames, mapping, key, i) <==> i == n {
        }
      } else {
        WinnerIsLast(fullnames[..n], mapping, key);
        forall i: nat ensures OfferedLast(fullnames, mapping, key, i) <==>
          OfferedLast(fullnames[..n], mapping, key, i)
        {
          assert i < n ==> fullnames[..n][i] == fullnames[i];
          OfferedLastPrefix(fullnames, mapping, key, n, i);
        }
        forall path ensures LastOffer(fullnames, mapping, key, path) <==>
          LastOffer(fullnames[..n], mapping, key, path)
        {
        }
      }
    }
  }

  lemma OfferedLastPrefix(fullnames: seq<string>, mapping: PathsMapping, key: string, n: nat, i: nat)
    requires |fullnames| == n + 1 && fullnames[n] in mapping && key !in mapping[fullnames[n]]
    ensures OfferedLast(fullnames, mapping, key, i) <==> OfferedLast(fullnames[..n], mapping, key, i)
  {
    assert forall j :: 0 <= j < n ==> fullnames[..n][j] == fullnames[j];
  }

  /** The winning path of the key has no `[*]` and leads to one value `v`, neither an array nor null. */
  ghost predicate Reads(fullnames: seq<string>, mapping: PathsMapping, key: string, body: Json, v: Json) {
    && (exists path :: LastOffer(fullnames, mapping, key, path) && Star !in path && Eval(path, body) == [v])
    && !v.Array? && !v.Null?
  }

  ghost predicate Readable(fullnames: seq<string>, mapping: PathsMapping, key: string, body: Json) {
    exists v :: Reads(fullnames, mapping, key, body, v)
  }

  /** The winning path of the key leads to an array, to several values, or through `[*]` to any. */
  ghost predicate ReadsMany(fullnames: seq<string>, mapping: PathsMapping, key: string, body: Json) {
    exists path :: LastOffer(fullnames, mapping, key, path) && SeveralValues(path, body)
  }

  predicate SeveralValues(path: Path, body: Json) {
    var values := Eval(path, body);
    |values| > 1 || (|values| == 1 && (Star in path || values[0].Array?))
  }

  lemma ElementValueIs(fullnames: seq<string>, mapping: PathsMapping, key: string, body: Json)
    requires forall f :: f in fullnames ==> f in mapping
    ensures var r := ElementValue(Winners(fullnames, mapping), key, body);
      && (forall v :: r == Ok(v) <==> Reads(fullnames, mapping, key, body, v))
      && (r.Ok? <==> Readable(fullnames, mapping, key, body))
      && (r == Error(MultipleValues) <==> ReadsMany(fullnames, mapping, key, body))
      && (r.Ok? || r == Error(MultipleValues) || r == Error(NoValue))
  {
    WinnerIsLast(fullnames, mapping, key);
    var winners := Winners(fullnames, mapping);
    if key in winners {
      assert LastOffer(fullnames, mapping, key, winners[key]);
      var values := Eval(winners[key], body);
      assert |values| == 1 ==> values == [values[0]];
    }
    assert forall v :: Reads(fullnames, mapping, key, body, v) <==>
      key in winners && Star !in winners[key] && Eval(winners[key], body) == [v] && !v.Array? && !v.Null?;
    assert ReadsMany(fullnames, mapping, key, body) <==> key in winners && SeveralValues(winners[key], body);
  }

  /** The elements of the keys in `order`, in that order. */
  ghost predicate ReadsAll(fullnames: seq<string>, mapping: PathsMapping, order: seq<string>, body: Json,
      elements: seq<Pair>)
  {
    && |elements| == |order|
    && forall j :: 0 <= j < |order| ==>
         && elements[j].key == order[j] && elements[j].value.Some?
         && Reads(fullnames, mapping, order[j], body, elements[j].value.value)
  }

  lemma ReadsOneMore(fullnames: seq<string>, mapping: PathsMapping, order: seq<string>, body: Json,
      elements: seq<Pair>, v: Json, n: nat)
    requires |order| == n + 1 && ReadsAll(fullnames, mapping, order[..n], body, elements)
    requires Reads(fullnames, mapping, order[n], body, v)
    ensures ReadsAll(fullnames, mapping, order, body, elements + [Pair(order[n], Some(v))])
  {
    assert forall j :: 0 <= j < n ==> order[..n][j] == order[j];
  }

  /** The last key is read after all others. */
  lemma LastElement(fullnames: seq<string>, mapping: PathsMapping, order: seq<string>, body: Json, n: nat)
    requires (forall f :: f in fullnames ==> f in mapping) && |order| == n + 1
    requires var before := Elements(Winners(fullnames, mapping), order[..n], body);
      before.Ok? && ReadsAll(fullnames, mapping, order[..n], body, before.value)
    ensures var r := Elements(Winners(fullnames, mapping), order, body);
      if Readable(fullnames, mapping, order[n], body)
        then r.Ok? && ReadsAll(fullnames, mapping, order, body, r.value)
        else r == Error(if ReadsMany(fullnames, mapping, order[n], body) then MultipleValues else NoValue)
  {
    var winners := Winners(fullnames, mapping);
    ElementValueIs(fullnames, mapping, order[n], body);
    if Readable(fullnames, mapping, order[n], body) {
      ReadsOneMore(fullnames, mapping, order, body, Elements(winners, order[..n], body).value,
        ElementValue(winners, order[n], body).value, n);
    }
  }

  /** `j` is the first key that cannot be read, if there is one. */
  lemma {:induction false} ElementsAre(fullnames: seq<string>, mapping: PathsMapping, order: seq<string>, body: Json)
    returns (j: nat)
    requires forall f :: f in fullnames ==> f in mapping
    ensures j <= |order| && forall i :: 0 <= i < j ==> Readable(fullnames, mapping, order[i], body)
    ensures var r := Elements(Winners(fullnames, mapping), order, body);
      if j < |order| then
        && !Readable(fullnames, mapping, order[j], body)
        && r == Error(if ReadsMany(fullnames, mapping, order[j], body) then MultipleValues else NoValue)
      else r.Ok? && ReadsAll(fullnames, mapping, order, body, r.value)
  {
    j := 0;
    if order != [] {
      var n := |order| - 1;
      j := ElementsAre(fullnames, mapping, order[..n], body);
      if j == n {
        LastElement(fullnames, mapping, order, body, n);
        if Readable(fullnames, mapping, order[n], body) {
          j := n + 1;
        }
      }
    }
  }

  /** Main result: every answer of the extraction. An unknown property comes first, then the
      first key in the order that cannot be read, then an empty order; otherwise there is one
      element for each key, in order, with the one value its winning path leads to. */
  lemma IdentityAnswers(fullnames: seq<string>, mapping: PathsMapping, order: seq<string>, body: Json)
    returns (j: nat)
    ensures j <= |order| && forall i :: 0 <= i < j ==> Readable(fullnames, mapping, order[i], body)
    ensures var r := Identity(fullnames, mapping, order, body);
      if exists f :: f in fullnames && f !in mapping then r == Error(UnknownProperty)
      else if j < |order| then
        && !Readable(fullnames, mapping, order[j], body)
        && r == Error(if ReadsMany(fullnames, mapping, order[j], body) then MultipleValues else NoValue)
      else if order == [] then r == Error(EmptyIdentity)
      else r.Ok? && ReadsAll(fullnames, mapping, order, body, r.value)
  {
    j := 0;
    if forall f :: f in fullnames ==> f in mapping {
      j := ElementsAre(fullnames, mapping, order, body);
    }
  }

  /** Exactly when a document has an identity. */
  lemma IdentityOkIff(fullnames: seq<string>, mapping: PathsMapping, order: seq<string>, body: Json)
    ensures Identity(fullnames, mapping, order, body).Ok? <==>
            && (forall f :: f in fullnames ==> f in mapping) && order != []
            && forall key :: key in order ==> Readable(fullnames, mapping, key, body)
  {
    var j := IdentityAnswers(fullnames, mapping, order, body);
    if j < |order| {
      assert order[j] in order;
    }
  }

  // ----- Confluence -----

  /** Some property offers `path` for `key`. */
  ghost predicate Candidate(fullnames: seq<string>, mapping: PathsMapping, key: string, path: Path) {
    exists f :: f in fullnames && f in mapping && key in mapping[f] && mapping[f][key] == path
  }

  /** The path has no `[*]` and leads to one value that is not an array. */
  predicate PresentScalar(path: Path, body: Json) {
    Star !in path && |Eval(path, body)| == 1 && !Eval(path, body)[0].Array?
  }

  predicate Joined(constraints: seq<EqualityConstraint>, p: Path, q: Path) {
    EqualityConstraint(p, q) in constraints || EqualityConstraint(q, p) in constraints
  }

  /** A chain of constraints, each between paths that have values. */
  ghost predicate Chain(constraints: seq<EqualityConstraint>, body: Json, chain: seq<Path>) {
    && |chain| > 0
    && (forall i :: 0 <= i < |chain| ==> Values(chain[i], body) != [])
    && (forall i :: 0 <= i < |chain| - 1 ==> Joined(constraints, chain[i], chain[i + 1]))
  }

  ghost predicate Linked(constraints: seq<EqualityConstraint>, body: Json, p: Path, q: Path) {
    exists chain :: Chain(constraints, body, chain) && chain[0] == p && chain[|chain| - 1] == q
  }

  lemma JoinedAgree(constraints: seq<EqualityConstraint>, body: Json, p: Path, q: Path)
    requires Violations(constraints, body) == [] && Joined(constraints, p, q)
    requires Values(p, body) != [] && Values(q, body) != []
    ensures Values(p, body)[0] == Values(q, body)[0]
  {
    var a, b := Values(p, body), Values(q, body);
    if EqualityConstraint(p, q) in constraints {
      assert Holds(EqualityConstraint(p, q), body);
      assert (a + b)[|a|] == (a + b)[0];
    } else {
      assert Holds(EqualityConstraint(q, p), body);
      assert (b + a)[|b|] == (b + a)[0];
    }
  }

  lemma {:induction false} ChainAgrees(constraints: seq<EqualityConstraint>, body: Json, chain: seq<Path>)
    requires Violations(constraints, body) == [] && Chain(constraints, body, chain)
    ensures Values(chain[0], body)[0] == Values(chain[|chain| - 1], body)[0]
  {
    if |chain| > 1 {
      var n := |chain| - 1;
      assert forall i :: 0 <= i < n - 1 ==> Joined(constraints, chain[..n][i], chain[..n][i + 1]) by {
        forall i | 0 <= i < n - 1 ensures Joined(constraints, chain[..n][i], chain[..n][i + 1]) {
          assert Joined(constraints, chain[i], chain[i + 1]);
        }
      }
      ChainAgrees(constraints, body, chain[..n]);
      assert Joined(constraints, chain[n - 1], chain[n - 1 + 1]);
      JoinedAgree(constraints, body, chain[n - 1], chain[n]);
    }
  }

  lemma ScalarValues(path: Path, body: Json)
    requires PresentScalar(path, body)
    ensures Values(path, body) == Eval(path, body) && Single(path, body) == Some(Values(path, body)[0])
  {
    var values := Eval(path, body);
    assert Flatten(values) == [values[0]] + Flatten(values[1..]);
  }

  lemma LinkedAgree(constraints: seq<EqualityConstraint>, body: Json, p: Path, q: Path)
    requires Violations(constraints, body) == [] && Linked(constraints, body, p, q)
    requires PresentScalar(p, body) && PresentScalar(q, body)
    ensures Single(p, body) == Single(q, body)
  {
    var chain :| Chain(constraints, body, chain) && chain[0] == p && chain[|chain| - 1] == q;
    ChainAgrees(constraints, body, chain);
    ScalarValues(p, body);
    ScalarValues(q, body);
  }

  /** Any two different paths for one key are linked, and lead to present scalars. */
  ghost predicate DuplicatesLinked(constraints: seq<EqualityConstraint>, fullnames: seq<string>, mapping: PathsMapping,
      body: Json)
  {
    forall key, p, q :: Candidate(fullnames, mapping, key, p) && Candidate(fullnames, mapping, key, q) && p != q ==>
      Linked(constraints, body, p, q) && PresentScalar(p, body) && PresentScalar(q, body)
  }

  lemma {:induction false} WinnersAreCandidates(fullnames: seq<string>, mapping: PathsMapping, key: string)
    requires forall f :: f in fullnames ==> f in mapping
    ensures key in Winners(fullnames, mapping) <==> exists f :: f in fullnames && key in mapping[f]
    ensures key in Winners(fullnames, mapping) ==> Candidate(fullnames, mapping, key, Winners(fullnames, mapping)[key])
  {
    if fullnames != [] {
      var n := |fullnames| - 1;
      assert fullnames == fullnames[..n] + [fullnames[n]];
      assert fullnames[n] in fullnames;
      WinnersAreCandidates(fullnames[..n], mapping, key);
    }
  }

  predicate SameNames(a: seq<string>, b: seq<string>) {
    (forall f :: f in a ==> f in b) && (forall f :: f in b ==> f in a)
  }

  /** Two orderings win with paths that are candidates of both. */
  lemma SameCandidates(a: seq<string>, b: seq<string>, mapping: PathsMapping, key: string)
    requires SameNames(a, b) && forall f :: f in a ==> f in mapping
    ensures key in Winners(a, mapping) <==> key in Winners(b, mapping)
    ensures key in Winners(a, mapping) ==>
      Candidate(a, mapping, key, Winners(a, mapping)[key]) && Candidate(a, mapping, key, Winners(b, mapping)[key])
  {
    WinnersAreCandidates(a, mapping, key);
    WinnersAreCandidates(b, mapping, key);
  }

  /** The paths offered for one key lead to one value. */
  ghost predicate CandidatesAgree(fullnames: seq<string>, mapping: PathsMapping, order: seq<string>, body: Json) {
    forall key, p, q ::
      key in order && Candidate(fullnames, mapping, key, p) && Candidate(fullnames, mapping, key, q) ==>
        Single(p, body) == Single(q, body)
  }

  lemma SameElementValue(a: seq<string>, b: seq<string>, mapping: PathsMapping, order: seq<string>, body: Json,
      key: string)
    requires CandidatesAgree(a, mapping, order, body) && key in order
    requires SameNames(a, b) && forall f :: f in a ==> f in mapping
    ensures ElementValue(Winners(a, mapping), key, body) == ElementValue(Winners(b, mapping), key, body)
  {
    SameCandidates(a, b, mapping, key);
  }

  lemma {:induction false} SameElements(winners: map<string, Path>, others: map<string, Path>, order: seq<string>,
      body: Json)
    requires forall key :: key in order ==> ElementValue(winners, key, body) == ElementValue(others, key, body)
    ensures Elements(winners, order, body) == Elements(others, order, body)
  {
    if order != [] {
      SameElements(winners, others, order[..|order| - 1], body);
    }
  }

  /** If the candidates agree, it does not matter which of them wins. */
  lemma AgreeingCandidatesSuffice(a: seq<string>, b: seq<string>, mapping: PathsMapping, order: seq<string>, body: Json)
    requires CandidatesAgree(a, mapping, order, body) && SameNames(a, b)
    ensures Identity(a, mapping, order, body) == Identity(b, mapping, order, body)
  {
    if forall f :: f in a ==> f in mapping {
      forall key | key in order
        ensures ElementValue(Winners(a, mapping), key, body) == ElementValue(Winners(b, mapping), key, body)
      {
        SameElementValue(a, b, mapping, order, body, key);
      }
      SameElements(Winners(a, mapping), Winners(b, mapping), order, body);
    }
  }

  /** Some reordering lets a given property win. */
  function MovedLast(a: seq<string>, i: nat): (b: seq<string>)
    requires i < |a|
    ensures multiset(b) == multiset(a)
  {
    assert a == a[..i] + [a[i]] + a[i + 1..];
    a[..i] + a[i + 1..] + [a[i]]
  }

  lemma LastWins(a: seq<string>, i: nat, mapping: PathsMapping, key: string)
    requires i < |a| && (forall f :: f in a ==> f in mapping) && key in mapping[a[i]]
    ensures forall f :: f in MovedLast(a, i) ==> f in mapping
    ensures key in Winners(MovedLast(a, i), mapping) && Winners(MovedLast(a, i), mapping)[key] == mapping[a[i]][key]
  {
    var b := MovedLast(a, i);
    forall f | f in b ensures f in mapping {
      assert f in multiset(b) && f in multiset(a) && f in a;
    }
    assert b[|b| - 1] == a[i];
  }

  /** Some reordering lets a given candidate win. */
  lemma CandidateWins(a: seq<string>, mapping: PathsMapping, key: string, p: Path) returns (b: seq<string>)
    requires (forall f :: f in a ==> f in mapping) && Candidate(a, mapping, key, p)
    ensures multiset(b) == multiset(a) && forall f :: f in b ==> f in mapping
    ensures key in Winners(b, mapping) && Winners(b, mapping)[key] == p
  {
    var f :| f in a && f in mapping && key in mapping[f] && mapping[f][key] == p;
    var i :| 0 <= i < |a| && a[i] == f;
    b := MovedLast(a, i);
    LastWins(a, i, mapping, key);
  }

  /** Every candidate is shown by the reordering in which it wins. */
  lemma CandidateShown(a: seq<string>, mapping: PathsMapping, order: seq<string>, body: Json, j: nat, p: Path)
    requires Identity(a, mapping, order, body).Ok? && j < |order| && Candidate(a, mapping, order[j], p)
    requires forall b :: multiset(a) == multiset(b) ==>
      Identity(b, mapping, order, body) == Identity(a, mapping, order, body)
    ensures j < |Identity(a, mapping, order, body).value|
    ensures Single(p, body) == Identity(a, mapping, order, body).value[j].value
  {
    var b := CandidateWins(a, mapping, order[j], p);
    assert Identity(b, mapping, order, body).Ok?;
    ElementKeys(Winners(b, mapping), order, body);
  }

  /** Main result: the identity is the same for every ordering of the identity properties
      exactly when all paths offered for a key lead to one value. */
  lemma OrderIrrelevantIff(a: seq<string>, mapping: PathsMapping, order: seq<string>, body: Json)
    requires Identity(a, mapping, order, body).Ok?
    ensures (forall b :: multiset(a) == multiset(b) ==>
      Identity(b, mapping, order, body) == Identity(a, mapping, order, body))
            <==> CandidatesAgree(a, mapping, order, body)
  {
    if CandidatesAgree(a, mapping, order, body) {
      forall b | multiset(a) == multiset(b)
        ensures Identity(b, mapping, order, body) == Identity(a, mapping, order, body)
      {
        ReorderingKeepsNames(a, b);
        AgreeingCandidatesSuffice(a, b, mapping, order, body);
      }
    }
    if forall b :: multiset(a) == multiset(b) ==>
      Identity(b, mapping, order, body) == Identity(a, mapping, order, body) {
      forall key, p, q | key in order && Candidate(a, mapping, key, p) && Candidate(a, mapping, key, q)
        ensures Single(p, body) == Single(q, body)
      {
        var j :| 0 <= j < |order| && order[j] == key;
        CandidateShown(a, mapping, order, body, j, p);
        CandidateShown(a, mapping, order, body, j, q);
      }
    }
  }

  lemma ReorderingKeepsNames(a: seq<string>, b: seq<string>)
    requires multiset(a) == multiset(b)
    ensures SameNames(a, b)
  {
    assert forall f :: f in a <==> f in multiset(a);
    assert forall f :: f in b <==> f in multiset(b);
  }

  lemma LinkedCandidatesAgree(constraints: seq<EqualityConstraint>, fullnames: seq<string>, mapping: PathsMapping,
      order: seq<string>, body: Json)
    requires Violations(constraints, body) == [] && DuplicatesLinked(constraints, fullnames, mapping, body)
    ensures CandidatesAgree(fullnames, mapping, order, body)
  {
    forall key, p, q |
      key in order && Candidate(fullnames, mapping, key, p) && Candidate(fullnames, mapping, key, q) && p != q
      ensures Single(p, body) == Single(q, body)
    {
      LinkedAgree(constraints, body, p, q);
    }
  }

  /** Main result: on a body that passes the equality constraints, linked duplicates make every
      ordering of the identity properties give the same identity, or the same exception. */
  lemma IdentityConfluent(constraints: seq<EqualityConstraint>, a: seq<string>, b: seq<string>, mapping: PathsMapping,
      order: seq<string>, body: Json)
    requires Violations(constraints, body) == [] && DuplicatesLinked(constraints, a, mapping, body)
    requires SameNames(a, b)
    ensures Identity(a, mapping, order, body) == Identity(b, mapping, order, body)
  {
    LinkedCandidatesAgree(constraints, a, mapping, order, body);
    AgreeingCandidatesSuffice(a, b, mapping, order, body);
  }
}
