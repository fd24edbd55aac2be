/** Reference validation of the MongoDB backend: a query for the documents that answer to
    any of the referenced ids, a comparison of lengths, and a difference of ids only if the
    lengths differ. */
module MongoValidation {
  import opened Model
  import opened Collections
  import opened ReferenceReport

  /** `find({ aliasMeadowlarkIds: { $in: ids } })` */
  function Matching(s: Store, ids: seq<MeadowlarkId>): set<MeadowlarkId> {
    set x | x in s && Intersects(s[x].aliasIds, ids)
  }

  /** The `aliasMeadowlarkIds.$` projection: the first element the query matched. */
  function FirstMatch(aliases: seq<MeadowlarkId>, ids: seq<MeadowlarkId>): (a: MeadowlarkId)
    requires Intersects(aliases, ids)
    ensures a in aliases && a in ids
  {
    if aliases[0] in ids then aliases[0] else FirstMatch(aliases[1..], ids)
  }

  /** The alias each matching document is reported under, as the document query projects it. */
  function MatchedAliases(s: Store, ids: seq<MeadowlarkId>): map<MeadowlarkId, MeadowlarkId> {
    map x | x in Matching(s, ids) :: FirstMatch(s[x].aliasIds, ids)
  }

  function DocumentFailures(s: Store, refs: seq<DocumentReference>): seq<MissingIdentity> {
    var ids := Targets(refs);
    if |ids| != |Matching(s, ids)| then FindMissing(refs, MatchedAliases(s, ids).Values) else []
  }

  /** Descriptors are projected onto their `_id` instead. */
  function DescriptorFailures(s: Store, refs: seq<DocumentReference>): seq<MissingIdentity> {
    var ids := Targets(refs);
    if |ids| != |Matching(s, ids)| then FindMissing(refs, Matching(s, ids)) else []
  }

  function Failures(s: Store, info: DocumentInfo): seq<MissingIdentity> {
    DocumentFailures(s, info.documentReferences) + DescriptorFailures(s, info.descriptorReferences)
  }

  /** Two of the ids name one stored document. */
  ghost predicate NamedTwice(s: Store, ids: seq<MeadowlarkId>) {
    exists x, a, b :: x in s && a in s[x].aliasIds && b in s[x].aliasIds && a in ids && b in ids && a != b
  }

  lemma MatchedAliasesInjective(s: Store, ids: seq<MeadowlarkId>)
    requires AliasDisjoint(s)
    ensures |MatchedAliases(s, ids).Values| == |Matching(s, ids)|
    ensures forall a :: a in MatchedAliases(s, ids).Values ==> a in ids && Resolves(s, a)
  {
    var m := MatchedAliases(s, ids);
    assert m.Keys == Matching(s, ids);
    InjectiveImageSize(m);
    forall a | a in m.Values ensures a in ids && Resolves(s, a) {
      var x :| x in m && m[x] == a;
    }
  }

  /** The pigeonhole: as many matching documents as ids means every id is matched. */
  lemma CountShortcut(s: Store, ids: seq<MeadowlarkId>)
    requires AliasDisjoint(s)
    requires |ids| == |Matching(s, ids)|
    ensures AllResolve(s, ids)
    ensures MatchedAliases(s, ids).Values == set a | a in ids
  {
    var matched := MatchedAliases(s, ids).Values;
    var named := set a | a in ids;
    MatchedAliasesInjective(s, ids);
    SetOfSeqSize(ids);
    SubsetSize(matched, named);
    forall a | a in ids ensures Resolves(s, a) {
      assert a in named;
    }
  }

  /** Soundness, for all lists, duplicates included: no failure means every reference resolves. */
  lemma NoFailuresMeansResolved(s: Store, info: DocumentInfo)
    requires AliasDisjoint(s) && OwnAlias(s)
    requires Failures(s, info) == []
    ensures AllResolve(s, OutboundRefs(info))
  {
    var docs, descriptors := Targets(info.documentReferences), Targets(info.descriptorReferences);
    if |docs| == |Matching(s, docs)| {
      CountShortcut(s, docs);
    } else {
      FindMissingEmptyIff(info.documentReferences, MatchedAliases(s, docs).Values);
      MatchedAliasesInjective(s, docs);
    }
    if |descriptors| == |Matching(s, descriptors)| {
      CountShortcut(s, descriptors);
    } else {
      FindMissingEmptyIff(info.descriptorReferences, Matching(s, descriptors));
    }
  }

  /** The projection reports one alias for each document, so it reports every id exactly when
      each id resolves and no document is named twice. */
  lemma MatchedCoversIff(s: Store, ids: seq<MeadowlarkId>)
    requires AliasDisjoint(s)
    ensures (forall a :: a in ids ==> a in MatchedAliases(s, ids).Values) <==> AllResolve(s, ids) && !NamedTwice(s, ids)
  {
    var m := MatchedAliases(s, ids);
    MatchedAliasesInjective(s, ids);
    if AllResolve(s, ids) && !NamedTwice(s, ids) {
      forall a | a in ids ensures a in m.Values {
        var x :| x in s && a in s[x].aliasIds;
        assert x in m && m[x] == a;
      }
    }
  }

  /** Exactly when the document references pass: they all resolve, and no stored document
      is named under two of its aliases. */
  lemma DocumentsPassIff(s: Store, refs: seq<DocumentReference>)
    requires AliasDisjoint(s)
    ensures DocumentFailures(s, refs) == [] <==> AllResolve(s, Targets(refs)) && !NamedTwice(s, Targets(refs))
  {
    var ids := Targets(refs);
    MatchedCoversIff(s, ids);
    FindMissingEmptyIff(refs, MatchedAliases(s, ids).Values);
    if |ids| == |Matching(s, ids)| {
      CountShortcut(s, ids);
    }
  }

  /** Descriptor references pass exactly when they resolve, if each can only be named by its own id. */
  lemma DescriptorsPassIff(s: Store, refs: seq<DocumentReference>)
    requires AliasDisjoint(s) && OwnAlias(s)
    requires forall x, a :: x in s && a in s[x].aliasIds && a in Targets(refs) ==> a == x
    ensures DescriptorFailures(s, refs) == [] <==> AllResolve(s, Targets(refs))
  {
    var ids := Targets(refs);
    FindMissingEmptyIff(refs, Matching(s, ids));
    if |ids| == |Matching(s, ids)| {
      CountShortcut(s, ids);
    }
    forall a | a in ids ensures a in Matching(s, ids) <==> Resolves(s, a) {
      if Resolves(s, a) {
        var x :| x in s && a in s[x].aliasIds;
      }
    }
  }

  lemma ConcreteNamesOwnId(schema: Schema, s: Store, refs: seq<DocumentReference>)
    requires Indexed(schema, s) && forall r :: r in refs ==> !schema.isAbstract(r.target)
    ensures forall x, a :: x in s && a in s[x].aliasIds && a in Targets(refs) ==> a == x
  {
    forall x, a | x in s && a in s[x].aliasIds && a in Targets(refs) ensures a == x {
      var i :| 0 <= i < |refs| && Targets(refs)[i] == a;
      assert refs[i] in refs;
    }
  }

  /** What the stores keep and every well-formed request meets. */
  ghost predicate MayValidate(schema: Schema, s: Store, info: DocumentInfo) {
    && Indexed(schema, s) && AliasDisjoint(s)
    && forall r :: r in info.descriptorReferences ==> !schema.isAbstract(r.target)
  }

  ghost predicate Passes(s: Store, info: DocumentInfo) {
    AllResolve(s, OutboundRefs(info)) && !NamedTwice(s, Targets(info.documentReferences))
  }

  /** A validated write passes exactly when all its references resolve and none of its
      document references names a stored document a second time. */
  lemma PassIff(schema: Schema, s: Store, info: DocumentInfo)
    requires MayValidate(schema, s, info)
    ensures Failures(s, info) == [] <==> Passes(s, info)
  {
    DocumentsPassIff(s, info.documentReferences);
    ConcreteNamesOwnId(schema, s, info.descriptorReferences);
    DescriptorsPassIff(s, info.descriptorReferences);
    var docs, descriptors := Targets(info.documentReferences), Targets(info.descriptorReferences);
    assert AllResolve(s, docs + descriptors) <==> AllResolve(s, docs) && AllResolve(s, descriptors) by {
      assert forall a :: a in docs + descriptors <==> a in docs || a in descriptors;
    }
  }

  /** Some document is reported under `a`: its first alias that is asked for. */
  ghost predicate NamedFirst(s: Store, ids: seq<MeadowlarkId>, a: MeadowlarkId) {
    exists x: MeadowlarkId, k: nat :: x in s && FirstNamed(s[x].aliasIds, ids, k) && s[x].aliasIds[k] == a
  }

  ghost predicate FirstNamed(aliases: seq<MeadowlarkId>, ids: seq<MeadowlarkId>, k: nat) {
    k < |aliases| && aliases[k] in ids && forall j :: 0 <= j < k ==> aliases[j] !in ids
  }

  lemma {:induction false} FirstMatchIs(aliases: seq<MeadowlarkId>, ids: seq<MeadowlarkId>, k: nat)
    requires FirstNamed(aliases, ids, k)
    ensures Intersects(aliases, ids) && FirstMatch(aliases, ids) == aliases[k]
  {
    if k > 0 {
      assert aliases[0] !in ids;
      assert forall j :: 0 <= j < k - 1 ==> aliases[1..][j] !in ids;
      FirstMatchIs(aliases[1..], ids, k - 1);
    }
  }

  lemma {:induction false} FirstNamedExists(aliases: seq<MeadowlarkId>, ids: seq<MeadowlarkId>) returns (k: nat)
    requires Intersects(aliases, ids)
    ensures FirstNamed(aliases, ids, k)
  {
    if aliases[0] in ids {
      k := 0;
    } else {
      k := FirstNamedExists(aliases[1..], ids);
      k := k + 1;
      assert forall j :: 1 <= j < k ==> aliases[j] == aliases[1..][j - 1];
    }
  }

  lemma MatchedAliasesAre(s: Store, ids: seq<MeadowlarkId>, a: MeadowlarkId)
    ensures a in MatchedAliases(s, ids).Values <==> NamedFirst(s, ids, a)
  {
    var m := MatchedAliases(s, ids);
    if a in m.Values {
      var x :| x in m && m[x] == a;
      var k := FirstNamedExists(s[x].aliasIds, ids);
      FirstMatchIs(s[x].aliasIds, ids, k);
    }
    if NamedFirst(s, ids, a) {
      var x: MeadowlarkId, k: nat :| x in s && FirstNamed(s[x].aliasIds, ids, k) && s[x].aliasIds[k] == a;
      FirstMatchIs(s[x].aliasIds, ids, k);
      assert x in m && m[x] == a;
    }
  }

  /** The count shortcut loses nothing for documents. */
  lemma DocumentFailuresAre(s: Store, refs: seq<DocumentReference>)
    requires AliasDisjoint(s)
    ensures DocumentFailures(s, refs) == FindMissing(refs, MatchedAliases(s, Targets(refs)).Values)
  {
    var ids := Targets(refs);
    if |ids| == |Matching(s, ids)| {
      CountShortcut(s, ids);
      FindMissingEmptyIff(refs, MatchedAliases(s, ids).Values);
    }
  }

  lemma DescriptorFailuresAre(schema: Schema, s: Store, refs: seq<DocumentReference>)
    requires Indexed(schema, s) && AliasDisjoint(s) && forall r :: r in refs ==> !schema.isAbstract(r.target)
    ensures DescriptorFailures(s, refs) == FindMissing(refs, Matching(s, Targets(refs)))
  {
    ConcreteNamesOwnId(schema, s, refs);
    DescriptorsPassIff(s, refs);
    FindMissingEmptyIff(refs, Matching(s, Targets(refs)));
    if |Targets(refs)| == |Matching(s, Targets(refs))| {
      CountShortcut(s, Targets(refs));
      forall a | a in Targets(refs) ensures a in Matching(s, Targets(refs)) {
        var x :| x in s && a in s[x].aliasIds;
      }
    }
  }

  /** Exactly which references a refused request is told about: the document references at
      `docs`, whose ids are no document's first alias asked for, then the descriptor references
      at `descriptors`, whose ids are no document's own. */
  lemma FailuresExact(schema: Schema, s: Store, info: DocumentInfo)
    returns (docs: seq<nat>, named: set<MeadowlarkId>, descriptors: seq<nat>)
    requires MayValidate(schema, s, info)
    ensures |Failures(s, info)| == |docs| + |descriptors|
    ensures ExactReport(Failures(s, info)[..|docs|], info.documentReferences, named, docs)
    ensures forall a :: a in named <==> NamedFirst(s, Targets(info.documentReferences), a)
    ensures ExactReport(Failures(s, info)[|docs|..], info.descriptorReferences,
      (set x | x in s && x in Targets(info.descriptorReferences)), descriptors)
  {
    var ids, owned := Targets(info.documentReferences), Targets(info.descriptorReferences);
    named := MatchedAliases(s, ids).Values;
    forall a ensures a in named <==> NamedFirst(s, ids, a) { MatchedAliasesAre(s, ids, a); }
    docs := FindMissingIsExact(info.documentReferences, named);
    ConcreteNamesOwnId(schema, s, info.descriptorReferences);
    assert Matching(s, owned) == set x | x in s && x in owned;
    descriptors := FindMissingIsExact(info.descriptorReferences, Matching(s, owned));
    DocumentFailuresAre(s, info.documentReferences);
    DescriptorFailuresAre(schema, s, info.descriptorReferences);
    var first := FindMissing(info.documentReferences, named);
    assert Failures(s, info)[..|first|] == first;
    assert Failures(s, info)[|first|..] == FindMissing(info.descriptorReferences, Matching(s, owned));
  }

  const SHARED := MeadowlarkId("a")
  const NOBODY := MeadowlarkId("b")
  const FIRST_OWNER := Document(MeadowlarkId("p"), DocumentUuid("1"), [], ResourceInfo("", "", "", false), "",
    [MeadowlarkId("p"), SHARED], [], true, "", Some(0), 0)
  const SECOND_OWNER := FIRST_OWNER.(id := MeadowlarkId("q"), documentUuid := DocumentUuid("2"),
    aliasIds := [MeadowlarkId("q"), SHARED])

  lemma BothMatch(s: Store, p: Document, q: Document, a: MeadowlarkId, b: MeadowlarkId)
    requires p.id != q.id && s == map[p.id := p, q.id := q] && p.aliasIds == [p.id, a] && q.aliasIds == [q.id, a]
    requires b != a && b != p.id && b != q.id
    ensures OwnAlias(s) && !AliasDisjoint(s) && Matching(s, [a, b]) == {p.id, q.id} && !Resolves(s, b)
  {
    assert s[p.id] == p && s[q.id] == q;
    assert a in p.aliasIds && a in q.aliasIds && a in [a, b];
  }

  /** Without disjoint aliases the count is fooled: two documents that answer to `a` make
      up for a missing `b`. */
  lemma CountFooledByDoubleOwner() returns (s: Store, info: DocumentInfo)
    ensures OwnAlias(s) && !AliasDisjoint(s) && info.descriptorReferences == []
    ensures Failures(s, info) == [] && !AllResolve(s, OutboundRefs(info))
  {
    s := map[FIRST_OWNER.id := FIRST_OWNER, SECOND_OWNER.id := SECOND_OWNER];
    var refs := [DocumentReference(SHARED, "", []), DocumentReference(NOBODY, "", [])];
    info := DocumentInfo([], refs, [], None, 0);
    assert FIRST_OWNER.id.text[0] == 'p' && SECOND_OWNER.id.text[0] == 'q';
    assert SHARED.text[0] == 'a' && NOBODY.text[0] == 'b';
    BothMatch(s, FIRST_OWNER, SECOND_OWNER, SHARED, NOBODY);
    assert Targets(refs) == [SHARED, NOBODY] && Targets([]) == [] && Matching(s, []) == {};
    assert OutboundRefs(info)[1] == NOBODY;
  }
}
