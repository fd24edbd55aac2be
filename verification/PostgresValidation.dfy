/** Reference validation of the PostgreSQL backend, over the alias column. */
module PostgresValidation {
  import opened Model
  import opened Collections
  import opened ReferenceReport
  import opened PostgresTables

  /** `SELECT alias_meadowlark_id ... WHERE alias_meadowlark_id IN (ids)` */
  function Found(rows: seq<AliasRow>, ids: seq<MeadowlarkId>): (found: seq<MeadowlarkId>)
    ensures forall a :: a in found ==> a in ids
  {
    if rows == [] then []
    else
      var n := |rows| - 1;
      if rows[n].alias in ids then Found(rows[..n], ids) + [rows[n].alias] else Found(rows[..n], ids)
  }

  function Present(found: seq<MeadowlarkId>): set<MeadowlarkId> {
    set a | a in found
  }

  function ListFailures(rows: seq<AliasRow>, refs: seq<DocumentReference>): seq<MissingIdentity> {
    var ids := Targets(refs);
    var found := Found(rows, ids);
    if |ids| != |found| then FindMissing(refs, Present(found)) else []
  }

  function Failures(rows: seq<AliasRow>, info: DocumentInfo): seq<MissingIdentity> {
    ListFailures(rows, info.documentReferences) + ListFailures(rows, info.descriptorReferences)
  }

  // ----- The report that validation is meant to give -----

  function Owned(s: Store): set<MeadowlarkId> {
    set x, a | x in s && a in s[x].aliasIds :: a
  }

  /** Document references first, then descriptors; ReferenceReport.FindMissingIsExact says
      what each half lists. */
  function Report(s: Store, info: DocumentInfo): seq<MissingIdentity> {
    FindMissing(info.documentReferences, Owned(s)) + FindMissing(info.descriptorReferences, Owned(s))
  }

  ghost predicate DistinctAliases(rows: seq<AliasRow>) {
    forall i, j :: 0 <= i < j < |rows| ==> rows[i].alias != rows[j].alias
  }

  lemma {:induction false} FoundMember(rows: seq<AliasRow>, ids: seq<MeadowlarkId>, a: MeadowlarkId)
    ensures a in Found(rows, ids) <==> a in ids && exists r :: r in rows && r.alias == a
  {
    if rows != [] {
      var n := |rows| - 1;
      FoundMember(rows[..n], ids, a);
      assert rows == rows[..n] + [rows[n]];
    }
  }

  lemma {:induction false} FoundDistinct(rows: seq<AliasRow>, ids: seq<MeadowlarkId>)
    requires DistinctAliases(rows)
    ensures forall i, j :: 0 <= i < j < |Found(rows, ids)| ==> Found(rows, ids)[i] != Found(rows, ids)[j]
  {
    if rows != [] {
      var n := |rows| - 1;
      FoundDistinct(rows[..n], ids);
      FoundMember(rows[..n], ids, rows[n].alias);
    }
  }

  lemma {:induction false} DifferenceCongruent(xs: seq<MeadowlarkId>, p: set<MeadowlarkId>, q: set<MeadowlarkId>)
    requires forall a :: a in xs ==> (a in p <==> a in q)
    ensures Difference(xs, p) == Difference(xs, q)
  {
    if xs != [] {
      var n := |xs| - 1;
      assert xs == xs[..n] + [xs[n]];
      DifferenceCongruent(xs[..n], p, q);
    }
  }

  /** The count shortcut loses nothing: the report is exact whether or not it is taken. */
  lemma ListFailuresExact(rows: seq<AliasRow>, refs: seq<DocumentReference>, owned: set<MeadowlarkId>)
    requires DistinctAliases(rows)
    requires forall a :: a in owned <==> exists r :: r in rows && r.alias == a
    ensures ListFailures(rows, refs) == FindMissing(refs, owned)
  {
    var ids := Targets(refs);
    var found := Found(rows, ids);
    forall a | a in ids ensures a in Present(found) <==> a in owned {
      FoundMember(rows, ids, a);
    }
    DifferenceCongruent(ids, Present(found), owned);
    if |ids| == |found| {
      FoundDistinct(rows, ids);
      DistinctSeqSize(found);
      SetOfSeqSize(ids);
      SubsetSize(Present(found), Present(ids));
      FindMissingEmptyIff(refs, owned);
    }
  }

  // ----- From the store to the alias column -----

  lemma {:induction false} AliasTwice(rows: seq<AliasRow>, x: MeadowlarkId, i: nat, j: nat) returns (p: nat, q: nat)
    requires i < j < |rows| && rows[i].id == x && rows[j].id == x
    ensures p < q < |AliasesOf(rows, x)| && AliasesOf(rows, x)[p] == rows[i].alias
      && AliasesOf(rows, x)[q] == rows[j].alias
  {
    var n := |rows| - 1;
    if j < n {
      p, q := AliasTwice(rows[..n], x, i, j);
    } else {
      p := AliasOnce(rows[..n], x, i);
      q := |AliasesOf(rows, x)| - 1;
    }
  }

  lemma {:induction false} AliasOnce(rows: seq<AliasRow>, x: MeadowlarkId, i: nat) returns (p: nat)
    requires i < |rows| && rows[i].id == x
    ensures p < |AliasesOf(rows, x)| && AliasesOf(rows, x)[p] == rows[i].alias
  {
    var n := |rows| - 1;
    if i < n {
      p := AliasOnce(rows[..n], x, i);
    } else {
      p := |AliasesOf(rows, x)| - 1;
    }
  }

  lemma DisjointMeansDistinct(schema: Schema, t: Tables)
    requires Consistent(t) && Indexed(schema, View(t)) && AliasDisjoint(View(t))
    ensures DistinctAliases(t.aliases)
  {
    var s := View(t);
    forall i, j | 0 <= i < j < |t.aliases| ensures t.aliases[i].alias != t.aliases[j].alias {
      var x, y := t.aliases[i].id, t.aliases[j].id;
      assert t.aliases[i] in t.aliases && t.aliases[j] in t.aliases;
      var k := AliasOnce(t.aliases, x, i);
      var l := AliasOnce(t.aliases, y, j);
      assert s[x].aliasIds[k] in s[x].aliasIds && s[y].aliasIds[l] in s[y].aliasIds;
      if x == y {
        var p, q := AliasTwice(t.aliases, x, i, j);
        assert s[x].aliasIds == AliasIds(x, schema.superclassOf(x));
      }
    }
  }

  lemma OwnedIsColumn(t: Tables)
    requires Consistent(t)
    ensures forall a :: a in Owned(View(t)) <==> exists r :: r in t.aliases && r.alias == a
  {
    forall a ensures a in Owned(View(t)) <==> exists r :: r in t.aliases && r.alias == a {
      if a in Owned(View(t)) {
        var x :| x in View(t) && a in View(t)[x].aliasIds;
        AliasesOfMember(t.aliases, x, a);
      }
      if r :| r in t.aliases && r.alias == a {
        AliasesOfMember(t.aliases, r.id, a);
        assert a in View(t)[r.id].aliasIds;
      }
    }
  }

  /** Main result: when no alias has two owners, validation reports exactly the distinct
      unresolved references, documents then descriptors, in order of first occurrence. */
  lemma FailuresExact(schema: Schema, t: Tables, info: DocumentInfo)
    requires Consistent(t) && Indexed(schema, View(t)) && AliasDisjoint(View(t))
    ensures Failures(t.aliases, info) == Report(View(t), info)
  {
    DisjointMeansDistinct(schema, t);
    OwnedIsColumn(t);
    ListFailuresExact(t.aliases, info.documentReferences, Owned(View(t)));
    ListFailuresExact(t.aliases, info.descriptorReferences, Owned(View(t)));
  }

  lemma ReportEmptyIff(s: Store, info: DocumentInfo)
    ensures Report(s, info) == [] <==> AllResolve(s, OutboundRefs(info))
  {
    FindMissingEmptyIff(info.documentReferences, Owned(s));
    FindMissingEmptyIff(info.descriptorReferences, Owned(s));
    var docs, descriptors := Targets(info.documentReferences), Targets(info.descriptorReferences);
    assert forall a :: a in OutboundRefs(info) <==> a in docs || a in descriptors;
    assert forall a :: a in Owned(s) <==> Resolves(s, a);
  }

  /** The report lists the document references at `docs` and then the descriptor references at
      `descriptors`: the positions, in order, at which an id nobody answers to first occurs. */
  lemma ReportIsExact(s: Store, info: DocumentInfo) returns (docs: seq<nat>, descriptors: seq<nat>)
    ensures |Report(s, info)| == |docs| + |descriptors|
    ensures ExactReport(Report(s, info)[..|docs|], info.documentReferences, Owned(s), docs)
    ensures ExactReport(Report(s, info)[|docs|..], info.descriptorReferences, Owned(s), descriptors)
    ensures forall a :: a in Owned(s) <==> Resolves(s, a)
  {
    docs := FindMissingIsExact(info.documentReferences, Owned(s));
    descriptors := FindMissingIsExact(info.descriptorReferences, Owned(s));
    var first := FindMissing(info.documentReferences, Owned(s));
    assert Report(s, info)[..|first|] == first;
    assert Report(s, info)[|first|..] == FindMissing(info.descriptorReferences, Owned(s));
  }
}
