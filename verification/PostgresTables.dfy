/** The three tables of the PostgreSQL backend, and the store they stand for. */
module PostgresTables {
  import opened Model

  datatype DocumentRow = DocumentRow(
    id: MeadowlarkId,
    documentUuid: DocumentUuid,
    documentIdentity: DocumentIdentity,
    resource: ResourceInfo,
    edfiDoc: string,
    validated: bool,
    createdBy: string,
    createdAt: int,
    lastModifiedAt: int)

  datatype AliasRow = AliasRow(documentUuid: DocumentUuid, id: MeadowlarkId, alias: MeadowlarkId)

  datatype ReferenceRow = ReferenceRow(parent: MeadowlarkId, referenced: MeadowlarkId)

  /** The unique index on `meadowlark_id` makes the documents table a map. */
  datatype Tables = Tables(documents: map<MeadowlarkId, DocumentRow>, aliases: seq<AliasRow>,
    references: seq<ReferenceRow>)

  // ----- Queries and deletes by document id -----

  function AliasesOf(rows: seq<AliasRow>, x: MeadowlarkId): seq<MeadowlarkId> {
    if rows == [] then []
    else
      var n := |rows| - 1;
      if rows[n].id == x then AliasesOf(rows[..n], x) + [rows[n].alias] else AliasesOf(rows[..n], x)
  }

  function ReferencesOf(rows: seq<ReferenceRow>, x: MeadowlarkId): seq<MeadowlarkId> {
    if rows == [] then []
    else
      var n := |rows| - 1;
      if rows[n].parent == x then ReferencesOf(rows[..n], x) + [rows[n].referenced] else ReferencesOf(rows[..n], x)
  }

  function DeleteAliases(rows: seq<AliasRow>, x: MeadowlarkId): seq<AliasRow> {
    if rows == [] then []
    else
      var n := |rows| - 1;
      if rows[n].id == x then DeleteAliases(rows[..n], x) else DeleteAliases(rows[..n], x) + [rows[n]]
  }

  function DeleteReferences(rows: seq<ReferenceRow>, x: MeadowlarkId): seq<ReferenceRow> {
    if rows == [] then []
    else
      var n := |rows| - 1;
      if rows[n].parent == x then DeleteReferences(rows[..n], x) else DeleteReferences(rows[..n], x) + [rows[n]]
  }

  function AliasRows(uuid: DocumentUuid, x: MeadowlarkId, aliases: seq<MeadowlarkId>): (rows: seq<AliasRow>)
    ensures forall r :: r in rows ==> r.documentUuid == uuid && r.id == x
  {
    seq(|aliases|, i requires 0 <= i < |aliases| => AliasRow(uuid, x, aliases[i]))
  }

  function ReferenceRows(x: MeadowlarkId, refs: seq<MeadowlarkId>): (rows: seq<ReferenceRow>)
    ensures forall r :: r in rows ==> r.parent == x
  {
    seq(|refs|, i requires 0 <= i < |refs| => ReferenceRow(x, refs[i]))
  }

  // ----- The store behind the tables -----

  function Assemble(row: DocumentRow, aliases: seq<MeadowlarkId>, refs: seq<MeadowlarkId>): Document {
    Document(row.id, row.documentUuid, row.documentIdentity, row.resource, row.edfiDoc,
             aliases, refs, row.validated, row.createdBy, Some(row.createdAt), row.lastModifiedAt)
  }

  function View(t: Tables): Store {
    map x | x in t.documents :: Assemble(t.documents[x], AliasesOf(t.aliases, x), ReferencesOf(t.references, x))
  }

  /** No row of the two side tables is an orphan, every document answers first of all to its
      own id, and the unique indexes hold. */
  ghost predicate Consistent(t: Tables) {
    && (forall x :: x in t.documents ==> t.documents[x].id == x)
    && (forall x, y ::
         x in t.documents && y in t.documents && t.documents[x].documentUuid == t.documents[y].documentUuid ==> x == y)
    && (forall r :: r in t.aliases ==> r.id in t.documents && r.documentUuid == t.documents[r.id].documentUuid)
    && (forall r :: r in t.references ==> r.parent in t.documents)
    && (forall x :: x in t.documents ==> AliasesOf(t.aliases, x) != [] && AliasesOf(t.aliases, x)[0] == x)
  }

  // ----- Row algebra -----

  lemma {:induction false} AliasesOfMember(rows: seq<AliasRow>, x: MeadowlarkId, a: MeadowlarkId)
    ensures a in AliasesOf(rows, x) <==> exists r :: r in rows && r.id == x && r.alias == a
  {
    if rows != [] {
      var n := |rows| - 1;
      AliasesOfMember(rows[..n], x, a);
      assert rows == rows[..n] + [rows[n]];
    }
  }

  lemma {:induction false} ReferencesOfMember(rows: seq<ReferenceRow>, x: MeadowlarkId, a: MeadowlarkId)
    ensures a in ReferencesOf(rows, x) <==> ReferenceRow(x, a) in rows
  {
    if rows != [] {
      var n := |rows| - 1;
      ReferencesOfMember(rows[..n], x, a);
      assert rows == rows[..n] + [rows[n]];
    }
  }

  lemma {:induction false} DeleteAliasesRows(rows: seq<AliasRow>, x: MeadowlarkId)
    ensures forall r :: r in DeleteAliases(rows, x) <==> r in rows && r.id != x
  {
    if rows != [] {
      var n := |rows| - 1;
      DeleteAliasesRows(rows[..n], x);
      assert rows == rows[..n] + [rows[n]];
    }
  }

  lemma {:induction false} DeleteAliasesEffect(rows: seq<AliasRow>, x: MeadowlarkId, y: MeadowlarkId)
    ensures AliasesOf(DeleteAliases(rows, x), y) == if y == x then [] else AliasesOf(rows, y)
  {
    if rows != [] {
      var n := |rows| - 1;
      var rest := DeleteAliases(rows[..n], x);
      DeleteAliasesEffect(rows[..n], x, y);
      if rows[n].id != x {
        assert (rest + [rows[n]])[..|rest|] == rest;
      }
    }
  }

  lemma {:induction false} DeleteReferencesRows(rows: seq<ReferenceRow>, x: MeadowlarkId)
    ensures forall r :: r in DeleteReferences(rows, x) <==> r in rows && r.parent != x
  {
    if rows != [] {
      var n := |rows| - 1;
      DeleteReferencesRows(rows[..n], x);
      assert rows == rows[..n] + [rows[n]];
    }
  }

  lemma {:induction false} DeleteReferencesEffect(rows: seq<ReferenceRow>, x: MeadowlarkId, y: MeadowlarkId)
    ensures ReferencesOf(DeleteReferences(rows, x), y) == if y == x then [] else ReferencesOf(rows, y)
  {
    if rows != [] {
      var n := |rows| - 1;
      var rest := DeleteReferences(rows[..n], x);
      DeleteReferencesEffect(rows[..n], x, y);
      if rows[n].parent != x {
        assert (rest + [rows[n]])[..|rest|] == rest;
      }
    }
  }

  lemma {:induction false} AppendAliases(rows: seq<AliasRow>, uuid: DocumentUuid, x: MeadowlarkId,
      aliases: seq<MeadowlarkId>, y: MeadowlarkId)
    ensures AliasesOf(rows + AliasRows(uuid, x, aliases), y) ==
            if y == x then AliasesOf(rows, y) + aliases else AliasesOf(rows, y)
  {
    var more := AliasRows(uuid, x, aliases);
    if aliases == [] {
      assert rows + more == rows;
    } else {
      var n := |aliases| - 1;
      AppendAliases(rows, uuid, x, aliases[..n], y);
      assert (rows + more)[..|rows + more| - 1] == rows + AliasRows(uuid, x, aliases[..n]);
      assert aliases == aliases[..n] + [aliases[n]];
    }
  }

  lemma {:induction false} AppendReferences(rows: seq<ReferenceRow>, x: MeadowlarkId, refs: seq<MeadowlarkId>,
      y: MeadowlarkId)
    ensures ReferencesOf(rows + ReferenceRows(x, refs), y) ==
            if y == x then ReferencesOf(rows, y) + refs else ReferencesOf(rows, y)
  {
    var more := ReferenceRows(x, refs);
    if refs == [] {
      assert rows + more == rows;
    } else {
      var n := |refs| - 1;
      AppendReferences(rows, x, refs[..n], y);
      assert (rows + more)[..|rows + more| - 1] == rows + ReferenceRows(x, refs[..n]);
      assert refs == refs[..n] + [refs[n]];
    }
  }

  // ----- Deleting and rewriting one document -----

  /** The three deletes that remove document `x`. */
  function WithoutDocument(t: Tables, x: MeadowlarkId): Tables {
    Tables(t.documents - {x}, DeleteAliases(t.aliases, x), DeleteReferences(t.references, x))
  }

  /** The inserts that add a document with its alias rows and reference rows. */
  function WithDocument(t: Tables, row: DocumentRow, aliases: seq<MeadowlarkId>, refs: seq<MeadowlarkId>): Tables {
    Tables(t.documents[row.id := row], t.aliases + AliasRows(row.documentUuid, row.id, aliases),
      t.references + ReferenceRows(row.id, refs))
  }

  /** What a document contributes to the store depends only on its own rows. */
  lemma DeletedRows(t: Tables, x: MeadowlarkId)
    ensures var t' := WithoutDocument(t, x);
      forall y :: y in t'.documents ==>
        && AliasesOf(t'.aliases, y) == AliasesOf(t.aliases, y)
        && ReferencesOf(t'.references, y) == ReferencesOf(t.references, y)
  {
    forall y | y in t.documents - {x}
      ensures AliasesOf(DeleteAliases(t.aliases, x), y) == AliasesOf(t.aliases, y)
      ensures ReferencesOf(DeleteReferences(t.references, x), y) == ReferencesOf(t.references, y)
    {
      DeleteAliasesEffect(t.aliases, x, y);
      DeleteReferencesEffect(t.references, x, y);
    }
  }

  lemma DeleteConsistent(t: Tables, x: MeadowlarkId)
    requires Consistent(t)
    ensures Consistent(WithoutDocument(t, x))
  {
    DeleteAliasesRows(t.aliases, x);
    DeleteReferencesRows(t.references, x);
    DeletedRows(t, x);
  }

  lemma DeleteRefines(t: Tables, x: MeadowlarkId)
    requires Consistent(t)
    ensures Consistent(WithoutDocument(t, x)) && View(WithoutDocument(t, x)) == View(t) - {x}
  {
    DeleteConsistent(t, x);
    DeletedRows(t, x);
  }

  lemma NoRows(t: Tables, x: MeadowlarkId)
    requires Consistent(t) && x !in t.documents
    ensures AliasesOf(t.aliases, x) == [] && ReferencesOf(t.references, x) == []
  {
    if AliasesOf(t.aliases, x) != [] {
      AliasesOfMember(t.aliases, x, AliasesOf(t.aliases, x)[0]);
      assert false;
    }
    if ReferencesOf(t.references, x) != [] {
      ReferencesOfMember(t.references, x, ReferencesOf(t.references, x)[0]);
      assert false;
    }
  }

  lemma InsertRefines(t: Tables, row: DocumentRow, aliases: seq<MeadowlarkId>, refs: seq<MeadowlarkId>)
    requires Consistent(t) && row.id !in t.documents && row.documentUuid !in Uuids(View(t))
    requires aliases != [] && aliases[0] == row.id
    ensures Consistent(WithDocument(t, row, aliases, refs))
    ensures View(WithDocument(t, row, aliases, refs)) == View(t)[row.id := Assemble(row, aliases, refs)]
  {
    InsertedRows(t, row, aliases, refs);
    forall x | x in t.documents ensures t.documents[x].documentUuid != row.documentUuid {
      ViewUuids(t);
    }
    InsertConsistent(t, row, aliases, refs);
    ViewInserted(t, WithDocument(t, row, aliases, refs), row, aliases, refs);
  }

  lemma ViewInserted(t: Tables, t': Tables, row: DocumentRow, aliases: seq<MeadowlarkId>, refs: seq<MeadowlarkId>)
    requires t'.documents == t.documents[row.id := row]
    requires forall y :: y in t'.documents ==>
      && AliasesOf(t'.aliases, y) == (if y == row.id then aliases else AliasesOf(t.aliases, y))
      && ReferencesOf(t'.references, y) == (if y == row.id then refs else ReferencesOf(t.references, y))
    ensures View(t') == View(t)[row.id := Assemble(row, aliases, refs)]
  {
  }

  lemma InsertedRows(t: Tables, row: DocumentRow, aliases: seq<MeadowlarkId>, refs: seq<MeadowlarkId>)
    requires Consistent(t) && row.id !in t.documents
    ensures var t' := WithDocument(t, row, aliases, refs);
      forall y :: y in t'.documents ==>
        && AliasesOf(t'.aliases, y) == (if y == row.id then aliases else AliasesOf(t.aliases, y))
        && ReferencesOf(t'.references, y) == (if y == row.id then refs else ReferencesOf(t.references, y))
  {
    var newAliases, newReferences :=
      t.aliases + AliasRows(row.documentUuid, row.id, aliases), t.references + ReferenceRows(row.id, refs);
    NoRows(t, row.id);
    forall y
      ensures AliasesOf(newAliases, y) == if y == row.id then aliases else AliasesOf(t.aliases, y)
      ensures ReferencesOf(newReferences, y) == if y == row.id then refs else ReferencesOf(t.references, y)
    {
      AppendAliases(t.aliases, row.documentUuid, row.id, aliases, y);
      AppendReferences(t.references, row.id, refs, y);
    }
  }

  lemma InsertConsistent(t: Tables, row: DocumentRow, aliases: seq<MeadowlarkId>, refs: seq<MeadowlarkId>)
    requires Consistent(t) && row.id !in t.documents
    requires forall x :: x in t.documents ==> t.documents[x].documentUuid != row.documentUuid
    requires aliases != [] && aliases[0] == row.id
    requires var t' := WithDocument(t, row, aliases, refs);
      forall y :: y in t'.documents ==>
        AliasesOf(t'.aliases, y) == if y == row.id then aliases else AliasesOf(t.aliases, y)
    ensures Consistent(WithDocument(t, row, aliases, refs))
  {
  }

  lemma ViewUuids(t: Tables)
    requires Consistent(t)
    ensures UuidsDistinct(View(t)) && OwnAlias(View(t))
    ensures forall x :: x in t.documents ==> t.documents[x].documentUuid in Uuids(View(t))
    ensures forall x :: x in t.documents ==> t.documents[x].documentUuid !in Uuids(View(t) - {x})
  {
    forall x | x in t.documents ensures t.documents[x].documentUuid in Uuids(View(t)) {
      assert View(t)[x].documentUuid == t.documents[x].documentUuid;
    }
  }

  // ----- Exactly the rows of the documents -----

  lemma {:induction false} AliasMultiplicity(rows: seq<AliasRow>, row: AliasRow)
    requires forall r :: r in rows && r.id == row.id ==> r.documentUuid == row.documentUuid
    ensures multiset(rows)[row] == multiset(AliasesOf(rows, row.id))[row.alias]
  {
    if rows != [] {
      var n := |rows| - 1;
      assert rows == rows[..n] + [rows[n]] && rows[n] in rows;
      AliasMultiplicity(rows[..n], row);
    }
  }

  lemma {:induction false} ReferenceMultiplicity(rows: seq<ReferenceRow>, row: ReferenceRow)
    ensures multiset(rows)[row] == multiset(ReferencesOf(rows, row.parent))[row.referenced]
  {
    if rows != [] {
      var n := |rows| - 1;
      assert rows == rows[..n] + [rows[n]];
      ReferenceMultiplicity(rows[..n], row);
    }
  }

  /** The alias rows of a consistent state are the aliases of its documents, each as often as
      it occurs, and no other. */
  lemma AliasRowsExact(t: Tables, a: AliasRow)
    requires Consistent(t)
    ensures multiset(t.aliases)[a] ==
            if a.id in View(t) && View(t)[a.id].documentUuid == a.documentUuid
            then multiset(View(t)[a.id].aliasIds)[a.alias] else 0
  {
    if a.id in t.documents && t.documents[a.id].documentUuid == a.documentUuid {
      AliasMultiplicity(t.aliases, a);
    } else {
      assert a !in t.aliases;
    }
  }

  /** The same for reference rows and outbound references. */
  lemma ReferenceRowsExact(t: Tables, r: ReferenceRow)
    requires Consistent(t)
    ensures multiset(t.references)[r] ==
            if r.parent in View(t) then multiset(View(t)[r.parent].outboundRefs)[r.referenced] else 0
  {
    if r.parent in t.documents {
      ReferenceMultiplicity(t.references, r);
    } else {
      assert r !in t.references;
    }
  }
}
