/** The PostgreSQL backend as the code runs it: ordered statements on three tables inside a
    transaction, proved against the transaction functions on the store behind the tables. */
module PostgresBackend {
  import opened Model
  import opened PostgresTables
  import opened PostgresTransactions
  import Validation = PostgresValidation
  import Serial = PostgresSerial
  import opened StoreChanges

  /** The empty id stands for "no document". A real id is 38 characters long. */
  const NO_ID := MeadowlarkId("")

  function RowFrom(w: WriteRequest, uuid: DocumentUuid, createdAt: int): DocumentRow {
    DocumentRow(w.meadowlarkId, uuid, w.info.documentIdentity, w.resource, w.edfiDoc, w.validate, w.clientId,
      createdAt, w.info.requestTimestamp)
  }

  function WriteFailures(rows: seq<AliasRow>, w: WriteRequest): seq<MissingIdentity> {
    if w.validate then Validation.Failures(rows, w.info) else []
  }

  /** `SELECT ... FROM aliases WHERE document_uuid = uuid` */
  function RowsByUuid(rows: seq<AliasRow>, uuid: DocumentUuid): seq<AliasRow> {
    if rows == [] then []
    else
      var n := |rows| - 1;
      if rows[n].documentUuid == uuid then RowsByUuid(rows[..n], uuid) + [rows[n]] else RowsByUuid(rows[..n], uuid)
  }

  function AliasColumn(rows: seq<AliasRow>): seq<MeadowlarkId> {
    seq(|rows|, i requires 0 <= i < |rows| => rows[i].alias)
  }

  /** `SELECT parent_meadowlark_id FROM references WHERE referenced_meadowlark_id IN (targets)` */
  function ParentsOf(rows: seq<ReferenceRow>, targets: seq<MeadowlarkId>): seq<MeadowlarkId> {
    if rows == [] then []
    else
      var n := |rows| - 1;
      if rows[n].referenced in targets then ParentsOf(rows[..n], targets) + [rows[n].parent]
        else ParentsOf(rows[..n], targets)
  }

  lemma {:induction false} RowsByUuidAre(rows: seq<AliasRow>, uuid: DocumentUuid, x: MeadowlarkId)
    requires forall r :: r in rows ==> (r.documentUuid == uuid <==> r.id == x)
    ensures AliasColumn(RowsByUuid(rows, uuid)) == AliasesOf(rows, x)
    ensures forall r :: r in RowsByUuid(rows, uuid) ==> r.id == x
  {
    if rows != [] {
      var n := |rows| - 1;
      assert rows[n] in rows;
      RowsByUuidAre(rows[..n], uuid, x);
    }
  }

  lemma {:induction false} RowsByUuidNone(rows: seq<AliasRow>, uuid: DocumentUuid)
    requires forall r :: r in rows ==> r.documentUuid != uuid
    ensures RowsByUuid(rows, uuid) == []
  {
    if rows != [] {
      assert rows[|rows| - 1] in rows;
      RowsByUuidNone(rows[..|rows| - 1], uuid);
    }
  }

  lemma {:induction false} ParentsOfMember(rows: seq<ReferenceRow>, targets: seq<MeadowlarkId>, p: MeadowlarkId)
    ensures p in ParentsOf(rows, targets) <==> exists a :: a in targets && ReferenceRow(p, a) in rows
  {
    if rows != [] {
      var n := |rows| - 1;
      ParentsOfMember(rows[..n], targets, p);
      assert rows == rows[..n] + [rows[n]];
    }
  }

  /** What the uuid query of a delete returns, and what it means in the store. */
  lemma UuidQuery(t: Tables, uuid: DocumentUuid)
    requires Consistent(t)
    ensures var rows, found := RowsByUuid(t.aliases, uuid), FindByUuid(View(t), uuid);
      && (found.None? ==> rows == [])
      && (found.Some? ==> rows != [] && rows[0].id == found.value && AliasColumn(rows) == View(t)[found.value].aliasIds)
  {
    var rows, found := RowsByUuid(t.aliases, uuid), FindByUuid(View(t), uuid);
    ViewUuids(t);
    if found.None? {
      RowsByUuidNone(t.aliases, uuid);
    } else {
      RowsByUuidAre(t.aliases, uuid, found.value);
      assert |AliasColumn(rows)| == |rows|;
    }
  }

  lemma ParentsMeanReferenced(t: Tables, x: MeadowlarkId)
    requires Consistent(t) && x in t.documents
    ensures ReferencedByAnother(View(t), x) <==> exists p :: p in ParentsOf(t.references, View(t)[x].aliasIds) && p != x
  {
    var s := View(t);
    var targets := s[x].aliasIds;
    if y :| y in s && y != x && Intersects(s[y].outboundRefs, targets) {
      var a :| a in s[y].outboundRefs && a in targets;
      ReferencesOfMember(t.references, y, a);
      ParentsOfMember(t.references, targets, y);
    }
    if p :| p in ParentsOf(t.references, targets) && p != x {
      ParentsOfMember(t.references, targets, p);
      var a :| a in targets && ReferenceRow(p, a) in t.references;
      ReferencesOfMember(t.references, p, a);
      assert Intersects(s[p].outboundRefs, targets);
    }
  }

  /** Writing a document as the code does: delete the rows of the old id, add the new ones. */
  lemma RewriteRefines(t: Tables, x: MeadowlarkId, w: WriteRequest, row: DocumentRow)
    requires Consistent(t) && row.id == w.meadowlarkId
    requires x != row.id ==> row.id !in t.documents
    requires row.documentUuid !in Uuids(View(t) - {x})
    ensures var aliases, refs := AliasIds(row.id, w.info.superclassId), OutboundRefs(w.info);
      var t' := WithDocument(WithoutDocument(t, x), row, aliases, refs);
      Consistent(t') && View(t') == (View(t) - {x})[row.id := Assemble(row, aliases, refs)]
  {
    DeleteRefines(t, x);
    InsertRefines(WithoutDocument(t, x), row, AliasIds(row.id, w.info.superclassId), OutboundRefs(w.info));
  }

  lemma PutReplaces(s: Store, d: Document)
    ensures (s - {d.id})[d.id := d] == s[d.id := d]
  {
  }

  lemma UpsertTarget(t: Tables, id: MeadowlarkId, freshUuid: DocumentUuid)
    requires Consistent(t) && freshUuid !in Uuids(View(t))
    ensures id in t.documents ==>
      && View(t)[id].documentUuid == t.documents[id].documentUuid
        && View(t)[id].createdAt == Some(t.documents[id].createdAt)
      && t.documents[id].documentUuid !in Uuids(View(t) - {id})
    ensures freshUuid !in Uuids(View(t) - {id})
  {
    ViewUuids(t);
    assert Uuids(View(t) - {id}) <= Uuids(View(t)) by {
      forall y | y in View(t) - {id} ensures View(t)[y].documentUuid in Uuids(View(t)) {
      }
    }
  }

  lemma UpdateTarget(t: Tables, x: MeadowlarkId)
    requires Consistent(t) && x in t.documents
    ensures View(t)[x].createdAt == Some(t.documents[x].createdAt)
    ensures View(t)[x].documentUuid !in Uuids(View(t) - {x})
  {
    ViewUuids(t);
  }

  /** As long as no alias has two owners, validation answers what the serial runs expect of it. */
  lemma ValidationIsExpected(schema: Schema, t: Tables, req: Request)
    requires Consistent(t) && Indexed(schema, View(t)) && AliasDisjoint(View(t)) && !req.Delete?
    ensures WriteFailures(t.aliases, req.write) == Serial.Expected(View(t), req)
  {
    if req.write.validate {
      Validation.FailuresExact(schema, t, req.write.info);
    }
  }

  lemma NothingToDelete(s: Store)
    ensures NO_ID !in s ==> s - {NO_ID} == s
  {
  }

  /** `savepoint` holds the tables as they were at BEGIN while a transaction is open. */
  class Backend {
    var documents: map<MeadowlarkId, DocumentRow>
    var aliases: seq<AliasRow>
    var references: seq<ReferenceRow>
    var savepoint: Option<Tables>

    ghost function Current(): Tables
      reads this
    {
      Tables(documents, aliases, references)
    }

    /** What another connection sees. */
    ghost function Committed(): Tables
      reads this
    {
      if savepoint.Some? then savepoint.value else Current()
    }

    ghost function Store(): Store
      reads this
    {
      View(Committed())
    }

    /** Some answers return without ROLLBACK, so a transaction may be left open; it has
        written nothing. */
    ghost predicate Valid()
      reads this
    {
      Consistent(Current()) && NO_ID !in documents && (savepoint.Some? ==> savepoint.value == Current())
    }

    constructor ()
      ensures Valid() && Store() == map[]
    {
      documents, aliases, references, savepoint := map[], [], [], None;
    }

    /** BEGIN inside an open transaction has no effect. */
    method BeginTransaction()
      requires Valid()
      modifies this`savepoint
      ensures savepoint == Some(Current()) && Valid()
    {
      if savepoint.None? {
        savepoint := Some(Tables(documents, aliases, references));
      }
    }

    method RollbackTransaction()
      requires savepoint.Some?
      modifies this
      ensures Current() == old(savepoint).value && savepoint.None?
    {
      documents, aliases, references := savepoint.value.documents, savepoint.value.aliases, savepoint.value.references;
      savepoint := None;
    }

    method CommitTransaction()
      modifies this`savepoint
      ensures savepoint.None?
    {
      savepoint := None;
    }

    method ValidateReferences(info: DocumentInfo) returns (failures: seq<MissingIdentity>)
      ensures failures == Validation.Failures(aliases, info)
    {
      failures := [];
      failures := failures + Validation.ListFailures(aliases, info.documentReferences);
      failures := failures + Validation.ListFailures(aliases, info.descriptorReferences);
    }

    method FindByDocumentUuid(uuid: DocumentUuid) returns (found: Option<MeadowlarkId>)
      requires Consistent(Current())
      ensures found == FindByUuid(View(Current()), uuid)
    {
      found := None;
      ViewUuids(Current());
      if x :| x in documents && documents[x].documentUuid == uuid {
        assert View(Current())[x].documentUuid == uuid;
        found := Some(x);
      }
    }

    method FindAlias(alias: MeadowlarkId) returns (inUse: bool)
      requires Consistent(Current())
      ensures inUse <==> Resolves(View(Current()), alias)
    {
      var found := Validation.Found(aliases, [alias]);
      inUse := |found| != 0;
      Validation.FoundMember(aliases, [alias], alias);
      Validation.OwnedIsColumn(Current());
      assert Resolves(View(Current()), alias) <==> alias in Validation.Owned(View(Current()));
      assert inUse ==> found[0] in found;
    }

    method InsertAliases(uuid: DocumentUuid, w: WriteRequest)
      modifies this`aliases
      ensures aliases == old(aliases) + AliasRows(uuid, w.meadowlarkId, AliasIds(w.meadowlarkId, w.info.superclassId))
    {
      aliases := aliases + [AliasRow(uuid, w.meadowlarkId, w.meadowlarkId)];
      if w.info.superclassId.Some? {
        aliases := aliases + [AliasRow(uuid, w.meadowlarkId, w.info.superclassId.value)];
      }
    }

    /** The deletes and inserts on the two side tables that follow every write of a row. */
    method RewriteSideTables(x: MeadowlarkId, uuid: DocumentUuid, w: WriteRequest)
      modifies this`aliases, this`references
      ensures aliases == DeleteAliases(old(aliases), x) + AliasRows(uuid, w.meadowlarkId,
        AliasIds(w.meadowlarkId, w.info.superclassId))
      ensures references == DeleteReferences(old(references), x) + ReferenceRows(w.meadowlarkId, OutboundRefs(w.info))
    {
      aliases := DeleteAliases(aliases, x);
      InsertAliases(uuid, w);
      references := DeleteReferences(references, x);
      ghost var kept, rewritten := references, aliases;
      var outboundRefs := Targets(w.info.documentReferences);
      outboundRefs := outboundRefs + Targets(w.info.descriptorReferences);
      for i := 0 to |outboundRefs|
        invariant references == kept + ReferenceRows(w.meadowlarkId, outboundRefs)[..i]
        invariant aliases == rewritten
      {
        references := references + [ReferenceRow(w.meadowlarkId, outboundRefs[i])];
      }
      assert ReferenceRows(w.meadowlarkId, outboundRefs)[..|outboundRefs|]
        == ReferenceRows(w.meadowlarkId, outboundRefs);
    }

    /** The write half of an upsert or an update: the row, then the side tables, then COMMIT.
        The document of row `x` is replaced. */
    method WriteAndCommit(x: MeadowlarkId, w: WriteRequest, uuid: DocumentUuid, createdAt: int)
      requires Valid() && savepoint.Some?
      requires w.meadowlarkId != NO_ID && (x != w.meadowlarkId ==> w.meadowlarkId !in documents)
      requires uuid !in Uuids(Store() - {x})
      modifies this
      ensures Valid()
      ensures Store() == (old(Store()) - {x})[w.meadowlarkId := DocumentFrom(w, uuid, Some(createdAt))]
    {
      ghost var t := Current();
      var row := RowFrom(w, uuid, createdAt);
      documents := (documents - {x})[row.id := row];
      RewriteSideTables(x, row.documentUuid, w);
      assert Current() == WithDocument(WithoutDocument(t, x), row, AliasIds(row.id, w.info.superclassId),
        OutboundRefs(w.info));
      RewriteRefines(t, x, w, row);
      CommitTransaction();
    }

    method CheckUpsert(w: WriteRequest) returns (refusal: Option<UpsertResult>)
      requires Consistent(Current())
      ensures refusal == UpsertRefusal(View(Current()), w, WriteFailures(aliases, w))
    {
      var isInsert := w.meadowlarkId !in documents;
      if !isInsert && documents[w.meadowlarkId].lastModifiedAt >= w.info.requestTimestamp {
        return Some(UpsertFailureWriteConflict);
      }
      if isInsert && w.info.superclassId.Some? {
        var inUse := FindAlias(w.info.superclassId.value);
        if inUse {
          return Some(InsertFailureConflict);
        }
      }
      if w.validate {
        var failures := ValidateReferences(w.info);
        if |failures| > 0 {
          return Some(if isInsert then InsertFailureReference(failures) else UpsertFailureReference(failures));
        }
      }
      return None;
    }

    method WriteUpsert(w: WriteRequest, freshUuid: DocumentUuid) returns (result: UpsertResult)
      requires Valid() && savepoint.Some?
      requires w.meadowlarkId != NO_ID && freshUuid !in Uuids(Store())
      modifies this
      ensures Valid()
      ensures var (s, r) := WriteUpserted(old(Store()), w, freshUuid);
        Store() == s && result == r
    {
      var id := w.meadowlarkId;
      var isInsert := id !in documents;
      var documentUuid := if isInsert then freshUuid else documents[id].documentUuid;
      var createdAt := if isInsert then w.info.requestTimestamp else documents[id].createdAt;
      UpsertTarget(Current(), id, freshUuid);
      PutReplaces(Store(), DocumentFrom(w, documentUuid, Some(createdAt)));
      WriteAndCommit(id, w, documentUuid, createdAt);
      return if isInsert then InsertSuccess(documentUuid) else UpsertUpdateSuccess(documentUuid);
    }

    /** Every refusal but the stale one rolls back; the stale one leaves the transaction open. */
    method UpsertDocument(w: WriteRequest, freshUuid: DocumentUuid) returns (result: UpsertResult)
      requires Valid() && w.meadowlarkId != NO_ID && freshUuid !in Uuids(Store())
      modifies this
      ensures Valid()
      ensures var (s, r) := UpsertTransaction(old(Store()), w, freshUuid, WriteFailures(old(aliases), w));
        Store() == s && result == r
    {
      BeginTransaction();
      var refusal := CheckUpsert(w);
      if refusal.None? {
        result := WriteUpsert(w, freshUuid);
      } else {
        result := refusal.value;
        if !result.UpsertFailureWriteConflict? {
          RollbackTransaction();
        }
      }
    }

    method CheckUpdate(w: WriteRequest, found: Option<MeadowlarkId>) returns (refusal: Option<UpdateResult>)
      requires found.Some? ==> found.value in documents
      ensures refusal == UpdateRefusal(View(Current()), w, found, WriteFailures(aliases, w))
    {
      if found.None? {
        return Some(UpdateFailureNotExists);
      }
      var x := found.value;
      if documents[x].lastModifiedAt >= w.info.requestTimestamp {
        return Some(UpdateFailureWriteConflict);
      }
      if !w.allowIdentityUpdates && x != w.meadowlarkId {
        return Some(UpdateFailureImmutableIdentity);
      }
      if w.validate {
        var failures := ValidateReferences(w.info);
        if |failures| > 0 {
          return Some(UpdateFailureReference(failures));
        }
      }
      if x != w.meadowlarkId && w.meadowlarkId in documents {
        return Some(UpdateUnknownFailure);
      }
      return None;
    }

    method WriteUpdate(x: MeadowlarkId, w: WriteRequest, uuid: DocumentUuid)
      requires Valid() && savepoint.Some? && w.meadowlarkId != NO_ID
      requires x in documents && documents[x].documentUuid == uuid
      requires x != w.meadowlarkId ==> w.meadowlarkId !in documents
      modifies this
      ensures Valid()
      ensures x in old(Store()) && Store() ==
        (old(Store()) - {x})[w.meadowlarkId := DocumentFrom(w, uuid, old(Store())[x].createdAt)]
    {
      UpdateTarget(Current(), x);
      WriteAndCommit(x, w, uuid, documents[x].createdAt);
    }

    /** Only the reference failure and the exception of the unique index roll back. */
    method UpdateDocument(w: WriteRequest, uuid: DocumentUuid) returns (result: UpdateResult)
      requires Valid() && w.meadowlarkId != NO_ID
      modifies this
      ensures Valid()
      ensures var (s, r) := UpdateTransaction(old(Store()), w, uuid, WriteFailures(old(aliases), w));
        Store() == s && result == r
    {
      BeginTransaction();
      var found := FindByDocumentUuid(uuid);
      var refusal := CheckUpdate(w, found);
      if refusal.Some? {
        if refusal.value.UpdateFailureReference? || refusal.value.UpdateUnknownFailure? {
          RollbackTransaction();
        }
        return refusal.value;
      }
      WriteUpdate(found.value, w, uuid);
      return UpdateSuccess;
    }

    /** The count of the deleted rows decides between success and a missing document. */
    method DeleteDocumentRow(uuid: DocumentUuid) returns (result: DeleteResult)
      requires Consistent(Current())
      modifies this`documents
      ensures var found := FindByUuid(old(View(Current())), uuid);
        if found.None? then result == DeleteFailureNotExists && documents == old(documents)
        else result == DeleteSuccess && documents == old(documents) - {found.value}
    {
      var found := FindByDocumentUuid(uuid);
      if found.None? {
        return DeleteFailureNotExists;
      }
      documents := documents - {found.value};
      return DeleteSuccess;
    }

    /** The check before a delete. The branch that finds referring ids but no referring
        document is unreachable, so its answer is not among those promised. */
    method CheckDelete(meadowlarkId: MeadowlarkId, targets: seq<MeadowlarkId>) returns (refusal: Option<DeleteResult>)
      requires Consistent(Current()) && NO_ID !in documents
      requires meadowlarkId != NO_ID ==> meadowlarkId in documents && targets == View(Current())[meadowlarkId].aliasIds
      ensures refusal == if meadowlarkId == NO_ID then Some(DeleteFailureNotExists)
                         else if ReferencedByAnother(View(Current()), meadowlarkId) then Some(DeleteFailureReference)
                         else None
    {
      if meadowlarkId == NO_ID {
        return Some(DeleteFailureNotExists);
      }
      var referring := ParentsOf(references, targets);
      ParentsMeanReferenced(Current(), meadowlarkId);
      if exists p :: p in referring && p != meadowlarkId {
        var infos := set p | p in referring && p != meadowlarkId && p in documents;
        ghost var p :| p in referring && p != meadowlarkId;
        ParentsOfMember(references, targets, p);
        assert p in infos;
        return Some(if infos == {} then DeleteUnknownFailure else DeleteFailureReference);
      }
      return None;
    }

    /** The alias rows of the document: its id is read off the first. */
    method LookUp(uuid: DocumentUuid) returns (meadowlarkId: MeadowlarkId, targets: seq<MeadowlarkId>)
      requires Consistent(Current()) && NO_ID !in documents
      ensures FindByUuid(View(Current()), uuid) == if meadowlarkId == NO_ID then None else Some(meadowlarkId)
      ensures meadowlarkId != NO_ID ==> meadowlarkId in documents && targets == View(Current())[meadowlarkId].aliasIds
    {
      UuidQuery(Current(), uuid);
      var rows := RowsByUuid(aliases, uuid);
      meadowlarkId := if |rows| > 0 then rows[0].id else NO_ID;
      targets := AliasColumn(rows);
    }

    method DeleteDocument(uuid: DocumentUuid, validate: bool) returns (result: DeleteResult)
      requires Valid()
      modifies this
      ensures Valid()
      ensures var (s, r) := DeleteTransaction(old(Store()), uuid, validate);
        Store() == s && result == r
    {
      BeginTransaction();
      var meadowlarkId, targets := LookUp(uuid);
      var refusal := None;
      if validate {
        refusal := CheckDelete(meadowlarkId, targets);
      }
      if refusal.Some? {
        RollbackTransaction();
        return refusal.value;
      }
      NothingToDelete(Store());
      result := DeleteRows(uuid, meadowlarkId);
    }

    /** The three deletes. They run even if there is no such document, and then delete nothing. */
    method DeleteRows(uuid: DocumentUuid, meadowlarkId: MeadowlarkId) returns (result: DeleteResult)
      requires Valid()
      requires FindByUuid(Store(), uuid) == if meadowlarkId == NO_ID then None else Some(meadowlarkId)
      modifies this
      ensures Valid() && Store() == old(Store()) - {meadowlarkId}
      ensures result == if meadowlarkId == NO_ID then DeleteFailureNotExists else DeleteSuccess
    {
      ghost var t := Current();
      DeleteRefines(t, meadowlarkId);
      result := DeleteDocumentRow(uuid);
      references := DeleteReferences(references, meadowlarkId);
      aliases := DeleteAliases(aliases, meadowlarkId);
      assert t.documents - {NO_ID} == t.documents;
      assert Current() == WithoutDocument(t, meadowlarkId);
      CommitTransaction();
    }

    /** One request, and what validation answered to it. */
    method Serve(req: Request) returns (result: Result, ghost failures: seq<MissingIdentity>)
      requires Valid() && (!req.Delete? ==> req.write.meadowlarkId != NO_ID) && FreshUuids(req) !! Uuids(Store())
      modifies this
      ensures Valid()
      ensures failures == if req.Delete? then [] else WriteFailures(old(aliases), req.write)
      ensures var (s, r) := Serial.Serve(old(Store()), Serial.Event(req, failures));
        Store() == s && result == r
    {
      failures := if req.Delete? then [] else WriteFailures(aliases, req.write);
      match req {
        case Upsert(w, freshUuid) =>
          var r := UpsertDocument(w, freshUuid);
          result := Upserted(r);
        case Update(w, uuid, _) =>
          var r := UpdateDocument(w, uuid);
          result := Updated(r);
        case Delete(uuid, _, validate) =>
          var r := DeleteDocument(uuid, validate);
          result := Deleted(r);
      }
    }
  }

  // ----- Whole runs -----

  /** The events, answers and store of a run over `reqs`. */
  ghost predicate RunOf(reqs: seq<Request>, events: seq<Serial.Event>, results: seq<Result>, s: Store) {
    && Serial.Requests(events) == reqs && Serial.Validated(events)
    && s == Serial.After(events) && Answered(events, results)
  }

  ghost predicate Answered(events: seq<Serial.Event>, results: seq<Result>) {
    && |results| == |events|
    && forall j :: 0 <= j < |events| ==> results[j] == Serial.Serve(Serial.After(events[..j]), events[j]).1
  }

  lemma {:induction false} AnsweredOneMore(events: seq<Serial.Event>, results: seq<Result>, e: Serial.Event)
    requires Answered(events, results)
    ensures Answered(events + [e], results + [Serial.Serve(Serial.After(events), e).1])
  {
    var more := events + [e];
    forall j | 0 <= j < |more| ensures more[..j] == if j < |events| then events[..j] else events {
    }
  }

  lemma {:induction false} EventExpected(schema: Schema, t: Tables, events: seq<Serial.Event>, req: Request,
      failures: seq<MissingIdentity>)
    requires Consistent(t) && View(t) == Serial.After(events) && Serial.WellFormedEvents(schema, events)
    requires failures == if req.Delete? then [] else WriteFailures(t.aliases, req.write)
    ensures AliasDisjoint(View(t)) ==> failures == Serial.Expected(View(t), req)
  {
    Serial.RunKeepsIndexed(schema, events);
    if AliasDisjoint(View(t)) && !req.Delete? {
      ValidationIsExpected(schema, t, req);
    }
  }

  lemma {:induction false} RunOneMore(reqs: seq<Request>, events: seq<Serial.Event>, results: seq<Result>, s: Store,
      e: Serial.Event)
    requires RunOf(reqs, events, results, s)
    requires AliasDisjoint(s) ==> e.failures == Serial.Expected(s, e.request)
    ensures RunOf(reqs + [e.request], events + [e], results + [Serial.Serve(s, e).1], Serial.Serve(s, e).0)
  {
    Serial.ValidatedOneMore(events, e);
    AnsweredOneMore(events, results, e);
    assert Serial.Requests(events + [e]) == reqs + [e.request];
  }

  lemma {:induction false} NextOfRun(reqs: seq<Request>, i: nat, events: seq<Serial.Event>, results: seq<Result>,
      s: Store, e: Serial.Event)
    requires i < |reqs| && RunOf(reqs[..i], events, results, s) && e.request == reqs[i]
    requires AliasDisjoint(s) ==> e.failures == Serial.Expected(s, e.request)
    ensures RunOf(reqs[..i + 1], events + [e], results + [Serial.Serve(s, e).1], Serial.Serve(s, e).0)
  {
    RunOneMore(reqs[..i], events, results, s, e);
    assert reqs[..i] + [reqs[i]] == reqs[..i + 1];
  }

  /** The alias table holds the aliases that the ids of the documents imply, and nothing else. */
  ghost predicate AliasTableOf(schema: Schema, rows: seq<AliasRow>, s: Store) {
    forall a :: multiset(rows)[a] == AliasCount(schema, s, a)
  }

  /** The reference table holds the outbound references of the documents, and nothing else. */
  ghost predicate ReferenceTableOf(rows: seq<ReferenceRow>, s: Store) {
    forall r :: multiset(rows)[r] == ReferenceCount(s, r)
  }

  ghost function AliasCount(schema: Schema, s: Store, a: AliasRow): nat {
    if a.id in s && s[a.id].documentUuid == a.documentUuid
      then multiset(AliasIds(a.id, schema.superclassOf(a.id)))[a.alias] else 0
  }

  ghost function ReferenceCount(s: Store, r: ReferenceRow): nat {
    if r.parent in s then multiset(s[r.parent].outboundRefs)[r.referenced] else 0
  }

  lemma AliasRowCount(schema: Schema, t: Tables, a: AliasRow)
    requires Consistent(t) && Indexed(schema, View(t))
    ensures multiset(t.aliases)[a] == AliasCount(schema, View(t), a)
  {
    AliasRowsExact(t, a);
  }

  lemma TablesOfView(schema: Schema, t: Tables)
    requires Consistent(t) && Indexed(schema, View(t))
    ensures AliasTableOf(schema, t.aliases, View(t)) && ReferenceTableOf(t.references, View(t))
  {
    forall a ensures multiset(t.aliases)[a] == AliasCount(schema, View(t), a) {
      AliasRowCount(schema, t, a);
    }
    forall r ensures multiset(t.references)[r] == ReferenceCount(View(t), r) {
      ReferenceRowsExact(t, r);
    }
  }

  lemma {:induction false} StartOfRequest(schema: Schema, reqs: seq<Request>, i: nat, events: seq<Serial.Event>)
    requires WellFormedRun(schema, reqs) && i < |reqs| && Serial.Requests(events) == reqs[..i]
    ensures Serial.WellFormedEvents(schema, events)
    ensures FreshUuids(reqs[i]) !! Uuids(Serial.After(events))
  {
    Serial.RunKeepsUuids(schema, events);
    RunFresh(schema, reqs, i);
  }

  /** Main result: a backend that serves any sequence of requests, identity changes included,
      holds the documents of the serial run and has given its answers, validation has answered
      what the serial runs expect of it, and the side tables hold exactly the rows that the
      documents imply. */
  method ServeAll(ghost schema: Schema, reqs: seq<Request>)
    returns (backend: Backend, results: seq<Result>, ghost events: seq<Serial.Event>)
    requires WellFormedRun(schema, reqs)
    requires forall i :: 0 <= i < |reqs| && !reqs[i].Delete? ==> reqs[i].write.meadowlarkId != NO_ID
    ensures backend.Valid() && RunOf(reqs, events, results, backend.Store())
    ensures AliasTableOf(schema, backend.aliases, Serial.After(events))
    ensures ReferenceTableOf(backend.references, Serial.After(events))
  {
    backend := new Backend();
    results, events := [], [];
    for i := 0 to |reqs|
      invariant backend.Valid() && fresh(backend)
      invariant RunOf(reqs[..i], events, results, backend.Store())
    {
      ghost var t, s := backend.Current(), backend.Store();
      StartOfRequest(schema, reqs, i, events);
      var result, failures := backend.Serve(reqs[i]);
      EventExpected(schema, t, events, reqs[i], failures);
      NextOfRun(reqs, i, events, results, s, Serial.Event(reqs[i], failures));
      events, results := events + [Serial.Event(reqs[i], failures)], results + [result];
    }
    assert reqs[..|reqs|] == reqs;
    TablesOfRun(schema, backend.Current(), events);
  }

  lemma {:induction false} TablesOfRun(schema: Schema, t: Tables, events: seq<Serial.Event>)
    requires Consistent(t) && View(t) == Serial.After(events) && Serial.WellFormedEvents(schema, events)
    ensures AliasTableOf(schema, t.aliases, Serial.After(events))
    ensures ReferenceTableOf(t.references, Serial.After(events))
  {
    Serial.RunKeepsIndexed(schema, events);
    TablesOfView(schema, t);
  }
}
