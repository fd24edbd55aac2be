/** The MongoDB backend as the code runs it: queries, lock rows, and a transaction wrapper
    with retries, proved against the transaction functions. */
module MongoBackend {
  import opened Model
  import opened MongoValidation
  import opened MongoTransactions
  import opened MongoSerial
  import opened StoreChanges
  import ReferenceReport

  function WriteConflict(req: Request): Result {
    match req
    case Upsert(_, _) => Upserted(UpsertFailureWriteConflict)
    case Update(_, _, _) => Updated(UpdateFailureWriteConflict)
    case Delete(_, _, _) => Deleted(DeleteFailureWriteConflict)
  }

  /** The answer says that other transactions were in the way. */
  predicate SaysConflict(req: Request, result: Result) {
    && (req.Upsert? ==> result == Upserted(UpsertFailureWriteConflict))
    && (req.Update? ==> result == Updated(UpdateFailureWriteConflict))
    && (req.Delete? ==> result == Deleted(DeleteFailureWriteConflict))
  }

  /** `committed` is the durable collection; `session` is what the open transaction sees and
      writes; `concurrency` holds the lock rows of the open transaction. */
  class Backend {
    ghost const schema: Schema
    var committed: Store
    var session: Store
    var concurrency: set<DocumentUuid>

    ghost predicate Valid()
      reads this
    {
      Invariant(schema, committed) && session == committed && concurrency == {}
    }

    constructor (ghost schema: Schema)
      ensures Valid() && committed == map[] && this.schema == schema
    {
      this.schema := schema;
      committed, session, concurrency := map[], map[], {};
    }

    /** Inserts the rows one by one, then deletes them. The insert fails on a duplicate key. */
    method LockDocuments(rows: seq<DocumentUuid>) returns (inserted: bool)
      modifies this`concurrency
      ensures inserted <==>
              && (forall i, j :: 0 <= i < j < |rows| ==> rows[i] != rows[j])
              && (forall u :: u in rows ==> u !in old(concurrency))
      ensures inserted ==> concurrency == old(concurrency)
    {
      for i := 0 to |rows|
        invariant concurrency == old(concurrency) + set u | u in rows[..i]
        invariant forall j, k :: 0 <= j < k < i ==> rows[j] != rows[k]
        invariant forall u :: u in rows[..i] ==> u !in old(concurrency)
      {
        if rows[i] in concurrency {
          return false;
        }
        concurrency := concurrency + {rows[i]};
        assert rows[..i + 1] == rows[..i] + [rows[i]];
      }
      concurrency := concurrency - set u | u in rows;
      assert rows[..|rows|] == rows;
      return true;
    }

    /** The query for lock rows. It passes no session, so it reads the committed collection. */
    method FindOwners(refs: seq<MeadowlarkId>) returns (rows: seq<DocumentUuid>)
      requires UuidsDistinct(committed)
      ensures (set u | u in rows) == OwnerUuids(committed, refs)
      ensures forall i, j :: 0 <= i < j < |rows| ==> rows[i] != rows[j]
    {
      rows := [];
      var todo := Matching(committed, refs);
      while todo != {}
        invariant todo <= Matching(committed, refs)
        invariant forall u ::
          u in rows <==> exists x :: x in Matching(committed, refs) - todo && committed[x].documentUuid == u
        invariant forall i, j :: 0 <= i < j < |rows| ==> rows[i] != rows[j]
        decreases |todo|
      {
        var x :| x in todo;
        assert committed[x].documentUuid !in rows;
        rows := rows + [committed[x].documentUuid];
        todo := todo - {x};
      }
    }

    /** Locks the owners of `refs` together with the document to be written. */
    method LockForWrite(refs: seq<MeadowlarkId>, uuid: DocumentUuid) returns (inserted: bool)
      requires UuidsDistinct(committed) && concurrency == {}
      modifies this`concurrency
      ensures inserted <==> !LockFails(committed, refs, uuid)
      ensures inserted ==> concurrency == {}
    {
      var rows := FindOwners(refs);
      assert uuid in rows <==> uuid in OwnerUuids(committed, refs);
      inserted := LockDocuments(rows + [uuid]);
      if uuid in rows {
        var i :| 0 <= i < |rows| && rows[i] == uuid;
        assert (rows + [uuid])[i] == (rows + [uuid])[|rows|];
      }
    }

    method ValidateDocuments(refs: seq<DocumentReference>) returns (failures: seq<MissingIdentity>)
      ensures failures == DocumentFailures(session, refs)
    {
      failures := [];
      var ids := Targets(refs);
      var found := Matching(session, ids);
      if |ids| != |found| {
        failures := ReferenceReport.FindMissing(refs, MatchedAliases(session, ids).Values);
      }
    }

    method ValidateDescriptors(refs: seq<DocumentReference>) returns (failures: seq<MissingIdentity>)
      ensures failures == DescriptorFailures(session, refs)
    {
      failures := [];
      var ids := Targets(refs);
      var found := Matching(session, ids);
      if |ids| != |found| {
        failures := ReferenceReport.FindMissing(refs, found);
      }
    }

    /** MongoValidation.PassIff says which requests pass. */
    method ValidateReferences(info: DocumentInfo) returns (failures: seq<MissingIdentity>)
      ensures failures == Failures(session, info)
    {
      failures := ValidateDocuments(info.documentReferences);
      var descriptors := ValidateDescriptors(info.descriptorReferences);
      failures := failures + descriptors;
    }

    method FindOneByUuid(uuid: DocumentUuid) returns (found: Option<MeadowlarkId>)
      requires UuidsDistinct(session)
      ensures found == FindByUuid(session, uuid)
    {
      found := None;
      if x :| x in session && session[x].documentUuid == uuid {
        assert session[x].documentUuid in Uuids(session);
        found := Some(x);
      }
    }

    method CheckUpsert(w: WriteRequest, fromUpdate: bool) returns (refusal: Option<UpsertResult>)
      ensures refusal == UpsertRefusal(session, w, fromUpdate)
    {
      var isInsert := w.meadowlarkId !in session;
      if !isInsert && session[w.meadowlarkId].lastModifiedAt >= w.info.requestTimestamp {
        return Some(UpsertFailureWriteConflict);
      }
      if isInsert && w.info.superclassId.Some? {
        if Matching(session, [w.info.superclassId.value]) != {} {
          return Some(InsertFailureConflict);
        }
      }
      if !fromUpdate && w.validate {
        var failures := ValidateReferences(w.info);
        if |failures| > 0 {
          return Some(if isInsert then InsertFailureReference(failures) else UpsertFailureReference(failures));
        }
      }
      return None;
    }

    method UpsertDocumentTransaction(w: WriteRequest, freshUuid: DocumentUuid, fromUpdate: Option<Document>)
      returns (threw: bool, result: UpsertResult)
      requires UuidsDistinct(committed) && concurrency == {}
      modifies this`session, this`concurrency
      ensures var o := UpsertTransaction(committed, old(session), w, freshUuid, fromUpdate);
        session == o.store && threw == o.threw && result == o.result
      ensures !threw ==> concurrency == {}
    {
      var refusal := CheckUpsert(w, fromUpdate.Some?);
      if refusal.Some? {
        return false, refusal.value;
      }
      var isInsert := w.meadowlarkId !in session;
      var documentUuid := if isInsert then freshUuid else session[w.meadowlarkId].documentUuid;
      var createdAt := if isInsert || session[w.meadowlarkId].createdAt.None? then Some(w.info.requestTimestamp)
        else session[w.meadowlarkId].createdAt;
      var document := if fromUpdate.Some? then fromUpdate.value else DocumentFrom(w, documentUuid, createdAt);
      var locked := LockForWrite(document.outboundRefs, documentUuid);
      if !locked {
        return true, UpsertUnknownFailure;
      }
      threw := false;
      result := ReplaceOne(document, documentUuid);
    }

    /** `replaceOne` with upsert: the answer is read off the counts of inserted and modified documents. */
    method ReplaceOne(document: Document, uuid: DocumentUuid) returns (result: UpsertResult)
      modifies this`session
      ensures var o := Replace(old(session), {}, document, uuid);
        session == o.store && result == o.result
    {
      var upserted := document.id !in session;
      var modified := !upserted && session[document.id] != document;
      session := session[document.id := document];
      if upserted {
        result := InsertSuccess(uuid);
      } else if !modified {
        result := UpsertUnknownFailure;
      } else {
        result := UpsertUpdateSuccess(uuid);
      }
    }

    /** Any document refers to one of `aliases`. */
    method AnyReferences(aliases: seq<MeadowlarkId>) returns (any: bool)
      ensures any <==> exists y :: y in session && Intersects(session[y].outboundRefs, aliases)
    {
      any := exists y :: y in session && Intersects(session[y].outboundRefs, aliases);
    }

    method DeleteDocumentTransaction(uuid: DocumentUuid, validate: bool) returns (threw: bool, result: DeleteResult)
      requires UuidsDistinct(session) && concurrency == {}
      modifies this`session, this`concurrency
      ensures var o := DeleteTransaction(old(session), uuid, validate);
        session == o.store && threw == o.threw && result == o.result
      ensures concurrency == {}
    {
      var found := FindOneByUuid(uuid);
      if validate {
        if found.None? {
          return false, DeleteFailureNotExists;
        }
        var any := AnyReferences(session[found.value].aliasIds);
        if any {
          return false, DeleteFailureReference;
        }
      }
      var locked := LockDocuments([uuid]);
      if found.None? {
        return false, DeleteFailureNotExists;
      }
      session := session - {found.value};
      return false, DeleteSuccess;
    }

    method UpdateAllowingIdentityChange(w: WriteRequest, document: Document, freshUuid: DocumentUuid,
        ghost locks: set<DocumentUuid>) returns (threw: bool, result: UpdateResult)
      requires UuidsDistinct(committed) && UuidsDistinct(session) && concurrency == {}
      modifies this`session, this`concurrency
      ensures var o := ChangeIdentity(committed, old(session), w, document, locks, freshUuid);
        session == o.store && threw == o.threw && result == o.result
      ensures !threw ==> concurrency == {}
    {
      var deleteThrew, deleteResult := DeleteDocumentTransaction(document.documentUuid, true);
      match deleteResult {
        case DeleteSuccess =>
          var insertThrew, upsertResult := UpsertDocumentTransaction(w, freshUuid, Some(document));
          threw, result := insertThrew, UpdateResultOf(upsertResult);
        case DeleteFailureReference =>
          threw, result := false, UpdateCascadeRequired;
        case _ =>
          threw, result := false, UpdateUnknownFailure;
      }
    }

    method UpdateByReplacementOrMove(w: WriteRequest, uuid: DocumentUuid, freshUuid: DocumentUuid,
        ghost locks: set<DocumentUuid>) returns (threw: bool, result: UpdateResult)
      requires UuidsDistinct(committed) && UuidsDistinct(session) && concurrency == {}
      modifies this`session, this`concurrency
      ensures var o := ReplaceOrMove(committed, old(session), w, uuid, locks, freshUuid);
        session == o.store && threw == o.threw && result == o.result
      ensures !threw ==> concurrency == {}
    {
      var document := DocumentFrom(w, uuid, None);
      if UpdateMatches(session, w, uuid) {
        session := session[w.meadowlarkId := SetFields(session[w.meadowlarkId], document)];
        return false, UpdateSuccess;
      }
      var found := FindOneByUuid(uuid);
      if found.None? {
        return false, UpdateFailureNotExists;
      }
      if session[found.value].lastModifiedAt >= w.info.requestTimestamp {
        return false, UpdateFailureWriteConflict;
      }
      if !w.allowIdentityUpdates {
        return false, UpdateFailureImmutableIdentity;
      }
      document := document.(createdAt := session[found.value].createdAt);
      threw, result := UpdateAllowingIdentityChange(w, document, freshUuid, locks);
    }

    method UpdateDocumentTransaction(w: WriteRequest, uuid: DocumentUuid, freshUuid: DocumentUuid)
      returns (threw: bool, result: UpdateResult)
      requires UuidsDistinct(committed) && UuidsDistinct(session) && concurrency == {}
      modifies this`session, this`concurrency
      ensures var o := UpdateTransaction(committed, committed, old(session), w, uuid, freshUuid);
        session == o.store && threw == o.threw && result == o.result
      ensures !threw ==> concurrency == {}
    {
      if w.validate {
        var failures := ValidateReferences(w.info);
        if |failures| > 0 {
          return false, UpdateFailureReference(failures);
        }
      }
      var refs := OutboundRefs(w.info);
      var locked := LockForWrite(refs, uuid);
      if !locked {
        return true, UpdateUnknownFailure;
      }
      threw, result := UpdateByReplacementOrMove(w, uuid, freshUuid, OwnerUuids(committed, refs) + {uuid});
    }

    method RunTransaction(req: Request) returns (threw: bool, result: Result)
      requires UuidsDistinct(committed) && session == committed && concurrency == {}
      modifies this`session, this`concurrency
      ensures var o := Transaction(committed, committed, committed, req);
        session == o.store && threw == o.threw && result == o.result
      ensures !threw ==> concurrency == {}
    {
      match req {
        case Upsert(w, freshUuid) =>
          var t, r := UpsertDocumentTransaction(w, freshUuid, None);
          threw, result := t, Upserted(r);
        case Update(w, uuid, freshUuid) =>
          var t, r := UpdateDocumentTransaction(w, uuid, freshUuid);
          threw, result := t, Updated(r);
        case Delete(uuid, _, validate) =>
          var t, r := DeleteDocumentTransaction(uuid, validate);
          threw, result := t, Deleted(r);
      }
    }

    method AbortTransaction()
      modifies this`session, this`concurrency
      ensures session == committed && concurrency == {}
    {
      session, concurrency := committed, {};
    }

    /** One run of the transaction: committed if it succeeds, aborted otherwise. */
    method Attempt(req: Request) returns (threw: bool, result: Result)
      requires Valid() && WellFormed(schema, req) && FreshUuids(req) !! Uuids(committed)
      modifies this`committed, this`session, this`concurrency
      ensures Valid()
      ensures var o := Transaction(old(committed), old(committed), old(committed), req);
        && threw == o.threw && result == o.result
        && committed == if Succeeded(result) then o.store else old(committed)
      ensures threw ==> !Succeeded(result)
    {
      ServeKeepsInvariant(schema, committed, req);
      ThrowsMeansFails(committed, req);
      threw, result := RunTransaction(req);
      if !threw && Succeeded(result) {
        committed := session;
      } else {
        AbortTransaction();
      }
    }

    /** Other transactions commit while no attempt of this request is running, or make the
        running one fail. */
    method OthersCommit(next: Store)
      requires Invariant(schema, next)
      modifies this`committed, this`session, this`concurrency
      ensures Valid() && committed == next
    {
      committed, session, concurrency := next, next, {};
    }

    /** The retry wrapper the three entry points share. Attempt `i` starts on the collection
        `env[i]`. If it is hit by a write conflict (`interference[i]`) or raises an exception,
        others leave `env[i + 1]`. The first attempt that does neither decides: the collection
        ends with that one transaction laid on what it started from, or as the others left it. */
    method Execute(req: Request, retries: nat, interference: seq<bool>, env: seq<Store>)
      returns (result: Result, attempts: nat, commits: nat)
      requires Valid() && WellFormed(schema, req)
      requires |interference| == retries + 1 && |env| == retries + 2 && env[0] == committed
      requires forall i :: 0 <= i < |env| ==> Invariant(schema, env[i]) && FreshUuids(req) !! Uuids(env[i])
      modifies this`committed, this`session, this`concurrency
      ensures Valid()
      ensures commits <= 1 && (commits == 1 <==> Succeeded(result))
      ensures var k := Deciding(Spoilt(req, interference, env), 0);
        if k <= retries then
          var o := Transaction(env[k], env[k], env[k], req);
          && attempts == k + 1 && result == o.result
          && committed == if Succeeded(result) then o.store else env[k]
        else
          && attempts == retries + 1 && !Succeeded(result) && committed == env[retries + 1]
          && (if interference[retries] then SaysConflict(req, result)
              else result == Transaction(env[retries], env[retries], env[retries], req).result)
    {
      attempts, commits := 0, 0;
      ghost var spoilt := Spoilt(req, interference, env);
      while true
        invariant attempts <= retries && commits == 0
        invariant Valid() && committed == env[attempts]
        invariant Deciding(spoilt, 0) == Deciding(spoilt, attempts)
        decreases retries - attempts
      {
        var threw := true;
        if interference[attempts] {
          result := WriteConflict(req);
        } else {
          threw, result := Attempt(req);
          if Succeeded(result) {
            commits := commits + 1;
          }
        }
        attempts := attempts + 1;
        if !threw {
          return;
        }
        OthersCommit(env[attempts]);
        if attempts == retries + 1 {
          return;
        }
      }
    }
  }

  ghost predicate Throws(s: Store, req: Request) {
    Transaction(s, s, s, req).threw
  }

  /** The attempts that meet a write conflict or raise an exception. */
  ghost function Spoilt(req: Request, interference: seq<bool>, env: seq<Store>): (spoilt: seq<bool>)
    requires |interference| <= |env|
    ensures |spoilt| == |interference|
    ensures forall i :: 0 <= i < |spoilt| ==> spoilt[i] == (interference[i] || Throws(env[i], req))
  {
    seq(|interference|, i requires 0 <= i < |interference| => interference[i] || Throws(env[i], req))
  }

  /** The first attempt, from `i` on, that is not spoilt. */
  function Deciding(spoilt: seq<bool>, i: nat): (k: nat)
    requires i <= |spoilt|
    ensures i <= k <= |spoilt| && (k < |spoilt| ==> !spoilt[k])
    ensures forall j :: i <= j < k ==> spoilt[j]
    decreases |spoilt| - i
  {
    if i == |spoilt| || !spoilt[i] then i else Deciding(spoilt, i + 1)
  }

  lemma ThrowsMeansFails(s: Store, req: Request)
    ensures Transaction(s, s, s, req).threw ==> !Succeeded(Transaction(s, s, s, req).result)
  {
    match req
    case Upsert(w, freshUuid) =>
    case Update(w, uuid, freshUuid) => UpdateThrowsMeansFails(s, w, uuid, freshUuid);
    case Delete(uuid, _, validate) =>
  }

  lemma UpdateThrowsMeansFails(s: Store, w: WriteRequest, uuid: DocumentUuid, freshUuid: DocumentUuid)
    ensures var o := UpdateTransaction(s, s, s, w, uuid, freshUuid);
      o.threw ==> !o.result.UpdateSuccess?
  {
    var found := FindByUuid(s, uuid);
    if found.Some? {
      ChangeThrowsMeansFails(s, w, DocumentFrom(w, uuid, s[found.value].createdAt),
        OwnerUuids(s, OutboundRefs(w.info)) + {uuid}, freshUuid);
    }
  }

  lemma ChangeThrowsMeansFails(s: Store, w: WriteRequest, d: Document, locks: set<DocumentUuid>,
      freshUuid: DocumentUuid)
    ensures var o := ChangeIdentity(s, s, w, d, locks, freshUuid);
      o.threw ==> !o.result.UpdateSuccess?
  {
  }
}
