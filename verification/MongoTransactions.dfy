/** What one MongoDB transaction does to the documents it sees.

    `s` is the collection as the session sees it. The two queries for lock rows pass no
    session, so they read the committed collection of the moment instead: `first` and
    `second` are those views. In a serial run both are `s` as it was when the transaction began. */
module MongoTransactions {
  import opened Model
  import opened MongoValidation

  /** `locks` are the rows written to the concurrency collection. `threw` means that the
      transaction function raised an exception instead of returning. */
  datatype Outcome<R> = Outcome(store: Store, locks: set<DocumentUuid>, threw: bool, result: R)

  /** The uuids of the documents that answer to any of `refs`. */
  function OwnerUuids(view: Store, refs: seq<MeadowlarkId>): set<DocumentUuid> {
    set x | x in Matching(view, refs) :: view[x].documentUuid
  }

  /** `lockDocuments` inserts a row for each owner and one for the document written. The row
      key is unique, so the insert fails if the document written is itself an owner. */
  predicate LockFails(view: Store, refs: seq<MeadowlarkId>, uuid: DocumentUuid) {
    uuid in OwnerUuids(view, refs)
  }

  function WriteFailures(s: Store, w: WriteRequest): seq<MissingIdentity> {
    if w.validate then Failures(s, w.info) else []
  }

  /** `replaceOne` with upsert, and the reading of its counts. */
  function Replace(s: Store, locks: set<DocumentUuid>, document: Document, uuid: DocumentUuid): Outcome<UpsertResult> {
    Outcome(s[document.id := document], locks, false,
            if document.id !in s then InsertSuccess(uuid)
            else if s[document.id] == document then UpsertUnknownFailure
            else UpsertUpdateSuccess(uuid))
  }

  /** The checks before an upsert writes, in order. An update has validated already. */
  function UpsertRefusal(s: Store, w: WriteRequest, fromUpdate: bool): Option<UpsertResult> {
    var isInsert := w.meadowlarkId !in s;
    var failures := if fromUpdate then [] else WriteFailures(s, w);
    if !isInsert && s[w.meadowlarkId].lastModifiedAt >= w.info.requestTimestamp then Some(UpsertFailureWriteConflict)
    else if isInsert && w.info.superclassId.Some? && Matching(s, [w.info.superclassId.value]) != {}
      then Some(InsertFailureConflict)
    else if failures != []
      then Some(if isInsert then InsertFailureReference(failures) else UpsertFailureReference(failures))
    else None
  }

  /** The writing half of an upsert. */
  function LockAndReplace(view: Store, s: Store, w: WriteRequest, freshUuid: DocumentUuid,
      fromUpdate: Option<Document>): Outcome<UpsertResult>
  {
    var isInsert := w.meadowlarkId !in s;
    var uuid := if isInsert then freshUuid else s[w.meadowlarkId].documentUuid;
    var createdAt := if isInsert || s[w.meadowlarkId].createdAt.None? then Some(w.info.requestTimestamp)
      else s[w.meadowlarkId].createdAt;
    var document := if fromUpdate.Some? then fromUpdate.value else DocumentFrom(w, uuid, createdAt);
    if LockFails(view, document.outboundRefs, uuid) then
      Outcome(s, {}, true, UpsertUnknownFailure)
    else
      Replace(s, OwnerUuids(view, document.outboundRefs) + {uuid}, document, uuid)
  }

  /** `upsertDocumentTransaction`. `fromUpdate` is the document of an update that re-inserts. */
  function UpsertTransaction(view: Store, s: Store, w: WriteRequest, freshUuid: DocumentUuid,
      fromUpdate: Option<Document>): Outcome<UpsertResult>
  {
    var refusal := UpsertRefusal(s, w, fromUpdate.Some?);
    if refusal.Some? then Outcome(s, {}, false, refusal.value)
    else LockAndReplace(view, s, w, freshUuid, fromUpdate)
  }

  /** `deleteDocumentByMeadowlarkIdTransaction` */
  ghost function DeleteTransaction(s: Store, uuid: DocumentUuid, validate: bool): Outcome<DeleteResult> {
    var found := FindByUuid(s, uuid);
    if found.None? then
      Outcome(s, if validate then {} else {uuid}, false, DeleteFailureNotExists)
    else if validate && !Unreferenced(s, found.value) then
      Outcome(s, {}, false, DeleteFailureReference)
    else
      Outcome(s - {found.value}, {uuid}, false, DeleteSuccess)
  }

  /** The `$set` of `tryUpdateByReplacement`: the creator and the creation time stay. The
      filter has already matched the id. */
  function SetFields(stored: Document, document: Document): Document {
    document.(documentUuid := stored.documentUuid, createdBy := stored.createdBy, createdAt := stored.createdAt)
  }

  /** `updateOne` finds a document with this id, this uuid and an older modification time. */
  predicate UpdateMatches(s: Store, w: WriteRequest, uuid: DocumentUuid) {
    && w.meadowlarkId in s
    && s[w.meadowlarkId].documentUuid == uuid
    && s[w.meadowlarkId].lastModifiedAt < w.info.requestTimestamp
  }

  function UpdateResultOf(r: UpsertResult): UpdateResult {
    match r
    case InsertSuccess(_) => UpdateSuccess
    case UpsertUpdateSuccess(_) => UpdateSuccess
    case InsertFailureReference(f) => UpdateFailureReference(f)
    case UpsertFailureReference(f) => UpdateFailureReference(f)
    case InsertFailureConflict => UpdateFailureConflict
    case UpsertFailureWriteConflict => UpdateUnknownFailure
    case UpsertUnknownFailure => UpdateUnknownFailure
  }

  /** The delete and re-insert of `updateAllowingIdentityChange`. */
  ghost function ChangeIdentity(second: Store, s: Store, w: WriteRequest, document: Document, locks: set<DocumentUuid>,
      freshUuid: DocumentUuid): Outcome<UpdateResult>
  {
    var deletion := DeleteTransaction(s, document.documentUuid, true);
    match deletion.result
    case DeleteSuccess =>
      var insertion := UpsertTransaction(second, deletion.store, w, freshUuid, Some(document));
      Outcome(insertion.store, locks + deletion.locks + insertion.locks, insertion.threw,
        UpdateResultOf(insertion.result))
    case DeleteFailureReference => Outcome(s, locks, false, UpdateCascadeRequired)
    case _ => Outcome(s, locks, false, UpdateUnknownFailure)
  }

  /** `updateAllowingIdentityChange` and `updateDisallowingIdentityChange`, once the lock rows are written. */
  ghost function ReplaceOrMove(second: Store, s: Store, w: WriteRequest, uuid: DocumentUuid, locks: set<DocumentUuid>,
      freshUuid: DocumentUuid): Outcome<UpdateResult>
  {
    var document := DocumentFrom(w, uuid, None);
    if UpdateMatches(s, w, uuid) then
      Outcome(s[w.meadowlarkId := SetFields(s[w.meadowlarkId], document)], locks, false, UpdateSuccess)
    else
      var found := FindByUuid(s, uuid);
      if found.None? then
        Outcome(s, locks, false, UpdateFailureNotExists)
      else if s[found.value].lastModifiedAt >= w.info.requestTimestamp then
        Outcome(s, locks, false, UpdateFailureWriteConflict)
      else if !w.allowIdentityUpdates then
        Outcome(s, locks, false, UpdateFailureImmutableIdentity)
      else
        ChangeIdentity(second, s, w, document.(createdAt := s[found.value].createdAt), locks, freshUuid)
  }

  /** `updateDocumentByDocumentUuidTransaction` */
  ghost function UpdateTransaction(first: Store, second: Store, s: Store, w: WriteRequest, uuid: DocumentUuid,
      freshUuid: DocumentUuid): Outcome<UpdateResult>
  {
    var failures := WriteFailures(s, w);
    var refs := OutboundRefs(w.info);
    if failures != [] then
      Outcome(s, {}, false, UpdateFailureReference(failures))
    else if LockFails(first, refs, uuid) then
      Outcome(s, {}, true, UpdateUnknownFailure)
    else
      ReplaceOrMove(second, s, w, uuid, OwnerUuids(first, refs) + {uuid}, freshUuid)
  }

  function Wrap<R>(o: Outcome<R>, result: Result): Outcome<Result> {
    Outcome(o.store, o.locks, o.threw, result)
  }

  ghost function Transaction(first: Store, second: Store, s: Store, req: Request): Outcome<Result> {
    match req
    case Upsert(w, freshUuid) =>
      var o := UpsertTransaction(first, s, w, freshUuid, None); Wrap(o, Upserted(o.result))
    case Update(w, uuid, freshUuid) =>
      var o := UpdateTransaction(first, second, s, w, uuid, freshUuid); Wrap(o, Updated(o.result))
    case Delete(uuid, _, validate) =>
      var o := DeleteTransaction(s, uuid, validate); Wrap(o, Deleted(o.result))
  }

  // ----- Facts about one successful transaction -----

  /** The uuid under which a document with this id is or would be stored. */
  function WrittenUuid(s: Store, id: MeadowlarkId, freshUuid: DocumentUuid): DocumentUuid {
    if id in s then s[id].documentUuid else freshUuid
  }

  /** The ids whose entry differs between two stores. */
  function Changed(s: Store, s': Store): set<MeadowlarkId> {
    set x | x in s.Keys + s'.Keys && !(x in s && x in s' && s[x] == s'[x])
  }

  /** A sessionless view that agrees with the session on every document the transaction overwrites. */
  ghost predicate Agrees(view: Store, s: Store, s': Store) {
    forall x :: x in s && x in Changed(s, s') ==> x in view && view[x] == s[x]
  }

  predicate ValidatingDelete(req: Request) {
    req.Delete? ==> req.validateNoReferences
  }

  /** Every document removed or overwritten, and every document written, is locked. */
  ghost predicate LocksWrites(schema: Schema, s: Store, s': Store, locks: set<DocumentUuid>) {
    && (forall x :: x in Changed(s, s') && x in s ==> s[x].documentUuid in locks)
    && (forall x :: x in Changed(s, s') && x in s' ==> s'[x].documentUuid in locks)
    && Indexed(schema, s')
  }

  /** A transaction writes at most one document. */
  ghost predicate WritesOne(s: Store, s': Store) {
    forall y, z :: y in Changed(s, s') && z in Changed(s, s') && y in s' && z in s' ==> y == z
  }

  /** What every successful transaction guarantees about the documents it wrote and removed:
      it locks them, and a validated one had its references resolved when it began. */
  ghost predicate Disciplined(schema: Schema, s: Store, s': Store, locks: set<DocumentUuid>) {
    && LocksWrites(schema, s, s', locks)
    && (forall x :: x in Changed(s, s') && x in s' && s'[x].validated ==> AllResolve(s, s'[x].outboundRefs))
  }

  /** Nobody, before or after, refers to an alias of a document that was removed. */
  ghost predicate RemovesUnreferenced(s: Store, s': Store) {
    forall x :: x in s && x !in s' ==>
      Unreferenced(s, x) && forall y :: y in s' ==> !Intersects(s'[y].outboundRefs, s[x].aliasIds)
  }

  lemma PutLocks(schema: Schema, s: Store, d: Document, locks: set<DocumentUuid>)
    requires Indexed(schema, s)
    requires Concrete(schema, d.id) && d.aliasIds == AliasIds(d.id, schema.superclassOf(d.id))
    requires d.documentUuid in locks
    requires d.id in s ==> s[d.id].documentUuid in locks
    ensures LocksWrites(schema, s, s[d.id := d], locks)
    ensures Changed(s, s[d.id := d]) <= {d.id}
  {
    var s' := s[d.id := d];
    forall x | x in s'
      ensures s'[x].id == x && Concrete(schema, x) && s'[x].aliasIds == AliasIds(x, schema.superclassOf(x))
    {
    }
  }

  /** Writing one locked, well-indexed document whose references resolve if it is validated. */
  lemma PutDisciplined(schema: Schema, s: Store, d: Document, locks: set<DocumentUuid>)
    requires Indexed(schema, s)
    requires Concrete(schema, d.id) && d.aliasIds == AliasIds(d.id, schema.superclassOf(d.id))
    requires d.documentUuid in locks
    requires d.id in s ==> s[d.id].documentUuid in locks
    requires d.validated ==> AllResolve(s, d.outboundRefs)
    ensures Disciplined(schema, s, s[d.id := d], locks)
    ensures Changed(s, s[d.id := d]) <= {d.id}
  {
    PutLocks(schema, s, d, locks);
  }

  /** A write that passed validation has its references resolved. */
  lemma PassedMeansResolved(schema: Schema, s: Store, w: WriteRequest)
    requires Indexed(schema, s) && AliasDisjoint(s)
    requires WriteFailures(s, w) == []
    ensures w.validate ==> AllResolve(s, OutboundRefs(w.info))
  {
    if w.validate {
      NoFailuresMeansResolved(s, w.info);
    }
  }

  lemma UpsertDisciplined(schema: Schema, view: Store, s: Store, w: WriteRequest, freshUuid: DocumentUuid)
    requires Indexed(schema, s) && AliasDisjoint(s) && WellFormedWrite(schema, w)
    requires Succeeded(Upserted(UpsertTransaction(view, s, w, freshUuid, None).result))
    ensures var o := UpsertTransaction(view, s, w, freshUuid, None);
      && Disciplined(schema, s, o.store, o.locks)
      && RemovesUnreferenced(s, o.store)
  {
    var o := UpsertTransaction(view, s, w, freshUuid, None);
    PassedMeansResolved(schema, s, w);
    PutDisciplined(schema, s, o.store[w.meadowlarkId], o.locks);
  }

  lemma DeleteDisciplined(schema: Schema, s: Store, uuid: DocumentUuid, validate: bool)
    requires Indexed(schema, s)
    requires DeleteTransaction(s, uuid, validate).result.DeleteSuccess?
    ensures var o := DeleteTransaction(s, uuid, validate);
      && Disciplined(schema, s, o.store, o.locks)
      && (validate ==> RemovesUnreferenced(s, o.store))
  {
  }

  lemma ReplacementDisciplined(schema: Schema, first: Store, second: Store, s: Store, w: WriteRequest,
      uuid: DocumentUuid, freshUuid: DocumentUuid)
    requires Indexed(schema, s) && AliasDisjoint(s) && WellFormedWrite(schema, w)
    requires UpdateMatches(s, w, uuid)
    requires UpdateTransaction(first, second, s, w, uuid, freshUuid).result.UpdateSuccess?
    ensures var o := UpdateTransaction(first, second, s, w, uuid, freshUuid);
      && Disciplined(schema, s, o.store, o.locks)
      && RemovesUnreferenced(s, o.store)
  {
    var o := UpdateTransaction(first, second, s, w, uuid, freshUuid);
    PassedMeansResolved(schema, s, w);
    PutDisciplined(schema, s, o.store[w.meadowlarkId], o.locks);
  }

  /** The old document at `x` is removed, unreferenced, and `d` is written under its own id. */
  ghost predicate Moves(s: Store, s': Store, locks: set<DocumentUuid>, x: MeadowlarkId, d: Document) {
    && x in s && x != d.id && s[x].documentUuid == d.documentUuid
    && Unreferenced(s, x)
    && s' == (s - {x})[d.id := d]
    && d.documentUuid in locks
    && (d.id in s ==> s[d.id].documentUuid in locks && s[d.id].lastModifiedAt < d.lastModifiedAt)
  }

  lemma ChangeIdentityMoves(second: Store, s: Store, w: WriteRequest, d: Document, locks: set<DocumentUuid>,
      freshUuid: DocumentUuid)
    requires d.id == w.meadowlarkId && d.lastModifiedAt == w.info.requestTimestamp
    requires ChangeIdentity(second, s, w, d, locks, freshUuid).result.UpdateSuccess?
    requires FindByUuid(s, d.documentUuid) != Some(d.id)
    ensures FindByUuid(s, d.documentUuid).Some?
    ensures var o := ChangeIdentity(second, s, w, d, locks, freshUuid);
      Moves(s, o.store, o.locks, FindByUuid(s, d.documentUuid).value, d)
  {
    var found := FindByUuid(s, d.documentUuid);
    var deletion := DeleteTransaction(s, d.documentUuid, true);
    assert deletion.result.DeleteSuccess?;
    var insertion := UpsertTransaction(second, deletion.store, w, freshUuid, Some(d));
    assert insertion.store == deletion.store[d.id := d];
  }

  lemma IdentityChangeMoves(first: Store, second: Store, s: Store, w: WriteRequest, uuid: DocumentUuid,
      freshUuid: DocumentUuid) returns (x: MeadowlarkId)
    requires !UpdateMatches(s, w, uuid)
    requires UpdateTransaction(first, second, s, w, uuid, freshUuid).result.UpdateSuccess?
    ensures FindByUuid(s, uuid) == Some(x)
    ensures var o := UpdateTransaction(first, second, s, w, uuid, freshUuid);
      Moves(s, o.store, o.locks, x, DocumentFrom(w, uuid, s[x].createdAt))
    ensures WriteFailures(s, w) == [] && !LockFails(first, OutboundRefs(w.info), uuid)
    ensures w.allowIdentityUpdates && s[x].lastModifiedAt < w.info.requestTimestamp
  {
    x := FindByUuid(s, uuid).value;
    var locks := OwnerUuids(first, OutboundRefs(w.info)) + {uuid};
    ChangeIdentityMoves(second, s, w, DocumentFrom(w, uuid, s[x].createdAt), locks, freshUuid);
  }

  lemma MoveDisciplined(schema: Schema, s: Store, s': Store, locks: set<DocumentUuid>, x: MeadowlarkId, d: Document)
    requires Indexed(schema, s) && Moves(s, s', locks, x, d)
    requires Concrete(schema, d.id) && d.aliasIds == AliasIds(d.id, schema.superclassOf(d.id))
    requires d.validated ==> AllResolve(s, d.outboundRefs)
    requires !Intersects(d.outboundRefs, s[x].aliasIds)
    ensures Disciplined(schema, s, s', locks) && RemovesUnreferenced(s, s')
    ensures x in Changed(s, s')
  {
    PutDisciplined(schema, s, d, locks);
    assert Changed(s, s') <= {x, d.id};
  }

  lemma IdentityChangeDisciplined(schema: Schema, first: Store, second: Store, s: Store, w: WriteRequest,
      uuid: DocumentUuid, freshUuid: DocumentUuid)
    requires Indexed(schema, s) && AliasDisjoint(s) && WellFormedWrite(schema, w)
    requires !UpdateMatches(s, w, uuid)
    requires UpdateTransaction(first, second, s, w, uuid, freshUuid).result.UpdateSuccess?
    requires Agrees(first, s, UpdateTransaction(first, second, s, w, uuid, freshUuid).store)
    ensures var o := UpdateTransaction(first, second, s, w, uuid, freshUuid);
      && Disciplined(schema, s, o.store, o.locks)
      && RemovesUnreferenced(s, o.store)
  {
    var o := UpdateTransaction(first, second, s, w, uuid, freshUuid);
    var x := IdentityChangeMoves(first, second, s, w, uuid, freshUuid);
    var d := DocumentFrom(w, uuid, s[x].createdAt);
    PassedMeansResolved(schema, s, w);
    assert x in Changed(s, o.store);
    assert Intersects(d.outboundRefs, s[x].aliasIds) ==> x in Matching(first, d.outboundRefs);
    MoveDisciplined(schema, s, o.store, o.locks, x, d);
  }

  /** Every successful transaction, of any kind, locks what it touches, resolves what it
      validates, and removes only what nobody refers to. */
  lemma TransactionDisciplined(schema: Schema, first: Store, second: Store, s: Store, req: Request)
    requires Indexed(schema, s) && AliasDisjoint(s) && WellFormed(schema, req)
    requires Succeeded(Transaction(first, second, s, req).result)
    requires Agrees(first, s, Transaction(first, second, s, req).store)
    ensures var o := Transaction(first, second, s, req);
      && Disciplined(schema, s, o.store, o.locks)
      && (ValidatingDelete(req) ==> RemovesUnreferenced(s, o.store))
  {
    match req
    case Upsert(w, freshUuid) => UpsertDisciplined(schema, first, s, w, freshUuid);
    case Update(w, uuid, freshUuid) =>
      if UpdateMatches(s, w, uuid) {
        ReplacementDisciplined(schema, first, second, s, w, uuid, freshUuid);
      } else {
        IdentityChangeDisciplined(schema, first, second, s, w, uuid, freshUuid);
      }
    case Delete(uuid, _, validate) => DeleteDisciplined(schema, s, uuid, validate);
  }

  lemma MoveLocks(schema: Schema, s: Store, s': Store, locks: set<DocumentUuid>, x: MeadowlarkId, d: Document)
    requires Indexed(schema, s) && Moves(s, s', locks, x, d)
    requires Concrete(schema, d.id) && d.aliasIds == AliasIds(d.id, schema.superclassOf(d.id))
    ensures LocksWrites(schema, s, s', locks) && WritesOne(s, s')
  {
    PutLocks(schema, s, d, locks);
    assert Changed(s, s') <= {x, d.id};
  }

  /** Every successful transaction locks what it touches and writes at most one document,
      whether or not aliases are disjoint. */
  lemma TransactionLocks(schema: Schema, first: Store, second: Store, s: Store, req: Request)
    requires Indexed(schema, s) && WellFormed(schema, req)
    requires Succeeded(Transaction(first, second, s, req).result)
    ensures var o := Transaction(first, second, s, req);
      LocksWrites(schema, s, o.store, o.locks) && WritesOne(s, o.store)
  {
    match req
    case Upsert(w, freshUuid) => UpsertLocks(schema, first, s, w, freshUuid);
    case Update(w, uuid, freshUuid) => UpdateLocks(schema, first, second, s, w, uuid, freshUuid);
    case Delete(uuid, _, validate) =>
  }

  lemma UpsertLocks(schema: Schema, view: Store, s: Store, w: WriteRequest, freshUuid: DocumentUuid)
    requires Indexed(schema, s) && WellFormedWrite(schema, w)
    requires Succeeded(Upserted(UpsertTransaction(view, s, w, freshUuid, None).result))
    ensures var o := UpsertTransaction(view, s, w, freshUuid, None);
      LocksWrites(schema, s, o.store, o.locks) && WritesOne(s, o.store)
  {
    var d, locks := UpsertPuts(view, s, w, freshUuid);
    PutLocks(schema, s, d, locks);
  }

  /** An upsert writes one document, and locks it and the one it replaces, under one uuid. */
  lemma UpsertPuts(view: Store, s: Store, w: WriteRequest, freshUuid: DocumentUuid)
    returns (d: Document, locks: set<DocumentUuid>)
    requires Succeeded(Upserted(UpsertTransaction(view, s, w, freshUuid, None).result))
    ensures var o := UpsertTransaction(view, s, w, freshUuid, None);
      o.store == s[d.id := d] && o.locks == locks
    ensures d.id == w.meadowlarkId && d.aliasIds == AliasIds(w.meadowlarkId, w.info.superclassId)
    ensures d.documentUuid in locks && (d.id in s ==> s[d.id].documentUuid == d.documentUuid)
  {
    var o := UpsertTransaction(view, s, w, freshUuid, None);
    d, locks := o.store[w.meadowlarkId], o.locks;
  }

  lemma UpdateLocks(schema: Schema, first: Store, second: Store, s: Store, w: WriteRequest, uuid: DocumentUuid,
      freshUuid: DocumentUuid)
    requires Indexed(schema, s) && WellFormedWrite(schema, w)
    requires UpdateTransaction(first, second, s, w, uuid, freshUuid).result.UpdateSuccess?
    ensures var o := UpdateTransaction(first, second, s, w, uuid, freshUuid);
      LocksWrites(schema, s, o.store, o.locks) && WritesOne(s, o.store)
  {
    var o := UpdateTransaction(first, second, s, w, uuid, freshUuid);
    if UpdateMatches(s, w, uuid) {
      PutLocks(schema, s, o.store[w.meadowlarkId], o.locks);
    } else {
      var x := IdentityChangeMoves(first, second, s, w, uuid, freshUuid);
      MoveLocks(schema, s, o.store, o.locks, x, DocumentFrom(w, uuid, s[x].createdAt));
    }
  }

  /** Whatever document a transaction writes carries the references of its request. */
  lemma WritesRequestRefs(first: Store, second: Store, s: Store, req: Request, x: MeadowlarkId)
    requires Succeeded(Transaction(first, second, s, req).result)
    requires x in Transaction(first, second, s, req).store && x in Changed(s, Transaction(first, second, s, req).store)
    ensures !req.Delete? && Transaction(first, second, s, req).store[x].outboundRefs == OutboundRefs(req.write.info)
  {
    if req.Update? && !UpdateMatches(s, req.write, req.documentUuid) {
      var y := IdentityChangeMoves(first, second, s, req.write, req.documentUuid, req.freshUuid);
    }
  }
}
