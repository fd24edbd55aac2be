/** What one PostgreSQL transaction does, on the store behind the tables. `failures` is the
    outcome of reference validation. */
module PostgresTransactions {
  import opened Model

  /** The checks before an upsert writes, in order. */
  ghost function UpsertRefusal(s: Store, w: WriteRequest, failures: seq<MissingIdentity>): Option<UpsertResult> {
    var isInsert := w.meadowlarkId !in s;
    if !isInsert && s[w.meadowlarkId].lastModifiedAt >= w.info.requestTimestamp then Some(UpsertFailureWriteConflict)
    else if isInsert && w.info.superclassId.Some? && Resolves(s, w.info.superclassId.value)
      then Some(InsertFailureConflict)
    else if failures != []
      then Some(if isInsert then InsertFailureReference(failures) else UpsertFailureReference(failures))
    else None
  }

  function WriteUpserted(s: Store, w: WriteRequest, freshUuid: DocumentUuid): (Store, UpsertResult) {
    var id := w.meadowlarkId;
    if id !in s then (s[id := DocumentFrom(w, freshUuid, Some(w.info.requestTimestamp))], InsertSuccess(freshUuid))
    else (s[id := DocumentFrom(w, s[id].documentUuid, s[id].createdAt)], UpsertUpdateSuccess(s[id].documentUuid))
  }

  ghost function UpsertTransaction(s: Store, w: WriteRequest, freshUuid: DocumentUuid,
      failures: seq<MissingIdentity>): (Store, UpsertResult)
  {
    var refusal := UpsertRefusal(s, w, failures);
    if refusal.Some? then (s, refusal.value) else WriteUpserted(s, w, freshUuid)
  }

  /** The checks before an update of the document at `found` writes, in order. The unique
      index refuses an identity change onto an id that is held. */
  ghost function UpdateRefusal(s: Store, w: WriteRequest, found: Option<MeadowlarkId>,
      failures: seq<MissingIdentity>): Option<UpdateResult>
    requires found.Some? ==> found.value in s
  {
    if found.None? then Some(UpdateFailureNotExists)
    else if s[found.value].lastModifiedAt >= w.info.requestTimestamp then Some(UpdateFailureWriteConflict)
    else if !w.allowIdentityUpdates && found.value != w.meadowlarkId then Some(UpdateFailureImmutableIdentity)
    else if failures != [] then Some(UpdateFailureReference(failures))
    else if found.value != w.meadowlarkId && w.meadowlarkId in s then Some(UpdateUnknownFailure)
    else None
  }

  /** An identity change renames the row. */
  ghost function UpdateTransaction(s: Store, w: WriteRequest, uuid: DocumentUuid,
      failures: seq<MissingIdentity>): (Store, UpdateResult)
  {
    var found := FindByUuid(s, uuid);
    var refusal := UpdateRefusal(s, w, found, failures);
    if refusal.Some? then (s, refusal.value)
    else ((s - {found.value})[w.meadowlarkId := DocumentFrom(w, uuid, s[found.value].createdAt)], UpdateSuccess)
  }

  /** A document other than `x` refers to an alias of `x`. */
  ghost predicate ReferencedByAnother(s: Store, x: MeadowlarkId)
    requires x in s
  {
    exists y :: y in s && y != x && Intersects(s[y].outboundRefs, s[x].aliasIds)
  }

  ghost function DeleteTransaction(s: Store, uuid: DocumentUuid, validate: bool): (Store, DeleteResult) {
    var found := FindByUuid(s, uuid);
    if found.None? then (s, DeleteFailureNotExists)
    else if validate && ReferencedByAnother(s, found.value) then (s, DeleteFailureReference)
    else (s - {found.value}, DeleteSuccess)
  }

  ghost function Transaction(s: Store, req: Request, failures: seq<MissingIdentity>): (Store, Result) {
    match req
    case Upsert(w, freshUuid) => var (s', r) := UpsertTransaction(s, w, freshUuid, failures); (s', Upserted(r))
    case Update(w, uuid, _) => var (s', r) := UpdateTransaction(s, w, uuid, failures); (s', Updated(r))
    case Delete(uuid, _, validate) => var (s', r) := DeleteTransaction(s, uuid, validate); (s', Deleted(r))
  }
}
