/** The documents, requests and answers both document stores work on, and the
    invariants the stores are meant to keep.

    A store is a map from meadowlark ids to documents: the `_id` of a MongoDB
    document and the `meadowlark_id` of a PostgreSQL row are unique keys. */
module Model {

  datatype Option<+T> = None | Some(value: T)

  datatype MeadowlarkId = MeadowlarkId(text: string)
  datatype DocumentUuid = DocumentUuid(text: string)

  /** One `{ key: value }` element of a document identity. */
  datatype IdentityElement = IdentityElement(key: string, value: string)
  type DocumentIdentity = seq<IdentityElement>

  /** A reference found in a document body. `target` is the meadowlark id computed
      from the reference; module DocumentIdentityHash computes it. */
  datatype DocumentReference = DocumentReference(target: MeadowlarkId, resourceName: string, identity: DocumentIdentity)

  datatype MissingIdentity = MissingIdentity(resourceName: string, identity: DocumentIdentity)

  datatype ResourceInfo = ResourceInfo(projectName: string, resourceName: string, resourceVersion: string,
    isDescriptor: bool)

  /** `superclassId` is the meadowlark id of the superclass form of the document, if it has one. */
  datatype DocumentInfo = DocumentInfo(
    documentIdentity: DocumentIdentity,
    documentReferences: seq<DocumentReference>,
    descriptorReferences: seq<DocumentReference>,
    superclassId: Option<MeadowlarkId>,
    requestTimestamp: int)

  /** The part an upsert request and an update request share. */
  datatype WriteRequest = WriteRequest(
    meadowlarkId: MeadowlarkId,
    resource: ResourceInfo,
    allowIdentityUpdates: bool,
    info: DocumentInfo,
    edfiDoc: string,
    validate: bool,
    clientId: string)

  /** `freshUuid` is the random uuid the backend draws if it inserts. */
  datatype Request =
    | Upsert(write: WriteRequest, freshUuid: DocumentUuid)
    | Update(write: WriteRequest, documentUuid: DocumentUuid, freshUuid: DocumentUuid)
    | Delete(documentUuid: DocumentUuid, resource: ResourceInfo, validateNoReferences: bool)

  /** `createdAt` is None only on a document built for an update, before the stored
      creation time is copied to it. */
  datatype Document = Document(
    id: MeadowlarkId,
    documentUuid: DocumentUuid,
    documentIdentity: DocumentIdentity,
    resource: ResourceInfo,
    edfiDoc: string,
    aliasIds: seq<MeadowlarkId>,
    outboundRefs: seq<MeadowlarkId>,
    validated: bool,
    createdBy: string,
    createdAt: Option<int>,
    lastModifiedAt: int)

  datatype UpsertResult =
    | InsertSuccess(newDocumentUuid: DocumentUuid)
    | UpsertUpdateSuccess(existingDocumentUuid: DocumentUuid)
    | InsertFailureConflict
    | InsertFailureReference(insertFailures: seq<MissingIdentity>)
    | UpsertFailureReference(updateFailures: seq<MissingIdentity>)
    | UpsertFailureWriteConflict
    | UpsertUnknownFailure

  datatype UpdateResult =
    | UpdateSuccess
    | UpdateFailureNotExists
    | UpdateFailureReference(failures: seq<MissingIdentity>)
    | UpdateFailureConflict
    | UpdateFailureWriteConflict
    | UpdateFailureImmutableIdentity
    | UpdateCascadeRequired
    | UpdateUnknownFailure

  datatype DeleteResult =
    | DeleteSuccess
    | DeleteFailureNotExists
    | DeleteFailureReference
    | DeleteFailureWriteConflict
    | DeleteUnknownFailure

  datatype Result = Upserted(upsert: UpsertResult) | Updated(update: UpdateResult) | Deleted(delete: DeleteResult)

  predicate Succeeded(result: Result) {
    match result
    case Upserted(r) => r.InsertSuccess? || r.UpsertUpdateSuccess?
    case Updated(r) => r.UpdateSuccess?
    case Deleted(r) => r.DeleteSuccess?
  }

  type Store = map<MeadowlarkId, Document>

  function Targets(refs: seq<DocumentReference>): (ids: seq<MeadowlarkId>)
    ensures |ids| == |refs| && forall i :: 0 <= i < |refs| ==> ids[i] == refs[i].target
  {
    seq(|refs|, i requires 0 <= i < |refs| => refs[i].target)
  }

  /** The aliases of a document: its own id, and its superclass id if it has one. */
  function AliasIds(id: MeadowlarkId, superclassId: Option<MeadowlarkId>): seq<MeadowlarkId> {
    match superclassId
    case None => [id]
    case Some(superclass) => [id, superclass]
  }

  function OutboundRefs(info: DocumentInfo): seq<MeadowlarkId> {
    Targets(info.documentReferences) + Targets(info.descriptorReferences)
  }

  function DocumentFrom(w: WriteRequest, uuid: DocumentUuid, createdAt: Option<int>): Document {
    Document(w.meadowlarkId, uuid, w.info.documentIdentity, w.resource, w.edfiDoc,
             AliasIds(w.meadowlarkId, w.info.superclassId), OutboundRefs(w.info), w.validate,
             w.clientId, createdAt, w.info.requestTimestamp)
  }

  predicate Intersects(xs: seq<MeadowlarkId>, ys: seq<MeadowlarkId>) {
    exists a :: a in xs && a in ys
  }

  function Uuids(s: Store): set<DocumentUuid> {
    set x | x in s :: s[x].documentUuid
  }

  ghost function FindByUuid(s: Store, uuid: DocumentUuid): (found: Option<MeadowlarkId>)
    ensures found.Some? ==> found.value in s && s[found.value].documentUuid == uuid
    ensures found.None? ==> uuid !in Uuids(s)
  {
    if exists x :: x in s && s[x].documentUuid == uuid then
      var x :| x in s && s[x].documentUuid == uuid;
      Some(x)
    else None
  }

  // ----- What the schema guarantees about ids -----

  /** The superclass id is a function of the document id, because it is derived from the
      document identity. Abstract resources never own a document. */
  datatype Schema = Schema(superclassOf: MeadowlarkId -> Option<MeadowlarkId>, isAbstract: MeadowlarkId -> bool)

  predicate Concrete(schema: Schema, id: MeadowlarkId) {
    && !schema.isAbstract(id)
    && (schema.superclassOf(id).Some? ==> schema.isAbstract(schema.superclassOf(id).value))
  }

  /** Descriptors are never superclasses, so a descriptor reference names a concrete id. */
  predicate WellFormedWrite(schema: Schema, w: WriteRequest) {
    && Concrete(schema, w.meadowlarkId)
    && w.info.superclassId == schema.superclassOf(w.meadowlarkId)
    && (forall r :: r in w.info.descriptorReferences ==> !schema.isAbstract(r.target))
  }

  predicate WellFormed(schema: Schema, req: Request) {
    !req.Delete? ==> WellFormedWrite(schema, req.write)
  }

  // ----- Store invariants -----

  /** Every document sits under its own id and answers to exactly the aliases its id implies. */
  ghost predicate Indexed(schema: Schema, s: Store) {
    forall x :: x in s ==> s[x].id == x && Concrete(schema, x) && s[x].aliasIds == AliasIds(x, schema.superclassOf(x))
  }

  ghost predicate AliasDisjoint(s: Store) {
    forall x, y, a :: x in s && y in s && a in s[x].aliasIds && a in s[y].aliasIds ==> x == y
  }

  ghost predicate UuidsDistinct(s: Store) {
    forall x, y :: x in s && y in s && s[x].documentUuid == s[y].documentUuid ==> x == y
  }

  ghost predicate OwnAlias(s: Store) {
    forall x :: x in s ==> x in s[x].aliasIds
  }

  /** Some stored document answers to `a`. */
  ghost predicate Resolves(s: Store, a: MeadowlarkId) {
    exists x :: x in s && a in s[x].aliasIds
  }

  ghost predicate AllResolve(s: Store, ids: seq<MeadowlarkId>) {
    forall a :: a in ids ==> Resolves(s, a)
  }

  ghost predicate ReferentialIntegrity(s: Store) {
    forall x :: x in s && s[x].validated ==> AllResolve(s, s[x].outboundRefs)
  }

  /** No stored document refers to an alias of `s[x]`. */
  ghost predicate Unreferenced(s: Store, x: MeadowlarkId)
    requires x in s
  {
    forall y :: y in s ==> !Intersects(s[y].outboundRefs, s[x].aliasIds)
  }
}
