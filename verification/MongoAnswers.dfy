/** Exactly when a MongoDB transaction gives each of its answers, for any views of the
    sessionless queries. The conditions are read off the stores and the request alone. */
module MongoAnswers {
  import opened Model
  import opened MongoValidation
  import opened MongoTransactions
  import opened StoreChanges
  import Serial = MongoSerial

  /** The document with this uuid answers to one of the references: its lock row is already taken. */
  ghost predicate Owns(view: Store, refs: seq<MeadowlarkId>, uuid: DocumentUuid) {
    exists y :: y in view && view[y].documentUuid == uuid && Intersects(view[y].aliasIds, refs)
  }

  /** The request does not validate, or its references pass. */
  ghost predicate Checked(s: Store, w: WriteRequest) {
    w.validate ==> Passes(s, w.info)
  }

  /** What an insert or overwrite under the id of the request needs of a store. */
  ghost predicate Writable(s: Store, w: WriteRequest) {
    if w.meadowlarkId in s then s[w.meadowlarkId].lastModifiedAt < w.info.requestTimestamp else SuperclassFree(s, w)
  }

  lemma OwnsIff(view: Store, refs: seq<MeadowlarkId>, uuid: DocumentUuid)
    ensures LockFails(view, refs, uuid) <==> Owns(view, refs, uuid)
  {
    if y :| y in view && view[y].documentUuid == uuid && Intersects(view[y].aliasIds, refs) {
      assert y in Matching(view, refs);
    }
  }

  lemma CheckedIff(schema: Schema, s: Store, w: WriteRequest)
    requires Indexed(schema, s) && AliasDisjoint(s) && WellFormedWrite(schema, w)
    ensures WriteFailures(s, w) == [] <==> Checked(s, w)
    ensures WriteFailures(s, w) != [] ==> WriteFailures(s, w) == Failures(s, w.info)
  {
    PassIff(schema, s, w.info);
  }

  lemma ClaimIff(s: Store, w: WriteRequest)
    ensures w.info.superclassId.Some? ==> (Matching(s, [w.info.superclassId.value]) == {} <==> SuperclassFree(s, w))
  {
    if w.info.superclassId.Some? {
      Serial.ClaimCheck(s, w.info.superclassId.value);
    }
  }

  // ----- Upserts -----

  /** Every answer of an upsert and its condition. */
  lemma UpsertAnswersIff(schema: Schema, view: Store, second: Store, s: Store, w: WriteRequest,
      freshUuid: DocumentUuid)
    requires Indexed(schema, s) && AliasDisjoint(s) && WellFormedWrite(schema, w)
    ensures var o := Transaction(view, second, s, Upsert(w, freshUuid));
      var (id, held) := (w.meadowlarkId, Owns(view, OutboundRefs(w.info), WrittenUuid(s, w.meadowlarkId, freshUuid)));
      && o.result.Upserted?
      && var r := o.result.upsert;
      && (r == UpsertFailureWriteConflict <==> id in s && s[id].lastModifiedAt >= w.info.requestTimestamp)
      && (r == InsertFailureConflict <==> id !in s && !SuperclassFree(s, w))
      && (r == InsertFailureReference(Failures(s, w.info)) <==> id !in s && SuperclassFree(s, w) && !Checked(s, w))
      && (r == UpsertFailureReference(Failures(s, w.info)) <==>
           id in s && s[id].lastModifiedAt < w.info.requestTimestamp && !Checked(s, w))
      && (r == InsertSuccess(freshUuid) <==> id !in s && SuperclassFree(s, w) && Checked(s, w) && !held)
      && (id in s ==> (r == UpsertUpdateSuccess(s[id].documentUuid) <==>
           s[id].lastModifiedAt < w.info.requestTimestamp && Checked(s, w) && !held))
      && (r == UpsertUnknownFailure <==> o.threw)
      && (o.threw <==> Writable(s, w) && Checked(s, w) && held)
  {
    OwnsIff(view, OutboundRefs(w.info), WrittenUuid(s, w.meadowlarkId, freshUuid));
    CheckedIff(schema, s, w);
    ClaimIff(s, w);
  }

  /** A successful upsert locks the owners of its references and the document it writes, no more. */
  lemma UpsertLocksExact(view: Store, second: Store, s: Store, w: WriteRequest, freshUuid: DocumentUuid)
    requires Succeeded(Transaction(view, second, s, Upsert(w, freshUuid)).result)
    ensures forall u :: u in Transaction(view, second, s, Upsert(w, freshUuid)).locks <==>
      u == WrittenUuid(s, w.meadowlarkId, freshUuid) || Owns(view, OutboundRefs(w.info), u)
  {
    forall u ensures u in OwnerUuids(view, OutboundRefs(w.info)) <==> Owns(view, OutboundRefs(w.info), u) {
      OwnsIff(view, OutboundRefs(w.info), u);
    }
  }

  // ----- Updates -----

  /** The references pass and the lock rows can be written. */
  ghost predicate Ready(first: Store, s: Store, w: WriteRequest, uuid: DocumentUuid) {
    Checked(s, w) && !Owns(first, OutboundRefs(w.info), uuid)
  }

  /** No document has the uuid. */
  lemma MissingUpdateAnswers(schema: Schema, first: Store, second: Store, s: Store, w: WriteRequest,
      uuid: DocumentUuid, freshUuid: DocumentUuid)
    requires Invariant(schema, s) && WellFormedWrite(schema, w) && uuid !in Uuids(s)
    ensures var o := Transaction(first, second, s, Update(w, uuid, freshUuid));
      && o.result.Updated?
      && var r := o.result.update;
      && (r == UpdateFailureReference(Failures(s, w.info)) <==> !Checked(s, w))
      && (r == UpdateFailureNotExists <==> Ready(first, s, w, uuid))
      && (r == UpdateUnknownFailure <==> o.threw)
      && (o.threw <==> Checked(s, w) && Owns(first, OutboundRefs(w.info), uuid))
  {
    OwnsIff(first, OutboundRefs(w.info), uuid);
    CheckedIff(schema, s, w);
    assert w.meadowlarkId in s ==> s[w.meadowlarkId].documentUuid in Uuids(s);
  }

  /** Every answer of the insert half of a move. */
  lemma ReinsertAnswers(view: Store, rest: Store, w: WriteRequest, d: Document, freshUuid: DocumentUuid)
    requires d.id == w.meadowlarkId && d.lastModifiedAt == w.info.requestTimestamp
    requires d.outboundRefs == OutboundRefs(w.info)
    ensures var o := UpsertTransaction(view, rest, w, freshUuid, Some(d));
      var id := w.meadowlarkId;
      var held := Owns(view, OutboundRefs(w.info), WrittenUuid(rest, id, freshUuid));
      && (o.result == UpsertFailureWriteConflict <==> id in rest && rest[id].lastModifiedAt >= d.lastModifiedAt)
      && (o.result == InsertFailureConflict <==> id !in rest && !SuperclassFree(rest, w))
      && (Succeeded(Upserted(o.result)) <==> Writable(rest, w) && !held)
      && (o.threw <==> Writable(rest, w) && held) && (o.threw ==> o.result == UpsertUnknownFailure)
  {
    OwnsIff(view, OutboundRefs(w.info), WrittenUuid(rest, w.meadowlarkId, freshUuid));
    ClaimIff(rest, w);
  }

  /** Once the lock rows are written: every answer for the document at `x` and its condition. */
  ghost predicate Answered(second: Store, s: Store, w: WriteRequest, freshUuid: DocumentUuid, x: MeadowlarkId,
      r: UpdateResult, threw: bool)
    requires x in s
  {
    var (id, time) := (w.meadowlarkId, w.info.requestTimestamp);
    var older := s[x].lastModifiedAt < time;
    var movable := older && x != id && w.allowIdentityUpdates && Unreferenced(s, x);
    var held := Owns(second, OutboundRefs(w.info), WrittenUuid(s - {x}, w.meadowlarkId, freshUuid));
    && (r == UpdateFailureWriteConflict <==> !older)
    && (r == UpdateFailureImmutableIdentity <==> older && x != id && !w.allowIdentityUpdates)
    && (r == UpdateCascadeRequired <==> older && x != id && w.allowIdentityUpdates && !Unreferenced(s, x))
    && (r == UpdateFailureConflict <==> movable && id !in s && !SuperclassFree(s - {x}, w))
    && (r == UpdateSuccess <==> (older && x == id) || (movable && Writable(s - {x}, w) && !held))
    && (r == UpdateUnknownFailure <==> threw || (movable && id in s && s[id].lastModifiedAt >= time))
    && (threw <==> movable && Writable(s - {x}, w) && held)
  }

  lemma ChangeAnswers(second: Store, s: Store, w: WriteRequest, d: Document, locks: set<DocumentUuid>,
      freshUuid: DocumentUuid, x: MeadowlarkId)
    requires FindByUuid(s, d.documentUuid) == Some(x) && x != d.id && s[x].lastModifiedAt < w.info.requestTimestamp
    requires d.id == w.meadowlarkId && d.lastModifiedAt == w.info.requestTimestamp && w.allowIdentityUpdates
    requires d.outboundRefs == OutboundRefs(w.info)
    ensures var o := ChangeIdentity(second, s, w, d, locks, freshUuid);
      Answered(second, s, w, freshUuid, x, o.result, o.threw)
  {
    ReinsertAnswers(second, s - {x}, w, d, freshUuid);
  }

  lemma ReplaceOrMoveAnswers(second: Store, s: Store, w: WriteRequest, uuid: DocumentUuid, locks: set<DocumentUuid>,
      freshUuid: DocumentUuid, x: MeadowlarkId)
    requires UuidsDistinct(s) && x in s && s[x].documentUuid == uuid
    ensures var o := ReplaceOrMove(second, s, w, uuid, locks, freshUuid);
      Answered(second, s, w, freshUuid, x, o.result, o.threw)
  {
    assert s[x].documentUuid in Uuids(s);
    assert FindByUuid(s, uuid) == Some(x);
    if x != w.meadowlarkId && s[x].lastModifiedAt < w.info.requestTimestamp && w.allowIdentityUpdates {
      ChangeAnswers(second, s, w, DocumentFrom(w, uuid, s[x].createdAt), locks, freshUuid, x);
    }
  }

  /** Every answer of an update of the document at `x` and its condition: the reference check
      comes first, then the lock rows, then `Answered`. */
  lemma UpdateAnswersIff(schema: Schema, first: Store, second: Store, s: Store, w: WriteRequest,
      uuid: DocumentUuid, freshUuid: DocumentUuid, x: MeadowlarkId)
    requires Invariant(schema, s) && WellFormedWrite(schema, w) && x in s && s[x].documentUuid == uuid
    ensures var o := Transaction(first, second, s, Update(w, uuid, freshUuid));
      && o.result.Updated?
      && var r := o.result.update;
      && (!Checked(s, w) <==> r == UpdateFailureReference(Failures(s, w.info)))
      && (!Checked(s, w) ==> !o.threw)
      && (Checked(s, w) && Owns(first, OutboundRefs(w.info), uuid) ==> r == UpdateUnknownFailure && o.threw)
      && (Ready(first, s, w, uuid) ==> Answered(second, s, w, freshUuid, x, r, o.threw))
  {
    OwnsIff(first, OutboundRefs(w.info), uuid);
    CheckedIff(schema, s, w);
    ReplaceOrMoveAnswers(second, s, w, uuid, OwnerUuids(first, OutboundRefs(w.info)) + {uuid}, freshUuid, x);
    NoReferenceAnswer(second, s, w, freshUuid, x,
      ReplaceOrMove(second, s, w, uuid, OwnerUuids(first, OutboundRefs(w.info)) + {uuid}, freshUuid));
  }

  lemma NoReferenceAnswer(second: Store, s: Store, w: WriteRequest, freshUuid: DocumentUuid, x: MeadowlarkId,
      o: Outcome<UpdateResult>)
    requires x in s && Answered(second, s, w, freshUuid, x, o.result, o.threw)
    ensures !o.result.UpdateFailureReference?
  {
  }

  /** A successful update locks the owners of its references and what it writes, no more. */
  lemma UpdateLocksExact(first: Store, second: Store, s: Store, w: WriteRequest, uuid: DocumentUuid,
      freshUuid: DocumentUuid, x: MeadowlarkId)
    requires UuidsDistinct(s) && x in s && s[x].documentUuid == uuid
    requires Succeeded(Transaction(first, second, s, Update(w, uuid, freshUuid)).result)
    ensures var refs := OutboundRefs(w.info);
      forall u :: u in Transaction(first, second, s, Update(w, uuid, freshUuid)).locks <==>
        || u == uuid || Owns(first, refs, u)
        || (x != w.meadowlarkId && (u == WrittenUuid(s - {x}, w.meadowlarkId, freshUuid) || Owns(second, refs, u)))
  {
    var refs := OutboundRefs(w.info);
    UpdateLocksAre(first, second, s, w, uuid, freshUuid, x);
    forall u
      ensures u in OwnerUuids(first, refs) <==> Owns(first, refs, u)
      ensures u in OwnerUuids(second, refs) <==> Owns(second, refs, u)
    {
      OwnsIff(first, refs, u);
      OwnsIff(second, refs, u);
    }
  }

  lemma UpdateLocksAre(first: Store, second: Store, s: Store, w: WriteRequest, uuid: DocumentUuid,
      freshUuid: DocumentUuid, x: MeadowlarkId)
    requires UuidsDistinct(s) && x in s && s[x].documentUuid == uuid
    requires Succeeded(Transaction(first, second, s, Update(w, uuid, freshUuid)).result)
    ensures var refs := OutboundRefs(w.info);
      Transaction(first, second, s, Update(w, uuid, freshUuid)).locks == OwnerUuids(first, refs) + {uuid}
        + if x == w.meadowlarkId then {}
          else OwnerUuids(second, refs) + {WrittenUuid(s - {x}, w.meadowlarkId, freshUuid)}
  {
    assert s[x].documentUuid in Uuids(s);
    assert FindByUuid(s, uuid) == Some(x);
    if x != w.meadowlarkId {
      ChangeLocks(second, s, w, DocumentFrom(w, uuid, s[x].createdAt),
        OwnerUuids(first, OutboundRefs(w.info)) + {uuid}, freshUuid, x);
    }
  }

  lemma ChangeLocks(second: Store, s: Store, w: WriteRequest, d: Document, locks: set<DocumentUuid>,
      freshUuid: DocumentUuid, x: MeadowlarkId)
    requires FindByUuid(s, d.documentUuid) == Some(x) && x != d.id && d.id == w.meadowlarkId
    requires ChangeIdentity(second, s, w, d, locks, freshUuid).result.UpdateSuccess?
    ensures ChangeIdentity(second, s, w, d, locks, freshUuid).locks
            == locks + {d.documentUuid} + (OwnerUuids(second, d.outboundRefs) + {WrittenUuid(s - {x}, d.id, freshUuid)})
  {
  }

  // ----- Deletes -----

  /** Every answer of a delete and its condition; a success removes and locks one document. */
  lemma DeleteAnswersIff(first: Store, second: Store, s: Store, uuid: DocumentUuid, resource: ResourceInfo,
      validate: bool)
    requires UuidsDistinct(s)
    ensures var o := Transaction(first, second, s, Delete(uuid, resource, validate));
      && !o.threw && o.result.Deleted?
      && var r := o.result.delete;
      && (r == DeleteFailureNotExists <==> uuid !in Uuids(s))
      && (forall x :: x in s && s[x].documentUuid == uuid ==>
           && (r == DeleteFailureReference <==> validate && !Unreferenced(s, x))
           && (r == DeleteSuccess <==> !validate || Unreferenced(s, x))
           && (r == DeleteSuccess ==> o.store == s - {x} && o.locks == {uuid}))
  {
    forall x | x in s && s[x].documentUuid == uuid ensures FindByUuid(s, uuid) == Some(x) {
      assert s[x].documentUuid in Uuids(s);
    }
  }
}
