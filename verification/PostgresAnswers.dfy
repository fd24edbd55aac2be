/** Exactly when a PostgreSQL transaction gives each of its answers, with identity updates on or
    off. The conditions are read off the store and the request alone. */
module PostgresAnswers {
  import opened Model
  import opened PostgresSerial
  import opened StoreChanges
  import Validation = PostgresValidation

  /** Every answer of an upsert and its condition. */
  lemma UpsertAnswersIff(s: Store, w: WriteRequest, freshUuid: DocumentUuid, failures: seq<MissingIdentity>)
    ensures var result := Serve(s, Event(Upsert(w, freshUuid), failures)).1;
      var (id, time) := (w.meadowlarkId, w.info.requestTimestamp);
      && result.Upserted?
      && var r := result.upsert;
      && (r == UpsertFailureWriteConflict <==> id in s && s[id].lastModifiedAt >= time)
      && (r == InsertFailureConflict <==> id !in s && !SuperclassFree(s, w))
      && (r == InsertFailureReference(failures) <==> id !in s && SuperclassFree(s, w) && failures != [])
      && (r == UpsertFailureReference(failures) <==> id in s && s[id].lastModifiedAt < time && failures != [])
      && (r == InsertSuccess(freshUuid) <==> id !in s && SuperclassFree(s, w) && failures == [])
      && (id in s ==> (r == UpsertUpdateSuccess(s[id].documentUuid) <==>
           s[id].lastModifiedAt < time && failures == []))
  {
  }

  /** Every answer of an update of the document at `x` and its condition. */
  lemma UpdateAnswersIff(s: Store, w: WriteRequest, uuid: DocumentUuid, freshUuid: DocumentUuid,
      failures: seq<MissingIdentity>, x: MeadowlarkId)
    requires UuidsDistinct(s) && x in s && s[x].documentUuid == uuid
    ensures var (s', result) := Serve(s, Event(Update(w, uuid, freshUuid), failures));
      var (id, older) := (w.meadowlarkId, s[x].lastModifiedAt < w.info.requestTimestamp);
      var allowed := older && (w.allowIdentityUpdates || x == id);
      && result.Updated?
      && var r := result.update;
      && (r == UpdateFailureWriteConflict <==> !older)
      && (r == UpdateFailureImmutableIdentity <==> older && !w.allowIdentityUpdates && x != id)
      && (r == UpdateFailureReference(failures) <==> allowed && failures != [])
      && (r == UpdateUnknownFailure <==> allowed && failures == [] && x != id && id in s)
      && (r == UpdateSuccess <==> allowed && failures == [] && (x == id || id !in s))
      && (r == UpdateSuccess ==> s' == (s - {x})[id := DocumentFrom(w, uuid, s[x].createdAt)])
  {
    assert s[x].documentUuid in Uuids(s);
  }

  /** An update of a uuid nobody has. */
  lemma MissingUpdateAnswers(s: Store, w: WriteRequest, uuid: DocumentUuid, freshUuid: DocumentUuid,
      failures: seq<MissingIdentity>)
    ensures Serve(s, Event(Update(w, uuid, freshUuid), failures)).1 == Updated(UpdateFailureNotExists)
            <==> uuid !in Uuids(s)
  {
  }

  /** Every answer of a delete and its condition. A document that only refers to itself is deleted. */
  lemma DeleteAnswersIff(s: Store, uuid: DocumentUuid, resource: ResourceInfo, validate: bool,
      failures: seq<MissingIdentity>)
    requires UuidsDistinct(s)
    ensures var (s', result) := Serve(s, Event(Delete(uuid, resource, validate), failures));
      && result.Deleted?
      && var r := result.delete;
      && (r == DeleteFailureNotExists <==> uuid !in Uuids(s))
      && (forall x :: x in s && s[x].documentUuid == uuid ==>
           var others := exists y :: y in s && y != x && Intersects(s[y].outboundRefs, s[x].aliasIds);
           && (r == DeleteFailureReference <==> validate && others)
           && (r == DeleteSuccess <==> !validate || !others)
           && (r == DeleteSuccess ==> s' == s - {x}))
  {
    forall x | x in s && s[x].documentUuid == uuid ensures FindByUuid(s, uuid) == Some(x) {
      assert s[x].documentUuid in Uuids(s);
    }
  }

  /** What validation is expected to report is empty exactly when the request does not validate
      or all its references resolve. */
  lemma ExpectedEmptyIff(s: Store, req: Request)
    ensures Expected(s, req) == [] <==>
            req.Delete? || !req.write.validate || AllResolve(s, OutboundRefs(req.write.info))
  {
    if !req.Delete? {
      Validation.ReportEmptyIff(s, req.write.info);
    }
  }
}
