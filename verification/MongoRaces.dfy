/** Two interleavings of well-formed, validating requests. Each breaks exactly one hypothesis of
    MongoIntegrity.EveryCommittedStateHasIntegrity. */
module MongoRaces {
  import opened Model
  import opened MongoValidation
  import opened MongoTransactions
  import opened MongoConcurrency
  import opened MongoClaims
  import opened MongoIntegrity

  function Resource(name: string): ResourceInfo {
    ResourceInfo("Ed-Fi", name, "3.3.1-b", false)
  }

  /** A validating insert of a document with one identity key. */
  function Write(resourceName: string, key: string, id: string, refs: seq<DocumentReference>,
      superclassId: Option<MeadowlarkId>): WriteRequest
  {
    WriteRequest(MeadowlarkId(id), Resource(resourceName), false,
      DocumentInfo([IdentityElement(key, "255901")], refs, [], superclassId, 1), "{}", true, "client")
  }

  /** Well-formed requests, and deletes that validate, throughout a run. */
  ghost predicate Proper(schema: Schema, run: seq<State>) {
    WellFormedRequests(schema, run) && forall k :: 0 <= k < |run| ==> DeletesValidate(run[k])
  }

  lemma {:induction false} UsesProper(schema: Schema, run: seq<State>, reqs: set<Request>)
    requires Uses(run, reqs) && forall req :: req in reqs ==> WellFormed(schema, req) && ValidatingDelete(req)
    ensures Proper(schema, run)
  {
    UsesFit(schema, run, reqs);
    forall k | 0 <= k < |run| ensures DeletesValidate(run[k]) {
      assert Active(run[k], reqs);
    }
  }

  lemma InsertEvaluates(view: Store, s: Store, w: WriteRequest, freshUuid: DocumentUuid)
    requires w.meadowlarkId !in s && WriteFailures(s, w) == []
    requires w.info.superclassId.Some? ==> Matching(s, [w.info.superclassId.value]) == {}
    requires !LockFails(view, OutboundRefs(w.info), freshUuid)
    ensures var d := DocumentFrom(w, freshUuid, Some(w.info.requestTimestamp));
      UpsertTransaction(view, s, w, freshUuid, None) ==
      Outcome(s[w.meadowlarkId := d], OwnerUuids(view, OutboundRefs(w.info)) + {freshUuid}, false,
        InsertSuccess(freshUuid))
  {
  }

  lemma StartRun(reqs: set<Request>) returns (run: seq<State>)
    ensures Run(run) && Uses(run, reqs) && run == [State([Commit(map[], {}, {})], map[])]
  {
    run := [State([Commit(map[], {}, {})], map[])];
  }

  lemma FirstInsert(w: WriteRequest, freshUuid: DocumentUuid)
    requires w.info.documentReferences == w.info.descriptorReferences == []
    ensures var d := DocumentFrom(w, freshUuid, Some(w.info.requestTimestamp));
      && Transaction(map[], map[], map[], Upsert(w, freshUuid))
         == Outcome(map[w.meadowlarkId := d], {freshUuid}, false, Upserted(InsertSuccess(freshUuid)))
      && Changed(map[], map[w.meadowlarkId := d]) == {w.meadowlarkId}
  {
    var d := DocumentFrom(w, freshUuid, Some(w.info.requestTimestamp));
    assert OutboundRefs(w.info) == [];
    InsertEvaluates(map[], map[], w, freshUuid);
    assert OwnerUuids(map[], []) + {freshUuid} == {freshUuid};
    var empty: Store := map[];
    assert empty[w.meadowlarkId := d] == map[w.meadowlarkId := d];
  }

  lemma {:induction false} InsertAlone(run: seq<State>, t: nat, w: WriteRequest, freshUuid: DocumentUuid,
      reqs: set<Request>)
    returns (run': seq<State>)
    requires Run(run) && Uses(run, reqs) && Upsert(w, freshUuid) in reqs
    requires t !in Last(run).active && |Last(run).history| > 0
    requires Current(Last(run)) == map[]
    requires w.info.documentReferences == w.info.descriptorReferences == []
    ensures Run(run') && Uses(run', reqs)
    ensures var d := DocumentFrom(w, freshUuid, Some(w.info.requestTimestamp));
      && Last(run').active == Last(run).active
      && Last(run').history == Last(run).history + [Commit(map[w.meadowlarkId := d], {freshUuid}, {w.meadowlarkId})]
  {
    var d := DocumentFrom(w, freshUuid, Some(w.info.requestTimestamp));
    FirstInsert(w, freshUuid);
    UnsharedEffect(Last(run).history, Upsert(w, freshUuid), map[]);
    var o := Outcome(map[w.meadowlarkId := d], {freshUuid}, false, Upserted(InsertSuccess(freshUuid)));
    run' := RunAlone(run, t, Upsert(w, freshUuid), o, reqs);
  }

  lemma DeleteOnly(d: Document, s: Store)
    requires s == map[d.id := d] && d.outboundRefs == []
    ensures FindByUuid(s, d.documentUuid) == Some(d.id)
    ensures DeleteTransaction(s, d.documentUuid, true) == Outcome(map[], {d.documentUuid}, false, DeleteSuccess)
  {
    assert s[d.id].documentUuid in Uuids(s);
    assert s - {d.id} == map[];
  }

  // A document to be deleted, and one that refers to it.
  const OWNER := Write("Course", "courseCode", "o", [], None)
  const REFERRER := Write("CourseOffering", "localCourseCode", "d",
    [DocumentReference(MeadowlarkId("o"), "Course", [IdentityElement("courseCode", "255901")])], None)
  const OWNER_UUID := DocumentUuid("1")
  const REFERRER_UUID := DocumentUuid("2")
  const OWNER_DOCUMENT := DocumentFrom(OWNER, OWNER_UUID, Some(1))
  const REFERRER_DOCUMENT := DocumentFrom(REFERRER, REFERRER_UUID, Some(1))

  const OWNER_DELETED := Delete(OWNER_UUID, Resource("Course"), true)
  const DANGLING_REQUESTS := {Upsert(OWNER, OWNER_UUID), Upsert(REFERRER, REFERRER_UUID), OWNER_DELETED}

  function WithOwner(): Store { map[OWNER.meadowlarkId := OWNER_DOCUMENT] }

  /** The referrer sees the owner in its snapshot, but an empty collection when it looks for
      lock rows: it locks only itself. */
  lemma ReferrerEffect()
    ensures var s' := WithOwner()[REFERRER.meadowlarkId := REFERRER_DOCUMENT];
      && Transaction(map[], map[], WithOwner(), Upsert(REFERRER, REFERRER_UUID))
         == Outcome(s', {REFERRER_UUID}, false, Upserted(InsertSuccess(REFERRER_UUID)))
      && Changed(WithOwner(), s') == {REFERRER.meadowlarkId}
      && Overlay(map[], WithOwner(), s') == map[REFERRER.meadowlarkId := REFERRER_DOCUMENT]
  {
    assert "o"[0] != "d"[0];
    assert Targets(REFERRER.info.documentReferences) == [OWNER.meadowlarkId];
    assert OWNER.meadowlarkId in OWNER_DOCUMENT.aliasIds;
    assert Matching(WithOwner(), [OWNER.meadowlarkId]) == {OWNER.meadowlarkId};
    assert Matching(WithOwner(), Targets([])) == {};
    InsertEvaluates(map[], WithOwner(), REFERRER, REFERRER_UUID);
    assert OwnerUuids(map[], OutboundRefs(REFERRER.info)) + {REFERRER_UUID} == {REFERRER_UUID};
  }

  lemma ReferrerDangles()
    ensures !ReferentialIntegrity(map[REFERRER.meadowlarkId := REFERRER_DOCUMENT])
  {
    assert "o"[0] != "d"[0];
    assert OutboundRefs(REFERRER.info)[0] == OWNER.meadowlarkId;
    var s := map[REFERRER.meadowlarkId := REFERRER_DOCUMENT];
    assert s[REFERRER.meadowlarkId].validated && OWNER.meadowlarkId in s[REFERRER.meadowlarkId].outboundRefs;
    assert !Resolves(s, OWNER.meadowlarkId);
  }

  /** The owner is stored; a referrer has begun; the owner is deleted. */
  lemma OwnerDeletedMeanwhile() returns (run: seq<State>)
    ensures Run(run) && Uses(run, DANGLING_REQUESTS)
    ensures Last(run).active == map[1 := Tx(Upsert(REFERRER, REFERRER_UUID), 1, None, None)]
    ensures Last(run).history == [Commit(map[], {}, {}),
                                  Commit(WithOwner(), {OWNER_UUID}, {OWNER.meadowlarkId}),
                                  Commit(map[], {OWNER_UUID}, {OWNER.meadowlarkId})]
  {
    run := StartRun(DANGLING_REQUESTS);
    run := InsertAlone(run, 0, OWNER, OWNER_UUID, DANGLING_REQUESTS);
    run := RunBegin(run, 1, Upsert(REFERRER, REFERRER_UUID), DANGLING_REQUESTS);
    DeleteOnly(OWNER_DOCUMENT, WithOwner());
    UnsharedEffect(Last(run).history, OWNER_DELETED, WithOwner());
    run := RunAlone(run, 2, OWNER_DELETED, Outcome(map[], {OWNER_UUID}, false, Deleted(DeleteSuccess)),
      DANGLING_REQUESTS);
    assert Changed(WithOwner(), map[]) == {OWNER.meadowlarkId};
  }

  lemma ReferrerUndisturbed(h: History)
    requires h == [Commit(map[], {}, {}), Commit(WithOwner(), {OWNER_UUID}, {OWNER.meadowlarkId}),
                   Commit(map[], {OWNER_UUID}, {OWNER.meadowlarkId})]
    ensures var s' := WithOwner()[REFERRER.meadowlarkId := REFERRER_DOCUMENT];
      && NoConflict(h, 1, s', {REFERRER_UUID})
      && Append(h, 1, s', {REFERRER_UUID})[3].store == map[REFERRER.meadowlarkId := REFERRER_DOCUMENT]
  {
    ReferrerEffect();
    assert "1"[0] != "2"[0] && "o"[0] != "d"[0];
  }

  /** The referrer asks for the owners, finds none, and commits. */
  lemma {:induction false} ReferrerCommits(before: seq<State>) returns (run: seq<State>)
    requires Run(before) && Uses(before, DANGLING_REQUESTS)
    requires Last(before).active == map[1 := Tx(Upsert(REFERRER, REFERRER_UUID), 1, None, None)]
    requires Last(before).history == [Commit(map[], {}, {}),
                                      Commit(WithOwner(), {OWNER_UUID}, {OWNER.meadowlarkId}),
                                      Commit(map[], {OWNER_UUID}, {OWNER.meadowlarkId})]
    ensures Run(run) && Uses(run, DANGLING_REQUESTS)
    ensures Current(Last(run)) == map[REFERRER.meadowlarkId := REFERRER_DOCUMENT]
  {
    run := RunQueries(before, 1, DANGLING_REQUESTS);
    ReferrerEffect();
    ReferrerUndisturbed(Last(before).history);
    run := RunCommit(run, 1, WithOwner()[REFERRER.meadowlarkId := REFERRER_DOCUMENT], {REFERRER_UUID},
      DANGLING_REQUESTS);
  }

  /** The hypothesis on the lock rows is needed, even if deletes validate and all claims are
      free: a referrer validates, the referenced document is deleted and committed, the referrer
      then asks for owners without a session, finds none to lock, meets no conflict, and commits
      a dangling reference. */
  lemma UncoveredLocksLoseIntegrity() returns (schema: Schema, run: seq<State>)
    ensures Run(run) && Proper(schema, run)
    ensures forall k :: 0 <= k < |run| - 1 ==> CommitsClaimFree(schema, run[k], run[k + 1])
    ensures !ReferentialIntegrity(Current(Last(run)))
  {
    schema := Schema(_ => None, _ => false);
    run := OwnerDeletedMeanwhile();
    run := ReferrerCommits(run);
    ReferrerDangles();
    UsesProper(schema, run, DANGLING_REQUESTS);
    forall k | 0 <= k < |run| - 1 ensures CommitsClaimFree(schema, run[k], run[k + 1]) {
      NoSuperclassNoClaims(schema, run[k], run[k + 1]);
    }
  }

  // Documents of two subclasses with the same superclass form.
  const ORGANIZATION := MeadowlarkId("e")
  const SCHOOL := Write("School", "schoolId", "s", [], Some(ORGANIZATION))
  const AGENCY := Write("LocalEducationAgency", "localEducationAgencyId", "a", [], Some(ORGANIZATION))
  const SCHOOL_UUID := DocumentUuid("3")
  const AGENCY_UUID := DocumentUuid("4")
  const SCHOOL_DOCUMENT := DocumentFrom(SCHOOL, SCHOOL_UUID, Some(1))
  const AGENCY_DOCUMENT := DocumentFrom(AGENCY, AGENCY_UUID, Some(1))
  const CLAIMING_REQUESTS := {Upsert(SCHOOL, SCHOOL_UUID), Upsert(AGENCY, AGENCY_UUID)}

  lemma AgencyEffect(view: Store)
    requires view == map[] || view == map[SCHOOL.meadowlarkId := SCHOOL_DOCUMENT]
    ensures var s' := map[AGENCY.meadowlarkId := AGENCY_DOCUMENT];
      && Transaction(view, view, map[], Upsert(AGENCY, AGENCY_UUID))
         == Outcome(s', {AGENCY_UUID}, false, Upserted(InsertSuccess(AGENCY_UUID)))
      && Changed(map[], s') == {AGENCY.meadowlarkId}
      && Overlay(map[SCHOOL.meadowlarkId := SCHOOL_DOCUMENT], map[], s')
         == map[SCHOOL.meadowlarkId := SCHOOL_DOCUMENT, AGENCY.meadowlarkId := AGENCY_DOCUMENT]
  {
    assert "s"[0] != "a"[0];
    assert OutboundRefs(AGENCY.info) == [];
    InsertEvaluates(view, map[], AGENCY, AGENCY_UUID);
    assert OwnerUuids(view, []) + {AGENCY_UUID} == {AGENCY_UUID};
    var empty: Store := map[];
    assert empty[AGENCY.meadowlarkId := AGENCY_DOCUMENT] == map[AGENCY.meadowlarkId := AGENCY_DOCUMENT];
  }

  /** The agency begins, the school is inserted, and the agency has asked for owners. */
  lemma SchoolFirst() returns (run: seq<State>)
    ensures Run(run) && Uses(run, CLAIMING_REQUESTS)
    ensures Last(run).active == map[1 := Tx(Upsert(AGENCY, AGENCY_UUID), 0, Some(1), Some(1))]
    ensures Last(run).history ==
            [Commit(map[], {}, {}),
             Commit(map[SCHOOL.meadowlarkId := SCHOOL_DOCUMENT], {SCHOOL_UUID}, {SCHOOL.meadowlarkId})]
  {
    run := StartRun(CLAIMING_REQUESTS);
    run := RunBegin(run, 1, Upsert(AGENCY, AGENCY_UUID), CLAIMING_REQUESTS);
    run := InsertAlone(run, 0, SCHOOL, SCHOOL_UUID, CLAIMING_REQUESTS);
    run := RunQueries(run, 1, CLAIMING_REQUESTS);
  }

  lemma AgencyUndisturbed(h: History)
    requires h == [Commit(map[], {}, {}),
                   Commit(map[SCHOOL.meadowlarkId := SCHOOL_DOCUMENT], {SCHOOL_UUID}, {SCHOOL.meadowlarkId})]
    ensures var s' := map[AGENCY.meadowlarkId := AGENCY_DOCUMENT];
      && NoConflict(h, 0, s', {AGENCY_UUID})
      && Append(h, 0, s', {AGENCY_UUID})[2].store
         == map[SCHOOL.meadowlarkId := SCHOOL_DOCUMENT, AGENCY.meadowlarkId := AGENCY_DOCUMENT]
  {
    AgencyEffect(map[]);
    assert "s"[0] != "a"[0] && "3"[0] != "4"[0];
  }

  lemma BothClaim() returns (run: seq<State>)
    ensures Run(run) && Uses(run, CLAIMING_REQUESTS)
    ensures Current(Last(run)) == map[SCHOOL.meadowlarkId := SCHOOL_DOCUMENT, AGENCY.meadowlarkId := AGENCY_DOCUMENT]
  {
    run := SchoolFirst();
    AgencyEffect(map[SCHOOL.meadowlarkId := SCHOOL_DOCUMENT]);
    AgencyUndisturbed(Last(run).history);
    run := RunCommit(run, 1, map[AGENCY.meadowlarkId := AGENCY_DOCUMENT], {AGENCY_UUID}, CLAIMING_REQUESTS);
  }

  /** Requests without references have no owners to lock. */
  lemma {:induction false} NoReferencesCovered(run: seq<State>, reqs: set<Request>, k: nat)
    requires Uses(run, reqs) && k < |run| - 1
    requires forall req :: req in reqs ==> !req.Delete? && OutboundRefs(req.write.info) == []
    ensures CommitsCovered(run[k], run[k + 1])
  {
    assert Active(run[k], reqs);
    forall t | CommitTx(run[k], run[k + 1], t) ensures Covers(run[k].history, run[k].active[t]) {
      var tx := run[k].active[t];
      assert OwnerUuids(run[k].history[tx.start].store, []) == {};
    }
  }

  /** Nothing locks a superclass alias, even if every reference is covered: two concurrent
      inserts of different subclasses both pass the claim check and both commit. */
  lemma SuperclassClaimRace() returns (schema: Schema, run: seq<State>)
    ensures Run(run) && Proper(schema, run)
    ensures forall k :: 0 <= k < |run| - 1 ==> CommitsCovered(run[k], run[k + 1])
    ensures !AliasDisjoint(Current(Last(run)))
  {
    schema := Schema(x => if x == ORGANIZATION then None else Some(ORGANIZATION), x => x == ORGANIZATION);
    run := BothClaim();
    assert "s"[0] != "a"[0] && "s"[0] != "e"[0] && "a"[0] != "e"[0];
    UsesProper(schema, run, CLAIMING_REQUESTS);
    forall k | 0 <= k < |run| - 1 ensures CommitsCovered(run[k], run[k + 1]) {
      NoReferencesCovered(run, CLAIMING_REQUESTS, k);
    }
    var now := Current(Last(run));
    assert ORGANIZATION in now[SCHOOL.meadowlarkId].aliasIds && ORGANIZATION in now[AGENCY.meadowlarkId].aliasIds;
  }
}
