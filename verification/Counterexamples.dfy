/** Small inputs on which a property one might expect of the stores or extractors fails. The
    exact conditions are proved with the properties themselves. */
module Counterexamples {
  import opened Model
  import opened Json
  import opened ExtractionResult
  import opened StoreChanges
  import MongoValidation
  import MongoTransactions
  import Mongo = MongoSerial
  import Postgres = PostgresSerial
  import PostgresTx = PostgresTransactions
  import ReferenceExtraction
  import IdentityExtraction

  // Two courses, and a course offering that refers to one.
  const OLD := MeadowlarkId("o")
  const NEW := MeadowlarkId("n")
  const REFERRER := MeadowlarkId("r")

  // A district under two identities, a school, and their forms as education organizations:
  // the district's second identity has the value of the school's.
  const DISTRICT := MeadowlarkId("d")
  const RENAMED_DISTRICT := MeadowlarkId("e")
  const SCHOOL := MeadowlarkId("c")
  const SUPERCLASS_OF_OLD := MeadowlarkId("s")
  const SUPERCLASS := MeadowlarkId("t")

  const SCHEMA := Schema(SuperclassOf, x => x == SUPERCLASS || x == SUPERCLASS_OF_OLD)

  function SuperclassOf(id: MeadowlarkId): Option<MeadowlarkId> {
    if id == DISTRICT then Some(SUPERCLASS_OF_OLD)
    else if id == RENAMED_DISTRICT || id == SCHOOL then Some(SUPERCLASS)
    else None
  }

  function ResourceOf(id: MeadowlarkId): string {
    if id == DISTRICT || id == RENAMED_DISTRICT then "LocalEducationAgency"
    else if id == SCHOOL then "School"
    else if id == REFERRER then "CourseOffering"
    else "Course"
  }

  function IdentityOf(id: MeadowlarkId): DocumentIdentity {
    if id == DISTRICT then [IdentityElement("localEducationAgencyId", "1")]
    else if id == RENAMED_DISTRICT then [IdentityElement("localEducationAgencyId", "2")]
    else if id == SCHOOL then [IdentityElement("schoolId", "2")]
    else if id == REFERRER then [IdentityElement("localCourseCode", "1")]
    else [IdentityElement("courseCode", if id == OLD then "1" else "2")]
  }

  function Write(id: MeadowlarkId, refs: seq<DocumentReference>, timestamp: int): WriteRequest {
    WriteRequest(id, ResourceInfo("Ed-Fi", ResourceOf(id), "3.3.1-b", false), true,
      DocumentInfo(IdentityOf(id), refs, [], SuperclassOf(id), timestamp), "{}", true, "client")
  }

  function Stored(w: WriteRequest, uuid: string): Document {
    DocumentFrom(w, DocumentUuid(uuid), Some(w.info.requestTimestamp))
  }

  lemma DistinctIds()
    ensures OLD != NEW && OLD != REFERRER && NEW != REFERRER
    ensures DISTRICT != RENAMED_DISTRICT && DISTRICT != SCHOOL && RENAMED_DISTRICT != SCHOOL
    ensures SUPERCLASS != SUPERCLASS_OF_OLD
    ensures forall x :: x in {OLD, NEW, REFERRER} ==> SuperclassOf(x) == None && WellFormedId(x)
    ensures forall x :: x in {DISTRICT, RENAMED_DISTRICT, SCHOOL} ==> WellFormedId(x)
    ensures DocumentUuid("1") != DocumentUuid("2")
  {
    assert OLD.text[0] == 'o' && NEW.text[0] == 'n' && REFERRER.text[0] == 'r';
    assert DISTRICT.text[0] == 'd' && RENAMED_DISTRICT.text[0] == 'e' && SCHOOL.text[0] == 'c';
    assert SUPERCLASS.text[0] == 't' && SUPERCLASS_OF_OLD.text[0] == 's';
    assert "1"[0] != "2"[0];
  }

  /** A concrete id, and neither superclass id. */
  predicate WellFormedId(x: MeadowlarkId) {
    Concrete(SCHEMA, x) && x != SUPERCLASS && x != SUPERCLASS_OF_OLD
  }

  /** Two documents with nothing in common, whose references name one of them. */
  lemma PairIsSound(schema: Schema, d: Document, e: Document)
    requires d.id != e.id && d.documentUuid != e.documentUuid
    requires Concrete(schema, d.id) && d.aliasIds == AliasIds(d.id, schema.superclassOf(d.id))
    requires Concrete(schema, e.id) && e.aliasIds == AliasIds(e.id, schema.superclassOf(e.id))
    requires !Intersects(d.aliasIds, e.aliasIds)
    requires forall a :: a in d.outboundRefs || a in e.outboundRefs ==> a in d.aliasIds || a in e.aliasIds
    ensures var s := map[d.id := d, e.id := e]; Invariant(schema, s) && ReferentialIntegrity(s)
  {
    var s := map[d.id := d, e.id := e];
    assert forall x :: x in s ==> s[x] == d || s[x] == e;
    assert s[d.id] == d && s[e.id] == e;
  }

  // ----- PostgreSQL identity changes -----

  const REFERENCE_TO_OLD := DocumentReference(OLD, "Course", IdentityOf(OLD))

  /** A document, and a validated document that refers to it. */
  function Referred(): Store {
    map[OLD := Stored(Write(OLD, [], 1), "1"),
        REFERRER := Stored(Write(REFERRER, [REFERENCE_TO_OLD], 1), "2")]
  }

  lemma RefsOf(refs: seq<DocumentReference>)
    ensures forall time :: OutboundRefs(Write(REFERRER, refs, time).info) == Targets(refs)
  {
  }

  lemma UuidOf(s: Store, x: MeadowlarkId)
    requires UuidsDistinct(s) && x in s
    ensures FindByUuid(s, s[x].documentUuid) == Some(x)
  {
    assert s[x].documentUuid in Uuids(s);
  }

  lemma ReferredIsSound()
    ensures Postgres.Healthy(SCHEMA, Referred())
    ensures Referred()[REFERRER].outboundRefs == [OLD]
  {
    DistinctIds();
    RefsOf([REFERENCE_TO_OLD]);
    var d, e := Stored(Write(OLD, [], 1), "1"), Stored(Write(REFERRER, [REFERENCE_TO_OLD], 1), "2");
    assert d.aliasIds == [OLD] && e.aliasIds == [REFERRER] && d.outboundRefs == [] && e.outboundRefs == [OLD];
    PairIsSound(SCHEMA, d, e);
  }

  /** An accepted identity change leaves the reference of another document dangling. */
  lemma PostgresIdentityChangeDangles()
    ensures Postgres.Healthy(SCHEMA, Referred())
    ensures var req := Update(Write(NEW, [], 2), DocumentUuid("1"), DocumentUuid("3"));
      var (s', result) := Postgres.Serve(Referred(), Postgres.Event(req, Postgres.Expected(Referred(), req)));
      WellFormed(SCHEMA, req) && Succeeded(result) && !ReferentialIntegrity(s')
  {
    DistinctIds();
    ReferredIsSound();
    var s, w := Referred(), Write(NEW, [], 2);
    UuidOf(s, OLD);
    assert Postgres.Expected(s, Update(w, DocumentUuid("1"), DocumentUuid("3"))) == [];
    var d := DocumentFrom(w, DocumentUuid("1"), Some(1));
    assert PostgresTx.UpdateTransaction(s, w, DocumentUuid("1"), []).0 == (s - {OLD})[NEW := d];
    Dangles((s - {OLD})[NEW := d], d);
  }

  lemma Dangles(s: Store, d: Document)
    requires s == (Referred() - {OLD})[NEW := d] && d.aliasIds == [NEW]
    ensures !ReferentialIntegrity(s)
  {
    DistinctIds();
    ReferredIsSound();
    assert s[REFERRER].validated && OLD in s[REFERRER].outboundRefs && !Resolves(s, OLD);
  }

  /** A school, and a district with another value. */
  function Organizations(): Store {
    map[DISTRICT := Stored(Write(DISTRICT, [], 1), "1"), SCHOOL := Stored(Write(SCHOOL, [], 1), "2")]
  }

  lemma OrganizationsAreSound()
    ensures Postgres.Healthy(SCHEMA, Organizations())
  {
    DistinctIds();
    var d, e := Stored(Write(DISTRICT, [], 1), "1"), Stored(Write(SCHOOL, [], 1), "2");
    assert d.aliasIds == [DISTRICT, SUPERCLASS_OF_OLD] && e.aliasIds == [SCHOOL, SUPERCLASS];
    PairIsSound(SCHEMA, d, e);
  }

  /** An accepted identity change gives a district the superclass alias of a school. */
  lemma PostgresIdentityChangeSharesAlias()
    ensures Postgres.Healthy(SCHEMA, Organizations())
    ensures var req := Update(Write(RENAMED_DISTRICT, [], 2), DocumentUuid("1"), DocumentUuid("3"));
      var (s', result) := Postgres.Serve(Organizations(), Postgres.Event(req, Postgres.Expected(Organizations(), req)));
      WellFormed(SCHEMA, req) && Succeeded(result) && !AliasDisjoint(s')
  {
    DistinctIds();
    OrganizationsAreSound();
    var s, w := Organizations(), Write(RENAMED_DISTRICT, [], 2);
    UuidOf(s, DISTRICT);
    assert Postgres.Expected(s, Update(w, DocumentUuid("1"), DocumentUuid("3"))) == [];
    var s' := PostgresTx.UpdateTransaction(s, w, DocumentUuid("1"), []).0;
    assert s' == (s - {DISTRICT})[RENAMED_DISTRICT := DocumentFrom(w, DocumentUuid("1"), Some(1))];
    assert SUPERCLASS in s'[RENAMED_DISTRICT].aliasIds && SUPERCLASS in s'[SCHOOL].aliasIds;
  }

  // ----- MongoDB -----

  function TwoCourses(): Store {
    map[OLD := Stored(Write(OLD, [], 1), "1"), NEW := Stored(Write(NEW, [], 1), "2")]
  }

  lemma TwoCoursesAreSound()
    ensures Invariant(SCHEMA, TwoCourses()) && ReferentialIntegrity(TwoCourses())
    ensures Unreferenced(TwoCourses(), OLD)
  {
    DistinctIds();
    var d, e := Stored(Write(OLD, [], 1), "1"), Stored(Write(NEW, [], 1), "2");
    assert d.aliasIds == [OLD] && e.aliasIds == [NEW] && d.outboundRefs == [] == e.outboundRefs;
    PairIsSound(SCHEMA, d, e);
  }

  /** An identity change of an unreferenced document onto an older one with the new id. */
  lemma MoveOntoHeld(s: Store, w: WriteRequest, uuid: DocumentUuid, freshUuid: DocumentUuid, x: MeadowlarkId)
    requires FindByUuid(s, uuid) == Some(x) && x != w.meadowlarkId && w.meadowlarkId in s && UuidsDistinct(s)
    requires s[x].lastModifiedAt < w.info.requestTimestamp && s[w.meadowlarkId].lastModifiedAt < w.info.requestTimestamp
    requires w.allowIdentityUpdates && Unreferenced(s, x)
    requires OutboundRefs(w.info) == [] && MongoTransactions.WriteFailures(s, w) == []
    ensures Mongo.Serve(s, Update(w, uuid, freshUuid))
            == ((s - {x})[w.meadowlarkId := DocumentFrom(w, uuid, s[x].createdAt)], Updated(UpdateSuccess))
  {
    var d := DocumentFrom(w, uuid, s[x].createdAt);
    assert MongoValidation.Matching(s, []) == {};
    var deletion := MongoTransactions.DeleteTransaction(s, uuid, true);
    assert deletion.result == DeleteSuccess && deletion.store == s - {x};
    var insertion := MongoTransactions.UpsertTransaction(s, s - {x}, w, freshUuid, Some(d));
    assert insertion.store == (s - {x})[w.meadowlarkId := d];
    assert insertion.result == UpsertUpdateSuccess(s[w.meadowlarkId].documentUuid);
  }

  /** An identity change onto a held id succeeds, and the document that held it is gone. */
  lemma MongoIdentityChangeOverwrites()
    ensures Invariant(SCHEMA, TwoCourses()) && ReferentialIntegrity(TwoCourses())
    ensures var req := Update(Write(NEW, [], 2), DocumentUuid("1"), DocumentUuid("3"));
      var (s', result) := Mongo.Serve(TwoCourses(), req);
      && WellFormed(SCHEMA, req) && Succeeded(result)
      && DocumentUuid("2") in Uuids(TwoCourses()) && DocumentUuid("2") !in Uuids(s')
  {
    DistinctIds();
    TwoCoursesAreSound();
    var s, w := TwoCourses(), Write(NEW, [], 2);
    assert s[OLD].documentUuid == DocumentUuid("1") && s[NEW].documentUuid == DocumentUuid("2");
    UuidOf(s, OLD);
    assert OutboundRefs(w.info) == [] && MongoValidation.Matching(s, Targets([])) == {};
    assert MongoTransactions.WriteFailures(s, w) == [];
    MoveOntoHeld(s, w, DocumentUuid("1"), DocumentUuid("3"), OLD);
  }

  const SCHOOL_TWICE := [DocumentReference(SCHOOL, "School", IdentityOf(SCHOOL)),
    DocumentReference(SUPERCLASS, "EducationOrganization", [IdentityElement("educationOrganizationId", "2")])]

  function OneSchool(): Store { map[SCHOOL := Stored(Write(SCHOOL, [], 1), "1")] }

  lemma SchoolNamedTwice()
    ensures Invariant(SCHEMA, OneSchool()) && AllResolve(OneSchool(), Targets(SCHOOL_TWICE))
    ensures MongoValidation.NamedTwice(OneSchool(), Targets(SCHOOL_TWICE))
  {
    DistinctIds();
    var s := OneSchool();
    assert s[SCHOOL].aliasIds == [SCHOOL, SUPERCLASS];
    assert Targets(SCHOOL_TWICE) == [SCHOOL, SUPERCLASS];
    assert SCHOOL in s[SCHOOL].aliasIds && SUPERCLASS in s[SCHOOL].aliasIds;
  }

  /** A body that names one document by its own id and by its superclass id is refused,
      although both references resolve. */
  lemma MongoFalseMiss()
    ensures var (s, w) := (OneSchool(), Write(REFERRER, SCHOOL_TWICE, 2));
      && Invariant(SCHEMA, s) && WellFormedWrite(SCHEMA, w) && AllResolve(s, OutboundRefs(w.info))
      && MongoValidation.Failures(s, w.info) != []
  {
    DistinctIds();
    SchoolNamedTwice();
    RefsOf(SCHOOL_TWICE);
    MongoValidation.DocumentsPassIff(OneSchool(), SCHOOL_TWICE);
  }

  // ----- Extraction -----

  const SESSIONS: Path := [Field("sessions"), Star]
  const FIRST := Object([Member("schoolId", Number("1"))])
  const SECOND := Object([Member("sessionName", Text("Fall"))])
  const BODY := Object([Member("sessions", Array([FIRST, SECOND]))])
  const LEAF := map["schoolId" := "schoolId", "sessionName" := "sessionName"]
  const PROPERTY := ReferenceExtraction.DocumentPaths(true, false, "Ed-Fi", "Session",
    map["schoolId" := SESSIONS + [Field("schoolId")], "sessionName" := SESSIONS + [Field("sessionName")]],
      ["schoolId", "sessionName"])
  const PROJECTS := [ReferenceExtraction.ProjectSchema("Ed-Fi",
    [ReferenceExtraction.ResourceOrder("Session", ["schoolId", "sessionName"])], [])]

  lemma Columns()
    ensures Gather(Eval(SESSIONS, BODY), "schoolId") == [Number("1")]
      && Gather(Eval(SESSIONS, BODY), "sessionName") == [Text("Fall")]
    ensures |Eval(SESSIONS, BODY)| == 2
    ensures ReferenceExtraction.ScalarFields(Eval(SESSIONS, BODY), LEAF)
  {
    assert "schoolId"[1] != "sessionName"[1];
    assert FIRST.members[0].key == "schoolId" && SECOND.members[0].key == "sessionName"
      && BODY.members[0].key == "sessions";
    assert SESSIONS[1..] == [Star] && [Star][1..] == [];
    assert Eval([], FIRST) == [FIRST] && Eval([], SECOND) == [SECOND];
    assert [FIRST, SECOND][1..] == [SECOND] && [SECOND][1..] == [];
    assert EvalAll([], [SECOND]) == [SECOND];
    assert EvalAll([], [FIRST, SECOND]) == [FIRST, SECOND];
    assert Eval(SESSIONS, BODY) == [FIRST, SECOND];
    assert Gather([SECOND], "schoolId") == [] && Gather([SECOND], "sessionName") == [Text("Fall")];
  }

  const MIXED := ReferenceExtraction.Reference("Ed-Fi", "Session",
    [Pair("schoolId", Some(Number("1"))), Pair("sessionName", Some(Text("Fall")))])
  const COLUMNS := map["schoolId" := [Number("1")], "sessionName" := [Text("Fall")]]

  lemma ValuesOfKeys()
    ensures Values(PROPERTY.paths["schoolId"], BODY) == [Number("1")]
    ensures Values(PROPERTY.paths["sessionName"], BODY) == [Text("Fall")]
  {
    Columns();
    assert "schoolId"[1] != "sessionName"[1];
    assert "schoolId" in LEAF && "sessionName" in LEAF;
    ReferenceExtraction.ColumnIs(PROPERTY, SESSIONS, LEAF, BODY, "schoolId");
    ReferenceExtraction.ColumnIs(PROPERTY, SESSIONS, LEAF, BODY, "sessionName");
  }

  lemma SlicesAre()
    ensures ReferenceExtraction.Slices(PROPERTY.paths, BODY) == COLUMNS
  {
    ValuesOfKeys();
    assert "schoolId"[1] != "sessionName"[1];
  }

  lemma RowsOfColumns()
    ensures "schoolId" in COLUMNS && ReferenceExtraction.EqualLengths(COLUMNS)
      && !ReferenceExtraction.MissesSlice(PROPERTY, COLUMNS)
    ensures ReferenceExtraction.Rows(PROPERTY, COLUMNS, ["schoolId", "sessionName"]) == [MIXED]
  {
    assert "schoolId"[1] != "sessionName"[1];
    assert "schoolId" in COLUMNS;
    assert ReferenceExtraction.RowCount(COLUMNS) == |COLUMNS["schoolId"]| == 1;
    assert ReferenceExtraction.Row(PROPERTY, COLUMNS, ["schoolId", "sessionName"], 0).identity == MIXED.identity;
  }

  /** Two objects that each lack the other's key give one reference, with a value of each. */
  lemma ColumnsMixObjects()
    ensures |Eval(SESSIONS, BODY)| == 2
    ensures ReferenceExtraction.PropertyReferences(PROJECTS, PROPERTY, BODY) == Ok([MIXED])
  {
    Columns();
    SlicesAre();
    RowsOfColumns();
    assert "schoolId" in COLUMNS;
    assert ReferenceExtraction.IdentityPathOrder(PROJECTS, "Ed-Fi", "Session") == Ok(["schoolId", "sessionName"]);
  }

  const P: Path := [Field("a")]
  const Q: Path := [Field("b")]
  const ABSENT: Path := [Field("c")]
  const TWO_VALUES := Object([Member("a", Number("1")), Member("b", Number("2"))])
  const MAPPING: IdentityExtraction.PathsMapping := map["f" := map["k" := P], "g" := map["k" := Q]]

  lemma TwoValues()
    ensures Eval(P, TWO_VALUES) == [Number("1")] && Eval(Q, TWO_VALUES) == [Number("2")]
      && Eval(ABSENT, TWO_VALUES) == []
  {
    assert "a"[0] != "b"[0] && "a"[0] != "c"[0] && "b"[0] != "c"[0];
    assert TWO_VALUES.members[0].key == "a" && TWO_VALUES.members[1].key == "b";
    assert P[1..] == [] && Q[1..] == [];
    assert TWO_VALUES.members[1..][0].key == "b";
    assert Eval([], Number("1")) == [Number("1")] && Eval([], Number("2")) == [Number("2")];
  }

  lemma WinnersOfTwo()
    ensures IdentityExtraction.Winners(["f", "g"], MAPPING) == map["k" := Q]
    ensures IdentityExtraction.Winners(["g", "f"], MAPPING) == map["k" := P]
  {
    assert "f"[0] != "g"[0];
    assert ["f", "g"][..1] == ["f"] && ["g", "f"][..1] == ["g"] && ["f"][..0] == [] && ["g"][..0] == [];
    assert IdentityExtraction.Winners(["f"], MAPPING) == map["k" := P];
    assert IdentityExtraction.Winners(["g"], MAPPING) == map["k" := Q];
  }

  lemma ElementOfOne(p: Path, v: Json)
    requires Eval(p, TWO_VALUES) == [v] && Star !in p && v.Number?
    ensures IdentityExtraction.Elements(map["k" := p], ["k"], TWO_VALUES) == Ok([Pair("k", Some(v))])
  {
    var order := ["k"];
    assert order[..|order| - 1] == [];
    assert IdentityExtraction.Elements(map["k" := p], order[..|order| - 1], TWO_VALUES) == Ok([]);
    assert IdentityExtraction.ElementValue(map["k" := p], "k", TWO_VALUES) == Ok(v);
    assert [] + [Pair("k", Some(v))] == [Pair("k", Some(v))];
  }

  const CHAIN :=
    [IdentityExtraction.EqualityConstraint(P, ABSENT), IdentityExtraction.EqualityConstraint(ABSENT, Q)]

  lemma ChainHolds()
    ensures IdentityExtraction.Violations(CHAIN, TWO_VALUES) == []
  {
    TwoValues();
    assert Values(P, TWO_VALUES) == [Number("1")] && Values(Q, TWO_VALUES) == [Number("2")]
      && Values(ABSENT, TWO_VALUES) == [];
  }

  /** A chain of constraints through an absent value equates nothing: the body passes, and
      the identity depends on which property comes last. */
  lemma AbsentLinkNotConfluent()
    ensures IdentityExtraction.Violations(CHAIN, TWO_VALUES) == []
    ensures IdentityExtraction.Identity(["f", "g"], MAPPING, ["k"], TWO_VALUES) == Ok([Pair("k", Some(Number("2")))])
    ensures IdentityExtraction.Identity(["g", "f"], MAPPING, ["k"], TWO_VALUES) == Ok([Pair("k", Some(Number("1")))])
    ensures Number("1") != Number("2")
  {
    assert "1"[0] != "2"[0];
    ChainHolds();
    TwoValues();
    WinnersOfTwo();
    ElementOfOne(P, Number("1"));
    ElementOfOne(Q, Number("2"));
  }
}
