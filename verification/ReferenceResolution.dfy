/** From ids back to what they stand for: a reference resolves exactly when some stored
    document shows the referenced resource and identity, or has them as its superclass form. */
module ReferenceResolution {
  import opened Model
  import opened StoreChanges
  import opened Strings
  import opened DocumentIdentityHash
  import Mongo = MongoSerial

  /** What an id is computed from. */
  datatype Form = Form(projectName: string, resourceName: string, identity: DocumentIdentity)

  /** The superclass form of a document of this form, if its resource is a subclass. */
  type SuperclassForm = Form -> Option<Form>

  function FormId(hash: Hash, f: Form): MeadowlarkId {
    IdFor(hash, f.projectName, f.resourceName, f.identity)
  }

  function OwnForm(resource: ResourceInfo, identity: DocumentIdentity): Form {
    Form(resource.projectName, resource.resourceName, identity)
  }

  function SuperclassId(hash: Hash, superclassForm: SuperclassForm, f: Form): Option<MeadowlarkId> {
    match superclassForm(f)
    case None => None
    case Some(g) => Some(FormId(hash, g))
  }

  /** The document can be named by this form. */
  predicate Answers(superclassForm: SuperclassForm, d: Document, f: Form) {
    var own := OwnForm(d.resource, d.documentIdentity);
    f == own || superclassForm(own) == Some(f)
  }

  /** The request carries the ids computed from its identity. */
  predicate ComputedWrite(hash: Hash, superclassForm: SuperclassForm, w: WriteRequest) {
    var own := OwnForm(w.resource, w.info.documentIdentity);
    w.meadowlarkId == FormId(hash, own) && w.info.superclassId == SuperclassId(hash, superclassForm, own)
  }

  predicate ComputedAliases(hash: Hash, superclassForm: SuperclassForm, d: Document) {
    var own := OwnForm(d.resource, d.documentIdentity);
    d.aliasIds == AliasIds(FormId(hash, own), SuperclassId(hash, superclassForm, own))
  }

  ghost predicate IdsComputed(hash: Hash, superclassForm: SuperclassForm, s: Store) {
    forall x :: x in s ==> ComputedAliases(hash, superclassForm, s[x])
  }

  /** The keys of an identity depend on its resource alone, and the identity is clean. */
  ghost predicate FollowsSchema(keysOf: (string, string) -> seq<string>, f: Form) {
    && '#' !in f.projectName && PlainKeys(f.identity) && Clean(f.identity)
    && |f.identity| == |keysOf(f.projectName, f.resourceName)|
    && forall i :: 0 <= i < |f.identity| ==> f.identity[i].key == keysOf(f.projectName, f.resourceName)[i]
  }

  predicate Distinguishes(hash: Hash, f: Form, g: Form) {
    && NoCollision(hash, ResourceString(f.projectName, f.resourceName),
      ResourceString(g.projectName, g.resourceName), 12)
    && NoCollision(hash, IdentityString(f.identity), IdentityString(g.identity), 16)
  }

  /** Unless the hash collides, an id stands for one form. */
  lemma FormIdInjective(hash: Hash, keysOf: (string, string) -> seq<string>, f: Form, g: Form)
    requires OutputLengths(hash) && Distinguishes(hash, f, g)
    requires FollowsSchema(keysOf, f) && FollowsSchema(keysOf, g)
    ensures FormId(hash, f) == FormId(hash, g) <==> f == g
  {
    IdDeterminesDigests(hash, f.projectName, f.resourceName, f.identity, g.projectName, g.resourceName, g.identity);
    if FormId(hash, f) == FormId(hash, g) {
      FirstDelimiter('#', f.projectName, f.resourceName, g.projectName, g.resourceName);
      CleanStringsInjective(f.identity, g.identity);
    }
  }

  /** Every form a stored document answers to follows the schema and is told apart from `f`. */
  ghost predicate Separated(hash: Hash, keysOf: (string, string) -> seq<string>, superclassForm: SuperclassForm,
      s: Store, f: Form)
  {
    && OutputLengths(hash) && FollowsSchema(keysOf, f)
    && forall x, g :: x in s && Answers(superclassForm, s[x], g) ==>
      FollowsSchema(keysOf, g) && Distinguishes(hash, f, g)
  }

  lemma AliasMeansAnswers(hash: Hash, keysOf: (string, string) -> seq<string>, superclassForm: SuperclassForm,
      s: Store, f: Form, x: MeadowlarkId)
    requires IdsComputed(hash, superclassForm, s) && Separated(hash, keysOf, superclassForm, s, f) && x in s
    ensures FormId(hash, f) in s[x].aliasIds <==> Answers(superclassForm, s[x], f)
  {
    var own := OwnForm(s[x].resource, s[x].documentIdentity);
    assert ComputedAliases(hash, superclassForm, s[x]);
    assert Answers(superclassForm, s[x], own);
    FormIdInjective(hash, keysOf, f, own);
    if superclassForm(own).Some? {
      assert Answers(superclassForm, s[x], superclassForm(own).value);
      FormIdInjective(hash, keysOf, f, superclassForm(own).value);
    }
  }

  /** Main result: a reference resolves exactly when a stored document answers to its form. */
  lemma ResolvesIff(hash: Hash, keysOf: (string, string) -> seq<string>, superclassForm: SuperclassForm, s: Store,
      f: Form)
    requires IdsComputed(hash, superclassForm, s) && Separated(hash, keysOf, superclassForm, s, f)
    ensures Resolves(s, FormId(hash, f)) <==> exists x :: x in s && Answers(superclassForm, s[x], f)
  {
    forall x | x in s ensures FormId(hash, f) in s[x].aliasIds <==> Answers(superclassForm, s[x], f) {
      AliasMeansAnswers(hash, keysOf, superclassForm, s, f, x);
    }
  }

  // ----- Over runs -----

  lemma WriteKeepsIdsComputed(hash: Hash, superclassForm: SuperclassForm, s: Store, s': Store, d: Document,
      w: WriteRequest)
    requires IdsComputed(hash, superclassForm, s) && Carries(d, w) && ComputedWrite(hash, superclassForm, w)
    requires forall y :: y in s' ==> s'[y] == d || (y in s && s'[y] == s[y])
    ensures IdsComputed(hash, superclassForm, s')
  {
    assert ComputedAliases(hash, superclassForm, d);
  }

  /** A successful write leaves one document that carries the request; all others are old. */
  lemma WrittenOrOld(s: Store, req: Request) returns (d: Document)
    requires !req.Delete? && Succeeded(Mongo.Serve(s, req).1)
    ensures Carries(d, req.write)
    ensures var s' := Mongo.Serve(s, req).0; forall y :: y in s' ==> s'[y] == d || (y in s && s'[y] == s[y])
  {
    if req.Upsert? {
      d := Mongo.UpsertShape(s, req.write, req.freshUuid);
    } else {
      var x;
      x, d := Mongo.UpdateShape(s, req.write, req.documentUuid, req.freshUuid);
    }
  }

  lemma DeletedOrOld(s: Store, req: Request)
    requires req.Delete?
    ensures var s' := Mongo.Serve(s, req).0; forall y :: y in s' ==> y in s && s'[y] == s[y]
  {
  }

  lemma ServeKeepsIdsComputed(hash: Hash, superclassForm: SuperclassForm, s: Store, req: Request)
    requires IdsComputed(hash, superclassForm, s)
    requires !req.Delete? ==> ComputedWrite(hash, superclassForm, req.write)
    ensures IdsComputed(hash, superclassForm, Mongo.Serve(s, req).0)
  {
    if req.Delete? {
      DeletedOrOld(s, req);
    } else if Succeeded(Mongo.Serve(s, req).1) {
      var d := WrittenOrOld(s, req);
      WriteKeepsIdsComputed(hash, superclassForm, s, Mongo.Serve(s, req).0, d, req.write);
    }
  }

  /** Main result: after every serial MongoDB run of requests whose ids were computed from
      their identities, a reference resolves exactly when a stored document answers to it. */
  lemma {:induction false} RunResolvesIff(hash: Hash, keysOf: (string, string) -> seq<string>,
      superclassForm: SuperclassForm, reqs: seq<Request>, f: Form)
    requires forall i :: 0 <= i < |reqs| && !reqs[i].Delete? ==> ComputedWrite(hash, superclassForm, reqs[i].write)
    ensures IdsComputed(hash, superclassForm, Mongo.After(reqs))
    ensures var s := Mongo.After(reqs);
      Separated(hash, keysOf, superclassForm, s, f) ==>
        (Resolves(s, FormId(hash, f)) <==> exists x :: x in s && Answers(superclassForm, s[x], f))
  {
    if reqs != [] {
      var n := |reqs| - 1;
      RunResolvesIff(hash, keysOf, superclassForm, reqs[..n], f);
      ServeKeepsIdsComputed(hash, superclassForm, Mongo.After(reqs[..n]), reqs[n]);
    }
    if Separated(hash, keysOf, superclassForm, Mongo.After(reqs), f) {
      ResolvesIff(hash, keysOf, superclassForm, Mongo.After(reqs), f);
    }
  }
}
