/** The id a referrer computes for a document, the id the document computes for itself, and
    the superclass id it also answers to. */
module ReferenceIds {
  import opened Model
  import opened Collections
  import opened Json
  import opened ExtractionResult
  import opened ReferenceExtraction
  import opened IdentityExtraction
  import opened DocumentIdentityHash
  import Strings

  // ----- Superclass form -----

  datatype Subclass =
    | NotSubclass
    | AssociationSubclass
    | DomainEntitySubclass(superclassKey: string, subclassKey: string)

  predicate HasElement(identity: seq<Pair>, key: string) {
    exists i :: 0 <= i < |identity| && Names(identity[i], key)
  }

  /** `element[key] != null` */
  predicate Names(e: Pair, key: string) {
    e.key == key && e.value.Some? && !e.value.value.Null?
  }

  function FirstIndex(identity: seq<Pair>, key: string): (i: nat)
    requires HasElement(identity, key)
    ensures i < |identity| && Names(identity[i], key) && forall j :: 0 <= j < i ==> !Names(identity[j], key)
  {
    if Names(identity[0], key) then 0 else 1 + FirstIndex(identity[1..], key)
  }

  function SuperclassIdentity(subclass: Subclass, identity: seq<Pair>): Extracted<Option<seq<Pair>>> {
    match subclass
    case NotSubclass => Ok(None)
    case AssociationSubclass => Ok(Some(identity))
    case DomainEntitySubclass(superclassKey, subclassKey) =>
      if HasElement(identity, subclassKey) then
        var i := FirstIndex(identity, subclassKey);
        Ok(Some(identity[i := Pair(superclassKey, identity[i].value)]))
      else Error(NoElementToRename)
  }

  /** Clones the identity and overwrites the element to be renamed. */
  method DeriveSuperclassInfoFrom(subclass: Subclass, identity: seq<Pair>) returns (r: Extracted<Option<seq<Pair>>>)
    ensures r == SuperclassIdentity(subclass, identity)
  {
    match subclass {
      case NotSubclass => return Ok(None);
      case AssociationSubclass => return Ok(Some(identity));
      case DomainEntitySubclass(superclassKey, subclassKey) =>
        var clone := new Pair[|identity|](i requires 0 <= i < |identity| => identity[i]);
        var index := 0;
        while index < clone.Length && !Names(clone[index], subclassKey)
          invariant 0 <= index <= clone.Length
          invariant clone[..] == identity
          invariant forall j :: 0 <= j < index ==> !Names(identity[j], subclassKey)
        {
          index := index + 1;
        }
        if index == clone.Length {
          return Error(NoElementToRename);
        }
        clone[index] := Pair(superclassKey, clone[index].value);
        return Ok(Some(clone[..]));
    }
  }

  predicate FirstElement(identity: seq<Pair>, key: string, i: nat) {
    i < |identity| && Names(identity[i], key) && forall j :: 0 <= j < i ==> !Names(identity[j], key)
  }

  /** Every answer: no superclass, no element to rename, or the identity with exactly one change,
      the key of the first element of the subclass key. */
  lemma SuperclassIdentityIs(subclass: Subclass, identity: seq<Pair>)
    ensures SuperclassIdentity(subclass, identity) == Ok(None) <==> subclass.NotSubclass?
    ensures subclass.AssociationSubclass? ==> SuperclassIdentity(subclass, identity) == Ok(Some(identity))
    ensures subclass.DomainEntitySubclass? ==>
      (SuperclassIdentity(subclass, identity) == Error(NoElementToRename) <==>
        forall e :: e in identity && e.key == subclass.subclassKey ==> e.value == None || e.value == Some(Null))
    ensures subclass.DomainEntitySubclass? ==>
      forall i: nat :: FirstElement(identity, subclass.subclassKey, i) ==>
        SuperclassIdentity(subclass, identity)
        == Ok(Some(identity[..i] + [Pair(subclass.superclassKey, identity[i].value)] + identity[i + 1..]))
  {
    if subclass.DomainEntitySubclass? && HasElement(identity, subclass.subclassKey) {
      var i := FirstIndex(identity, subclass.subclassKey);
      var renamed := Pair(subclass.superclassKey, identity[i].value);
      assert identity[i := renamed] == identity[..i] + [renamed] + identity[i + 1..];
      assert identity[i] in identity;
    }
  }

  // ----- Text of a value -----

  function Joined(texts: seq<string>): string {
    if texts == [] then "" else if |texts| == 1 then texts[0] else texts[0] + "," + Joined(texts[1..])
  }

  /** How a template string shows a value. */
  function Shown(v: Json): string
    decreases v
  {
    match v
    case Null => "null"
    case Boolean(b) => if b then "true" else "false"
    case Number(numeral) => numeral
    case Text(characters) => characters
    case Array(items) =>
      Joined(seq(|items|, i requires 0 <= i < |items| => if items[i].Null? then "" else Shown(items[i])))
    case Object(_) => "[object Object]"
  }

  function ShownOption(v: Option<Json>): string {
    if v.None? then "undefined" else Shown(v.value)
  }

  function Written(identity: seq<Pair>): (out: DocumentIdentity)
    ensures |out| == |identity|
  {
    seq(|identity|, i requires 0 <= i < |identity| => IdentityElement(identity[i].key, ShownOption(identity[i].value)))
  }

  lemma ArrayShown(items: seq<Json>)
    ensures Shown(Array(items)) == Joined(ItemTexts(items))
  {
    assert ItemTexts(items)
      == seq(|items|, i requires 0 <= i < |items| => if items[i].Null? then "" else Shown(items[i]));
  }

  /** How arrays, objects and null are shown: an array shows its items between commas, null as nothing. */
  lemma ShownIs(items: seq<Json>, last: Json)
    ensures Shown(Null) == "null" && forall members :: Shown(Object(members)) == "[object Object]"
    ensures Shown(Array([])) == "" && Shown(Array([last])) == if last.Null? then "" else Shown(last)
    ensures items != [] ==>
      Shown(Array(items + [last])) == Shown(Array(items)) + "," + if last.Null? then "" else Shown(last)
  {
    ArrayShown([]);
    ArrayShown([last]);
    ArrayShown(items);
    ArrayShown(items + [last]);
    var text := if last.Null? then "" else Shown(last);
    assert ItemTexts([last]) == [text] && ItemTexts(items + [last]) == ItemTexts(items) + [text];
    JoinedAppend(ItemTexts(items), text);
  }

  function ItemTexts(items: seq<Json>): seq<string> {
    seq(|items|, i requires 0 <= i < |items| => if items[i].Null? then "" else Shown(items[i]))
  }

  lemma {:induction false} JoinedAppend(texts: seq<string>, last: string)
    ensures texts != [] ==> Joined(texts + [last]) == Joined(texts) + "," + last
  {
    if |texts| == 1 {
      assert (texts + [last])[1..] == [last];
    } else if texts != [] {
      assert (texts + [last])[1..] == texts[1..] + [last];
      JoinedAppend(texts[1..], last);
      Strings.Associative(texts[0] + ",", Joined(texts[1..]) + ",", last);
      Strings.Associative(texts[0] + ",", Joined(texts[1..]), ",");
    }
  }

  /** What is written for a scalar, and for a missing value. */
  lemma WrittenIs(identity: seq<Pair>, i: nat, text: string)
    requires i < |identity|
    ensures Written(identity)[i].key == identity[i].key
    ensures identity[i].value == Some(Text(text)) || identity[i].value == Some(Number(text)) ==>
      Written(identity)[i].value == text
    ensures identity[i].value == Some(Boolean(true)) ==> Written(identity)[i].value == "true"
    ensures identity[i].value == Some(Boolean(false)) ==> Written(identity)[i].value == "false"
    ensures identity[i].value == None ==> Written(identity)[i].value == "undefined"
  {
  }

  predicate SameValues(a: seq<Pair>, b: seq<Pair>) {
    |a| == |b| && forall i :: 0 <= i < |a| ==> ShownOption(a[i].value) == ShownOption(b[i].value)
  }

  predicate KeysAre(identity: seq<Pair>, order: seq<string>) {
    |identity| == |order| && forall i :: 0 <= i < |order| ==> identity[i].key == order[i]
  }

  // ----- Meeting of ids -----

  function ReferenceId(hash: Hash, r: Reference): MeadowlarkId {
    IdFor(hash, r.projectName, r.resourceName, Written(r.identity))
  }

  /** The hash confuses neither the two resources nor the two identities. */
  ghost predicate Separates(hash: Hash, p: string, r: string, a: seq<Pair>, q: string, s: string, b: seq<Pair>) {
    && OutputLengths(hash)
    && '#' !in p && '#' !in q
    && PlainKeys(Written(a)) && Clean(Written(a)) && Clean(Written(b))
    && NoCollision(hash, ResourceString(p, r), ResourceString(q, s), 12)
    && NoCollision(hash, IdentityString(Written(a)), IdentityString(Written(b)), 16)
  }

  /** The hash does not confuse the reference with a document of its own resource. */
  ghost predicate SeparatesReference(hash: Hash, r: Reference, identity: seq<Pair>) {
    Separates(hash, r.projectName, r.resourceName, r.identity, r.projectName, r.resourceName, identity)
  }

  lemma SameOrderIdsMeet(hash: Hash, r: Reference, projectName: string, resourceName: string, identity: seq<Pair>,
      order: seq<string>)
    requires KeysAre(r.identity, order) && KeysAre(identity, order)
    requires r.projectName == projectName && r.resourceName == resourceName
    ensures SameValues(r.identity, identity) ==>
      ReferenceId(hash, r) == IdFor(hash, projectName, resourceName, Written(identity))
    ensures SeparatesReference(hash, r, identity) ==>
      ReferenceId(hash, r) == IdFor(hash, projectName, resourceName, Written(identity)) ==>
        SameValues(r.identity, identity)
  {
    var a, b := Written(r.identity), Written(identity);
    if SameValues(r.identity, identity) {
      assert a == b;
    }
    if SeparatesReference(hash, r, identity) {
      IdsEqualIff(hash, projectName, resourceName, a, projectName, resourceName, b);
      if a == b {
        forall i | 0 <= i < |order| ensures ShownOption(r.identity[i].value) == ShownOption(identity[i].value) {
          assert a[i] == b[i];
        }
      }
    }
  }

  /** Every extracted reference lists the keys of the identity path order of its target. */
  lemma ReferenceKeys(projects: seq<ProjectSchema>, dp: DocumentPaths, body: Json, r: Reference)
    requires PropertyReferences(projects, dp, body).Ok? && r in PropertyReferences(projects, dp, body).value
    ensures r.projectName == dp.projectName && r.resourceName == dp.resourceName
    ensures IdentityPathOrder(projects, dp.projectName, dp.resourceName).Ok?
    ensures KeysAre(r.identity, IdentityPathOrder(projects, dp.projectName, dp.resourceName).value)
  {
  }

  /** Main result: a reference and the document it names compute one id if they show the same
      values, and, unless the hash collides, only then. */
  lemma ReferenceMeetsDocument(hash: Hash, projects: seq<ProjectSchema>, dp: DocumentPaths, referrer: Json,
      r: Reference, fullnames: seq<string>, mapping: PathsMapping, order: seq<string>, body: Json)
    requires PropertyReferences(projects, dp, referrer).Ok? && r in PropertyReferences(projects, dp, referrer).value
    requires IdentityPathOrder(projects, dp.projectName, dp.resourceName) == Ok(order)
    requires Identity(fullnames, mapping, order, body).Ok?
    ensures var identity := Identity(fullnames, mapping, order, body).value;
      var id := IdFor(hash, dp.projectName, dp.resourceName, Written(identity));
      && (SameValues(r.identity, identity) ==> ReferenceId(hash, r) == id)
      && (SeparatesReference(hash, r, identity) && ReferenceId(hash, r) == id ==> SameValues(r.identity, identity))
  {
    ReferenceKeys(projects, dp, referrer, r);
    ElementKeys(Winners(fullnames, mapping), order, body);
    SameOrderIdsMeet(hash, r, dp.projectName, dp.resourceName, Identity(fullnames, mapping, order, body).value, order);
  }

  // ----- References to a superclass -----

  /** The identity path order a superclass must have for the subclass to meet it: the same
      keys, with the renamed one in its place. */
  function SuperclassOrder(subclass: Subclass, order: seq<string>): seq<string> {
    match subclass
    case DomainEntitySubclass(superclassKey, subclassKey) =>
      if subclassKey in order then order[IndexOf(order, subclassKey) := superclassKey] else order
    case _ => order
  }

  /** The superclass form keeps every value and renames one key. */
  lemma SuperclassForm(subclass: Subclass, identity: seq<Pair>, order: seq<string>)
    requires KeysAre(identity, order) && AllPresent(identity)
    requires SuperclassIdentity(subclass, identity).Ok? && !subclass.NotSubclass?
    ensures var form := SuperclassIdentity(subclass, identity).value;
      form.Some? && KeysAre(form.value, SuperclassOrder(subclass, order)) && SameValues(form.value, identity)
  {
    if subclass.DomainEntitySubclass? {
      var i := FirstIndex(identity, subclass.subclassKey);
      assert order[i] == subclass.subclassKey;
      assert IndexOf(order, subclass.subclassKey) == i;
    }
  }

  lemma ExtractedPresent(fullnames: seq<string>, mapping: PathsMapping, order: seq<string>, body: Json)
    requires Identity(fullnames, mapping, order, body).Ok?
    ensures var identity := Identity(fullnames, mapping, order, body).value;
      KeysAre(identity, order) && AllPresent(identity)
  {
    ElementKeys(Winners(fullnames, mapping), order, body);
  }

  predicate AllPresent(identity: seq<Pair>) {
    forall i :: 0 <= i < |identity| ==> identity[i].value.Some? && !identity[i].value.value.Null?
  }

  lemma SameRenamedIndex(a: seq<Pair>, b: seq<Pair>, key: string)
    requires |a| == |b| && AllPresent(a) && AllPresent(b) && forall i :: 0 <= i < |a| ==> a[i].key == b[i].key
    ensures HasElement(a, key) <==> HasElement(b, key)
    ensures HasElement(a, key) ==> FirstIndex(a, key) == FirstIndex(b, key)
  {
    assert forall i :: 0 <= i < |a| ==> (Names(a[i], key) <==> Names(b[i], key));
  }

  /** Why the store may take the superclass id as a function of the document id: two documents
      of one subclass with the same id have the same superclass id. */
  lemma SuperclassIdDetermined(hash: Hash, projectName: string, resourceName: string, a: seq<Pair>, b: seq<Pair>,
      subclass: Subclass, superProject: string, superResource: string)
    requires AllPresent(a) && AllPresent(b) && !subclass.NotSubclass?
    requires |a| == |b| && forall i :: 0 <= i < |a| ==> a[i].key == b[i].key
    requires Separates(hash, projectName, resourceName, a, projectName, resourceName, b)
    requires IdFor(hash, projectName, resourceName, Written(a)) == IdFor(hash, projectName, resourceName, Written(b))
    requires SuperclassIdentity(subclass, b).Ok?
    ensures SuperclassIdentity(subclass, a).Ok?
    ensures SuperclassIdentity(subclass, a).value.Some? && SuperclassIdentity(subclass, b).value.Some?
    ensures IdFor(hash, superProject, superResource, Written(SuperclassIdentity(subclass, a).value.value))
            == IdFor(hash, superProject, superResource, Written(SuperclassIdentity(subclass, b).value.value))
  {
    IdsEqualIff(hash, projectName, resourceName, Written(a), projectName, resourceName, Written(b));
    forall i | 0 <= i < |a| ensures ShownOption(a[i].value) == ShownOption(b[i].value) {
      assert Written(a)[i] == Written(b)[i];
    }
    if subclass.DomainEntitySubclass? {
      SameRenamedIndex(a, b, subclass.subclassKey);
    }
    assert Written(SuperclassIdentity(subclass, a).value.value) == Written(SuperclassIdentity(subclass, b).value.value);
  }

  /** Main result: a reference to a superclass meets the superclass id of a subclass document
      if it shows the document's values, and, unless the hash collides, only then. */
  lemma ReferenceMeetsSuperclass(hash: Hash, projects: seq<ProjectSchema>, dp: DocumentPaths, referrer: Json,
      r: Reference, subclass: Subclass, fullnames: seq<string>, mapping: PathsMapping, order: seq<string>, body: Json)
    requires PropertyReferences(projects, dp, referrer).Ok? && r in PropertyReferences(projects, dp, referrer).value
    requires Identity(fullnames, mapping, order, body).Ok? && !subclass.NotSubclass?
    requires SuperclassIdentity(subclass, Identity(fullnames, mapping, order, body).value).Ok?
    requires IdentityPathOrder(projects, dp.projectName, dp.resourceName) == Ok(SuperclassOrder(subclass, order))
    ensures SuperclassIdentity(subclass, Identity(fullnames, mapping, order, body).value).value.Some?
    ensures var identity := Identity(fullnames, mapping, order, body).value;
      var form := SuperclassIdentity(subclass, identity).value.value;
      var superclassId := IdFor(hash, dp.projectName, dp.resourceName, Written(form));
      && (SameValues(r.identity, identity) ==> ReferenceId(hash, r) == superclassId)
      && (SeparatesReference(hash, r, form) && ReferenceId(hash, r) == superclassId ==>
           SameValues(r.identity, identity))
  {
    var identity := Identity(fullnames, mapping, order, body).value;
    ExtractedPresent(fullnames, mapping, order, body);
    SuperclassForm(subclass, identity, order);
    ReferenceKeys(projects, dp, referrer, r);
    SameOrderIdsMeet(hash, r, dp.projectName, dp.resourceName, SuperclassIdentity(subclass, identity).value.value,
      SuperclassOrder(subclass, order));
  }
}
