/** The search index that listeners keep beside a document store, and when it tells the truth
    about the store. */
module SearchIndex {
  import opened Model
  import opened StoreChanges
  import opened Strings

  // ----- Index names -----

  /** Lower case, with every period replaced by a hyphen. */
  function Folded(s: string): (f: string)
    ensures |f| == |s| && ('$' in f <==> '$' in s)
  {
    var f := seq(|s|, i requires 0 <= i < |s| => var c := LowerChar(s[i]); if c == '.' then '-' else c);
    assert forall i :: 0 <= i < |s| ==> (f[i] == '$' <==> s[i] == '$');
    f
  }

  function IndexName(resource: ResourceInfo): string {
    Folded(resource.projectName + "$" + resource.resourceVersion + "$" + resource.resourceName)
  }

  lemma FoldedAppend(a: string, b: string)
    ensures Folded(a + b) == Folded(a) + Folded(b)
  {
  }

  /** Two resources share an index exactly when their names and versions agree up to case and
      periods. */
  lemma SameIndexIff(r: ResourceInfo, q: ResourceInfo)
    requires '$' !in r.projectName && '$' !in r.resourceVersion && '$' !in q.projectName && '$' !in q.resourceVersion
    ensures IndexName(r) == IndexName(q) <==>
            && Folded(r.projectName) == Folded(q.projectName)
            && Folded(r.resourceVersion) == Folded(q.resourceVersion)
            && Folded(r.resourceName) == Folded(q.resourceName)
  {
    IndexNameParts(r);
    IndexNameParts(q);
    if IndexName(r) == IndexName(q) {
      FirstDelimiter('$', Folded(r.projectName), Folded(r.resourceVersion) + "$" + Folded(r.resourceName),
                  Folded(q.projectName), Folded(q.resourceVersion) + "$" + Folded(q.resourceName));
      FirstDelimiter('$', Folded(r.resourceVersion), Folded(r.resourceName), Folded(q.resourceVersion),
        Folded(q.resourceName));
    }
  }

  lemma IndexNameParts(r: ResourceInfo)
    ensures IndexName(r) == Folded(r.projectName) + "$" + (Folded(r.resourceVersion) + "$" + Folded(r.resourceName))
  {
    FoldedAppend(r.projectName + "$" + r.resourceVersion + "$", r.resourceName);
    FoldedAppend(r.projectName + "$" + r.resourceVersion, "$");
    FoldedAppend(r.projectName + "$", r.resourceVersion);
    FoldedAppend(r.projectName, "$");
    assert Folded("$") == "$";
  }

  /** Folding changes capitals to small letters and periods to hyphens, character by character. */
  lemma FoldedIs(s: string, i: nat)
    requires i < |s|
    ensures |Folded(s)| == |s|
    ensures 'A' <= s[i] <= 'Z' ==> Folded(s)[i] as int == s[i] as int + 32
    ensures s[i] == '.' ==> Folded(s)[i] == '-'
    ensures !('A' <= s[i] <= 'Z') && s[i] != '.' ==> Folded(s)[i] == s[i]
  {
  }

  // ----- Entries and listeners -----

  datatype Entry = Entry(documentUuid: DocumentUuid, meadowlarkId: MeadowlarkId, edfiDoc: string, createdBy: string)

  /** An entry lives in the index named after its resource, under its uuid. */
  datatype Key = Key(index: string, id: DocumentUuid)
  type Index = map<Key, Entry>

  function EntryFor(w: WriteRequest, uuid: DocumentUuid): Entry {
    Entry(uuid, w.meadowlarkId, w.edfiDoc, w.clientId)
  }

  /** What the listeners do to the index when the store has answered `result`. */
  function Listen(index: Index, req: Request, result: Result): Index {
    match req
    case Upsert(w, _) =>
      if Target(req, result).Some? then
        var uuid := Target(req, result).value; index[Key(IndexName(w.resource), uuid) := EntryFor(w, uuid)]
      else index
    case Update(w, uuid, _) =>
      if result.Updated? && result.update.UpdateSuccess?
        then index[Key(IndexName(w.resource), uuid) := EntryFor(w, uuid)] else index
    case Delete(uuid, resource, _) =>
      if result.Deleted? && result.delete.DeleteSuccess? then index - {Key(IndexName(resource), uuid)} else index
  }

  datatype AuthorizationStrategy = OwnershipBased | FullAccess

  datatype Filter = MatchPhrase(key: string, value: string) | MatchCreator(clientId: string)

  /** The text search of the engine: a phrase in a property, and an analysed match of a client
      id against the recorded creator. */
  datatype TextSearch = TextSearch(phrase: (Entry, string, string) -> bool, creator: (string, string) -> bool)

  predicate Passes(e: Entry, f: Filter, search: TextSearch) {
    match f
    case MatchPhrase(key, value) => search.phrase(e, key, value)
    case MatchCreator(clientId) => search.creator(e.createdBy, clientId)
  }

  /** The entry satisfies every parameter of the query, and its ownership restriction if there is one. */
  predicate Wanted(e: Entry, resource: ResourceInfo, parameters: seq<(string, string)>,
      strategy: AuthorizationStrategy, clientId: string, search: TextSearch)
  {
    && (forall p :: p in parameters ==> search.phrase(e, p.0, p.1))
    && (strategy.OwnershipBased? && !resource.isDescriptor ==> search.creator(e.createdBy, clientId))
  }

  /** At most the entry under `key` differs. */
  ghost predicate SameElsewhere(before: Index, after: Index, key: Key) {
    forall k :: k != key ==> (k in before <==> k in after) && (k in before ==> before[k] == after[k])
  }

  /** `reachable` says whether the search engine can be reached; an error is only logged. */
  class SearchEngine {
    var entries: Index

    constructor ()
      ensures entries == map[]
    {
      entries := map[];
    }

    /** The entry under the uuid shows the request, and no other entry changes. */
    method UpsertEntry(w: WriteRequest, uuid: DocumentUuid, reachable: bool)
      modifies this
      ensures !reachable ==> entries == old(entries)
      ensures reachable ==>
        var key := Key(IndexName(w.resource), uuid);
        && key in entries && entries[key] == Entry(uuid, w.meadowlarkId, w.edfiDoc, w.clientId)
        && SameElsewhere(old(entries), entries, key)
    {
      var key := Key(IndexName(w.resource), uuid);
      if reachable {
        entries := entries[key := Entry(uuid, w.meadowlarkId, w.edfiDoc, w.clientId)];
      }
    }

    /** After a success the entry under the uuid of the answer shows the request; nothing else
        ever changes. */
    method AfterUpsertDocument(w: WriteRequest, freshUuid: DocumentUuid, result: UpsertResult, reachable: bool)
      modifies this
      ensures var uuid := Target(Upsert(w, freshUuid), Upserted(result));
        if !reachable || uuid.None? then entries == old(entries)
        else
          var key := Key(IndexName(w.resource), uuid.value);
          && key in entries && entries[key] == Entry(uuid.value, w.meadowlarkId, w.edfiDoc, w.clientId)
          && SameElsewhere(old(entries), entries, key)
    {
      if !result.UpsertUpdateSuccess? && !result.InsertSuccess? {
        return;
      }
      var documentUuid := if result.UpsertUpdateSuccess? then result.existingDocumentUuid else result.newDocumentUuid;
      UpsertEntry(w, documentUuid, reachable);
    }

    /** After a success the entry under the uuid of the request shows it; nothing else ever changes. */
    method AfterUpdateDocumentById(w: WriteRequest, uuid: DocumentUuid, result: UpdateResult, reachable: bool)
      modifies this
      ensures if !reachable || !result.UpdateSuccess? then entries == old(entries)
        else
          var key := Key(IndexName(w.resource), uuid);
          && key in entries && entries[key] == Entry(uuid, w.meadowlarkId, w.edfiDoc, w.clientId)
          && SameElsewhere(old(entries), entries, key)
    {
      if !result.UpdateSuccess? {
        return;
      }
      UpsertEntry(w, uuid, reachable);
    }

    /** After a success there is no entry under the uuid in the index of the requested
        resource; nothing else ever changes. */
    method AfterDeleteDocumentById(uuid: DocumentUuid, resource: ResourceInfo, result: DeleteResult, reachable: bool)
      modifies this
      ensures if !reachable || !result.DeleteSuccess? then entries == old(entries)
        else
          var key := Key(IndexName(resource), uuid);
          key !in entries && SameElsewhere(old(entries), entries, key)
    {
      if !result.DeleteSuccess? {
        return;
      }
      if reachable {
        entries := entries - {Key(IndexName(resource), uuid)};
      }
    }

    /** The listener for the kind of request. */
    method Notify(req: Request, result: Result, reachable: bool)
      modifies this
      ensures entries == if reachable then Listen(old(entries), req, result) else old(entries)
    {
      match req {
        case Upsert(w, freshUuid) =>
          if result.Upserted? { AfterUpsertDocument(w, freshUuid, result.upsert, reachable); }
        case Update(w, uuid, _) =>
          if result.Updated? { AfterUpdateDocumentById(w, uuid, result.update, reachable); }
        case Delete(uuid, resource, _) =>
          if result.Deleted? { AfterDeleteDocumentById(uuid, resource, result.delete, reachable); }
      }
      assert reachable ==> entries == Listen(old(entries), req, result);
    }

    /** All hits of a query, before pagination. */
    method QueryDocuments(resource: ResourceInfo, parameters: seq<(string, string)>, strategy: AuthorizationStrategy,
        clientId: string, search: TextSearch) returns (hits: set<Key>)
      ensures forall k :: k in hits <==>
        k in entries && k.index == IndexName(resource)
          && Wanted(entries[k], resource, parameters, strategy, clientId, search)
    {
      var matches: seq<Filter> := [];
      for i := 0 to |parameters|
        invariant |matches| == i && forall j :: 0 <= j < i ==>
          matches[j] == MatchPhrase(parameters[j].0, parameters[j].1)
      {
        matches := matches + [MatchPhrase(parameters[i].0, parameters[i].1)];
      }
      if strategy.OwnershipBased? && !resource.isDescriptor {
        matches := matches + [MatchCreator(clientId)];
      }
      hits := set k | k in entries && k.index == IndexName(resource) && forall f :: f in matches ==>
        Passes(entries[k], f, search);
      forall k | k in entries
        ensures (forall f :: f in matches ==> Passes(entries[k], f, search))
                <==> Wanted(entries[k], resource, parameters, strategy, clientId, search)
      {
        if forall f :: f in matches ==> Passes(entries[k], f, search) {
          forall p | p in parameters ensures search.phrase(entries[k], p.0, p.1) {
            var j :| 0 <= j < |parameters| && parameters[j] == p;
            assert matches[j] in matches;
          }
          assert strategy.OwnershipBased? && !resource.isDescriptor ==> matches[|parameters|] in matches;
        }
      }
    }
  }

  // ----- When the index agrees with the store -----

  function KeyOf(d: Document): Key {
    Key(IndexName(d.resource), d.documentUuid)
  }

  /** The entry shows the document; `owners` says whether the creator counts. */
  predicate Shows(e: Entry, d: Document, owners: bool) {
    && e.documentUuid == d.documentUuid && e.meadowlarkId == d.id && e.edfiDoc == d.edfiDoc
    && (owners ==> e.createdBy == d.createdBy)
  }

  /** The index holds an entry for each stored document, and nothing else. */
  ghost predicate Mirrors(index: Index, s: Store, owners: bool) {
    AllShown(index, s, owners) && NoneStale(index, s)
  }

  ghost predicate AllShown(index: Index, s: Store, owners: bool) {
    forall x :: x in s ==> KeyOf(s[x]) in index && Shows(index[KeyOf(s[x])], s[x], owners)
  }

  ghost predicate NoneStale(index: Index, s: Store) {
    forall k :: k in index ==> Stored(s, k)
  }

  ghost predicate Stored(s: Store, k: Key) {
    exists x :: x in s && KeyOf(s[x]) == k
  }

  /** The request names the resource under which the document it hits is indexed. */
  ghost predicate NamesOwnResource(s: Store, req: Request) {
    match req
    case Upsert(w, _) => w.meadowlarkId in s ==> IndexName(s[w.meadowlarkId].resource) == IndexName(w.resource)
    case Update(w, uuid, _) => forall x :: x in s && s[x].documentUuid == uuid ==>
      IndexName(s[x].resource) == IndexName(w.resource)
    case Delete(uuid, resource, _) => forall x :: x in s && s[x].documentUuid == uuid ==>
      IndexName(s[x].resource) == IndexName(resource)
  }

  /** An update moves its document onto an id that another document holds. */
  predicate Overwrites(s: Store, req: Request) {
    req.Update? && HeldByAnother(s, req.write.meadowlarkId, req.documentUuid)
  }

  lemma InsertShown(index: Index, s: Store, d: Document, e: Entry, owners: bool)
    requires AllShown(index, s, owners) && d.documentUuid !in Uuids(s) && Shows(e, d, owners)
    ensures AllShown(index[KeyOf(d) := e], s[d.id := d], owners)
  {
    forall x | x in s ensures KeyOf(s[x]) != KeyOf(d) {
      assert s[x].documentUuid in Uuids(s);
    }
  }

  lemma InsertNoneStale(index: Index, s: Store, d: Document, e: Entry)
    requires NoneStale(index, s) && d.id !in s
    ensures NoneStale(index[KeyOf(d) := e], s[d.id := d])
  {
    var s' := s[d.id := d];
    forall k | k in index[KeyOf(d) := e] ensures Stored(s', k) {
      if k == KeyOf(d) {
        assert s'[d.id] == d;
      } else {
        var x :| x in s && KeyOf(s[x]) == k;
        assert s'[x] == s[x];
      }
    }
  }

  lemma InsertMirrors(index: Index, s: Store, d: Document, e: Entry, owners: bool)
    requires Mirrors(index, s, owners) && d.documentUuid !in Uuids(s) && d.id !in s && Shows(e, d, owners)
    ensures Mirrors(index[KeyOf(d) := e], s[d.id := d], owners)
  {
    InsertShown(index, s, d, e, owners);
    InsertNoneStale(index, s, d, e);
  }

  lemma StaleEntry(index: Index, s: Store, k: Key, owners: bool)
    requires k in index && forall y :: y in s ==> KeyOf(s[y]) != k
    ensures !Mirrors(index, s, owners)
  {
    assert !Stored(s, k);
  }

  lemma ReplaceMirrors(index: Index, s: Store, x: MeadowlarkId, d: Document, e: Entry, owners: bool)
    requires Mirrors(index, s, owners) && UuidsDistinct(s) && x in s && KeyOf(s[x]) == KeyOf(d)
    requires d.id in s ==> d.id == x
    requires Shows(e, d, owners)
    ensures Mirrors(index[KeyOf(d) := e], (s - {x})[d.id := d], owners)
  {
    RemoveMirrors(index, s, x, owners);
    OtherUuids(s, x);
    InsertMirrors(index - {KeyOf(d)}, s - {x}, d, e, owners);
    assert (index - {KeyOf(d)})[KeyOf(d) := e] == index[KeyOf(d) := e];
  }

  /** The document at `x` becomes `d`: the index follows exactly when both are indexed under
      one name, no other document is overwritten, and the new entry shows the right creator. */
  lemma ReplaceMirrorsIff(index: Index, s: Store, x: MeadowlarkId, d: Document, e: Entry, owners: bool)
    requires Mirrors(index, s, owners) && UuidsDistinct(s) && x in s && s[x].documentUuid == d.documentUuid
    requires Shows(e, d, false)
    ensures Mirrors(index[KeyOf(d) := e], (s - {x})[d.id := d], owners) <==>
            && IndexName(s[x].resource) == IndexName(d.resource)
            && (d.id in s ==> d.id == x)
            && (owners ==> e.createdBy == d.createdBy)
  {
    var s', index' := (s - {x})[d.id := d], index[KeyOf(d) := e];
    if IndexName(s[x].resource) != IndexName(d.resource) {
      StaleEntry(index', s', KeyOf(s[x]), owners);
    } else if d.id in s && d.id != x {
      StaleEntry(index', s', KeyOf(s[d.id]), owners);
    } else if owners ==> e.createdBy == d.createdBy {
      ReplaceMirrors(index, s, x, d, e, owners);
    } else {
      assert !Shows(index'[KeyOf(s'[d.id])], s'[d.id], owners);
    }
  }

  lemma RemoveMirrorsIff(index: Index, s: Store, x: MeadowlarkId, name: string, owners: bool)
    requires Mirrors(index, s, owners) && UuidsDistinct(s) && x in s
    ensures Mirrors(index - {Key(name, s[x].documentUuid)}, s - {x}, owners) <==> IndexName(s[x].resource) == name
  {
    var s', index' := s - {x}, index - {Key(name, s[x].documentUuid)};
    if IndexName(s[x].resource) != name {
      StaleEntry(index', s', KeyOf(s[x]), owners);
    } else {
      RemoveMirrors(index, s, x, owners);
    }
  }

  lemma OtherKeys(s: Store, x: MeadowlarkId)
    requires UuidsDistinct(s) && x in s
    ensures forall y :: y in s && KeyOf(s[y]) == KeyOf(s[x]) ==> y == x
  {
  }

  lemma RemoveMirrors(index: Index, s: Store, x: MeadowlarkId, owners: bool)
    requires Mirrors(index, s, owners) && UuidsDistinct(s) && x in s
    ensures Mirrors(index - {KeyOf(s[x])}, s - {x}, owners)
  {
    OtherKeys(s, x);
    assert AllShown(index - {KeyOf(s[x])}, s - {x}, owners);
    RemoveNoneStale(index, s, x);
  }

  lemma RemoveNoneStale(index: Index, s: Store, x: MeadowlarkId)
    requires NoneStale(index, s) && x in s
    ensures NoneStale(index - {KeyOf(s[x])}, s - {x})
  {
    forall k | k in index - {KeyOf(s[x])} ensures Stored(s - {x}, k) {
      var y :| y in s && KeyOf(s[y]) == k;
      assert y in s - {x} && (s - {x})[y] == s[y];
    }
  }

  /** The entry an agreeing index holds for a document. */
  function EntryOf(d: Document): Entry {
    Entry(d.documentUuid, d.id, d.edfiDoc, d.createdBy)
  }

  /** On an index that agrees with the store, a query finds exactly the documents in its index
      whose entries it wants. */
  lemma QueryExact(index: Index, s: Store, resource: ResourceInfo, parameters: seq<(string, string)>,
      strategy: AuthorizationStrategy, clientId: string, search: TextSearch, hits: set<Key>)
    requires Mirrors(index, s, true)
    requires forall k :: k in hits <==>
      k in index && k.index == IndexName(resource) && Wanted(index[k], resource, parameters, strategy, clientId, search)
    ensures hits == set x | x in s && IndexName(s[x].resource) == IndexName(resource)
                            && Wanted(EntryOf(s[x]), resource, parameters, strategy, clientId, search) :: KeyOf(s[x])
  {
    assert forall x :: x in s ==> index[KeyOf(s[x])] == EntryOf(s[x]);
  }

  /** The documents a client owns in the index of a resource. */
  function Owned(s: Store, resource: ResourceInfo, clientId: string): set<Key> {
    set x | x in s && IndexName(s[x].resource) == IndexName(resource) && s[x].createdBy == clientId :: KeyOf(s[x])
  }

  /** An ownership-filtered query without parameters finds exactly the client's documents if
      and only if the engine's match tells the client from every other creator in that index. */
  lemma OwnershipQueryExactIff(s: Store, resource: ResourceInfo, clientId: string, search: TextSearch, hits: set<Key>)
    requires UuidsDistinct(s) && !resource.isDescriptor
    requires hits == set x | x in s && IndexName(s[x].resource) == IndexName(resource)
                             && Wanted(EntryOf(s[x]), resource, [], OwnershipBased, clientId, search) :: KeyOf(s[x])
    ensures hits == Owned(s, resource, clientId) <==>
            forall x :: x in s && IndexName(s[x].resource) == IndexName(resource) ==>
              (search.creator(s[x].createdBy, clientId) <==> s[x].createdBy == clientId)
  {
    forall x | x in s && IndexName(s[x].resource) == IndexName(resource)
      ensures KeyOf(s[x]) in hits <==> search.creator(s[x].createdBy, clientId)
      ensures KeyOf(s[x]) in Owned(s, resource, clientId) <==> s[x].createdBy == clientId
    {
    }
  }
}
