/** The shapes a successful write can take in either document store, what each shape does to
    the ids and uuids of the store, and what whole histories of such changes conserve. */
module StoreChanges {
  import opened Model

  // ----- Shapes -----

  ghost predicate Inserts(s: Store, s': Store, d: Document) {
    d.id !in s && s' == s[d.id := d] && d.createdAt == Some(d.lastModifiedAt)
  }

  ghost predicate Replaces(s: Store, s': Store, d: Document) {
    && d.id in s && s' == s[d.id := d]
    && d.documentUuid == s[d.id].documentUuid
    && (s[d.id].createdAt.Some? ==> d.createdAt == s[d.id].createdAt)
    && s[d.id].lastModifiedAt < d.lastModifiedAt
  }

  /** An identity change. If another document holds the new id, it is overwritten. */
  ghost predicate Renames(s: Store, s': Store, x: MeadowlarkId, d: Document) {
    && x in s && x != d.id
    && s' == (s - {x})[d.id := d]
    && d.documentUuid == s[x].documentUuid
    && d.createdAt == s[x].createdAt
    && s[x].lastModifiedAt < d.lastModifiedAt
    && (d.id in s ==> s[d.id].lastModifiedAt < d.lastModifiedAt)
  }

  ghost predicate Removes(s: Store, s': Store, x: MeadowlarkId) {
    x in s && s' == s - {x}
  }

  /** The document a write leaves behind carries what the request brought. */
  ghost predicate Carries(d: Document, w: WriteRequest) {
    && d.id == w.meadowlarkId
    && d.lastModifiedAt == w.info.requestTimestamp
    && d.documentIdentity == w.info.documentIdentity
    && d.resource == w.resource
    && d.edfiDoc == w.edfiDoc
    && d.aliasIds == AliasIds(w.meadowlarkId, w.info.superclassId)
    && d.outboundRefs == OutboundRefs(w.info)
    && d.validated == w.validate
  }

  /** Nobody holds the superclass alias of the document to be written. */
  ghost predicate SuperclassFree(s: Store, w: WriteRequest) {
    w.info.superclassId.Some? ==> !Resolves(s, w.info.superclassId.value)
  }

  // ----- Random uuids -----

  function FreshUuids(req: Request): set<DocumentUuid> {
    if req.Delete? then {} else {req.freshUuid}
  }

  function UsedUuids(reqs: seq<Request>): set<DocumentUuid> {
    set i, u | 0 <= i < |reqs| && u in FreshUuids(reqs[i]) :: u
  }

  /** Every request is well formed, and no two requests draw the same random uuid. */
  ghost predicate WellFormedRun(schema: Schema, reqs: seq<Request>) {
    && (forall i :: 0 <= i < |reqs| ==> WellFormed(schema, reqs[i]))
    && (forall i, j :: 0 <= i < j < |reqs| ==> FreshUuids(reqs[i]) !! FreshUuids(reqs[j]))
  }

  lemma {:induction false} UsedGrows(reqs: seq<Request>)
    requires reqs != []
    ensures UsedUuids(reqs) == UsedUuids(reqs[..|reqs| - 1]) + FreshUuids(reqs[|reqs| - 1])
  {
    var init, n := reqs[..|reqs| - 1], |reqs| - 1;
    forall u ensures u in UsedUuids(reqs) <==> u in UsedUuids(init) + FreshUuids(reqs[n]) {
      if u in UsedUuids(reqs) {
        var i :| 0 <= i < |reqs| && u in FreshUuids(reqs[i]);
        assert i < n ==> init[i] == reqs[i];
      }
      if u in UsedUuids(init) {
        var i :| 0 <= i < n && u in FreshUuids(init[i]);
        assert u in FreshUuids(reqs[i]);
      }
      if u in FreshUuids(reqs[n]) {
        assert u in UsedUuids(reqs);
      }
    }
  }

  lemma {:induction false} RunFresh(schema: Schema, reqs: seq<Request>, n: nat)
    requires WellFormedRun(schema, reqs) && n < |reqs|
    ensures FreshUuids(reqs[n]) !! UsedUuids(reqs[..n])
  {
  }

  lemma {:induction false} UsedMonotone(reqs: seq<Request>, i: nat)
    requires i <= |reqs|
    ensures UsedUuids(reqs[..i]) <= UsedUuids(reqs)
  {
    forall u | u in UsedUuids(reqs[..i]) ensures u in UsedUuids(reqs) {
      var k :| 0 <= k < i && u in FreshUuids(reqs[..i][k]);
      assert u in FreshUuids(reqs[k]);
    }
  }

  // ----- Alias disjointness and uuid uniqueness -----

  ghost predicate Invariant(schema: Schema, s: Store) {
    Indexed(schema, s) && AliasDisjoint(s) && UuidsDistinct(s)
  }

  /** Only an insert needs the claim check: the aliases of a held id do not change, and an
      abstract superclass id is nobody's own id. */
  lemma PutKeepsAliasesDisjoint(schema: Schema, s: Store, d: Document)
    requires Indexed(schema, s) && AliasDisjoint(s)
    requires Concrete(schema, d.id) && d.aliasIds == AliasIds(d.id, schema.superclassOf(d.id))
    requires d.id !in s && schema.superclassOf(d.id).Some? ==> !Resolves(s, schema.superclassOf(d.id).value)
    ensures Indexed(schema, s[d.id := d]) && AliasDisjoint(s[d.id := d])
  {
    var s' := s[d.id := d];
    forall x, y, a | x in s' && y in s' && a in s'[x].aliasIds && a in s'[y].aliasIds ensures x == y {
    }
  }

  lemma SubstoreKeeps(schema: Schema, s: Store, x: MeadowlarkId)
    requires Invariant(schema, s)
    ensures Invariant(schema, s - {x})
  {
  }

  lemma WriteKeepsInvariant(schema: Schema, s: Store, w: WriteRequest, d: Document)
    requires Invariant(schema, s) && WellFormedWrite(schema, w) && Carries(d, w)
    requires d.id !in s ==> SuperclassFree(s, w) && d.documentUuid !in Uuids(s)
    requires d.id in s ==> d.documentUuid !in Uuids(s - {d.id})
    ensures Invariant(schema, s[d.id := d])
  {
    PutKeepsAliasesDisjoint(schema, s, d);
    forall y | y in s && y != d.id ensures s[y].documentUuid != d.documentUuid {
      assert s[y].documentUuid in Uuids(s);
      assert y in s - {d.id} && s[y].documentUuid in Uuids(s - {d.id});
    }
  }

  lemma OtherUuids(s: Store, x: MeadowlarkId)
    requires UuidsDistinct(s) && x in s
    ensures s[x].documentUuid in Uuids(s)
    ensures Uuids(s - {x}) == Uuids(s) - {s[x].documentUuid}
  {
    var u := s[x].documentUuid;
    forall v ensures v in Uuids(s - {x}) <==> v in Uuids(s) - {u} {
      if v in Uuids(s) - {u} {
        var y :| y in s && s[y].documentUuid == v;
        assert y in s - {x};
      }
    }
  }

  lemma PutUuids(s: Store, d: Document)
    ensures Uuids(s[d.id := d]) == Uuids(s - {d.id}) + {d.documentUuid}
  {
    var s' := s[d.id := d];
    assert s'[d.id].documentUuid in Uuids(s');
    forall y | y in s - {d.id} ensures s[y].documentUuid in Uuids(s') {
      assert s'[y] == s[y];
    }
    forall y | y in s' && y != d.id ensures s'[y].documentUuid in Uuids(s - {d.id}) {
      assert y in s - {d.id};
    }
  }

  lemma PutKeepsUuids(s: Store, d: Document)
    requires UuidsDistinct(s) && d.documentUuid !in Uuids(s - {d.id})
    ensures UuidsDistinct(s[d.id := d]) && Uuids(s[d.id := d]) <= Uuids(s) + {d.documentUuid}
  {
    var rest, s' := s - {d.id}, s[d.id := d];
    forall y | y in rest ensures s'[y] == s[y] && s[y].documentUuid != d.documentUuid && s[y].documentUuid in Uuids(s) {
      assert rest[y].documentUuid in Uuids(rest);
    }
    forall y | y in s' ensures s'[y].documentUuid in Uuids(s) + {d.documentUuid} {
      assert y == d.id || y in rest;
    }
  }

  ghost predicate OthersUntouched(s: Store, s': Store, uuid: DocumentUuid) {
    forall x :: x in s && s[x].documentUuid != uuid ==> x in s' && s'[x] == s[x]
  }

  /** A document with another uuid sits under this id. */
  predicate HeldByAnother(s: Store, id: MeadowlarkId, uuid: DocumentUuid) {
    id in s && s[id].documentUuid != uuid
  }

  // ----- Order of writes -----

  /** Creation times are set and not later than the last modification. */
  ghost predicate Stamped(s: Store) {
    forall x :: x in s ==> s[x].createdAt.Some? && s[x].createdAt.value <= s[x].lastModifiedAt
  }

  /** Between two states, a uuid that lives in both keeps its creation time, and any
      difference to its document shows as a later modification time. */
  ghost predicate Evolves(s: Store, s': Store) {
    forall x, y :: x in s && y in s' && s[x].documentUuid == s'[y].documentUuid ==>
      && s[x].createdAt == s'[y].createdAt
      && s[x].lastModifiedAt <= s'[y].lastModifiedAt
      && (s[x] != s'[y] ==> s[x].lastModifiedAt < s'[y].lastModifiedAt)
  }

  lemma PutEvolves(s: Store, s': Store, d: Document)
    requires UuidsDistinct(s) && Stamped(s)
    requires (Inserts(s, s', d) && d.documentUuid !in Uuids(s)) || Replaces(s, s', d)
    ensures Stamped(s') && Evolves(s, s')
  {
    assert forall x :: x in s ==> s[x].documentUuid in Uuids(s);
  }

  lemma RenameEvolves(s: Store, s': Store, x: MeadowlarkId, d: Document)
    requires UuidsDistinct(s) && Stamped(s) && Renames(s, s', x, d)
    ensures Stamped(s') && Evolves(s, s')
  {
    forall p, q | p in s && q in s' && s[p].documentUuid == s'[q].documentUuid
      ensures if q == d.id then p == x else p == q && s'[q] == s[q]
    {
    }
  }

  lemma Transit(s: Store, mid: Store, s': Store)
    requires Evolves(s, mid) && Evolves(mid, s')
    requires Uuids(s) * Uuids(s') <= Uuids(mid)
    ensures Evolves(s, s')
  {
    forall x, y | x in s && y in s' && s[x].documentUuid == s'[y].documentUuid
      ensures && s[x].createdAt == s'[y].createdAt
              && s[x].lastModifiedAt <= s'[y].lastModifiedAt
              && (s[x] != s'[y] ==> s[x].lastModifiedAt < s'[y].lastModifiedAt)
    {
      assert s[x].documentUuid in Uuids(s) * Uuids(s');
      var z :| z in mid && mid[z].documentUuid == s[x].documentUuid;
    }
  }

  // ----- Histories -----

  /** `trace[i]` is the store before `reqs[i]`; every step evolves and only a random uuid of
      its own request is new. */
  ghost predicate Chronicle(schema: Schema, trace: seq<Store>, reqs: seq<Request>) {
    && |trace| == |reqs| + 1 && trace[0] == map[]
    && WellFormedRun(schema, reqs)
    && (forall i :: 0 <= i < |reqs| ==> Evolves(trace[i], trace[i + 1]))
    && (forall i :: 0 <= i < |reqs| ==> Uuids(trace[i + 1]) <= Uuids(trace[i]) + FreshUuids(reqs[i]))
  }

  lemma {:induction false} ChronicleUuids(schema: Schema, trace: seq<Store>, reqs: seq<Request>, i: nat)
    requires Chronicle(schema, trace, reqs) && i <= |reqs|
    ensures Uuids(trace[i]) <= UsedUuids(reqs[..i])
  {
    if i > 0 {
      ChronicleUuids(schema, trace, reqs, i - 1);
      UsedGrows(reqs[..i]);
      assert reqs[..i][..i - 1] == reqs[..i - 1];
    }
  }

  /** A uuid that is gone never comes back. */
  lemma {:induction false} UuidStaysGone(schema: Schema, trace: seq<Store>, reqs: seq<Request>, i: nat, j: nat,
      u: DocumentUuid)
    requires Chronicle(schema, trace, reqs) && i <= j < |reqs|
    requires u in Uuids(trace[i])
    ensures u !in FreshUuids(reqs[j])
    ensures u in Uuids(trace[j + 1]) ==> u in Uuids(trace[j])
  {
    ChronicleUuids(schema, trace, reqs, i);
    assert reqs[..j][..i] == reqs[..i];
    UsedMonotone(reqs[..j], i);
    RunFresh(schema, reqs, j);
  }

  lemma {:induction false} ChronicleEvolves(schema: Schema, trace: seq<Store>, reqs: seq<Request>, i: nat, j: nat)
    requires Chronicle(schema, trace, reqs) && i <= j <= |reqs|
    requires UuidsDistinct(trace[i])
    ensures Evolves(trace[i], trace[j])
  {
    if i < j {
      ChronicleEvolves(schema, trace, reqs, i, j - 1);
      forall u | u in Uuids(trace[i]) * Uuids(trace[j]) ensures u in Uuids(trace[j - 1]) {
        UuidStaysGone(schema, trace, reqs, i, j - 1, u);
      }
      Transit(trace[i], trace[j - 1], trace[j]);
    }
  }

  /** The uuid a successful upsert or update wrote. */
  function Target(req: Request, result: Result): Option<DocumentUuid> {
    match result
    case Upserted(InsertSuccess(u)) => Some(u)
    case Upserted(UpsertUpdateSuccess(u)) => Some(u)
    case Updated(UpdateSuccess) => if req.Update? then Some(req.documentUuid) else None
    case _ => None
  }

  /** The step from `s` to `s'` wrote the document with uuid `u` at time `at`; if `u` was
      there before, its document was older. */
  ghost predicate Stamps(s: Store, s': Store, req: Request, u: DocumentUuid, at: int) {
    && (exists y :: y in s' && s'[y].documentUuid == u && s'[y].lastModifiedAt == at)
    && (u in Uuids(s) || u in FreshUuids(req))
    && (forall x :: x in s && s[x].documentUuid == u ==> s[x].lastModifiedAt < at)
  }

  /** Two writes to one uuid are ordered by their timestamps. */
  lemma {:induction false} WritesOrdered(schema: Schema, trace: seq<Store>, reqs: seq<Request>, i: nat, j: nat,
      u: DocumentUuid, atI: int, atJ: int)
    requires Chronicle(schema, trace, reqs) && i < j < |reqs| && UuidsDistinct(trace[i + 1])
    requires Stamps(trace[i], trace[i + 1], reqs[i], u, atI) && Stamps(trace[j], trace[j + 1], reqs[j], u, atJ)
    ensures atI < atJ
  {
    ChronicleEvolves(schema, trace, reqs, i + 1, j);
    var x :| x in trace[i + 1] && trace[i + 1][x].documentUuid == u && trace[i + 1][x].lastModifiedAt == atI;
    assert u in Uuids(trace[i + 1]);
    UuidStaysGone(schema, trace, reqs, i + 1, j, u);
    var z :| z in trace[j] && trace[j][z].documentUuid == u;
  }
}
