/** JSON documents and the part of JSONPath the extractors use. */
module Json {
  import opened Model
  import opened Collections

  /** A number is given by its canonical decimal text. */
  datatype Json =
    | Null
    | Boolean(value: bool)
    | Number(numeral: string)
    | Text(characters: string)
    | Array(items: seq<Json>)
    | Object(members: seq<Member>)

  datatype Member = Member(key: string, content: Json)

  /** `.key`, or `[*]`. A path starts at the root. */
  datatype Step = Field(key: string) | Star
  type Path = seq<Step>

  predicate Has(j: Json, key: string) {
    j.Object? && exists i :: 0 <= i < |j.members| && j.members[i].key == key
  }

  function Lookup(members: seq<Member>, key: string): Json
    requires exists i :: 0 <= i < |members| && members[i].key == key
  {
    if members[0].key == key then members[0].content else Lookup(members[1..], key)
  }

  function Get(j: Json, key: string): Json
    requires Has(j, key)
  {
    Lookup(j.members, key)
  }

  function Children(j: Json): seq<Json> {
    match j
    case Array(items) => items
    case Object(members) => seq(|members|, i requires 0 <= i < |members| => members[i].content)
    case _ => []
  }

  /** The values a path leads to, in document order. */
  function Eval(path: Path, j: Json): seq<Json>
    decreases |path|, 0
  {
    if path == [] then [j]
    else
      match path[0]
      case Field(key) => if Has(j, key) then Eval(path[1..], Get(j, key)) else []
      case Star => EvalAll(path[1..], Children(j))
  }

  function EvalAll(path: Path, values: seq<Json>): seq<Json>
    decreases |path|, |values| + 1
  {
    if values == [] then [] else Eval(path, values[0]) + EvalAll(path, values[1..])
  }

  /** The `flatten` option: a value that is an array is replaced by its items. */
  function Flatten(values: seq<Json>): seq<Json> {
    if values == [] then []
    else (if values[0].Array? then values[0].items else [values[0]]) + Flatten(values[1..])
  }

  function Values(path: Path, j: Json): seq<Json> {
    Flatten(Eval(path, j))
  }

  /** The `wrap: false` option: a single value of a path without `[*]` comes back bare, and no
      value at all as undefined. */
  function Single(path: Path, j: Json): Option<Json> {
    var values := Eval(path, j);
    if values == [] then None
    else if |values| == 1 && Star !in path then Some(values[0])
    else Some(Array(values))
  }

  // ----- Steps -----

  /** The first member of the key. */
  predicate FirstMember(members: seq<Member>, key: string, i: nat) {
    i < |members| && members[i].key == key && forall k :: 0 <= k < i ==> members[k].key != key
  }

  /** What one step leads to; `EvalAppend` says the rest. */
  lemma StepsAre(j: Json, key: string)
    ensures Eval([], j) == [j]
    ensures forall i: nat :: j.Object? && FirstMember(j.members, key, i) ==>
      Eval([Field(key)], j) == [j.members[i].content]
    ensures (forall m :: j.Object? && m in j.members ==> m.key != key) ==> Eval([Field(key)], j) == []
    ensures j.Array? ==> Eval([Star], j) == j.items
    ensures j.Object? ==> |Eval([Star], j)| == |j.members|
    ensures j.Object? ==> forall i :: 0 <= i < |j.members| ==> Eval([Star], j)[i] == j.members[i].content
    ensures !j.Array? && !j.Object? ==> Eval([Star], j) == []
  {
    assert [Field(key)][1..] == [] && [Star][1..] == [];
    EvalNothing(Children(j));
    if Has(j, key) {
      var i := LookupIs(j.members, key);
      assert j.members[i] in j.members;
    }
  }

  lemma {:induction false} EvalNothing(values: seq<Json>)
    ensures EvalAll([], values) == values
  {
    if values != [] {
      EvalNothing(values[1..]);
    }
  }

  lemma {:induction false} LookupIs(members: seq<Member>, key: string) returns (i: nat)
    requires exists k :: 0 <= k < |members| && members[k].key == key
    ensures i < |members| && members[i].key == key && Lookup(members, key) == members[i].content
    ensures forall k :: 0 <= k < i ==> members[k].key != key
  {
    i := 0;
    if members[0].key != key {
      var k :| 0 <= k < |members| && members[k].key == key;
      assert members[1..][k - 1].key == key;
      i := LookupIs(members[1..], key);
      i := i + 1;
      assert forall l :: 1 <= l < |members| ==> members[l] == members[1..][l - 1];
    }
  }

  /** Flattening replaces the arrays among the values by their items, and nothing else. */
  lemma {:induction false} FlattenIs(a: seq<Json>, v: Json, b: seq<Json>)
    ensures Flatten([]) == []
    ensures Flatten(a + [v] + b) == Flatten(a) + (if v.Array? then v.items else [v]) + Flatten(b)
  {
    if a == [] {
      assert (a + [v] + b)[1..] == b;
    } else {
      assert (a + [v] + b)[0] == a[0] && (a + [v] + b)[1..] == a[1..] + [v] + b;
      FlattenIs(a[1..], v, b);
    }
  }

  /** The values an element contributes: the items of an array, or itself. */
  function Part(v: Json): seq<Json> {
    if v.Array? then v.items else [v]
  }

  function Parts(values: seq<Json>): (parts: seq<seq<Json>>)
    ensures |parts| == |values| && forall i :: 0 <= i < |values| ==> parts[i] == Part(values[i])
  {
    seq(|values|, i requires 0 <= i < |values| => Part(values[i]))
  }

  lemma {:induction false} FlattenParts(values: seq<Json>)
    ensures Concatenates(Parts(values), Flatten(values))
  {
    if values != [] {
      var n := |values| - 1;
      FlattenParts(values[..n]);
      FlattenIs(values[..n], values[n], []);
      assert values[..n] + [values[n]] + [] == values;
      assert Flatten(values) == Flatten(values[..n]) + Part(values[n]) + [];
      assert Flatten(values) == Flatten(values[..n]) + Part(values[n]);
      assert Parts(values) == Parts(values[..n]) + [Part(values[n])];
      ConcatenatesOneMore(Parts(values[..n]), Flatten(values[..n]), Part(values[n]));
    }
  }

  /** The values of a path are what it leads to, with arrays replaced by their items. */
  lemma ValuesAre(path: Path, j: Json)
    ensures Concatenates(Parts(Eval(path, j)), Values(path, j))
  {
    FlattenParts(Eval(path, j));
  }

  // ----- Paths compose -----

  lemma {:induction false} EvalAllConcat(path: Path, a: seq<Json>, b: seq<Json>)
    ensures EvalAll(path, a + b) == EvalAll(path, a) + EvalAll(path, b)
  {
    if a == [] {
      assert a + b == b;
    } else {
      assert (a + b)[1..] == a[1..] + b;
      EvalAllConcat(path, a[1..], b);
    }
  }

  lemma {:induction false} EvalAppend(p: Path, q: Path, j: Json)
    ensures Eval(p + q, j) == EvalAll(q, Eval(p, j))
    decreases |p|, 0
  {
    if p == [] {
      assert p + q == q;
    } else {
      assert (p + q)[1..] == p[1..] + q;
      match p[0]
      case Field(key) => if Has(j, key) { EvalAppend(p[1..], q, Get(j, key)); }
      case Star => EvalAllAppend(p[1..], q, Children(j));
    }
  }

  lemma {:induction false} EvalAllAppend(p: Path, q: Path, values: seq<Json>)
    ensures EvalAll(p + q, values) == EvalAll(q, EvalAll(p, values))
    decreases |p|, |values| + 1
  {
    if values != [] {
      EvalAppend(p, q, values[0]);
      EvalAllAppend(p, q, values[1..]);
      EvalAllConcat(q, Eval(p, values[0]), EvalAll(p, values[1..]));
    }
  }

  // ----- The values under one field of many objects -----

  function Gather(objects: seq<Json>, key: string): (values: seq<Json>)
    ensures |values| <= |objects|
    ensures |values| == |objects| <==> forall o :: o in objects ==> Has(o, key)
  {
    if objects == [] then []
    else if Has(objects[0], key) then [Get(objects[0], key)] + Gather(objects[1..], key)
    else Gather(objects[1..], key)
  }

  lemma {:induction false} GatherAt(objects: seq<Json>, key: string, i: nat)
    requires i < |objects| && forall o :: o in objects ==> Has(o, key)
    ensures Has(objects[i], key) && Gather(objects, key)[i] == Get(objects[i], key)
  {
    assert objects[0] in objects;
    if i > 0 {
      GatherAt(objects[1..], key, i - 1);
    }
  }

  lemma {:induction false} FieldOfAll(objects: seq<Json>, key: string)
    ensures EvalAll([Field(key)], objects) == Gather(objects, key)
  {
    if objects != [] {
      FieldOfAll(objects[1..], key);
      assert [Field(key)][1..] == [] && [Field(key)][0] == Field(key);
      assert Has(objects[0], key) ==> Eval([], Get(objects[0], key)) == [Get(objects[0], key)];
    }
  }

  predicate NoArrays(objects: seq<Json>, key: string) {
    forall o :: o in objects && Has(o, key) ==> !Get(o, key).Array?
  }

  lemma {:induction false} FlattenGathered(objects: seq<Json>, key: string)
    requires NoArrays(objects, key)
    ensures Flatten(Gather(objects, key)) == Gather(objects, key)
  {
    if objects != [] {
      assert objects[0] in objects;
      FlattenGathered(objects[1..], key);
    }
  }

  /** A path that ends in a field reads that field off every object its prefix leads to. */
  lemma ValuesOfField(prefix: Path, key: string, j: Json)
    requires NoArrays(Eval(prefix, j), key)
    ensures Values(prefix + [Field(key)], j) == Gather(Eval(prefix, j), key)
  {
    EvalAppend(prefix, [Field(key)], j);
    FieldOfAll(Eval(prefix, j), key);
    FlattenGathered(Eval(prefix, j), key);
  }
}
