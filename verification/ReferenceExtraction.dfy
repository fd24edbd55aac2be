/** Extraction of document references: one JSONPath for each key over the whole body, then a
    transposition of the resulting columns into references. */
module ReferenceExtraction {
  import opened Model
  import opened Json
  import opened ExtractionResult
  import opened Collections

  datatype Reference = Reference(projectName: string, resourceName: string, identity: seq<Pair>)

  datatype DocumentPaths = DocumentPaths(
    isReference: bool,
    isDescriptor: bool,
    projectName: string,
    resourceName: string,
    paths: map<string, Path>,
    pathOrder: seq<string>)

  datatype ResourceOrder = ResourceOrder(resourceName: string, identityPathOrder: seq<string>)

  datatype ProjectSchema = ProjectSchema(projectName: string, resources: seq<ResourceOrder>,
    abstractResources: seq<ResourceOrder>)

  // ----- Specification -----

  function FindProject(projects: seq<ProjectSchema>, projectName: string): Option<ProjectSchema> {
    if projects == [] then None
    else if projects[0].projectName == projectName then Some(projects[0])
    else FindProject(projects[1..], projectName)
  }

  function FindResource(resources: seq<ResourceOrder>, resourceName: string): Option<ResourceOrder> {
    if resources == [] then None
    else if resources[0].resourceName == resourceName then Some(resources[0])
    else FindResource(resources[1..], resourceName)
  }

  /** `identityPathOrderForReference`: a concrete resource of the project, or an abstract one. */
  function IdentityPathOrder(projects: seq<ProjectSchema>, projectName: string,
      resourceName: string): Extracted<seq<string>>
  {
    match FindProject(projects, projectName)
    case None => Error(UnknownProject)
    case Some(project) =>
      match FindResource(project.resources, resourceName)
      case Some(resource) => Ok(resource.identityPathOrder)
      case None =>
        match FindResource(project.abstractResources, resourceName)
        case Some(abstractResource) => Ok(abstractResource.identityPathOrder)
        case None => Error(UnknownResource)
  }

  /** The columns that are not empty. */
  function Slices(paths: map<string, Path>, body: Json): map<string, seq<Json>> {
    map k | k in paths && Values(paths[k], body) != [] :: Values(paths[k], body)
  }

  predicate EqualLengths(slices: map<string, seq<Json>>) {
    forall k, l :: k in slices && l in slices ==> |slices[k]| == |slices[l]|
  }

  /** Row `i` of the columns, with its elements in the given order. */
  function Row(dp: DocumentPaths, slices: map<string, seq<Json>>, order: seq<string>, i: nat): Reference
    requires forall k :: k in dp.pathOrder ==> k in slices && i < |slices[k]|
  {
    Reference(dp.projectName, dp.resourceName,
      seq(|order|, j requires 0 <= j < |order| =>
        Pair(order[j], if order[j] in dp.pathOrder then Some(slices[order[j]][i]) else None)))
  }

  /** The common length of the columns. */
  function RowCount(slices: map<string, seq<Json>>): (n: nat)
    requires slices != map[] && EqualLengths(slices)
    ensures forall k :: k in slices ==> |slices[k]| == n
  {
    var lengths := set k | k in slices :: |slices[k]|;
    assert exists n :: n in lengths by {
      var k :| k in slices;
      assert |slices[k]| in lengths;
    }
    var n :| n in lengths;
    n
  }

  predicate MissesSlice(dp: DocumentPaths, slices: map<string, seq<Json>>) {
    exists k :: k in dp.pathOrder && k !in slices
  }

  function Rows(dp: DocumentPaths, slices: map<string, seq<Json>>, order: seq<string>): (rows: seq<Reference>)
    requires slices != map[] && EqualLengths(slices) && !MissesSlice(dp, slices)
    ensures |rows| == RowCount(slices)
  {
    seq(RowCount(slices), i requires 0 <= i < RowCount(slices) => Row(dp, slices, order, i))
  }

  /** The references of one property. */
  function PropertyReferences(projects: seq<ProjectSchema>, dp: DocumentPaths, body: Json): Extracted<seq<Reference>> {
    var slices := Slices(dp.paths, body);
    if !dp.isReference || dp.isDescriptor || slices == map[] then Ok([])
    else if !EqualLengths(slices) then Error(UnequalSlices)
    else
      match IdentityPathOrder(projects, dp.projectName, dp.resourceName)
      case Error(failure) => Error(failure)
      case Ok(order) =>
        if MissesSlice(dp, slices) then Error(MissingSlice) else Ok(Rows(dp, slices, order))
  }

  /** The first failing property fails the whole document. */
  function References(projects: seq<ProjectSchema>, mapping: seq<DocumentPaths>,
      body: Json): Extracted<seq<Reference>>
  {
    if mapping == [] then Ok([])
    else
      match References(projects, mapping[..|mapping| - 1], body)
      case Error(failure) => Error(failure)
      case Ok(before) =>
        match PropertyReferences(projects, mapping[|mapping| - 1], body)
        case Error(failure) => Error(failure)
        case Ok(references) => Ok(before + references)
  }

  // ----- The extractor -----

  method EvaluatePaths(dp: DocumentPaths, body: Json) returns (slices: map<string, seq<Json>>)
    ensures slices == Slices(dp.paths, body)
  {
    slices := map[];
    var todo := dp.paths.Keys;
    while todo != {}
      invariant todo <= dp.paths.Keys
      invariant slices == map k | k in dp.paths && k !in todo
        && Values(dp.paths[k], body) != [] :: Values(dp.paths[k], body)
    {
      var documentKey :| documentKey in todo;
      var slice := Values(dp.paths[documentKey], body);
      todo := todo - {documentKey};
      if |slice| != 0 {
        slices := slices[documentKey := slice];
      }
    }
  }

  /** Collects one row by key, then puts it into the order of the referenced identity. Reading
      a column that is not there raises an exception. */
  method BuildRow(dp: DocumentPaths, slices: map<string, seq<Json>>, order: seq<string>, index: nat)
    returns (row: Option<Reference>)
    requires forall k :: k in slices ==> index < |slices[k]|
    ensures row.None? <==> MissesSlice(dp, slices)
    ensures row.Some? ==> row.value == Row(dp, slices, order, index)
  {
    var unsorted: map<string, Json> := map[];
    for i := 0 to |dp.pathOrder|
      invariant forall k :: k in dp.pathOrder[..i] ==> k in slices
      invariant unsorted == map k | k in slices && k in dp.pathOrder[..i] :: slices[k][index]
    {
      var documentKey := dp.pathOrder[i];
      if documentKey !in slices {
        return None;
      }
      unsorted := unsorted[documentKey := slices[documentKey][index]];
      assert dp.pathOrder[..i + 1] == dp.pathOrder[..i] + [documentKey];
    }
    assert dp.pathOrder[..|dp.pathOrder|] == dp.pathOrder;
    var identity: seq<Pair> := [];
    for j := 0 to |order|
      invariant |identity| == j
      invariant forall l :: 0 <= l < j ==> identity[l] == Row(dp, slices, order, index).identity[l]
    {
      var documentKey := order[j];
      identity := identity + [Pair(documentKey, if documentKey in unsorted then Some(unsorted[documentKey]) else None)];
    }
    return Some(Reference(dp.projectName, dp.resourceName, identity));
  }

  method BuildRows(dp: DocumentPaths, slices: map<string, seq<Json>>, order: seq<string>)
    returns (rows: Option<seq<Reference>>)
    requires slices != map[] && EqualLengths(slices) && RowCount(slices) > 0
    ensures rows.None? <==> MissesSlice(dp, slices)
    ensures rows.Some? ==> rows.value == Rows(dp, slices, order)
  {
    var result: seq<Reference> := [];
    for index := 0 to RowCount(slices)
      invariant index > 0 ==> !MissesSlice(dp, slices)
      invariant |result| == index
      invariant forall i :: 0 <= i < index ==> result[i] == Row(dp, slices, order, i)
    {
      var row := BuildRow(dp, slices, order, index);
      if row.None? {
        return None;
      }
      result := result + [row.value];
    }
    return Some(result);
  }

  method ExtractProperty(projects: seq<ProjectSchema>, dp: DocumentPaths, body: Json)
    returns (r: Extracted<seq<Reference>>)
    ensures r == PropertyReferences(projects, dp, body)
  {
    if !dp.isReference || dp.isDescriptor {
      return Ok([]);
    }
    var slices := EvaluatePaths(dp, body);
    if slices == map[] {
      return Ok([]);
    }
    if !EqualLengths(slices) {
      return Error(UnequalSlices);
    }
    ghost var k :| k in slices;
    assert RowCount(slices) == |slices[k]| > 0;
    var order := IdentityPathOrder(projects, dp.projectName, dp.resourceName);
    if order.Error? {
      return Error(order.failure);
    }
    var rows := BuildRows(dp, slices, order.value);
    return if rows.None? then Error(MissingSlice) else Ok(rows.value);
  }

  method ExtractDocumentReferences(projects: seq<ProjectSchema>, mapping: seq<DocumentPaths>, body: Json)
    returns (r: Extracted<seq<Reference>>)
    ensures r == References(projects, mapping, body)
  {
    var result := [];
    for i := 0 to |mapping|
      invariant References(projects, mapping[..i], body) == Ok(result)
    {
      var references := ExtractProperty(projects, mapping[i], body);
      assert mapping[..i + 1][..i] == mapping[..i];
      if references.Error? {
        FailureSpreads(projects, mapping, body, i + 1);
        return Error(references.failure);
      }
      result := result + references.value;
    }
    assert mapping[..|mapping|] == mapping;
    return Ok(result);
  }

  lemma {:induction false} FailureSpreads(projects: seq<ProjectSchema>, mapping: seq<DocumentPaths>, body: Json, i: nat)
    requires i <= |mapping| && References(projects, mapping[..i], body).Error?
    ensures References(projects, mapping, body) == References(projects, mapping[..i], body)
  {
    if i == |mapping| {
      assert mapping[..i] == mapping;
    } else {
      var n := |mapping| - 1;
      assert mapping[..n][..i] == mapping[..i];
      FailureSpreads(projects, mapping[..n], body, i);
    }
  }

  // ----- Columns against rows -----

  /** All paths of the property share a prefix and end in a field each. */
  ghost predicate Regular(dp: DocumentPaths, prefix: Path, leaf: map<string, string>) {
    && dp.paths.Keys == leaf.Keys && leaf != map[]
    && (forall k :: k in leaf ==> dp.paths[k] == prefix + [Field(leaf[k])])
    && (forall k :: k in dp.pathOrder <==> k in leaf)
  }

  predicate CarriesAll(o: Json, leaf: map<string, string>) {
    forall k :: k in leaf ==> Has(o, leaf[k])
  }

  /** The reference a single object describes, read directly. */
  function ObjectReference(dp: DocumentPaths, leaf: map<string, string>, order: seq<string>, o: Json): Reference {
    Reference(dp.projectName, dp.resourceName,
      seq(|order|, j requires 0 <= j < |order| =>
        Pair(order[j], if order[j] in leaf && Has(o, leaf[order[j]]) then Some(Get(o, leaf[order[j]])) else None)))
  }

  function ObjectReferences(dp: DocumentPaths, leaf: map<string, string>, order: seq<string>,
      objects: seq<Json>): seq<Reference>
  {
    seq(|objects|, i requires 0 <= i < |objects| => ObjectReference(dp, leaf, order, objects[i]))
  }

  ghost predicate ScalarFields(objects: seq<Json>, leaf: map<string, string>) {
    forall k :: k in leaf ==> NoArrays(objects, leaf[k])
  }

  lemma ColumnIs(dp: DocumentPaths, prefix: Path, leaf: map<string, string>, body: Json, k: string)
    requires Regular(dp, prefix, leaf) && ScalarFields(Eval(prefix, body), leaf) && k in leaf
    ensures Values(dp.paths[k], body) == Gather(Eval(prefix, body), leaf[k])
  {
    ValuesOfField(prefix, leaf[k], body);
  }

  lemma CellIs(dp: DocumentPaths, prefix: Path, leaf: map<string, string>, body: Json, k: string, i: nat)
    requires Regular(dp, prefix, leaf) && ScalarFields(Eval(prefix, body), leaf) && k in leaf
    requires forall o :: o in Eval(prefix, body) ==> CarriesAll(o, leaf)
    requires i < |Eval(prefix, body)|
    ensures k in Slices(dp.paths, body) && i < |Slices(dp.paths, body)[k]|
    ensures Has(Eval(prefix, body)[i], leaf[k])
    ensures Slices(dp.paths, body)[k][i] == Get(Eval(prefix, body)[i], leaf[k])
  {
    ColumnIs(dp, prefix, leaf, body, k);
    GatherAt(Eval(prefix, body), leaf[k], i);
  }

  lemma AllCells(dp: DocumentPaths, prefix: Path, leaf: map<string, string>, body: Json, i: nat)
    requires Regular(dp, prefix, leaf) && ScalarFields(Eval(prefix, body), leaf)
    requires forall o :: o in Eval(prefix, body) ==> CarriesAll(o, leaf)
    requires i < |Eval(prefix, body)|
    ensures var (slices, o) := (Slices(dp.paths, body), Eval(prefix, body)[i]);
      forall k :: k in dp.pathOrder ==>
        k in slices && i < |slices[k]| && k in leaf && Has(o, leaf[k]) && slices[k][i] == Get(o, leaf[k])
  {
    forall k | k in leaf
      ensures k in Slices(dp.paths, body) && i < |Slices(dp.paths, body)[k]|
      ensures Has(Eval(prefix, body)[i], leaf[k])
      ensures Slices(dp.paths, body)[k][i] == Get(Eval(prefix, body)[i], leaf[k])
    {
      CellIs(dp, prefix, leaf, body, k, i);
    }
  }

  /** A row whose cells are the fields of an object is the reference the object describes. */
  lemma CellsMakeRow(dp: DocumentPaths, slices: map<string, seq<Json>>, leaf: map<string, string>,
      order: seq<string>, i: nat, o: Json)
    requires forall k :: k in dp.pathOrder <==> k in leaf
    requires forall k :: k in dp.pathOrder ==>
      k in slices && i < |slices[k]| && Has(o, leaf[k]) && slices[k][i] == Get(o, leaf[k])
    ensures Row(dp, slices, order, i) == ObjectReference(dp, leaf, order, o)
  {
    assert Row(dp, slices, order, i).identity == ObjectReference(dp, leaf, order, o).identity;
  }

  lemma RowIs(dp: DocumentPaths, prefix: Path, leaf: map<string, string>, body: Json, order: seq<string>, i: nat)
    requires Regular(dp, prefix, leaf) && ScalarFields(Eval(prefix, body), leaf)
    requires forall o :: o in Eval(prefix, body) ==> CarriesAll(o, leaf)
    requires i < |Eval(prefix, body)|
    ensures forall k :: k in dp.pathOrder ==> k in Slices(dp.paths, body) && i < |Slices(dp.paths, body)[k]|
    ensures Row(dp, Slices(dp.paths, body), order, i) == ObjectReference(dp, leaf, order, Eval(prefix, body)[i])
  {
    AllCells(dp, prefix, leaf, body, i);
    CellsMakeRow(dp, Slices(dp.paths, body), leaf, order, i, Eval(prefix, body)[i]);
  }

  lemma FullColumns(dp: DocumentPaths, prefix: Path, leaf: map<string, string>, body: Json)
    requires Regular(dp, prefix, leaf) && ScalarFields(Eval(prefix, body), leaf)
    requires forall o :: o in Eval(prefix, body) ==> CarriesAll(o, leaf)
    ensures Slices(dp.paths, body) == map[] <==> Eval(prefix, body) == []
    ensures EqualLengths(Slices(dp.paths, body))
    ensures Eval(prefix, body) != [] ==> RowCount(Slices(dp.paths, body)) == |Eval(prefix, body)|
  {
    var objects, slices := Eval(prefix, body), Slices(dp.paths, body);
    forall k | k in leaf
      ensures k in slices <==> objects != []
      ensures k in slices ==> |slices[k]| == |objects|
    {
      ColumnIs(dp, prefix, leaf, body, k);
    }
    var k :| k in leaf;
    assert k in slices ==> slices != map[];
  }

  lemma RowsAreObjects(dp: DocumentPaths, prefix: Path, leaf: map<string, string>, body: Json, order: seq<string>)
    requires Regular(dp, prefix, leaf) && ScalarFields(Eval(prefix, body), leaf)
    requires forall o :: o in Eval(prefix, body) ==> CarriesAll(o, leaf)
    requires Eval(prefix, body) != []
    ensures var slices := Slices(dp.paths, body);
      && slices != map[] && EqualLengths(slices) && !MissesSlice(dp, slices)
      && Rows(dp, slices, order) == ObjectReferences(dp, leaf, order, Eval(prefix, body))
  {
    FullColumns(dp, prefix, leaf, body);
    RowIs(dp, prefix, leaf, body, order, 0);
    forall i | 0 <= i < |Eval(prefix, body)|
      ensures Rows(dp, Slices(dp.paths, body), order)[i] == ObjectReference(dp, leaf, order, Eval(prefix, body)[i])
    {
      RowIs(dp, prefix, leaf, body, order, i);
    }
  }

  /** If every object carries all keys, the transposed columns are the rows. */
  lemma CompleteObjectsExtract(projects: seq<ProjectSchema>, dp: DocumentPaths, prefix: Path,
      leaf: map<string, string>, body: Json, order: seq<string>)
    requires dp.isReference && !dp.isDescriptor && Regular(dp, prefix, leaf) && ScalarFields(Eval(prefix, body), leaf)
    requires IdentityPathOrder(projects, dp.projectName, dp.resourceName) == Ok(order)
    requires forall o :: o in Eval(prefix, body) ==> CarriesAll(o, leaf)
    ensures PropertyReferences(projects, dp, body) == Ok(ObjectReferences(dp, leaf, order, Eval(prefix, body)))
  {
    if Eval(prefix, body) != [] {
      RowsAreObjects(dp, prefix, leaf, body, order);
    } else {
      FullColumns(dp, prefix, leaf, body);
      assert ObjectReferences(dp, leaf, order, []) == [];
    }
  }

  /** An object that lacks a key leaves its column short: the extractor raises an exception or
      returns too few references. */
  lemma IncompleteObjectFails(projects: seq<ProjectSchema>, dp: DocumentPaths, prefix: Path, leaf: map<string, string>,
      body: Json, k: string)
    requires dp.isReference && !dp.isDescriptor && Regular(dp, prefix, leaf) && ScalarFields(Eval(prefix, body), leaf)
    requires k in leaf && exists o :: o in Eval(prefix, body) && !Has(o, leaf[k])
    ensures var r := PropertyReferences(projects, dp, body); r.Error? || |r.value| < |Eval(prefix, body)|
  {
    var objects, slices := Eval(prefix, body), Slices(dp.paths, body);
    ColumnIs(dp, prefix, leaf, body, k);
    assert |Gather(objects, leaf[k])| < |objects|;
    assert objects != [];
    if PropertyReferences(projects, dp, body).Ok? && slices != map[] {
      assert k in slices && RowCount(slices) == |slices[k]|;
    }
  }

  /** Main result: columns and rows agree exactly when every object at the shared prefix
      carries all keys of the reference. */
  lemma ColumnsEqualRowsIff(projects: seq<ProjectSchema>, dp: DocumentPaths, prefix: Path, leaf: map<string, string>,
      body: Json, order: seq<string>)
    requires dp.isReference && !dp.isDescriptor && Regular(dp, prefix, leaf) && ScalarFields(Eval(prefix, body), leaf)
    requires IdentityPathOrder(projects, dp.projectName, dp.resourceName) == Ok(order)
    ensures PropertyReferences(projects, dp, body) == Ok(ObjectReferences(dp, leaf, order, Eval(prefix, body)))
            <==> forall o :: o in Eval(prefix, body) ==> CarriesAll(o, leaf)
  {
    if forall o :: o in Eval(prefix, body) ==> CarriesAll(o, leaf) {
      CompleteObjectsExtract(projects, dp, prefix, leaf, body, order);
    } else {
      var o :| o in Eval(prefix, body) && !CarriesAll(o, leaf);
      var k :| k in leaf && !Has(o, leaf[k]);
      IncompleteObjectFails(projects, dp, prefix, leaf, body, k);
    }
  }

  // ----- What the extraction of one property returns -----

  ghost predicate FirstProject(projects: seq<ProjectSchema>, name: string, i: nat) {
    i < |projects| && projects[i].projectName == name && forall j :: 0 <= j < i ==> projects[j].projectName != name
  }

  ghost predicate FirstResource(resources: seq<ResourceOrder>, name: string, i: nat) {
    i < |resources| && resources[i].resourceName == name && forall j :: 0 <= j < i ==> resources[j].resourceName != name
  }

  lemma {:induction false} FindProjectIs(projects: seq<ProjectSchema>, name: string) returns (i: nat)
    ensures i <= |projects| && forall j :: 0 <= j < i ==> projects[j].projectName != name
    ensures if i < |projects| then FirstProject(projects, name, i) && FindProject(projects, name) == Some(projects[i])
            else FindProject(projects, name) == None
  {
    if projects == [] || projects[0].projectName == name {
      i := 0;
    } else {
      i := FindProjectIs(projects[1..], name);
      i := i + 1;
      assert forall j :: 1 <= j < |projects| ==> projects[j] == projects[1..][j - 1];
    }
  }

  lemma {:induction false} FindResourceIs(resources: seq<ResourceOrder>, name: string) returns (i: nat)
    ensures i <= |resources| && forall j :: 0 <= j < i ==> resources[j].resourceName != name
    ensures if i < |resources|
            then FirstResource(resources, name, i) && FindResource(resources, name) == Some(resources[i])
            else FindResource(resources, name) == None
  {
    if resources == [] || resources[0].resourceName == name {
      i := 0;
    } else {
      i := FindResourceIs(resources[1..], name);
      i := i + 1;
      assert forall j :: 1 <= j < |resources| ==> resources[j] == resources[1..][j - 1];
    }
  }

  /** The order is that of the first resource of the name in the first project of the name; an
      abstract resource counts only if there is no concrete one. */
  lemma IdentityPathOrderIs(projects: seq<ProjectSchema>, projectName: string, resourceName: string)
    returns (i: nat, j: nat, k: nat)
    ensures i <= |projects| && forall l :: 0 <= l < i ==> projects[l].projectName != projectName
    ensures i == |projects| ==> IdentityPathOrder(projects, projectName, resourceName) == Error(UnknownProject)
    ensures i < |projects| ==>
      var (concrete, abstracts) := (projects[i].resources, projects[i].abstractResources);
      var order := IdentityPathOrder(projects, projectName, resourceName);
      && FirstProject(projects, projectName, i)
      && (forall l :: 0 <= l < j ==> l < |concrete| && concrete[l].resourceName != resourceName)
      && (forall l :: 0 <= l < k ==> l < |abstracts| && abstracts[l].resourceName != resourceName)
      && (if j < |concrete| then FirstResource(concrete, resourceName, j) && order == Ok(concrete[j].identityPathOrder)
          else if k < |abstracts| then
            j == |concrete| && FirstResource(abstracts, resourceName, k) && order == Ok(abstracts[k].identityPathOrder)
          else j == |concrete| && k == |abstracts| && order == Error(UnknownResource))
  {
    i := FindProjectIs(projects, projectName);
    j, k := 0, 0;
    if i < |projects| {
      j := FindResourceIs(projects[i].resources, resourceName);
      k := FindResourceIs(projects[i].abstractResources, resourceName);
    }
  }

  /** The body has a value for the key. */
  predicate Valued(dp: DocumentPaths, body: Json, k: string) {
    k in dp.paths && Values(dp.paths[k], body) != []
  }

  /** The property is a reference to a document that occurs in the body. */
  ghost predicate Occurs(dp: DocumentPaths, body: Json) {
    dp.isReference && !dp.isDescriptor && exists k :: Valued(dp, body, k)
  }

  /** All keys that have values have equally many. */
  ghost predicate Balanced(dp: DocumentPaths, body: Json) {
    forall k, l :: Valued(dp, body, k) && Valued(dp, body, l) ==>
      |Values(dp.paths[k], body)| == |Values(dp.paths[l], body)|
  }

  lemma SlicesAre(dp: DocumentPaths, body: Json)
    ensures var slices := Slices(dp.paths, body);
      && (slices == map[] <==> !exists k :: Valued(dp, body, k))
      && (EqualLengths(slices) <==> Balanced(dp, body))
      && (MissesSlice(dp, slices) <==> exists k :: k in dp.pathOrder && !Valued(dp, body, k))
      && (slices != map[] && EqualLengths(slices) ==> RowCount(slices) > 0)
  {
    var slices := Slices(dp.paths, body);
    assert forall k :: k in slices <==> Valued(dp, body, k);
    if slices != map[] && EqualLengths(slices) {
      var k :| k in slices;
      assert RowCount(slices) == |slices[k]|;
    }
  }

  /** Every answer of one property and its condition. */
  lemma PropertyAnswersIff(projects: seq<ProjectSchema>, dp: DocumentPaths, body: Json)
    ensures var r := PropertyReferences(projects, dp, body);
      var order := IdentityPathOrder(projects, dp.projectName, dp.resourceName);
      var readable := Occurs(dp, body) && Balanced(dp, body);
      && (r == Ok([]) <==> !Occurs(dp, body))
      && (r == Error(UnequalSlices) <==> Occurs(dp, body) && !Balanced(dp, body))
      && (r == Error(UnknownProject) <==> readable && order == Error(UnknownProject))
      && (r == Error(UnknownResource) <==> readable && order == Error(UnknownResource))
      && (r == Error(MissingSlice) <==>
           readable && order.Ok? && exists k :: k in dp.pathOrder && !Valued(dp, body, k))
      && (r.Ok? && r != Ok([]) <==>
           readable && order.Ok? && forall k :: k in dp.pathOrder ==> Valued(dp, body, k))
  {
    SlicesAre(dp, body);
  }

  /** What the references of one property are: one for each row of the columns, with the keys in
      identity path order. */
  lemma PropertyRows(projects: seq<ProjectSchema>, dp: DocumentPaths, body: Json, order: seq<string>, k: string)
    requires PropertyReferences(projects, dp, body).Ok? && dp.isReference && !dp.isDescriptor && Valued(dp, body, k)
    requires IdentityPathOrder(projects, dp.projectName, dp.resourceName) == Ok(order)
    ensures var rows := PropertyReferences(projects, dp, body).value;
      && |rows| == |Values(dp.paths[k], body)|
      && forall i :: 0 <= i < |rows| ==> ShowsRow(dp, body, order, i, rows[i])
  {
    var slices := Slices(dp.paths, body);
    SlicesAre(dp, body);
    assert k in slices && !MissesSlice(dp, slices) && EqualLengths(slices);
    assert RowCount(slices) == |slices[k]|;
    forall i | 0 <= i < RowCount(slices) ensures ShowsRow(dp, body, order, i, Rows(dp, slices, order)[i]) {
      RowShown(dp, body, order, i);
    }
  }

  /** The reference has the keys in order, each with its value in row `i`, and none for a key the
      property does not extract. */
  ghost predicate ShowsRow(dp: DocumentPaths, body: Json, order: seq<string>, i: nat, r: Reference) {
    && r.projectName == dp.projectName && r.resourceName == dp.resourceName && |r.identity| == |order|
    && forall j :: 0 <= j < |order| ==>
         && r.identity[j].key == order[j]
         && (order[j] !in dp.pathOrder ==> r.identity[j].value == None)
         && (order[j] in dp.pathOrder ==>
              && Valued(dp, body, order[j]) && i < |Values(dp.paths[order[j]], body)|
              && r.identity[j].value == Some(Values(dp.paths[order[j]], body)[i]))
  }

  lemma RowShown(dp: DocumentPaths, body: Json, order: seq<string>, i: nat)
    requires var slices := Slices(dp.paths, body);
      slices != map[] && EqualLengths(slices) && !MissesSlice(dp, slices) && i < RowCount(slices)
    ensures ShowsRow(dp, body, order, i, Row(dp, Slices(dp.paths, body), order, i))
  {
    var slices := Slices(dp.paths, body);
    forall l | l in dp.pathOrder
      ensures Valued(dp, body, l) && slices[l] == Values(dp.paths[l], body) && |slices[l]| == RowCount(slices)
    {
      assert l in slices;
    }
  }

  // ----- What the extraction of a document returns -----

  /** What the extraction of each property returns. */
  function Outcomes(projects: seq<ProjectSchema>, mapping: seq<DocumentPaths>,
      body: Json): (outcomes: seq<Extracted<seq<Reference>>>)
    ensures |outcomes| == |mapping|
    ensures forall i :: 0 <= i < |mapping| ==> outcomes[i] == PropertyReferences(projects, mapping[i], body)
  {
    seq(|mapping|, i requires 0 <= i < |mapping| => PropertyReferences(projects, mapping[i], body))
  }

  /** `parts` are the references of the properties before the first failure, and `r` is that
      failure, or the references of the first property, then of the second, and so on. */
  ghost predicate ExtractsTo(outcomes: seq<Extracted<seq<Reference>>>, parts: seq<seq<Reference>>,
      r: Extracted<seq<Reference>>)
  {
    && |parts| <= |outcomes|
    && (forall j :: 0 <= j < |parts| ==> outcomes[j] == Ok(parts[j]))
    && (if |parts| < |outcomes| then outcomes[|parts|].Error? && r == Error(outcomes[|parts|].failure)
        else r.Ok? && Concatenates(parts, r.value))
  }

  /** One more outcome after those that gave `r`. */
  function Extended(r: Extracted<seq<Reference>>, last: Extracted<seq<Reference>>): Extracted<seq<Reference>> {
    if r.Error? then r else if last.Error? then last else Ok(r.value + last.value)
  }

  lemma ExtractsOneMore(before: seq<Extracted<seq<Reference>>>, last: Extracted<seq<Reference>>,
      parts: seq<seq<Reference>>, r: Extracted<seq<Reference>>) returns (more: seq<seq<Reference>>)
    requires ExtractsTo(before, parts, r)
    ensures ExtractsTo(before + [last], more, Extended(r, last))
  {
    more := parts;
    if r.Ok? && last.Ok? {
      ConcatenatesOneMore(parts, r.value, last.value);
      more := parts + [last.value];
    }
  }

  lemma {:induction false} OutcomesSnoc(projects: seq<ProjectSchema>, mapping: seq<DocumentPaths>, body: Json, n: nat)
    requires |mapping| == n + 1
    ensures Outcomes(projects, mapping, body)
            == Outcomes(projects, mapping[..n], body) + [PropertyReferences(projects, mapping[n], body)]
  {
  }

  lemma {:induction false} ReferencesSnoc(projects: seq<ProjectSchema>, mapping: seq<DocumentPaths>, body: Json, n: nat)
    requires |mapping| == n + 1
    ensures References(projects, mapping, body)
            == Extended(References(projects, mapping[..n], body), PropertyReferences(projects, mapping[n], body))
  {
  }

  /** Main result: the extraction fails exactly when some property fails, with the first failure;
      otherwise it lists the references of each property in order. */
  lemma {:induction false} ReferencesAre(projects: seq<ProjectSchema>, mapping: seq<DocumentPaths>, body: Json)
    returns (parts: seq<seq<Reference>>)
    ensures ExtractsTo(Outcomes(projects, mapping, body), parts, References(projects, mapping, body))
  {
    parts := [];
    if mapping != [] {
      var n := |mapping| - 1;
      parts := ReferencesAre(projects, mapping[..n], body);
      parts := ExtractsOneMore(Outcomes(projects, mapping[..n], body), PropertyReferences(projects, mapping[n], body),
        parts, References(projects, mapping[..n], body));
      OutcomesSnoc(projects, mapping, body, n);
      ReferencesSnoc(projects, mapping, body, n);
    }
  }

  // ----- A whole document against its objects -----

  /** How one property is read object by object. */
  datatype Reading = Reading(prefix: Path, leaf: map<string, string>, order: seq<string>)

  ghost predicate Reads(projects: seq<ProjectSchema>, dp: DocumentPaths, rd: Reading, body: Json) {
    dp.isReference && !dp.isDescriptor ==>
      && Regular(dp, rd.prefix, rd.leaf) && ScalarFields(Eval(rd.prefix, body), rd.leaf)
      && IdentityPathOrder(projects, dp.projectName, dp.resourceName) == Ok(rd.order)
  }

  /** The objects of a property; a property that is not a document reference has none. */
  function ObjectsOf(dp: DocumentPaths, rd: Reading, body: Json): seq<Json> {
    if dp.isReference && !dp.isDescriptor then Eval(rd.prefix, body) else []
  }

  ghost predicate Complete(dp: DocumentPaths, rd: Reading, body: Json) {
    forall o :: o in ObjectsOf(dp, rd, body) ==> CarriesAll(o, rd.leaf)
  }

  ghost predicate ReadsAll(projects: seq<ProjectSchema>, mapping: seq<DocumentPaths>, readings: seq<Reading>,
      body: Json)
  {
    |mapping| == |readings| && forall i :: 0 <= i < |mapping| ==> Reads(projects, mapping[i], readings[i], body)
  }

  /** What one gets by reading the objects of each property in document order. */
  function ReadByObject(mapping: seq<DocumentPaths>, readings: seq<Reading>, body: Json): (rows: seq<seq<Reference>>)
    requires |mapping| == |readings|
    ensures |rows| == |mapping|
    ensures forall i :: 0 <= i < |rows| ==>
      rows[i] == ObjectReferences(mapping[i], readings[i].leaf, readings[i].order,
        ObjectsOf(mapping[i], readings[i], body))
  {
    seq(|mapping|, i requires 0 <= i < |mapping| =>
      ObjectReferences(mapping[i], readings[i].leaf, readings[i].order, ObjectsOf(mapping[i], readings[i], body)))
  }

  /** One property: complete objects are read exactly, incomplete ones fail or come out short. */
  lemma PropertyReadIff(projects: seq<ProjectSchema>, dp: DocumentPaths, rd: Reading, body: Json)
    requires Reads(projects, dp, rd, body)
    ensures var (r, objects) := (PropertyReferences(projects, dp, body), ObjectsOf(dp, rd, body));
      if Complete(dp, rd, body) then r == Ok(ObjectReferences(dp, rd.leaf, rd.order, objects))
      else r.Error? || |r.value| < |objects|
  {
    if dp.isReference && !dp.isDescriptor {
      if Complete(dp, rd, body) {
        CompleteObjectsExtract(projects, dp, rd.prefix, rd.leaf, body, rd.order);
      } else {
        var o :| o in Eval(rd.prefix, body) && !CarriesAll(o, rd.leaf);
        var k :| k in rd.leaf && !Has(o, rd.leaf[k]);
        IncompleteObjectFails(projects, dp, rd.prefix, rd.leaf, body, k);
      }
    } else {
      assert ObjectReferences(dp, rd.leaf, rd.order, []) == [];
    }
  }

  /** The parts that were extracted are the objects read, or shorter. */
  lemma PartsAgainstObjects(projects: seq<ProjectSchema>, mapping: seq<DocumentPaths>, readings: seq<Reading>,
      body: Json, parts: seq<seq<Reference>>)
    requires ReadsAll(projects, mapping, readings, body) && |parts| == |mapping|
    requires forall j :: 0 <= j < |parts| ==> PropertyReferences(projects, mapping[j], body) == Ok(parts[j])
    ensures forall j :: 0 <= j < |parts| ==>
      if Complete(mapping[j], readings[j], body) then parts[j] == ReadByObject(mapping, readings, body)[j]
      else |parts[j]| < |ReadByObject(mapping, readings, body)[j]|
  {
    forall j | 0 <= j < |parts|
      ensures if Complete(mapping[j], readings[j], body) then parts[j] == ReadByObject(mapping, readings, body)[j]
              else |parts[j]| < |ReadByObject(mapping, readings, body)[j]|
    {
      PropertyReadIff(projects, mapping[j], readings[j], body);
    }
  }

  /** Main result: a document's references are those one reads object by object, property after
      property, exactly when every object carries all keys of its reference. */
  lemma DocumentReadIff(projects: seq<ProjectSchema>, mapping: seq<DocumentPaths>, readings: seq<Reading>, body: Json)
    requires ReadsAll(projects, mapping, readings, body)
    ensures (References(projects, mapping, body).Ok?
             && Concatenates(ReadByObject(mapping, readings, body), References(projects, mapping, body).value))
            <==> forall i :: 0 <= i < |mapping| ==> Complete(mapping[i], readings[i], body)
  {
    var parts := ReferencesAre(projects, mapping, body);
    var rows := ReadByObject(mapping, readings, body);
    if |parts| < |mapping| {
      PropertyReadIff(projects, mapping[|parts|], readings[|parts|], body);
    } else {
      PartsAgainstObjects(projects, mapping, readings, body, parts);
      if forall i :: 0 <= i < |mapping| ==> Complete(mapping[i], readings[i], body) {
        assert parts == rows;
      } else {
        var i :| 0 <= i < |mapping| && !Complete(mapping[i], readings[i], body);
        ShorterTotal(parts, rows, |parts|, i);
      }
    }
  }
}
