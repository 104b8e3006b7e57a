/** The parts of the Grasshopper kernel the plug-in works against: data trees of goo, the
    parameters, components and other objects of a definition (`GH_Document`), value lists, and the
    process-wide solver switches. Objects are values carrying their instance id; a definition is a
    class whose object list is replaced as objects change. The solver itself is not modelled: a
    solution request is only counted. */
module GhKernel {
  import opened Wrappers
  import opened HostTypes
  import opened ParameterTypes

  /** A goo item: a BricsCAD geometry reference (`IGH_BcGeometricGoo`), one of the primitive goos,
      or any other goo. */
  datatype Goo =
    | BcGoo(geo: GeoRef)
    | IntGoo(i: Int32)
    | NumberGoo(r: real)
    | BoolGoo(b: bool)
    | StringGoo(s: string)
    | PointGoo(p: Point3)
    | VectorGoo(v: Vector3)
    | OtherGoo(tag: int)

  /** One branch of a data tree: its path and its items, where `None` is a null item. */
  datatype Branch = Branch(path: seq<int>, items: seq<Option<Goo>>)

  /** A data tree (`GH_Structure`): its branches in path order. */
  type Tree = seq<Branch>

  /** The non-null items of a list, in order. */
  function NonNull(items: seq<Option<Goo>>): (r: seq<Goo>)
    ensures |r| <= |items|
    ensures forall g :: g in r <==> Some(g) in items
  {
    if |items| == 0 then []
    else
      var rest := NonNull(items[1..]);
      assert forall g :: Some(g) in items <==> items[0] == Some(g) || Some(g) in items[1..];
      if items[0].Some? then [items[0].value] + rest else rest
  }

  /** `AllData(true)`: the non-null items of every branch, branch after branch. */
  function AllData(t: Tree): (r: seq<Goo>)
    ensures forall g :: g in r <==> exists b :: b in t && Some(g) in b.items
  {
    if |t| == 0 then []
    else
      var rest := AllData(t[1..]);
      assert forall b :: b in t <==> b == t[0] || b in t[1..];
      NonNull(t[0].items) + rest
  }

  /** `DataCount`: the number of items of all branches, null items included. */
  function DataCount(t: Tree): (n: nat)
    ensures n == 0 <==> forall i :: 0 <= i < |t| ==> |t[i].items| == 0
  {
    if |t| == 0 then 0 else |t[0].items| + DataCount(t[1..])
  }

  /** There is no non-null item when there is no item at all. */
  lemma {:induction false} AllDataEmpty(t: Tree)
    requires DataCount(t) == 0
    ensures AllData(t) == []
  {
    if |t| > 0 {
      assert |t[0].items| == 0;
      AllDataEmpty(t[1..]);
    }
  }

  /** The geometry references among items (`OfType<IGH_BcGeometricGoo>()`), in order. */
  function GeoRefs(gs: seq<Goo>): (r: seq<GeoRef>)
    ensures forall x :: x in r <==> BcGoo(x) in gs
  {
    if |gs| == 0 then []
    else
      var rest := GeoRefs(gs[1..]);
      assert forall g :: g in gs <==> g == gs[0] || g in gs[1..];
      if gs[0].BcGoo? then [gs[0].geo] + rest else rest
  }

  /** The persistent handles of geometry references. */
  function Handles(rs: seq<GeoRef>): (r: seq<Handle>)
    ensures |r| == |rs| && forall i :: 0 <= i < |rs| ==> r[i] == rs[i].persistentRef
  {
    seq(|rs|, i requires 0 <= i < |rs| => rs[i].persistentRef)
  }

  /** `list[index] = x`, padding the list with null items up to `index` first. */
  function PutItem(items: seq<Option<Goo>>, index: nat, x: Goo): (r: seq<Option<Goo>>)
    ensures |r| == if index < |items| then |items| else index + 1
    ensures r[index] == Some(x)
    ensures forall k :: 0 <= k < |r| && k != index ==> r[k] == if k < |items| then items[k] else None
  {
    if index < |items| then items[index := Some(x)]
    else items + seq(index - |items|, _ => None) + [Some(x)]
  }

  /** The position of the branch with that path, or -1. */
  function FindBranch(t: Tree, path: seq<int>): (k: int)
    ensures -1 <= k < |t|
    ensures k >= 0 ==> t[k].path == path && forall j :: 0 <= j < k ==> t[j].path != path
    ensures k < 0 ==> forall j :: 0 <= j < |t| ==> t[j].path != path
  {
    if |t| == 0 then -1
    else if t[0].path == path then 0
    else
      var k := FindBranch(t[1..], path);
      if k < 0 then -1 else k + 1
  }

  /** `AddVolatileData(path, index, x)`: the item goes to `index` of the branch with that path; a
      missing branch is added after the others. Every other branch is unchanged. */
  function AddData(t: Tree, path: seq<int>, index: nat, x: Goo): (r: Tree)
    ensures var k := FindBranch(t, path);
            if k >= 0 then |r| == |t| && r[k].path == path && r[k].items == PutItem(t[k].items, index, x) &&
                           forall j :: 0 <= j < |t| && j != k ==> r[j] == t[j]
            else r == t + [Branch(path, PutItem([], index, x))]
  {
    var k := FindBranch(t, path);
    if k >= 0 then t[k := Branch(path, PutItem(t[k].items, index, x))]
    else t + [Branch(path, PutItem([], index, x))]
  }

  /** The single-item tree `{0}[0] = x`: what adding to a cleared tree gives. */
  lemma AddToEmpty(x: Goo)
    ensures AddData([], [0], 0, x) == [Branch([0], [Some(x)])]
    ensures AllData(AddData([], [0], 0, x)) == [x]
  {
    var p := PutItem([], 0, x);
    assert |p| == 1 && p[0] == Some(x);
    assert p == [Some(x)];
    assert AllData([Branch([0], [Some(x)])]) == NonNull([Some(x)]) + AllData([]);
    assert NonNull([Some(x)]) == [x] + NonNull([]);
  }

  /** Grasshopper's parameter classes as far as the plug-in tells them apart. */
  datatype GeometryParamKind = EdgeParam | FaceParam | VertexParam | CurveParam | EntityParam

  datatype ParamKind =
    | IntegerParam | NumberParam | BooleanParam | StringParam | PointParam | VectorParam
    | GeometryParam(geometry: GeometryParamKind)   // the plug-in's persistent geometry params
    | BuildingsPicker                               // `DocumentBuildingsPicker`
    | MaterialPicker                                // `MaterialName`
    | PlaneParam | PointInputParam                  // `BcPlane`, `BcPoint`
    | OtherParam

  /** The plug-in's parameters (`IGH_BcParam`). */
  predicate IsBcParam(k: ParamKind) {
    k.GeometryParam? || k.BuildingsPicker? || k.MaterialPicker?
  }

  /** A parameter: kind, nickname, wiring, data and the flags the plug-in reads. */
  datatype Param = Param(
    guid: int,
    kind: ParamKind,
    nickName: string,
    category: string,
    sourceCount: nat,
    recipientCount: nat,
    locked: bool,
    selected: bool,
    hidden: bool,
    volatileData: Tree,
    persistentData: Tree,
    remote: bool,          // `DataType == GH_ParamData.remote`
    blank: bool,           // `Phase == GH_SolutionPhase.Blank`
    expired: bool,         // `ExpireSolution` was called
    warnings: seq<string>)

  /** The plug-in's components, and the others. */
  datatype ComponentKind =
    | DocumentElementsComponent | BuildingStoriesComponent
    | BakeComponent | InsertBlockReference | OtherComponent

  /** The plug-in's components (`IGH_BcComponent`). */
  predicate IsBcComponent(k: ComponentKind) {
    k.DocumentElementsComponent? || k.BuildingStoriesComponent?
  }

  datatype Component = Component(
    guid: int,
    kind: ComponentKind,
    inputs: seq<Param>,
    outputs: seq<Param>,
    locked: bool,
    selected: bool,
    hidden: bool,
    expired: bool,
    warnings: seq<string>)

  /** An object of a definition: a parameter, a component, or a passive object (group, scribble). */
  datatype DocObject =
    | ParamObject(param: Param)
    | ComponentObject(component: Component)
    | PassiveObject(passiveGuid: int, passiveSelected: bool)
  {
    function Guid(): int {
      match this
      case ParamObject(p) => p.guid
      case ComponentObject(c) => c.guid
      case PassiveObject(g, _) => g
    }
    predicate Selected() {
      match this
      case ParamObject(p) => p.selected
      case ComponentObject(c) => c.selected
      case PassiveObject(_, s) => s
    }
  }

  /** Preview modes and filters of a definition. */
  datatype PreviewMode = PreviewDisabled | Wireframe | Shaded
  datatype PreviewFilter = ShowAll | ShowSelected

  /** A definition (`GH_Document`). */
  class GhDocument {
    var objects: seq<DocObject>
    var enabled: bool
    var solutionRequests: nat       // `NewSolution` calls
    var processing: bool            // `SolutionState == GH_ProcessStep.Process`
    var previewMode: PreviewMode
    var previewFilter: PreviewFilter
    var previewColour: Argb
    var previewColourSelected: Argb

    constructor (objects: seq<DocObject>)
      ensures this.objects == objects && !enabled && solutionRequests == 0 && !processing
      ensures previewMode == Wireframe && previewFilter == ShowAll
    {
      this.objects := objects;
      enabled := false;
      solutionRequests := 0;
      processing := false;
      previewMode := Wireframe;
      previewFilter := ShowAll;
      previewColour := Argb(255, 150, 0, 0);
      previewColourSelected := Argb(255, 0, 150, 0);
    }

    /** `NewSolution`: a solution is requested. */
    method NewSolution()
      modifies this
      ensures solutionRequests == old(solutionRequests) + 1
      ensures objects == old(objects) && enabled == old(enabled) && processing == old(processing)
      ensures previewMode == old(previewMode) && previewFilter == old(previewFilter)
      ensures previewColour == old(previewColour) && previewColourSelected == old(previewColourSelected)
    {
      solutionRequests := solutionRequests + 1;
    }

    /** `SelectedObjects()`: the instance ids of the selected objects, in object order. */
    function SelectedObjects(): (r: seq<int>)
      reads this
      ensures forall i :: 0 <= i < |objects| && objects[i].Selected() ==> objects[i].Guid() in r
      ensures forall g :: g in r ==> exists i :: 0 <= i < |objects| && objects[i].Selected() && objects[i].Guid() == g
    {
      SelectedOf(objects)
    }
  }

  function SelectedOf(os: seq<DocObject>): (r: seq<int>)
    ensures forall i :: 0 <= i < |os| && os[i].Selected() ==> os[i].Guid() in r
    ensures forall g :: g in r ==> exists i :: 0 <= i < |os| && os[i].Selected() && os[i].Guid() == g
  {
    if |os| == 0 then []
    else
      var rest := SelectedOf(os[1..]);
      assert forall i :: 1 <= i < |os| ==> os[i] == os[1..][i - 1];
      if os[0].Selected() then [os[0].Guid()] + rest else rest
  }

  /** The process-wide Grasshopper state: `GH_Document.EnableSolutions`, the definition on the
      active canvas, and the open definitions (`Instances.DocumentServer`). */
  class Instances {
    var enableSolutions: bool
    var activeDefinition: GhDocument?
    var definitions: seq<GhDocument>
    var editorVisible: bool

    constructor ()
      ensures enableSolutions && activeDefinition == null && definitions == [] && !editorVisible
    {
      enableSolutions := true;
      activeDefinition := null;
      definitions := [];
      editorVisible := false;
    }
  }

  /** An item of a value list (`GH_ValueListItem`): its name, its expression and whether it is
      selected. */
  datatype ValueListItem = ValueListItem(name: string, expression: string, selected: bool)

  /** The expressions of the selected items, in order. */
  function SelectedExpressions(items: seq<ValueListItem>): (r: seq<string>)
    ensures forall i :: 0 <= i < |items| && items[i].selected ==> items[i].expression in r
    ensures forall e :: e in r ==> exists i :: 0 <= i < |items| && items[i].selected && items[i].expression == e
  {
    if |items| == 0 then []
    else
      var rest := SelectedExpressions(items[1..]);
      assert forall i :: 1 <= i < |items| ==> items[i] == items[1..][i - 1];
      if items[0].selected then [items[0].expression] + rest else rest
  }

  /** A value list (`GH_ValueList`): its items, replaced by the refresh methods. */
  class ValueList {
    var listItems: seq<ValueListItem>

    constructor (items: seq<ValueListItem>)
      ensures listItems == items
    {
      listItems := items;
    }
  }

  /** The items a refresh builds from (name, expression) entries, in order: an item is selected
      exactly when its expression was among the selected expressions before the refresh. */
  function Rebuilt(selected: seq<string>, entries: seq<(string, string)>): (r: seq<ValueListItem>)
    ensures |r| == |entries|
    ensures forall i :: 0 <= i < |r| ==> r[i].name == entries[i].0 && r[i].expression == entries[i].1
    ensures forall i :: 0 <= i < |r| ==> (r[i].selected <==> entries[i].1 in selected)
  {
    seq(|entries|, i requires 0 <= i < |entries| => ValueListItem(entries[i].0, entries[i].1, entries[i].1 in selected))
  }

  /** Rebuilding from one more entry appends one item. */
  lemma RebuiltAppend(selected: seq<string>, entries: seq<(string, string)>, e: (string, string))
    ensures Rebuilt(selected, entries + [e]) == Rebuilt(selected, entries) + [ValueListItem(e.0, e.1, e.1 in selected)]
  {
  }

  /** A second refresh from the same entries keeps every item as the first one left it: the
      selection survives a refresh. */
  lemma RebuiltKeepsSelection(selected: seq<string>, entries: seq<(string, string)>)
    ensures Rebuilt(SelectedExpressions(Rebuilt(selected, entries)), entries) == Rebuilt(selected, entries)
  {
    var r := Rebuilt(selected, entries);
    var sel := SelectedExpressions(r);
    forall i | 0 <= i < |entries|
      ensures entries[i].1 in sel <==> entries[i].1 in selected
    {
      if entries[i].1 in sel {
        var j :| 0 <= j < |r| && r[j].selected && r[j].expression == entries[i].1;
      } else {
        assert !r[i].selected;
      }
    }
  }

  /** A string in double quotes. */
  function Quoted(s: string): (r: string)
    ensures |r| == |s| + 2 && r[0] == '"' && r[|r| - 1] == '"' && r[1..|r| - 1] == s
  {
    "\"" + s + "\""
  }

  /** Quoting is injective. */
  lemma QuotedInjective(a: string, b: string)
    requires Quoted(a) == Quoted(b)
    ensures a == b
  {
    assert a == Quoted(a)[1..|Quoted(a)| - 1];
  }
}
