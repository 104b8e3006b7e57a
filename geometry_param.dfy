/** The persistent geometry parameters of the plug-in (Grasshopper-BricsCAD/GH/GeometryParam.cs):
    Vertex, Edge, Face, BcCurve and BcEntity share `GH_PersistentGeometryParam`, whose items are
    geometry references; BcPlane and BcPoint are Grasshopper parameters with their own prompts. */
module GeometryParams {
  import opened Wrappers
  import opened HostTypes
  import opened DatabaseUtils
  import opened ParameterTypes
  import opened GhKernel
  import Paths
  import Text

  /** The references held by a tree (`AllData(true).OfType<IGH_BcGeometricGoo>()`). */
  function TreeRefs(t: Tree): (r: seq<GeoRef>)
    ensures forall x :: x in r <==> BcGoo(x) in AllData(t)
  {
    GeoRefs(AllData(t))
  }

  /** Some reference of `rs` has its persistent handle in `hs`. */
  predicate AnyHandleIn(rs: seq<GeoRef>, hs: seq<Handle>) {
    exists x :: x in rs && x.persistentRef in hs
  }

  /** Whether a geometry parameter is stale after a change: a volatile item whose handle was
      modified or erased, or, when something was added, a persistent item whose handle was added.
      The command list plays no part. */
  predicate Stale(p: Param, modified: seq<Handle>, erased: seq<Handle>, added: seq<Handle>) {
    || AnyHandleIn(TreeRefs(p.volatileData), modified)
    || AnyHandleIn(TreeRefs(p.volatileData), erased)
    || (|added| != 0 && AnyHandleIn(TreeRefs(p.persistentData), added))
  }

  /** `NeedsToBeExpired`: the scan of the volatile items, then the test of the persistent ones. */
  method NeedsToBeExpired(p: Param, modified: seq<Handle>, erased: seq<Handle>, added: seq<Handle>,
                          finishedCmds: seq<string>) returns (r: bool)
    ensures r <==> Stale(p, modified, erased, added)
  {
    var refs := TreeRefs(p.volatileData);
    var i := 0;
    while i < |refs|
      invariant 0 <= i <= |refs|
      invariant forall j :: 0 <= j < i ==> refs[j].persistentRef !in modified && refs[j].persistentRef !in erased
    {
      if refs[i].persistentRef in modified || refs[i].persistentRef in erased {
        return true;
      }
      i := i + 1;
    }
    if |added| != 0 {
      return AnyHandleIn(TreeRefs(p.persistentData), added);
    }
    return false;
  }

  /** A parameter holding no references is never stale, whatever changed. */
  lemma StaleNeedsReferences(p: Param, modified: seq<Handle>, erased: seq<Handle>, added: seq<Handle>)
    requires DataCount(p.volatileData) == 0 && DataCount(p.persistentData) == 0
    ensures !Stale(p, modified, erased, added)
  {
    AllDataEmpty(p.volatileData);
    AllDataEmpty(p.persistentData);
  }

  /** The tree after `AddVolatileData({0}, i, xs[i])` for each i in order. */
  function AddAll(t: Tree, xs: seq<Goo>): (r: Tree)
    decreases |xs|
  {
    if |xs| == 0 then t else AddData(AddAll(t, xs[..|xs| - 1]), [0], |xs| - 1, xs[|xs| - 1])
  }

  /** The first branch with a path is the one `FindBranch` finds. */
  lemma {:induction false} FindUnique(t: Tree, path: seq<int>, k: nat)
    requires k < |t| && t[k].path == path && forall j :: 0 <= j < k ==> t[j].path != path
    ensures FindBranch(t, path) == k
  {
    if k > 0 {
      FindUnique(t[1..], path, k - 1);
    }
  }

  /** Adding to a path keeps the position of its branch, or puts the new branch last. */
  lemma FindAfterAdd(t: Tree, path: seq<int>, index: nat, x: Goo)
    ensures var k := FindBranch(t, path);
            FindBranch(AddData(t, path, index, x), path) == if k >= 0 then k else |t|
  {
    var k := FindBranch(t, path);
    var r := AddData(t, path, index, x);
    if k >= 0 {
      FindUnique(r, path, k);
    } else {
      FindUnique(r, path, |t|);
    }
  }

  /** `AddAll` puts `xs[i]` at index i of the branch {0}, keeps the items of that branch beyond
      |xs|, leaves every other branch where and as it was, and adds at most that one branch. */
  lemma {:induction false} AddAllPlaces(t: Tree, xs: seq<Goo>)
    requires |xs| > 0
    ensures var r := AddAll(t, xs);
            var k := FindBranch(r, [0]);
            && k >= 0 && |r[k].items| >= |xs|
            && (forall i :: 0 <= i < |xs| ==> r[k].items[i] == Some(xs[i]))
            && (FindBranch(t, [0]) >= 0 ==>
                  && k == FindBranch(t, [0]) && |r| == |t| && |r[k].items| >= |t[k].items|
                  && forall i :: |xs| <= i < |t[k].items| ==> r[k].items[i] == t[k].items[i])
            && (FindBranch(t, [0]) < 0 ==> k == |t| && |r| == |t| + 1)
            && forall j :: 0 <= j < |t| && t[j].path != [0] ==> r[j] == t[j]
    decreases |xs|
  {
    var n := |xs|;
    var prev := AddAll(t, xs[..n - 1]);
    var r := AddAll(t, xs);
    assert r == AddData(prev, [0], n - 1, xs[n - 1]);
    FindAfterAdd(prev, [0], n - 1, xs[n - 1]);
    if n == 1 {
      assert prev == t;
    } else {
      AddAllPlaces(t, xs[..n - 1]);
      var k := FindBranch(prev, [0]);
      assert FindBranch(r, [0]) == k;
      assert r[k].items == PutItem(prev[k].items, n - 1, xs[n - 1]);
      assert forall i :: 0 <= i < n - 1 ==> prev[k].items[i] == Some(xs[i]) by {
        assert forall i :: 0 <= i < n - 1 ==> xs[..n - 1][i] == xs[i];
      }
      assert forall j :: 0 <= j < |prev| && j != k ==> r[j] == prev[j];
    }
  }

  /** The goo `CreateParameter(fsp, docName)` makes. */
  function Created(fsp: Fsp, docName: string): Goo {
    BcGoo(ReferenceOf(fsp, docName))
  }

  /** The goos of a selection, in selection order. */
  function CreatedAll(subents: seq<Fsp>, docName: string): (r: seq<Goo>)
    ensures |r| == |subents| && forall i :: 0 <= i < |r| ==> r[i] == Created(subents[i], docName)
  {
    seq(|subents|, i requires 0 <= i < |subents| => Created(subents[i], docName))
  }

  /** `InitBy(subents, docName)`: the reference made from the i-th subentity goes to index i of the
      branch {0} of the volatile data. Nothing else of the parameter changes. */
  method InitBy(p: Param, subents: seq<Fsp>, docName: string) returns (q: Param)
    ensures q == p.(volatileData := AddAll(p.volatileData, CreatedAll(subents, docName)))
  {
    var xs := CreatedAll(subents, docName);
    var data := p.volatileData;
    var i := 0;
    while i < |subents|
      invariant 0 <= i <= |subents|
      invariant data == AddAll(p.volatileData, xs[..i])
    {
      assert xs[..i + 1][..i] == xs[..i];
      assert AddAll(p.volatileData, xs[..i + 1]) == AddData(AddAll(p.volatileData, xs[..i]), [0], i, xs[i]);
      data := AddData(data, [0], i, Created(subents[i], docName));
      i := i + 1;
    }
    assert xs[..|subents|] == xs;
    q := p.(volatileData := data);
  }

  /** `TypeName` of the goo of each geometry parameter. */
  function TypeName(k: GeometryParamKind): string {
    match k
    case VertexParam => "BricsCAD Vertex"
    case EdgeParam => "BricsCAD Edge"
    case FaceParam => "BricsCAD Face"
    case CurveParam => "BricsCAD Curve"
    case EntityParam => "BricsCAD Entity"
  }

  /** The warning for an item that could not be found. */
  function MissingWarning(element: string): string {
    "A referenced " + element + " could not be found in the BricsCAD document."
  }

  /** One item after collection: a null item, or one that does not load from the linked document,
      becomes null; one that loads stays, now loaded. (A geometry parameter holds only
      references; any other goo is kept as it is.) */
  function CollectedItem(item: Option<Goo>, linked: Option<HostDocument>): (r: Option<Goo>)
    ensures r.Some? && r.value.BcGoo? ==> r.value.geo.IsValid()
  {
    if item.None? then None
    else if !item.value.BcGoo? then item
    else if Loaded(item.value.geo, linked).0 then Some(BcGoo(Loaded(item.value.geo, linked).1))
    else None
  }

  /** Whether collecting the item adds a warning, and which. */
  function ItemWarning(item: Option<Goo>, linked: Option<HostDocument>, k: GeometryParamKind): seq<string> {
    if item.None? then [MissingWarning("Element")]
    else if item.value.BcGoo? && !Loaded(item.value.geo, linked).0 then [MissingWarning(TypeName(k))]
    else []
  }

  /** The items of one branch after collection. */
  function CollectedItems(items: seq<Option<Goo>>, linked: Option<HostDocument>): (r: seq<Option<Goo>>)
    ensures |r| == |items| && forall i :: 0 <= i < |r| ==> r[i] == CollectedItem(items[i], linked)
  {
    seq(|items|, i requires 0 <= i < |items| => CollectedItem(items[i], linked))
  }

  /** The warnings of one branch, in item order. */
  function ItemsWarnings(items: seq<Option<Goo>>, linked: Option<HostDocument>, k: GeometryParamKind): seq<string>
    decreases |items|
  {
    if |items| == 0 then []
    else ItemsWarnings(items[..|items| - 1], linked, k) + ItemWarning(items[|items| - 1], linked, k)
  }

  /** The tree after collection: every branch keeps its path. */
  function CollectedTree(t: Tree, linked: Option<HostDocument>): (r: Tree)
    ensures |r| == |t| && forall b :: 0 <= b < |r| ==> r[b] == Branch(t[b].path, CollectedItems(t[b].items, linked))
  {
    seq(|t|, b requires 0 <= b < |t| => Branch(t[b].path, CollectedItems(t[b].items, linked)))
  }

  /** The warnings of a tree, branch after branch. */
  function TreeWarnings(t: Tree, linked: Option<HostDocument>, k: GeometryParamKind): seq<string>
    decreases |t|
  {
    if |t| == 0 then []
    else TreeWarnings(t[..|t| - 1], linked, k) + ItemsWarnings(t[|t| - 1].items, linked, k)
  }

  /** `OnVolatileDataCollected`: with no sources, every item is replaced by its collected form and
      one warning is added per item that became null; with sources nothing changes. */
  method OnVolatileDataCollected(p: Param, linked: Option<HostDocument>) returns (q: Param)
    requires p.kind.GeometryParam?
    ensures p.sourceCount != 0 ==> q == p
    ensures p.sourceCount == 0 ==>
              q == p.(volatileData := CollectedTree(p.volatileData, linked),
                      warnings := p.warnings + TreeWarnings(p.volatileData, linked, p.kind.geometry))
  {
    if p.sourceCount != 0 {
      return p;
    }
    var data, warnings := CollectTree(p.volatileData, linked, p.kind.geometry);
    return p.(volatileData := data, warnings := p.warnings + warnings);
  }

  /** The outer loop of `OnVolatileDataCollected`, over the branches. */
  method CollectTree(t: Tree, linked: Option<HostDocument>, k: GeometryParamKind)
    returns (data: Tree, warnings: seq<string>)
    ensures data == CollectedTree(t, linked) && warnings == TreeWarnings(t, linked, k)
  {
    data := t;
    warnings := [];
    var b := 0;
    while b < |t|
      invariant 0 <= b <= |t| && |data| == |t|
      invariant forall c :: 0 <= c < b ==> data[c] == Branch(t[c].path, CollectedItems(t[c].items, linked))
      invariant forall c :: b <= c < |t| ==> data[c] == t[c]
      invariant warnings == TreeWarnings(t[..b], linked, k)
    {
      var items, w := CollectBranch(t[b].items, linked, k);
      data := data[b := Branch(t[b].path, items)];
      assert t[..b + 1][..b] == t[..b];
      warnings := warnings + w;
      b := b + 1;
    }
    assert t[..b] == t;
  }

  /** The inner loop of `OnVolatileDataCollected`, over the items of one branch. */
  method CollectBranch(items: seq<Option<Goo>>, linked: Option<HostDocument>, k: GeometryParamKind)
    returns (r: seq<Option<Goo>>, warnings: seq<string>)
    ensures r == CollectedItems(items, linked) && warnings == ItemsWarnings(items, linked, k)
  {
    r := items;
    warnings := [];
    var i := 0;
    while i < |items|
      invariant 0 <= i <= |items| && |r| == |items|
      invariant forall j :: 0 <= j < i ==> r[j] == CollectedItem(items[j], linked)
      invariant forall j :: i <= j < |items| ==> r[j] == items[j]
      invariant warnings == ItemsWarnings(items[..i], linked, k)
    {
      assert items[..i + 1][..i] == items[..i];
      var x, w := CollectOne(items[i], linked, k);
      warnings := warnings + w;
      r := r[i := x];
      i := i + 1;
    }
    assert items[..i] == items;
  }

  /** The body of the inner loop: load the item, or replace it with null and warn. */
  method CollectOne(item: Option<Goo>, linked: Option<HostDocument>, k: GeometryParamKind)
    returns (r: Option<Goo>, warning: seq<string>)
    ensures r == CollectedItem(item, linked) && warning == ItemWarning(item, linked, k)
  {
    if item.None? {
      return None, [MissingWarning("Element")];
    }
    r := item;
    warning := [];
    if item.value.BcGoo? {
      var loaded := Loaded(item.value.geo, linked);   // `item.LoadGeometry(linked)`
      if !loaded.0 {
        return None, [MissingWarning(TypeName(k))];
      }
      r := Some(BcGoo(loaded.1));
    }
  }

  /** The number of null items of a list. */
  function NullCount(items: seq<Option<Goo>>): nat
    decreases |items|
  {
    if |items| == 0 then 0 else NullCount(items[..|items| - 1]) + (if items[|items| - 1].None? then 1 else 0)
  }

  /** One warning per null item of the collected list: every item that became null warns, every
      kept item does not. */
  lemma {:induction false} WarningPerNull(items: seq<Option<Goo>>, linked: Option<HostDocument>, k: GeometryParamKind)
    ensures |ItemsWarnings(items, linked, k)| == NullCount(CollectedItems(items, linked))
    decreases |items|
  {
    if |items| > 0 {
      var n := |items|;
      WarningPerNull(items[..n - 1], linked, k);
      assert CollectedItems(items, linked)[..n - 1] == CollectedItems(items[..n - 1], linked);
    }
  }

  /** Collecting a collected tree changes nothing: every kept reference is loaded already. */
  lemma CollectIdempotent(t: Tree, linked: Option<HostDocument>, other: Option<HostDocument>)
    ensures CollectedTree(CollectedTree(t, linked), other) == CollectedTree(t, linked)
  {
    var r := CollectedTree(t, linked);
    forall b | 0 <= b < |t|
      ensures CollectedItems(r[b].items, other) == r[b].items
    {
      forall i | 0 <= i < |r[b].items|
        ensures CollectedItem(r[b].items[i], other) == r[b].items[i]
      {
        var it := r[b].items[i];
        if it.Some? && it.value.BcGoo? {
          LoadedIdempotent(t[b].items[i].value.geo, linked, other);
        }
      }
    }
  }

  /** One `"H" "<handle>"` group of the ZoomTo command. */
  function ZoomGroup(g: GeoRef): string {
    " \"H\" \"" + HandleText(g.persistentRef) + "\" "
  }

  /** The ZoomTo arguments: the groups of the references of that document, in order. */
  function ZoomArgs(rs: seq<GeoRef>, docName: string): string
    decreases |rs|
  {
    if |rs| == 0 then ""
    else
      var prev := ZoomArgs(rs[..|rs| - 1], docName);
      if rs[|rs| - 1].bcDocName == Some(docName) then prev + ZoomGroup(rs[|rs| - 1]) else prev
  }

  /** The arguments are empty exactly when no reference is of the document. */
  lemma {:induction false} ZoomArgsEmpty(rs: seq<GeoRef>, docName: string)
    ensures ZoomArgs(rs, docName) == "" <==> forall i :: 0 <= i < |rs| ==> rs[i].bcDocName != Some(docName)
    decreases |rs|
  {
    if |rs| > 0 {
      ZoomArgsEmpty(rs[..|rs| - 1], docName);
      assert forall i :: 0 <= i < |rs| - 1 ==> rs[..|rs| - 1][i] == rs[i];
      assert |ZoomGroup(rs[|rs| - 1])| > 0;
    }
  }

  /** The arguments of a concatenation are the concatenation of the arguments. */
  lemma {:induction false} ZoomArgsAppend(xs: seq<GeoRef>, ys: seq<GeoRef>, docName: string)
    ensures ZoomArgs(xs + ys, docName) == ZoomArgs(xs, docName) + ZoomArgs(ys, docName)
    decreases |ys|
  {
    if |ys| > 0 {
      var n := |ys|;
      var zs := xs + ys;
      assert zs[..|zs| - 1] == xs + ys[..n - 1];
      assert zs[|zs| - 1] == ys[n - 1];
      ZoomArgsAppend(xs, ys[..n - 1], docName);
    } else {
      assert xs + ys == xs;
    }
  }

  /** A reference of the document contributes its group, one of another document nothing. */
  lemma ZoomArgsOne(g: GeoRef, docName: string)
    ensures ZoomArgs([g], docName) == if g.bcDocName == Some(docName) then ZoomGroup(g) else ""
  {
    assert [g][..0] == [];
  }

  /** The linked document as ZoomTo uses it. */
  datatype LinkedDoc = LinkedDoc(name: string, isActive: bool)

  /** `ZoomTo`: the command string sent to the linked document, if any. The saved `CMDECHO` value
      is put back by the command itself. */
  function ZoomCommand(p: Param, linked: LinkedDoc, oldCmdEcho: int): (r: Option<string>)
    ensures var args := ZoomArgs(TreeRefs(p.persistentData), Paths.FileNameWithoutExtension(linked.name));
            r.Some? <==> linked.isActive && args != ""
  {
    var args := ZoomArgs(TreeRefs(p.persistentData), Paths.FileNameWithoutExtension(linked.name));
    ZoomArgsEmpty(TreeRefs(p.persistentData), Paths.FileNameWithoutExtension(linked.name));
    if linked.isActive && |args| > 0 then
      Some("(command \"ZOOM\" \"OB\" \"PRO\"" + args + " \"\" \"\")(setvar \"CMDECHO\" " +
           Text.IntToString(oldCmdEcho) + ")(princ)\n")
    else None
  }

  /** `GH_GetterResult`. */
  datatype GetterResult = GetterSuccess | GetterCancel | GetterAccept

  /** `Prompt_Plural` of the geometry parameters: a cancelled selection cancels and leaves the
      values alone; otherwise the values become one reference per selected subentity. */
  function SelectionPlural(values: Option<seq<Goo>>, selection: Option<seq<Fsp>>, docName: string)
    : (r: (GetterResult, Option<seq<Goo>>))
    ensures selection.None? ==> r == (GetterCancel, values)
    ensures selection.Some? ==> r.0 == GetterSuccess && r.1 == Some(CreatedAll(selection.value, docName))
  {
    if selection.None? then (GetterCancel, values) else (GetterSuccess, Some(CreatedAll(selection.value, docName)))
  }

  /** `Prompt_Singular` of the geometry parameters, for a single pick. */
  function SelectionSingular(value: Option<Goo>, pick: Option<Fsp>, docName: string): (r: (GetterResult, Option<Goo>))
    ensures pick.None? ==> r == (GetterCancel, value)
    ensures pick.Some? ==> r == (GetterSuccess, Some(Created(pick.value, docName)))
  {
    if pick.None? then (GetterCancel, value) else (GetterSuccess, Some(Created(pick.value, docName)))
  }

  /** `Prompt_Singular` of BcPlane and BcPoint: the user either picks a value (success, the value
      is replaced) or not (cancel, the value is kept). It never answers accept. */
  function PromptSingular<T>(answer: Option<T>, prev: Option<T>): (r: (GetterResult, Option<T>))
    ensures r.0 != GetterAccept
    ensures r.0 == GetterSuccess <==> answer.Some?
    ensures r.1 == if answer.Some? then answer else prev
  {
    if answer.None? then (GetterCancel, prev) else (GetterSuccess, answer)
  }

  /** The outcomes of successive `Prompt_Singular` calls on the same variable, from the user's
      successive answers. */
  function SingularOutcomes<T>(answers: seq<Option<T>>, prev: Option<T>): (r: seq<(GetterResult, Option<T>)>)
    ensures |r| == |answers|
    ensures forall i :: 0 <= i < |r| ==> r[i].0 != GetterAccept
    ensures forall i :: 0 <= i < |r| ==> (r[i].0 == GetterSuccess <==> answers[i].Some?)
    ensures forall i :: 0 <= i < |r| && answers[i].Some? ==> r[i].1 == answers[i]
    decreases |answers|
  {
    if |answers| == 0 then []
    else
      var first := PromptSingular(answers[0], prev);
      var rest := SingularOutcomes(answers[1..], first.1);
      assert forall i :: 1 <= i < |answers| ==> answers[i] == answers[1..][i - 1];
      [first] + rest
  }

  /** The outcome of the n-th call; an answer that is never given is a cancel. */
  function NthOutcome<T>(outcomes: seq<(GetterResult, Option<T>)>, n: nat): (GetterResult, Option<T>) {
    if n < |outcomes| then outcomes[n] else (GetterCancel, None)
  }

  /** The values the loop adds: one per leading outcome whose result continues the loop. */
  function Accepted<T>(outcomes: seq<(GetterResult, Option<T>)>, continueOn: GetterResult): seq<Option<T>>
    decreases |outcomes|
  {
    if |outcomes| == 0 || outcomes[0].0 != continueOn then []
    else [outcomes[0].1] + Accepted(outcomes[1..], continueOn)
  }

  function OutcomeValues<T>(outcomes: seq<(GetterResult, Option<T>)>): (r: seq<Option<T>>)
    ensures |r| == |outcomes| && forall i :: 0 <= i < |r| ==> r[i] == outcomes[i].1
  {
    seq(|outcomes|, i requires 0 <= i < |outcomes| => outcomes[i].1)
  }

  /** The loop stops at the first outcome that does not continue it. */
  lemma {:induction false} AcceptedPrefix<T>(outcomes: seq<(GetterResult, Option<T>)>, c: GetterResult, k: nat)
    requires k <= |outcomes|
    requires forall i :: 0 <= i < k ==> outcomes[i].0 == c
    requires k == |outcomes| || outcomes[k].0 != c
    ensures Accepted(outcomes, c) == OutcomeValues(outcomes[..k])
    decreases k
  {
    if k > 0 {
      AcceptedPrefix(outcomes[1..], c, k - 1);
      assert outcomes[1..][..k - 1] == outcomes[..k][1..];
    }
  }

  /** The loop of BcPlane and BcPoint `Prompt_Plural`: prompt once, and while the result is
      `continueOn`, add the prompted value (creating the list when it is null) and prompt again;
      cancel exactly when the list is still null. The source loops while the result is accept. */
  method PromptPlural<T>(values: Option<seq<Option<T>>>, outcomes: seq<(GetterResult, Option<T>)>,
                         continueOn: GetterResult) returns (res: GetterResult, out: Option<seq<Option<T>>>)
    requires continueOn != GetterCancel
    ensures out == if |Accepted(outcomes, continueOn)| == 0 then values
                   else Some(values.GetOr([]) + Accepted(outcomes, continueOn))
    ensures res == GetterCancel <==> out.None?
    ensures res != GetterAccept
  {
    out := values;
    var k := 0;
    var r := NthOutcome(outcomes, 0);
    while r.0 == continueOn
      invariant 0 <= k <= |outcomes| && r == NthOutcome(outcomes, k)
      invariant forall i :: 0 <= i < k ==> outcomes[i].0 == continueOn
      invariant out == if k == 0 then values else Some(values.GetOr([]) + OutcomeValues(outcomes[..k]))
      decreases |outcomes| - k
    {
      var current := r.1;
      if out.None? {
        out := Some([]);
      }
      ghost var base := values.GetOr([]);
      assert out.value == base + OutcomeValues(outcomes[..k]);
      assert OutcomeValues(outcomes[..k + 1]) == OutcomeValues(outcomes[..k]) + [current];
      out := Some(out.value + [current]);
      assert out.value == base + OutcomeValues(outcomes[..k]) + [current];
      assert out.value == base + OutcomeValues(outcomes[..k + 1]);
      k := k + 1;
      r := NthOutcome(outcomes, k);
    }
    AcceptedPrefix(outcomes, continueOn, k);
    res := if out.None? then GetterCancel else GetterSuccess;
  }

  /** As written, the loop waits for an accept that `Prompt_Singular` never returns: whatever the
      user picks, the values stay as they were, and a plural prompt on a null list cancels even
      after a successful pick. */
  lemma PromptPluralAsWritten<T>(answers: seq<Option<T>>, values: Option<seq<Option<T>>>, p: T)
    ensures Accepted(SingularOutcomes(answers, None), GetterAccept) == []
    ensures SingularOutcomes([Some(p), None], None)[0].0 == GetterSuccess &&
            Accepted(SingularOutcomes([Some(p), None], None), GetterAccept) == []
  {
  }

  /** The values the user picked before the first cancel. */
  function Picks<T>(answers: seq<Option<T>>): (r: seq<Option<T>>)
    ensures forall i :: 0 <= i < |r| ==> r[i].Some?
    decreases |answers|
  {
    if |answers| == 0 || answers[0].None? then [] else [answers[0]] + Picks(answers[1..])
  }

  /** Looping while the result is success, as evidently intended, collects every pick made
      before the first cancel. */
  lemma {:induction false} PromptPluralCorrected<T>(answers: seq<Option<T>>, prev: Option<T>)
    ensures Accepted(SingularOutcomes(answers, prev), GetterSuccess) == Picks(answers)
    decreases |answers|
  {
    if |answers| > 0 && answers[0].Some? {
      var o := SingularOutcomes(answers, prev);
      assert o[1..] == SingularOutcomes(answers[1..], answers[0]);
      PromptPluralCorrected(answers[1..], answers[0]);
    }
  }
}
