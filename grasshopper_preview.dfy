/** The preview of the active definition in the linked drawing
    (Grasshopper-BricsCAD/Visualization/GrasshopperPreview.cs): selection-change detection, the
    set of BricsCAD parameters whose entities are highlighted in the drawing, and the scene
    rebuild. Highlighting an entity is recorded as a call (`DatabaseUtils.Highlight`); the
    definition on the active canvas and the editor's visibility are read from `Instances`. */
module GrasshopperPreviews {
  import opened Wrappers
  import opened HostTypes
  import opened DatabaseUtils
  import opened ParameterTypes
  import opened GhKernel
  import opened CompoundDrawables
  import opened BlockPreviews
  import opened PreviewScans

  /** `DatabaseUtils.Highlight(reference, on)`. */
  datatype HighlightCall = HighlightCall(reference: Fsp, on: bool)

  /** The selection has changed: the counts differ or some object of the last selection is not
      selected any more. */
  predicate SelectionChanged(last: seq<int>, now: seq<int>) {
    |last| != |now| || exists k :: 0 <= k < |last| && last[k] !in now
  }

  /** The same objects selected in another order are no change. */
  lemma ReorderedSelectionUnchanged(last: seq<int>, now: seq<int>)
    requires multiset(last) == multiset(now)
    ensures !SelectionChanged(last, now)
  {
    assert |last| == |multiset(last)| == |multiset(now)| == |now|;
    forall k | 0 <= k < |last|
      ensures last[k] in now
    {
      assert last[k] in multiset(last);
    }
  }

  /** A selection compared with itself is no change. */
  lemma SameSelectionUnchanged(s: seq<int>)
    ensures !SelectionChanged(s, s)
  {
    ReorderedSelectionUnchanged(s, s);
  }

  /** No id is held twice. The highlight set holds instance ids (`_bcSelection.Contains`, where
      parameters are the same object exactly when they have the same id); the parameters
      themselves are read where they live, in the active definition, when their references are
      switched off. */
  predicate DistinctIds(sel: seq<int>) {
    forall i, j :: 0 <= i < j < |sel| ==> sel[i] != sel[j]
  }

  /** `_bcSelection.Remove(param)`: the first occurrence of the id is removed. */
  function Without(sel: seq<int>, guid: int): (r: seq<int>)
    ensures forall g :: g in r ==> g in sel
    ensures forall g :: g != guid ==> (g in r <==> g in sel)
    ensures |r| <= |sel|
    decreases |sel|
  {
    if |sel| == 0 then []
    else
      assert sel == [sel[0]] + sel[1..];
      if sel[0] == guid then sel[1..] else [sel[0]] + Without(sel[1..], guid)
  }

  /** With distinct ids, removing an id leaves none with that id, and the rest distinct. */
  lemma {:induction false} WithoutRemoves(sel: seq<int>, guid: int)
    requires DistinctIds(sel)
    ensures guid !in Without(sel, guid) && DistinctIds(Without(sel, guid))
    decreases |sel|
  {
    if |sel| > 0 {
      var tail := sel[1..];
      assert DistinctIds(tail) by {
        forall i, j | 0 <= i < j < |tail| ensures tail[i] != tail[j] {
          assert tail[i] == sel[i + 1] && tail[j] == sel[j + 1];
        }
      }
      assert sel[0] !in tail by {
        forall k | 0 <= k < |tail| ensures tail[k] != sel[0] {
          assert tail[k] == sel[k + 1];
        }
      }
      if sel[0] != guid {
        WithoutRemoves(tail, guid);
        var r := [sel[0]] + Without(tail, guid);
        forall i, j | 0 <= i < j < |r| ensures r[i] != r[j] {
          assert r[j] == Without(tail, guid)[j - 1];
          if i > 0 {
            assert r[i] == Without(tail, guid)[i - 1];
          }
        }
      }
    }
  }

  /** The parameter of the definition's objects with instance id `guid`, as it is now. */
  function CurrentParam(os: seq<DocObject>, guid: int): (r: Option<Param>)
    ensures r.Some? ==> ParamObject(r.value) in os && r.value.guid == guid
    ensures r.None? ==> forall k :: 0 <= k < |os| && os[k].ParamObject? ==> os[k].param.guid != guid
    decreases |os|
  {
    if |os| == 0 then None
    else if os[0].ParamObject? && os[0].param.guid == guid then Some(os[0].param)
    else
      var rest := CurrentParam(os[1..], guid);
      assert forall k :: 0 < k < |os| ==> os[k] == os[1..][k - 1];
      rest
  }

  /** The BricsCAD references among a parameter's volatile data. */
  function References(p: Param): seq<GeoRef> {
    GeoRefs(AllData(p.volatileData))
  }

  /** The references of the parameter with id `guid` as it is now; none when the definition no
      longer holds it. */
  function CurrentReferences(os: seq<DocObject>, guid: int): seq<GeoRef> {
    var p := CurrentParam(os, guid);
    if p.Some? then References(p.value) else []
  }

  /** One highlight call per reference. */
  function Calls(refs: seq<GeoRef>, on: bool): (r: seq<HighlightCall>)
    ensures |r| == |refs| && forall k :: 0 <= k < |refs| ==> r[k] == HighlightCall(refs[k].value, on)
  {
    seq(|refs|, k requires 0 <= k < |refs| => HighlightCall(refs[k].value, on))
  }

  /** The parameter is to be highlighted: selected and not yet in the highlight set. */
  predicate ToHighlight(sel: seq<int>, p: Param) { p.selected && p.guid !in sel }

  /** The parameter is to be unhighlighted: unselected and in the highlight set. */
  predicate ToDehighlight(sel: seq<int>, p: Param) { !p.selected && p.guid in sel }

  /** The highlight set after `HighlightBcData(p)`. */
  function Highlighted(sel: seq<int>, p: Param): seq<int> {
    if ToHighlight(sel, p) then sel + [p.guid]
    else if ToDehighlight(sel, p) then Without(sel, p.guid)
    else sel
  }

  /** The highlight calls of `HighlightBcData(p)`: always the references `p` has now. */
  function HighlightLog(sel: seq<int>, p: Param): seq<HighlightCall> {
    if ToHighlight(sel, p) then Calls(References(p), true)
    else if ToDehighlight(sel, p) then Calls(References(p), false)
    else []
  }

  /** The highlight calls of `UnhighlightBcData`: every reference that each parameter of the set
      has now switched off, set after set. */
  function UnhighlightLog(sel: seq<int>, os: seq<DocObject>): seq<HighlightCall>
    decreases |sel|
  {
    if |sel| == 0 then [] else UnhighlightLog(sel[..|sel| - 1], os) + Calls(CurrentReferences(os, sel[|sel| - 1]), false)
  }

  /** After `HighlightBcData(p)` the set holds `p` exactly when `p` is selected, holds every other
      id it held before and no new one, and keeps ids distinct. */
  lemma HighlightTracksSelection(sel: seq<int>, p: Param)
    requires DistinctIds(sel)
    ensures var r := Highlighted(sel, p);
            && (p.guid in r <==> p.selected)
            && (forall g :: g != p.guid ==> (g in r <==> g in sel))
            && DistinctIds(r)
  {
    var r := Highlighted(sel, p);
    if ToHighlight(sel, p) {
      forall i, j | 0 <= i < j < |r| ensures r[i] != r[j] {
        if j == |sel| {
          assert r[i] == sel[i];
        }
      }
    } else if ToDehighlight(sel, p) {
      WithoutRemoves(sel, p.guid);
    }
  }

  /** A second `HighlightBcData` of the same parameter changes nothing and highlights nothing. */
  lemma HighlightIdempotent(sel: seq<int>, p: Param)
    requires DistinctIds(sel)
    ensures Highlighted(Highlighted(sel, p), p) == Highlighted(sel, p)
    ensures HighlightLog(Highlighted(sel, p), p) == []
  {
    HighlightTracksSelection(sel, p);
  }

  /** Every reference highlighted by `HighlightBcData(p)` is switched off again by the next
      `UnhighlightBcData`, as long as `p` still has the data it was highlighted with. */
  lemma {:induction false} UnhighlightUndoes(sel: seq<int>, p: Param, os: seq<DocObject>)
    requires ToHighlight(sel, p) && CurrentParam(os, p.guid) == Some(p)
    ensures forall c :: c in HighlightLog(sel, p) ==> c.(on := false) in UnhighlightLog(Highlighted(sel, p), os)
  {
    var r := sel + [p.guid];
    assert r[..|r| - 1] == sel;
    assert UnhighlightLog(r, os) == UnhighlightLog(sel, os) + Calls(References(p), false);
    forall c | c in HighlightLog(sel, p)
      ensures c.(on := false) in UnhighlightLog(r, os)
    {
      var refs := References(p);
      var k :| 0 <= k < |refs| && Calls(refs, true)[k] == c;
      assert Calls(refs, false)[k] == c.(on := false);
    }
  }

  /** `UnhighlightBcData` only switches highlights off, and switches off every reference that
      every parameter of the set has now. */
  lemma {:induction false} UnhighlightLogCalls(sel: seq<int>, os: seq<DocObject>)
    ensures forall c :: c in UnhighlightLog(sel, os) ==> !c.on
    ensures forall i, k :: 0 <= i < |sel| && 0 <= k < |CurrentReferences(os, sel[i])| ==>
              HighlightCall(CurrentReferences(os, sel[i])[k].value, false) in UnhighlightLog(sel, os)
    decreases |sel|
  {
    if |sel| > 0 {
      var n := |sel|;
      UnhighlightLogCalls(sel[..n - 1], os);
      var last := Calls(CurrentReferences(os, sel[n - 1]), false);
      assert UnhighlightLog(sel, os) == UnhighlightLog(sel[..n - 1], os) + last;
      forall i, k | 0 <= i < n && 0 <= k < |CurrentReferences(os, sel[i])|
        ensures HighlightCall(CurrentReferences(os, sel[i])[k].value, false) in UnhighlightLog(sel, os)
      {
        if i < n - 1 {
          assert sel[..n - 1][i] == sel[i];
        } else {
          assert last[k] == HighlightCall(CurrentReferences(os, sel[i])[k].value, false);
        }
      }
    }
  }

  /** A BricsCAD parameter whose only datum is one reference. */
  function SampleParam(guid: int, selected: bool, reference: GeoRef): Param {
    Param(guid, OtherParam, "", "BricsCAD", 0, 0, false, selected, false,
          [Branch([0], [Some(BcGoo(reference))])], [], false, false, false, [])
  }

  /** The references of a sample parameter are its one datum. */
  lemma SampleReferences(guid: int, selected: bool, reference: GeoRef)
    ensures References(SampleParam(guid, selected, reference)) == [reference]
  {
    var items := [Some(BcGoo(reference))];
    assert items[1..] == [];
    assert NonNull(items) == [BcGoo(reference)];
    var t := SampleParam(guid, selected, reference).volatileData;
    assert t[1..] == [];
    assert AllData(t) == [BcGoo(reference)];
    assert [BcGoo(reference)][1..] == [];
    assert GeoRefs([BcGoo(reference)]) == [reference];
  }

  /** As written, a highlight outlives a new solution: a parameter highlighted with reference
      `e1` and solved again to `e2` while still selected is left alone by `HighlightBcData`, and
      the `UnhighlightBcData` of a definition switch then switches off `e2` and never `e1`. */
  lemma StaleHighlightAsWritten(e1: GeoRef, e2: GeoRef)
    requires e1.value != e2.value
    ensures var before := SampleParam(1, true, e1);
            var after := SampleParam(1, true, e2);
            var sel := Highlighted([], before);
            && HighlightLog([], before) == [HighlightCall(e1.value, true)]
            && Highlighted(sel, after) == sel && HighlightLog(sel, after) == []
            && UnhighlightLog(sel, [ParamObject(after)]) == [HighlightCall(e2.value, false)]
            && HighlightCall(e1.value, false) !in UnhighlightLog(sel, [ParamObject(after)])
  {
    SampleHighlighted(e1);
    SampleSolvedAgain(e2);
    SampleUnhighlighted(e2);
  }

  /** The sample parameter, selected, joins the empty set and its reference is switched on. */
  lemma SampleHighlighted(e: GeoRef)
    ensures Highlighted([], SampleParam(1, true, e)) == [1]
    ensures HighlightLog([], SampleParam(1, true, e)) == [HighlightCall(e.value, true)]
  {
    SampleReferences(1, true, e);
  }

  /** Solved again and still selected, the held sample parameter changes nothing. */
  lemma SampleSolvedAgain(e: GeoRef)
    ensures Highlighted([1], SampleParam(1, true, e)) == [1] && HighlightLog([1], SampleParam(1, true, e)) == []
  {
  }

  /** Un-highlighting the held sample reads the reference it has now. */
  lemma SampleUnhighlighted(e: GeoRef)
    ensures UnhighlightLog([1], [ParamObject(SampleParam(1, true, e))]) == [HighlightCall(e.value, false)]
  {
    var os := [ParamObject(SampleParam(1, true, e))];
    SampleReferences(1, true, e);
    assert CurrentReferences(os, 1) == [e];
    assert [1][..0] == [];
  }

  /** The references switched on for each held id, as the corrected bookkeeping keeps them:
      recorded when the id joins the set, dropped when it leaves. */
  function RememberedOn(sel: seq<int>, on: map<int, seq<GeoRef>>, p: Param): (r: map<int, seq<GeoRef>>)
    ensures ToHighlight(sel, p) ==> p.guid in r && r[p.guid] == References(p)
    ensures ToDehighlight(sel, p) ==> p.guid !in r
    ensures forall g :: g != p.guid ==> (g in r <==> g in on) && (g in r ==> r[g] == on[g])
  {
    if ToHighlight(sel, p) then on[p.guid := References(p)]
    else if ToDehighlight(sel, p) then on - {p.guid}
    else on
  }

  /** The remembered ids follow the highlight set: when they were the ids held, they are the
      ids held after `HighlightBcData(p)`. */
  lemma RememberedTracksHighlight(sel: seq<int>, on: map<int, seq<GeoRef>>, p: Param)
    requires DistinctIds(sel) && forall g :: g in on <==> g in sel
    ensures forall g :: g in RememberedOn(sel, on, p) <==> g in Highlighted(sel, p)
  {
    if ToDehighlight(sel, p) {
      WithoutRemoves(sel, p.guid);
    }
  }

  /** The corrected `UnhighlightBcData`: switches off the references remembered for each id. */
  function UnhighlightLogCorrected(sel: seq<int>, on: map<int, seq<GeoRef>>): (r: seq<HighlightCall>)
    ensures forall c :: c in r ==> !c.on
    ensures forall g, k :: g in sel && g in on && 0 <= k < |on[g]| ==> HighlightCall(on[g][k].value, false) in r
    decreases |sel|
  {
    if |sel| == 0 then []
    else
      var g := sel[|sel| - 1];
      var front := sel[..|sel| - 1];
      assert forall h :: h in sel ==> h in front || h == g;
      UnhighlightLogCorrected(front, on) + Calls(if g in on then on[g] else [], false)
  }

  /** With the corrected bookkeeping, every reference highlighted by `HighlightBcData(p)` is
      switched off by the next `UnhighlightBcData` even when `p` was solved again in between
      and is still selected (`q`, the same parameter with new data). */
  lemma {:induction false} CorrectedUnhighlightUndoes(sel: seq<int>, on: map<int, seq<GeoRef>>, p: Param, q: Param)
    requires ToHighlight(sel, p) && q.guid == p.guid && q.selected
    ensures var sel1 := Highlighted(sel, p);
            var on1 := RememberedOn(sel, on, p);
            forall c :: c in HighlightLog(sel, p) ==>
              c.(on := false) in UnhighlightLogCorrected(Highlighted(sel1, q), RememberedOn(sel1, on1, q))
  {
    var sel1 := sel + [p.guid];
    var on1 := on[p.guid := References(p)];
    assert Highlighted(sel1, q) == sel1 && RememberedOn(sel1, on1, q) == on1;
    assert sel1[..|sel1| - 1] == sel;
    assert UnhighlightLogCorrected(sel1, on1) == UnhighlightLogCorrected(sel, on1) + Calls(References(p), false);
    forall c | c in HighlightLog(sel, p)
      ensures c.(on := false) in UnhighlightLogCorrected(sel1, on1)
    {
      var refs := References(p);
      var k :| 0 <= k < |refs| && Calls(refs, true)[k] == c;
      assert Calls(refs, false)[k] == c.(on := false);
    }
  }

  /** One call per item of the references, in order. */
  method CallEach(refs: seq<GeoRef>, on: bool) returns (calls: seq<HighlightCall>)
    ensures calls == Calls(refs, on)
  {
    calls := [];
    var i := 0;
    while i < |refs|
      invariant 0 <= i <= |refs| && calls == Calls(refs[..i], on)
    {
      calls := calls + [HighlightCall(refs[i].value, on)];
      i := i + 1;
    }
    assert refs[..i] == refs;
  }

  /** The result of a scene rebuild: whether a block preview threw, the block previews with
      their selection flag, one component id per block warning, and the highlight calls. */
  datatype SceneResult = SceneResult(thrown: bool, blocks: seq<(BlockRef, bool)>, blockWarnings: seq<int>,
                                     highlights: seq<HighlightCall>)

  /** The BricsCAD parameters among the objects reported as not drawable (`onBcObject`). */
  function BcParamsOf(os: seq<DocObject>): (r: seq<Param>)
    ensures forall p :: p in r <==> ParamObject(p) in os && p.category == "BricsCAD"
    decreases |os|
  {
    if |os| == 0 then []
    else
      var n := |os|;
      var rest := BcParamsOf(os[..n - 1]);
      assert forall o :: o in os <==> o in os[..n - 1] || o == os[n - 1] by { assert os == os[..n - 1] + [os[n - 1]]; }
      if os[n - 1].ParamObject? && os[n - 1].param.category == "BricsCAD" then rest + [os[n - 1].param] else rest
  }

  /** The highlight set and the calls after `HighlightBcData` of each parameter in turn. */
  function HighlightAll(sel: seq<int>, ps: seq<Param>): (seq<int>, seq<HighlightCall>)
    decreases |ps|
  {
    if |ps| == 0 then (sel, [])
    else
      var prev := HighlightAll(sel, ps[..|ps| - 1]);
      var p := ps[|ps| - 1];
      (Highlighted(prev.0, p), prev.1 + HighlightLog(prev.0, p))
  }

  /** Highlighting a list of parameters keeps ids distinct, and afterwards each of them is held
      exactly when the last occurrence of its id in the list is selected. */
  lemma {:induction false} HighlightAllTracks(sel: seq<int>, ps: seq<Param>)
    requires DistinctIds(sel)
    ensures DistinctIds(HighlightAll(sel, ps).0)
    ensures forall g :: (forall k :: 0 <= k < |ps| ==> ps[k].guid != g) ==>
              (g in HighlightAll(sel, ps).0 <==> g in sel)
    ensures |ps| > 0 ==> (ps[|ps| - 1].guid in HighlightAll(sel, ps).0 <==> ps[|ps| - 1].selected)
    decreases |ps|
  {
    if |ps| > 0 {
      var n := |ps|;
      var init := ps[..n - 1];
      HighlightAllTracks(sel, init);
      HighlightTracksSelection(HighlightAll(sel, init).0, ps[n - 1]);
      forall g | (forall k :: 0 <= k < n ==> ps[k].guid != g)
        ensures g in HighlightAll(sel, ps).0 <==> g in sel
      {
        forall k | 0 <= k < n - 1 ensures init[k].guid != g {
          assert init[k] == ps[k];
        }
        assert ps[n - 1].guid != g;
      }
    }
  }

  /** The objects of a definition; none without one. */
  function DefinitionObjects(d: GhDocument?): seq<DocObject>
    reads d
  {
    if d == null then [] else d.objects
  }

  /** The preview of the active definition. */
  class GrasshopperPreview {
    var activeDefinition: GhDocument?
    var lastSelection: seq<int>
    var bcSelection: seq<int>          // instance ids of the highlighted parameters
    var objectChangedHooks: seq<int>     // objects whose `ObjectChanged` this preview handles
    const compound: CompoundDrawable

    /** The highlight set never holds two parameters with the same id. */
    predicate Valid()
      reads this
    {
      DistinctIds(bcSelection)
    }

    /** A new preview with nothing selected, nothing highlighted and an empty drawable; the
        `Init` the source constructor runs is made by the creator right after. */
    constructor ()
      ensures Valid() && activeDefinition == null && lastSelection == [] && bcSelection == [] && objectChangedHooks == []
      ensures fresh(compound) && compound.drawables == [] && compound.selectedDrawables == []
    {
      activeDefinition := null;
      lastSelection := [];
      bcSelection := [];
      objectChangedHooks := [];
      compound := new CompoundDrawable(false, Argb(0, 0, 0, 0), Argb(0, 0, 0, 0));
    }

    /** `SelectionPreviewChanged`: true exactly when there is an active definition whose
        selection changed since the last one seen, which then becomes the last one seen. */
    method SelectionPreviewChanged() returns (r: bool)
      modifies this
      ensures activeDefinition == old(activeDefinition) && bcSelection == old(bcSelection)
      ensures r <==> activeDefinition != null && SelectionChanged(old(lastSelection), activeDefinition.SelectedObjects())
      ensures lastSelection == if r then activeDefinition.SelectedObjects() else old(lastSelection)
      ensures objectChangedHooks == old(objectChangedHooks)
    {
      r := false;
      if activeDefinition != null {
        var newSelection := activeDefinition.SelectedObjects();
        if |lastSelection| != |newSelection| || exists k :: 0 <= k < |lastSelection| && lastSelection[k] !in newSelection {
          lastSelection := newSelection;
          r := true;
        }
      }
    }

    /** `HighlightBcData(param)`: the references of a selected parameter not yet highlighted are
        highlighted and it joins the set; those of an unselected parameter of the set are
        unhighlighted and it leaves the set. */
    method HighlightBcData(param: Param) returns (calls: seq<HighlightCall>)
      requires Valid()
      modifies this
      ensures Valid()
      ensures bcSelection == Highlighted(old(bcSelection), param) && calls == HighlightLog(old(bcSelection), param)
      ensures activeDefinition == old(activeDefinition) && lastSelection == old(lastSelection)
      ensures objectChangedHooks == old(objectChangedHooks)
    {
      var highlight := param.selected && param.guid !in bcSelection;
      var dehighlight := !param.selected && param.guid in bcSelection;
      calls := [];
      if highlight {
        calls := CallEach(References(param), true);
      } else if dehighlight {
        calls := CallEach(References(param), false);
      }
      HighlightTracksSelection(bcSelection, param);
      if highlight {
        bcSelection := bcSelection + [param.guid];
      } else if dehighlight {
        bcSelection := Without(bcSelection, param.guid);
      }
    }

    /** `UnhighlightBcData`: every reference that each parameter of the set has now is
        unhighlighted and the set is emptied. */
    method UnhighlightBcData() returns (calls: seq<HighlightCall>)
      modifies this
      ensures Valid() && bcSelection == [] && calls == UnhighlightLog(old(bcSelection), DefinitionObjects(activeDefinition))
      ensures activeDefinition == old(activeDefinition) && lastSelection == old(lastSelection)
      ensures objectChangedHooks == old(objectChangedHooks)
    {
      calls := [];
      var i := 0;
      while i < |bcSelection|
        invariant 0 <= i <= |bcSelection| && calls == UnhighlightLog(bcSelection[..i], DefinitionObjects(activeDefinition))
        invariant unchanged(this)
      {
        assert bcSelection[..i + 1][..i] == bcSelection[..i];
        var more := CallEach(CurrentReferences(DefinitionObjects(activeDefinition), bcSelection[i]), false);
        calls := calls + more;
        i := i + 1;
      }
      assert bcSelection[..i] == bcSelection;
      bcSelection := [];
    }

    /** `Init`: when the definition on the active canvas is another one, a redraw is needed, the
        highlights are cleared and that definition becomes the active one; a changed selection
        needs a redraw too. The result says whether there is an active definition. */
    method Init(inst: Instances) returns (r: bool, redraw: bool, calls: seq<HighlightCall>)
      requires Valid()
      modifies this
      ensures Valid() && activeDefinition == inst.activeDefinition && (r <==> activeDefinition != null)
      ensures var switched := old(activeDefinition) != inst.activeDefinition;
              && (bcSelection == if switched then [] else old(bcSelection))
              && (calls == if switched then UnhighlightLog(old(bcSelection), DefinitionObjects(old(activeDefinition))) else [])
              && (redraw <==> switched || (activeDefinition != null && SelectionChanged(old(lastSelection), activeDefinition.SelectedObjects())))
      ensures lastSelection == if activeDefinition != null && SelectionChanged(old(lastSelection), activeDefinition.SelectedObjects())
                               then activeDefinition.SelectedObjects() else old(lastSelection)
      ensures objectChangedHooks == old(objectChangedHooks)
    {
      redraw := false;
      calls := [];
      var definition := inst.activeDefinition;
      if definition != activeDefinition {
        redraw := true;
        calls := UnhighlightBcData();
        activeDefinition := definition;
      }
      var changed := SelectionPreviewChanged();
      if changed {
        redraw := true;
      }
      r := activeDefinition != null;
    }

    /** `onBcObject` for each not-drawable object in turn. */
    method HighlightEach(ps: seq<Param>) returns (calls: seq<HighlightCall>)
      requires Valid()
      modifies this
      ensures Valid()
      ensures (bcSelection, calls) == HighlightAll(old(bcSelection), ps)
      ensures activeDefinition == old(activeDefinition) && lastSelection == old(lastSelection)
      ensures objectChangedHooks == old(objectChangedHooks)
    {
      calls := [];
      var i := 0;
      while i < |ps|
        invariant 0 <= i <= |ps| && Valid()
        invariant (bcSelection, calls) == HighlightAll(old(bcSelection), ps[..i])
        invariant activeDefinition == old(activeDefinition) && lastSelection == old(lastSelection)
        invariant objectChangedHooks == old(objectChangedHooks)
      {
        assert ps[..i + 1][..i] == ps[..i];
        var more := HighlightBcData(ps[i]);
        calls := calls + more;
        i := i + 1;
      }
      assert ps[..i] == ps;
    }

    /** `BuildScene`: the drawable is cleared; with an active definition it takes the
        definition's colours, and then, when the preview is enabled and the editor visible, the
        drawing mode and the geometry of `GetPreview`, the BricsCAD parameters not drawn being
        highlighted by selection and the extracted objects hooked; otherwise the highlights are
        cleared. */
    method BuildScene(inst: Instances, host: PreviewHost, doc: HostDocument) returns (out: SceneResult)
      requires Valid()
      modifies this, compound
      ensures Valid() && activeDefinition == old(activeDefinition) && lastSelection == old(lastSelection)
      ensures compound.disposed == old(compound.disposed)
      ensures activeDefinition == null ==>
                compound.drawables == [] && compound.selectedDrawables == [] && bcSelection == old(bcSelection) &&
                objectChangedHooks == old(objectChangedHooks) && out == SceneResult(false, [], [], [])
      ensures activeDefinition != null ==>
                compound.colour == activeDefinition.previewColour && compound.colourSelected == activeDefinition.previewColourSelected
      ensures activeDefinition != null && (activeDefinition.previewMode == PreviewDisabled || !inst.editorVisible) ==>
                compound.drawables == [] && compound.selectedDrawables == [] && bcSelection == [] &&
                objectChangedHooks == old(objectChangedHooks) && out == SceneResult(false, [], [], UnhighlightLog(old(bcSelection), activeDefinition.objects))
      ensures activeDefinition != null && activeDefinition.previewMode != PreviewDisabled && inst.editorVisible ==>
                var s := Scanned(activeDefinition.objects, Scan([], [], [], [], [], [], false), activeDefinition.previewFilter,
                                 activeDefinition.previewMode == Shaded, host, doc);
                && compound.isRenderMode == (activeDefinition.previewMode == Shaded)
                && compound.drawables == s.drawables && compound.selectedDrawables == s.selectedDrawables
                && (bcSelection, out.highlights) == HighlightAll(old(bcSelection), BcParamsOf(s.notDrawable))
                && objectChangedHooks == old(objectChangedHooks) + seq(|s.extracted|, k requires 0 <= k < |s.extracted| => s.extracted[k].Guid())
                && out.thrown == s.thrown && out.blocks == s.blocks && out.blockWarnings == s.blockWarnings
    {
      compound.Clear();
      out := SceneResult(false, [], [], []);
      if activeDefinition == null {
        return;
      }
      var definition := activeDefinition;
      compound.colour := definition.previewColour;
      compound.colourSelected := definition.previewColourSelected;
      if definition.previewMode != PreviewDisabled && inst.editorVisible {
        compound.isRenderMode := definition.previewMode == Shaded;
        var s := GetPreview(definition, compound, host, doc);
        var calls := HighlightEach(BcParamsOf(s.notDrawable));
        objectChangedHooks := objectChangedHooks + seq(|s.extracted|, k requires 0 <= k < |s.extracted| => s.extracted[k].Guid());
        out := SceneResult(s.thrown, s.blocks, s.blockWarnings, calls);
      } else {
        var calls := UnhighlightBcData();
        out := out.(highlights := calls);
      }
    }
  }
}
