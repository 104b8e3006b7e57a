/** The Document Elements component (Grasshopper-BricsCAD/GH/Components/DocumentElements.cs):
    the BIM elements of the linked drawing, optionally restricted to some element types and some
    spatial locations. The BIM classification and the spatial-location assignment of the drawing
    are given as functions. */
module DocumentElements {
  import opened HostTypes
  import opened DatabaseUtils
  import opened ParameterTypes
  import opened GhKernel
  import opened BcParams

  /** Some output of the component is a plug-in parameter that is stale. */
  predicate OutputStale(outputs: seq<Param>, ch: Changes, materialHandles: set<Handle>) {
    exists i :: 0 <= i < |outputs| && IsBcParam(outputs[i].kind) && ParamStale(outputs[i], ch, materialHandles)
  }

  /** `NeedsToBeExpired`: stale whenever anything was erased or added; otherwise exactly when one
      of its plug-in output parameters is stale. */
  method NeedsToBeExpired(c: Component, ch: Changes, materialHandles: set<Handle>) returns (r: bool)
    ensures |ch.erased| > 0 || |ch.added| > 0 ==> r
    ensures |ch.erased| == 0 && |ch.added| == 0 ==> (r <==> OutputStale(c.outputs, ch, materialHandles))
  {
    if |ch.erased| > 0 || |ch.added| > 0 {
      return true;
    }
    var i := 0;
    while i < |c.outputs|
      invariant 0 <= i <= |c.outputs|
      invariant forall j :: 0 <= j < i && IsBcParam(c.outputs[j].kind) ==> !ParamStale(c.outputs[j], ch, materialHandles)
    {
      if IsBcParam(c.outputs[i].kind) {
        var stale := BcParams.NeedsToBeExpired(c.outputs[i], ch, materialHandles);
        if stale {
          return true;
        }
      }
      i := i + 1;
    }
    return false;
  }

  /** The ids of several lists, list after list. */
  function Concat(lists: seq<seq<ObjectId>>): (r: seq<ObjectId>)
    decreases |lists|
  {
    if |lists| == 0 then [] else Concat(lists[..|lists| - 1]) + lists[|lists| - 1]
  }

  /** Every id of a list is in the concatenation, and every id of the concatenation is in a list. */
  lemma {:induction false} ConcatMembers(lists: seq<seq<ObjectId>>, x: ObjectId)
    ensures x in Concat(lists) <==> exists i :: 0 <= i < |lists| && x in lists[i]
    decreases |lists|
  {
    if |lists| > 0 {
      var n := |lists|;
      ConcatMembers(lists[..n - 1], x);
      assert forall i :: 0 <= i < n - 1 ==> lists[..n - 1][i] == lists[i];
    }
  }

  /** The per-type classifications, in the order of the element types. */
  function PerType(types: seq<Int32>, classifiedAs: Int32 -> seq<ObjectId>): (r: seq<seq<ObjectId>>)
    ensures |r| == |types| && forall i :: 0 <= i < |r| ==> r[i] == classifiedAs(types[i])
  {
    seq(|types|, i requires 0 <= i < |types| => classifiedAs(types[i]))
  }

  /** The candidates: with element types given, the elements classified as each type in turn
      (an element of two types comes twice); with none, all classified elements. */
  method Candidates(types: seq<Int32>, classifiedAs: Int32 -> seq<ObjectId>, allClassified: seq<ObjectId>)
    returns (ids: seq<ObjectId>)
    ensures |types| == 0 ==> ids == allClassified
    ensures |types| != 0 ==> ids == Concat(PerType(types, classifiedAs))
  {
    if |types| == 0 {
      return allClassified;
    }
    ids := [];
    var i := 0;
    while i < |types|
      invariant 0 <= i <= |types|
      invariant ids == Concat(PerType(types[..i], classifiedAs))
    {
      assert PerType(types[..i + 1], classifiedAs)[..i] == PerType(types[..i], classifiedAs);
      var j := 0;
      var of := classifiedAs(types[i]);
      while j < |of|
        invariant 0 <= j <= |of|
        invariant ids == Concat(PerType(types[..i], classifiedAs)) + of[..j]
      {
        assert of[..j + 1] == of[..j] + [of[j]];
        ids := ids + [of[j]];
        j := j + 1;
      }
      assert of[..j] == of;
      i := i + 1;
    }
    assert types[..i] == types;
  }

  /** An element is in one of the given spatial locations. */
  predicate InLocations<L(==)>(id: ObjectId, locations: seq<L>, locationOf: ObjectId -> L) {
    exists k :: 0 <= k < |locations| && locations[k] == locationOf(id)
  }

  /** The elements in one of the locations, in their order. */
  function Located<L(==)>(ids: seq<ObjectId>, locations: seq<L>, locationOf: ObjectId -> L): (r: seq<ObjectId>)
    ensures forall x :: x in r <==> x in ids && InLocations(x, locations, locationOf)
    decreases |ids|
  {
    if |ids| == 0 then []
    else
      var rest := Located(ids[1..], locations, locationOf);
      assert forall x :: x in ids <==> x == ids[0] || x in ids[1..] by { assert ids == [ids[0]] + ids[1..]; }
      if InLocations(ids[0], locations, locationOf) then [ids[0]] + rest else rest
  }

  /** One element further back: it is kept when it is in one of the locations, removed
      otherwise. */
  lemma FilterStep<L>(ids: seq<ObjectId>, i: nat, r: seq<ObjectId>, locations: seq<L>, locationOf: ObjectId -> L)
    requires i < |ids| && r == ids[..i + 1] + Located(ids[i + 1..], locations, locationOf)
    ensures i < |r| && r[i] == ids[i]
    ensures (if InLocations(r[i], locations, locationOf) then r else r[..i] + r[i + 1..]) ==
            ids[..i] + Located(ids[i..], locations, locationOf)
  {
    assert ids[i..][1..] == ids[i + 1..];
    assert ids[..i + 1] == ids[..i] + [ids[i]];
    assert r[..i] == ids[..i] && r[i + 1..] == Located(ids[i + 1..], locations, locationOf);
  }

  /** The spatial filter: from the last element to the first, each element whose assigned
      location is none of the given ones is removed; with no locations there is no filtering. */
  method FilterByLocation<L(==)>(ids: seq<ObjectId>, locations: seq<L>, locationOf: ObjectId -> L)
    returns (r: seq<ObjectId>)
    ensures |locations| == 0 ==> r == ids
    ensures |locations| != 0 ==> r == Located(ids, locations, locationOf)
  {
    r := ids;
    if |locations| == 0 {
      return;
    }
    var i := |ids|;
    while i > 0
      invariant 0 <= i <= |ids|
      invariant r == ids[..i] + Located(ids[i..], locations, locationOf)
    {
      i := i - 1;
      FilterStep(ids, i, r, locations, locationOf);
      if !InLocations(r[i], locations, locationOf) {
        r := r[..i] + r[i + 1..];
      }
    }
  }

  /** The output: one unloaded BricsCAD entity per element, referring to it by its handle in the
      linked drawing. */
  method Elements(ids: seq<ObjectId>, docName: string) returns (res: seq<GeoRef>)
    ensures |res| == |ids|
    ensures forall i :: 0 <= i < |ids| ==>
              res[i] == ReferenceOf(ToFsp(ids[i]), docName) && res[i].persistentRef == ids[i].handle &&
              !res[i].IsValid() && res[i].subentType == SubNull
  {
    res := [];
    var i := 0;
    while i < |ids|
      invariant 0 <= i <= |ids| && |res| == i
      invariant forall k :: 0 <= k < i ==> res[k] == ReferenceOf(ToFsp(ids[k]), docName)
    {
      res := res + [ReferenceOf(ToFsp(ids[i]), docName)];
      i := i + 1;
    }
  }

  /** `SolveInstance`: the candidates, filtered by location, as entity references. */
  method SolveInstance<L(==)>(locations: seq<L>, types: seq<Int32>, classifiedAs: Int32 -> seq<ObjectId>,
                               allClassified: seq<ObjectId>, locationOf: ObjectId -> L, docName: string)
    returns (res: seq<GeoRef>)
    ensures var cands := if |types| == 0 then allClassified else Concat(PerType(types, classifiedAs));
            var kept := if |locations| == 0 then cands else Located(cands, locations, locationOf);
            |res| == |kept| && forall i :: 0 <= i < |kept| ==> res[i] == ReferenceOf(ToFsp(kept[i]), docName)
  {
    var ids := Candidates(types, classifiedAs, allClassified);
    ids := FilterByLocation(ids, locations, locationOf);
    res := Elements(ids, docName);
  }
}
