/** The plug-in's parameters as the change tracking sees them (`IGH_BcParam`): whichever of the
    geometry parameters, the building picker or the material picker a parameter is, it answers
    `NeedsToBeExpired` for one set of changes. */
module BcParams {
  import opened HostTypes
  import opened GhKernel
  import GeometryParams
  import SpatialLocation
  import RenderMaterial

  /** The changes one drain hands to every object: the modified, erased and added handles and the
      finished commands that passed the filter. */
  datatype Changes = Changes(modified: seq<Handle>, erased: seq<Handle>, added: seq<Handle>, commands: seq<string>)

  /** The answer of each kind of parameter. `materialHandles` are the handles of the linked
      drawing that resolve to Material objects. */
  predicate ParamStale(p: Param, ch: Changes, materialHandles: set<Handle>) {
    match p.kind
    case GeometryParam(_) => GeometryParams.Stale(p, ch.modified, ch.erased, ch.added)
    case BuildingsPicker => SpatialLocation.NeedsToBeExpired(ch.modified, ch.erased, ch.added, ch.commands)
    case MaterialPicker => RenderMaterial.AddsMaterial(ch.added, materialHandles)
    case _ => false
  }

  /** `IGH_BcParam.NeedsToBeExpired`, dispatched on the kind of parameter. */
  method NeedsToBeExpired(p: Param, ch: Changes, materialHandles: set<Handle>) returns (r: bool)
    requires IsBcParam(p.kind)
    ensures r <==> ParamStale(p, ch, materialHandles)
  {
    match p.kind
    case GeometryParam(_) =>
      r := GeometryParams.NeedsToBeExpired(p, ch.modified, ch.erased, ch.added, ch.commands);
    case BuildingsPicker =>
      r := SpatialLocation.NeedsToBeExpired(ch.modified, ch.erased, ch.added, ch.commands);
    case MaterialPicker =>
      r := RenderMaterial.NeedsToBeExpired(ch.modified, ch.erased, ch.added, ch.commands, materialHandles);
  }

  function HandleSet(s: seq<Handle>): set<Handle> {
    set h | h in s
  }

  /** One set of changes contains another. */
  predicate Includes(big: Changes, small: Changes) {
    && HandleSet(small.modified) <= HandleSet(big.modified)
    && HandleSet(small.erased) <= HandleSet(big.erased)
    && HandleSet(small.added) <= HandleSet(big.added)
    && (forall c :: c in small.commands ==> c in big.commands)
  }

  /** More changes never make a stale parameter fresh again. */
  lemma StaleMonotone(p: Param, small: Changes, big: Changes, materialHandles: set<Handle>)
    requires Includes(big, small)
    requires ParamStale(p, small, materialHandles)
    ensures ParamStale(p, big, materialHandles)
  {
    match p.kind
    case GeometryParam(_) =>
      var vrefs := GeometryParams.TreeRefs(p.volatileData);
      var prefs := GeometryParams.TreeRefs(p.persistentData);
      if GeometryParams.AnyHandleIn(vrefs, small.modified) {
        var x :| x in vrefs && x.persistentRef in small.modified;
        assert x.persistentRef in HandleSet(big.modified);
      } else if GeometryParams.AnyHandleIn(vrefs, small.erased) {
        var x :| x in vrefs && x.persistentRef in small.erased;
        assert x.persistentRef in HandleSet(big.erased);
      } else {
        var x :| x in prefs && x.persistentRef in small.added;
        assert x.persistentRef in HandleSet(big.added);
      }
    case BuildingsPicker =>
    case MaterialPicker =>
      var i :| 0 <= i < |small.added| && small.added[i] in materialHandles;
      assert small.added[i] in HandleSet(big.added);
    case _ =>
  }
}
