/** The render-material picker (Grasshopper-BricsCAD/GH/Components/RenderMaterial.cs): a value
    list of the material names of the linked drawing, and its staleness test. The drawing's
    material names and the handles that resolve to Material objects are given as values. */
module RenderMaterial {
  import opened HostTypes
  import opened GhKernel
  import SpatialLocation

  /** The names without repetition, each where it first occurs. */
  function Distinct(names: seq<string>): (r: seq<string>)
    ensures forall x :: x in r <==> x in names
    ensures forall i, j :: 0 <= i < j < |r| ==> r[i] != r[j]
    decreases |names|
  {
    if |names| == 0 then []
    else
      var prev := Distinct(names[..|names| - 1]);
      var last := names[|names| - 1];
      assert forall x :: x in names <==> x in names[..|names| - 1] || x == last by {
        assert names == names[..|names| - 1] + [last];
      }
      if last in prev then prev else prev + [last]
  }

  /** A list without repetition is its own `Distinct`. */
  lemma {:induction false} DistinctOfDistinct(names: seq<string>)
    requires forall i, j :: 0 <= i < j < |names| ==> names[i] != names[j]
    ensures Distinct(names) == names
    decreases |names|
  {
    if |names| > 0 {
      var n := |names|;
      DistinctOfDistinct(names[..n - 1]);
      assert names[n - 1] !in names[..n - 1];
      assert names[..n - 1] + [names[n - 1]] == names;
    }
  }

  /** One more name extends `Distinct` only when it is new. */
  lemma DistinctStep(names: seq<string>, i: nat)
    requires i < |names|
    ensures Distinct(names[..i + 1]) ==
              if names[i] in Distinct(names[..i]) then Distinct(names[..i]) else Distinct(names[..i]) + [names[i]]
  {
    assert names[..i + 1][..i] == names[..i];
  }

  /** The entries of the material picker: each material name once, with its quoted form. */
  function MaterialEntries(materials: seq<string>): seq<(string, string)> {
    SpatialLocation.BuildingEntries(Distinct(materials))
  }

  /** One more material name adds its item only when the name is new. */
  lemma RefreshStep(selected: seq<string>, materials: seq<string>, i: nat)
    requires i < |materials|
    ensures var name := materials[i];
            Rebuilt(selected, MaterialEntries(materials[..i + 1])) ==
              if name in Distinct(materials[..i]) then Rebuilt(selected, MaterialEntries(materials[..i]))
              else Rebuilt(selected, MaterialEntries(materials[..i])) + [ValueListItem(name, Quoted(name), Quoted(name) in selected)]
  {
    var name := materials[i];
    DistinctStep(materials, i);
    if name !in Distinct(materials[..i]) {
      assert MaterialEntries(materials[..i + 1]) == MaterialEntries(materials[..i]) + [(name, Quoted(name))];
      RebuiltAppend(selected, MaterialEntries(materials[..i]), (name, Quoted(name)));
    }
  }

  /** The names seen so far, one name further on. */
  lemma SeenStep(seen: set<string>, names: seq<string>, i: nat)
    requires i < |names| && forall x :: x in seen <==> x in names[..i]
    ensures forall x :: x in seen + {names[i]} <==> x in names[..i + 1]
  {
    assert names[..i + 1] == names[..i] + [names[i]];
  }

  /** `MaterialName.RefreshList`: the list is cleared, then one item is added per material name
      not seen before, selected exactly when its quoted name was selected before. */
  method RefreshList(list: ValueList, materials: seq<string>)
    modifies list
    ensures list.listItems == Rebuilt(SelectedExpressions(old(list.listItems)), MaterialEntries(materials))
  {
    var selectedItems := SelectedExpressions(list.listItems);
    list.listItems := [];
    var materialNames: set<string> := {};
    var i := 0;
    while i < |materials|
      invariant 0 <= i <= |materials|
      invariant forall x :: x in materialNames <==> x in materials[..i]
      invariant list.listItems == Rebuilt(selectedItems, MaterialEntries(materials[..i]))
    {
      var name := materials[i];
      RefreshStep(selectedItems, materials, i);
      assert name in Distinct(materials[..i]) <==> name in materials[..i];
      SeenStep(materialNames, materials, i);
      if name !in materialNames {
        var item := ValueListItem(name, Quoted(name), Quoted(name) in selectedItems);
        list.listItems := list.listItems + [item];
        materialNames := materialNames + {name};
      } else {
        assert materialNames + {name} == materialNames;
      }
      i := i + 1;
    }
    assert materials[..i] == materials;
  }

  /** The picker has one item per distinct material name and never two with the same name. */
  lemma RefreshListItems(selected: seq<string>, materials: seq<string>)
    ensures var r := Rebuilt(selected, MaterialEntries(materials));
            && (forall x :: x in materials <==> exists i :: 0 <= i < |r| && r[i].name == x)
            && (forall i, j :: 0 <= i < j < |r| ==> r[i].name != r[j].name)
  {
    var d := Distinct(materials);
    var r := Rebuilt(selected, MaterialEntries(materials));
    forall x | x in materials
      ensures exists i :: 0 <= i < |r| && r[i].name == x
    {
      var i :| 0 <= i < |d| && d[i] == x;
      assert r[i].name == x;
    }
  }

  /** Some added handle resolves, in the linked drawing, to an object of class Material
      (`materialHandles`). */
  predicate AddsMaterial(added: seq<Handle>, materialHandles: set<Handle>) {
    exists i :: 0 <= i < |added| && added[i] in materialHandles
  }

  /** `NeedsToBeExpired`: stale exactly when a material was added; the modified and erased
      handles and the commands play no part, and nothing added means not stale. */
  method NeedsToBeExpired(modified: seq<Handle>, erased: seq<Handle>, added: seq<Handle>,
                          finishedCmds: seq<string>, materialHandles: set<Handle>) returns (r: bool)
    ensures r <==> AddsMaterial(added, materialHandles)
    ensures |added| == 0 ==> !r
  {
    var i := 0;
    while i < |added|
      invariant 0 <= i <= |added|
      invariant forall j :: 0 <= j < i ==> added[j] !in materialHandles
    {
      if added[i] in materialHandles {
        return true;
      }
      i := i + 1;
    }
    return false;
  }
}
