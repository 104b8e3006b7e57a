/** The spatial-location pickers and components (Grasshopper-BricsCAD/GH/Components/SpatialLocation.cs):
    the BIM type picker, the building picker, and the stories of a building. The BIM library
    (its type enumeration, the buildings and stories of a drawing) is given as values. */
module SpatialLocation {
  import opened Wrappers
  import opened HostTypes
  import opened GhKernel
  import Text

  /** The command after which the spatial locations of a drawing may have changed. */
  const SpatialLocationsCommand: string := "BIMSPATIALLOCATIONS"

  /** `DocumentBuildingsPicker.NeedsToBeExpired` and `BuildingStories.NeedsToBeExpired`: stale
      exactly when the spatial-locations command finished; the handle collections play no part. */
  function NeedsToBeExpired(modified: seq<Handle>, erased: seq<Handle>, added: seq<Handle>,
                            finishedCmds: seq<string>): (r: bool)
    ensures r <==> exists i :: 0 <= i < |finishedCmds| && finishedCmds[i] == SpatialLocationsCommand
  {
    SpatialLocationsCommand in finishedCmds
  }

  /** Which handles changed never matters to the pickers. */
  lemma NeedsToBeExpiredIgnoresHandles(m: seq<Handle>, e: seq<Handle>, a: seq<Handle>,
                                      m': seq<Handle>, e': seq<Handle>, a': seq<Handle>, cmds: seq<string>)
    ensures NeedsToBeExpired(m, e, a, cmds) == NeedsToBeExpired(m', e', a', cmds)
  {
  }

  /** The entries of the building picker: each building name, and its quoted form as the
      expression. */
  function BuildingEntries(names: seq<string>): (r: seq<(string, string)>)
    ensures |r| == |names| && forall i :: 0 <= i < |r| ==> r[i] == (names[i], Quoted(names[i]))
  {
    seq(|names|, i requires 0 <= i < |names| => (names[i], Quoted(names[i])))
  }

  /** `DocumentBuildingsPicker.RefreshList`: the list is cleared; with a linked database
      (`buildings` is its building names) one item is added per building, selected exactly when
      its quoted name was selected before. */
  method RefreshBuildings(list: ValueList, buildings: Option<seq<string>>)
    modifies list
    ensures buildings.None? ==> list.listItems == []
    ensures buildings.Some? ==>
              list.listItems == Rebuilt(SelectedExpressions(old(list.listItems)), BuildingEntries(buildings.value))
  {
    var selectedItems := SelectedExpressions(list.listItems);
    list.listItems := [];
    if buildings.Some? {
      var names := buildings.value;
      var i := 0;
      while i < |names|
        invariant 0 <= i <= |names|
        invariant list.listItems == Rebuilt(selectedItems, BuildingEntries(names[..i]))
      {
        var item := ValueListItem(names[i], Quoted(names[i]), Quoted(names[i]) in selectedItems);
        assert BuildingEntries(names[..i + 1]) == BuildingEntries(names[..i]) + [(names[i], Quoted(names[i]))];
        RebuiltAppend(selectedItems, BuildingEntries(names[..i]), (names[i], Quoted(names[i])));
        list.listItems := list.listItems + [item];
        i := i + 1;
      }
      assert names[..i] == names;
    }
  }

  /** A building item is selected after a refresh exactly when an item with that building's
      quoted name was selected before it. */
  lemma RefreshBuildingSelected(before: seq<ValueListItem>, names: seq<string>, i: nat)
    requires i < |names|
    ensures Rebuilt(SelectedExpressions(before), BuildingEntries(names))[i].selected <==>
              exists j :: 0 <= j < |before| && before[j].selected && before[j].expression == Quoted(names[i])
  {
  }

  /** The entries of the BIM type picker: each enumeration value's name, and its integer value
      in decimal as the expression. */
  function TypeEntries(values: seq<(string, int)>): (r: seq<(string, string)>)
    ensures |r| == |values| && forall i :: 0 <= i < |r| ==> r[i] == (values[i].0, Text.IntToString(values[i].1))
  {
    seq(|values|, i requires 0 <= i < |values| => (values[i].0, Text.IntToString(values[i].1)))
  }

  /** The item list the `ElementTypePicker` constructor builds on the list: one item per value of
      the BIM type enumeration (`values`, its names and integer values in order). */
  method BuildTypeList(list: ValueList, values: seq<(string, int)>)
    modifies list
    ensures list.listItems == Rebuilt(SelectedExpressions(old(list.listItems)), TypeEntries(values))
  {
    var selectedItems := SelectedExpressions(list.listItems);
    list.listItems := [];
    var i := 0;
    while i < |values|
      invariant 0 <= i <= |values|
      invariant list.listItems == Rebuilt(selectedItems, TypeEntries(values[..i]))
    {
      var expression := Text.IntToString(values[i].1);
      var item := ValueListItem(values[i].0, expression, expression in selectedItems);
      assert TypeEntries(values[..i + 1]) == TypeEntries(values[..i]) + [(values[i].0, expression)];
      RebuiltAppend(selectedItems, TypeEntries(values[..i]), (values[i].0, expression));
      list.listItems := list.listItems + [item];
      i := i + 1;
    }
    assert values[..i] == values;
  }

  /** `BuildingStories.SolveInstance`: with no building input nothing is output; otherwise the
      stories of the building are output, but only when there is at least one. */
  function StoriesOutput<L>(building: Option<string>, storiesOf: string -> seq<L>): (r: Option<seq<L>>)
    ensures r.Some? <==> building.Some? && |storiesOf(building.value)| != 0
    ensures r.Some? ==> r.value == storiesOf(building.value)
  {
    if building.None? then None
    else
      var stories := storiesOf(building.value);
      if |stories| != 0 then Some(stories) else None
  }
}
