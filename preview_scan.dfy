/** `GetPreview` and `ExtractGeometry` (Grasshopper-BricsCAD/Visualization/GrasshopperPreview.cs):
    the walk over the objects of a definition that fills a preview drawable. Which objects are
    preview objects and preview capable, and the preview geometry Grasshopper extracts from one
    goo, are given as functions. */
module PreviewScans {
  import opened Wrappers
  import opened HostTypes
  import opened GhKernel
  import opened CompoundDrawables
  import opened BlockPreviews
  import ParameterTypes

  /** What the walk asks of Grasshopper: `obj is IGH_PreviewObject`, `IsPreviewCapable`, the
      geometry of one goo in wireframe or shaded mode ([] for data that is not preview data),
      and the casts the block preview uses. */
  datatype PreviewHost = PreviewHost(
    isPreviewObject: DocObject -> bool,
    isPreviewCapable: DocObject -> bool,
    extract: (Goo, bool) -> seq<PreviewDrawable>,
    casts: Casts)

  predicate Locked(o: DocObject) {
    match o
    case ParamObject(p) => p.locked
    case ComponentObject(c) => c.locked
    case PassiveObject(_, _) => false
  }

  predicate Hidden(o: DocObject) {
    match o
    case ParamObject(p) => p.hidden
    case ComponentObject(c) => c.hidden
    case PassiveObject(_, _) => false
  }

  /** The geometry of a list of goo, goo after goo. */
  function GooGeometry(gs: seq<Goo>, extract: (Goo, bool) -> seq<PreviewDrawable>, render: bool): seq<PreviewDrawable>
    decreases |gs|
  {
    if |gs| == 0 then [] else GooGeometry(gs[..|gs| - 1], extract, render) + extract(gs[|gs| - 1], render)
  }

  /** The geometry of the output parameters of a component, parameter after parameter. */
  function OutputsGeometry(outputs: seq<Param>, extract: (Goo, bool) -> seq<PreviewDrawable>, render: bool): seq<PreviewDrawable>
    decreases |outputs|
  {
    if |outputs| == 0 then []
    else
      var n := |outputs|;
      OutputsGeometry(outputs[..n - 1], extract, render) + GooGeometry(AllData(outputs[n - 1].volatileData), extract, render)
  }

  /** The geometry of an object: of its volatile data for a parameter, of its outputs for a
      component. */
  function ObjectGeometry(o: DocObject, extract: (Goo, bool) -> seq<PreviewDrawable>, render: bool): seq<PreviewDrawable> {
    match o
    case ParamObject(p) => GooGeometry(AllData(p.volatileData), extract, render)
    case ComponentObject(c) => OutputsGeometry(c.outputs, extract, render)
    case PassiveObject(_, _) => []
  }

  /** `ExtractGeometry(volatileData, ...)`: the geometry of every non-null item appended. */
  method ExtractTree(t: Tree, extract: (Goo, bool) -> seq<PreviewDrawable>, render: bool, geometries: seq<PreviewDrawable>)
    returns (res: seq<PreviewDrawable>)
    ensures res == geometries + GooGeometry(AllData(t), extract, render)
  {
    var gs := AllData(t);
    res := geometries;
    var i := 0;
    while i < |gs|
      invariant 0 <= i <= |gs|
      invariant res == geometries + GooGeometry(gs[..i], extract, render)
    {
      assert gs[..i + 1][..i] == gs[..i];
      res := res + extract(gs[i], render);
      i := i + 1;
    }
    assert gs[..i] == gs;
  }

  /** The geometry of an object, parameter by parameter for a component. */
  method ExtractObject(o: DocObject, extract: (Goo, bool) -> seq<PreviewDrawable>, render: bool)
    returns (geometries: seq<PreviewDrawable>)
    ensures geometries == ObjectGeometry(o, extract, render)
  {
    geometries := [];
    match o
    case ParamObject(p) =>
      geometries := ExtractTree(p.volatileData, extract, render, geometries);
    case ComponentObject(c) =>
      geometries := ExtractOutputs(c.outputs, extract, render);
    case PassiveObject(_, _) =>
  }

  /** The geometry of a component's output parameters, parameter after parameter. */
  method ExtractOutputs(outputs: seq<Param>, extract: (Goo, bool) -> seq<PreviewDrawable>, render: bool)
    returns (geometries: seq<PreviewDrawable>)
    ensures geometries == OutputsGeometry(outputs, extract, render)
  {
    geometries := [];
    var i := 0;
    while i < |outputs|
      invariant 0 <= i <= |outputs|
      invariant geometries == OutputsGeometry(outputs[..i], extract, render)
    {
      assert outputs[..i + 1][..i] == outputs[..i];
      geometries := ExtractTree(outputs[i].volatileData, extract, render, geometries);
      i := i + 1;
    }
    assert outputs[..i] == outputs;
  }

  /** The state of the walk: the drawable's two lists, the objects handed to `onNotDrawble` and
      to `onSuccessfulExtract`, the block previews with their selection flag, one component id
      per block warning, and whether an exception ended the walk. */
  datatype Scan = Scan(
    drawables: seq<PreviewDrawable>,
    selectedDrawables: seq<PreviewDrawable>,
    notDrawable: seq<DocObject>,
    extracted: seq<DocObject>,
    blocks: seq<(BlockRef, bool)>,
    blockWarnings: seq<int>,
    thrown: bool)

  /** The block previews of one component, each with the component's selection flag. */
  function Tagged(bs: seq<BlockRef>, selected: bool): (r: seq<(BlockRef, bool)>)
    ensures |r| == |bs| && forall k :: 0 <= k < |bs| ==> r[k] == (bs[k], selected)
  {
    seq(|bs|, k requires 0 <= k < |bs| => (bs[k], selected))
  }

  /** One object of the walk. Objects that are not active objects and locked objects are
      skipped, and so are unselected objects under the Selected filter. A preview-capable,
      visible preview object adds its geometry to the list of its selection state, and is
      reported as extracted when there is some; a visible block-insertion component that is not
      preview capable adds its block previews; an object that is not a preview object is
      reported as not drawable. */
  function Visit(st: Scan, o: DocObject, filter: PreviewFilter, render: bool, host: PreviewHost, doc: ParameterTypes.HostDocument): Scan {
    if st.thrown || o.PassiveObject? || Locked(o) then st
    else if filter == ShowSelected && !o.Selected() then st
    else if !host.isPreviewObject(o) then st.(notDrawable := st.notDrawable + [o])
    else if host.isPreviewCapable(o) && !Hidden(o) then
      var gs := ObjectGeometry(o, host.extract, render);
      if |gs| == 0 then st
      else if o.Selected() then st.(selectedDrawables := st.selectedDrawables + gs, extracted := st.extracted + [o])
      else st.(drawables := st.drawables + gs, extracted := st.extracted + [o])
    else if !Hidden(o) && o.ComponentObject? && o.component.kind == InsertBlockReference then
      var b := BlockPreview(o.component, host.casts, doc);
      st.(blocks := st.blocks + Tagged(b.blocks, o.Selected()),
          blockWarnings := st.blockWarnings + seq(b.warnings, _ => o.Guid()),
          thrown := b.thrown)
    else st
  }

  /** The walk over the objects, from a starting state. */
  function Scanned(os: seq<DocObject>, start: Scan, filter: PreviewFilter, render: bool, host: PreviewHost,
                   doc: ParameterTypes.HostDocument): Scan
    decreases |os|
  {
    if |os| == 0 then start
    else Visit(Scanned(os[..|os| - 1], start, filter, render, host, doc), os[|os| - 1], filter, render, host, doc)
  }

  /** A walk that has thrown stays as it is. */
  lemma {:induction false} ScannedStops(os: seq<DocObject>, k: nat, start: Scan, filter: PreviewFilter, render: bool,
                                        host: PreviewHost, doc: ParameterTypes.HostDocument)
    requires k <= |os| && Scanned(os[..k], start, filter, render, host, doc).thrown
    ensures Scanned(os, start, filter, render, host, doc) == Scanned(os[..k], start, filter, render, host, doc)
    decreases |os|
  {
    if k < |os| {
      var n := |os|;
      assert os[..n - 1][..k] == os[..k];
      ScannedStops(os[..n - 1], k, start, filter, render, host, doc);
    } else {
      assert os[..k] == os;
    }
  }

  /** `geometries.ForEach(geom => compoundDrawable.AddDrawable(new PreviewDrawable(geom), isSelected))`. */
  method AddAll(compound: CompoundDrawable, gs: seq<PreviewDrawable>, isSelected: bool)
    modifies compound
    ensures isSelected ==> compound.selectedDrawables == old(compound.selectedDrawables) + gs &&
                           compound.drawables == old(compound.drawables)
    ensures !isSelected ==> compound.drawables == old(compound.drawables) + gs &&
                            compound.selectedDrawables == old(compound.selectedDrawables)
    ensures compound.isRenderMode == old(compound.isRenderMode) && compound.colour == old(compound.colour)
    ensures compound.colourSelected == old(compound.colourSelected) && compound.disposed == old(compound.disposed)
  {
    var i := 0;
    while i < |gs|
      invariant 0 <= i <= |gs|
      invariant isSelected ==> compound.selectedDrawables == old(compound.selectedDrawables) + gs[..i] &&
                               compound.drawables == old(compound.drawables)
      invariant !isSelected ==> compound.drawables == old(compound.drawables) + gs[..i] &&
                                compound.selectedDrawables == old(compound.selectedDrawables)
      invariant compound.isRenderMode == old(compound.isRenderMode) && compound.colour == old(compound.colour)
      invariant compound.colourSelected == old(compound.colourSelected) && compound.disposed == old(compound.disposed)
    {
      assert gs[..i + 1] == gs[..i] + [gs[i]];
      compound.AddDrawable(gs[i], isSelected);
      i := i + 1;
    }
    assert gs[..i] == gs;
  }

  /** One object of `GetPreview`, on the drawable itself. */
  method VisitObject(compound: CompoundDrawable, o: DocObject, filter: PreviewFilter, render: bool, host: PreviewHost,
                     doc: ParameterTypes.HostDocument, st: Scan) returns (st': Scan)
    requires st.drawables == compound.drawables && st.selectedDrawables == compound.selectedDrawables && !st.thrown
    modifies compound
    ensures st' == Visit(st, o, filter, render, host, doc)
    ensures st'.drawables == compound.drawables && st'.selectedDrawables == compound.selectedDrawables
    ensures compound.isRenderMode == old(compound.isRenderMode) && compound.colour == old(compound.colour)
    ensures compound.colourSelected == old(compound.colourSelected) && compound.disposed == old(compound.disposed)
  {
    st' := st;
    if o.PassiveObject? || Locked(o) {
      return;
    }
    var isSelected := o.Selected();
    if filter == ShowSelected && !isSelected {
      return;
    }
    if host.isPreviewObject(o) {
      if host.isPreviewCapable(o) && !Hidden(o) {
        var geometries := ExtractObject(o, host.extract, render);
        if |geometries| != 0 {
          AddAll(compound, geometries, isSelected);
          st' := st'.(drawables := compound.drawables, selectedDrawables := compound.selectedDrawables,
                      extracted := st'.extracted + [o]);
        }
      } else if !Hidden(o) && o.ComponentObject? && o.component.kind == InsertBlockReference {
        var b := GetBlockRefPreview(o.component, host.casts, doc);
        st' := st'.(blocks := st'.blocks + Tagged(b.blocks, isSelected),
                    blockWarnings := st'.blockWarnings + seq(b.warnings, _ => o.Guid()),
                    thrown := b.thrown);
      }
    } else {
      st' := st'.(notDrawable := st'.notDrawable + [o]);
    }
  }

  /** `GetPreview`: the objects in order, each visited as `Visit` says, the geometry going to the
      drawable; an exception of a block preview ends the walk. The mesh settings and render
      mode come from the definition. */
  method GetPreview(definition: GhDocument, compound: CompoundDrawable, host: PreviewHost, doc: ParameterTypes.HostDocument)
    returns (s: Scan)
    modifies compound
    ensures s == Scanned(definition.objects, Scan(old(compound.drawables), old(compound.selectedDrawables), [], [], [], [], false),
                         definition.previewFilter, definition.previewMode == Shaded, host, doc)
    ensures compound.drawables == s.drawables && compound.selectedDrawables == s.selectedDrawables
    ensures compound.isRenderMode == old(compound.isRenderMode) && compound.colour == old(compound.colour)
    ensures compound.colourSelected == old(compound.colourSelected) && compound.disposed == old(compound.disposed)
  {
    var render := definition.previewMode == Shaded;
    var os := definition.objects;
    var start := Scan(compound.drawables, compound.selectedDrawables, [], [], [], [], false);
    s := start;
    var i := 0;
    while i < |os|
      invariant 0 <= i <= |os|
      invariant s == Scanned(os[..i], start, definition.previewFilter, render, host, doc) && !s.thrown
      invariant s.drawables == compound.drawables && s.selectedDrawables == compound.selectedDrawables
      invariant compound.isRenderMode == old(compound.isRenderMode) && compound.colour == old(compound.colour)
      invariant compound.colourSelected == old(compound.colourSelected) && compound.disposed == old(compound.disposed)
    {
      assert os[..i + 1][..i] == os[..i];
      s := VisitObject(compound, os[i], definition.previewFilter, render, host, doc, s);
      if s.thrown {
        ScannedStops(os, i + 1, start, definition.previewFilter, render, host, doc);
        return;
      }
      i := i + 1;
    }
    assert os[..i] == os;
  }

  /** Under the Selected filter only selected objects are drawn, so the list of unselected
      geometry is left as it was. */
  lemma {:induction false} SelectedFilterDrawsSelected(os: seq<DocObject>, start: Scan, render: bool, host: PreviewHost,
                                                      doc: ParameterTypes.HostDocument)
    ensures Scanned(os, start, ShowSelected, render, host, doc).drawables == start.drawables
    decreases |os|
  {
    if |os| > 0 {
      SelectedFilterDrawsSelected(os[..|os| - 1], start, render, host, doc);
    }
  }

  /** The objects reported as not drawable are exactly the active, unlocked objects that pass
      the filter and are not preview objects (all of them when no exception ended the walk). */
  lemma {:induction false} NotDrawableObjects(os: seq<DocObject>, filter: PreviewFilter, render: bool, host: PreviewHost,
                                             doc: ParameterTypes.HostDocument, start: Scan)
    requires start.notDrawable == [] && !start.thrown
    ensures var s := Scanned(os, start, filter, render, host, doc);
            forall o :: o in s.notDrawable ==>
              o in os && !o.PassiveObject? && !Locked(o) && (filter == ShowSelected ==> o.Selected()) &&
              !host.isPreviewObject(o)
    ensures var s := Scanned(os, start, filter, render, host, doc);
            !s.thrown ==>
              forall o :: (o in os && !o.PassiveObject? && !Locked(o) && (filter == ShowSelected ==> o.Selected()) &&
                           !host.isPreviewObject(o)) ==> o in s.notDrawable
    decreases |os|
  {
    if |os| > 0 {
      var n := |os|;
      NotDrawableObjects(os[..n - 1], filter, render, host, doc, start);
      assert forall o :: o in os <==> o in os[..n - 1] || o == os[n - 1] by {
        assert os == os[..n - 1] + [os[n - 1]];
      }
    }
  }

  /** An object reported as extracted is an unlocked, visible, preview-capable object that
      passes the filter and has some geometry. */
  lemma {:induction false} ExtractedObjects(os: seq<DocObject>, filter: PreviewFilter, render: bool, host: PreviewHost,
                                           doc: ParameterTypes.HostDocument, start: Scan)
    requires start.extracted == []
    ensures forall o :: o in Scanned(os, start, filter, render, host, doc).extracted ==>
              o in os && !Locked(o) && !Hidden(o) && (filter == ShowSelected ==> o.Selected()) &&
              host.isPreviewObject(o) && host.isPreviewCapable(o) && |ObjectGeometry(o, host.extract, render)| != 0
    decreases |os|
  {
    if |os| > 0 {
      var n := |os|;
      ExtractedObjects(os[..n - 1], filter, render, host, doc, start);
      assert forall o :: o in os[..n - 1] ==> o in os;
    }
  }
}
