/** The preview drawable (Grasshopper-BricsCAD/Visualization/CompoundDrawable.cs): the preview
    geometry of a definition in two lists, drawn with the preview colour and then with the
    selection colour. Drawing one piece of geometry is given as a function; what a draw does is
    recorded as a call carrying the colour and transparency the traits had at that moment. */
module CompoundDrawables {
  import opened HostTypes
  import opened Convert
  import DatabaseUtils

  /** A piece of preview geometry (`PreviewDrawable`), known by identity. */
  datatype PreviewDrawable = PreviewDrawable(id: int)

  /** The selection flags of the traits. */
  datatype SelectionFlags = SelectionNone | SelectionIgnore | SelectionOther(bits: int)

  /** The drawable attribute flags the methods return. */
  datatype AttributesFlags = DrawableNone | DrawableIsAnEntity

  /** The traits a draw works with (`SubEntityTraits`). */
  class SubEntityTraits {
    var trueColor: EntityColor
    var transparency: int
    var visualStyle: ObjectId
    var selectionFlags: SelectionFlags

    constructor (trueColor: EntityColor, transparency: int, visualStyle: ObjectId, selectionFlags: SelectionFlags)
      ensures this.trueColor == trueColor && this.transparency == transparency
      ensures this.visualStyle == visualStyle && this.selectionFlags == selectionFlags
    {
      this.trueColor := trueColor;
      this.transparency := transparency;
      this.visualStyle := visualStyle;
      this.selectionFlags := selectionFlags;
    }
  }

  /** One piece of geometry drawn, with the colour and transparency in force. */
  datatype DrawCall = DrawCall(drawable: PreviewDrawable, color: EntityColor, transparency: int)

  /** The draws of a list in order, all in one colour. */
  function Painted(ds: seq<PreviewDrawable>, c: Argb): (r: seq<DrawCall>)
    ensures |r| == |ds| && forall i :: 0 <= i < |ds| ==> r[i] == DrawCall(ds[i], ColorToHost(c), c.a)
  {
    seq(|ds|, i requires 0 <= i < |ds| => DrawCall(ds[i], ColorToHost(c), c.a))
  }

  /** The number of pieces of geometry whose world draw returns false. */
  function Failures(ds: seq<PreviewDrawable>, worldDraw: PreviewDrawable -> bool): (n: nat)
    ensures n <= |ds|
    decreases |ds|
  {
    if |ds| == 0 then 0
    else Failures(ds[..|ds| - 1], worldDraw) + (if worldDraw(ds[|ds| - 1]) then 0 else 1)
  }

  /** No failures exactly when every world draw returns true. */
  lemma {:induction false} NoFailures(ds: seq<PreviewDrawable>, worldDraw: PreviewDrawable -> bool)
    ensures Failures(ds, worldDraw) == 0 <==> forall i :: 0 <= i < |ds| ==> worldDraw(ds[i])
    decreases |ds|
  {
    if |ds| > 0 {
      var n := |ds|;
      NoFailures(ds[..n - 1], worldDraw);
      assert forall i :: 0 <= i < n - 1 ==> ds[..n - 1][i] == ds[i];
    }
  }

  /** `SetColor`: the colour without alpha, and the alpha as the transparency. */
  method SetColor(st: SubEntityTraits, color: Argb) returns (r: bool)
    modifies st
    ensures r
    ensures st.trueColor == ColorToHost(color) && st.transparency == color.a
    ensures st.visualStyle == old(st.visualStyle) && st.selectionFlags == old(st.selectionFlags)
  {
    st.trueColor := ColorToHost(color);
    st.transparency := color.a;
    return true;
  }

  /** The world draw of every piece of a list with the traits as they are: the draws in list
      order and the number that returned false. */
  method WorldDrawAll(ds: seq<PreviewDrawable>, traits: SubEntityTraits, worldDraw: PreviewDrawable -> bool)
    returns (failures: nat, calls: seq<DrawCall>)
    ensures failures == Failures(ds, worldDraw)
    ensures |calls| == |ds| && forall i :: 0 <= i < |ds| ==> calls[i] == DrawCall(ds[i], traits.trueColor, traits.transparency)
  {
    failures, calls := 0, [];
    var i := 0;
    while i < |ds|
      invariant 0 <= i <= |ds|
      invariant failures == Failures(ds[..i], worldDraw)
      invariant |calls| == i && forall k :: 0 <= k < i ==> calls[k] == DrawCall(ds[k], traits.trueColor, traits.transparency)
    {
      assert ds[..i + 1][..i] == ds[..i];
      calls := calls + [DrawCall(ds[i], traits.trueColor, traits.transparency)];
      if !worldDraw(ds[i]) {
        failures := failures + 1;
      }
      i := i + 1;
    }
    assert ds[..i] == ds;
  }

  /** The viewport draw of every piece of a list, in list order. */
  method ViewportDrawAll(ds: seq<PreviewDrawable>, traits: SubEntityTraits) returns (calls: seq<DrawCall>)
    ensures |calls| == |ds| && forall i :: 0 <= i < |ds| ==> calls[i] == DrawCall(ds[i], traits.trueColor, traits.transparency)
  {
    calls := [];
    var i := 0;
    while i < |ds|
      invariant 0 <= i <= |ds|
      invariant |calls| == i && forall k :: 0 <= k < i ==> calls[k] == DrawCall(ds[k], traits.trueColor, traits.transparency)
    {
      calls := calls + [DrawCall(ds[i], traits.trueColor, traits.transparency)];
      i := i + 1;
    }
  }

  /** The preview drawable of one definition: unselected and selected geometry, the colours for
      each, and whether it is drawn shaded. */
  class CompoundDrawable {
    var drawables: seq<PreviewDrawable>
    var selectedDrawables: seq<PreviewDrawable>
    var isRenderMode: bool
    var colour: Argb
    var colourSelected: Argb
    var disposed: bool

    constructor (isRenderMode: bool, colour: Argb, colourSelected: Argb)
      ensures drawables == [] && selectedDrawables == [] && !disposed
      ensures this.isRenderMode == isRenderMode && this.colour == colour && this.colourSelected == colourSelected
    {
      drawables := [];
      selectedDrawables := [];
      this.isRenderMode := isRenderMode;
      this.colour := colour;
      this.colourSelected := colourSelected;
      disposed := false;
    }

    /** `AddDrawable`: the geometry goes at the end of the selected list when it is selected and
        of the other list otherwise; the other list is unchanged. */
    method AddDrawable(drawable: PreviewDrawable, isSelected: bool)
      modifies this
      ensures isSelected ==> selectedDrawables == old(selectedDrawables) + [drawable] && drawables == old(drawables)
      ensures !isSelected ==> drawables == old(drawables) + [drawable] && selectedDrawables == old(selectedDrawables)
      ensures isRenderMode == old(isRenderMode) && colour == old(colour) && colourSelected == old(colourSelected)
      ensures disposed == old(disposed)
    {
      if isSelected {
        selectedDrawables := selectedDrawables + [drawable];
      } else {
        drawables := drawables + [drawable];
      }
    }

    /** `Clear`: both lists are emptied. */
    method Clear()
      modifies this
      ensures drawables == [] && selectedDrawables == []
      ensures isRenderMode == old(isRenderMode) && colour == old(colour) && colourSelected == old(colourSelected)
      ensures disposed == old(disposed)
    {
      drawables := [];
      selectedDrawables := [];
    }

    /** `SubSetAttributes`: entity traits get the shaded or the wireframe visual style of the
        linked drawing (`visualStyleOf`) and are made unselectable; other traits are untouched.
        The drawable always reports itself an entity. */
    method SubSetAttributes(traits: SubEntityTraits?, visualStyleOf: string -> ObjectId) returns (r: AttributesFlags)
      modifies traits
      ensures r == DrawableIsAnEntity
      ensures traits != null ==>
                traits.visualStyle == visualStyleOf(if isRenderMode then DatabaseUtils.Realistic else DatabaseUtils.Wireframe) &&
                traits.selectionFlags == SelectionIgnore &&
                traits.trueColor == old(traits.trueColor) && traits.transparency == old(traits.transparency)
    {
      if traits != null {
        traits.visualStyle := visualStyleOf(if isRenderMode then DatabaseUtils.Realistic else DatabaseUtils.Wireframe);
        traits.selectionFlags := SelectionIgnore;
      }
      return DrawableIsAnEntity;
    }

    /** `SubWorldDraw`: every unselected piece is drawn in the preview colour, then every selected
        one in the selection colour; the result is true exactly when none of the draws returned
        false, and the traits are left in the selection colour. */
    method SubWorldDraw(traits: SubEntityTraits, worldDraw: PreviewDrawable -> bool) returns (r: bool, calls: seq<DrawCall>)
      modifies traits
      ensures calls == Painted(drawables, colour) + Painted(selectedDrawables, colourSelected)
      ensures r <==> (forall i :: 0 <= i < |drawables| ==> worldDraw(drawables[i])) &&
                     (forall i :: 0 <= i < |selectedDrawables| ==> worldDraw(selectedDrawables[i]))
      ensures traits.trueColor == ColorToHost(colourSelected) && traits.transparency == colourSelected.a
      ensures traits.visualStyle == old(traits.visualStyle) && traits.selectionFlags == old(traits.selectionFlags)
    {
      var _ := SetColor(traits, colour);
      var n, first := WorldDrawAll(drawables, traits, worldDraw);
      var _ := SetColor(traits, colourSelected);
      var m, second := WorldDrawAll(selectedDrawables, traits, worldDraw);
      NoFailures(drawables, worldDraw);
      NoFailures(selectedDrawables, worldDraw);
      calls := first + second;
      r := n + m == 0;
    }

    /** `SubViewportDraw`: the unselected pieces in the preview colour, then the selected ones in
        the selection colour, each list in insertion order. */
    method SubViewportDraw(traits: SubEntityTraits) returns (calls: seq<DrawCall>)
      modifies traits
      ensures calls == Painted(drawables, colour) + Painted(selectedDrawables, colourSelected)
      ensures traits.trueColor == ColorToHost(colourSelected) && traits.transparency == colourSelected.a
      ensures traits.visualStyle == old(traits.visualStyle) && traits.selectionFlags == old(traits.selectionFlags)
    {
      var _ := SetColor(traits, colour);
      var first := ViewportDrawAll(drawables, traits);
      var _ := SetColor(traits, colourSelected);
      var second := ViewportDrawAll(selectedDrawables, traits);
      calls := first + second;
    }

    /** `SubViewportDrawLogicalFlags`: no viewport-dependent flags. */
    function SubViewportDrawLogicalFlags(): (r: AttributesFlags)
      ensures r == DrawableNone
    {
      DrawableNone
    }

    /** `IsPersistent`: the preview is never a database-resident drawable. */
    function IsPersistent(): (r: bool)
      ensures !r
    {
      false
    }
  }

  /** Every piece added and not cleared since is drawn exactly once, in the order it was added
      within its list. */
  lemma PaintedMembers(ds: seq<PreviewDrawable>, sel: seq<PreviewDrawable>, colour: Argb, colourSelected: Argb, d: PreviewDrawable)
    ensures d in ds ==> DrawCall(d, ColorToHost(colour), colour.a) in Painted(ds, colour) + Painted(sel, colourSelected)
    ensures d in sel ==> DrawCall(d, ColorToHost(colourSelected), colourSelected.a) in Painted(ds, colour) + Painted(sel, colourSelected)
    ensures forall c :: c in Painted(ds, colour) + Painted(sel, colourSelected) ==> c.drawable in ds || c.drawable in sel
  {
    var all := Painted(ds, colour) + Painted(sel, colourSelected);
    if d in ds {
      var i :| 0 <= i < |ds| && ds[i] == d;
      assert all[i] == DrawCall(d, ColorToHost(colour), colour.a);
    }
    if d in sel {
      var i :| 0 <= i < |sel| && sel[i] == d;
      assert all[|ds| + i] == DrawCall(d, ColorToHost(colourSelected), colourSelected.a);
    }
    forall c | c in all
      ensures c.drawable in ds || c.drawable in sel
    {
      var k :| 0 <= k < |all| && all[k] == c;
      if k < |ds| {
        assert c.drawable == ds[k];
      } else {
        assert c.drawable == sel[k - |ds|];
      }
    }
  }
}
