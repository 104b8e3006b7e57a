/** The draw overrule of entities carrying a Grasshopper record
    (Grasshopper-BricsCAD/Visualization/GhDataOverrule.cs), and the snapshot of drawing traits it
    restores after drawing the cached preview. The host's own drawing of the entity is given as
    the result of the base overrule. */
module GhDataOverrule {
  import opened Wrappers
  import opened HostTypes
  import opened GrasshopperRecords
  import opened CompoundDrawables

  /** The exception of reading the record when the id does not open as one. */
  datatype Error = NullReference

  /** `TraitsState`: the colour, transparency, visual style and selection flags of a set of
      traits, captured when it is made and written back when it is disposed. */
  class TraitsState {
    const subEntityTraits: SubEntityTraits
    const entColor: Convert.EntityColor
    const transparency: int
    const visualStyle: ObjectId
    const selectionFlags: SelectionFlags

    /** The four values as the traits hold them now. */
    constructor (traits: SubEntityTraits)
      ensures subEntityTraits == traits
      ensures entColor == traits.trueColor && transparency == traits.transparency
      ensures visualStyle == traits.visualStyle && selectionFlags == traits.selectionFlags
    {
      subEntityTraits := traits;
      entColor := traits.trueColor;
      transparency := traits.transparency;
      visualStyle := traits.visualStyle;
      selectionFlags := traits.selectionFlags;
    }

    /** `Dispose`: exactly the four captured values are written back. */
    method Dispose()
      modifies subEntityTraits
      ensures subEntityTraits.trueColor == entColor && subEntityTraits.transparency == transparency
      ensures subEntityTraits.visualStyle == visualStyle && subEntityTraits.selectionFlags == selectionFlags
    {
      subEntityTraits.trueColor := entColor;
      subEntityTraits.transparency := transparency;
      subEntityTraits.visualStyle := visualStyle;
      subEntityTraits.selectionFlags := selectionFlags;
    }
  }

  /** `(byte)` of a `short`: the low eight bits. */
  function ByteOf(x: Int16): (b: UInt8)
    ensures 0 <= x < 0x100 ==> b == x
    ensures (b - x) % 0x100 == 0
  {
    x % 0x100
  }

  /** The record id of a drawn object: null when it is not an entity (`entity` is `None`) or has
      no record. */
  function RecordOf(entity: Option<ObjectId>, db: Database): ObjectId
    reads db
  {
    if entity.None? then NullId else db.GetGrasshopperData(entity)
  }

  /** The overrule has a live cached preview to consider: the object is an entity with a record
      and the drawable cached for it (`ghDrawable`) exists and is not disposed. */
  predicate HasPreview(entity: Option<ObjectId>, db: Database, ghDrawable: CompoundDrawable?)
    reads db, ghDrawable
  {
    !RecordOf(entity, db).IsNull() && ghDrawable != null && !ghDrawable.disposed
  }

  /** `WorldDraw`: an object without a live cached preview is drawn by the base overrule alone.
      Otherwise the record is read (an id that does not open as a record throws); when the record
      is visible the preview is drawn with the traits snapshotted and restored around it, and the
      host transparency is applied. The result is always the base overrule's. */
  method WorldDraw(entity: Option<ObjectId>, db: Database, ghDrawable: CompoundDrawable?, wd: SubEntityTraits,
                   visualStyleOf: string -> ObjectId, worldDraw: PreviewDrawable -> bool,
                   hostTransparency: Int16, baseResult: bool)
    returns (r: Result<bool, Error>, calls: seq<DrawCall>)
    modifies wd
    ensures !HasPreview(entity, db, ghDrawable) ==> r == Success(baseResult) && calls == [] && unchanged(wd)
    ensures HasPreview(entity, db, ghDrawable) && RecordOf(entity, db) !in db.records ==>
              r == Failure(NullReference) && calls == [] && unchanged(wd)
    ensures HasPreview(entity, db, ghDrawable) && RecordOf(entity, db) in db.records ==>
              r == Success(baseResult) &&
              if db.records[RecordOf(entity, db)].visible then
                calls == Painted(ghDrawable.drawables, ghDrawable.colour) +
                         Painted(ghDrawable.selectedDrawables, ghDrawable.colourSelected) &&
                wd.trueColor == old(wd.trueColor) && wd.visualStyle == old(wd.visualStyle) &&
                wd.selectionFlags == old(wd.selectionFlags) && wd.transparency == ByteOf(hostTransparency)
              else calls == [] && unchanged(wd)
  {
    calls := [];
    var id := RecordOf(entity, db);
    if id.IsNull() || ghDrawable == null || ghDrawable.disposed {
      return Success(baseResult), calls;
    }
    if id !in db.records {
      return Failure(NullReference), calls;
    }
    var needToDraw := db.records[id].visible;
    if needToDraw {
      var trSt := new TraitsState(wd);
      var _ := ghDrawable.SubSetAttributes(wd, visualStyleOf);
      var _, drawn := ghDrawable.SubWorldDraw(wd, worldDraw);
      calls := drawn;
      trSt.Dispose();
      wd.transparency := ByteOf(hostTransparency);
    }
    return Success(baseResult), calls;
  }
}
