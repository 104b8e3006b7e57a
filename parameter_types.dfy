/** The Grasshopper value types of the plug-in (Grasshopper-BricsCAD/GH/ParameterTypes.cs): the
    geometry reference goo shared by Vertex, Edge, Face, BcCurve and BcEntity, and the two
    enumeration goos ElementType and PropCategory, with their archive reading and writing. */
module ParameterTypes {
  import opened Wrappers
  import opened HostTypes
  import opened DatabaseUtils
  import Paths

  /** One typed item of a Grasshopper archive chunk. */
  datatype ChunkItem = StringEntry(s: string) | Int64Entry(l: Int64) | ByteEntry(b: UInt8) | Int32Entry(i: Int32)

  /** A `GH_IWriter`/`GH_IReader` chunk: its items by name. */
  class GhChunk {
    var items: map<string, ChunkItem>

    constructor ()
      ensures items == map[]
    {
      items := map[];
    }

    /** `SetString`/`SetInt64`/`SetByte`/`SetInt32`: the item of that name becomes `x`. */
    method Set(name: string, x: ChunkItem)
      modifies this
      ensures items == old(items)[name := x]
    {
      items := items[name := x];
    }
  }

  /** `GetString`: the string item of that name; `None` when it is missing (the reader throws). */
  function ChunkString(m: map<string, ChunkItem>, name: string): (r: Option<string>)
    ensures r.Some? <==> name in m && m[name].StringEntry?
    ensures r.Some? ==> m[name] == StringEntry(r.value)
  {
    if name in m && m[name].StringEntry? then Some(m[name].s) else None
  }

  /** `GetInt64`. */
  function ChunkInt64(m: map<string, ChunkItem>, name: string): (r: Option<Int64>)
    ensures r.Some? <==> name in m && m[name].Int64Entry?
    ensures r.Some? ==> m[name] == Int64Entry(r.value)
  {
    if name in m && m[name].Int64Entry? then Some(m[name].l) else None
  }

  /** `GetByte`. */
  function ChunkByte(m: map<string, ChunkItem>, name: string): (r: Option<UInt8>)
    ensures r.Some? <==> name in m && m[name].ByteEntry?
    ensures r.Some? ==> m[name] == ByteEntry(r.value)
  {
    if name in m && m[name].ByteEntry? then Some(m[name].b) else None
  }

  /** `GetInt32`. */
  function ChunkInt32(m: map<string, ChunkItem>, name: string): (r: Option<Int32>)
    ensures r.Some? <==> name in m && m[name].Int32Entry?
    ensures r.Some? ==> m[name] == Int32Entry(r.value)
  {
    if name in m && m[name].Int32Entry? then Some(m[name].i) else None
  }

  /** The exception a reader throws for a missing item. */
  datatype ReadError = ItemMissing(name: string)

  /** A drawing as the goo sees it: its file name and its handle table (`TryGetObjectId`). */
  datatype HostDocument = HostDocument(name: string, handles: map<Handle, ObjectId>)

  /** The four items `Write` emits for a reference. */
  function ReferenceItems(docName: string, handle: Handle, t: SubentityType, index: Int32): map<string, ChunkItem> {
    map["BcDocName" := StringEntry(docName), "Handle" := Int64Entry(handle),
        "SubentityType" := ByteEntry(SubentityCode(t)), "Index" := Int32Entry(index)]
  }

  /** Adding the four items is setting them one after the other. */
  lemma ReferenceItemsUpdate(m: map<string, ChunkItem>, docName: string, handle: Handle, t: SubentityType, index: Int32)
    ensures m + ReferenceItems(docName, handle, t, index) ==
            m["BcDocName" := StringEntry(docName)]["Handle" := Int64Entry(handle)]
             ["SubentityType" := ByteEntry(SubentityCode(t))]["Index" := Int32Entry(index)]
  {
  }

  /** Reading the four items back gives the reference fields that were written. */
  lemma ReferenceItemsRead(m: map<string, ChunkItem>, docName: string, handle: Handle, t: SubentityType, index: Int32)
    requires WfSubentityType(t)
    ensures var w := m + ReferenceItems(docName, handle, t, index);
            && ChunkString(w, "BcDocName") == Some(docName)
            && ChunkInt64(w, "Handle") == Some(handle)
            && ChunkByte(w, "SubentityType").Some? && SubentityFromCode(ChunkByte(w, "SubentityType").value) == t
            && ChunkInt32(w, "Index") == Some(index)
  {
    SubentityCodeRoundTrip(t, 0);
  }

  /** The state of a geometry goo as a value (the items of the Grasshopper data trees). */
  datatype GeoRef = GeoRef(value: Fsp, bcDocName: Option<string>, persistentRef: Handle,
                           subentType: SubentityType, subentIndex: Int32)
  {
    predicate IsValid() { !IsNullObjectLink(value) }
  }

  /** The state `GH_GeometricGoo(reference, docName)` constructs: the handle of the first id, the
      subentity type and index, the document name without extension, and a null-link value. */
  function ReferenceOf(reference: Fsp, docName: string): (g: GeoRef)
    ensures !g.IsValid() && g.persistentRef == InsertId(reference).handle
    ensures g.subentType == reference.subType && g.subentIndex == reference.index
    ensures g.bcDocName == Some(Paths.FileNameWithoutExtension(docName))
  {
    GeoRef(Fsp([], SubNull, 0), Some(Paths.FileNameWithoutExtension(docName)), InsertId(reference).handle,
           reference.subType, reference.index)
  }

  /** `LoadGeometry(doc)`: a loaded value stays as it is; otherwise the document must be given and
      have the stored name, and the stored handle must resolve; the value then becomes the
      single-id path with the stored subentity type and index. Only the value ever changes. */
  function Loaded(g: GeoRef, doc: Option<HostDocument>): (r: (bool, GeoRef))
    ensures r.1.bcDocName == g.bcDocName && r.1.persistentRef == g.persistentRef
    ensures r.1.subentType == g.subentType && r.1.subentIndex == g.subentIndex
    ensures g.IsValid() ==> r == (true, g)
    ensures !g.IsValid() ==>
              (r.0 <==> doc.Some? && Some(Paths.FileNameWithoutExtension(doc.value.name)) == g.bcDocName &&
                        g.persistentRef in doc.value.handles)
    ensures !g.IsValid() && r.0 ==>
              r.1.value == Fsp([doc.value.handles[g.persistentRef]], g.subentType, g.subentIndex) && r.1.IsValid()
    ensures !r.0 ==> r.1 == g
    ensures r.0 <==> r.1.IsValid()
  {
    if g.IsValid() then (true, g)
    else if doc.None? || Some(Paths.FileNameWithoutExtension(doc.value.name)) != g.bcDocName then (false, g)
    else if g.persistentRef !in doc.value.handles then (false, g)
    else (true, g.(value := Fsp([doc.value.handles[g.persistentRef]], g.subentType, g.subentIndex)))
  }

  /** Loading is idempotent: a loaded goo loads again, unchanged, from any document. */
  lemma LoadedIdempotent(g: GeoRef, doc: Option<HostDocument>, other: Option<HostDocument>)
    requires Loaded(g, doc).0
    ensures Loaded(Loaded(g, doc).1, other) == (true, Loaded(g, doc).1)
  {
  }

  /** `GH_GeometricGoo`: the loaded path (`Value`) and the persistent reference it is reloaded from. */
  class GeometricGoo {
    var value: Fsp
    var bcDocName: Option<string>
    var persistentRef: Handle
    var subentType: SubentityType
    var subentIndex: Int32

    /** `GH_GeometricGoo()`: a null link with no reference. */
    constructor ()
      ensures IsNullObjectLink(value) && bcDocName.None? && persistentRef == 0
      ensures subentType == SubNull && subentIndex == 0
    {
      value, bcDocName, persistentRef, subentType, subentIndex := Fsp([], SubNull, 0), None, 0, SubNull, 0;
    }

    /** `GH_GeometricGoo(reference, docName)`: stores the handle of the first id, the subentity type
        and index, and the document name without extension; `Value` itself stays the null link
        until the geometry is loaded. */
    constructor FromReference(reference: Fsp, docName: string)
      ensures persistentRef == InsertId(reference).handle
      ensures subentType == reference.subType && subentIndex == reference.index
      ensures bcDocName == Some(Paths.FileNameWithoutExtension(docName))
      ensures IsNullObjectLink(value)
      ensures State() == ReferenceOf(reference, docName)
    {
      value := Fsp([], SubNull, 0);
      persistentRef := InsertId(reference).handle;
      subentType := reference.subType;
      subentIndex := reference.index;
      bcDocName := Some(Paths.FileNameWithoutExtension(docName));
    }

    /** `IsValid` (and `IsGeometryLoaded`): the value is not the null link. */
    predicate IsValid()
      reads this
    {
      !IsNullObjectLink(value)
    }

    /** `IsReferencedGeometry`. */
    predicate IsReferencedGeometry()
      reads this
    {
      persistentRef != 0
    }

    /** `ObjectId`: the insert id of the value. */
    function ObjectId(): ObjectId
      reads this
    {
      InsertId(value)
    }

    /** The goo's fields as a value. */
    function State(): GeoRef
      reads this
    {
      GeoRef(value, bcDocName, persistentRef, subentType, subentIndex)
    }

    /** `LoadGeometry(doc)`: the result and new state are those of `Loaded`. */
    method LoadGeometry(doc: Option<HostDocument>) returns (ok: bool)
      modifies this
      ensures (ok, State()) == Loaded(old(State()), doc)
    {
      if IsValid() {
        return true;
      }
      if doc.None? || Some(Paths.FileNameWithoutExtension(doc.value.name)) != bcDocName {
        return false;
      }
      if persistentRef !in doc.value.handles {
        return false;
      }
      var id := doc.value.handles[persistentRef];
      value := Fsp([id], subentType, subentIndex);
      return IsValid();
    }

    /** `LoadGeometry()`: valid already, or loaded from the linked document. */
    method LoadFromLinked(linked: Option<HostDocument>) returns (ok: bool)
      modifies this
      ensures old(IsValid()) ==> ok && value == old(value)
      ensures ok <==> IsValid()
      ensures bcDocName == old(bcDocName) && persistentRef == old(persistentRef)
    {
      if IsValid() {
        return true;
      }
      ok := LoadGeometry(linked);
    }

    /** `ToString`: "Face", "Edge", "Vertex" or "Entity" by the subentity type of the value, a space,
        and the text of the path (using the corrected path text: the null link gives "", where the
        code as written throws; see `ToStringAsWritten`). */
    function ToString(): (s: string)
      reads this
      ensures var k := KindWord(value.subType);
              |s| > |k| && s[..|k|] == k && s[|k|] == ' ' && s[|k| + 1..] == FspText(value)
    {
      KindWord(value.subType) + " " + FspText(value)
    }

    /** `ToString` as written: the path text throws for the null link, which is the value of every
        reference whose geometry is not loaded; elsewhere it is the text above. */
    function ToStringAsWritten(): (r: Result<string, Error>)
      reads this
      ensures r.Failure? <==> IsNullObjectLink(value)
      ensures r.Success? ==> r.value == ToString()
    {
      var t := FspTextAsWritten(value);
      if t.Failure? then Failure(t.error)
      else
        AsWrittenAgreesOffNullLink(value);
        Success(KindWord(value.subType) + " " + t.value)
    }

    /** `Write`: the four reference items, only when the document name is non-empty and the handle
        is not 0; always true. */
    method Write(w: GhChunk) returns (ok: bool)
      modifies w
      ensures ok
      ensures WriteGuard(bcDocName, persistentRef) ==>
                w.items == old(w.items) + ReferenceItems(bcDocName.value, persistentRef, subentType, subentIndex)
      ensures !WriteGuard(bcDocName, persistentRef) ==> w.items == old(w.items)
    {
      if bcDocName.Some? && bcDocName.value != "" && persistentRef != 0 {
        w.Set("BcDocName", StringEntry(bcDocName.value));
        w.Set("Handle", Int64Entry(persistentRef));
        w.Set("SubentityType", ByteEntry(SubentityCode(subentType)));
        w.Set("Index", Int32Entry(subentIndex));
        ReferenceItemsUpdate(old(w.items), bcDocName.value, persistentRef, subentType, subentIndex);
      }
      return true;
    }

    /** `Read`: the four reference fields, in order; a missing item throws, leaving the fields read
        before it assigned. `Value` is not touched. */
    method Read(r: GhChunk) returns (res: Result<bool, ReadError>)
      modifies this
      ensures value == old(value)
      ensures res.Success? <==>
                && ChunkString(r.items, "BcDocName").Some? && ChunkInt64(r.items, "Handle").Some?
                && ChunkByte(r.items, "SubentityType").Some? && ChunkInt32(r.items, "Index").Some?
      ensures res.Success? ==> res.value
      ensures bcDocName == (if ChunkString(r.items, "BcDocName").Some? then ChunkString(r.items, "BcDocName")
                            else old(bcDocName))
      ensures persistentRef ==
                (if ChunkString(r.items, "BcDocName").Some? && ChunkInt64(r.items, "Handle").Some?
                 then ChunkInt64(r.items, "Handle").value else old(persistentRef))
      ensures subentType ==
                (if ChunkString(r.items, "BcDocName").Some? && ChunkInt64(r.items, "Handle").Some? &&
                    ChunkByte(r.items, "SubentityType").Some?
                 then SubentityFromCode(ChunkByte(r.items, "SubentityType").value) else old(subentType))
      ensures subentIndex == (if res.Success? then ChunkInt32(r.items, "Index").value else old(subentIndex))
    {
      var s := ChunkString(r.items, "BcDocName");
      if s.None? {
        return Failure(ItemMissing("BcDocName"));
      }
      bcDocName := s;
      var h := ChunkInt64(r.items, "Handle");
      if h.None? {
        return Failure(ItemMissing("Handle"));
      }
      persistentRef := h.value;
      var b := ChunkByte(r.items, "SubentityType");
      if b.None? {
        return Failure(ItemMissing("SubentityType"));
      }
      subentType := SubentityFromCode(b.value);
      var i := ChunkInt32(r.items, "Index");
      if i.None? {
        return Failure(ItemMissing("Index"));
      }
      subentIndex := i.value;
      return Success(true);
    }
  }

  /** The condition under which `Write` emits the reference. */
  predicate WriteGuard(docName: Option<string>, handle: Handle) {
    docName.Some? && docName.value != "" && handle != 0
  }

  /** The word `ToString` starts with. */
  function KindWord(t: SubentityType): (w: string)
    ensures |w| > 0
  {
    match t
    case SubFace => "Face"
    case SubEdge => "Edge"
    case SubVertex => "Vertex"
    case _ => "Entity"
  }

  /** A goo written (when the guard holds) and read back into any goo gets the same reference. */
  lemma ReferenceRoundTrip(m: map<string, ChunkItem>, docName: string, handle: Handle, t: SubentityType, index: Int32)
    requires WriteGuard(Some(docName), handle) && WfSubentityType(t)
    ensures var w := m + ReferenceItems(docName, handle, t, index);
            && ChunkString(w, "BcDocName").Some? && ChunkInt64(w, "Handle").Some?
            && ChunkByte(w, "SubentityType").Some? && ChunkInt32(w, "Index").Some?
            && ChunkString(w, "BcDocName") == Some(docName) && ChunkInt64(w, "Handle").value == handle
            && SubentityFromCode(ChunkByte(w, "SubentityType").value) == t && ChunkInt32(w, "Index").value == index
  {
    ReferenceItemsRead(m, docName, handle, t, index);
  }

  /** `ElementType` and `PropCategory`: an enumeration value of the BIM library, stored in archives
      as an int under a fixed key. The set of defined enumeration values belongs to the library and
      is a constructor parameter. */
  class EnumGoo {
    const key: string
    const defined: set<Int32>
    var value: Int32

    /** `ElementType()`: NoBuildingElement. */
    constructor ElementType(noBuildingElement: Int32, definedValues: set<Int32>)
      ensures key == "ElementType" && defined == definedValues && value == noBuildingElement
    {
      key, defined, value := "ElementType", definedValues, noBuildingElement;
    }

    /** `PropCategory()`: Bricsys. */
    constructor PropCategory(bricsys: Int32, definedValues: set<Int32>)
      ensures key == "Category" && defined == definedValues && value == bricsys
    {
      key, defined, value := "Category", definedValues, bricsys;
    }

    /** The copy constructor (`Duplicate`). */
    constructor Copy(other: EnumGoo)
      ensures key == other.key && defined == other.defined && value == other.value
    {
      key, defined, value := other.key, other.defined, other.value;
    }

    /** `CastFrom`: `source` is null (`None`), not convertible to an int (`Some(None)`), or an int.
        Only a defined enumeration value is taken; otherwise false with `Value` unchanged. */
    method CastFrom(source: Option<Option<Int32>>) returns (ok: bool)
      modifies this
      ensures ok <==> source.Some? && source.value.Some? && source.value.value in defined
      ensures ok ==> value == source.value.value
      ensures !ok ==> value == old(value)
    {
      if source.Some? {
        if source.value.Some? {
          if source.value.value in defined {
            value := source.value.value;
            return true;
          }
        }
      }
      return false;
    }

    /** `Write`: the value as an int under the key; always true. */
    method Write(w: GhChunk) returns (ok: bool)
      modifies w
      ensures ok && w.items == old(w.items)[key := Int32Entry(value)]
    {
      w.Set(key, Int32Entry(value));
      return true;
    }

    /** `Read`: the int under the key becomes the value, defined or not; a missing item throws. */
    method Read(r: GhChunk) returns (res: Result<bool, ReadError>)
      modifies this
      ensures res.Success? <==> ChunkInt32(r.items, key).Some?
      ensures res.Success? ==> res.value && value == ChunkInt32(r.items, key).value
      ensures res.Failure? ==> value == old(value)
    {
      var v := ChunkInt32(r.items, key);
      if v.None? {
        return Failure(ItemMissing(key));
      }
      value := v.value;
      return Success(true);
    }
  }

  /** An enumeration value written under a key reads back unchanged. */
  lemma EnumRoundTrip(m: map<string, ChunkItem>, key: string, v: Int32)
    ensures ChunkInt32(m[key := Int32Entry(v)], key) == Some(v)
  {
  }
}
