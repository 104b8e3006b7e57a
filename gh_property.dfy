/** GhProperty (GrasshopperData/src/GhProperty.cpp): a tagged value stored on a Grasshopper record.
    The property value is `Prop`; the class `GhProperty` holds the three fields of the C++ `Impl`
    (type, data, is-set flag) and is mutated by `SetValue` and `DwgInFields`. */
module Properties {
  import opened Wrappers
  import opened HostTypes
  import opened Filer

  /** `GhProperty::Type`, stored as one unsigned byte. */
  datatype PropType = Empty | Int | Real | Bool | String | Point | Vector

  /** The enumerator value of a type (eEmpty = 0 ... eVector = 6). */
  function TypeCode(t: PropType): (b: UInt8)
    ensures b < 7
    ensures b == 0 <==> t == Empty
  {
    match t
    case Empty => 0
    case Int => 1
    case Real => 2
    case Bool => 3
    case String => 4
    case Point => 5
    case Vector => 6
  }

  /** The type whose enumerator value is `b`, if there is one. */
  function TypeFromCode(b: UInt8): (r: Option<PropType>)
    ensures r.Some? <==> b < 7
    ensures r.Some? ==> TypeCode(r.value) == b
  {
    if b == 0 then Some(Empty)
    else if b == 1 then Some(Int)
    else if b == 2 then Some(Real)
    else if b == 3 then Some(Bool)
    else if b == 4 then Some(String)
    else if b == 5 then Some(Point)
    else if b == 6 then Some(Vector)
    else None
  }

  /** A value of one of the six supported C++ types (int, double, bool, AcString, AcGePoint3d, AcGeVector3d). */
  datatype Value =
    | IntValue(i: Int32)
    | RealValue(r: real)
    | BoolValue(b: bool)
    | StringValue(s: string)
    | PointValue(p: Point3)
    | VectorValue(v: Vector3)

  /** `TypeInfo<T>::Value`: the property type of a C++ value type. */
  function TypeOf(v: Value): (t: PropType)
    ensures t != Empty
  {
    match v
    case IntValue(_) => Int
    case RealValue(_) => Real
    case BoolValue(_) => Bool
    case StringValue(_) => String
    case PointValue(_) => Point
    case VectorValue(_) => Vector
  }

  /** `PropertyDataBase::create`: default-constructed data for a type, none for `eEmpty`.
      (For int, double and bool the C++ data is left uninitialised; the model uses 0, 0.0 and false.) */
  function NewData(t: PropType): (d: Option<Value>)
    ensures d.None? <==> t == Empty
    ensures d.Some? ==> TypeOf(d.value) == t
  {
    match t
    case Empty => None
    case Int => Some(IntValue(0))
    case Real => Some(RealValue(0.0))
    case Bool => Some(BoolValue(false))
    case String => Some(StringValue(""))
    case Point => Some(PointValue(Point3(0.0, 0.0, 0.0)))
    case Vector => Some(VectorValue(Vector3(0.0, 0.0, 0.0)))
  }

  /** The state of a property: its type, its data object (absent for `eEmpty`) and its is-set flag. */
  datatype Prop = Prop(ty: PropType, data: Option<Value>, setFlag: bool)

  /** The invariant every constructor establishes and every operation keeps:
      data exists exactly for non-empty types, has the property's type, and an empty property is never set. */
  ghost predicate Wf(p: Prop) {
    && (p.data.None? <==> p.ty == Empty)
    && (p.data.Some? ==> TypeOf(p.data.value) == p.ty)
    && (p.ty == Empty ==> !p.setFlag)
  }

  /** `GhProperty::isEmpty`. */
  predicate IsEmpty(p: Prop) {
    p.ty == Empty
  }

  /** `GhProperty::isSet`: never true for an empty property. */
  predicate IsSet(p: Prop) {
    !IsEmpty(p) && p.setFlag
  }

  /** `GhProperty()`: the empty property. */
  function EmptyProp(): (p: Prop)
    ensures Wf(p) && IsEmpty(p) && !IsSet(p) && p.data.None?
  {
    Prop(Empty, None, false)
  }

  /** `GhProperty(Type)`: a placeholder of that type, not set, with data allocated unless the type is empty. */
  function OfType(t: PropType): (p: Prop)
    ensures Wf(p) && p.ty == t && !IsSet(p)
    ensures p.data.Some? <==> t != Empty
  {
    Prop(t, NewData(t), false)
  }

  /** `Impl::setValue<T>`: succeeds exactly when data exists and `T` is the stored type;
      success stores the value and sets the flag, failure changes nothing. */
  function WithValue(p: Prop, v: Value): (r: (bool, Prop))
    ensures r.0 <==> p.data.Some? && p.ty == TypeOf(v)
    ensures r.0 ==> r.1.ty == p.ty && r.1.setFlag && r.1.data == Some(v)
    ensures !r.0 ==> r.1 == p
    ensures Wf(p) ==> Wf(r.1)
  {
    if p.data.None? || p.ty != TypeOf(v) then (false, p)
    else (true, Prop(p.ty, Some(v), true))
  }

  /** `Impl::getValue<T>`, for the requested type `t` of one of the six overloads.
      As written it fails when the data is both unset and missing, or when the types differ. */
  function ValueOf(p: Prop, t: PropType): (r: Option<Value>)
    requires t != Empty
    ensures r.Some? ==> p.ty == t && r == p.data
  {
    if (!p.setFlag && p.data.None?) || p.ty != t then None else p.data
  }

  /** `GhProperty(T)`: a property of T's type holding the value, with the flag set. */
  function OfValue(v: Value): (p: Prop)
    ensures Wf(p) && p.ty == TypeOf(v) && IsSet(p)
    ensures ValueOf(p, TypeOf(v)) == Some(v)
  {
    WithValue(OfType(TypeOf(v)), v).1
  }

  /** Reading does not depend on the flag: for a well-formed property `getValue` succeeds
      exactly when the requested type is the stored type, set or not. */
  lemma ValueOfExactlyForStoredType(p: Prop, t: PropType)
    requires Wf(p) && t != Empty
    ensures ValueOf(p, t).Some? <==> p.ty == t
    ensures ValueOf(p, t).Some? ==> TypeOf(ValueOf(p, t).value) == t
  {
  }

  /** A successful `setValue` is observed by the next `getValue` of the same type. */
  lemma SetThenGet(p: Prop, v: Value)
    requires Wf(p)
    ensures WithValue(p, v).0 <==> p.ty == TypeOf(v)
    ensures WithValue(p, v).0 ==> ValueOf(WithValue(p, v).1, TypeOf(v)) == Some(v) && IsSet(WithValue(p, v).1)
  {
  }

  /** What survives a write/read cycle: the type, the flag and, when set, the value. */
  predicate Equivalent(p: Prop, q: Prop) {
    p.ty == q.ty && p.setFlag == q.setFlag && (p.setFlag ==> p.data == q.data)
  }

  /** `PropertyData<T>::dwgOutFields`: the payload item of a value. */
  function Payload(v: Value): FilerItem {
    match v
    case IntValue(i) => Int32Item(i)
    case RealValue(r) => RealItem(r)
    case BoolValue(b) => BoolItem(b)
    case StringValue(s) => StringItem(s)
    case PointValue(pt) => PointItem(pt)
    case VectorValue(vec) => VectorItem(vec)
  }

  /** `PropertyData<T>::dwgInFields`: the value read back from a payload item by data of type `t`. */
  function PayloadValue(t: PropType, x: FilerItem): (r: Option<Value>)
    ensures r.Some? ==> TypeOf(r.value) == t && Payload(r.value) == x
  {
    match (t, x)
    case (Int, Int32Item(i)) => Some(IntValue(i))
    case (Real, RealItem(r)) => Some(RealValue(r))
    case (Bool, BoolItem(b)) => Some(BoolValue(b))
    case (String, StringItem(s)) => Some(StringValue(s))
    case (Point, PointItem(pt)) => Some(PointValue(pt))
    case (Vector, VectorItem(vec)) => Some(VectorValue(vec))
    case _ => None
  }

  /** `Impl::dwgOutFields`: the type byte, the flag, and the payload only when set. */
  function Encode(p: Prop): (s: seq<FilerItem>)
    requires Wf(p)
    ensures |s| == if p.setFlag then 3 else 2
    ensures s[0] == UInt8Item(TypeCode(p.ty)) && s[1] == BoolItem(p.setFlag)
  {
    [UInt8Item(TypeCode(p.ty)), BoolItem(p.setFlag)] + (if p.setFlag then [Payload(p.data.value)] else [])
  }

  /** `Impl::dwgInFields` from position `pos`: the rebuilt property and the position after it,
      or None when an item is missing or of the wrong kind, when the type byte is out of range,
      or when an empty property claims to be set. */
  function Decode(s: seq<FilerItem>, pos: nat): Option<(Prop, nat)>
  {
    if pos + 2 > |s| || !s[pos].UInt8Item? || !s[pos + 1].BoolItem? then None
    else
      var t := TypeFromCode(s[pos].byte);
      if t.None? then None
      else if !s[pos + 1].flag then Some((OfType(t.value), pos + 2))
      else if t.value == Empty || pos + 2 >= |s| then None
      else
        var v := PayloadValue(t.value, s[pos + 2]);
        if v.None? then None else Some((Prop(t.value, v, true), pos + 3))
  }

  /** A property written by `dwgOutFields` and read back by `dwgInFields` keeps its type,
      its flag and, when set, its value; the reader stops right after it. */
  lemma RoundTrip(p: Prop, s: seq<FilerItem>, pos: nat)
    requires Wf(p)
    requires pos + |Encode(p)| <= |s| && s[pos..pos + |Encode(p)|] == Encode(p)
    ensures Decode(s, pos).Some?
    ensures Decode(s, pos).value.1 == pos + |Encode(p)|
    ensures Equivalent(Decode(s, pos).value.0, p)
    ensures Wf(Decode(s, pos).value.0)
  {
    var e := Encode(p);
    assert s[pos] == e[0] && s[pos + 1] == e[1];
    if p.setFlag {
      assert s[pos + 2] == e[2] == Payload(p.data.value);
      match p.data.value
      case IntValue(_) =>
      case RealValue(_) =>
      case BoolValue(_) =>
      case StringValue(_) =>
      case PointValue(_) =>
      case VectorValue(_) =>
    }
  }

  /** Every property `dwgInFields` can build satisfies the invariant. */
  lemma DecodeWf(s: seq<FilerItem>, pos: nat)
    requires Decode(s, pos).Some?
    ensures Wf(Decode(s, pos).value.0) && pos < Decode(s, pos).value.1 <= |s|
  {
  }

  /** The C++ `GhProperty` object (through its `Impl`). */
  class GhProperty {
    var ty: PropType
    var data: Option<Value>
    var setFlag: bool

    function Snapshot(): Prop
      reads this
    {
      Prop(ty, data, setFlag)
    }

    ghost predicate Valid()
      reads this
    {
      Wf(Snapshot())
    }

    /** `GhProperty()`. */
    constructor ()
      ensures Valid() && Snapshot() == EmptyProp()
    {
      ty, data, setFlag := Empty, None, false;
    }

    /** `GhProperty(Type)`. */
    constructor Placeholder(t: PropType)
      ensures Valid() && Snapshot() == OfType(t)
    {
      ty, data, setFlag := t, NewData(t), false;
    }

    /** `GhProperty(T)` for each supported T: an `Impl` of T's type followed by `setValue`. */
    constructor FromValue(v: Value)
      ensures Valid() && Snapshot() == OfValue(v)
    {
      ty, data, setFlag := TypeOf(v), NewData(TypeOf(v)), false;
      new;
      var _ := SetValue(v);
    }

    /** The copy constructor: a deep clone of type, flag and data. */
    constructor Copy(other: GhProperty)
      requires other.Valid()
      ensures Valid() && Snapshot() == other.Snapshot()
    {
      ty, data, setFlag := other.ty, other.data, other.setFlag;
    }

    /** `operator=`: replaces this property by a deep clone of `other`. */
    method Assign(other: GhProperty)
      requires other.Valid()
      modifies this
      ensures Valid() && Snapshot() == old(other.Snapshot())
    {
      ty, data, setFlag := other.ty, other.data, other.setFlag;
    }

    method SetValue(v: Value) returns (ok: bool)
      requires Valid()
      modifies this
      ensures Valid()
      ensures (ok, Snapshot()) == WithValue(old(Snapshot()), v)
    {
      if data.None? || ty != TypeOf(v) {
        return false;
      }
      setFlag := true;
      data := Some(v);
      ok := true;
    }

    method DwgOutFields(f: DwgFiler)
      requires Valid() && f.Valid()
      modifies f
      ensures f.Valid() && f.items == old(f.items) + Encode(Snapshot())
      ensures f.pos == old(f.pos) && f.ok == old(f.ok)
    {
      f.Write(UInt8Item(TypeCode(ty)));
      f.Write(BoolItem(setFlag));
      if setFlag {
        f.Write(Payload(data.value));
      }
    }

    /** Rebuilds the property from the filer. On a malformed stream the filer records an error
        and the property is left empty. */
    method DwgInFields(f: DwgFiler)
      requires f.Valid()
      modifies this, f
      ensures Valid() && f.Valid() && f.items == old(f.items)
      ensures Decode(f.items, old(f.pos)).Some? ==>
                Snapshot() == Decode(f.items, old(f.pos)).value.0 &&
                f.pos == Decode(f.items, old(f.pos)).value.1 && f.ok == old(f.ok)
      ensures Decode(f.items, old(f.pos)).None? ==> Snapshot() == EmptyProp() && !f.ok
    {
      ty, data, setFlag := Empty, None, false;
      var t := f.Read();
      var s := f.Read();
      if t.None? || !t.value.UInt8Item? || s.None? || !s.value.BoolItem? || TypeFromCode(t.value.byte).None? {
        f.Fail();
        return;
      }
      var newType := TypeFromCode(t.value.byte).value;
      if !s.value.flag {
        ty, data := newType, NewData(newType);
        return;
      }
      if newType == Empty {
        f.Fail();
        return;
      }
      var x := f.Read();
      if x.None? || PayloadValue(newType, x.value).None? {
        f.Fail();
        return;
      }
      ty, data, setFlag := newType, PayloadValue(newType, x.value), true;
    }
  }
}
