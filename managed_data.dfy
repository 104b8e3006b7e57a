/** The .NET wrapper `GrasshopperData` (GrasshopperDataManaged/src/GrasshopperData.cpp): converts
    between boxed .NET values and `GhProperty`, and forwards the record operations to the native
    `DbGrasshopperData` it wraps. */
module ManagedGrasshopperData {
  import opened Wrappers
  import opened HostTypes
  import opened Properties
  import opened GrasshopperRecords

  /** A non-null .NET object as the wrapper sees it: a boxed Int32, Double, Boolean, String, Point3d
      or Vector3d, or an object of any other runtime type. A null reference is `None`. */
  datatype ClrObject = Boxed(value: Value) | OtherObject

  /** A non-null `System::Type`: one of the six runtime types above, or any other type. */
  datatype ClrType = ClrInt32 | ClrDouble | ClrBoolean | ClrString | ClrPoint3d | ClrVector3d | ClrOtherType

  /** The exception the conversions throw. */
  datatype Error = ArgumentNull

  /** The runtime type of a boxed value. */
  function RuntimeType(v: Value): ClrType {
    match v
    case IntValue(_) => ClrInt32
    case RealValue(_) => ClrDouble
    case BoolValue(_) => ClrBoolean
    case StringValue(_) => ClrString
    case PointValue(_) => ClrPoint3d
    case VectorValue(_) => ClrVector3d
  }

  /** `ToSystemObject`: null for an empty or unset property; otherwise the stored value boxed as the
      .NET type of the property's type. */
  function ToSystemObject(p: Prop): (r: Option<ClrObject>)
    requires Wf(p)
    ensures r.None? <==> !IsSet(p)
    ensures r.Some? ==> r.value.Boxed? && Some(r.value.value) == p.data && TypeOf(r.value.value) == p.ty
  {
    if IsEmpty(p) || !IsSet(p) then None
    else
      ValueOfExactlyForStoredType(p, p.ty);
      var v := ValueOf(p, p.ty);
      if v.None? then None else Some(Boxed(v.value))
  }

  /** `ToGhProperty(Object^)`: throws on null; a boxed value of the six runtime types gives a set
      property of the matching type holding it; any other object gives the empty property. */
  function ObjectToProperty(o: Option<ClrObject>): (r: Result<Prop, Error>)
    ensures r.Failure? <==> o.None?
    ensures r.Success? ==> Wf(r.value)
    ensures o.Some? && o.value.OtherObject? ==> r == Success(EmptyProp())
    ensures o.Some? && o.value.Boxed? ==>
              r.Success? && IsSet(r.value) && r.value.ty == TypeOf(o.value.value) &&
              r.value.data == Some(o.value.value)
  {
    match o
    case None => Failure(ArgumentNull)
    case Some(OtherObject) => Success(EmptyProp())
    case Some(Boxed(v)) => SetThenGet(OfType(TypeOf(v)), v); Success(OfValue(v))
  }

  /** `ToGhProperty(Type^)`: throws on null; each of the six runtime types gives an unset
      placeholder of the matching property type; any other type gives the empty property. */
  function TypeToProperty(t: Option<ClrType>): (r: Result<Prop, Error>)
    ensures r.Failure? <==> t.None?
    ensures r.Success? ==> Wf(r.value) && !IsSet(r.value)
    ensures t == Some(ClrOtherType) ==> r == Success(EmptyProp())
  {
    match t
    case None => Failure(ArgumentNull)
    case Some(ClrInt32) => Success(OfType(Int))
    case Some(ClrDouble) => Success(OfType(Real))
    case Some(ClrBoolean) => Success(OfType(Bool))
    case Some(ClrString) => Success(OfType(String))
    case Some(ClrPoint3d) => Success(OfType(Point))
    case Some(ClrVector3d) => Success(OfType(Vector))
    case Some(ClrOtherType) => Success(EmptyProp())
  }

  /** A set property converted to a .NET object and back is the same property. */
  lemma PropertyRoundTrip(p: Prop)
    requires Wf(p) && IsSet(p)
    ensures ToSystemObject(p).Some? && ObjectToProperty(ToSystemObject(p)) == Success(p)
  {
  }

  /** A boxed value converted to a property and back is the same object. */
  lemma ObjectRoundTrip(v: Value)
    ensures ObjectToProperty(Some(Boxed(v))).Success?
    ensures ToSystemObject(ObjectToProperty(Some(Boxed(v))).value) == Some(Boxed(v))
  {
  }

  /** The placeholder made from an object's runtime type has the type of the property made from
      the object itself, and accepts that object's value through `setValue`, giving that property. */
  lemma PlaceholderAcceptsValue(v: Value)
    ensures TypeToProperty(Some(RuntimeType(v))).Success?
    ensures var ph := TypeToProperty(Some(RuntimeType(v))).value;
            ph.ty == TypeOf(v) && WithValue(ph, v) == (true, ObjectToProperty(Some(Boxed(v))).value)
  {
  }

  /** The managed object: a handle to the native record it wraps. */
  class GrasshopperData {
    const imp: DbGrasshopperData

    ghost predicate Valid()
      reads this, imp
    {
      imp.Valid()
    }

    /** `GrasshopperData()`: wraps a fresh native record. */
    constructor ()
      ensures Valid() && fresh(imp)
      ensures imp.definition == "" && imp.props == [] && !imp.visible && imp.objectId.IsNull()
    {
      imp := new DbGrasshopperData("");
    }

    /** `GrasshopperData(String^)`: a fresh native record whose definition is then set (a null
        string sets the empty definition). */
    constructor WithDefinition(definition: Option<string>)
      ensures Valid() && fresh(imp)
      ensures imp.definition == definition.GetOr("") && imp.props == [] && !imp.visible && imp.objectId.IsNull()
    {
      imp := new DbGrasshopperData("");
      new;
      imp.SetDefinition(definition.GetOr(""));
    }

    /** `Definition::get`: null for the empty native string. */
    function Definition(): (r: Option<string>)
      reads this, imp
      ensures r.None? <==> imp.definition == ""
      ensures r.Some? ==> r.value == imp.definition
    {
      if imp.definition == "" then None else Some(imp.definition)
    }

    /** `Definition::set`. */
    method SetDefinition(value: Option<string>)
      requires Valid()
      modifies imp
      ensures Valid()
      ensures imp.definition == value.GetOr("") && imp.props == old(imp.props) && imp.visible == old(imp.visible)
      ensures value.Some? ==> Definition() == if value.value == "" then None else value
    {
      imp.SetDefinition(value.GetOr(""));
    }

    /** `IsVisible::set`. */
    method SetVisible(value: bool)
      requires Valid()
      modifies imp
      ensures Valid()
      ensures imp.visible == value && imp.props == old(imp.props) && imp.definition == old(imp.definition)
      ensures imp.objectId == old(imp.objectId)
    {
      imp.SetVisibility(value);
    }

    /** `GetProperty`: the stored property of that name as a .NET object; null when the name is
        absent or the property is unset. */
    function GetProperty(name: string): (r: Option<ClrObject>)
      requires Valid()
      reads this, imp
      ensures r.None? <==> name !in imp.Properties() || !IsSet(imp.Properties()[name])
      ensures r.Some? ==> r.value.Boxed? && imp.Properties()[name].data == Some(r.value.value)
    {
      var p := imp.GetProperty(name);
      assert Wf(p) by {
        if name in imp.Properties() {
          PropertiesWf(imp.props, name);
        }
      }
      ToSystemObject(p)
    }

    /** `UpdateProperty(String^, Object^)`: throws on a null value without touching the record;
        otherwise returns exactly what the native `updateProperty` returns. */
    method UpdateProperty(name: string, value: Option<ClrObject>) returns (r: Result<bool, Error>)
      requires Valid()
      modifies imp
      ensures Valid()
      ensures r.Failure? <==> value.None?
      ensures r.Failure? ==> imp.props == old(imp.props)
      ensures r.Success? ==> (r.value, imp.props) == Updated(old(imp.props), name, ObjectToProperty(value).value)
      ensures imp.definition == old(imp.definition) && imp.visible == old(imp.visible)
    {
      var p := ObjectToProperty(value);
      if p.Failure? {
        return Failure(p.error);
      }
      var ok := imp.UpdateProperty(name, p.value);
      return Success(ok);
    }

    /** `AddProperty(String^, Object^)`: throws on a null value without touching the record;
        otherwise returns exactly what the native `addProperty` returns. */
    method AddProperty(name: string, value: Option<ClrObject>) returns (r: Result<bool, Error>)
      requires Valid()
      modifies imp
      ensures Valid()
      ensures r.Failure? <==> value.None?
      ensures r.Failure? ==> imp.props == old(imp.props)
      ensures r.Success? ==> (r.value, imp.props) == Added(old(imp.props), name, ObjectToProperty(value).value)
      ensures imp.definition == old(imp.definition) && imp.visible == old(imp.visible)
      ensures imp.objectId == old(imp.objectId)
    {
      var p := ObjectToProperty(value);
      if p.Failure? {
        return Failure(p.error);
      }
      var ok := imp.AddProperty(name, p.value);
      return Success(ok);
    }

    /** `AddProperty(String^, Type^)`: adds an unset placeholder of the given runtime type; throws on
        a null type; a type outside the six is rejected by `addProperty` as empty. */
    method AddPropertyOfType(name: string, t: Option<ClrType>) returns (r: Result<bool, Error>)
      requires Valid()
      modifies imp
      ensures Valid()
      ensures r.Failure? <==> t.None?
      ensures r.Failure? ==> imp.props == old(imp.props)
      ensures r.Success? ==> (r.value, imp.props) == Added(old(imp.props), name, TypeToProperty(t).value)
      ensures t == Some(ClrOtherType) ==> r == Success(false) && imp.props == old(imp.props)
      ensures imp.definition == old(imp.definition) && imp.visible == old(imp.visible)
      ensures imp.objectId == old(imp.objectId)
    {
      var p := TypeToProperty(t);
      if p.Failure? {
        return Failure(p.error);
      }
      var ok := imp.AddProperty(name, p.value);
      return Success(ok);
    }

    /** `ClearProperties`. */
    method ClearProperties()
      requires Valid()
      modifies imp
      ensures Valid() && imp.Properties() == map[]
      ensures imp.definition == old(imp.definition) && imp.visible == old(imp.visible)
    {
      imp.ClearProperties();
    }
  }

  /** Every stored property of a record is well formed. */
  lemma PropertiesWf(ps: seq<Entry>, name: string)
    requires Sorted(ps) && Stored(ps) && name in MapOf(ps)
    ensures Wf(MapOf(ps)[name])
  {
    MapOfDomain(ps, name);
    var i :| 0 <= i < |ps| && ps[i].0 == name;
    MapOfAt(ps, i);
  }
}
