/** GrasshopperDataOPM (GrasshopperData/src/GrasshopperOPMExtension.cpp): the Properties-palette
    extension that shows a record's definition, visibility and stored properties as dynamic
    properties of the host entity. Property ids are handed out by a name registry; values travel
    between the palette and the record as variants. */
module OpmExtension {
  import opened Wrappers
  import opened HostTypes
  import opened Properties
  import opened GrasshopperRecords

  /** `AcOpmDataType`, as far as the extension uses it. */
  datatype OpmType =
    | OpmNone
    | OpmInteger
    | OpmDouble
    | OpmBool
    | OpmString
    | OpmPoint3d
    | OpmVector3d
    | OpmReadOnlyString
    | OpmCheckBox

  /** An `AcOPMVariant`: one of the six kinds the extension understands, or any other kind. */
  datatype Variant = Supported(value: Value) | Unsupported

  /** `toOpm(GhProperty::Type)`: the palette type of each of the six value types; `eEmpty` has none
      (the C++ asserts and returns `opmTypeNone`). */
  function ToOpmType(t: PropType): (r: OpmType)
    ensures r == OpmNone <==> t == Empty
  {
    match t
    case Empty => OpmNone
    case Int => OpmInteger
    case Real => OpmDouble
    case Bool => OpmBool
    case String => OpmString
    case Point => OpmPoint3d
    case Vector => OpmVector3d
  }

  /** Distinct value types get distinct palette types. */
  lemma ToOpmTypeInjective(s: PropType, t: PropType)
    requires ToOpmType(s) == ToOpmType(t)
    ensures s == t
  {
  }

  /** `toOpm(const GhProperty&, AcOPMVariant&)`: `getValue` with the stored type; fails for an empty
      property. An unset property yields its default data. */
  function ToOpmValue(p: Prop): (r: Option<Variant>)
    requires Wf(p)
    ensures r.Some? <==> !IsEmpty(p)
    ensures r.Some? ==> r.value.Supported? && TypeOf(r.value.value) == p.ty && Some(r.value.value) == p.data
  {
    if IsEmpty(p) then None
    else
      ValueOfExactlyForStoredType(p, p.ty);
      Some(Supported(ValueOf(p, p.ty).value))
  }

  /** `toGh(const AcOPMVariant&)`: a placeholder of the variant's type with the value set into it;
      any other kind gives the empty property. */
  function ToGh(v: Variant): (p: Prop)
    ensures Wf(p)
    ensures v.Unsupported? ==> p == EmptyProp()
    ensures v.Supported? ==> p == OfValue(v.value) && IsSet(p) && p.ty == TypeOf(v.value)
  {
    match v
    case Unsupported => EmptyProp()
    case Supported(x) => WithValue(OfType(TypeOf(x)), x).1
  }

  /** A value shown in the palette and written back unchanged gives a set property of the same
      type holding the same value. */
  lemma PaletteRoundTrip(p: Prop)
    requires Wf(p) && !IsEmpty(p)
    ensures ToOpmValue(p).Some?
    ensures var q := ToGh(ToOpmValue(p).value); q.ty == p.ty && IsSet(q) && q.data == p.data
  {
  }

  /** A variant written into a property and read back is the same variant. */
  lemma VariantRoundTrip(v: Variant)
    requires v.Supported?
    ensures ToOpmValue(ToGh(v)) == Some(v)
  {
  }

  /** One entry of the dynamic property map: name, id and palette type. */
  datatype PropertyEntry = PropertyEntry(name: string, id: int, opmType: OpmType)

  /** The palette name of the definition entry. */
  const DefinitionName: string := "Definition"

  /** The palette name of the visibility entry. */
  const VisibilityName: string := "Gh-visibility"

  /** The extension object: the fixed ids of the two built-in entries and the registry that gives
      every stored property name an id of its own (`m_nameToId`, `m_idToName` and the counter). */
  class GrasshopperDataOpm {
    /** `AcOPMPROP_DefinitionProp` (the host's first user property id). */
    const definitionProp: int
    /** `AcOPMPROP_VisibilityProp` (= `AcOPMPROP_LastProp`). */
    const visibilityProp: int
    var nameToId: map<string, int>
    var idToName: map<int, string>
    /** The last id handed out (the function-local static `curId`). */
    var curId: int

    /** The two maps are inverse to each other and every registered id lies above the
        built-in ids and at most at the counter. */
    ghost predicate Valid()
      reads this
    {
      && visibilityProp == definitionProp + 1
      && curId >= visibilityProp
      && (forall n :: n in nameToId ==> visibilityProp < nameToId[n] <= curId)
      && (forall n :: n in nameToId ==> nameToId[n] in idToName && idToName[nameToId[n]] == n)
      && (forall i :: i in idToName ==> idToName[i] in nameToId && nameToId[idToName[i]] == i)
    }

    constructor (firstUserProp: int)
      ensures Valid() && definitionProp == firstUserProp && visibilityProp == firstUserProp + 1
      ensures nameToId == map[] && idToName == map[] && curId == visibilityProp
    {
      definitionProp := firstUserProp;
      visibilityProp := firstUserProp + 1;
      nameToId, idToName := map[], map[];
      curId := firstUserProp + 1;
    }

    /** `getIdFromName`: the id already given to `name`, or the next id of the counter, remembered
        in both directions. */
    method GetIdFromName(name: string) returns (id: int)
      requires Valid()
      modifies this
      ensures Valid()
      ensures name in old(nameToId) ==>
                id == old(nameToId)[name] && nameToId == old(nameToId) && idToName == old(idToName) &&
                curId == old(curId)
      ensures name !in old(nameToId) ==>
                id == old(curId) + 1 && curId == id &&
                nameToId == old(nameToId)[name := id] && idToName == old(idToName)[id := name]
      ensures name in nameToId && nameToId[name] == id
      ensures id > visibilityProp && id != definitionProp
      ensures GetNameFromId(id) == name
      ensures forall i :: i in old(idToName) ==> i in idToName && idToName[i] == old(idToName)[i]
    {
      if name in nameToId {
        return nameToId[name];
      }
      curId := curId + 1;
      nameToId := nameToId[name := curId];
      idToName := idToName[curId := name];
      id := curId;
    }

    /** `getNameFromId`: the registered name, or the empty string for an unknown id. */
    function GetNameFromId(id: int): (name: string)
      reads this
      ensures id in idToName ==> name == idToName[id]
      ensures id !in idToName ==> name == ""
    {
      if id in idToName then idToName[id] else ""
    }

    /** The built-in ids never name a stored property. */
    lemma BuiltInIdsUnregistered()
      requires Valid()
      ensures definitionProp !in idToName && visibilityProp !in idToName
    {
    }

    /** `getDynamicPropertyMap`: no record gives success with no entries; a record that cannot be
        opened gives failure; otherwise Definition, Gh-visibility and one entry per stored property,
        in name order, each with the registry id of its name. */
    method GetDynamicPropertyMap(db: Database, entity: Option<ObjectId>) returns (ok: bool, entries: seq<PropertyEntry>)
      requires Valid() && db.Valid()
      requires forall rid :: rid in db.records ==> db.records[rid].Valid()
      modifies this
      ensures Valid()
      ensures db.GetGrasshopperData(entity).IsNull() ==> ok && entries == []
      ensures !db.GetGrasshopperData(entity).IsNull() && db.GetGrasshopperData(entity) !in db.records ==>
                !ok && entries == []
      ensures !db.GetGrasshopperData(entity).IsNull() && db.GetGrasshopperData(entity) in db.records ==>
                var props := db.records[db.GetGrasshopperData(entity)].props;
                && ok && |entries| == 2 + |props|
                && entries[0] == PropertyEntry(DefinitionName, definitionProp, OpmReadOnlyString)
                && entries[1] == PropertyEntry(VisibilityName, visibilityProp, OpmCheckBox)
                && forall i :: 0 <= i < |props| ==>
                     entries[2 + i].name == props[i].0 && entries[2 + i].opmType == ToOpmType(props[i].1.ty) &&
                     GetNameFromId(entries[2 + i].id) == props[i].0
      ensures forall n :: n in old(nameToId) ==> n in nameToId && nameToId[n] == old(nameToId)[n]
    {
      var rid := db.GetGrasshopperData(entity);
      if rid.IsNull() {
        return true, [];
      }
      if rid !in db.records {
        return false, [];
      }
      var data := db.records[rid];
      var types := data.GetPropertiesTypes();
      var rest := RegisterEntries(types);
      ok := true;
      entries := [PropertyEntry(DefinitionName, definitionProp, OpmReadOnlyString),
                  PropertyEntry(VisibilityName, visibilityProp, OpmCheckBox)] + rest;
      assert |entries| == 2 + |data.props|;
      assert forall j :: 0 <= j < |data.props| ==>
        entries[2 + j].name == data.props[j].0 && entries[2 + j].opmType == ToOpmType(data.props[j].1.ty) &&
        GetNameFromId(entries[2 + j].id) == data.props[j].0 by {
        forall j | 0 <= j < |data.props|
          ensures entries[2 + j].name == data.props[j].0 && entries[2 + j].opmType == ToOpmType(data.props[j].1.ty) &&
                  GetNameFromId(entries[2 + j].id) == data.props[j].0
        {
          assert entries[2 + j] == rest[j];
          assert types[j] == (data.props[j].0, data.props[j].1.ty);
        }
      }
    }

    /** The loop of `getDynamicPropertyMap`: one entry per (name, type) pair, in order, each with the
        registry id of its name. */
    method RegisterEntries(types: seq<(string, PropType)>) returns (entries: seq<PropertyEntry>)
      requires Valid()
      modifies this
      ensures Valid()
      ensures |entries| == |types|
      ensures forall j :: 0 <= j < |types| ==>
                entries[j].name == types[j].0 && entries[j].opmType == ToOpmType(types[j].1) &&
                entries[j].id in idToName && idToName[entries[j].id] == types[j].0
      ensures forall n :: n in old(nameToId) ==> n in nameToId && nameToId[n] == old(nameToId)[n]
    {
      entries := [];
      var i := 0;
      while i < |types|
        invariant 0 <= i <= |types| && Valid()
        invariant |entries| == i
        invariant forall j :: 0 <= j < i ==>
                    entries[j].name == types[j].0 && entries[j].opmType == ToOpmType(types[j].1) &&
                    entries[j].id in idToName && idToName[entries[j].id] == types[j].0
        invariant forall n :: n in old(nameToId) ==> n in nameToId && nameToId[n] == old(nameToId)[n]
      {
        var id := GetIdFromName(types[i].0);
        entries := entries + [PropertyEntry(types[i].0, id, ToOpmType(types[i].1))];
        i := i + 1;
      }
    }

    /** `getPropertyValue`: the definition string, the visibility flag, or the stored property of
        the registered name shown as a variant; fails when there is no record, when it cannot be
        opened, for an unknown id, and for a name the record does not hold. */
    method GetPropertyValue(db: Database, entity: Option<ObjectId>, propertyId: int) returns (ok: bool, value: Variant)
      requires Valid() && db.Valid()
      requires forall rid :: rid in db.records ==> db.records[rid].Valid()
      ensures var rid := db.GetGrasshopperData(entity);
              ok <==> !rid.IsNull() && rid in db.records &&
                      (propertyId == definitionProp || propertyId == visibilityProp ||
                       (GetNameFromId(propertyId) != "" &&
                        GetNameFromId(propertyId) in db.records[rid].Properties()))
      ensures ok && propertyId == definitionProp ==>
                value == Supported(StringValue(db.records[db.GetGrasshopperData(entity)].definition))
      ensures ok && propertyId == visibilityProp ==>
                value == Supported(BoolValue(db.records[db.GetGrasshopperData(entity)].visible))
      ensures ok && propertyId != definitionProp && propertyId != visibilityProp ==>
                var p := db.records[db.GetGrasshopperData(entity)].Properties()[GetNameFromId(propertyId)];
                value.Supported? && Some(value.value) == p.data
    {
      var rid := db.GetGrasshopperData(entity);
      if rid.IsNull() || rid !in db.records {
        return false, Unsupported;
      }
      var data := db.records[rid];
      if propertyId == definitionProp {
        return true, Supported(StringValue(data.definition));
      }
      if propertyId == visibilityProp {
        return true, Supported(BoolValue(data.visible));
      }
      var name := GetNameFromId(propertyId);
      if name == "" {
        return false, Unsupported;
      }
      var p := data.GetProperty(name);
      var v := ToOpmValue(p);
      if v.None? {
        return false, Unsupported;
      }
      return true, v.value;
    }

    /** `setPropertyValue`: a string sets the definition, a bool the visibility; any other id is
        resolved by name and goes to `updateProperty` with the variant converted by `toGh`. */
    method SetPropertyValue(db: Database, entity: Option<ObjectId>, propertyId: int, value: Variant) returns (ok: bool)
      requires Valid() && db.Valid()
      requires forall rid :: rid in db.records ==> db.records[rid].Valid()
      modifies set rid | rid in db.records :: db.records[rid]
      ensures forall rid :: rid in db.records ==> db.records[rid].Valid()
      ensures var rid := db.GetGrasshopperData(entity);
              rid.IsNull() || rid !in db.records ==> !ok
      ensures var rid := db.GetGrasshopperData(entity);
              !rid.IsNull() && rid in db.records ==>
                var data := db.records[rid];
                var name := GetNameFromId(propertyId);
                && (propertyId == definitionProp && value.Supported? && value.value.StringValue? ==>
                      ok && data.definition == value.value.s && data.visible == old(data.visible) && data.props == old(data.props))
                && (propertyId == visibilityProp && value.Supported? && value.value.BoolValue? ==>
                      ok && data.visible == value.value.b && data.definition == old(data.definition) && data.props == old(data.props))
                && (propertyId == definitionProp && !(value.Supported? && value.value.StringValue?) ==>
                      !ok && unchanged(data))
                && (propertyId == visibilityProp && !(value.Supported? && value.value.BoolValue?) ==>
                      !ok && unchanged(data))
                && (propertyId != definitionProp && propertyId != visibilityProp ==>
                      data.definition == old(data.definition) && data.visible == old(data.visible) &&
                      (name == "" ==> !ok && data.props == old(data.props)) &&
                      (name != "" ==> Sorted(old(data.props)) && (ok, data.props) == Updated(old(data.props), name, ToGh(value))))
      ensures var rid := db.GetGrasshopperData(entity);
              forall r :: r in db.records && (rid.IsNull() || rid !in db.records || db.records[r] != db.records[rid]) ==>
                unchanged(db.records[r])
    {
      var rid := db.GetGrasshopperData(entity);
      if rid.IsNull() || rid !in db.records {
        return false;
      }
      var data := db.records[rid];
      if propertyId == definitionProp && value.Supported? && value.value.StringValue? {
        data.SetDefinition(value.value.s);
        return true;
      }
      if propertyId == visibilityProp && value.Supported? && value.value.BoolValue? {
        data.SetVisibility(value.value.b);
        return true;
      }
      BuiltInIdsUnregistered();
      var name := GetNameFromId(propertyId);
      if name == "" {
        return false;
      }
      ok := data.UpdateProperty(name, ToGh(value));
    }
  }
}
