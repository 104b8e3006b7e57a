/** The player (Grasshopper-BricsCAD/GrasshopperPlayer.cs): which parameters of a definition are
    its inputs, the values those inputs are stored with on an entity, and running the definition
    with the values stored on an entity bound to its inputs. The host entity of the record and
    the drawing are given as values; starting Rhinoceros is not modelled. */
module GrasshopperPlayer {
  import opened Wrappers
  import opened HostTypes
  import opened DatabaseUtils
  import opened ParameterTypes
  import opened GhKernel
  import opened Properties
  import opened ManagedGrasshopperData
  import Convert

  /** The nickname prefix of an input parameter. */
  const InputPrefix: string := "BcIn_"

  /** `IsInputName`: the nickname starts with the input prefix. */
  predicate IsInputName(name: string) {
    |name| >= |InputPrefix| && name[..|InputPrefix|] == InputPrefix
  }

  /** `FormatName`: the nickname without the input prefix, the name the value is stored under. */
  function FormatName(name: string): (r: string)
    requires IsInputName(name)
    ensures InputPrefix + r == name
  {
    name[|InputPrefix|..]
  }

  /** Prefixing a name and formatting it back gives the name again; two input nicknames with the
      same stored name are the same nickname. */
  lemma FormatNameInverse(s: string, a: string, b: string)
    ensures IsInputName(InputPrefix + s) && FormatName(InputPrefix + s) == s
    ensures IsInputName(a) && IsInputName(b) && FormatName(a) == FormatName(b) ==> a == b
  {
    assert (InputPrefix + s)[..|InputPrefix|] == InputPrefix;
  }

  /** The test `GetInputParams` applies to a parameter: no sources, some recipients, not locked,
      an input nickname and no volatile data. */
  predicate IsInput(p: Param) {
    p.sourceCount == 0 && p.recipientCount != 0 && !p.locked && IsInputName(p.nickName) &&
    DataCount(p.volatileData) == 0
  }

  /** The input parameters among the objects, in object order. */
  function InputParams(os: seq<DocObject>): (r: seq<Param>)
    ensures forall i :: 0 <= i < |r| ==> IsInput(r[i])
    ensures forall p :: p in r <==> ParamObject(p) in os && IsInput(p)
    decreases |os|
  {
    if |os| == 0 then []
    else
      var n := |os|;
      var prev := InputParams(os[..n - 1]);
      assert forall o :: o in os <==> o in os[..n - 1] || o == os[n - 1] by {
        assert os == os[..n - 1] + [os[n - 1]];
      }
      if os[n - 1].ParamObject? && IsInput(os[n - 1].param) then prev + [os[n - 1].param] else prev
  }

  /** `GetInputParams`: the parameters of the definition that pass the input test, in order. */
  method GetInputParams(definition: GhDocument) returns (inputs: seq<Param>)
    ensures inputs == InputParams(definition.objects)
  {
    var os := definition.objects;
    inputs := [];
    var i := 0;
    while i < |os|
      invariant 0 <= i <= |os|
      invariant inputs == InputParams(os[..i])
    {
      assert os[..i + 1][..i] == os[..i];
      if os[i].ParamObject? && IsInput(os[i].param) {
        inputs := inputs + [os[i].param];
      }
      i := i + 1;
    }
    assert os[..i] == os;
  }

  /** What is stored for an input: its value, or the type of the value it takes (a placeholder). */
  datatype InputValue = StoredValue(value: Value) | TypePlaceholder(t: ClrType)

  /** `get_FirstItem(true)`: the first non-null item of the tree, if any. */
  function FirstItem(t: Tree): (r: Option<Goo>)
    ensures r.Some? <==> |AllData(t)| != 0
    ensures r.Some? ==> r.value == AllData(t)[0]
  {
    if |AllData(t)| == 0 then None else Some(AllData(t)[0])
  }

  /** The .NET type of the values a primitive parameter takes; `None` for the other kinds. */
  function ValueType(k: ParamKind): Option<ClrType> {
    match k
    case IntegerParam => Some(ClrInt32)
    case NumberParam => Some(ClrDouble)
    case BooleanParam => Some(ClrBoolean)
    case StringParam => Some(ClrString)
    case PointParam => Some(ClrPoint3d)
    case VectorParam => Some(ClrVector3d)
    case _ => None
  }

  /** The entry of one input in `GetInputParametersValues`: for the six primitive kinds the first
      persistent value (points and vectors converted to the host, an empty string counting as no
      value), or without one the type placeholder; other kinds have no entry. */
  function InputEntry(p: Param): (r: Option<InputValue>)
    ensures r.Some? <==> ValueType(p.kind).Some?
    ensures r.Some? && r.value.StoredValue? ==> Some(RuntimeType(r.value.value)) == ValueType(p.kind)
    ensures r.Some? && r.value.TypePlaceholder? ==> Some(r.value.t) == ValueType(p.kind)
  {
    var first := FirstItem(p.persistentData);
    match p.kind
    case IntegerParam =>
      Some(if first.Some? && first.value.IntGoo? then StoredValue(IntValue(first.value.i)) else TypePlaceholder(ClrInt32))
    case NumberParam =>
      Some(if first.Some? && first.value.NumberGoo? then StoredValue(RealValue(first.value.r)) else TypePlaceholder(ClrDouble))
    case BooleanParam =>
      Some(if first.Some? && first.value.BoolGoo? then StoredValue(BoolValue(first.value.b)) else TypePlaceholder(ClrBoolean))
    case StringParam =>
      Some(if first.Some? && first.value.StringGoo? && first.value.s != "" then StoredValue(StringValue(first.value.s))
           else TypePlaceholder(ClrString))
    case PointParam =>
      Some(if first.Some? && first.value.PointGoo? then StoredValue(PointValue(Convert.PointToHost(first.value.p)))
           else TypePlaceholder(ClrPoint3d))
    case VectorParam =>
      Some(if first.Some? && first.value.VectorGoo? then StoredValue(VectorValue(Convert.VectorToHost(first.value.v)))
           else TypePlaceholder(ClrVector3d))
    case _ => None
  }

  /** The stored name and entry of each input that has an entry, in input order. */
  function InputValues(inputs: seq<Param>): (r: seq<(string, InputValue)>)
    requires forall i :: 0 <= i < |inputs| ==> IsInputName(inputs[i].nickName)
    ensures |r| <= |inputs|
    ensures forall i :: 0 <= i < |inputs| && InputEntry(inputs[i]).Some? ==>
              (FormatName(inputs[i].nickName), InputEntry(inputs[i]).value) in r
    ensures forall e :: e in r ==> exists i :: 0 <= i < |inputs| && InputEntry(inputs[i]) == Some(e.1) &&
                                               e.0 == FormatName(inputs[i].nickName)
    decreases |inputs|
  {
    if |inputs| == 0 then []
    else
      var n := |inputs|;
      var prev := InputValues(inputs[..n - 1]);
      var last := inputs[n - 1];
      assert forall i :: 0 <= i < n - 1 ==> inputs[..n - 1][i] == inputs[i];
      match InputEntry(last)
      case None => prev
      case Some(e) => prev + [(FormatName(last.nickName), e)]
  }

  /** `GetInputParametersValues`: the stored name and value (or type placeholder) of every input
      of a primitive kind. */
  method GetInputParametersValues(definition: GhDocument) returns (values: seq<(string, InputValue)>)
    ensures values == InputValues(InputParams(definition.objects))
  {
    var inputs := GetInputParams(definition);
    values := [];
    var i := 0;
    while i < |inputs|
      invariant 0 <= i <= |inputs|
      invariant values == InputValues(inputs[..i])
    {
      assert inputs[..i + 1][..i] == inputs[..i];
      var entry := InputEntry(inputs[i]);
      if entry.Some? {
        values := values + [(FormatName(inputs[i].nickName), entry.value)];
      }
      i := i + 1;
    }
    assert inputs[..i] == inputs;
  }

  /** The goo a stored value is added as: the value itself, points and vectors converted back
      from the host. */
  function GooOf(v: Value): Goo {
    match v
    case IntValue(i) => IntGoo(i)
    case RealValue(r) => NumberGoo(r)
    case BoolValue(b) => BoolGoo(b)
    case StringValue(s) => StringGoo(s)
    case PointValue(p) => PointGoo(Convert.PointToRhino(p))
    case VectorValue(w) => VectorGoo(Convert.VectorToRhino(w))
  }

  /** The reference to the host entity an entity input gets: the entity in the drawing, loaded. */
  function HostReference(hostEntity: ObjectId, doc: HostDocument): GeoRef {
    Loaded(ReferenceOf(ToFsp(hostEntity), doc.name), Some(doc)).1
  }

  /** What `Run` does to one input: an entity input gets the host entity at {0}[0]; another input
      with no stored value (`prop` is `None`) is untouched; otherwise its volatile data is cleared
      and the stored value added at {0}[0]. */
  function BindInput(p: Param, prop: Option<ClrObject>, hostEntity: ObjectId, doc: HostDocument): Param {
    if p.kind == GeometryParam(EntityParam) then
      p.(volatileData := AddData([], [0], 0, BcGoo(HostReference(hostEntity, doc))))
    else if prop.None? then p
    else
      match prop.value
      case Boxed(v) => p.(volatileData := AddData([], [0], 0, GooOf(v)))
      case OtherObject => p.(volatileData := [])
  }

  /** What `GetProperty` answers from a record's properties: the value of a set property, as a
      .NET object. */
  function PropertyOf(props: map<string, Prop>, name: string): (r: Option<ClrObject>)
    ensures r.Some? ==> r.value.Boxed?
  {
    if name in props && IsSet(props[name]) && props[name].data.Some?
    then Some(Boxed(props[name].data.value)) else None
  }

  /** A record's `GetProperty` is `PropertyOf` its properties. */
  lemma GetPropertyIsPropertyOf(ghData: GrasshopperData, name: string)
    requires ghData.Valid()
    ensures ghData.GetProperty(name) == PropertyOf(ghData.imp.Properties(), name)
  {
  }

  /** One object of the definition after `Run`, from the record's properties: the inputs bound,
      the rest as they were. */
  function Bound(o: DocObject, props: map<string, Prop>, hostEntity: ObjectId, doc: HostDocument): DocObject {
    if o.ParamObject? && IsInput(o.param) then
      ParamObject(BindInput(o.param, PropertyOf(props, FormatName(o.param.nickName)), hostEntity, doc))
    else o
  }

  /** The body of that loop for one input: an entity input gets the host entity, another one
      the record's value of its name, if any. */
  method BindParam(p: Param, props: map<string, Prop>, hostEntity: ObjectId, doc: HostDocument) returns (q: Param)
    requires IsInput(p)
    ensures q == BindInput(p, PropertyOf(props, FormatName(p.nickName)), hostEntity, doc)
  {
    q := p;
    if q.kind == GeometryParam(EntityParam) {
      var data := ReferenceOf(ToFsp(hostEntity), doc.name);
      q := q.(volatileData := AddData([], [0], 0, BcGoo(Loaded(data, Some(doc)).1)));
    } else {
      var prop := PropertyOf(props, FormatName(q.nickName));
      if prop.Some? {
        q := q.(volatileData := []);
        if prop.value.Boxed? {
          q := q.(volatileData := AddData(q.volatileData, [0], 0, GooOf(prop.value.value)));
        }
      }
    }
  }

  /** The loop of `Run` over the inputs: each input bound in place, nothing else changed. */
  method BindInputs(definition: GhDocument, props: map<string, Prop>, hostEntity: ObjectId, doc: HostDocument)
    modifies definition
    ensures definition.enabled == old(definition.enabled) && definition.solutionRequests == old(definition.solutionRequests)
    ensures definition.previewMode == old(definition.previewMode) && definition.previewFilter == old(definition.previewFilter)
    ensures |definition.objects| == |old(definition.objects)|
    ensures forall k :: 0 <= k < |definition.objects| ==>
              definition.objects[k] == Bound(old(definition.objects)[k], props, hostEntity, doc)
  {
    var os := definition.objects;
    var k := 0;
    while k < |os|
      invariant 0 <= k <= |os| && |definition.objects| == |os|
      invariant forall j :: 0 <= j < k ==> definition.objects[j] == Bound(os[j], props, hostEntity, doc)
      invariant forall j :: k <= j < |os| ==> definition.objects[j] == os[j]
      invariant definition.enabled == old(definition.enabled) && definition.solutionRequests == old(definition.solutionRequests)
      invariant definition.previewMode == old(definition.previewMode) && definition.previewFilter == old(definition.previewFilter)
    {
      var o := os[k];
      if o.ParamObject? && IsInput(o.param) {
        var p := BindParam(o.param, props, hostEntity, doc);
        definition.objects := definition.objects[k := ParamObject(p)];
      }
      k := k + 1;
    }
  }

  /** `Run`: solutions are switched on for the run and the definition is enabled; every input is
      bound to what the record stores for it (an entity input to the host entity); a solution is
      requested; and the process-wide switch is restored. */
  method Run(inst: Instances, definition: GhDocument, props: map<string, Prop>, hostEntity: ObjectId, doc: HostDocument)
    modifies inst, definition
    ensures inst.enableSolutions == old(inst.enableSolutions)
    ensures inst.activeDefinition == old(inst.activeDefinition) && inst.definitions == old(inst.definitions)
    ensures inst.editorVisible == old(inst.editorVisible)
    ensures definition.enabled
    ensures definition.solutionRequests == old(definition.solutionRequests) + 1
    ensures definition.previewMode == old(definition.previewMode) && definition.previewFilter == old(definition.previewFilter)
    ensures |definition.objects| == |old(definition.objects)|
    ensures forall k :: 0 <= k < |definition.objects| ==>
              definition.objects[k] == Bound(old(definition.objects)[k], props, hostEntity, doc)
  {
    var saveState := inst.enableSolutions;
    inst.enableSolutions := true;
    definition.enabled := true;
    BindInputs(definition, props, hostEntity, doc);
    definition.NewSolution();
    inst.enableSolutions := saveState;
  }

  /** An entity input holds exactly the host entity after `Run`: referred to by its handle in the
      drawing, and loaded exactly when the drawing has that handle. */
  lemma EntityInputBound(p: Param, prop: Option<ClrObject>, hostEntity: ObjectId, doc: HostDocument)
    requires p.kind == GeometryParam(EntityParam)
    ensures var q := BindInput(p, prop, hostEntity, doc);
            exists g :: AllData(q.volatileData) == [BcGoo(g)] && g.persistentRef == hostEntity.handle &&
                        g.subentType == SubNull &&
                        (g.IsValid() <==> hostEntity.handle in doc.handles) &&
                        (g.IsValid() ==> g.value == Fsp([doc.handles[hostEntity.handle]], SubNull, 0))
  {
    var g := HostReference(hostEntity, doc);
    AddToEmpty(BcGoo(g));
    ToFspInsertId(hostEntity);
  }

  /** The round trip of an input value: a value `GetInputParametersValues` takes from an input,
      bound back by `Run`, makes the input hold exactly its first persistent item. */
  lemma StoredValueRebinds(p: Param, v: Value, hostEntity: ObjectId, doc: HostDocument)
    requires InputEntry(p) == Some(StoredValue(v))
    ensures AllData(BindInput(p, Some(Boxed(v)), hostEntity, doc).volatileData) == [FirstItem(p.persistentData).value]
  {
    var first := FirstItem(p.persistentData);
    AddToEmpty(GooOf(v));
    match p.kind
    case PointParam => assert Convert.PointToRhino(Convert.PointToHost(first.value.p)) == first.value.p;
    case VectorParam => assert Convert.VectorToRhino(Convert.VectorToHost(first.value.v)) == first.value.v;
    case _ =>
  }

  /** An input with nothing stored for it keeps its data; every bound input holds at most the one
      item at {0}[0]. */
  lemma BoundInputShape(p: Param, prop: Option<ClrObject>, hostEntity: ObjectId, doc: HostDocument)
    ensures p.kind != GeometryParam(EntityParam) && prop.None? ==> BindInput(p, prop, hostEntity, doc) == p
    ensures var q := BindInput(p, prop, hostEntity, doc);
            p.kind == GeometryParam(EntityParam) || prop.Some? ==>
              |q.volatileData| <= 1 && forall b :: b in q.volatileData ==> b.path == [0] && |b.items| == 1
  {
    if p.kind == GeometryParam(EntityParam) {
      AddToEmpty(BcGoo(HostReference(hostEntity, doc)));
    } else if prop.Some? && prop.value.Boxed? {
      AddToEmpty(GooOf(prop.value.value));
    }
  }
}
