/** The per-drawing update manager (`GhDataManager`): the preview drawable of every Grasshopper
    record of one drawing, kept by record id, the set of records waiting to be redrawn, and the
    hard and soft update flags the settings raise. Both versions are modelled:
    Grasshopper-BricsCAD/GhDefinitionManager.cs (the newer one, with `try`/`finally`) and
    Grasshopper-BricsCAD/GhDefintionManager.cs (the older one); where they differ the older
    behaviour is a member of its own whose name ends in `Older`.

    The drawing is given as the records that open as `GrasshopperData` (`records`, by id) and
    the database that holds the extension dictionaries; the file system, the preview oracles,
    the drawing's handles and the system variables are an `Environment` value. An exception
    that leaves a member is a `Failure` naming it. */
module DataManager {
  import opened Wrappers
  import opened HostTypes
  import opened ParameterTypes
  import opened GhKernel
  import opened Properties
  import opened GrasshopperRecords
  import opened ManagedGrasshopperData
  import opened CompoundDrawables
  import opened PreviewScans
  import opened GrasshopperPlayer
  import DC = DefinitionCache
  import DataSettings
  import Paths
  import DrawingContext

  /** What the manager reads around it. */
  datatype Environment = Environment(
    fs: DC.FileSystem,
    preview: PreviewHost,
    drawing: HostDocument,
    vars: DataSettings.SystemVariables,
    tables: DataSettings.ColourTables)

  /** The exceptions that can leave the manager. */
  datatype Exception =
    | ArgumentNull                                   // a null definition name used as a key
    | NullReference                                  // a null archive, or an id that does not open
    | SettingsException(error: DataSettings.SettingsError)
    | PreviewException                               // a block preview threw while filling a drawable

  /** Every record that opens is valid and carries its own id. */
  ghost predicate Opens(records: map<ObjectId, GrasshopperData>)
    reads records.Values, set g | g in records.Values :: g.imp
  {
    forall id :: id in records ==> records[id].Valid() && records[id].imp.objectId == id
  }

  /** What an update reads of a record: its id, visibility, definition name, properties and
      host entity. */
  datatype RecordView = RecordView(id: ObjectId, visible: bool, definition: Option<string>,
                                   props: seq<Entry>, host: ObjectId)

  function ViewOf(g: GrasshopperData, db: Database): RecordView
    reads g, g.imp, db
  {
    RecordView(g.imp.objectId, g.imp.visible, if g.imp.definition == "" then None else Some(g.imp.definition),
               g.imp.props, g.imp.GetHostEntity(db))
  }

  /** The view of every record that opens, by id. */
  function Views(records: map<ObjectId, GrasshopperData>, db: Database): (r: map<ObjectId, RecordView>)
    reads records.Values, set g | g in records.Values :: g.imp, db
    ensures forall id :: id in r <==> id in records
  {
    map id | id in records :: ViewOf(records[id], db)
  }

  /** The host entities of the records among `ids` that open. */
  function Hosts(ids: set<ObjectId>, views: map<ObjectId, RecordView>): set<ObjectId> {
    set id | id in ids && id in views :: views[id].host
  }

  lemma HostsAdd(ids: set<ObjectId>, id: ObjectId, views: map<ObjectId, RecordView>)
    ensures Hosts(ids + {id}, views) == Hosts(ids, views) + (if id in views then {views[id].host} else {})
  {
  }

  /** The objects of a definition after `Run` bound the record's values to its inputs. */
  function BoundAll(os: seq<DocObject>, properties: map<string, Prop>, hostEntity: ObjectId, drawing: HostDocument)
    : (r: seq<DocObject>)
    ensures |r| == |os| && forall k :: 0 <= k < |os| ==> r[k] == Bound(os[k], properties, hostEntity, drawing)
  {
    seq(|os|, k requires 0 <= k < |os| => Bound(os[k], properties, hostEntity, drawing))
  }

  /** The walk `GetPreview` makes over a freshly read definition once `Run` has bound the
      record's values: every filter shows all objects and the mode is wireframe, the defaults
      of a new document. */
  function PreviewOf(os: seq<DocObject>, v: RecordView, env: Environment): Scan {
    Scanned(BoundAll(os, MapOf(v.props), v.host, env.drawing), Scan([], [], [], [], [], [], false), ShowAll, false,
            env.preview, env.drawing)
  }

  /** What the definition cache gives for a record: the objects of its definition, nothing, or
      an exception (a record without a definition name, whose null name is used as a key, or a
      null cached archive). */
  function DefinitionOf(v: RecordView, nameToPath: map<string, string>, docs: map<string, Option<DC.Archive>>,
                        fs: DC.FileSystem): Result<Option<seq<DocObject>>, Exception>
  {
    match v.definition
    case None => Failure(Exception.ArgumentNull)
    case Some(name) =>
      match DC.Outcome(docs, DC.Resolve(nameToPath, name, [], fs))
      case NoDefinition => Success(None)
      case NullArchive => Failure(Exception.NullReference)
      case Objects(os) => Success(Some(os))
  }

  /** What `UpdateDrawable` does for a record: keep the cache (`Success(None)`), put a new
      drawable filled by that walk (`Success(Some(s))`), or throw. An invisible record is left
      alone; the colour setting is read after the run, and a block preview may throw while the
      drawable is filled. */
  function UpdateOf(v: RecordView, nameToPath: map<string, string>, docs: map<string, Option<DC.Archive>>,
                    colour: Result<Argb, DataSettings.SettingsError>, env: Environment)
    : Result<Option<Scan>, Exception>
  {
    if !v.visible then Success(None)
    else
      match DefinitionOf(v, nameToPath, docs, env.fs)
      case Failure(e) => Failure(e)
      case Success(None) => Success(None)
      case Success(Some(os)) =>
        var s := PreviewOf(os, v, env);
        if colour.Failure? then Failure(SettingsException(colour.error))
        else if s.thrown then Failure(PreviewException)
        else Success(Some(s))
  }

  /** Two sets of remembered paths under which every name resolves alike. */
  ghost predicate SameResolution(m: map<string, string>, m': map<string, string>, fs: DC.FileSystem) {
    forall n :: DC.Resolve(m, n, [], fs) == DC.Resolve(m', n, [], fs)
  }

  /** Remembering a name as `FindFile` does changes how no name resolves. */
  lemma RememberedResolvesAlike(m: map<string, string>, name: string, fs: DC.FileSystem)
    ensures SameResolution(m, DC.Remembered(m, name, DC.Resolve(m, name, [], fs)), fs)
  {
    var r := DC.Resolve(m, name, [], fs);
    if r.Some? {
      forall n ensures DC.Resolve(m, n, [], fs) == DC.Resolve(DC.Remembered(m, name, r), n, [], fs) {
        DC.ResolveStable(m, name, [], fs, n, []);
      }
    }
  }

  /** Updates depend on the remembered paths only through how names resolve. */
  lemma UpdateOfResolution(v: RecordView, m: map<string, string>, m': map<string, string>,
                           docs: map<string, Option<DC.Archive>>, colour: Result<Argb, DataSettings.SettingsError>,
                           env: Environment)
    requires SameResolution(m, m', env.fs)
    ensures UpdateOf(v, m, docs, colour, env) == UpdateOf(v, m', docs, colour, env)
  {
    if v.definition.Some? {
      assert DC.Resolve(m, v.definition.value, [], env.fs) == DC.Resolve(m', v.definition.value, [], env.fs);
    }
  }

  /** A drawable holds the geometry of a walk, in the colour read and the render mode of the
      visual style. */
  predicate DrawnAs(cd: CompoundDrawable, colour: Argb, render: bool, s: Scan)
    reads cd
  {
    && cd.drawables == s.drawables && cd.selectedDrawables == s.selectedDrawables
    && cd.colour == colour && cd.colourSelected == colour && cd.isRenderMode == render && !cd.disposed
  }

  /** The records `Proccess` redraws: the pending ones, and every cached one on a hard update. */
  function Pending(toUpdate: set<ObjectId>, cached: set<ObjectId>, hard: bool): (r: set<ObjectId>)
    ensures toUpdate <= r && (hard ==> cached <= r) && (!hard ==> r == toUpdate)
  {
    if hard then toUpdate + cached else toUpdate
  }

  /** How every record that opens would update, from one state of the definition cache. */
  function Outcomes(views: map<ObjectId, RecordView>, nameToPath: map<string, string>,
                    docs: map<string, Option<DC.Archive>>, colour: Result<Argb, DataSettings.SettingsError>,
                    env: Environment)
    : (r: map<ObjectId, Result<Option<Scan>, Exception>>)
    ensures forall id :: id in r <==> id in views
  {
    map id | id in views :: UpdateOf(views[id], nameToPath, docs, colour, env)
  }

  /** A record that opens and whose update puts a new drawable. */
  predicate Redraws(id: ObjectId, outcomes: map<ObjectId, Result<Option<Scan>, Exception>>) {
    id in outcomes && outcomes[id].Success? && outcomes[id].value.Some?
  }

  /** A new drawable in the colour read and the render mode of the visual style, holding a walk. */
  predicate Drawn(cd: CompoundDrawable, colour: Result<Argb, DataSettings.SettingsError>, render: bool, s: Scan)
    reads cd
  {
    colour.Success? && DrawnAs(cd, colour.value, render, s)
  }

  /** The cache after the records `pending` were updated in some order: a record that drew has a
      new drawable holding its walk, every other entry is the one it had. */
  ghost predicate UpdatedCache(before: map<ObjectId, CompoundDrawable>, after: map<ObjectId, CompoundDrawable>,
                         pending: set<ObjectId>, outcomes: map<ObjectId, Result<Option<Scan>, Exception>>,
                         colour: Result<Argb, DataSettings.SettingsError>, render: bool)
    reads after.Values
  {
    && (forall id :: id in after <==> id in before || (id in pending && Redraws(id, outcomes)))
    && (forall id :: id in pending && Redraws(id, outcomes) ==> Drawn(after[id], colour, render, outcomes[id].value.value))
    && (forall id :: id in before && !(id in pending && Redraws(id, outcomes)) ==> after[id] == before[id])
  }

  /** One more pending record updated. */
  lemma UpdatedCacheStep(before: map<ObjectId, CompoundDrawable>, cache: map<ObjectId, CompoundDrawable>,
                         after: map<ObjectId, CompoundDrawable>, id: ObjectId, done: set<ObjectId>,
                         outcomes: map<ObjectId, Result<Option<Scan>, Exception>>,
                         colour: Result<Argb, DataSettings.SettingsError>, render: bool)
    requires id !in done && UpdatedCache(before, cache, done, outcomes, colour, render)
    requires Redraws(id, outcomes) ==>
               id in after && after == cache[id := after[id]] && Drawn(after[id], colour, render, outcomes[id].value.value)
    requires !Redraws(id, outcomes) ==> after == cache
    ensures UpdatedCache(before, after, done + {id}, outcomes, colour, render)
  {
  }

  /** Some record of a set opens and throws when updated. */
  predicate SomeUpdateThrows(pending: set<ObjectId>, outcomes: map<ObjectId, Result<Option<Scan>, Exception>>) {
    exists id :: id in pending && id in outcomes && outcomes[id].Failure?
  }

  /** A record of a set opens and throws `e` when updated. */
  predicate Throws(pending: set<ObjectId>, outcomes: map<ObjectId, Result<Option<Scan>, Exception>>, e: Exception) {
    exists id :: id in pending && id in outcomes && outcomes[id] == Failure(e)
  }

  lemma SomeUpdateThrowsAdd(done: set<ObjectId>, id: ObjectId, outcomes: map<ObjectId, Result<Option<Scan>, Exception>>)
    ensures SomeUpdateThrows(done + {id}, outcomes) <==>
              SomeUpdateThrows(done, outcomes) || (id in outcomes && outcomes[id].Failure?)
  {
    if id in outcomes && outcomes[id].Failure? {
      assert id in done + {id};
    }
  }

  /** Every view is filed under its record's own id. */
  predicate Keyed(views: map<ObjectId, RecordView>) {
    forall id :: id in views ==> views[id].id == id
  }

  /** The views of records that open are keyed by their ids. */
  lemma OpensKeyed(records: map<ObjectId, GrasshopperData>, db: Database)
    requires Opens(records)
    ensures Keyed(Views(records, db))
  {
    forall id | id in Views(records, db) ensures Views(records, db)[id].id == id {
      assert records[id].imp.objectId == id;
    }
  }

  /** Where the loop of `Proccess` stands after the records `done`: none threw, their host
      entities were collected, and the cache holds what they drew. */
  ghost predicate Progress(before: map<ObjectId, CompoundDrawable>, cache: map<ObjectId, CompoundDrawable>,
                           done: set<ObjectId>, outcomes: map<ObjectId, Result<Option<Scan>, Exception>>,
                           colour: Result<Argb, DataSettings.SettingsError>, render: bool,
                           views: map<ObjectId, RecordView>, redrawn: set<ObjectId>)
    reads cache.Values
  {
    && !SomeUpdateThrows(done, outcomes)
    && redrawn == Hosts(done, views)
    && UpdatedCache(before, cache, done, outcomes, colour, render)
    && cache.Keys <= before.Keys + done
  }

  /** Nothing updated yet. */
  lemma ProgressStart(cache: map<ObjectId, CompoundDrawable>, outcomes: map<ObjectId, Result<Option<Scan>, Exception>>,
                      colour: Result<Argb, DataSettings.SettingsError>, render: bool, views: map<ObjectId, RecordView>)
    ensures Progress(cache, cache, {}, outcomes, colour, render, views, {})
  {
    assert Hosts({}, views) == {};
  }

  /** A set walk taking one more element. */
  lemma TakeOne<T>(all: set<T>, remaining: set<T>, done: set<T>, x: T)
    requires remaining <= all && done == all - remaining && x in remaining
    ensures remaining - {x} <= all && done + {x} == all - (remaining - {x}) && x !in done
  {
  }

  lemma SomeUpdateThrowsWithin(some: set<ObjectId>, all: set<ObjectId>, outcomes: map<ObjectId, Result<Option<Scan>, Exception>>)
    requires some <= all && SomeUpdateThrows(some, outcomes)
    ensures SomeUpdateThrows(all, outcomes)
  {
  }

  lemma Within<T>(s: set<T>, base: set<T>, some: set<T>, all: set<T>)
    requires s <= base + some && some <= all
    ensures s <= base + all
  {
  }

  /** Record ids in the order the entity scan finds them: the non-null record of each entity. */
  function AttachedRecords(entities: seq<ObjectId>, db: Database): seq<ObjectId>
    reads db
    decreases |entities|
  {
    if |entities| == 0 then []
    else
      var init := AttachedRecords(entities[..|entities| - 1], db);
      var id := db.GetGrasshopperData(Some(entities[|entities| - 1]));
      if id.IsNull() then init else init + [id]
  }

  /** The scan finds exactly the non-null records of the entities. */
  lemma {:induction false} AttachedRecordsAre(entities: seq<ObjectId>, db: Database)
    ensures forall id :: id in AttachedRecords(entities, db) <==>
              exists e :: e in entities && db.GetGrasshopperData(Some(e)) == id && !id.IsNull()
    decreases |entities|
  {
    if |entities| > 0 {
      var init := entities[..|entities| - 1];
      AttachedRecordsAre(init, db);
      assert forall e :: e in entities <==> e in init || e == entities[|entities| - 1];
    }
  }

  /** The cache state after loading the definitions named, in order, with the same search
      directories. */
  function AfterLoads(nameToPath: map<string, string>, docs: map<string, Option<DC.Archive>>, names: seq<string>,
                      extra: seq<string>, fs: DC.FileSystem): (map<string, string>, map<string, Option<DC.Archive>>)
    decreases |names|
  {
    if |names| == 0 then (nameToPath, docs)
    else
      var st := AfterLoads(nameToPath, docs, names[..|names| - 1], extra, fs);
      var r := DC.Resolve(st.0, names[|names| - 1], extra, fs);
      (DC.Remembered(st.0, names[|names| - 1], r), DC.LoadedDocs(st.1, r, fs))
  }

  /** One more name loaded. */
  lemma AfterLoadsAppend(nameToPath: map<string, string>, docs: map<string, Option<DC.Archive>>, names: seq<string>,
                         name: string, extra: seq<string>, fs: DC.FileSystem)
    ensures var st := AfterLoads(nameToPath, docs, names, extra, fs);
            var r := DC.Resolve(st.0, name, extra, fs);
            AfterLoads(nameToPath, docs, names + [name], extra, fs) == (DC.Remembered(st.0, name, r), DC.LoadedDocs(st.1, r, fs))
  {
    assert (names + [name])[..|names|] == names;
  }

  /** Loading only adds: every remembered name and cached archive stays, and no failed read is
      cached. */
  lemma {:induction false} AfterLoadsGrows(nameToPath: map<string, string>, docs: map<string, Option<DC.Archive>>,
                                           names: seq<string>, extra: seq<string>, fs: DC.FileSystem)
    ensures var st := AfterLoads(nameToPath, docs, names, extra, fs);
            && (forall n :: n in nameToPath ==> n in st.0 && st.0[n] == nameToPath[n])
            && (forall p :: p in docs ==> p in st.1 && st.1[p] == docs[p])
            && (forall p :: p in st.1 && p !in docs ==> st.1[p].Some?)
    decreases |names|
  {
    if |names| > 0 {
      AfterLoadsGrows(nameToPath, docs, names[..|names| - 1], extra, fs);
    }
  }

  /** Every loaded name that resolves ends up remembered. */
  lemma {:induction false} AfterLoadsRemembers(nameToPath: map<string, string>, docs: map<string, Option<DC.Archive>>,
                                               names: seq<string>, extra: seq<string>, fs: DC.FileSystem)
    ensures var st := AfterLoads(nameToPath, docs, names, extra, fs);
            forall i :: 0 <= i < |names| && DC.Resolve(nameToPath, names[i], extra, fs).Some? ==> names[i] in st.0
    decreases |names|
  {
    if |names| > 0 {
      var init := names[..|names| - 1];
      AfterLoadsRemembers(nameToPath, docs, init, extra, fs);
      AfterLoadsGrows(nameToPath, docs, init, extra, fs);
      var st := AfterLoads(nameToPath, docs, init, extra, fs);
      forall i | 0 <= i < |names| && DC.Resolve(nameToPath, names[i], extra, fs).Some?
        ensures names[i] in AfterLoads(nameToPath, docs, names, extra, fs).0
      {
        if i < |names| - 1 {
          assert names[i] == init[i];
        } else if names[i] !in st.0 {
          assert DC.Resolve(st.0, names[i], extra, fs) == DC.Resolve(nameToPath, names[i], extra, fs);
        }
      }
    }
  }

  /** A bake component of a definition that `Bake` expires: unlocked. */
  predicate BakesIn(o: DocObject) {
    o.ComponentObject? && o.component.kind == BakeComponent && !o.component.locked
  }

  /** The instance ids of the bake components `Bake` expires, in object order. */
  function BakeTargets(os: seq<DocObject>): (r: seq<int>)
    ensures forall g :: g in r <==> exists k :: 0 <= k < |os| && BakesIn(os[k]) && os[k].Guid() == g
    decreases |os|
  {
    if |os| == 0 then []
    else
      var init := BakeTargets(os[..|os| - 1]);
      var last := os[|os| - 1];
      assert forall k :: 0 <= k < |os| - 1 ==> os[k] == os[..|os| - 1][k];
      if BakesIn(last) then init + [last.Guid()] else init
  }

  /** `BakeComponent.Expire`: the component will bake with the dialog's properties; the model
      keeps only that its solution is expired. */
  function ExpiredForBake(o: DocObject): DocObject {
    if BakesIn(o) then ComponentObject(o.component.(expired := true)) else o
  }

  /** One record baked: its id and the bake components expired in its definition. */
  datatype BakeRun = BakeRun(record: ObjectId, components: seq<int>)

  /** What `Bake` does for one id: a record that does not open is skipped; a record whose
      definition is not cached is skipped; otherwise its definition is run, the unlocked bake
      components expired first. A missing definition name or a null archive throws. */
  function BakeStep(id: ObjectId, views: map<ObjectId, RecordView>, nameToPath: map<string, string>,
                    docs: map<string, Option<DC.Archive>>, fs: DC.FileSystem): (r: Result<seq<BakeRun>, Exception>)
    ensures r.Success? && r.value != [] ==> id in views && r.value == [BakeRun(id, r.value[0].components)]
  {
    if id !in views then Success([])
    else
      match DefinitionOf(views[id], nameToPath, docs, fs)
      case Failure(e) => Failure(e)
      case Success(None) => Success([])
      case Success(Some(os)) => Success([BakeRun(id, BakeTargets(os))])
  }

  /** What `Bake` does over the list, in order; the first exception ends the walk. */
  function BakeLog(ids: seq<ObjectId>, views: map<ObjectId, RecordView>, nameToPath: map<string, string>,
                   docs: map<string, Option<DC.Archive>>, fs: DC.FileSystem): Result<seq<BakeRun>, Exception>
    decreases |ids|
  {
    if |ids| == 0 then Success([])
    else
      match BakeLog(ids[..|ids| - 1], views, nameToPath, docs, fs)
      case Failure(e) => Failure(e)
      case Success(log) =>
        match BakeStep(ids[|ids| - 1], views, nameToPath, docs, fs)
        case Failure(e) => Failure(e)
        case Success(s) => Success(log + s)
  }

  /** Once the walk has thrown, the ids after that point change nothing. */
  lemma {:induction false} BakeLogStops(ids: seq<ObjectId>, k: nat, views: map<ObjectId, RecordView>,
                                        nameToPath: map<string, string>, docs: map<string, Option<DC.Archive>>,
                                        fs: DC.FileSystem)
    requires k <= |ids| && BakeLog(ids[..k], views, nameToPath, docs, fs).Failure?
    ensures BakeLog(ids, views, nameToPath, docs, fs) == BakeLog(ids[..k], views, nameToPath, docs, fs)
    decreases |ids|
  {
    if k < |ids| {
      var init := ids[..|ids| - 1];
      assert init[..k] == ids[..k];
      BakeLogStops(init, k, views, nameToPath, docs, fs);
    } else {
      assert ids[..k] == ids;
    }
  }

  /** The log of a successful walk names only records that open, in list order, each once per
      occurrence in the list and never a skipped one. */
  lemma {:induction false} BakeLogRecords(ids: seq<ObjectId>, views: map<ObjectId, RecordView>,
                                          nameToPath: map<string, string>, docs: map<string, Option<DC.Archive>>,
                                          fs: DC.FileSystem)
    requires BakeLog(ids, views, nameToPath, docs, fs).Success?
    ensures var log := BakeLog(ids, views, nameToPath, docs, fs).value;
            && |log| <= |ids|
            && forall b :: b in log ==> b.record in ids && b.record in views
    decreases |ids|
  {
    if |ids| > 0 {
      var init := ids[..|ids| - 1];
      BakeLogRecords(init, views, nameToPath, docs, fs);
      assert forall x :: x in init ==> x in ids;
    }
  }

  /** The objects of a definition once `Bake` expired its unlocked bake components. */
  function ExpiredAllForBake(os: seq<DocObject>): (r: seq<DocObject>)
    ensures |r| == |os| && forall k :: 0 <= k < |os| ==> r[k] == ExpiredForBake(os[k])
  {
    seq(|os|, k requires 0 <= k < |os| => ExpiredForBake(os[k]))
  }

  /** The walk over the objects leaves every object but the unlocked bake components alone. */
  lemma ExpiredForBakeOnly(os: seq<DocObject>, k: nat)
    requires k < |os|
    ensures BakesIn(os[k]) ==> ExpiredAllForBake(os)[k].ComponentObject? && ExpiredAllForBake(os)[k].component.expired
    ensures !BakesIn(os[k]) ==> ExpiredAllForBake(os)[k] == os[k]
    ensures ExpiredAllForBake(os)[k].Guid() == os[k].Guid()
  {
  }

  /** The property an input's stored value or type placeholder makes. */
  function InputProp(v: InputValue): Prop {
    match v
    case StoredValue(x) => ObjectToProperty(Some(Boxed(x))).value
    case TypePlaceholder(t) => TypeToProperty(Some(t)).value
  }

  /** The property table after `AddGrasshopperData` added the inputs, in order. */
  function WithInputs(ps: seq<Entry>, values: seq<(string, InputValue)>): (r: seq<Entry>)
    requires Sorted(ps)
    ensures Sorted(r)
    decreases |values|
  {
    if |values| == 0 then ps
    else Added(WithInputs(ps, values[..|values| - 1]), values[|values| - 1].0, InputProp(values[|values| - 1].1)).1
  }

  lemma WithInputsAppend(ps: seq<Entry>, values: seq<(string, InputValue)>, i: nat)
    requires Sorted(ps) && i < |values|
    ensures WithInputs(ps, values[..i + 1]) == Added(WithInputs(ps, values[..i]), values[i].0, InputProp(values[i].1)).1
  {
    assert values[..i + 1][..i] == values[..i];
  }

  /** Adding the inputs never changes a stored property, and a name ends up stored exactly when
      it was stored before or some input of that name makes a non-empty property. */
  lemma {:induction false} WithInputsMap(ps: seq<Entry>, values: seq<(string, InputValue)>, n: string)
    requires Sorted(ps)
    ensures n in MapOf(ps) ==> n in MapOf(WithInputs(ps, values)) && MapOf(WithInputs(ps, values))[n] == MapOf(ps)[n]
    ensures n in MapOf(WithInputs(ps, values)) <==>
              n in MapOf(ps) || exists i :: 0 <= i < |values| && values[i].0 == n && !IsEmpty(InputProp(values[i].1))
    decreases |values|
  {
    if |values| > 0 {
      var init := values[..|values| - 1];
      WithInputsMap(ps, init, n);
      assert forall i :: 0 <= i < |values| - 1 ==> values[i] == init[i];
      if n !in MapOf(WithInputs(ps, values)) {
        forall i | 0 <= i < |values| && values[i].0 == n ensures IsEmpty(InputProp(values[i].1)) {
          if i < |values| - 1 {
            assert init[i] == values[i];
          }
        }
      }
    }
  }

  /** Everything a drawable holds. */
  datatype Look = Look(colour: Argb, colourSelected: Argb, drawables: seq<PreviewDrawable>,
                       selectedDrawables: seq<PreviewDrawable>, isRenderMode: bool, disposed: bool)

  function LookOf(cd: CompoundDrawable): Look
    reads cd
  {
    Look(cd.colour, cd.colourSelected, cd.drawables, cd.selectedDrawables, cd.isRenderMode, cd.disposed)
  }

  /** A drawable as a soft update leaves it: in the new colour, its geometry and mode untouched. */
  predicate Repainted(before: Look, after: Look, c: Argb) {
    after == before.(colour := c, colourSelected := c)
  }

  /** `Color` and `ColorSelected` set on one drawable. */
  method Paint(cd: CompoundDrawable, c: Argb)
    modifies cd
    ensures Repainted(old(LookOf(cd)), LookOf(cd), c)
  {
    cd.colour := c;
    cd.colourSelected := c;
  }

  /** What the soft update of `Proccess` gives over the cache: the colour setting cannot be
      read, a cached record that is not pending does not open (its null host is dereferenced),
      or the host entities of the cached records that are not pending, asked to redraw. */
  function SoftUpdateOf(cached: set<ObjectId>, toUpdate: set<ObjectId>, views: map<ObjectId, RecordView>,
                        colour: Result<Argb, DataSettings.SettingsError>): (r: Result<set<ObjectId>, Exception>)
    ensures r.Success? <==> colour.Success? && cached - toUpdate <= views.Keys
  {
    if colour.Failure? then Failure(SettingsException(colour.error))
    else if !(cached - toUpdate <= views.Keys) then Failure(Exception.NullReference)
    else Success(Hosts(cached - toUpdate, views))
  }

  /** A soft update asks exactly the hosts of the cached records that are not pending to redraw:
      a pending record is redrawn by the update that follows, and every host asked belongs to
      a cached record. */
  lemma SoftUpdateHosts(cached: set<ObjectId>, toUpdate: set<ObjectId>, views: map<ObjectId, RecordView>,
                        colour: Result<Argb, DataSettings.SettingsError>, host: ObjectId)
    requires SoftUpdateOf(cached, toUpdate, views, colour).Success?
    ensures host in SoftUpdateOf(cached, toUpdate, views, colour).value <==>
              exists id :: id in cached && id !in toUpdate && views[id].host == host
  {
    if host in SoftUpdateOf(cached, toUpdate, views, colour).value {
      var id :| id in cached - toUpdate && id in views && views[id].host == host;
    }
  }

  /** What the flag handling at the head of `Proccess` gives: the soft update when only the
      soft flag is raised, and nothing otherwise. */
  function FlagsOutcome(hard: bool, soft: bool, cached: set<ObjectId>, toUpdate: set<ObjectId>,
                        views: map<ObjectId, RecordView>, colour: Result<Argb, DataSettings.SettingsError>)
    : Result<set<ObjectId>, Exception>
  {
    if !hard && soft then SoftUpdateOf(cached, toUpdate, views, colour) else Success({})
  }

  /** A record id the database reports about, by what it is. */
  datatype DbObject =
    | RecordObject(id: ObjectId)                                    // a `GrasshopperData` record
    | EntityObject(id: ObjectId)                                    // an entity
    | BlockRecordObject(id: ObjectId, references: seq<ObjectId>)    // a block and its references
    | OtherObject(id: ObjectId)

  /** The records `OnObjectModified` queues for an object. */
  function ModifiedRecords(o: DbObject, db: Database): set<ObjectId>
    reads db
  {
    match o
    case RecordObject(id) => {id}
    case EntityObject(id) =>
      var r := db.GetGrasshopperData(Some(id));
      if r.IsNull() then {} else {r}
    case BlockRecordObject(_, refs) => IdSet(AttachedRecords(refs, db))
    case OtherObject(_) => {}
  }

  /** The record behind an object `OnObjectErased` is told about, null when there is none. */
  function ErasedRecord(o: DbObject, db: Database): ObjectId
    reads db
  {
    match o
    case RecordObject(id) => id
    case EntityObject(id) => db.GetGrasshopperData(Some(id))
    case _ => NullId
  }

  /** A modified block queues the records of exactly its references that carry one. */
  lemma ModifiedBlockRecords(b: ObjectId, refs: seq<ObjectId>, db: Database, id: ObjectId)
    ensures id in ModifiedRecords(BlockRecordObject(b, refs), db) <==>
              exists e :: e in refs && db.GetGrasshopperData(Some(e)) == id && !id.IsNull()
  {
    IdSetIs(AttachedRecords(refs, db));
    AttachedRecordsAre(refs, db);
  }

  /** What `AddGrasshopperData` makes of a record with a non-null id the cache does not hold,
      naming `name` and holding `props`, on the definition cache `(nameToPath, docs)` of a
      drawing in `dwgPath`: the remembered paths, the cached archives, the result and the
      record's properties afterwards. A missing name throws before anything is loaded; else the
      name is loaded from the drawing's directory or the search path and read back, a null
      archive throws, and a definition that reads adds its inputs to the properties. */
  function Registration(nameToPath: map<string, string>, docs: map<string, Option<DC.Archive>>, name: Option<string>,
                        props: seq<Entry>, dwgPath: string, fs: DC.FileSystem)
    : (map<string, string>, map<string, Option<DC.Archive>>, Result<bool, Exception>, seq<Entry>)
    requires Sorted(props)
  {
    if name.None? then (nameToPath, docs, Failure(Exception.ArgumentNull), props)
    else
      var res := DC.Resolve(nameToPath, name.value, [dwgPath], fs);
      var m := DC.Remembered(nameToPath, name.value, res);
      var d := DC.LoadedDocs(docs, res, fs);
      var again := DC.Resolve(m, name.value, [], fs);
      var m' := DC.Remembered(m, name.value, again);
      match DC.Outcome(d, again)
      case NoDefinition => (m', d, Success(false), props)
      case NullArchive => (m', d, Failure(Exception.NullReference), props)
      case Objects(os) => (m', d, Success(true), WithInputs(props, InputValues(InputParams(os))))
  }

  /** The path found from the drawing's directory is the path the read then resolves. */
  lemma ResolvedAgain(nameToPath: map<string, string>, n: string, dwgPath: string, fs: DC.FileSystem)
    ensures var res := DC.Resolve(nameToPath, n, [dwgPath], fs);
            DC.Resolve(DC.Remembered(nameToPath, n, res), n, [], fs) == res
  {
    if n !in nameToPath && DC.Resolve(nameToPath, n, [dwgPath], fs).None? {
      DC.FirstExistingAppend([dwgPath], Text.Split(fs.srchPath, ';'), n, fs.existing);
      assert DC.SearchDirs([], fs) == Text.Split(fs.srchPath, ';');
    }
  }

  /** Registering a second record of the same name finds the cache as the first left it: the
      definition is neither searched for nor read again, so the outcome is the same and the
      second record's properties are what they would have been first. */
  lemma RegistrationIdempotent(nameToPath: map<string, string>, docs: map<string, Option<DC.Archive>>, name: Option<string>,
                               props: seq<Entry>, props': seq<Entry>, dwgPath: string, fs: DC.FileSystem)
    requires Sorted(props) && Sorted(props')
    ensures var reg := Registration(nameToPath, docs, name, props, dwgPath, fs);
            Registration(reg.0, reg.1, name, props', dwgPath, fs) ==
            (reg.0, reg.1, reg.2, Registration(nameToPath, docs, name, props', dwgPath, fs).3)
  {
    if name.Some? {
      var n := name.value;
      var res := DC.Resolve(nameToPath, n, [dwgPath], fs);
      var m := DC.Remembered(nameToPath, n, res);
      var d := DC.LoadedDocs(docs, res, fs);
      ResolvedAgain(nameToPath, n, dwgPath, fs);
      ResolvedAgain(m, n, dwgPath, fs);
      assert DC.Remembered(m, n, res) == m;
      assert DC.Resolve(m, n, [dwgPath], fs) == res;
      assert DC.LoadedDocs(d, res, fs) == d;
      assert Registration(nameToPath, docs, name, props, dwgPath, fs).0 == m;
      assert Registration(nameToPath, docs, name, props, dwgPath, fs).1 == d;
    }
  }

  /** Registering a record only adds properties: a stored property is kept, a name is stored
      afterwards only when stored before or named by an input of the definition, and the
      properties change at all only when the definition was read. */
  lemma RegistrationOnlyAdds(nameToPath: map<string, string>, docs: map<string, Option<DC.Archive>>, name: Option<string>,
                             props: seq<Entry>, dwgPath: string, fs: DC.FileSystem, n: string)
    requires Sorted(props)
    ensures var reg := Registration(nameToPath, docs, name, props, dwgPath, fs);
            && Sorted(reg.3)
            && (reg.2 != Success(true) ==> reg.3 == props)
            && (n in MapOf(props) ==> n in MapOf(reg.3) && MapOf(reg.3)[n] == MapOf(props)[n])
            && (n in MapOf(reg.3) && n !in MapOf(props) ==> reg.2 == Success(true) && name.Some?)
  {
    var reg := Registration(nameToPath, docs, name, props, dwgPath, fs);
    if reg.2 == Success(true) {
      var res := DC.Resolve(nameToPath, name.value, [dwgPath], fs);
      var m := DC.Remembered(nameToPath, name.value, res);
      var os := DC.Outcome(DC.LoadedDocs(docs, res, fs), DC.Resolve(m, name.value, [], fs)).objects;
      WithInputsMap(props, InputValues(InputParams(os)), n);
    }
  }

  class GhDataManager {
    const document: Document
    const definitionManager: DC.GhDefinitionManager
    var grasshopperData: map<ObjectId, CompoundDrawable>
    var toUpdate: set<ObjectId>
    var needHardUpdate: bool
    var needSoftUpdate: bool
    var reactorsEnabled: bool        // `OnObjectModified`/`OnObjectErased` subscribed

    /** `DwgPath`: the directory of the drawing. */
    function DwgPath(): string {
      Paths.DirectoryName(document.name)
    }

    /** The object made before the constructor's scan: an empty cache and a new definition
        cache, no reactors yet. */
    constructor (document: Document)
      ensures this.document == document && fresh(definitionManager)
      ensures definitionManager.nameToPath == map[] && definitionManager.docs == map[]
      ensures grasshopperData == map[] && toUpdate == {} && !needHardUpdate && !needSoftUpdate && !reactorsEnabled
    {
      this.document := document;
      definitionManager := new DC.GhDefinitionManager();
      grasshopperData := map[];
      toUpdate := {};
      needHardUpdate := false;
      needSoftUpdate := false;
      reactorsEnabled := false;
    }

    /** `GetGhDrawable` (`Drawable` in the older version): the cached drawable, or null. */
    function GetGhDrawable(id: ObjectId): (r: CompoundDrawable?)
      reads this
      ensures r != null <==> id in grasshopperData
      ensures r != null ==> r == grasshopperData[id]
    {
      if id in grasshopperData then grasshopperData[id] else null
    }

    /** `HasPendingUpdates`. */
    predicate HasPendingUpdates()
      reads this
    {
      needHardUpdate || needSoftUpdate || toUpdate != {}
    }

    /** `UpdateDrawable`, on what it reads of the record: the record's definition is read afresh
        from the cache, run with the record's values, and walked into a new drawable in the
        colour setting (`colour`, as reading it gives) and the render mode of the visual style,
        which replaces the cached one. */
    method UpdateDrawable(v: RecordView, colour: Result<Argb, DataSettings.SettingsError>, env: Environment,
                          inst: Instances) returns (r: Result<(), Exception>)
      modifies this, definitionManager, inst
      ensures inst.definitions == old(inst.definitions)
      ensures toUpdate == old(toUpdate) && needHardUpdate == old(needHardUpdate) && needSoftUpdate == old(needSoftUpdate)
      ensures reactorsEnabled == old(reactorsEnabled) && definitionManager.docs == old(definitionManager.docs)
      ensures SameResolution(old(definitionManager.nameToPath), definitionManager.nameToPath, env.fs)
      ensures var u := UpdateOf(v, old(definitionManager.nameToPath), old(definitionManager.docs), colour, env);
              && (r.Success? <==> u.Success?)
              && (r.Failure? ==> r.error == u.error)
              && (u.Success? && u.value.Some? ==>
                    && v.id in grasshopperData && grasshopperData == old(grasshopperData)[v.id := grasshopperData[v.id]]
                    && fresh(grasshopperData[v.id])
                    && Drawn(grasshopperData[v.id], colour, DataSettings.IsRenderMode(env.vars), u.value.value))
              && (!(u.Success? && u.value.Some?) ==> grasshopperData == old(grasshopperData))
    {
      ghost var m0 := definitionManager.nameToPath;
      if !v.visible {
        return Success(());
      }
      if v.definition.None? {
        return Failure(Exception.ArgumentNull);
      }
      var d := definitionManager.Definition(v.definition.value, env.fs);
      RememberedResolvesAlike(m0, v.definition.value, env.fs);
      if d.Failure? {
        return Failure(Exception.NullReference);
      }
      var definition := d.value;
      if definition == null {
        return Success(());
      }
      r := RunAndDraw(v, definition, colour, env, inst);
    }

    /** The second half of `UpdateDrawable`, on a definition just read: run it, then fill a new
        drawable and cache it. */
    method RunAndDraw(v: RecordView, definition: GhDocument, colour: Result<Argb, DataSettings.SettingsError>,
                      env: Environment, inst: Instances) returns (r: Result<(), Exception>)
      requires definition.previewMode == Wireframe && definition.previewFilter == ShowAll
      modifies this, definition, inst
      ensures inst.definitions == old(inst.definitions)
      ensures toUpdate == old(toUpdate) && needHardUpdate == old(needHardUpdate) && needSoftUpdate == old(needSoftUpdate)
      ensures reactorsEnabled == old(reactorsEnabled)
      ensures var s := PreviewOf(old(definition.objects), v, env);
              && r == (if colour.Failure? then Failure(SettingsException(colour.error))
                       else if s.thrown then Failure(PreviewException) else Success(()))
              && (r.Success? ==>
                    && v.id in grasshopperData && grasshopperData == old(grasshopperData)[v.id := grasshopperData[v.id]]
                    && fresh(grasshopperData[v.id]) && Drawn(grasshopperData[v.id], colour, DataSettings.IsRenderMode(env.vars), s))
              && (r.Failure? ==> grasshopperData == old(grasshopperData))
    {
      ghost var os := definition.objects;
      Run(inst, definition, MapOf(v.props), v.host, env.drawing);
      assert definition.objects == BoundAll(os, MapOf(v.props), v.host, env.drawing);
      if colour.Failure? {
        return Failure(SettingsException(colour.error));
      }
      var newDrawable := new CompoundDrawable(DataSettings.IsRenderMode(env.vars), colour.value, colour.value);
      var s := GetPreview(definition, newDrawable, env.preview, env.drawing);
      if s.thrown {
        return Failure(PreviewException);
      }
      grasshopperData := grasshopperData[v.id := newDrawable];
      return Success(());
    }

    /** The soft update's walk over the cache, in the order the dictionary yields it: each
        drawable takes the colour, and the host of each record that is not pending is asked to
        redraw; a record that does not open throws once its drawable is recoloured. */
    method Recolour(c: Argb, views: map<ObjectId, RecordView>) returns (r: Result<set<ObjectId>, Exception>)
      modifies grasshopperData.Values
      ensures r == SoftUpdateOf(grasshopperData.Keys, toUpdate, views, Success(c))
      ensures forall cd :: cd in grasshopperData.Values ==>
                LookOf(cd) == old(LookOf(cd)) || Repainted(old(LookOf(cd)), LookOf(cd), c)
      ensures r.Success? ==> forall cd :: cd in grasshopperData.Values ==> Repainted(old(LookOf(cd)), LookOf(cd), c)
      ensures r.Failure? ==>
                exists id :: && id in grasshopperData && id !in toUpdate && id !in views
                             && Repainted(old(LookOf(grasshopperData[id])), LookOf(grasshopperData[id]), c)
    {
      ghost var before := map cd | cd in grasshopperData.Values :: LookOf(cd);
      var remaining := grasshopperData.Keys;
      ghost var done: set<ObjectId> := {};
      ghost var painted: set<CompoundDrawable> := {};
      var hosts: set<ObjectId> := {};
      while remaining != {}
        invariant remaining <= grasshopperData.Keys && done == grasshopperData.Keys - remaining
        invariant forall id :: id in done ==> grasshopperData[id] in painted
        invariant done - toUpdate <= views.Keys && hosts == Hosts(done - toUpdate, views)
        invariant forall cd :: cd in grasshopperData.Values ==>
                    if cd in painted then Repainted(before[cd], LookOf(cd), c) else LookOf(cd) == before[cd]
        decreases remaining
      {
        var id :| id in remaining;
        TakeOne(grasshopperData.Keys, remaining, done, id);
        remaining := remaining - {id};
        var ok;
        ok, painted, hosts := RecolourStep(id, c, views, before, painted, done, hosts);
        if !ok {
          return Failure(Exception.NullReference);
        }
        done := done + {id};
      }
      assert done == grasshopperData.Keys;
      return Success(hosts);
    }

    /** One turn of that walk. */
    method RecolourStep(id: ObjectId, c: Argb, views: map<ObjectId, RecordView>, ghost before: map<CompoundDrawable, Look>,
                        ghost painted: set<CompoundDrawable>, ghost done: set<ObjectId>, hosts: set<ObjectId>)
      returns (ok: bool, ghost painted': set<CompoundDrawable>, hosts': set<ObjectId>)
      requires id in grasshopperData && id !in done && done <= grasshopperData.Keys
      requires grasshopperData.Values <= before.Keys
      requires forall i :: i in done ==> grasshopperData[i] in painted
      requires done - toUpdate <= views.Keys && hosts == Hosts(done - toUpdate, views)
      requires forall cd :: cd in grasshopperData.Values ==>
                 if cd in painted then Repainted(before[cd], LookOf(cd), c) else LookOf(cd) == before[cd]
      modifies grasshopperData[id]
      ensures grasshopperData == old(grasshopperData)
      ensures forall cd :: cd in grasshopperData.Values ==>
                if cd in painted' then Repainted(before[cd], LookOf(cd), c) else LookOf(cd) == before[cd]
      ensures Repainted(before[grasshopperData[id]], LookOf(grasshopperData[id]), c)
      ensures ok <==> id in toUpdate || id in views
      ensures ok ==>
                && (forall i :: i in done + {id} ==> grasshopperData[i] in painted')
                && (done + {id}) - toUpdate <= views.Keys && hosts' == Hosts((done + {id}) - toUpdate, views)
    {
      var cd := grasshopperData[id];
      Paint(cd, c);
      painted' := painted + {cd};
      hosts' := hosts;
      ok := true;
      if id !in toUpdate {
        if id !in views {
          return false, painted', hosts';
        }
        HostsAdd(done - toUpdate, id, views);
        hosts' := hosts + {views[id].host};
      }
      assert (done + {id}) - toUpdate == if id in toUpdate then done - toUpdate else (done - toUpdate) + {id};
    }

    /** Everything but the cache as it was before the loop, and names still resolving alike. */
    ghost predicate Kept(t0: set<ObjectId>, hard: bool, soft: bool, reactors: bool, m0: map<string, string>,
                         d0: map<string, Option<DC.Archive>>, fs: DC.FileSystem)
      reads this, definitionManager
    {
      && toUpdate == t0 && needHardUpdate == hard && needSoftUpdate == soft && reactorsEnabled == reactors
      && definitionManager.docs == d0 && SameResolution(m0, definitionManager.nameToPath, fs)
    }

    /** The loop of `Proccess` over the pending records, in the order the set yields them, on
        the views of the records that open: a record that does not open is skipped; every other
        one is updated and its host entity asked to redraw. The first exception ends the loop. */
    method UpdatePending(pending: set<ObjectId>, views: map<ObjectId, RecordView>,
                         colour: Result<Argb, DataSettings.SettingsError>, env: Environment, inst: Instances)
      returns (r: Result<set<ObjectId>, Exception>)
      requires Keyed(views)
      modifies this, definitionManager, inst
      ensures inst.definitions == old(inst.definitions)
      ensures Kept(old(toUpdate), old(needHardUpdate), old(needSoftUpdate), old(reactorsEnabled),
                   old(definitionManager.nameToPath), old(definitionManager.docs), env.fs)
      ensures var outcomes := Outcomes(views, old(definitionManager.nameToPath), old(definitionManager.docs), colour, env);
              && (r.Success? ==>
                    Progress(old(grasshopperData), grasshopperData, pending, outcomes, colour, DataSettings.IsRenderMode(env.vars),
                             views, r.value))
              && (r.Failure? ==>
                    SomeUpdateThrows(pending, outcomes) && Throws(pending, outcomes, r.error) &&
                    grasshopperData.Keys <= old(grasshopperData).Keys + pending)
    {
      ghost var m0, d0 := definitionManager.nameToPath, definitionManager.docs;
      ghost var t0, hard, soft, reactors := toUpdate, needHardUpdate, needSoftUpdate, reactorsEnabled;
      ghost var render := DataSettings.IsRenderMode(env.vars);
      ghost var outcomes := Outcomes(views, m0, d0, colour, env);
      ghost var before := grasshopperData;
      ghost var done: set<ObjectId> := {};
      var redrawn: set<ObjectId> := {};
      var remaining := pending;
      ProgressStart(before, outcomes, colour, render, views);
      while remaining != {}
        invariant remaining <= pending && done == pending - remaining
        invariant Kept(t0, hard, soft, reactors, m0, d0, env.fs) && inst.definitions == old(inst.definitions)
        invariant Progress(before, grasshopperData, done, outcomes, colour, render, views, redrawn)
        decreases remaining
      {
        var ghDataId :| ghDataId in remaining;
        TakeOne(pending, remaining, done, ghDataId);
        remaining := remaining - {ghDataId};
        var u;
        u, redrawn := UpdateStep(ghDataId, views, colour, env, inst, outcomes, t0, hard, soft, reactors, m0, d0,
                                 before, done, redrawn);
        if u.Failure? {
          Within(grasshopperData.Keys, before.Keys, done + {ghDataId}, pending);
          SomeUpdateThrowsWithin(done + {ghDataId}, pending, outcomes);
          assert ghDataId in pending;
          return Failure(u.error);
        }
        done := done + {ghDataId};
      }
      assert done == pending;
      return Success(redrawn);
    }

    /** One turn of that loop. */
    method UpdateStep(ghDataId: ObjectId, views: map<ObjectId, RecordView>,
                      colour: Result<Argb, DataSettings.SettingsError>, env: Environment, inst: Instances,
                      ghost outcomes: map<ObjectId, Result<Option<Scan>, Exception>>,
                      ghost t0: set<ObjectId>, ghost hard: bool, ghost soft: bool, ghost reactors: bool,
                      ghost m0: map<string, string>, ghost d0: map<string, Option<DC.Archive>>,
                      ghost before: map<ObjectId, CompoundDrawable>, ghost done: set<ObjectId>, redrawn: set<ObjectId>)
      returns (u: Result<(), Exception>, redrawn': set<ObjectId>)
      requires ghDataId !in done && Keyed(views)
      requires outcomes == Outcomes(views, m0, d0, colour, env)
      requires Kept(t0, hard, soft, reactors, m0, d0, env.fs)
      requires Progress(before, grasshopperData, done, outcomes, colour, DataSettings.IsRenderMode(env.vars), views, redrawn)
      modifies this, definitionManager, inst
      ensures inst.definitions == old(inst.definitions)
      ensures Kept(t0, hard, soft, reactors, m0, d0, env.fs)
      ensures u.Failure? ==>
                && SomeUpdateThrows(done + {ghDataId}, outcomes) && ghDataId in outcomes && outcomes[ghDataId] == Failure(u.error)
                && grasshopperData.Keys <= before.Keys + done + {ghDataId}
      ensures u.Success? ==>
                Progress(before, grasshopperData, done + {ghDataId}, outcomes, colour, DataSettings.IsRenderMode(env.vars), views, redrawn')
    {
      redrawn' := redrawn;
      u := Success(());
      if ghDataId in views {
        var v := views[ghDataId];
        u := UpdateRecord(v, colour, env, inst, m0, outcomes, before, done);
        if u.Failure? {
          SomeUpdateThrowsAdd(done, ghDataId, outcomes);
          return;
        }
        redrawn' := redrawn + {v.host};
      } else {
        UpdatedCacheStep(before, grasshopperData, grasshopperData, ghDataId, done, outcomes, colour, DataSettings.IsRenderMode(env.vars));
      }
      HostsAdd(done, ghDataId, views);
      SomeUpdateThrowsAdd(done, ghDataId, outcomes);
    }

    /** One record of that loop, updated: the cache then holds what the records updated so far
        drew. */
    method UpdateRecord(v: RecordView, colour: Result<Argb, DataSettings.SettingsError>, env: Environment,
                        inst: Instances, ghost m0: map<string, string>,
                        ghost outcomes: map<ObjectId, Result<Option<Scan>, Exception>>,
                        ghost before: map<ObjectId, CompoundDrawable>, ghost done: set<ObjectId>)
      returns (r: Result<(), Exception>)
      requires v.id !in done
      requires v.id in outcomes && outcomes[v.id] == UpdateOf(v, m0, definitionManager.docs, colour, env)
      requires SameResolution(m0, definitionManager.nameToPath, env.fs)
      requires UpdatedCache(before, grasshopperData, done, outcomes, colour, DataSettings.IsRenderMode(env.vars))
      modifies this, definitionManager, inst
      ensures inst.definitions == old(inst.definitions)
      ensures toUpdate == old(toUpdate) && needHardUpdate == old(needHardUpdate) && needSoftUpdate == old(needSoftUpdate)
      ensures reactorsEnabled == old(reactorsEnabled) && definitionManager.docs == old(definitionManager.docs)
      ensures SameResolution(m0, definitionManager.nameToPath, env.fs)
      ensures r.Success? <==> outcomes[v.id].Success?
      ensures r.Failure? ==> r.error == outcomes[v.id].error && grasshopperData == old(grasshopperData)
      ensures r.Success? ==> UpdatedCache(before, grasshopperData, done + {v.id}, outcomes, colour, DataSettings.IsRenderMode(env.vars))
      ensures r.Success? ==> grasshopperData.Keys <= old(grasshopperData).Keys + {v.id}
    {
      ghost var cache := grasshopperData;
      UpdateOfResolution(v, m0, definitionManager.nameToPath, definitionManager.docs, colour, env);
      r := UpdateDrawable(v, colour, env, inst);
      if r.Success? {
        UpdatedCacheStep(before, cache, grasshopperData, v.id, done, outcomes, colour, DataSettings.IsRenderMode(env.vars));
      }
    }

    /** The head of `Proccess`: a hard update clears both flags and queues every cached record;
        otherwise a soft update clears the soft flag, reads the colour setting and recolours the
        cache. */
    method Prepare(views: map<ObjectId, RecordView>, env: Environment) returns (r: Result<set<ObjectId>, Exception>)
      modifies this, grasshopperData.Values
      ensures !needHardUpdate && !needSoftUpdate
      ensures grasshopperData == old(grasshopperData) && reactorsEnabled == old(reactorsEnabled)
      ensures toUpdate == Pending(old(toUpdate), old(grasshopperData).Keys, old(needHardUpdate))
      ensures r == FlagsOutcome(old(needHardUpdate), old(needSoftUpdate), grasshopperData.Keys, old(toUpdate), views,
                                DataSettings.Colour(env.vars, env.tables))
      ensures var colour := DataSettings.Colour(env.vars, env.tables);
              if !old(needHardUpdate) && old(needSoftUpdate) && colour.Success? then
                && (forall cd :: cd in grasshopperData.Values ==>
                      LookOf(cd) == old(LookOf(cd)) || Repainted(old(LookOf(cd)), LookOf(cd), colour.value))
                && (r.Success? ==> forall cd :: cd in grasshopperData.Values ==> Repainted(old(LookOf(cd)), LookOf(cd), colour.value))
              else forall cd :: cd in grasshopperData.Values ==> LookOf(cd) == old(LookOf(cd))
    {
      if needHardUpdate {
        needHardUpdate := false;
        needSoftUpdate := false;
        toUpdate := toUpdate + grasshopperData.Keys;
        return Success({});
      }
      if needSoftUpdate {
        needSoftUpdate := false;
        var colour := DataSettings.Colour(env.vars, env.tables);
        if colour.Failure? {
          return Failure(SettingsException(colour.error));
        }
        r := Recolour(colour.value, views);
        return;
      }
      return Success({});
    }

    /** The body of `Proccess` once something is pending: the reactors are detached, the
        drawing becomes the linked document, the pending records are updated, and then, however
        the loop ends, the linked document is restored, the pending set emptied and the
        reactors attached again. */
    method RunPending(views: map<ObjectId, RecordView>, env: Environment, inst: Instances,
                      ctx: DrawingContext.GhDrawingContext)
      returns (r: Result<set<ObjectId>, Exception>)
      requires Keyed(views)
      modifies this, definitionManager, inst, ctx
      ensures inst.definitions == old(inst.definitions)
      ensures toUpdate == {} && reactorsEnabled
      ensures needHardUpdate == old(needHardUpdate) && needSoftUpdate == old(needSoftUpdate)
      ensures ctx.linkedDocument == old(ctx.linkedDocument) && ctx.preview == old(ctx.preview)
      ensures ctx.modified == old(ctx.modified) && ctx.erased == old(ctx.erased) && ctx.appended == old(ctx.appended)
      ensures ctx.commands == old(ctx.commands) && ctx.needRedraw == old(ctx.needRedraw)
      ensures definitionManager.docs == old(definitionManager.docs)
      ensures SameResolution(old(definitionManager.nameToPath), definitionManager.nameToPath, env.fs)
      ensures var colour := DataSettings.Colour(env.vars, env.tables);
              var outcomes := Outcomes(views, old(definitionManager.nameToPath), old(definitionManager.docs), colour, env);
              && (r.Success? <==> !SomeUpdateThrows(old(toUpdate), outcomes))
              && (r.Success? ==>
                    && r.value == Hosts(old(toUpdate), views)
                    && UpdatedCache(old(grasshopperData), grasshopperData, old(toUpdate), outcomes, colour,
                                    DataSettings.IsRenderMode(env.vars)))
              && (r.Failure? ==> Throws(old(toUpdate), outcomes, r.error))
              && grasshopperData.Keys <= old(grasshopperData).Keys + old(toUpdate)
    {
      var pending := toUpdate;
      reactorsEnabled := false;
      var saveDoc := ctx.linkedDocument;
      ctx.linkedDocument := Some(document);
      var colour := DataSettings.Colour(env.vars, env.tables);
      r := UpdatePending(pending, views, colour, env, inst);
      ctx.linkedDocument := saveDoc;
      toUpdate := {};
      reactorsEnabled := true;
    }

    /** `Proccess`: the flags are handled first (a colour that cannot be read, or a cached
        record that does not open, leaves the method from the soft update, with the pending set
        kept); with nothing pending it returns; otherwise the pending records are updated with
        the linked document and the reactors restored afterwards. The result is the set of
        host entities asked to redraw. */
    method Proccess(records: map<ObjectId, GrasshopperData>, db: Database, env: Environment, inst: Instances,
                    ctx: DrawingContext.GhDrawingContext)
      returns (r: Result<set<ObjectId>, Exception>)
      requires Opens(records)
      modifies this, definitionManager, inst, ctx, grasshopperData.Values
      ensures ctx.preview == old(ctx.preview)
      ensures inst.definitions == old(inst.definitions)
      ensures !needHardUpdate && !needSoftUpdate
      ensures ctx.linkedDocument == old(ctx.linkedDocument)
      ensures var views := old(Views(records, db));
              var colour := DataSettings.Colour(env.vars, env.tables);
              var pending := Pending(old(toUpdate), old(grasshopperData).Keys, old(needHardUpdate));
              var head := FlagsOutcome(old(needHardUpdate), old(needSoftUpdate), old(grasshopperData).Keys, old(toUpdate),
                                       views, colour);
              var outcomes := Outcomes(views, old(definitionManager.nameToPath), old(definitionManager.docs), colour, env);
              && (head.Failure? ==>
                    r == head && toUpdate == pending && grasshopperData == old(grasshopperData) &&
                    reactorsEnabled == old(reactorsEnabled))
              && (head.Success? && pending == {} ==>
                    r == head && toUpdate == {} && grasshopperData == old(grasshopperData) &&
                    reactorsEnabled == old(reactorsEnabled))
              && (head.Success? && pending != {} ==>
                    && toUpdate == {} && reactorsEnabled
                    && (r.Success? <==> !SomeUpdateThrows(pending, outcomes))
                    && (r.Success? ==>
                          && r.value == head.value + Hosts(pending, views)
                          && UpdatedCache(old(grasshopperData), grasshopperData, pending, outcomes, colour,
                                          DataSettings.IsRenderMode(env.vars)))
                    && (r.Failure? ==> Throws(pending, outcomes, r.error))
                    && grasshopperData.Keys <= old(grasshopperData).Keys + pending)
      ensures r.Success? ==> !HasPendingUpdates()
    {
      var views := Views(records, db);
      OpensKeyed(records, db);
      var head := Prepare(views, env);
      if head.Failure? || toUpdate == {} {
        return head;
      }
      var u := RunPending(views, env, inst, ctx);
      if u.Failure? {
        return Failure(u.error);
      }
      return Success(head.value + u.value);
    }

    /** `OnObjectModified`: a modified record is queued; a modified entity queues the record it
        carries; a modified block queues the record of every reference to it that carries one. */
    method OnObjectModified(o: DbObject, db: Database)
      modifies this
      ensures toUpdate == old(toUpdate) + ModifiedRecords(o, db)
      ensures grasshopperData == old(grasshopperData) && needHardUpdate == old(needHardUpdate)
      ensures needSoftUpdate == old(needSoftUpdate) && reactorsEnabled == old(reactorsEnabled)
    {
      match o
      case RecordObject(id) =>
        toUpdate := toUpdate + {id};
      case EntityObject(id) =>
        var ghId := db.GetGrasshopperData(Some(id));
        if !ghId.IsNull() {
          toUpdate := toUpdate + {ghId};
        }
      case BlockRecordObject(_, refs) =>
        var i := 0;
        while i < |refs|
          invariant 0 <= i <= |refs|
          invariant toUpdate == old(toUpdate) + IdSet(AttachedRecords(refs[..i], db))
          invariant grasshopperData == old(grasshopperData) && needHardUpdate == old(needHardUpdate)
          invariant needSoftUpdate == old(needSoftUpdate) && reactorsEnabled == old(reactorsEnabled)
        {
          assert refs[..i + 1][..i] == refs[..i];
          var ghId := db.GetGrasshopperData(Some(refs[i]));
          if !ghId.IsNull() {
            IdSetAppend(AttachedRecords(refs[..i], db), ghId);
            toUpdate := toUpdate + {ghId};
          }
          i := i + 1;
        }
        assert refs[..i] == refs;
      case OtherObject(_) =>
    }

    /** `OnObjectErased`: for a record, or an entity carrying one, the cache entry keyed by the
        erased object's own id is dropped, and an un-erased object's own id is queued; other
        objects change nothing. An erased host entity therefore leaves its record's entry. */
    method OnObjectErased(o: DbObject, isErased: bool, db: Database)
      modifies this
      ensures needHardUpdate == old(needHardUpdate) && needSoftUpdate == old(needSoftUpdate)
      ensures reactorsEnabled == old(reactorsEnabled)
      ensures ErasedRecord(o, db).IsNull() ==> grasshopperData == old(grasshopperData) && toUpdate == old(toUpdate)
      ensures !ErasedRecord(o, db).IsNull() && isErased ==>
                grasshopperData == old(grasshopperData) - {o.id} && toUpdate == old(toUpdate)
      ensures !ErasedRecord(o, db).IsNull() && !isErased ==>
                grasshopperData == old(grasshopperData) && toUpdate == old(toUpdate) + {o.id}
      ensures o.EntityObject? && ErasedRecord(o, db) != o.id && ErasedRecord(o, db) in old(grasshopperData) ==>
                ErasedRecord(o, db) in grasshopperData
    {
      var ghId := NullId;
      if o.RecordObject? {
        ghId := o.id;
      } else if o.EntityObject? {
        ghId := db.GetGrasshopperData(Some(o.id));
      }
      if !ghId.IsNull() {
        if isErased {
          grasshopperData := grasshopperData - {o.id};
        } else {
          toUpdate := toUpdate + {o.id};
        }
      }
    }

    /** The `Reloaded` handler: every cached record that still opens is queued, whichever
        definition was reloaded. */
    method OnReloaded(defName: string, records: map<ObjectId, GrasshopperData>)
      modifies this
      ensures toUpdate == old(toUpdate) + (grasshopperData.Keys * records.Keys)
      ensures grasshopperData == old(grasshopperData) && needHardUpdate == old(needHardUpdate)
      ensures needSoftUpdate == old(needSoftUpdate) && reactorsEnabled == old(reactorsEnabled)
    {
      var remaining := grasshopperData.Keys;
      while remaining != {}
        invariant remaining <= grasshopperData.Keys
        invariant toUpdate == old(toUpdate) + ((grasshopperData.Keys - remaining) * records.Keys)
        invariant grasshopperData == old(grasshopperData) && needHardUpdate == old(needHardUpdate)
        invariant needSoftUpdate == old(needSoftUpdate) && reactorsEnabled == old(reactorsEnabled)
        decreases remaining
      {
        var ghDataId :| ghDataId in remaining;
        remaining := remaining - {ghDataId};
        if ghDataId in records {
          toUpdate := toUpdate + {ghDataId};
        }
      }
    }

    /** `Reload` on the definition cache with the manager's `Reloaded` handler subscribed: a
        name that resolves has its archive read again and every cached record that opens is
        queued; an unresolved name changes nothing but what `FindFile` remembers. */
    method ReloadDefinition(defName: string, fs: DC.FileSystem, records: map<ObjectId, GrasshopperData>)
      modifies this, definitionManager
      ensures var res := DC.Resolve(old(definitionManager.nameToPath), defName, [], fs);
              && definitionManager.nameToPath == DC.Remembered(old(definitionManager.nameToPath), defName, res)
              && definitionManager.docs ==
                 (if res.Some? then old(definitionManager.docs)[res.value := fs.read(res.value)] else old(definitionManager.docs))
              && toUpdate == old(toUpdate) + (if res.Some? then grasshopperData.Keys * records.Keys else {})
      ensures grasshopperData == old(grasshopperData) && needHardUpdate == old(needHardUpdate)
      ensures needSoftUpdate == old(needSoftUpdate) && reactorsEnabled == old(reactorsEnabled)
    {
      var reloaded := definitionManager.Reload(defName, fs);
      if reloaded.Some? {
        OnReloaded(reloaded.value, records);
      }
    }

    /** `AddGrasshopperData`: a record with a null id, or one already cached, is refused; else
        its definition is loaded from the drawing's directory or the search path and, when it
        can be read, every input of a primitive kind is added to the record as its stored value
        or type placeholder. A missing definition name throws before the load, a null cached
        archive when the definition is read. The cache itself is never touched. */
    method AddGrasshopperData(g: GrasshopperData, fs: DC.FileSystem) returns (r: Result<bool, Exception>)
      requires g.Valid()
      modifies definitionManager, g.imp
      ensures g.Valid() && grasshopperData == old(grasshopperData) && toUpdate == old(toUpdate)
      ensures g.imp.definition == old(g.imp.definition) && g.imp.visible == old(g.imp.visible)
      ensures g.imp.objectId == old(g.imp.objectId)
      ensures var objId := old(g.imp.objectId);
              var name := old(g.Definition());
              if objId.IsNull() || objId in grasshopperData then
                && r == Success(false) && g.imp.props == old(g.imp.props)
                && definitionManager.nameToPath == old(definitionManager.nameToPath)
                && definitionManager.docs == old(definitionManager.docs)
              else
                (definitionManager.nameToPath, definitionManager.docs, r, g.imp.props) ==
                Registration(old(definitionManager.nameToPath), old(definitionManager.docs), name, old(g.imp.props), DwgPath(), fs)
    {
      var objId := g.imp.objectId;
      if objId.IsNull() || objId in grasshopperData {
        return Success(false);
      }
      var name := g.Definition();
      if name.None? {
        return Failure(Exception.ArgumentNull);
      }
      definitionManager.Load(name.value, [DwgPath()], fs);
      var d := definitionManager.Definition(name.value, fs);
      if d.Failure? {
        return Failure(Exception.NullReference);
      }
      var definition := d.value;
      if definition == null {
        return Success(false);
      }
      var values := GetInputParametersValues(definition);
      AddInputs(g, values);
      return Success(true);
    }

    /** `Bake`: with the reactors detached and the drawing as the linked document, every
        record of the list that opens has its definition's unlocked bake components expired and
        the definition run; then, however the walk ends, the linked document is restored and
        the reactors attached again. What the bake components then add to the drawing is not
        modelled. */
    method Bake(ids: seq<ObjectId>, records: map<ObjectId, GrasshopperData>, db: Database, env: Environment,
                inst: Instances, ctx: DrawingContext.GhDrawingContext)
      returns (r: Result<seq<BakeRun>, Exception>)
      modifies this, definitionManager, inst, ctx
      ensures r == BakeLog(ids, old(Views(records, db)), old(definitionManager.nameToPath), old(definitionManager.docs), env.fs)
      ensures reactorsEnabled && ctx.linkedDocument == old(ctx.linkedDocument)
      ensures grasshopperData == old(grasshopperData) && toUpdate == old(toUpdate)
      ensures needHardUpdate == old(needHardUpdate) && needSoftUpdate == old(needSoftUpdate)
      ensures definitionManager.docs == old(definitionManager.docs)
      ensures SameResolution(old(definitionManager.nameToPath), definitionManager.nameToPath, env.fs)
    {
      var views := Views(records, db);
      reactorsEnabled := false;
      var saveDoc := ctx.linkedDocument;
      ctx.linkedDocument := Some(document);
      r := BakeAll(ids, views, env, inst);
      ctx.linkedDocument := saveDoc;
      reactorsEnabled := true;
    }

    /** The walk of `Bake` over the list. */
    method BakeAll(ids: seq<ObjectId>, views: map<ObjectId, RecordView>, env: Environment, inst: Instances)
      returns (r: Result<seq<BakeRun>, Exception>)
      modifies definitionManager, inst
      ensures r == BakeLog(ids, views, old(definitionManager.nameToPath), old(definitionManager.docs), env.fs)
      ensures definitionManager.docs == old(definitionManager.docs)
      ensures SameResolution(old(definitionManager.nameToPath), definitionManager.nameToPath, env.fs)
    {
      ghost var m0, d0 := definitionManager.nameToPath, definitionManager.docs;
      var log: seq<BakeRun> := [];
      var i := 0;
      while i < |ids|
        invariant 0 <= i <= |ids|
        invariant BakeLog(ids[..i], views, m0, d0, env.fs) == Success(log)
        invariant definitionManager.docs == d0 && SameResolution(m0, definitionManager.nameToPath, env.fs)
      {
        assert ids[..i + 1][..i] == ids[..i];
        var step := BakeOne(ids[i], views, env, inst, m0);
        if step.Failure? {
          BakeLogStops(ids, i + 1, views, m0, d0, env.fs);
          return Failure(step.error);
        }
        log := log + step.value;
        i := i + 1;
      }
      assert ids[..i] == ids;
      return Success(log);
    }

    /** One id of that walk. */
    method BakeOne(id: ObjectId, views: map<ObjectId, RecordView>, env: Environment, inst: Instances,
                   ghost m0: map<string, string>)
      returns (r: Result<seq<BakeRun>, Exception>)
      requires SameResolution(m0, definitionManager.nameToPath, env.fs)
      modifies definitionManager, inst
      ensures r == BakeStep(id, views, m0, definitionManager.docs, env.fs)
      ensures definitionManager.docs == old(definitionManager.docs)
      ensures SameResolution(m0, definitionManager.nameToPath, env.fs)
    {
      if id !in views {
        return Success([]);
      }
      var v := views[id];
      if v.definition.None? {
        return Failure(Exception.ArgumentNull);
      }
      ghost var m1 := definitionManager.nameToPath;
      assert DC.Resolve(m0, v.definition.value, [], env.fs) == DC.Resolve(m1, v.definition.value, [], env.fs);
      var d := definitionManager.Definition(v.definition.value, env.fs);
      RememberedResolvesAlike(m1, v.definition.value, env.fs);
      if d.Failure? {
        return Failure(Exception.NullReference);
      }
      var definition := d.value;
      if definition == null {
        return Success([]);
      }
      var targets := ExpireBakeComponents(definition);
      Run(inst, definition, MapOf(v.props), v.host, env.drawing);
      return Success([BakeRun(id, targets)]);
    }

    /** The constructor's scan: every entity with a record has the record's definition loaded
        from the drawing's directory or the search path, and the record queued; the reactors are
        then subscribed. A record id that does not open, or a record without a definition name,
        throws and the manager is not made. The loads change nothing the scan reads, so the scan
        is made first and the loads follow in the same order. */
    method LoadDrawing(entities: seq<ObjectId>, db: Database, records: map<ObjectId, GrasshopperData>, fs: DC.FileSystem)
      returns (r: Result<(), Exception>)
      modifies this, definitionManager
      ensures grasshopperData == old(grasshopperData) && needHardUpdate == old(needHardUpdate)
      ensures needSoftUpdate == old(needSoftUpdate)
      ensures r.Success? <==> old(Loadable(AttachedRecords(entities, db), NamesOf(records)))
      ensures r.Success? ==>
                var ids := old(AttachedRecords(entities, db));
                && toUpdate == old(toUpdate) + IdSet(ids)
                && (definitionManager.nameToPath, definitionManager.docs) ==
                   AfterLoads(old(definitionManager.nameToPath), old(definitionManager.docs),
                              Names(ids, old(NamesOf(records))), [DwgPath()], fs)
                && reactorsEnabled
    {
      var ids := ScanRecords(entities, db);
      var names := NamesOf(records);
      r := LoadRecords(ids, names, [DwgPath()], fs);
      if r.Success? {
        reactorsEnabled := true;
      }
    }

    /** The loads of the scan, in order, stopping at the first record that does not open or has
        no name. */
    method LoadRecords(ids: seq<ObjectId>, names: map<ObjectId, Option<string>>, searchPath: seq<string>, fs: DC.FileSystem)
      returns (r: Result<(), Exception>)
      modifies this, definitionManager
      ensures grasshopperData == old(grasshopperData) && needHardUpdate == old(needHardUpdate)
      ensures needSoftUpdate == old(needSoftUpdate) && reactorsEnabled == old(reactorsEnabled)
      ensures r.Success? <==> Loadable(ids, names)
      ensures r.Success? ==>
                && toUpdate == old(toUpdate) + IdSet(ids)
                && (definitionManager.nameToPath, definitionManager.docs) ==
                   AfterLoads(old(definitionManager.nameToPath), old(definitionManager.docs), Names(ids, names), searchPath, fs)
    {
      ghost var st0 := (definitionManager.nameToPath, definitionManager.docs);
      var i := 0;
      while i < |ids|
        invariant 0 <= i <= |ids| && Loadable(ids[..i], names)
        invariant toUpdate == old(toUpdate) + IdSet(ids[..i])
        invariant (definitionManager.nameToPath, definitionManager.docs) == AfterLoads(st0.0, st0.1, Names(ids[..i], names), searchPath, fs)
        invariant grasshopperData == old(grasshopperData) && needHardUpdate == old(needHardUpdate)
        invariant needSoftUpdate == old(needSoftUpdate) && reactorsEnabled == old(reactorsEnabled)
      {
        r := LoadOne(ids, i, names, searchPath, fs, old(toUpdate), st0);
        if r.Failure? {
          return;
        }
        i := i + 1;
      }
      assert ids[..i] == ids;
      return Success(());
    }

    /** One turn of that loop: the record's definition loaded and the record queued. */
    method LoadOne(ids: seq<ObjectId>, i: nat, names: map<ObjectId, Option<string>>, searchPath: seq<string>,
                   fs: DC.FileSystem, ghost t0: set<ObjectId>, ghost st0: (map<string, string>, map<string, Option<DC.Archive>>))
      returns (r: Result<(), Exception>)
      requires i < |ids| && Loadable(ids[..i], names)
      requires toUpdate == t0 + IdSet(ids[..i])
      requires (definitionManager.nameToPath, definitionManager.docs) == AfterLoads(st0.0, st0.1, Names(ids[..i], names), searchPath, fs)
      modifies this, definitionManager
      ensures grasshopperData == old(grasshopperData) && needHardUpdate == old(needHardUpdate)
      ensures needSoftUpdate == old(needSoftUpdate) && reactorsEnabled == old(reactorsEnabled)
      ensures r.Success? <==> ids[i] in names && names[ids[i]].Some?
      ensures r.Success? ==>
                && Loadable(ids[..i + 1], names) && toUpdate == t0 + IdSet(ids[..i + 1])
                && (definitionManager.nameToPath, definitionManager.docs) ==
                   AfterLoads(st0.0, st0.1, Names(ids[..i + 1], names), searchPath, fs)
    {
      var ghDataId := ids[i];
      if ghDataId !in names {
        return Failure(Exception.NullReference);
      }
      var name := names[ghDataId];
      if name.None? {
        return Failure(Exception.ArgumentNull);
      }
      assert ids[..i + 1] == ids[..i] + [ghDataId];
      NamesAppend(ids[..i], ghDataId, names);
      IdSetAppend(ids[..i], ghDataId);
      AfterLoadsAppend(st0.0, st0.1, Names(ids[..i], names), name.value, searchPath, fs);
      definitionManager.Load(name.value, searchPath, fs);
      toUpdate := toUpdate + {ghDataId};
      return Success(());
    }
  }

  /** `new GhDataManager(doc)`: an empty manager whose constructor scan then loads the drawing;
      when the scan throws, no manager is made. */
  method NewManager(document: Document, entities: seq<ObjectId>, db: Database,
                    records: map<ObjectId, GrasshopperData>, fs: DC.FileSystem)
    returns (r: Result<GhDataManager, Exception>)
    ensures r.Success? <==> Loadable(AttachedRecords(entities, db), NamesOf(records))
    ensures r.Success? ==>
              var m := r.value;
              var ids := AttachedRecords(entities, db);
              && fresh(m) && fresh(m.definitionManager) && m.document == document
              && m.grasshopperData == map[] && m.toUpdate == IdSet(ids)
              && !m.needHardUpdate && !m.needSoftUpdate && m.reactorsEnabled
              && (m.definitionManager.nameToPath, m.definitionManager.docs) ==
                 AfterLoads(map[], map[], Names(ids, NamesOf(records)), [Paths.DirectoryName(document.name)], fs)
  {
    ghost var ids := AttachedRecords(entities, db);
    ghost var names := NamesOf(records);
    var m := new GhDataManager(document);
    var loaded := m.LoadDrawing(entities, db, records, fs);
    assert AttachedRecords(entities, db) == ids && NamesOf(records) == names;
    if loaded.Failure? {
      return Failure(loaded.error);
    }
    return Success(m);
  }

  /** The input loop of `AddGrasshopperData`: a type placeholder is added as a property of that
      type, a stored value as the property holding it. */
  method AddInputs(g: GrasshopperData, values: seq<(string, InputValue)>)
    requires g.Valid()
    modifies g.imp
    ensures g.Valid() && g.imp.props == WithInputs(old(g.imp.props), values)
    ensures g.imp.definition == old(g.imp.definition) && g.imp.visible == old(g.imp.visible)
    ensures g.imp.objectId == old(g.imp.objectId)
  {
    ghost var ps := g.imp.props;
    var i := 0;
    while i < |values|
      invariant 0 <= i <= |values|
      invariant g.Valid() && g.imp.props == WithInputs(ps, values[..i])
      invariant g.imp.definition == old(g.imp.definition) && g.imp.visible == old(g.imp.visible)
      invariant g.imp.objectId == old(g.imp.objectId)
    {
      WithInputsAppend(ps, values, i);
      AddInput(g, values[i].0, values[i].1);
      i := i + 1;
    }
    assert values[..i] == values;
  }

  /** One input added: a type placeholder as a property of that type, a stored value as the
      property holding it. */
  method AddInput(g: GrasshopperData, name: string, value: InputValue)
    requires g.Valid()
    modifies g.imp
    ensures g.Valid() && g.imp.props == Added(old(g.imp.props), name, InputProp(value)).1
    ensures g.imp.definition == old(g.imp.definition) && g.imp.visible == old(g.imp.visible)
    ensures g.imp.objectId == old(g.imp.objectId)
  {
    match value
    case TypePlaceholder(t) =>
      var _ := g.AddPropertyOfType(name, Some(t));
    case StoredValue(v) =>
      var _ := g.AddProperty(name, Some(Boxed(v)));
  }

  /** The expiry loop of `Bake`: every unlocked bake component of the definition is expired;
      the instance ids of those components are returned in object order. */
  method ExpireBakeComponents(definition: GhDocument) returns (targets: seq<int>)
    modifies definition
    ensures definition.objects == ExpiredAllForBake(old(definition.objects))
    ensures targets == BakeTargets(old(definition.objects))
    ensures definition.enabled == old(definition.enabled) && definition.solutionRequests == old(definition.solutionRequests)
    ensures definition.processing == old(definition.processing)
    ensures definition.previewMode == old(definition.previewMode) && definition.previewFilter == old(definition.previewFilter)
  {
    var os := definition.objects;
    targets := [];
    var i := 0;
    while i < |os|
      invariant 0 <= i <= |os| && |definition.objects| == |os|
      invariant forall k :: 0 <= k < |os| ==> definition.objects[k] == if k < i then ExpiredForBake(os[k]) else os[k]
      invariant targets == BakeTargets(os[..i])
      invariant definition.enabled == old(definition.enabled) && definition.solutionRequests == old(definition.solutionRequests)
      invariant definition.processing == old(definition.processing)
      invariant definition.previewMode == old(definition.previewMode) && definition.previewFilter == old(definition.previewFilter)
    {
      assert os[..i + 1][..i] == os[..i];
      if BakesIn(os[i]) {
        definition.objects := definition.objects[i := ExpiredForBake(os[i])];
        targets := targets + [os[i].Guid()];
      }
      i := i + 1;
    }
    assert os[..i] == os;
  }

  /** The entity scan: the record id of every entity that has one, in order. */
  method ScanRecords(entities: seq<ObjectId>, db: Database) returns (ids: seq<ObjectId>)
    ensures ids == AttachedRecords(entities, db)
  {
    ids := [];
    var i := 0;
    while i < |entities|
      invariant 0 <= i <= |entities| && ids == AttachedRecords(entities[..i], db)
    {
      assert entities[..i + 1][..i] == entities[..i];
      var ghDataId := db.GetGrasshopperData(Some(entities[i]));
      if !ghDataId.IsNull() {
        ids := ids + [ghDataId];
      }
      i := i + 1;
    }
    assert entities[..i] == entities;
  }

  /** The ids of a list, as a set. */
  function IdSet(ids: seq<ObjectId>): (r: set<ObjectId>)
    decreases |ids|
  {
    if |ids| == 0 then {} else IdSet(ids[..|ids| - 1]) + {ids[|ids| - 1]}
  }

  lemma {:induction false} IdSetIs(ids: seq<ObjectId>)
    ensures forall id :: id in IdSet(ids) <==> id in ids
    decreases |ids|
  {
    if |ids| > 0 {
      IdSetIs(ids[..|ids| - 1]);
      assert forall id :: id in ids <==> id in ids[..|ids| - 1] || id == ids[|ids| - 1];
    }
  }

  lemma IdSetAppend(ids: seq<ObjectId>, id: ObjectId)
    ensures IdSet(ids + [id]) == IdSet(ids) + {id}
  {
    assert (ids + [id])[..|ids|] == ids;
  }

  /** The definition name of every record that opens (None for an empty name). */
  function NamesOf(records: map<ObjectId, GrasshopperData>): (r: map<ObjectId, Option<string>>)
    reads records.Values, set g | g in records.Values :: g.imp
    ensures forall id :: id in r <==> id in records
  {
    map id | id in records :: records[id].Definition()
  }

  /** Every record id opens and has a definition name. */
  predicate Loadable(ids: seq<ObjectId>, names: map<ObjectId, Option<string>>) {
    forall i :: 0 <= i < |ids| ==> ids[i] in names && names[ids[i]].Some?
  }

  /** The definition names of loadable records, in order. */
  function Names(ids: seq<ObjectId>, names: map<ObjectId, Option<string>>): (r: seq<string>)
    requires Loadable(ids, names)
    ensures |r| == |ids|
    decreases |ids|
  {
    if |ids| == 0 then [] else Names(ids[..|ids| - 1], names) + [names[ids[|ids| - 1]].value]
  }

  lemma NamesAppend(ids: seq<ObjectId>, id: ObjectId, names: map<ObjectId, Option<string>>)
    requires Loadable(ids, names) && id in names && names[id].Some?
    ensures Loadable(ids + [id], names)
    ensures Names(ids + [id], names) == Names(ids, names) + [names[id].value]
  {
    assert (ids + [id])[..|ids|] == ids;
  }



}
