/** The update and bake of the older manager, Grasshopper-BricsCAD/GhDefintionManager.cs, on the
    same `GhDataManager` object: there the reactors are detached before the flags are looked at,
    the flags are cleared only at the end, the colour setting takes its alpha from the raw
    variable, and nothing is restored when an exception leaves `Proccess` or `Bake` (there is
    no `finally`). Everything the two versions share is in `DataManager`. */
module DataManagerOlder {
  import opened Wrappers
  import opened HostTypes
  import opened GhKernel
  import opened GrasshopperRecords
  import opened ManagedGrasshopperData
  import opened GrasshopperPlayer
  import opened DataManager
  import DataSettings
  import DrawingContext

  /** The head of the older `Proccess`: the reactors are detached; then a hard update queues
      every cached record, otherwise a soft update reads the colour setting and recolours the
      cache. No flag is cleared here. */
  method PrepareOlder(m: GhDataManager, views: map<ObjectId, RecordView>, env: Environment)
    returns (r: Result<set<ObjectId>, Exception>)
    modifies m, m.grasshopperData.Values
    ensures m.needHardUpdate == old(m.needHardUpdate) && m.needSoftUpdate == old(m.needSoftUpdate)
    ensures m.grasshopperData == old(m.grasshopperData) && !m.reactorsEnabled
    ensures m.toUpdate == Pending(old(m.toUpdate), old(m.grasshopperData).Keys, old(m.needHardUpdate))
    ensures r == FlagsOutcome(old(m.needHardUpdate), old(m.needSoftUpdate), m.grasshopperData.Keys, old(m.toUpdate),
                              views, DataSettings.ColourOlder(env.vars, env.tables))
    ensures var colour := DataSettings.ColourOlder(env.vars, env.tables);
            if !old(m.needHardUpdate) && old(m.needSoftUpdate) && colour.Success? then
              && (forall cd :: cd in m.grasshopperData.Values ==>
                    LookOf(cd) == old(LookOf(cd)) || Repainted(old(LookOf(cd)), LookOf(cd), colour.value))
              && (r.Success? ==> forall cd :: cd in m.grasshopperData.Values ==> Repainted(old(LookOf(cd)), LookOf(cd), colour.value))
            else forall cd :: cd in m.grasshopperData.Values ==> LookOf(cd) == old(LookOf(cd))
  {
    m.reactorsEnabled := false;
    if m.needHardUpdate {
      m.toUpdate := m.toUpdate + m.grasshopperData.Keys;
      return Success({});
    }
    if m.needSoftUpdate {
      var colour := DataSettings.ColourOlder(env.vars, env.tables);
      if colour.Failure? {
        return Failure(SettingsException(colour.error));
      }
      r := m.Recolour(colour.value, views);
      return;
    }
    return Success({});
  }

  /** The pending records of the older `Proccess` updated with the drawing as the linked
      document, which is restored only when no exception leaves the loop. */
  method RunPendingOlder(m: GhDataManager, views: map<ObjectId, RecordView>, env: Environment, inst: Instances,
                         ctx: DrawingContext.GhDrawingContext)
    returns (r: Result<set<ObjectId>, Exception>)
    requires Keyed(views)
    modifies m, m.definitionManager, inst, ctx
    ensures inst.definitions == old(inst.definitions)
    ensures m.toUpdate == old(m.toUpdate) && m.reactorsEnabled == old(m.reactorsEnabled)
    ensures m.needHardUpdate == old(m.needHardUpdate) && m.needSoftUpdate == old(m.needSoftUpdate)
    ensures ctx.linkedDocument == (if r.Success? then old(ctx.linkedDocument) else Some(m.document))
    ensures ctx.preview == old(ctx.preview)
    ensures m.definitionManager.docs == old(m.definitionManager.docs)
    ensures SameResolution(old(m.definitionManager.nameToPath), m.definitionManager.nameToPath, env.fs)
    ensures var colour := DataSettings.ColourOlder(env.vars, env.tables);
            var outcomes := Outcomes(views, old(m.definitionManager.nameToPath), old(m.definitionManager.docs), colour, env);
            && (r.Success? <==> !SomeUpdateThrows(old(m.toUpdate), outcomes))
            && (r.Success? ==>
                  && r.value == Hosts(old(m.toUpdate), views)
                  && UpdatedCache(old(m.grasshopperData), m.grasshopperData, old(m.toUpdate), outcomes, colour,
                                  DataSettings.IsRenderMode(env.vars)))
            && (r.Failure? ==> Throws(old(m.toUpdate), outcomes, r.error))
            && m.grasshopperData.Keys <= old(m.grasshopperData).Keys + old(m.toUpdate)
  {
    var saveDoc := ctx.linkedDocument;
    ctx.linkedDocument := Some(m.document);
    var colour := DataSettings.ColourOlder(env.vars, env.tables);
    r := m.UpdatePending(m.toUpdate, views, colour, env, inst);
    if r.Failure? {
      return;
    }
    ctx.linkedDocument := saveDoc;
  }

  /** The older `Proccess`: the reactors are detached first; an exception from the soft update
      or from the update loop leaves them detached, the flags raised and the pending set kept
      (and, from the loop, the drawing still the linked document). Otherwise the pending set
      is emptied, both flags cleared and the reactors attached again. */
  method Proccess(m: GhDataManager, records: map<ObjectId, GrasshopperData>, db: Database, env: Environment,
                  inst: Instances, ctx: DrawingContext.GhDrawingContext)
    returns (r: Result<set<ObjectId>, Exception>)
    requires Opens(records)
    modifies m, m.definitionManager, inst, ctx, m.grasshopperData.Values
    ensures ctx.preview == old(ctx.preview) && inst.definitions == old(inst.definitions)
    ensures var views := old(Views(records, db));
            var colour := DataSettings.ColourOlder(env.vars, env.tables);
            var pending := Pending(old(m.toUpdate), old(m.grasshopperData).Keys, old(m.needHardUpdate));
            var head := FlagsOutcome(old(m.needHardUpdate), old(m.needSoftUpdate), old(m.grasshopperData).Keys,
                                     old(m.toUpdate), views, colour);
            var outcomes := Outcomes(views, old(m.definitionManager.nameToPath), old(m.definitionManager.docs), colour, env);
            && (head.Failure? ==>
                  && r == head && m.toUpdate == pending && m.grasshopperData == old(m.grasshopperData)
                  && m.needHardUpdate == old(m.needHardUpdate) && m.needSoftUpdate == old(m.needSoftUpdate)
                  && !m.reactorsEnabled && ctx.linkedDocument == old(ctx.linkedDocument))
            && (head.Success? && pending == {} ==>
                  && r == head && m.grasshopperData == old(m.grasshopperData) && ctx.linkedDocument == old(ctx.linkedDocument))
            && (head.Success? && pending != {} ==>
                  && (r.Success? <==> !SomeUpdateThrows(pending, outcomes))
                  && (r.Success? ==>
                        && r.value == head.value + Hosts(pending, views)
                        && UpdatedCache(old(m.grasshopperData), m.grasshopperData, pending, outcomes, colour,
                                        DataSettings.IsRenderMode(env.vars))
                        && ctx.linkedDocument == old(ctx.linkedDocument))
                  && (r.Failure? ==>
                        && Throws(pending, outcomes, r.error) && m.toUpdate == pending
                        && m.needHardUpdate == old(m.needHardUpdate) && m.needSoftUpdate == old(m.needSoftUpdate)
                        && !m.reactorsEnabled && ctx.linkedDocument == Some(m.document))
                  && m.grasshopperData.Keys <= old(m.grasshopperData).Keys + pending)
    ensures r.Success? ==> !m.HasPendingUpdates() && m.reactorsEnabled
  {
    var views := Views(records, db);
    OpensKeyed(records, db);
    var head := PrepareOlder(m, views, env);
    if head.Failure? {
      return head;
    }
    if m.toUpdate == {} {
      Settle(m);
      return head;
    }
    r := UpdateAndSettle(m, views, head.value, env, inst, ctx);
  }

  /** The older `Proccess` once something is pending: the update loop, and the end of the
      method when no exception leaves it. */
  method UpdateAndSettle(m: GhDataManager, views: map<ObjectId, RecordView>, redrawn: set<ObjectId>, env: Environment,
                         inst: Instances, ctx: DrawingContext.GhDrawingContext)
    returns (r: Result<set<ObjectId>, Exception>)
    requires Keyed(views)
    modifies m, m.definitionManager, inst, ctx
    ensures inst.definitions == old(inst.definitions) && ctx.preview == old(ctx.preview)
    ensures var colour := DataSettings.ColourOlder(env.vars, env.tables);
            var outcomes := Outcomes(views, old(m.definitionManager.nameToPath), old(m.definitionManager.docs), colour, env);
            && (r.Success? <==> !SomeUpdateThrows(old(m.toUpdate), outcomes))
            && (r.Success? ==>
                  && r.value == redrawn + Hosts(old(m.toUpdate), views)
                  && UpdatedCache(old(m.grasshopperData), m.grasshopperData, old(m.toUpdate), outcomes, colour,
                                  DataSettings.IsRenderMode(env.vars))
                  && ctx.linkedDocument == old(ctx.linkedDocument)
                  && m.toUpdate == {} && !m.needHardUpdate && !m.needSoftUpdate && m.reactorsEnabled)
            && (r.Failure? ==>
                  && Throws(old(m.toUpdate), outcomes, r.error) && m.toUpdate == old(m.toUpdate)
                  && m.needHardUpdate == old(m.needHardUpdate) && m.needSoftUpdate == old(m.needSoftUpdate)
                  && m.reactorsEnabled == old(m.reactorsEnabled) && ctx.linkedDocument == Some(m.document))
            && m.grasshopperData.Keys <= old(m.grasshopperData).Keys + old(m.toUpdate)
  {
    var u := RunPendingOlder(m, views, env, inst, ctx);
    if u.Failure? {
      return Failure(u.error);
    }
    Settle(m);
    return Success(redrawn + u.value);
  }

  /** The end of the older `Proccess`: the pending set emptied, both flags cleared and the
      reactors attached again. */
  method Settle(m: GhDataManager)
    modifies m
    ensures m.toUpdate == {} && !m.needHardUpdate && !m.needSoftUpdate && m.reactorsEnabled
    ensures m.grasshopperData == old(m.grasshopperData)
  {
    m.toUpdate := {};
    m.needHardUpdate := false;
    m.needSoftUpdate := false;
    m.reactorsEnabled := true;
  }

  /** The older `Bake`: the same walk as the newer one, but an exception leaves the reactors
      detached and the drawing as the linked document. */
  method Bake(m: GhDataManager, ids: seq<ObjectId>, records: map<ObjectId, GrasshopperData>, db: Database,
              env: Environment, inst: Instances, ctx: DrawingContext.GhDrawingContext)
    returns (r: Result<seq<BakeRun>, Exception>)
    modifies m, m.definitionManager, inst, ctx
    ensures r == BakeLog(ids, old(Views(records, db)), old(m.definitionManager.nameToPath),
                         old(m.definitionManager.docs), env.fs)
    ensures r.Success? ==> m.reactorsEnabled && ctx.linkedDocument == old(ctx.linkedDocument)
    ensures r.Failure? ==> !m.reactorsEnabled && ctx.linkedDocument == Some(m.document)
    ensures m.grasshopperData == old(m.grasshopperData) && m.toUpdate == old(m.toUpdate)
    ensures m.needHardUpdate == old(m.needHardUpdate) && m.needSoftUpdate == old(m.needSoftUpdate)
    ensures m.definitionManager.docs == old(m.definitionManager.docs)
    ensures SameResolution(old(m.definitionManager.nameToPath), m.definitionManager.nameToPath, env.fs)
  {
    var views := Views(records, db);
    m.reactorsEnabled := false;
    var saveDoc := ctx.linkedDocument;
    ctx.linkedDocument := Some(m.document);
    r := m.BakeAll(ids, views, env, inst);
    if r.Failure? {
      return;
    }
    ctx.linkedDocument := saveDoc;
    m.reactorsEnabled := true;
  }
}
