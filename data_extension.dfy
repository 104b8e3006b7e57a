/** The plug-in's extension (`GhDataExtension`, the same class in Grasshopper-BricsCAD/GhDefinitionManager.cs
    and Grasshopper-BricsCAD/GhDefintionManager.cs but for `Update`): one manager per open
    document, made on demand or when a document is created, dropped when it is destroyed, and
    told by a changed setting whether every drawable must be recoloured or rebuilt. */
module DataExtension {
  import opened Wrappers
  import opened HostTypes
  import opened GhKernel
  import opened GrasshopperRecords
  import opened ManagedGrasshopperData
  import opened DataManager
  import DataManagerOlder
  import DataSettings
  import DrawingContext
  import GrasshopperPreviews
  import DC = DefinitionCache

  class GhDataExtension {
    var managers: map<Document, GhDataManager>

    constructor ()
      ensures managers == map[]
    {
      managers := map[];
    }

    /** `GrasshopperDataManager(doc, createIfNotExist)`: no manager for a null document; the
        manager of the document when it has one; otherwise null, or, when asked to create one,
        a new manager (whose constructor scans the drawing) filed under the document. An
        exception from that scan leaves the map as it was. */
    method GrasshopperDataManager(doc: Option<Document>, createIfNotExist: bool, entities: seq<ObjectId>, db: Database,
                                  records: map<ObjectId, GrasshopperData>, fs: DC.FileSystem)
      returns (r: Result<GhDataManager?, Exception>)
      modifies this
      ensures doc.None? ==> r == Success(null) && managers == old(managers)
      ensures doc.Some? && doc.value in old(managers) ==> r.Success? && r.value == old(managers)[doc.value] && managers == old(managers)
      ensures doc.Some? && doc.value !in old(managers) && !createIfNotExist ==> r == Success(null) && managers == old(managers)
      ensures doc.Some? && doc.value !in old(managers) && createIfNotExist ==>
                && (r.Success? <==> Loadable(AttachedRecords(entities, db), NamesOf(records)))
                && (r.Success? ==>
                      && r.value != null && fresh(r.value) && r.value.document == doc.value
                      && r.value.grasshopperData == map[] && r.value.toUpdate == IdSet(AttachedRecords(entities, db))
                      && managers == old(managers)[doc.value := r.value])
                && (r.Failure? ==> managers == old(managers))
    {
      if doc.None? {
        return Success(null);
      }
      if doc.value in managers {
        return Success(managers[doc.value]);
      }
      if !createIfNotExist {
        return Success(null);
      }
      var made := NewManager(doc.value, entities, db, records, fs);
      if made.Failure? {
        return Failure(made.error);
      }
      managers := managers[doc.value := made.value];
      return Success(made.value);
    }

    /** `OnBcDocCreated`: a created document gets a new manager, in place of any it had. */
    method OnBcDocCreated(doc: Document, entities: seq<ObjectId>, db: Database,
                          records: map<ObjectId, GrasshopperData>, fs: DC.FileSystem)
      returns (r: Result<(), Exception>)
      modifies this
      ensures r.Success? <==> Loadable(AttachedRecords(entities, db), NamesOf(records))
      ensures r.Success? ==>
                && doc in managers && fresh(managers[doc]) && managers[doc].document == doc
                && managers[doc].toUpdate == IdSet(AttachedRecords(entities, db))
                && managers == old(managers)[doc := managers[doc]]
      ensures r.Failure? ==> managers == old(managers)
    {
      var made := NewManager(doc, entities, db, records, fs);
      if made.Failure? {
        return Failure(made.error);
      }
      managers := managers[doc := made.value];
      return Success(());
    }

    /** `OnBcDocDestroyed`: the document's manager is dropped. */
    method OnBcDocDestroyed(doc: Document)
      modifies this
      ensures managers == old(managers) - {doc}
    {
      managers := managers - {doc};
    }

    /** `SettingsChanged`: a colour or transparency setting asks every manager for a soft
        update, the visual style or the mesh quality for a hard one; any other setting changes
        nothing. */
    method SettingsChanged(setting: string)
      modifies managers.Values
      ensures forall m :: m in managers.Values ==>
                && m.needSoftUpdate == (old(m.needSoftUpdate) || DataSettings.UpdateFor(setting) == DataSettings.SoftUpdate)
                && m.needHardUpdate == (old(m.needHardUpdate) || DataSettings.UpdateFor(setting) == DataSettings.HardUpdate)
                && m.toUpdate == old(m.toUpdate) && m.grasshopperData == old(m.grasshopperData)
                && m.reactorsEnabled == old(m.reactorsEnabled)
    {
      var kind := DataSettings.UpdateFor(setting);
      if kind == DataSettings.NoUpdate {
        return;
      }
      var remaining := managers.Values;
      ghost var done: set<GhDataManager> := {};
      while remaining != {}
        invariant remaining <= managers.Values && done == managers.Values - remaining
        invariant forall m :: m in managers.Values ==>
                    && m.needSoftUpdate == (old(m.needSoftUpdate) || (m in done && kind == DataSettings.SoftUpdate))
                    && m.needHardUpdate == (old(m.needHardUpdate) || (m in done && kind == DataSettings.HardUpdate))
                    && m.toUpdate == old(m.toUpdate) && m.grasshopperData == old(m.grasshopperData)
                    && m.reactorsEnabled == old(m.reactorsEnabled)
        decreases remaining
      {
        var m :| m in remaining;
        if kind == DataSettings.SoftUpdate {
          m.needSoftUpdate := true;
        } else {
          m.needHardUpdate := true;
        }
        remaining := remaining - {m};
        done := done + {m};
      }
    }

    /** `Update(docExt)` in the newer version: the manager processes its pending work, and then
        the drawing context processes the changes it collected and redraws the preview. An
        exception from the manager leaves before the drawing context is reached. */
    method Update(docExt: GhDataManager, records: map<ObjectId, GrasshopperData>, db: Database, env: Environment,
                  inst: Instances, ctx: DrawingContext.GhDrawingContext, materialHandles: set<Handle>,
                  activeDocument: Option<Document>)
      returns (r: Result<set<ObjectId>, Exception>, highlights: seq<GrasshopperPreviews.HighlightCall>,
               scene: Option<GrasshopperPreviews.SceneResult>, updateScreen: bool)
      requires Opens(records) && ctx.Valid() && DrawingContext.DistinctDefinitions(inst.definitions)
      modifies docExt, docExt.definitionManager, inst, ctx, docExt.grasshopperData.Values
      modifies set d | d in inst.definitions
      modifies if ctx.preview != null then {ctx.preview, ctx.preview.compound} else {}
      ensures ctx.Valid() && ctx.preview == old(ctx.preview) && ctx.linkedDocument == old(ctx.linkedDocument)
      ensures !docExt.needHardUpdate && !docExt.needSoftUpdate
      ensures r.Success? ==> !docExt.HasPendingUpdates() && (scene.Some? ==> !scene.value.thrown)
      ensures scene.Some? && scene.value.thrown ==> r == Failure(PreviewException)
      ensures r.Failure? && !(scene.Some? && scene.value.thrown) ==> highlights == [] && scene == None
      ensures updateScreen <==> r.Success? && scene.Some? && ctx.linkedDocument == activeDocument
      ensures ctx.preview == null ==> scene == None && !updateScreen
    {
      highlights, scene, updateScreen := [], None, false;
      r := docExt.Proccess(records, db, env, inst, ctx);
      if r.Failure? {
        return;
      }
      highlights, scene, updateScreen := ctx.Process(inst, materialHandles, env.preview, env.drawing, activeDocument);
      if scene.Some? && scene.value.thrown {
        // the exception escapes the block preview before the screen is updated
        r := Failure(PreviewException);
      }
    }

    /** `Update(doc)` in the older version: the document's manager, when it has one, processes
        its pending work; a document without a manager is left alone (no manager is made). */
    method UpdateOlder(doc: Document, records: map<ObjectId, GrasshopperData>, db: Database, env: Environment,
                       inst: Instances, ctx: DrawingContext.GhDrawingContext)
      returns (r: Result<set<ObjectId>, Exception>)
      requires Opens(records)
      modifies if doc in managers then {managers[doc], managers[doc].definitionManager} + managers[doc].grasshopperData.Values else {}
      modifies inst, ctx
      ensures managers == old(managers)
      ensures doc !in managers ==> r == Success({}) && ctx.linkedDocument == old(ctx.linkedDocument)
      ensures doc in managers && r.Success? ==> !managers[doc].HasPendingUpdates() && managers[doc].reactorsEnabled
      ensures ctx.preview == old(ctx.preview) && inst.definitions == old(inst.definitions)
    {
      if doc !in managers {
        return Success({});
      }
      r := DataManagerOlder.Proccess(managers[doc], records, db, env, inst, ctx);
    }
  }
}
