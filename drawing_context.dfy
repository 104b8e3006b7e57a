/** The link between Grasshopper and one BricsCAD drawing (Grasshopper-BricsCAD/GhDrawingContext.cs):
    the change buffers the drawing's reactors fill, the drain that expires the plug-in's stale
    parameters and components, the linked document and its preview, and the redraw flag. The
    class of a changed object, which handles resolve to materials, the document made current and
    the active document are given as values. */
module DrawingContext {
  import opened Wrappers
  import opened HostTypes
  import opened ParameterTypes
  import opened GhKernel
  import opened BcParams
  import DocumentElements
  import SpatialLocation
  import opened PreviewScans
  import opened GrasshopperPreviews

  /** `_commandToExpire`. */
  const CommandToExpire: string := "BIMSPATIALLOCATIONS"

  /** `_commands.Intersect(_commandToExpire)`: the finished commands that can expire anything,
      each once. */
  function ExpiringCommands(cmds: seq<string>): (r: seq<string>)
    ensures forall c :: c in r <==> c in cmds && c == CommandToExpire
    ensures forall i, j :: 0 <= i < j < |r| ==> r[i] != r[j]
  {
    if CommandToExpire in cmds then [CommandToExpire] else []
  }

  /** A component of the plug-in (`IGH_BcComponent`) whose `NeedsToBeExpired` holds. */
  predicate ComponentStale(c: Component, ch: Changes, materialHandles: set<Handle>) {
    match c.kind
    case DocumentElementsComponent =>
      |ch.erased| > 0 || |ch.added| > 0 || DocumentElements.OutputStale(c.outputs, ch, materialHandles)
    case BuildingStoriesComponent => SpatialLocation.NeedsToBeExpired(ch.modified, ch.erased, ch.added, ch.commands)
    case _ => false
  }

  /** An object the drain expires: a plug-in parameter that is neither remote nor blank and is
      stale, or a plug-in component that is stale. */
  predicate ObjectStale(o: DocObject, ch: Changes, materialHandles: set<Handle>) {
    match o
    case ParamObject(p) => IsBcParam(p.kind) && !p.remote && !p.blank && ParamStale(p, ch, materialHandles)
    case ComponentObject(c) => IsBcComponent(c.kind) && ComponentStale(c, ch, materialHandles)
    case PassiveObject(_, _) => false
  }

  /** `ExpireSolution(false)`. */
  function Expired(o: DocObject): (r: DocObject)
    ensures r.Guid() == o.Guid() && r.Selected() == o.Selected()
  {
    match o
    case ParamObject(p) => ParamObject(p.(expired := true))
    case ComponentObject(c) => ComponentObject(c.(expired := true))
    case PassiveObject(_, _) => o
  }

  /** An object after the drain. */
  function Drained(o: DocObject, ch: Changes, materialHandles: set<Handle>): DocObject {
    if ObjectStale(o, ch, materialHandles) then Expired(o) else o
  }

  /** Some object of the definition is stale. */
  predicate AnyStale(os: seq<DocObject>, ch: Changes, materialHandles: set<Handle>) {
    exists i :: 0 <= i < |os| && ObjectStale(os[i], ch, materialHandles)
  }

  /** A new solution is requested at once: solutions are enabled, the definition is the one on
      the active canvas, it is enabled and not in the middle of a solution. */
  predicate ExpireNow(inst: Instances, d: GhDocument)
    reads inst, d
  {
    inst.enableSolutions && inst.activeDefinition == d && d.enabled && !d.processing
  }

  /** The drain leaves every object as it was or marks it expired, and never touches a
      remote or blank parameter or an object that is not the plug-in's. */
  lemma DrainOnlyExpires(o: DocObject, ch: Changes, materialHandles: set<Handle>)
    ensures Drained(o, ch, materialHandles) == o || Drained(o, ch, materialHandles) == Expired(o)
    ensures o.ParamObject? && (o.param.remote || o.param.blank || !IsBcParam(o.param.kind)) ==> Drained(o, ch, materialHandles) == o
    ensures o.ComponentObject? && !IsBcComponent(o.component.kind) ==> Drained(o, ch, materialHandles) == o
    ensures o.PassiveObject? ==> Drained(o, ch, materialHandles) == o
  {
  }

  /** More changes never leave a stale object fresh. */
  lemma ObjectStaleMonotone(o: DocObject, small: Changes, big: Changes, materialHandles: set<Handle>)
    requires Includes(big, small)
    requires |small.erased| > 0 ==> |big.erased| > 0
    requires |small.added| > 0 ==> |big.added| > 0
    requires ObjectStale(o, small, materialHandles)
    ensures ObjectStale(o, big, materialHandles)
  {
    match o
    case ParamObject(p) =>
      StaleMonotone(p, small, big, materialHandles);
    case ComponentObject(c) =>
      match c.kind
      case DocumentElementsComponent =>
        if !(|small.erased| > 0 || |small.added| > 0) {
          var i :| 0 <= i < |c.outputs| && IsBcParam(c.outputs[i].kind) && ParamStale(c.outputs[i], small, materialHandles);
          StaleMonotone(c.outputs[i], small, big, materialHandles);
        }
      case BuildingStoriesComponent =>
        assert CommandToExpire in small.commands;
      case _ =>
  }

  /** A parameter (`IGH_BcParam`) or component (`IGH_BcComponent`) of the plug-in. */
  predicate IsBcObject(o: DocObject) {
    (o.ParamObject? && IsBcParam(o.param.kind)) || (o.ComponentObject? && IsBcComponent(o.component.kind))
  }

  /** `ExpireSolution(false)` on every plug-in object (`ExpireGH`). */
  function ExpiredIfBc(o: DocObject): DocObject {
    if IsBcObject(o) then Expired(o) else o
  }

  /** Some object of the definition is one of the plug-in's. */
  predicate HasBcObject(os: seq<DocObject>) {
    exists i :: 0 <= i < |os| && IsBcObject(os[i])
  }

  /** `ExpireGH` expires every plug-in object, whatever its state, and changes no other. */
  lemma ExpireAllBc(o: DocObject)
    ensures o.ParamObject? && IsBcParam(o.param.kind) ==> ExpiredIfBc(o).param.expired
    ensures o.ComponentObject? && IsBcComponent(o.component.kind) ==> ExpiredIfBc(o).component.expired
    ensures !IsBcObject(o) ==> ExpiredIfBc(o) == o
  {
  }

  /** Draining the same changes twice expires nothing more: whether an object is stale does not
      depend on whether it was expired. */
  lemma DrainIdempotent(os: seq<DocObject>, ch: Changes, materialHandles: set<Handle>)
    ensures DrainedObjects(DrainedObjects(os, ch, materialHandles), ch, materialHandles) == DrainedObjects(os, ch, materialHandles)
    ensures AnyStale(DrainedObjects(os, ch, materialHandles), ch, materialHandles) == AnyStale(os, ch, materialHandles)
  {
    var r := DrainedObjects(os, ch, materialHandles);
    forall i | 0 <= i < |os|
      ensures ObjectStale(r[i], ch, materialHandles) == ObjectStale(os[i], ch, materialHandles)
    {
      match os[i]
      case ParamObject(p) =>
        assert ParamStale(p.(expired := true), ch, materialHandles) == ParamStale(p, ch, materialHandles);
      case ComponentObject(c) =>
      case PassiveObject(_, _) =>
    }
    assert forall i :: 0 <= i < |os| ==> DrainedObjects(r, ch, materialHandles)[i] == r[i];
  }

  /** `ExpireGH` twice is `ExpireGH` once. */
  lemma ExpireIdempotent(os: seq<DocObject>)
    ensures ExpiredObjects(ExpiredObjects(os)) == ExpiredObjects(os)
    ensures HasBcObject(ExpiredObjects(os)) == HasBcObject(os)
  {
    assert forall i :: 0 <= i < |os| ==> IsBcObject(ExpiredObjects(os)[i]) == IsBcObject(os[i]);
  }

  /** `persistentComponent.NeedsToBeExpired`, dispatched on the kind of component. */
  method ComponentNeedsToBeExpired(c: Component, ch: Changes, materialHandles: set<Handle>) returns (r: bool)
    requires IsBcComponent(c.kind)
    ensures r <==> ComponentStale(c, ch, materialHandles)
  {
    match c.kind
    case DocumentElementsComponent =>
      r := DocumentElements.NeedsToBeExpired(c, ch, materialHandles);
    case BuildingStoriesComponent =>
      r := SpatialLocation.NeedsToBeExpired(ch.modified, ch.erased, ch.added, ch.commands);
  }

  /** The objects of a definition after the drain. */
  function DrainedObjects(os: seq<DocObject>, ch: Changes, materialHandles: set<Handle>): (r: seq<DocObject>)
    ensures |r| == |os| && forall i :: 0 <= i < |os| ==> r[i] == Drained(os[i], ch, materialHandles)
  {
    seq(|os|, i requires 0 <= i < |os| => Drained(os[i], ch, materialHandles))
  }

  /** The objects of a definition after `ExpireGH`. */
  function ExpiredObjects(os: seq<DocObject>): (r: seq<DocObject>)
    ensures |r| == |os| && forall i :: 0 <= i < |os| ==> r[i] == ExpiredIfBc(os[i])
  {
    seq(|os|, i requires 0 <= i < |os| => ExpiredIfBc(os[i]))
  }

  /** The drain of the objects of one definition, in order: each stale object is expired, and
      the result says whether one was. */
  method DrainObjects(os: seq<DocObject>, ch: Changes, materialHandles: set<Handle>)
    returns (res: seq<DocObject>, objExpired: bool)
    ensures res == DrainedObjects(os, ch, materialHandles)
    ensures objExpired <==> AnyStale(os, ch, materialHandles)
  {
    res := [];
    objExpired := false;
    var i := 0;
    while i < |os|
      invariant 0 <= i <= |os| && |res| == i
      invariant forall k :: 0 <= k < i ==> res[k] == Drained(os[k], ch, materialHandles)
      invariant objExpired <==> exists k :: 0 <= k < i && ObjectStale(os[k], ch, materialHandles)
    {
      var o := os[i];
      var stale := false;
      match o {
        case ParamObject(p) =>
          if IsBcParam(p.kind) && !p.remote && !p.blank {
            stale := NeedsToBeExpired(p, ch, materialHandles);
          }
        case ComponentObject(c) =>
          if IsBcComponent(c.kind) {
            stale := ComponentNeedsToBeExpired(c, ch, materialHandles);
          }
        case PassiveObject(_, _) =>
      }
      if stale {
        res := res + [Expired(o)];
        objExpired := true;
      } else {
        res := res + [o];
      }
      i := i + 1;
    }
  }

  /** The drain of one definition: its objects drained, and a new solution requested when an
      object was expired and the definition may solve now. */
  method DrainDefinition(d: GhDocument, ch: Changes, materialHandles: set<Handle>, expireNow: bool)
    modifies d
    ensures d.objects == DrainedObjects(old(d.objects), ch, materialHandles)
    ensures d.solutionRequests == old(d.solutionRequests) + (if expireNow && AnyStale(old(d.objects), ch, materialHandles) then 1 else 0)
    ensures d.enabled == old(d.enabled) && d.processing == old(d.processing)
  {
    var res, objExpired := DrainObjects(d.objects, ch, materialHandles);
    d.objects := res;
    if expireNow && objExpired {
      d.NewSolution();
    }
  }

  /** `ExpireGH` on one definition: every plug-in object is expired, and a new solution is
      requested when there was one. */
  method ExpireDefinition(d: GhDocument)
    modifies d
    ensures d.objects == ExpiredObjects(old(d.objects))
    ensures d.solutionRequests == old(d.solutionRequests) + (if HasBcObject(old(d.objects)) then 1 else 0)
    ensures d.enabled == old(d.enabled) && d.processing == old(d.processing)
  {
    var os := d.objects;
    var res: seq<DocObject> := [];
    var expired := false;
    var i := 0;
    while i < |os|
      invariant 0 <= i <= |os| && |res| == i
      invariant forall k :: 0 <= k < i ==> res[k] == ExpiredIfBc(os[k])
      invariant expired <==> exists k :: 0 <= k < i && IsBcObject(os[k])
    {
      var o := os[i];
      if IsBcObject(o) {
        res := res + [Expired(o)];
        expired := true;
      } else {
        res := res + [o];
      }
      i := i + 1;
    }
    d.objects := res;
    if expired {
      d.NewSolution();
    }
  }

  /** No definition is open twice (`Instances.DocumentServer`). */
  predicate DistinctDefinitions(defs: seq<GhDocument>) {
    forall i, j :: 0 <= i < j < |defs| ==> defs[i] != defs[j]
  }

  /** The static state of `GhDrawingContext`. */
  class GhDrawingContext {
    var modified: seq<Handle>
    var erased: seq<Handle>
    var appended: seq<Handle>
    var commands: seq<string>
    var preview: GrasshopperPreview?
    var linkedDocument: Option<Document>
    var needRedraw: bool

    /** A preview keeps its highlight set free of repeated ids. */
    predicate Valid()
      reads this, preview
    {
      preview != null ==> preview.Valid()
    }

    constructor ()
      ensures Valid() && modified == [] && erased == [] && appended == [] && commands == []
      ensures preview == null && linkedDocument == None && !needRedraw
    {
      modified := [];
      erased := [];
      appended := [];
      commands := [];
      preview := null;
      linkedDocument := None;
      needRedraw := false;
    }

    /** `OnObjectModified`: the handle of a modified entity is recorded; other objects are not. */
    method OnObjectModified(h: Handle, isEntity: bool)
      modifies this
      ensures modified == if isEntity then old(modified) + [h] else old(modified)
      ensures erased == old(erased) && appended == old(appended) && commands == old(commands)
      ensures preview == old(preview) && linkedDocument == old(linkedDocument) && needRedraw == old(needRedraw)
    {
      if isEntity {
        modified := modified + [h];
      }
    }

    /** `OnObjectErased`: an erased object's handle is recorded as erased, an unerased one's as
        appended. */
    method OnObjectErased(h: Handle, isErased: bool)
      modifies this
      ensures erased == if isErased then old(erased) + [h] else old(erased)
      ensures appended == if isErased then old(appended) else old(appended) + [h]
      ensures modified == old(modified) && commands == old(commands)
      ensures preview == old(preview) && linkedDocument == old(linkedDocument) && needRedraw == old(needRedraw)
    {
      if isErased {
        erased := erased + [h];
      } else {
        appended := appended + [h];
      }
    }

    /** `OnObjectAppended`: the handle of an appended entity or material is recorded. */
    method OnObjectAppended(h: Handle, isEntity: bool, isMaterial: bool)
      modifies this
      ensures appended == if isEntity || isMaterial then old(appended) + [h] else old(appended)
      ensures modified == old(modified) && erased == old(erased) && commands == old(commands)
      ensures preview == old(preview) && linkedDocument == old(linkedDocument) && needRedraw == old(needRedraw)
    {
      if isEntity || isMaterial {
        appended := appended + [h];
      }
    }

    /** `OnCommandEnded`: every finished command is recorded. */
    method OnCommandEnded(globalCommandName: string)
      modifies this
      ensures commands == old(commands) + [globalCommandName]
      ensures modified == old(modified) && erased == old(erased) && appended == old(appended)
      ensures preview == old(preview) && linkedDocument == old(linkedDocument) && needRedraw == old(needRedraw)
    {
      commands := commands + [globalCommandName];
    }

    /** The preview's event handlers (colour or settings changed, editor shown or hidden,
        solution ended, the preview of a hooked object changed) only ask for a redraw. */
    method OnPreviewEvent(isPreviewChange: bool)
      modifies this
      ensures needRedraw == (old(needRedraw) || isPreviewChange)
      ensures modified == old(modified) && erased == old(erased) && appended == old(appended) && commands == old(commands)
      ensures preview == old(preview) && linkedDocument == old(linkedDocument)
    {
      if isPreviewChange {
        needRedraw := true;
      }
    }

    /** `OnDocumentChanged`: the finished commands are reduced to those that can expire
        something; with no change at all nothing else happens. Otherwise every definition is
        drained with the changes, and the buffers are emptied. */
    method OnDocumentChanged(inst: Instances, materialHandles: set<Handle>)
      requires DistinctDefinitions(inst.definitions)
      modifies this, set d | d in inst.definitions
      ensures var cmds := if |old(commands)| != 0 then ExpiringCommands(old(commands)) else old(commands);
              var ch := Changes(old(modified), old(erased), old(appended), cmds);
              if |ch.modified| == 0 && |ch.erased| == 0 && |ch.added| == 0 && |ch.commands| == 0 then
                && commands == cmds && modified == old(modified) && erased == old(erased) && appended == old(appended)
                && forall d :: d in inst.definitions ==> d.objects == old(d.objects) && d.solutionRequests == old(d.solutionRequests)
              else
                && modified == [] && erased == [] && appended == [] && commands == []
                && forall d :: d in inst.definitions ==>
                     && d.objects == DrainedObjects(old(d.objects), ch, materialHandles)
                     && d.solutionRequests == old(d.solutionRequests) +
                          (if old(ExpireNow(inst, d)) && AnyStale(old(d.objects), ch, materialHandles) then 1 else 0)
      ensures forall d :: d in inst.definitions ==> d.enabled == old(d.enabled) && d.processing == old(d.processing)
      ensures preview == old(preview) && linkedDocument == old(linkedDocument) && needRedraw == old(needRedraw)
    {
      if |commands| != 0 {
        commands := ExpiringCommands(commands);
      }
      if |erased| == 0 && |modified| == 0 && |appended| == 0 && |commands| == 0 {
        return;
      }
      var ch := Changes(modified, erased, appended, commands);
      DrainAll(inst, ch, materialHandles);
      erased := [];
      modified := [];
      appended := [];
      commands := [];
    }

    /** The drain loop of `OnDocumentChanged`: every definition is drained with the changes, and
        asked for a new solution only when it is the active, enabled, idle one and something in
        it went stale. */
    static method DrainAll(inst: Instances, ch: Changes, materialHandles: set<Handle>)
      requires DistinctDefinitions(inst.definitions)
      modifies set d | d in inst.definitions
      ensures forall d :: d in inst.definitions ==>
                && d.objects == DrainedObjects(old(d.objects), ch, materialHandles)
                && d.solutionRequests == old(d.solutionRequests) +
                     (if old(ExpireNow(inst, d)) && AnyStale(old(d.objects), ch, materialHandles) then 1 else 0)
                && d.enabled == old(d.enabled) && d.processing == old(d.processing)
    {
      var defs := inst.definitions;
      var i := 0;
      while i < |defs|
        invariant 0 <= i <= |defs|
        invariant forall k :: 0 <= k < i ==>
                    && defs[k].objects == DrainedObjects(old(defs[k].objects), ch, materialHandles)
                    && defs[k].solutionRequests == old(defs[k].solutionRequests) +
                         (if old(ExpireNow(inst, defs[k])) && AnyStale(old(defs[k].objects), ch, materialHandles) then 1 else 0)
        invariant forall k :: i <= k < |defs| ==> defs[k].objects == old(defs[k].objects) && defs[k].solutionRequests == old(defs[k].solutionRequests)
        invariant forall k :: 0 <= k < |defs| ==> defs[k].enabled == old(defs[k].enabled) && defs[k].processing == old(defs[k].processing)
        invariant inst.enableSolutions == old(inst.enableSolutions) && inst.activeDefinition == old(inst.activeDefinition)
      {
        var d := defs[i];
        var expireNow := inst.enableSolutions && inst.activeDefinition == d && d.enabled && !d.processing;
        DrainDefinition(d, ch, materialHandles, expireNow);
        i := i + 1;
      }
    }

    /** `ExpireGH`: every definition has its plug-in objects expired. */
    method ExpireGH(inst: Instances)
      requires DistinctDefinitions(inst.definitions)
      modifies set d | d in inst.definitions
      ensures forall d :: d in inst.definitions ==>
                && d.objects == ExpiredObjects(old(d.objects))
                && d.solutionRequests == old(d.solutionRequests) + (if HasBcObject(old(d.objects)) then 1 else 0)
                && d.enabled == old(d.enabled) && d.processing == old(d.processing)
    {
      var defs := inst.definitions;
      var i := 0;
      while i < |defs|
        invariant 0 <= i <= |defs|
        invariant forall k :: 0 <= k < i ==>
                    && defs[k].objects == ExpiredObjects(old(defs[k].objects))
                    && defs[k].solutionRequests == old(defs[k].solutionRequests) + (if HasBcObject(old(defs[k].objects)) then 1 else 0)
        invariant forall k :: i <= k < |defs| ==> defs[k].objects == old(defs[k].objects) && defs[k].solutionRequests == old(defs[k].solutionRequests)
        invariant forall k :: 0 <= k < |defs| ==> defs[k].enabled == old(defs[k].enabled) && defs[k].processing == old(defs[k].processing)
      {
        ExpireDefinition(defs[i]);
        i := i + 1;
      }
    }

    /** A new preview, initialised against the active canvas as the source constructor does. */
    method NewPreview(inst: Instances) returns (p: GrasshopperPreview, redraw: bool)
      ensures fresh(p) && fresh(p.compound) && p.Valid() && p.activeDefinition == inst.activeDefinition && p.bcSelection == []
      ensures p.compound.drawables == [] && p.compound.selectedDrawables == []
      ensures redraw <==> inst.activeDefinition != null
    {
      p := new GrasshopperPreview();
      var _, r, _ := p.Init(inst);
      redraw := r;
    }

    /** `RelinkToDoc`: linking the linked document again does nothing; another document becomes
        the linked one with a new preview, every plug-in object is expired and a redraw is
        needed. */
    method RelinkToDoc(document: Document, inst: Instances)
      requires Valid() && DistinctDefinitions(inst.definitions)
      modifies this, set d | d in inst.definitions
      ensures Valid()
      ensures old(linkedDocument) == Some(document) ==>
                preview == old(preview) && needRedraw == old(needRedraw) && linkedDocument == old(linkedDocument) &&
                forall d :: d in inst.definitions ==> d.objects == old(d.objects) && d.solutionRequests == old(d.solutionRequests)
      ensures old(linkedDocument) != Some(document) ==>
                && linkedDocument == Some(document) && needRedraw && fresh(preview)
                && preview.activeDefinition == inst.activeDefinition && preview.bcSelection == []
                && forall d :: d in inst.definitions ==>
                     && d.objects == ExpiredObjects(old(d.objects))
                     && d.solutionRequests == old(d.solutionRequests) + (if HasBcObject(old(d.objects)) then 1 else 0)
      ensures modified == old(modified) && erased == old(erased) && appended == old(appended) && commands == old(commands)
    {
      if linkedDocument == Some(document) {
        return;
      }
      linkedDocument := Some(document);
      var p, _ := NewPreview(inst);
      preview := p;
      ExpireGH(inst);
      needRedraw := true;
    }

    /** `OnDocumentBecameCurrent`: with a linked document, another document made current drops
        the preview and the linked one made current gets a new one. */
    method OnDocumentBecameCurrent(document: Document, inst: Instances)
      requires Valid()
      modifies this
      ensures Valid() && linkedDocument == old(linkedDocument)
      ensures old(linkedDocument).None? ==> preview == old(preview) && needRedraw == old(needRedraw)
      ensures old(linkedDocument).Some? && old(linkedDocument) != Some(document) ==> preview == null && needRedraw == old(needRedraw)
      ensures old(linkedDocument) == Some(document) ==>
                fresh(preview) && preview.activeDefinition == inst.activeDefinition && preview.bcSelection == [] &&
                (needRedraw <==> old(needRedraw) || inst.activeDefinition != null)
      ensures modified == old(modified) && erased == old(erased) && appended == old(appended) && commands == old(commands)
    {
      if linkedDocument.None? {
        return;
      }
      if linkedDocument != Some(document) {
        preview := null;
      } else {
        var p, redraw := NewPreview(inst);
        preview := p;
        needRedraw := needRedraw || redraw;
      }
    }

    /** `OnBcDocCloseWillStart`: the preview is dropped, nothing is linked any more and every
        plug-in object is expired. */
    method OnBcDocCloseWillStart(inst: Instances)
      requires DistinctDefinitions(inst.definitions)
      modifies this, set d | d in inst.definitions
      ensures Valid() && preview == null && linkedDocument == None && needRedraw == old(needRedraw)
      ensures forall d :: d in inst.definitions ==>
                && d.objects == ExpiredObjects(old(d.objects))
                && d.solutionRequests == old(d.solutionRequests) + (if HasBcObject(old(d.objects)) then 1 else 0)
      ensures modified == old(modified) && erased == old(erased) && appended == old(appended) && commands == old(commands)
    {
      preview := null;
      linkedDocument := None;
      ExpireGH(inst);
    }

    /** `Process`: the changes are drained; then, with a preview, it is initialised and, when a
        redraw was asked for or `Init` asks for one, the flag is cleared and the scene rebuilt;
        the screen is updated when the linked document is the active one. */
    method Process(inst: Instances, materialHandles: set<Handle>, host: PreviewHost, doc: HostDocument,
                   activeDocument: Option<Document>)
      returns (highlights: seq<HighlightCall>, scene: Option<SceneResult>, updateScreen: bool)
      requires Valid() && DistinctDefinitions(inst.definitions)
      modifies this, set d | d in inst.definitions
      modifies if preview != null then {preview, preview.compound} else {}
      ensures Valid() && preview == old(preview) && linkedDocument == old(linkedDocument)
      ensures preview == null ==> scene == None && !updateScreen && needRedraw == old(needRedraw) && highlights == []
      ensures preview != null ==> preview.activeDefinition == inst.activeDefinition
      ensures scene.Some? ==> preview != null && !needRedraw
      ensures updateScreen <==> scene.Some? && !scene.value.thrown && linkedDocument == activeDocument
      ensures preview != null ==>
                (scene.Some? <==> old(needRedraw) || old(preview.activeDefinition) != inst.activeDefinition ||
                                  (inst.activeDefinition != null &&
                                   SelectionChanged(old(preview.lastSelection), inst.activeDefinition.SelectedObjects())))
    {
      highlights := [];
      scene := None;
      updateScreen := false;
      OnDocumentChanged(inst, materialHandles);
      if preview != null {
        var _, redraw, calls := preview.Init(inst);
        highlights := calls;
        needRedraw := needRedraw || redraw;
        if needRedraw {
          needRedraw := false;
          var s := preview.BuildScene(inst, host, doc);
          highlights := highlights + s.highlights;
          scene := Some(s);
          updateScreen := !s.thrown && linkedDocument == activeDocument;
        }
      }
    }
  }
}
