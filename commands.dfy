/** The drawing commands of Grasshopper-BricsCAD/Commands.cs that decide something: the
    relative path a definition is attached under, the checks of the command-line attach, the
    parameter `ToGrasshopper` makes for a selection, and the records `attachData` registers and
    `BakeGhData` bakes. The selection is the list of selected entities (or, for
    `ToGrasshopper`, selected items with their subentities); the editor's prompts are their
    answers, `None` for a cancelled prompt; the drawing and the system variables are values. */
module Commands {
  import opened Wrappers
  import opened HostTypes
  import opened DatabaseUtils
  import opened GhKernel
  import opened GrasshopperRecords
  import opened ManagedGrasshopperData
  import opened DataManager
  import Paths
  import Text
  import DC = DefinitionCache
  import DrawingContext

  // ---------------------------------------------------------------------------------------
  // getRelativeGhDataPath

  /** `getRelativeGhDataPath` as written: a definition in a directory of `SRCHPATH` keeps its
      path; one whose directory does not begin with the drawing's directory gives null; any
      other drops as many leading characters as the drawing's directory has, plus one. The
      prefix test is a plain string test, so a sibling directory whose name extends the
      drawing directory's name passes it. `Remove` throws when more is removed than there is. */
  function RelativePathAsWritten(ghDef: string, srchPath: string, dwgName: string): Result<Option<string>, DatabaseUtils.Error> {
    var srchPaths := Text.Split(srchPath, ';');
    var dwgDir := Paths.DirectoryName(dwgName);
    var ghDir := Paths.DirectoryName(ghDef);
    if ghDir in srchPaths then Success(Some(ghDef))
    else if |ghDir| < |dwgDir| || ghDir[..|dwgDir|] != dwgDir then Success(None)
    else if |dwgDir| + 1 > |ghDef| then Failure(DatabaseUtils.ArgumentOutOfRange)
    else Success(Some(ghDef[|dwgDir| + 1..]))
  }

  /** A definition path inside the drawing's directory tree: the directory, one separator,
      and a rest. */
  predicate Below(ghDef: string, dwgDir: string) {
    |ghDef| > |dwgDir| && ghDef[..|dwgDir|] == dwgDir && ghDef[|dwgDir|] in Paths.Separators
  }

  /** `getRelativeGhDataPath` as evidently intended: a definition in a directory of `SRCHPATH`
      keeps its path; one below the drawing's directory is given relative to it; any other
      gives null. */
  function RelativePath(ghDef: string, srchPath: string, dwgName: string): (r: Option<string>) {
    var dwgDir := Paths.DirectoryName(dwgName);
    if Paths.DirectoryName(ghDef) in Text.Split(srchPath, ';') then Some(ghDef)
    else if Below(ghDef, dwgDir) then Some(ghDef[|dwgDir| + 1..])
    else None
  }

  /** Outside `SRCHPATH`, the relative path is given exactly for the definitions below the
      drawing's directory, and it is what follows the directory and its separator. */
  lemma RelativePathIsBelow(ghDef: string, srchPath: string, dwgName: string)
    requires Paths.DirectoryName(ghDef) !in Text.Split(srchPath, ';')
    ensures var dwgDir := Paths.DirectoryName(dwgName);
            var r := RelativePath(ghDef, srchPath, dwgName);
            && (r.Some? <==> exists c, rest :: c in Paths.Separators && ghDef == dwgDir + [c] + rest)
            && (forall c, rest :: c in Paths.Separators && ghDef == dwgDir + [c] + rest ==> r == Some(rest))
  {
    var dwgDir := Paths.DirectoryName(dwgName);
    if Below(ghDef, dwgDir) {
      var c, rest := ghDef[|dwgDir|], ghDef[|dwgDir| + 1..];
      assert ghDef == dwgDir + [c] + rest;
    }
    forall c, rest | c in Paths.Separators && ghDef == dwgDir + [c] + rest
      ensures RelativePath(ghDef, srchPath, dwgName) == Some(rest)
    {
      assert ghDef[..|dwgDir|] == dwgDir && ghDef[|dwgDir|] == c;
      assert ghDef[|dwgDir| + 1..] == rest;
    }
  }

  /** Wherever the intended path is defined the written code gives it too: the two differ only
      on definitions the written code wrongly accepts. */
  lemma RelativePathAgrees(ghDef: string, srchPath: string, dwgName: string)
    requires RelativePath(ghDef, srchPath, dwgName).Some?
    ensures RelativePathAsWritten(ghDef, srchPath, dwgName) == Success(RelativePath(ghDef, srchPath, dwgName))
  {
    var dwgDir := Paths.DirectoryName(dwgName);
    var ghDir := Paths.DirectoryName(ghDef);
    if ghDir !in Text.Split(srchPath, ';') {
      assert Below(ghDef, dwgDir);
      var i := Paths.LastIndexOf(ghDef, Paths.Separators);
      assert i >= |dwgDir|;
      assert ghDir == ghDef[..i];
      assert ghDir[..|dwgDir|] == ghDef[..|dwgDir|];
    }
  }

  /** A definition in a sibling directory whose name merely begins with the drawing
      directory's name is given a mangled "relative" path instead of being refused. */
  lemma RelativePathSiblingDirectory()
    ensures RelativePathAsWritten("C:\\project2\\a.gh", "", "C:\\proj\\d.dwg") == Success(Some("ct2\\a.gh"))
    ensures RelativePath("C:\\project2\\a.gh", "", "C:\\proj\\d.dwg") == None
  {
    var ghDef, dwgName := "C:\\project2\\a.gh", "C:\\proj\\d.dwg";
    assert Paths.LastIndexOf(ghDef, Paths.Separators) == 11 by {
      assert ghDef[11] == '\\';
    }
    assert Paths.DirectoryName(ghDef) == "C:\\project2";
    assert Paths.LastIndexOf(dwgName, Paths.Separators) == 7 by {
      assert dwgName[7] == '\\';
    }
    assert Paths.DirectoryName(dwgName) == "C:\\proj";
    assert Text.Split("", ';') == [""];
    assert ghDef[..7] == "C:\\proj";
    assert ghDef[8..] == "ct2\\a.gh";
  }

  // ---------------------------------------------------------------------------------------
  // -AttachGhData

  /** `Char.ToUpper` on the ASCII letters; other characters are left as they are. */
  function UpperChar(c: char): char {
    if 'a' <= c <= 'z' then (c as int - 32) as char else c
  }

  function ToUpper(s: string): (r: string)
    ensures |r| == |s| && forall i :: 0 <= i < |s| ==> r[i] == UpperChar(s[i])
  {
    seq(|s|, i requires 0 <= i < |s| => UpperChar(s[i]))
  }

  /** The answer "A" or "ABSOLUTE", in any case, asks for an absolute path. */
  predicate IsAbsoluteKeyword(answer: string) {
    ToUpper(answer) == "A" || ToUpper(answer) == "ABSOLUTE"
  }

  /** The keyword is matched letter by letter, each letter in either case. */
  lemma AbsoluteKeywordLetters(answer: string)
    ensures IsAbsoluteKeyword(answer) <==>
              || (|answer| == 1 && answer[0] in {'a', 'A'})
              || (|answer| == 8 && forall i :: 0 <= i < 8 ==> answer[i] == "ABSOLUTE"[i] || answer[i] == "absolute"[i])
  {
    var u := ToUpper(answer);
    if |answer| == 8 && forall i :: 0 <= i < 8 ==> answer[i] == "ABSOLUTE"[i] || answer[i] == "absolute"[i] {
      assert forall i :: 0 <= i < 8 ==> u[i] == "ABSOLUTE"[i];
      assert u == "ABSOLUTE";
    }
    if u == "ABSOLUTE" {
      assert forall i :: 0 <= i < 8 ==> UpperChar(answer[i]) == "ABSOLUTE"[i];
    }
  }

  /** Only the extensions ".gh" and ".ghx", in exactly that case, are accepted. */
  predicate IsGhFileName(path: string) {
    Paths.Extension(path) == ".gh" || Paths.Extension(path) == ".ghx"
  }

  /** A path is accepted exactly when it ends in ".gh" or ".ghx". */
  lemma GhFileNameEnding(path: string)
    ensures IsGhFileName(path) <==> EndsWith(path, ".gh") || EndsWith(path, ".ghx")
  {
    if IsGhFileName(path) {
      ExtensionEndsPath(path);
    }
    if EndsWith(path, ".gh") || EndsWith(path, ".ghx") {
      GhEndingIsGhFileName(path);
    }
  }

  lemma GhEndingIsGhFileName(path: string)
    requires EndsWith(path, ".gh") || EndsWith(path, ".ghx")
    ensures IsGhFileName(path)
  {
    if EndsWith(path, ".gh") {
      EndingInFileName(path, ".gh");
    } else {
      EndingInFileName(path, ".ghx");
    }
  }

  predicate EndsWith(s: string, ending: string) {
    |s| >= |ending| && s[|s| - |ending|..] == ending
  }

  /** The extension is the end of the path. */
  lemma ExtensionEndsPath(path: string)
    ensures EndsWith(path, Paths.Extension(path))
  {
    var f := Paths.FileName(path);
    var i := Paths.LastIndexOf(f, {'.'});
    var e := Paths.Extension(path);
    if e != "" {
      assert e == f[i..] && |e| == |f| - i;
      assert f == path[|path| - |f|..];
      assert path[|path| - |e|..] == f[i..];
    }
  }

  /** A separator-free ending with one leading '.' is the extension. */
  lemma EndingInFileName(path: string, ending: string)
    requires |ending| >= 2 && ending[0] == '.' && EndsWith(path, ending)
    requires forall j :: 0 <= j < |ending| ==> ending[j] !in Paths.NameStops
    requires forall j :: 1 <= j < |ending| ==> ending[j] != '.'
    ensures Paths.Extension(path) == ending
  {
    var f := Paths.FileName(path);
    var k := Paths.LastIndexOf(path, Paths.NameStops);
    forall j | |path| - |ending| <= j < |path| ensures path[j] !in Paths.NameStops {
      assert path[j] == ending[j - (|path| - |ending|)];
    }
    assert k < |path| - |ending|;
    assert |f| >= |ending| && f[|f| - |ending|..] == ending;
    var i := Paths.LastIndexOf(f, {'.'});
    assert f[|f| - |ending|] == '.';
    forall j | |f| - |ending| < j < |f| ensures f[j] != '.' {
      assert f[j] == ending[j - (|f| - |ending|)];
    }
    assert i == |f| - |ending|;
  }

  /** How the path prompts of `-AttachGhData` end. */
  datatype AttachPath = PathAccepted(path: string) | PathCancelled | NotBelowDrawing | NotGhFile

  /** `CommandLineAttachGhData` up to the selection: the first answer is the path, unless it
      is the absolute keyword, in which case the second answer is made relative (and refused
      when that gives nothing); the path must then have a Grasshopper extension. */
  function CommandLineAttachPath(first: Option<string>, second: Option<string>, srchPath: string, dwgName: string)
    : AttachPath
  {
    if first.None? then PathCancelled
    else if !IsAbsoluteKeyword(first.value) then
      if IsGhFileName(first.value) then PathAccepted(first.value) else NotGhFile
    else if second.None? then PathCancelled
    else
      var rel := RelativePath(second.value, srchPath, dwgName);
      if rel.None? || rel.value == "" then NotBelowDrawing
      else if IsGhFileName(rel.value) then PathAccepted(rel.value)
      else NotGhFile
  }

  /** An accepted path is a Grasshopper file: the typed one, or the absolute one made relative. */
  lemma CommandLineAttachPathAccepted(first: Option<string>, second: Option<string>, srchPath: string, dwgName: string)
    ensures var r := CommandLineAttachPath(first, second, srchPath, dwgName);
            && (r.PathAccepted? ==> (EndsWith(r.path, ".gh") || EndsWith(r.path, ".ghx")) && first.Some?)
            && (r.PathAccepted? && !IsAbsoluteKeyword(first.value) ==> r.path == first.value)
            && (r.PathAccepted? && IsAbsoluteKeyword(first.value) ==>
                  second.Some? && RelativePath(second.value, srchPath, dwgName) == Some(r.path))
            && (r == PathCancelled <==> first.None? || (IsAbsoluteKeyword(first.value) && second.None?))
  {
    if first.Some? && !IsAbsoluteKeyword(first.value) {
      GhFileNameEnding(first.value);
    } else if first.Some? && second.Some? {
      var rel := RelativePath(second.value, srchPath, dwgName);
      if rel.Some? {
        GhFileNameEnding(rel.value);
      }
    }
  }

  /** `-AttachGhData`: the path prompts, then the selection prompt, then `attachData` on the
      selection. Nothing is attached unless a path is accepted and a selection made. */
  method CommandLineAttachGhData(first: Option<string>, second: Option<string>, srchPath: string, dwgName: string,
                                 selection: Option<seq<ObjectId>>, db: Database, m: GhDataManager, fs: DC.FileSystem)
    returns (outcome: AttachPath, attached: Option<Result<seq<ObjectId>, Exception>>)
    requires db.Valid()
    modifies db, m.definitionManager
    ensures outcome == CommandLineAttachPath(first, second, srchPath, dwgName)
    ensures attached.Some? <==> outcome.PathAccepted? && selection.Some?
    ensures attached.None? ==> db.records == old(db.records) && db.extensionDictionary == old(db.extensionDictionary)
    ensures db.Valid()
    ensures attached.Some? && attached.value.Success? ==>
              && (forall id :: id in attached.value.value <==> id in db.records && id !in old(db.records))
              && (forall id :: id in attached.value.value ==>
                    db.records[id].definition == outcome.path && db.records[id].visible)
              && (forall e :: e in selection.value && old(Attachable(db, e)) ==> !db.GetGrasshopperData(Some(e)).IsNull())
  {
    outcome := CommandLineAttachPath(first, second, srchPath, dwgName);
    if !outcome.PathAccepted? || selection.None? {
      return outcome, None;
    }
    var r := AttachData(selection.value, outcome.path, db, m, fs);
    return outcome, Some(r);
  }

  /** The file dialog loop of `AttachGhData`: a cancelled or empty answer ends the command; an
      answer without a relative path is refused and the dialog shown again; the first answer
      with one gives the definition. The answers are the dialog's successive results; when they
      run out the dialog counts as cancelled. */
  method ChooseDefinition(answers: seq<Option<string>>, srchPath: string, dwgName: string) returns (r: Option<string>)
    ensures r.Some? ==> exists i :: 0 <= i < |answers| && Chosen(answers, i, srchPath, dwgName) &&
                          RelativePath(answers[i].value, srchPath, dwgName) == r
    ensures r.None? ==> forall i :: 0 <= i < |answers| ==> !Chosen(answers, i, srchPath, dwgName)
    ensures r.Some? ==> r.value != ""
  {
    var i := 0;
    while i < |answers|
      invariant 0 <= i <= |answers| && forall j :: 0 <= j < i ==> Refused(answers[j], srchPath, dwgName)
    {
      if answers[i].None? || answers[i].value == "" {
        return None;
      }
      var ghDef := RelativePath(answers[i].value, srchPath, dwgName);
      if ghDef.Some? && ghDef.value != "" {
        return ghDef;
      }
      i := i + 1;
    }
    return None;
  }

  /** An answer the dialog loop refuses and asks again for. */
  predicate Refused(answer: Option<string>, srchPath: string, dwgName: string) {
    && answer.Some? && answer.value != ""
    && var rel := RelativePath(answer.value, srchPath, dwgName); rel.None? || rel.value == ""
  }

  /** The answer at `i` is the one the dialog loop takes: every earlier one was refused, and
      this one has a relative path. */
  predicate Chosen(answers: seq<Option<string>>, i: nat, srchPath: string, dwgName: string)
    requires i < |answers|
  {
    && (forall j :: 0 <= j < i ==> Refused(answers[j], srchPath, dwgName))
    && answers[i].Some? && answers[i].value != ""
    && var rel := RelativePath(answers[i].value, srchPath, dwgName); rel.Some? && rel.value != ""
  }

  /** `AttachGhData`: the selection prompt, the dialog loop, then `attachData` with the chosen
      definition. */
  method AttachGhData(selection: Option<seq<ObjectId>>, answers: seq<Option<string>>, srchPath: string, dwgName: string,
                      db: Database, m: GhDataManager, fs: DC.FileSystem)
    returns (attached: Option<Result<seq<ObjectId>, Exception>>)
    requires db.Valid()
    modifies db, m.definitionManager
    ensures db.Valid()
    ensures selection.None? ==> attached.None?
    ensures attached.None? ==> db.records == old(db.records) && db.extensionDictionary == old(db.extensionDictionary)
    ensures attached.Some? ==> exists i :: 0 <= i < |answers| && Chosen(answers, i, srchPath, dwgName)
    ensures selection.Some? && (exists i :: 0 <= i < |answers| && Chosen(answers, i, srchPath, dwgName)) ==> attached.Some?
    ensures attached.Some? && attached.value.Success? ==>
              && (forall id :: id in attached.value.value <==> id in db.records && id !in old(db.records))
              && (forall e :: e in selection.value && old(Attachable(db, e)) ==> !db.GetGrasshopperData(Some(e)).IsNull())
    ensures attached.Some? && attached.value.Success? ==>
              forall i, id :: 0 <= i < |answers| && Chosen(answers, i, srchPath, dwgName) && id in attached.value.value ==>
                db.records[id].definition == RelativePath(answers[i].value, srchPath, dwgName).value && db.records[id].visible
  {
    if selection.None? {
      return None;
    }
    var ghDef := ChooseDefinition(answers, srchPath, dwgName);
    if ghDef.None? {
      return None;
    }
    var r := AttachData(selection.value, ghDef.value, db, m, fs);
    forall i | 0 <= i < |answers| && Chosen(answers, i, srchPath, dwgName)
      ensures RelativePath(answers[i].value, srchPath, dwgName) == ghDef
    {
      // an earlier answer with a relative path would not have been refused
      var k :| 0 <= k < |answers| && Chosen(answers, k, srchPath, dwgName) &&
               RelativePath(answers[k].value, srchPath, dwgName) == ghDef;
      assert !Refused(answers[i], srchPath, dwgName) && !Refused(answers[k], srchPath, dwgName);
    }
    return Some(r);
  }

  /** `ClearGhData`: the record of every selected entity is removed; afterwards none of them
      carries one. */
  method ClearGhData(selection: seq<ObjectId>, db: Database)
    requires db.Valid()
    modifies db
    ensures db.Valid() && db.records == old(db.records) && db.extensionDictionary == old(db.extensionDictionary)
    ensures forall e :: e in selection ==> db.GetGrasshopperData(Some(e)).IsNull()
    ensures forall x: ObjectId :: old(db.GetGrasshopperData(Some(x))).IsNull() ==> db.GetGrasshopperData(Some(x)).IsNull()
    ensures forall x: ObjectId :: x !in selection ==> db.GetGrasshopperData(Some(x)) == old(db.GetGrasshopperData(Some(x)))
    ensures old(db.erased) <= db.erased
  {
    var i := 0;
    while i < |selection|
      invariant 0 <= i <= |selection|
      invariant db.Valid() && db.records == old(db.records) && db.extensionDictionary == old(db.extensionDictionary)
      invariant forall e :: e in selection[..i] ==> db.GetGrasshopperData(Some(e)).IsNull()
      invariant forall x: ObjectId :: old(db.GetGrasshopperData(Some(x))).IsNull() ==> db.GetGrasshopperData(Some(x)).IsNull()
      invariant forall x: ObjectId :: x !in selection ==> db.GetGrasshopperData(Some(x)) == old(db.GetGrasshopperData(Some(x)))
      invariant old(db.erased) <= db.erased
    {
      assert selection[..i + 1] == selection[..i] + [selection[i]];
      db.RemoveGrasshopperData(Some(selection[i]));
      i := i + 1;
    }
    assert selection[..i] == selection;
  }

  // ---------------------------------------------------------------------------------------
  // ToGrasshopper

  /** The guard of `ToGrasshopper` as written: `LinkedDocument == null && active != LinkedDocument`.
      The active document is never null, so this stops the command only when nothing is
      linked. */
  predicate StopsAsWritten(linked: Option<Document>, active: Document) {
    linked.None? && Some(active) != linked
  }

  /** The written guard ignores the active document: a selection made in a drawing other than
      the linked one goes on. */
  lemma StopsAsWrittenIgnoresActive(linked: Option<Document>, active: Document)
    ensures StopsAsWritten(linked, active) <==> linked.None?
    ensures linked == Some(Document(1, "a.dwg")) && active == Document(2, "b.dwg") ==> !StopsAsWritten(linked, active)
  {
  }

  /** The guard as evidently intended: the command works only in the linked drawing. */
  predicate Stops(linked: Option<Document>, active: Document) {
    linked.None? || Some(active) != linked
  }

  /** One selected item: the entity, and its selected subentities when it has any. */
  datatype SelectedItem = SelectedItem(id: ObjectId, subentities: Option<seq<Fsp>>)

  /** What an item contributes to the selection: its subentity paths, or the whole entity. */
  function ItemPaths(item: SelectedItem): seq<Fsp> {
    if item.subentities.Some? then item.subentities.value else [ToFsp(item.id)]
  }

  /** The paths of the items, in order. */
  function SelectedPaths(items: seq<SelectedItem>): seq<Fsp>
    decreases |items|
  {
    if |items| == 0 then [] else SelectedPaths(items[..|items| - 1]) + ItemPaths(items[|items| - 1])
  }

  /** Every selected path comes from an item: one of its subentities, or the entity itself. */
  lemma {:induction false} SelectedPathsFrom(items: seq<SelectedItem>)
    ensures forall p :: p in SelectedPaths(items) <==> exists i :: 0 <= i < |items| && p in ItemPaths(items[i])
    decreases |items|
  {
    if |items| > 0 {
      var init := items[..|items| - 1];
      SelectedPathsFrom(init);
      forall p ensures p in SelectedPaths(items) <==> exists i :: 0 <= i < |items| && p in ItemPaths(items[i]) {
        if p in SelectedPaths(init) {
          var i :| 0 <= i < |init| && p in ItemPaths(init[i]);
          assert items[i] == init[i];
        }
        if exists i :: 0 <= i < |items| && p in ItemPaths(items[i]) {
          var i :| 0 <= i < |items| && p in ItemPaths(items[i]);
          if i < |items| - 1 {
            assert items[i] == init[i];
          }
        }
      }
    }
  }

  /** The collection loop of `ToGrasshopper`. */
  method CollectSelection(items: seq<SelectedItem>) returns (selected: seq<Fsp>)
    ensures selected == SelectedPaths(items)
  {
    selected := [];
    var i := 0;
    while i < |items|
      invariant 0 <= i <= |items| && selected == SelectedPaths(items[..i])
    {
      assert items[..i + 1][..i] == items[..i];
      var subents := items[i].subentities;
      if subents.Some? {
        var k := 0;
        while k < |subents.value|
          invariant 0 <= k <= |subents.value| && selected == SelectedPaths(items[..i]) + subents.value[..k]
        {
          assert subents.value[..k + 1] == subents.value[..k] + [subents.value[k]];
          selected := selected + [subents.value[k]];
          k := k + 1;
        }
        assert subents.value[..k] == subents.value;
      } else {
        selected := selected + [ToFsp(items[i].id)];
      }
      i := i + 1;
    }
    assert items[..i] == items;
  }

  /** `All(fsp => fsp.SubentId.Type == t)`. */
  predicate AllOfType(paths: seq<Fsp>, t: SubentityType)
    decreases |paths|
  {
    |paths| == 0 || (paths[0].subType == t && AllOfType(paths[1..], t))
  }

  /** `All(fsp => IsCurve(fsp.InsertId()))`, with the curves given as a set of ids. */
  predicate AllCurves(paths: seq<Fsp>, curves: set<ObjectId>)
    decreases |paths|
  {
    |paths| == 0 || (InsertId(paths[0]) in curves && AllCurves(paths[1..], curves))
  }

  lemma {:induction false} AllOfTypeIsEvery(paths: seq<Fsp>, t: SubentityType)
    ensures AllOfType(paths, t) <==> forall i :: 0 <= i < |paths| ==> paths[i].subType == t
    decreases |paths|
  {
    if |paths| > 0 {
      AllOfTypeIsEvery(paths[1..], t);
      assert forall i :: 1 <= i < |paths| ==> paths[i] == paths[1..][i - 1];
    }
  }

  lemma {:induction false} AllCurvesIsEvery(paths: seq<Fsp>, curves: set<ObjectId>)
    ensures AllCurves(paths, curves) <==> forall i :: 0 <= i < |paths| ==> InsertId(paths[i]) in curves
    decreases |paths|
  {
    if |paths| > 0 {
      AllCurvesIsEvery(paths[1..], curves);
      assert forall i :: 1 <= i < |paths| ==> paths[i] == paths[1..][i - 1];
    }
  }

  /** How `ToGrasshopper` ends: stopped, no Grasshopper document, a cancelled or empty
      selection, a mixed one, a subentity type without a parameter, or a new parameter of a
      kind, initialised with the selected paths and the linked drawing's name. */
  datatype ToGrasshopperOutcome =
    | NotLinked | NoGhDocument | SelectionCancelled | NothingSelected | MixedSelection | NoParameter
    | NewParameter(kind: GeometryParamKind, paths: seq<Fsp>, docName: string)

  /** The parameter a selection of one subentity type makes: curves or entities for whole
      entities, and the matching parameter for faces, edges and vertices. */
  function ParameterFor(paths: seq<Fsp>, curves: set<ObjectId>): Option<GeometryParamKind>
    requires |paths| > 0
  {
    match paths[0].subType
    case SubNull => if AllCurves(paths, curves) then Some(CurveParam) else Some(EntityParam)
    case SubFace => Some(FaceParam)
    case SubEdge => Some(EdgeParam)
    case SubVertex => Some(VertexParam)
    case SubOther(_) => None
  }

  /** `ToGrasshopper`, with the corrected guard; `hasGhDocument` says whether the active canvas
      has a document, `selection` is the answer to the selection prompt and `curves` the ids
      that open as curves. Placing the parameter on the canvas is not modelled. */
  method ToGrasshopper(linked: Option<Document>, active: Document, hasGhDocument: bool,
                       selection: Option<seq<SelectedItem>>, curves: set<ObjectId>)
    returns (r: ToGrasshopperOutcome)
    ensures r == NotLinked <==> Stops(linked, active)
    ensures r.NewParameter? ==>
              && linked == Some(active) && hasGhDocument && selection.Some?
              && r.paths == SelectedPaths(selection.value) && |r.paths| > 0 && r.docName == active.name
              && (forall i :: 0 <= i < |r.paths| ==> r.paths[i].subType == r.paths[0].subType)
              && Some(r.kind) == ParameterFor(r.paths, curves)
    ensures !Stops(linked, active) && hasGhDocument && selection.Some? ==>
              var paths := SelectedPaths(selection.value);
              && (r == NothingSelected <==> |paths| == 0)
              && (r == MixedSelection <==> exists i :: 0 <= i < |paths| && paths[i].subType != paths[0].subType)
    ensures r == NoParameter ==>
              selection.Some? && |SelectedPaths(selection.value)| > 0 && SelectedPaths(selection.value)[0].subType.SubOther?
  {
    if Stops(linked, active) {
      return NotLinked;
    }
    if !hasGhDocument {
      return NoGhDocument;
    }
    if selection.None? {
      return SelectionCancelled;
    }
    var selected := CollectSelection(selection.value);
    if |selected| == 0 {
      return NothingSelected;
    }
    var t := selected[0].subType;
    AllOfTypeIsEvery(selected, t);
    if !AllOfType(selected, t) {
      return MixedSelection;
    }
    var kind := ParameterFor(selected, curves);
    if kind.None? {
      return NoParameter;
    }
    return NewParameter(kind.value, selected, linked.value.name);
  }

  /** A selection of whole entities is a curve parameter exactly when every entity is a curve. */
  lemma WholeEntitiesParameter(paths: seq<Fsp>, curves: set<ObjectId>)
    requires |paths| > 0 && paths[0].subType == SubNull
    ensures ParameterFor(paths, curves) == Some(CurveParam) <==> forall i :: 0 <= i < |paths| ==> InsertId(paths[i]) in curves
    ensures ParameterFor(paths, curves) == Some(EntityParam) <==> exists i :: 0 <= i < |paths| && InsertId(paths[i]) !in curves
  {
    AllCurvesIsEvery(paths, curves);
  }

  // ---------------------------------------------------------------------------------------
  // attachData and BakeGhData

  /** An entity the record can be attached to: it has no extension dictionary yet, or one that
      opens and holds no record. */
  predicate Attachable(db: Database, e: ObjectId)
    reads db
  {
    AttachableIn(db.extensionDictionary, db.dictionaries, e)
  }

  /** `attachData`: every selected entity gets a new visible record of the definition; a
      record is registered with the manager of the drawing (`AddGrasshopperData`) only when it
      was attached. The records registered are returned in order; an exception from the
      registration ends the loop. Afterwards every entity of the selection that could take a
      record carries one, and the new records of the database are the registered ones. With no
      entity that could take a record neither the database nor the manager changes. Since
      every record names the same definition, the first registration leaves the manager's
      definition cache as every later one finds it: each new record holds the properties that
      registering it on the cache as it was before the command gives, a failure is that
      registration's exception, and the cache ends as it was or as that registration leaves
      it, the latter whenever a record the manager had not cached was registered. */
  method AttachData(selection: seq<ObjectId>, path: string, db: Database, m: GhDataManager, fs: DC.FileSystem)
    returns (r: Result<seq<ObjectId>, Exception>)
    requires db.Valid()
    modifies db, m.definitionManager
    ensures db.Valid() && db.erased == old(db.erased)
    ensures r.Success? ==>
              && (forall id :: id in r.value <==> id in db.records && id !in old(db.records))
              && (forall id :: id in r.value ==> db.records[id].definition == path && db.records[id].visible)
              && (forall e :: e in selection && old(Attachable(db, e)) ==> !db.GetGrasshopperData(Some(e)).IsNull())
    ensures (forall e :: e in selection ==> !old(Attachable(db, e))) ==>
              && r == Success([]) && db.records == old(db.records)
              && m.definitionManager.nameToPath == old(m.definitionManager.nameToPath)
              && m.definitionManager.docs == old(m.definitionManager.docs)
    ensures var reg := Registration(old(m.definitionManager.nameToPath), old(m.definitionManager.docs),
                                    DefinitionName(path), [], m.DwgPath(), fs);
            && (r.Success? ==> forall id :: id in r.value ==>
                  db.records[id].props ==
                  RegisterNew(m, id, path, old(m.definitionManager.nameToPath), old(m.definitionManager.docs), fs).3)
            && (r.Failure? ==> reg.2.Failure? && r.error == reg.2.error)
            && ((m.definitionManager.nameToPath, m.definitionManager.docs) == (reg.0, reg.1) ||
                (m.definitionManager.nameToPath, m.definitionManager.docs) ==
                (old(m.definitionManager.nameToPath), old(m.definitionManager.docs)))
            && (r.Success? && (exists id :: id in r.value && id !in m.grasshopperData) ==>
                  (m.definitionManager.nameToPath, m.definitionManager.docs) == (reg.0, reg.1))
  {
    ghost var n0, d0 := m.definitionManager.nameToPath, m.definitionManager.docs;
    var registered: seq<ObjectId> := [];
    var i := 0;
    while i < |selection|
      invariant 0 <= i <= |selection| && db.Valid() && db.erased == old(db.erased)
      invariant AttachedSoFar(selection, i, registered, path, db, m, old(db.records), old(db.extensionDictionary),
                              old(db.dictionaries), n0, d0, fs)
    {
      var u := AttachNext(selection, i, registered, path, db, m, fs, old(db.records), old(db.extensionDictionary),
                          old(db.dictionaries), n0, d0);
      if u.Failure? {
        return Failure(u.error);
      }
      registered := u.value;
      i := i + 1;
    }
    return Success(registered);
  }

  /** The state of that loop after its first `i` entities, against the records `records0`, the
      extension dictionaries `(ext0, dicts0)` and the manager's cache `(n0, d0)` before it. */
  ghost predicate AttachedSoFar(selection: seq<ObjectId>, i: int, registered: seq<ObjectId>, path: string, db: Database,
                                m: GhDataManager, records0: map<ObjectId, DbGrasshopperData>,
                                ext0: map<ObjectId, ObjectId>, dicts0: map<ObjectId, Dictionary>,
                                n0: map<string, string>, d0: map<string, Option<DC.Archive>>, fs: DC.FileSystem)
    reads db, db.records.Values, m, m.definitionManager
  {
    && 0 <= i <= |selection|
    && RecordsSoFar(selection, i, registered, path, db, records0, ext0, dicts0)
    && Untouched(selection, i, registered, db, m, records0, ext0, dicts0, n0, d0)
    && CacheAsRegistered(m, db, registered, path, n0, d0, fs)
  }

  /** The database side of that state: the new records are the registered ones, of the
      definition and visible; every entity so far that could take a record carries one, and
      every selected entity that could still takes one or carries one. */
  ghost predicate RecordsSoFar(selection: seq<ObjectId>, i: int, registered: seq<ObjectId>, path: string, db: Database,
                               records0: map<ObjectId, DbGrasshopperData>, ext0: map<ObjectId, ObjectId>,
                               dicts0: map<ObjectId, Dictionary>)
    requires 0 <= i <= |selection|
    reads db, db.records.Values
  {
    && records0.Keys <= db.records.Keys
    && (forall id :: id in registered <==> id in db.records && id !in records0)
    && (forall id :: id in registered ==> db.records[id].definition == path && db.records[id].visible)
    && (forall j :: 0 <= j < i && AttachableIn(ext0, dicts0, selection[j]) ==> !db.GetGrasshopperData(Some(selection[j])).IsNull())
    && (forall e :: e in selection && AttachableIn(ext0, dicts0, e) ==> Attachable(db, e) || !db.GetGrasshopperData(Some(e)).IsNull())
  }

  /** While no entity so far could take a record, nothing has changed. */
  ghost predicate Untouched(selection: seq<ObjectId>, i: int, registered: seq<ObjectId>, db: Database, m: GhDataManager,
                            records0: map<ObjectId, DbGrasshopperData>, ext0: map<ObjectId, ObjectId>,
                            dicts0: map<ObjectId, Dictionary>, n0: map<string, string>,
                            d0: map<string, Option<DC.Archive>>)
    requires 0 <= i <= |selection|
    reads db, m.definitionManager
  {
    (forall j :: 0 <= j < i ==> !AttachableIn(ext0, dicts0, selection[j])) ==>
      && registered == [] && db.records == records0
      && db.extensionDictionary == ext0 && db.dictionaries == dicts0
      && (m.definitionManager.nameToPath, m.definitionManager.docs) == (n0, d0)
  }

  /** One turn of that loop: it keeps `AttachedSoFar`, or fails with the exception of
      registering on the cache as it was before the loop, after an entity that could take a
      record. */
  method AttachNext(selection: seq<ObjectId>, i: int, registered: seq<ObjectId>, path: string, db: Database,
                    m: GhDataManager, fs: DC.FileSystem, ghost records0: map<ObjectId, DbGrasshopperData>,
                    ghost ext0: map<ObjectId, ObjectId>, ghost dicts0: map<ObjectId, Dictionary>,
                    ghost n0: map<string, string>, ghost d0: map<string, Option<DC.Archive>>)
    returns (r: Result<seq<ObjectId>, Exception>)
    requires db.Valid() && 0 <= i < |selection|
    requires AttachedSoFar(selection, i, registered, path, db, m, records0, ext0, dicts0, n0, d0, fs)
    modifies db, m.definitionManager
    ensures db.Valid() && db.erased == old(db.erased)
    ensures r.Success? ==> AttachedSoFar(selection, i + 1, r.value, path, db, m, records0, ext0, dicts0, n0, d0, fs)
    ensures r.Failure? ==>
              var reg := Registration(n0, d0, DefinitionName(path), [], m.DwgPath(), fs);
              && reg.2.Failure? && r.error == reg.2.error
              && (m.definitionManager.nameToPath, m.definitionManager.docs) == (reg.0, reg.1)
              && exists j :: 0 <= j <= i && AttachableIn(ext0, dicts0, selection[j])
  {
    ghost var n, d := m.definitionManager.nameToPath, m.definitionManager.docs;
    ghost var took := Attachable(db, selection[i]);
    var u, newId := AttachOne(selection[i], path, db, m, fs, records0, registered);
    RegisterNewStep(m, newId, path, n0, d0, n, d, fs);
    RecordsStep(selection, i, registered, path, db, m, records0, ext0, dicts0, n0, d0, u);
    CacheStep(m, db, registered, newId, path, n0, d0, fs, n, d, took, u);
    r := u;
  }

  /** The database side of one turn, from what `AttachOne` promises. The parameters are `new`
      and the lemma asks outright that the objects it reads in the earlier state were there. */
  twostate lemma RecordsStep(new selection: seq<ObjectId>, new i: int, new registered: seq<ObjectId>,
                             new path: string, new db: Database, new m: GhDataManager, new records0: map<ObjectId, DbGrasshopperData>,
                             new ext0: map<ObjectId, ObjectId>, new dicts0: map<ObjectId, Dictionary>,
                             new n0: map<string, string>, new d0: map<string, Option<DC.Archive>>,
                             new r: Result<seq<ObjectId>, Exception>)
    requires old(allocated(db)) && old(allocated(m)) && old(allocated(records0)) && old(allocated(d0))
    requires 0 <= i < |selection|
    requires old(RecordsSoFar(selection, i, registered, path, db, records0, ext0, dicts0))
    requires old(Untouched(selection, i, registered, db, m, records0, ext0, dicts0, n0, d0))
    requires old(db.records).Keys <= db.records.Keys
    requires forall x: ObjectId :: !old(db.GetGrasshopperData(Some(x))).IsNull() ==> !db.GetGrasshopperData(Some(x)).IsNull()
    requires forall x :: Attachable(db, x) || !db.GetGrasshopperData(Some(x)).IsNull() <== old(Attachable(db, x))
    requires !old(Attachable(db, selection[i])) ==>
               && r == Success(registered) && db.records == old(db.records)
               && db.extensionDictionary == old(db.extensionDictionary) && db.dictionaries == old(db.dictionaries)
               && m.definitionManager.nameToPath == old(m.definitionManager.nameToPath)
               && m.definitionManager.docs == old(m.definitionManager.docs)
    requires r.Success? ==>
               && (forall id :: id in r.value <==> id in db.records && id !in records0)
               && (forall id :: id in r.value ==> db.records[id].definition == path && db.records[id].visible)
               && (old(Attachable(db, selection[i])) ==> !db.GetGrasshopperData(Some(selection[i])).IsNull())
    ensures r.Success? ==> RecordsSoFar(selection, i + 1, r.value, path, db, records0, ext0, dicts0)
    ensures r.Success? ==> Untouched(selection, i + 1, r.value, db, m, records0, ext0, dicts0, n0, d0)
    ensures r.Failure? ==> exists j :: 0 <= j <= i && AttachableIn(ext0, dicts0, selection[j])
  {
    var prefixNone := forall j :: 0 <= j < i ==> !AttachableIn(ext0, dicts0, selection[j]);
    assert prefixNone ==> (old(Attachable(db, selection[i])) <==> AttachableIn(ext0, dicts0, selection[i]));
    assert AttachableIn(ext0, dicts0, selection[i]) ==>
             old(Attachable(db, selection[i])) || !old(db.GetGrasshopperData(Some(selection[i]))).IsNull();
    if r.Success? {
      forall j | 0 <= j < i + 1 && AttachableIn(ext0, dicts0, selection[j])
        ensures !db.GetGrasshopperData(Some(selection[j])).IsNull()
      {
        if j < i {
          assert !old(db.GetGrasshopperData(Some(selection[j]))).IsNull();
        }
      }
    }
    if !prefixNone {
      var j :| 0 <= j < i && AttachableIn(ext0, dicts0, selection[j]);
    }
  }

  /** The manager side of one turn, from what `AttachOne` promises. */
  twostate lemma CacheStep(new m: GhDataManager, new db: Database, new registered: seq<ObjectId>, new newId: ObjectId,
                           new path: string, new n0: map<string, string>, new d0: map<string, Option<DC.Archive>>, fs: DC.FileSystem,
                           new n: map<string, string>, new d: map<string, Option<DC.Archive>>, new took: bool,
                           new r: Result<seq<ObjectId>, Exception>)
    requires old(allocated(m)) && old(allocated(db)) && old(allocated(d0))
    requires old(CacheAsRegistered(m, db, registered, path, n0, d0, fs))
    requires unchanged(m)
    requires (n, d) == old((m.definitionManager.nameToPath, m.definitionManager.docs))
    requires forall id :: id in registered ==> id in old(db.records)
    requires forall id :: id in old(db.records) ==>
               id in db.records && db.records[id] == old(db.records[id]) && db.records[id].props == old(db.records[id].props)
    requires !took ==>
               && r == Success(registered)
               && (m.definitionManager.nameToPath, m.definitionManager.docs) == (n, d)
    requires took ==>
               var reg := RegisterNew(m, newId, path, n, d, fs);
               && newId !in old(db.records) && newId in db.records
               && m.definitionManager.nameToPath == reg.0 && m.definitionManager.docs == reg.1
               && db.records[newId].props == reg.3
               && r == (if reg.2.Failure? then Failure(reg.2.error) else Success(registered + [newId]))
    ensures r.Success? ==> CacheAsRegistered(m, db, r.value, path, n0, d0, fs)
  {
    RegisterNewStep(m, newId, path, n0, d0, n, d, fs);
  }

  /** The registrations of that loop so far: each registered record holds the properties that
      registering it on the cache `(n0, d0)` gives, and the cache is still `(n0, d0)` or as the
      first registration of a record the manager had not cached left it. */
  ghost predicate CacheAsRegistered(m: GhDataManager, db: Database, registered: seq<ObjectId>, path: string,
                                    n0: map<string, string>, d0: map<string, Option<DC.Archive>>, fs: DC.FileSystem)
    reads m, m.definitionManager, db, db.records.Values
  {
    var reg := Registration(n0, d0, DefinitionName(path), [], m.DwgPath(), fs);
    && (forall id :: id in registered && id in db.records ==> db.records[id].props == RegisterNew(m, id, path, n0, d0, fs).3)
    && ((m.definitionManager.nameToPath, m.definitionManager.docs) == (reg.0, reg.1) ||
        (m.definitionManager.nameToPath, m.definitionManager.docs) == (n0, d0))
    && ((exists id :: id in registered && id !in m.grasshopperData) ==>
          (m.definitionManager.nameToPath, m.definitionManager.docs) == (reg.0, reg.1))
  }

  /** The definition name a new record of `path` reports: null for the empty string. */
  function DefinitionName(path: string): Option<string> {
    if path == "" then None else Some(path)
  }

  /** What registering a new record of `path` does to the drawing's manager `m` whose
      definition cache is `(nameToPath, docs)`: the remembered paths, the archives, the result
      and the new record's properties. A record whose id is cached already is refused and
      keeps its empty properties. */
  function RegisterNew(m: GhDataManager, id: ObjectId, path: string, nameToPath: map<string, string>,
                       docs: map<string, Option<DC.Archive>>, fs: DC.FileSystem)
    : (map<string, string>, map<string, Option<DC.Archive>>, Result<bool, Exception>, seq<Entry>)
    reads m
  {
    if id in m.grasshopperData then (nameToPath, docs, Success(false), [])
    else Registration(nameToPath, docs, DefinitionName(path), [], m.DwgPath(), fs)
  }

  /** One registration of that loop, on a cache that is still as it was before the command or
      as the first registration left it: the cache is again one of the two, the latter when the
      record was not cached, and the outcome and properties are those of registering on the
      cache as it was before. */
  lemma RegisterNewStep(m: GhDataManager, id: ObjectId, path: string, n0: map<string, string>,
                        d0: map<string, Option<DC.Archive>>, n: map<string, string>, d: map<string, Option<DC.Archive>>,
                        fs: DC.FileSystem)
    requires var reg := Registration(n0, d0, DefinitionName(path), [], m.DwgPath(), fs);
             (n, d) == (reg.0, reg.1) || (n, d) == (n0, d0)
    ensures var reg := Registration(n0, d0, DefinitionName(path), [], m.DwgPath(), fs);
            var step := RegisterNew(m, id, path, n, d, fs);
            && ((step.0, step.1) == (reg.0, reg.1) || (step.0, step.1) == (n0, d0))
            && (id !in m.grasshopperData ==> (step.0, step.1) == (reg.0, reg.1) && step.2 == reg.2)
            && step.3 == RegisterNew(m, id, path, n0, d0, fs).3
            && (step.2.Failure? ==> reg.2.Failure? && step.2.error == reg.2.error)
  {
    RegistrationIdempotent(n0, d0, DefinitionName(path), [], [], m.DwgPath(), fs);
  }

  /** One entity of that loop: an entity that cannot take a record changes nothing, neither
      the database nor the manager; otherwise its new record `newId` is attached and then
      registered, and the manager's cache, the record's properties and the result are what
      `AddGrasshopperData` gives for it. */
  method AttachOne(e: ObjectId, path: string, db: Database, m: GhDataManager, fs: DC.FileSystem,
                   ghost records0: map<ObjectId, DbGrasshopperData>, registered: seq<ObjectId>)
    returns (r: Result<seq<ObjectId>, Exception>, ghost newId: ObjectId)
    requires db.Valid()
    requires records0.Keys <= db.records.Keys
    requires forall id :: id in registered <==> id in db.records && id !in records0
    requires forall id :: id in registered ==> db.records[id].definition == path && db.records[id].visible
    modifies db, m.definitionManager
    ensures db.Valid() && db.erased == old(db.erased)
    ensures old(db.records).Keys <= db.records.Keys
    ensures forall x: ObjectId :: x != e ==> db.GetGrasshopperData(Some(x)) == old(db.GetGrasshopperData(Some(x)))
    ensures forall x: ObjectId :: !old(db.GetGrasshopperData(Some(x))).IsNull() ==> !db.GetGrasshopperData(Some(x)).IsNull()
    ensures forall x :: Attachable(db, x) || !db.GetGrasshopperData(Some(x)).IsNull() <== old(Attachable(db, x))
    ensures !old(Attachable(db, e)) ==>
              && r == Success(registered) && db.records == old(db.records)
              && db.extensionDictionary == old(db.extensionDictionary) && db.dictionaries == old(db.dictionaries)
              && m.definitionManager.nameToPath == old(m.definitionManager.nameToPath)
              && m.definitionManager.docs == old(m.definitionManager.docs)
    ensures old(Attachable(db, e)) ==>
              var reg := RegisterNew(m, newId, path, old(m.definitionManager.nameToPath), old(m.definitionManager.docs), fs);
              && newId !in old(db.records) && newId in db.records && db.records == old(db.records)[newId := db.records[newId]]
              && db.GetGrasshopperData(Some(e)) == newId
              && m.definitionManager.nameToPath == reg.0 && m.definitionManager.docs == reg.1
              && db.records[newId].props == reg.3
              && r == (if reg.2.Failure? then Failure(reg.2.error) else Success(registered + [newId]))
    ensures r.Success? ==>
              && (forall id :: id in r.value <==> id in db.records && id !in records0)
              && (forall id :: id in r.value ==> db.records[id].definition == path && db.records[id].visible)
              && (old(Attachable(db, e)) ==> !db.GetGrasshopperData(Some(e)).IsNull())
  {
    var ghData, attached := AttachRecord(e, path, db);
    newId := ghData.imp.objectId;
    if !attached {
      return Success(registered), newId;
    }
    var added := m.AddGrasshopperData(ghData, fs);
    if added.Failure? {
      return Failure(added.error), newId;
    }
    return Success(registered + [ghData.imp.objectId]), newId;
  }

  /** The record made for one entity, and `AttachGrasshopperData` on it: a record that is
      attached is a new record of the database, of the definition and visible. */
  method AttachRecord(e: ObjectId, path: string, db: Database) returns (ghData: GrasshopperData, attached: bool)
    requires db.Valid()
    modifies db
    ensures db.Valid() && db.erased == old(db.erased) && fresh(ghData.imp) && ghData.Valid()
    ensures ghData.imp.definition == path && ghData.imp.visible && ghData.imp.props == []
    ensures attached <==> old(Attachable(db, e))
    ensures attached ==> && !ghData.imp.objectId.IsNull() && ghData.imp.objectId !in old(db.records)
                         && db.records == old(db.records)[ghData.imp.objectId := ghData.imp]
                         && !db.GetGrasshopperData(Some(e)).IsNull()
    ensures attached ==> db.GetGrasshopperData(Some(e)) == ghData.imp.objectId
    ensures !attached ==> && db.records == old(db.records) && db.extensionDictionary == old(db.extensionDictionary)
                          && db.dictionaries == old(db.dictionaries)
    ensures forall x: ObjectId :: x != e ==> db.GetGrasshopperData(Some(x)) == old(db.GetGrasshopperData(Some(x)))
    ensures forall x :: x != e && old(Attachable(db, x)) ==> Attachable(db, x)
  {
    ghData := new GrasshopperData.WithDefinition(Some(path));
    ghData.SetVisible(true);
    ghost var ext0, dicts0 := db.extensionDictionary, db.dictionaries;
    attached := db.AttachGrasshopperData(Some(e), ghData.imp);
    forall x | x != e && AttachableIn(ext0, dicts0, x) ensures Attachable(db, x) {
      if attached {
        OthersStayAttachable(ext0, dicts0, e, ghData.imp.ownerId, x);
      }
    }
  }

  /** The extension dictionaries in which an entity can take a record. */
  predicate AttachableIn(ext: map<ObjectId, ObjectId>, dicts: map<ObjectId, Dictionary>, e: ObjectId) {
    e in ext ==> ext[e] in dicts && GhDataKey !in dicts[ext[e]].entries
  }

  /** Attaching to one entity rewrites only that entity's own dictionary, which no other
      entity owns. */
  lemma OthersStayAttachable(ext: map<ObjectId, ObjectId>, dicts: map<ObjectId, Dictionary>, e: ObjectId, d: ObjectId,
                             x: ObjectId)
    requires forall y :: y in ext && ext[y] in dicts ==> dicts[ext[y]].owner == y
    requires e in ext ==> d == ext[e] && d in dicts
    requires e !in ext ==> d !in dicts
    requires x != e && AttachableIn(ext, dicts, x)
    ensures x in ext ==> ext[x] != d
  {
    if x in ext && e in ext {
      assert dicts[ext[x]].owner == x && dicts[ext[e]].owner == e;
    }
  }

  /** How `BakeGhData` ends: nothing to bake, the dialog cancelled, or the bake's outcome. */
  datatype BakeOutcome = NothingToBake | DialogCancelled | Baked(log: Result<seq<BakeRun>, Exception>)

  /** `BakeGhData`: the records carried by the selected entities, in order; with none the
      command ends before the dialog; otherwise, when the dialog is accepted, the drawing's
      manager bakes them. */
  method BakeGhData(selection: seq<ObjectId>, dialogAccepted: bool, m: GhDataManager,
                    records: map<ObjectId, GrasshopperData>, db: Database, env: Environment, inst: Instances,
                    ctx: DrawingContext.GhDrawingContext)
    returns (r: BakeOutcome)
    modifies m, m.definitionManager, inst, ctx
    ensures var ids := old(AttachedRecords(selection, db));
            && (r == NothingToBake <==> ids == [])
            && (r == DialogCancelled <==> ids != [] && !dialogAccepted)
            && (r.Baked? ==> r.log == BakeLog(ids, old(Views(records, db)), old(m.definitionManager.nameToPath),
                                              old(m.definitionManager.docs), env.fs))
    ensures r == NothingToBake || r == DialogCancelled ==>
              m.reactorsEnabled == old(m.reactorsEnabled) && ctx.linkedDocument == old(ctx.linkedDocument)
  {
    var ghDataToBake := ScanRecords(selection, db);
    if |ghDataToBake| == 0 {
      return NothingToBake;
    }
    if !dialogAccepted {
      return DialogCancelled;
    }
    var log := m.Bake(ghDataToBake, records, db, env, inst, ctx);
    return Baked(log);
  }
}
