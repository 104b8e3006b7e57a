/** The definition cache of one drawing (`GhDefinitionManager`, the same in
    Grasshopper-BricsCAD/GhDefinitionManager.cs and Grasshopper-BricsCAD/GhDefintionManager.cs):
    definition names resolved to files and remembered, and the archives read from those files.
    The file system is the set of existing paths, and what reading an archive gives is a
    function of the path. */
module DefinitionCache {
  import opened Wrappers
  import opened GhKernel
  import Paths
  import Text

  /** A Grasshopper archive (`GH_Archive`) as read: the objects of the definition it holds, or
      None when extracting the "Definition" object fails. */
  datatype Archive = Archive(definition: Option<seq<DocObject>>)

  /** The world the cache consults: the existing files, the `SRCHPATH` system variable, and the
      archive read from a path (None when reading throws). */
  datatype FileSystem = FileSystem(existing: set<string>, srchPath: string, read: string -> Option<Archive>)

  datatype Error = NullReference

  /** The first directory in which the file exists, as the combined path. */
  function FirstExisting(dirs: seq<string>, name: string, existing: set<string>): Option<string>
    decreases |dirs|
  {
    if |dirs| == 0 then None
    else
      var p := Paths.Combine(dirs[0], name);
      if p in existing then Some(p) else FirstExisting(dirs[1..], name, existing)
  }

  /** `FirstExisting` finds nothing exactly when the file exists in none of the directories, and
      otherwise finds an existing file in a directory before which none holds it. */
  lemma {:induction false} FirstExistingIsFirst(dirs: seq<string>, name: string, existing: set<string>)
    ensures var r := FirstExisting(dirs, name, existing);
            && (r.None? <==> forall i :: 0 <= i < |dirs| ==> Paths.Combine(dirs[i], name) !in existing)
            && (r.Some? ==> r.value in existing)
            && (r.Some? ==> exists i :: 0 <= i < |dirs| && r.value == Paths.Combine(dirs[i], name) &&
                                        forall j :: 0 <= j < i ==> Paths.Combine(dirs[j], name) !in existing)
    decreases |dirs|
  {
    if |dirs| > 0 && Paths.Combine(dirs[0], name) !in existing {
      FirstExistingIsFirst(dirs[1..], name, existing);
      var rest := FirstExisting(dirs[1..], name, existing);
      assert forall i :: 1 <= i < |dirs| ==> dirs[i] == dirs[1..][i - 1];
      if rest.Some? {
        var i :| 0 <= i < |dirs[1..]| && rest.value == Paths.Combine(dirs[1..][i], name) &&
                 forall j :: 0 <= j < i ==> Paths.Combine(dirs[1..][j], name) !in existing;
        forall j | 0 <= j < i + 1 ensures Paths.Combine(dirs[j], name) !in existing {
          if j > 0 { assert dirs[j] == dirs[1..][j - 1]; }
        }
        assert rest.value == Paths.Combine(dirs[i + 1], name);
      }
    }
  }

  /** Searching two lists of directories one after the other is searching them joined. */
  lemma {:induction false} FirstExistingAppend(a: seq<string>, b: seq<string>, name: string, existing: set<string>)
    ensures FirstExisting(a + b, name, existing) ==
            (if FirstExisting(a, name, existing).Some? then FirstExisting(a, name, existing) else FirstExisting(b, name, existing))
    decreases |a|
  {
    if |a| > 0 {
      assert (a + b)[1..] == a[1..] + b;
      FirstExistingAppend(a[1..], b, name, existing);
    } else {
      assert a + b == b;
    }
  }

  /** The directories searched after the extra ones: the `SRCHPATH` entries. */
  function SearchDirs(extra: seq<string>, fs: FileSystem): seq<string> {
    extra + Text.Split(fs.srchPath, ';')
  }

  /** What `FindFile` answers: a remembered path, else the first existing file in the extra
      directories and then the search path. */
  function Resolve(nameToPath: map<string, string>, name: string, extra: seq<string>, fs: FileSystem): Option<string> {
    if name in nameToPath then Some(nameToPath[name]) else FirstExisting(SearchDirs(extra, fs), name, fs.existing)
  }

  /** The remembered paths after `FindFile`: a hit not remembered yet is remembered. */
  function Remembered(nameToPath: map<string, string>, name: string, r: Option<string>): map<string, string> {
    if name !in nameToPath && r.Some? then nameToPath[name := r.value] else nameToPath
  }

  /** Once a name is resolved it resolves to the same path whatever the extra directories, and
      other names resolve as before. */
  lemma ResolveStable(nameToPath: map<string, string>, name: string, extra: seq<string>, fs: FileSystem,
                      other: string, extra': seq<string>)
    requires Resolve(nameToPath, name, extra, fs).Some?
    ensures var r := Resolve(nameToPath, name, extra, fs);
            var m := Remembered(nameToPath, name, r);
            && Resolve(m, name, extra', fs) == r
            && (other != name ==> Resolve(m, other, extra', fs) == Resolve(nameToPath, other, extra', fs))
  {
  }

  /** How `Definition` ends for a resolved path: nothing cached, a null archive cached (the
      extraction then throws), or the objects of the cached definition. */
  datatype DefinitionOutcome = NoDefinition | NullArchive | Objects(objects: seq<DocObject>)

  function Outcome(docs: map<string, Option<Archive>>, r: Option<string>): DefinitionOutcome {
    if r.None? || r.value !in docs then NoDefinition
    else if docs[r.value].None? then NullArchive
    else if docs[r.value].value.definition.None? then NoDefinition
    else Objects(docs[r.value].value.definition.value)
  }

  /** The archives after `Load` resolved to `r`: a path not cached yet gets its archive when the
      read succeeds. */
  function LoadedDocs(docs: map<string, Option<Archive>>, r: Option<string>, fs: FileSystem): map<string, Option<Archive>> {
    if r.Some? && r.value !in docs && fs.read(r.value).Some? then docs[r.value := fs.read(r.value)] else docs
  }

  /** `Load` twice is `Load` once, and `Load` never caches a failed read. */
  lemma LoadIdempotent(nameToPath: map<string, string>, docs: map<string, Option<Archive>>, name: string,
                       extra: seq<string>, fs: FileSystem)
    ensures var r := Resolve(nameToPath, name, extra, fs);
            var m := Remembered(nameToPath, name, r);
            var d := LoadedDocs(docs, r, fs);
            && Remembered(m, name, Resolve(m, name, extra, fs)) == m
            && LoadedDocs(d, Resolve(m, name, extra, fs), fs) == d
            && forall p :: p in d && p !in docs ==> d[p].Some?
  {
  }

  /** `Reload` after a failed read leaves a null archive, on which `Definition` throws. */
  lemma ReloadFailureThenDefinition(docs: map<string, Option<Archive>>, path: string, fs: FileSystem)
    requires fs.read(path).None?
    ensures Outcome(docs[path := fs.read(path)], Some(path)) == NullArchive
  {
  }

  class GhDefinitionManager {
    var nameToPath: map<string, string>
    var docs: map<string, Option<Archive>>

    constructor ()
      ensures nameToPath == map[] && docs == map[]
    {
      nameToPath := map[];
      docs := map[];
    }

    /** `FindFile`: a remembered path wins; otherwise the extra directories and then the search
        path are scanned in order for the first existing file, which is remembered. */
    method FindFile(fileName: string, extra: seq<string>, fs: FileSystem) returns (r: Option<string>)
      modifies this
      ensures r == Resolve(old(nameToPath), fileName, extra, fs)
      ensures nameToPath == Remembered(old(nameToPath), fileName, r) && docs == old(docs)
    {
      if fileName in nameToPath {
        return Some(nameToPath[fileName]);
      }
      r := Search(extra, Text.Split(fs.srchPath, ';'), fileName, fs.existing);
      if r.Some? {
        nameToPath := nameToPath[fileName := r.value];
      }
    }

    /** The two scans of `FindFile`: the extra directories, then the search path, for the
        first directory holding the file. */
    static method Search(extra: seq<string>, paths: seq<string>, fileName: string, existing: set<string>)
      returns (r: Option<string>)
      ensures r == FirstExisting(extra + paths, fileName, existing)
    {
      FirstExistingAppend(extra, paths, fileName, existing);
      r := Scan(extra, fileName, existing);
      if r.Some? {
        return;
      }
      r := Scan(paths, fileName, existing);
    }

    /** One scan of `FindFile`: the directories in order, until one holds the file. */
    static method Scan(dirs: seq<string>, fileName: string, existing: set<string>) returns (r: Option<string>)
      ensures r == FirstExisting(dirs, fileName, existing)
    {
      var i := 0;
      while i < |dirs|
        invariant 0 <= i <= |dirs|
        invariant FirstExisting(dirs, fileName, existing) == FirstExisting(dirs[i..], fileName, existing)
      {
        assert dirs[i..][1..] == dirs[i + 1..];
        var filePath := Paths.Combine(dirs[i], fileName);
        if filePath in existing {
          return Some(filePath);
        }
        i := i + 1;
      }
      return None;
    }

    /** `Load`: the archive of a resolved path is read once; a failed read is not cached. */
    method Load(fileName: string, extra: seq<string>, fs: FileSystem)
      modifies this
      ensures var r := Resolve(old(nameToPath), fileName, extra, fs);
              nameToPath == Remembered(old(nameToPath), fileName, r) && docs == LoadedDocs(old(docs), r, fs)
    {
      var filePath := FindFile(fileName, extra, fs);
      if filePath.None? {
        return;
      }
      if filePath.value !in docs {
        var doc := fs.read(filePath.value);
        if doc.Some? {
          docs := docs[filePath.value := doc];
        }
      }
    }

    /** `Reload`: a resolved name has its archive read again, whatever the read gives, and the
        name is announced (`Reloaded`); an unresolved name changes nothing. */
    method Reload(defName: string, fs: FileSystem) returns (reloaded: Option<string>)
      modifies this
      ensures var r := Resolve(old(nameToPath), defName, [], fs);
              && nameToPath == Remembered(old(nameToPath), defName, r)
              && docs == (if r.Some? then old(docs)[r.value := fs.read(r.value)] else old(docs))
              && reloaded == (if r.Some? then Some(defName) else None)
    {
      reloaded := None;
      var filePath := FindFile(defName, [], fs);
      if filePath.Some? {
        var doc := fs.read(filePath.value);
        docs := docs[filePath.value := doc];
        reloaded := Some(defName);
      }
    }

    /** `Definition`: a new document holding the cached definition of the resolved name, made
        afresh on every call; null when the name does not resolve, nothing is cached or the
        extraction fails; a null cached archive throws. */
    method Definition(fileName: string, fs: FileSystem) returns (res: Result<GhDocument?, Error>)
      modifies this
      ensures var r := Resolve(old(nameToPath), fileName, [], fs);
              && nameToPath == Remembered(old(nameToPath), fileName, r) && docs == old(docs)
              && match Outcome(old(docs), r)
                 case NoDefinition => res == Success(null)
                 case NullArchive => res == Failure(NullReference)
                 case Objects(os) =>
                   && res.Success? && res.value != null && fresh(res.value) && res.value.objects == os
                   && res.value.previewMode == Wireframe && res.value.previewFilter == ShowAll
    {
      var filePath := FindFile(fileName, [], fs);
      if filePath.None? || filePath.value !in docs {
        return Success(null);
      }
      var doc := docs[filePath.value];
      if doc.None? {
        return Failure(NullReference);
      }
      if doc.value.definition.None? {
        return Success(null);
      }
      var definition := new GhDocument(doc.value.definition.value);
      return Success(definition);
    }
  }
}
