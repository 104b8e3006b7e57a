/** The parts of `System.IO.Path` the plug-in relies on, for Windows paths: the directory part,
    the file name, the file name without extension, the extension, and joining two paths. */
module Paths {

  /** Directory separators: `\` and `/`. */
  const Separators: set<char> := {'\\', '/'}

  /** Characters that end the directory part of a file name (separators and the volume ':'). */
  const NameStops: set<char> := {'\\', '/', ':'}

  /** The last position of a character of `cs` in `s`, or -1. */
  function LastIndexOf(s: string, cs: set<char>): (i: int)
    ensures -1 <= i < |s|
    ensures i >= 0 ==> s[i] in cs
    ensures forall j :: i < j < |s| ==> s[j] !in cs
    decreases |s|
  {
    if |s| == 0 then -1
    else if s[|s| - 1] in cs then |s| - 1
    else LastIndexOf(s[..|s| - 1], cs)
  }

  /** `Path.GetFileName`: what follows the last separator or volume separator. */
  function FileName(s: string): (r: string)
    ensures forall j :: 0 <= j < |r| ==> r[j] !in NameStops
    ensures |r| <= |s| && r == s[|s| - |r|..]
  {
    s[LastIndexOf(s, NameStops) + 1..]
  }

  /** `Path.GetFileNameWithoutExtension`: the file name up to its last '.'. */
  function FileNameWithoutExtension(s: string): (r: string)
    ensures forall j :: 0 <= j < |r| ==> r[j] !in NameStops
  {
    var f := FileName(s);
    var i := LastIndexOf(f, {'.'});
    if i < 0 then f else f[..i]
  }

  /** `Path.GetExtension`: from the last '.' of the file name to the end, or "" when there is no
      '.' or it is the last character. */
  function Extension(s: string): (r: string)
    ensures r == "" || (r[0] == '.' && |r| >= 2 && '.' !in r[1..])
  {
    var f := FileName(s);
    var i := LastIndexOf(f, {'.'});
    if i < 0 || i == |f| - 1 then "" else f[i..]
  }

  /** `Path.GetDirectoryName`: the text before the last separator; "" when there is none. (Root
      directories and separator normalisation are outside this model.) */
  function DirectoryName(s: string): (r: string)
    ensures |r| < |s| || (r == "" && s == "")
    ensures r == s[..|r|]
  {
    var i := LastIndexOf(s, Separators);
    if i < 0 then "" else s[..i]
  }

  /** A path with a separator is its directory, one separator, and what follows. */
  lemma DirectoryThenRest(s: string)
    requires LastIndexOf(s, Separators) >= 0
    ensures var d := DirectoryName(s);
            |d| < |s| && s[|d|] in Separators && s == d + [s[|d|]] + s[|d| + 1..]
            && forall j :: |d| < j < |s| ==> s[j] !in Separators
  {
  }

  /** A non-empty extension is the end of the file name, and the name without extension is the rest. */
  lemma ExtensionSplitsFileName(s: string)
    requires Extension(s) != ""
    ensures FileNameWithoutExtension(s) + Extension(s) == FileName(s)
  {
    var f := FileName(s);
    var i := LastIndexOf(f, {'.'});
    assert f == f[..i] + f[i..];
  }

  /** `Path.IsPathRooted`: a leading separator or a drive letter. */
  predicate IsRooted(s: string) {
    (|s| >= 1 && s[0] in Separators) || (|s| >= 2 && s[1] == ':')
  }

  /** `Path.Combine(a, b)`: `b` when `a` is empty or `b` is rooted, `a` when `b` is empty, and
      otherwise `a` and `b` with a `\` between them unless `a` already ends a directory. */
  function Combine(a: string, b: string): (r: string)
    ensures |b| == 0 ==> r == a
    ensures |b| != 0 && (|a| == 0 || IsRooted(b)) ==> r == b
    ensures |b| != 0 && |a| != 0 && !IsRooted(b) ==>
              r == a + (if a[|a| - 1] in NameStops then "" else "\\") + b
  {
    if |b| == 0 then a
    else if |a| == 0 || IsRooted(b) then b
    else if a[|a| - 1] in NameStops then a + b
    else a + "\\" + b
  }

  /** A combined path keeps the file name of a name without separators, so a file found by
      name is a file of that name. */
  lemma CombineFileName(dir: string, name: string)
    requires |name| != 0 && forall j :: 0 <= j < |name| ==> name[j] !in NameStops
    ensures FileName(Combine(dir, name)) == name
  {
    var r := Combine(dir, name);
    assert r[|r| - |name|..] == name;
    FileNameOfSuffix(r, name);
  }

  /** A path ending in a separator-free name, right after a stop or at its start, has that name
      as its file name. */
  lemma FileNameOfSuffix(r: string, name: string)
    requires |name| <= |r| && r[|r| - |name|..] == name
    requires forall j :: 0 <= j < |name| ==> name[j] !in NameStops
    requires |name| == |r| || r[|r| - |name| - 1] in NameStops
    ensures FileName(r) == name
  {
    var i := LastIndexOf(r, NameStops);
    forall j | |r| - |name| <= j < |r| ensures r[j] !in NameStops {
      assert r[j] == name[j - (|r| - |name|)];
    }
    assert i == |r| - |name| - 1;
  }
}
