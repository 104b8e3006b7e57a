/** `DatabaseUtils` (Grasshopper-BricsCAD/DatabaseUtils.cs): helpers over full subentity paths,
    the text form of a path, the category names of BIM properties, appending objects to model
    space, and the transient-graphics lookup that briefly switches the working database. */
module DatabaseUtils {
  import opened Wrappers
  import opened HostTypes
  import opened Text

  /** The names of the two visual styles the previews use. */
  const Wireframe: string := "Wireframe"
  const Realistic: string := "Realistic"

  /** `SubentityType`: Null, Face, Edge, Vertex, or another member of the enumeration, kept by its
      byte value (4 and above). */
  datatype SubentityType = SubNull | SubFace | SubEdge | SubVertex | SubOther(code: UInt8)

  /** The other members are exactly those with a code of 4 or more. */
  ghost predicate WfSubentityType(t: SubentityType) {
    t.SubOther? ==> t.code >= 4
  }

  /** `(byte) type`. */
  function SubentityCode(t: SubentityType): UInt8 {
    match t
    case SubNull => 0
    case SubFace => 1
    case SubEdge => 2
    case SubVertex => 3
    case SubOther(c) => c
  }

  /** `(SubentityType) b`. */
  function SubentityFromCode(b: UInt8): (t: SubentityType)
    ensures WfSubentityType(t)
  {
    if b == 0 then SubNull
    else if b == 1 then SubFace
    else if b == 2 then SubEdge
    else if b == 3 then SubVertex
    else SubOther(b)
  }

  /** The byte form of a subentity type loses nothing, in either direction. */
  lemma SubentityCodeRoundTrip(t: SubentityType, b: UInt8)
    ensures WfSubentityType(t) ==> SubentityFromCode(SubentityCode(t)) == t
    ensures SubentityCode(SubentityFromCode(b)) == b
  {
  }

  /** `FullSubentityPath`: the object-id path (a missing id array is the empty path) and the
      subentity id (type and index). */
  datatype Fsp = Fsp(ids: seq<ObjectId>, subType: SubentityType, index: Int32)

  /** `IsNullObjectLink`: no ids and the Null subentity type. */
  predicate IsNullObjectLink(fsp: Fsp) {
    |fsp.ids| == 0 && fsp.subType == SubNull
  }

  /** `IsSubentity(SubentityType)`: Edge, Face or Vertex. */
  predicate IsSubentityType(t: SubentityType) {
    t == SubEdge || t == SubFace || t == SubVertex
  }

  /** `IsSubentity(FullSubentityPath)`. */
  predicate IsSubentity(fsp: Fsp) {
    IsSubentityType(fsp.subType)
  }

  /** `InsertId`: the first id of the path, or the null id for an empty path. */
  function InsertId(fsp: Fsp): (id: ObjectId)
    ensures |fsp.ids| == 0 ==> id == NullId
    ensures |fsp.ids| > 0 ==> id == fsp.ids[0]
  {
    if |fsp.ids| > 0 then fsp.ids[0] else NullId
  }

  /** `ToFsp`: the whole-entity path of one id (default subentity id: Null type, index 0). */
  function ToFsp(id: ObjectId): Fsp {
    Fsp([id], SubNull, 0)
  }

  /** The path of an id leads back to it, is never a null link and names the whole entity. */
  lemma ToFspInsertId(id: ObjectId)
    ensures InsertId(ToFsp(id)) == id && !IsNullObjectLink(ToFsp(id)) && !IsSubentity(ToFsp(id))
  {
  }

  /** `Handle.ToString()`: the hexadecimal digits of the handle's unsigned 64-bit value. */
  function HandleText(h: Handle): (s: string)
    ensures |s| >= 1 && ':' !in s
  {
    var s := HexString(if h >= 0 then h else h + 0x1_0000_0000_0000_0000);
    assert forall i :: 0 <= i < |s| ==> s[i] != ':';
    s
  }
  /** `System.Convert.ToInt64(s, 16)`: an optional "0x" prefix, then one or more hexadecimal
      digits whose value fits in 64 bits, read as a two's-complement `long`; `None` where the
      conversion throws. */
  function ParseHex64(s: string): (r: Option<Int64>)
  {
    var digits := if |s| >= 2 && s[0] == '0' && (s[1] == 'x' || s[1] == 'X') then s[2..] else s;
    if |digits| == 0 then None
    else
      match HexDigitsValue(digits)
      case None => None
      case Some(v) =>
        if v >= 0x1_0000_0000_0000_0000 then None
        else Some(if v >= 0x8000_0000_0000_0000 then v - 0x1_0000_0000_0000_0000 else v)
  }

  /** The text of a handle converts back to the handle. */
  lemma ParseHandleText(h: Handle)
    ensures ParseHex64(HandleText(h)) == Some(h)
  {
    var n := if h >= 0 then h else h + 0x1_0000_0000_0000_0000;
    HexStringValue(n);
    var s := HexString(n);
    assert HandleText(h) == s;
    if |s| >= 2 {
      assert s[1] in "0123456789ABCDEF";
    }
    ParseHexDigits(s, n);
    assert (if n >= 0x8000_0000_0000_0000 then n - 0x1_0000_0000_0000_0000 else n) == h;
  }

  /** Digits without a prefix whose value fits in 64 bits convert to that value, read as a
      two's-complement `long`. */
  lemma ParseHexDigits(s: string, n: nat)
    requires |s| >= 1 && HexDigitsValue(s) == Some(n) && n < 0x1_0000_0000_0000_0000
    requires |s| < 2 || (s[1] != 'x' && s[1] != 'X')
    ensures ParseHex64(s) == Some(if n >= 0x8000_0000_0000_0000 then n - 0x1_0000_0000_0000_0000 else n)
  {
  }


  /** The handle texts of a path, in order. */
  function HandleTexts(ids: seq<ObjectId>): (r: seq<string>)
    ensures |r| == |ids|
    ensures forall k :: 0 <= k < |r| ==> ':' !in r[k]
  {
    if |ids| == 0 then [] else [HandleText(ids[0].handle)] + HandleTexts(ids[1..])
  }

  /** What the loop of `ToString` accumulates: every handle followed by ':'. */
  function HandlesText(ids: seq<ObjectId>): (s: string)
    ensures |s| == 0 <==> |ids| == 0
  {
    if |ids| == 0 then "" else HandleText(ids[0].handle) + ":" + HandlesText(ids[1..])
  }

  lemma {:induction false} HandlesTextAppend(ids: seq<ObjectId>, id: ObjectId)
    ensures HandlesText(ids + [id]) == HandlesText(ids) + HandleText(id.handle) + ":"
    decreases |ids|
  {
    if |ids| > 0 {
      var h := HandleText(ids[0].handle) + ":";
      assert (ids + [id])[0] == ids[0] && (ids + [id])[1..] == ids[1..] + [id];
      assert HandlesText(ids + [id]) == h + HandlesText(ids[1..] + [id]);
      HandlesTextAppend(ids[1..], id);
    } else {
      assert (ids + [id])[1..] == [];
    }
  }

  /** The accumulated text is the handle texts joined by ':' with one more ':' at the end. */
  lemma {:induction false} HandlesTextIsJoin(ids: seq<ObjectId>)
    requires |ids| > 0
    ensures HandlesText(ids) == Join(HandleTexts(ids), ':') + ":"
    decreases |ids|
  {
    if |ids| > 1 {
      HandlesTextIsJoin(ids[1..]);
    }
  }

  /** Text after the accumulated handles is one more ':'-separated piece. */
  lemma {:induction false} HandlesTextThen(ids: seq<ObjectId>, tail: string)
    ensures HandlesText(ids) + tail == Join(HandleTexts(ids) + [tail], ':')
    decreases |ids|
  {
    if |ids| > 0 {
      HandlesTextThen(ids[1..], tail);
      assert HandleTexts(ids) + [tail] == [HandleText(ids[0].handle)] + (HandleTexts(ids[1..]) + [tail]);
    }
  }

  /** The text after the handles for each subentity type: a marker and the index, or nothing for
      the Null type. */
  function SubentitySuffix(fsp: Fsp): string {
    match fsp.subType
    case SubNull => ""
    case SubFace => "F_" + IntToString(fsp.index)
    case SubEdge => "E_" + IntToString(fsp.index)
    case SubVertex => "V_" + IntToString(fsp.index)
    case SubOther(_) => IntToString(fsp.index)
  }

  /** Exceptions of the string operations. */
  datatype Error = ArgumentOutOfRange

  /** `ToString(FullSubentityPath)` as written: for the Null type the last character is removed
      with `Remove(Length - 1)`, which throws when no handle was written. */
  function FspTextAsWritten(fsp: Fsp): (r: Result<string, Error>)
    ensures r.Failure? <==> IsNullObjectLink(fsp)
  {
    var res := HandlesText(fsp.ids);
    if fsp.subType == SubNull then
      if |res| == 0 then Failure(ArgumentOutOfRange) else Success(res[..|res| - 1])
    else Success(res + SubentitySuffix(fsp))
  }

  /** The text of a path as evidently intended: the handles separated by ':', then for a
      subentity its marker and index as one more piece; a null link gives the empty string. */
  function FspText(fsp: Fsp): (s: string)
    ensures IsNullObjectLink(fsp) ==> s == ""
  {
    if fsp.subType == SubNull then Join(HandleTexts(fsp.ids), ':')
    else HandlesText(fsp.ids) + SubentitySuffix(fsp)
  }

  /** Apart from the null link, the code as written computes exactly the intended text. */
  lemma AsWrittenAgreesOffNullLink(fsp: Fsp)
    requires !IsNullObjectLink(fsp)
    ensures FspTextAsWritten(fsp) == Success(FspText(fsp))
  {
    if fsp.subType == SubNull {
      HandlesTextIsJoin(fsp.ids);
      var j := Join(HandleTexts(fsp.ids), ':');
      assert (j + ":")[..|j + ":"| - 1] == j;
    }
  }

  /** The input that shows the discrepancy: the null link (every unloaded geometry reference). */
  lemma NullLinkTextThrows()
    ensures FspTextAsWritten(Fsp([], SubNull, 0)).Failure?
    ensures FspText(Fsp([], SubNull, 0)) == ""
  {
  }

  /** The handles can be read back from the text: splitting on ':' gives the handle texts, followed
      by the subentity piece when the type is not Null. */
  lemma FspTextSplit(fsp: Fsp)
    requires |fsp.ids| > 0 || fsp.subType != SubNull
    ensures Split(FspText(fsp), ':') ==
              HandleTexts(fsp.ids) + (if fsp.subType == SubNull then [] else [SubentitySuffix(fsp)])
  {
    if fsp.subType == SubNull {
      SplitJoin(HandleTexts(fsp.ids), ':');
    } else {
      HandlesTextThen(fsp.ids, SubentitySuffix(fsp));
      var pieces := HandleTexts(fsp.ids) + [SubentitySuffix(fsp)];
      assert forall k :: 0 <= k < |pieces| ==> ':' !in pieces[k] by {
        forall k | 0 <= k < |pieces| ensures ':' !in pieces[k] {
          if k == |fsp.ids| {
            SuffixHasNoColon(fsp);
          }
        }
      }
      SplitJoin(pieces, ':');
    }
  }

  lemma SuffixHasNoColon(fsp: Fsp)
    ensures ':' !in SubentitySuffix(fsp)
  {
    var s := IntToString(fsp.index);
    assert forall i :: 0 <= i < |s| ==> s[i] != ':';
  }

  /** `ToString(FullSubentityPath)`: the loop over the ids, then the switch on the type, as written. */
  method PathToString(fsp: Fsp) returns (r: Result<string, Error>)
    ensures r == FspTextAsWritten(fsp)
  {
    var res := "";
    var i := 0;
    while i < |fsp.ids|
      invariant 0 <= i <= |fsp.ids|
      invariant res == HandlesText(fsp.ids[..i])
    {
      HandlesTextAppend(fsp.ids[..i], fsp.ids[i]);
      assert fsp.ids[..i + 1] == fsp.ids[..i] + [fsp.ids[i]];
      res := res + HandleText(fsp.ids[i].handle) + ":";
      i := i + 1;
    }
    assert fsp.ids[..i] == fsp.ids;
    match fsp.subType {
      case SubNull =>
        if |res| == 0 {
          return Failure(ArgumentOutOfRange);
        }
        return Success(res[..|res| - 1]);
      case SubFace => res := res + "F_";
      case SubEdge => res := res + "E_";
      case SubVertex => res := res + "V_";
      case SubOther(_) =>
    }
    assert res + IntToString(fsp.index) == HandlesText(fsp.ids) + SubentitySuffix(fsp);
    return Success(res + IntToString(fsp.index));
  }

  /** `BimCategory`, with any value outside the named members kept by its number. */
  datatype BimCategory = Standard | Bricsys | IFC2x3 | IFCCustom | User | Quantity | OtherCategory(code: int)

  /** `ToCategoryString`: the fixed name of each category; Standard and unknown values give "". */
  function ToCategoryString(c: BimCategory): (s: string)
    ensures s == "" <==> c.Standard? || c.OtherCategory?
  {
    match c
    case Standard => ""
    case Bricsys => "Bricsys"
    case IFC2x3 => "IFC2x3"
    case IFCCustom => "Custom"
    case User => "User"
    case Quantity => "BricsysQuantity"
    case OtherCategory(_) => ""
  }

  /** Distinct named categories get distinct names. */
  lemma CategoryStringInjective(c: BimCategory, d: BimCategory)
    requires ToCategoryString(c) != "" && ToCategoryString(c) == ToCategoryString(d)
    ensures c == d
  {
  }

  /** An object handed to `AppendObjectsToDatabase`; only entities are appended. */
  datatype DbObject = DbObject(isEntity: bool, tag: int)

  /** The entities among the objects, in order (`objects.OfType<Entity>()`). */
  function Entities(objects: seq<DbObject>): (r: seq<DbObject>)
    ensures |r| <= |objects|
    ensures forall k :: 0 <= k < |r| ==> r[k].isEntity && r[k] in objects
    ensures forall o :: o in objects && o.isEntity ==> o in r
  {
    if |objects| == 0 then []
    else (if objects[0].isEntity then [objects[0]] else []) + Entities(objects[1..])
  }

  /** Pairs equal-length sequences element by element. */
  function Zip<A, B>(xs: seq<A>, ys: seq<B>): (r: seq<(A, B)>)
    requires |xs| == |ys|
    ensures |r| == |xs| && forall k :: 0 <= k < |r| ==> r[k] == (xs[k], ys[k])
  {
    if |xs| == 0 then [] else [(xs[0], ys[0])] + Zip(xs[1..], ys[1..])
  }

  /** The part of a host database that `AppendObjectsToDatabase` touches: the model-space block
      (ids with their objects), the id counter, and the undo records and transactions begun. */
  class ModelSpace {
    var entries: seq<(ObjectId, DbObject)>
    var nextRaw: int
    var undoRecords: nat
    var transactions: nat

    ghost predicate Valid()
      reads this
    {
      && 0 < nextRaw < 0x8000_0000_0000_0000
      && forall k :: 0 <= k < |entries| ==> 0 < entries[k].0.raw < nextRaw
    }

    constructor ()
      ensures Valid() && entries == [] && undoRecords == 0 && transactions == 0
    {
      entries, nextRaw, undoRecords, transactions := [], 1, 0, 0;
    }

    /** `AppendObjectsToDatabase`: nothing at all for an empty collection; otherwise an undo record
        when asked, one transaction, and one new model-space id per entity, in order. The database
        must have room for that many new handles. */
    method AppendObjectsToDatabase(objects: seq<DbObject>, createUndo: bool) returns (ids: seq<ObjectId>)
      requires Valid() && nextRaw + |objects| < 0x8000_0000_0000_0000
      modifies this
      ensures Valid()
      ensures |objects| == 0 ==>
                ids == [] && entries == old(entries) && nextRaw == old(nextRaw) &&
                undoRecords == old(undoRecords) && transactions == old(transactions)
      ensures |objects| > 0 ==>
                && |ids| == |Entities(objects)|
                && entries == old(entries) + Zip(ids, Entities(objects))
                && undoRecords == old(undoRecords) + (if createUndo then 1 else 0)
                && transactions == old(transactions) + 1
      ensures forall k :: 0 <= k < |ids| ==> old(nextRaw) <= ids[k].raw && !ids[k].IsNull()
      ensures forall j, k :: 0 <= j < k < |ids| ==> ids[j].raw < ids[k].raw
    {
      ids := [];
      if |objects| == 0 {
        return;
      }
      if createUndo {
        undoRecords := undoRecords + 1;
      }
      transactions := transactions + 1;
      ids := AppendEntities(Entities(objects));
    }

    /** The loop of `AppendObjectsToDatabase`: each entity is appended to model space under a new id. */
    method AppendEntities(ents: seq<DbObject>) returns (ids: seq<ObjectId>)
      requires Valid() && nextRaw + |ents| < 0x8000_0000_0000_0000
      modifies this
      ensures Valid() && |ids| == |ents|
      ensures entries == old(entries) + Zip(ids, ents)
      ensures undoRecords == old(undoRecords) && transactions == old(transactions)
      ensures forall k :: 0 <= k < |ids| ==> ids[k].raw == old(nextRaw) + k
    {
      ids := [];
      var i := 0;
      while i < |ents|
        invariant 0 <= i <= |ents| && |ids| == i
        invariant nextRaw == old(nextRaw) + i && Valid()
        invariant |entries| == |old(entries)| + i && entries[..|old(entries)|] == old(entries)
        invariant forall k :: 0 <= k < i ==> entries[|old(entries)| + k] == (ids[k], ents[k])
        invariant forall k :: 0 <= k < i ==> ids[k].raw == old(nextRaw) + k
        invariant undoRecords == old(undoRecords) && transactions == old(transactions)
      {
        var id := ObjectId(nextRaw, nextRaw);
        entries := entries + [(id, ents[i])];
        ids := ids + [id];
        nextRaw := nextRaw + 1;
        i := i + 1;
      }
      assert entries == old(entries) + Zip(ids, ents);
    }
  }

  /** The application-wide working database, by document id. */
  class HostApplication {
    var workingDatabase: int

    constructor (db: int)
      ensures workingDatabase == db
    {
      workingDatabase := db;
    }

    /** `TransientGraphicsManager`: the current transient manager observed while the document's
        database is the working database (`currentManager` maps a working database to it); the
        working database is back to its entry value afterwards. */
    method TransientGraphicsManager(doc: Document, currentManager: int -> int) returns (tm: int)
      modifies this
      ensures tm == currentManager(doc.id)
      ensures workingDatabase == old(workingDatabase)
    {
      var saved := workingDatabase;
      workingDatabase := doc.id;
      tm := currentManager(workingDatabase);
      workingDatabase := saved;
    }
  }
}
