/** DbGrasshopperData (GrasshopperData/src/DbGrasshopperData.cpp): the database object that binds an
    entity to a Grasshopper definition. It holds the definition name, a visibility flag and a
    name-ordered table of typed input properties, and it lives in the entity's extension dictionary
    under the key "GrasshopperData". */
module GrasshopperRecords {
  import opened Wrappers
  import opened HostTypes
  import opened Filer
  import opened Properties
  import opened Text

  /** `CLASS_VERSION`. */
  const ClassVersion: UInt8 := 0

  /** The extension-dictionary key of the record. */
  const GhDataKey: string := "GrasshopperData"

  /** One entry of the property table. */
  type Entry = (string, Prop)

  /** The `std::map` ordering: names strictly increasing. */
  ghost predicate Sorted(ps: seq<Entry>) {
    forall i, j :: 0 <= i < j < |ps| ==> Less(ps[i].0, ps[j].0)
  }

  /** What `addProperty` lets into the table: well-formed, non-empty properties. */
  ghost predicate Stored(ps: seq<Entry>) {
    forall i :: 0 <= i < |ps| ==> Wf(ps[i].1) && !IsEmpty(ps[i].1)
  }

  /** The table as a map from name to property. */
  function MapOf(ps: seq<Entry>): map<string, Prop>
    decreases |ps|
  {
    if |ps| == 0 then map[] else MapOf(ps[1..])[ps[0].0 := ps[0].1]
  }

  lemma {:induction false} MapOfDomain(ps: seq<Entry>, k: string)
    ensures k in MapOf(ps) <==> exists i :: 0 <= i < |ps| && ps[i].0 == k
    decreases |ps|
  {
    if |ps| > 0 {
      MapOfDomain(ps[1..], k);
      if k in MapOf(ps[1..]) {
        var i :| 0 <= i < |ps[1..]| && ps[1..][i].0 == k;
        assert ps[i + 1].0 == k;
      }
      if exists i :: 0 <= i < |ps| && ps[i].0 == k {
        var i :| 0 <= i < |ps| && ps[i].0 == k;
        if i > 0 {
          assert ps[1..][i - 1].0 == k;
        }
      }
    }
  }

  lemma {:induction false} MapOfAt(ps: seq<Entry>, i: nat)
    requires Sorted(ps) && i < |ps|
    ensures ps[i].0 in MapOf(ps) && MapOf(ps)[ps[i].0] == ps[i].1
    decreases |ps|
  {
    if i > 0 {
      MapOfAt(ps[1..], i - 1);
      assert ps[1..][i - 1] == ps[i];
      assert Less(ps[0].0, ps[i].0);
      LessIrreflexive(ps[0].0);
    }
  }

  /** `std::map::lower_bound`: the first position whose name is not below `name`. */
  function LowerBound(ps: seq<Entry>, name: string): (i: nat)
    ensures i <= |ps|
    ensures forall j :: 0 <= j < i ==> Less(ps[j].0, name)
    ensures Sorted(ps) && i < |ps| ==> !Less(ps[i].0, name)
    decreases |ps|
  {
    if |ps| == 0 || !Less(ps[0].0, name) then 0
    else
      var k := LowerBound(ps[1..], name);
      assert forall j :: 0 <= j < k ==> ps[1..][j] == ps[j + 1];
      k + 1
  }

  /** Below the lower bound every name is smaller; from it on, a name equal to `name` can only sit
      right at it, so `name` is present exactly when it sits at the lower bound. */
  lemma LowerBoundFinds(ps: seq<Entry>, name: string)
    requires Sorted(ps)
    ensures name in MapOf(ps) <==> (LowerBound(ps, name) < |ps| && ps[LowerBound(ps, name)].0 == name)
  {
    var i := LowerBound(ps, name);
    MapOfDomain(ps, name);
    LessIrreflexive(name);
    if name in MapOf(ps) {
      var j :| 0 <= j < |ps| && ps[j].0 == name;
      if j < i {
        assert false;
      } else if i < j {
        assert false;
      }
    }
  }

  /** Where the entries of `ps` sit after inserting `e` at position `i`. */
  lemma InsertIndices(ps: seq<Entry>, i: nat, e: Entry)
    requires i <= |ps|
    ensures var qs := ps[..i] + [e] + ps[i..];
            && |qs| == |ps| + 1 && qs[i] == e
            && (forall j :: 0 <= j < i ==> qs[j] == ps[j])
            && (forall j :: i < j < |qs| ==> qs[j] == ps[j - 1])
  {
  }

  /** Inserting an absent name at its lower bound keeps the names strictly increasing. */
  lemma InsertSorted(ps: seq<Entry>, name: string, p: Prop)
    requires Sorted(ps) && name !in MapOf(ps)
    ensures var i := LowerBound(ps, name); Sorted(ps[..i] + [(name, p)] + ps[i..])
  {
    var i := LowerBound(ps, name);
    var qs := ps[..i] + [(name, p)] + ps[i..];
    InsertIndices(ps, i, (name, p));
    LowerBoundFinds(ps, name);
    assert i < |ps| ==> Less(name, ps[i].0) by {
      if i < |ps| {
        LessTotal(ps[i].0, name);
      }
    }
    forall a, b | 0 <= a < b < |qs| ensures Less(qs[a].0, qs[b].0) {
      if a == i && b - 1 > i {
        LessTransitive(name, ps[i].0, ps[b - 1].0);
      }
    }
  }

  /** Inserting an entry with an absent name anywhere adds exactly that binding. */
  lemma {:induction false} InsertMapOf(ps: seq<Entry>, i: nat, e: Entry)
    requires i <= |ps| && e.0 !in MapOf(ps)
    ensures MapOf(ps[..i] + [e] + ps[i..]) == MapOf(ps)[e.0 := e.1]
    decreases i
  {
    var qs := ps[..i] + [e] + ps[i..];
    if i == 0 {
      assert qs[1..] == ps;
    } else {
      var rest := ps[1..];
      assert qs[0] == ps[0];
      assert qs[1..] == rest[..i - 1] + [e] + rest[i - 1..];
      InsertMapOf(rest, i - 1, e);
      assert e.0 != ps[0].0;
    }
  }

  /** Inserting an absent name at its lower bound adds exactly that binding. */
  lemma InsertAtLowerBound(ps: seq<Entry>, name: string, p: Prop)
    requires Sorted(ps) && name !in MapOf(ps)
    ensures var i := LowerBound(ps, name);
            var qs := ps[..i] + [(name, p)] + ps[i..];
            Sorted(qs) && MapOf(qs) == MapOf(ps)[name := p]
  {
    InsertSorted(ps, name, p);
    InsertMapOf(ps, LowerBound(ps, name), (name, p));
  }

  /** `addProperty` on the table: fails if the name is already present or the value is empty;
      otherwise inserts exactly that entry. */
  function Added(ps: seq<Entry>, name: string, value: Prop): (r: (bool, seq<Entry>))
    requires Sorted(ps)
    ensures r.0 <==> name !in MapOf(ps) && !IsEmpty(value)
    ensures Sorted(r.1)
    ensures MapOf(r.1) == if r.0 then MapOf(ps)[name := value] else MapOf(ps)
    ensures !r.0 ==> r.1 == ps
  {
    var i := LowerBound(ps, name);
    LowerBoundFinds(ps, name);
    if (i < |ps| && ps[i].0 == name) || IsEmpty(value) then (false, ps)
    else
      InsertAtLowerBound(ps, name, value);
      (true, ps[..i] + [(name, value)] + ps[i..])
  }

  /** The position of `name` in the table, if present (`std::map::find`). */
  function IndexOf(ps: seq<Entry>, name: string): (r: Option<nat>)
    ensures r.Some? ==> r.value < |ps| && ps[r.value].0 == name
    ensures r.None? ==> name !in MapOf(ps)
    decreases |ps|
  {
    if |ps| == 0 then None
    else if ps[0].0 == name then Some(0)
    else
      var r := IndexOf(ps[1..], name);
      if r.None? then None else Some(r.value + 1)
  }

  /** `updateProperty` on the table: fails if the value is empty, the name is absent or the types
      differ; otherwise replaces the value, keeping the stored type and the order. */
  function Updated(ps: seq<Entry>, name: string, value: Prop): (r: (bool, seq<Entry>))
    requires Sorted(ps)
    ensures r.0 <==> !IsEmpty(value) && name in MapOf(ps) && MapOf(ps)[name].ty == value.ty
    ensures Sorted(r.1) && |r.1| == |ps|
    ensures MapOf(r.1) == if r.0 then MapOf(ps)[name := value] else MapOf(ps)
    ensures !r.0 ==> r.1 == ps
  {
    if IsEmpty(value) then (false, ps)
    else
      var k := IndexOf(ps, name);
      if k.None? then (false, ps)
      else
        MapOfAt(ps, k.value);
        if ps[k.value].1.ty != value.ty then (false, ps)
        else
          ReplaceAt(ps, k.value, value);
          (true, ps[k.value := (name, value)])
  }

  lemma ReplaceAt(ps: seq<Entry>, k: nat, value: Prop)
    requires Sorted(ps) && k < |ps|
    ensures Sorted(ps[k := (ps[k].0, value)])
    ensures MapOf(ps[k := (ps[k].0, value)]) == MapOf(ps)[ps[k].0 := value]
  {
    var qs := ps[k := (ps[k].0, value)];
    assert forall j :: 0 <= j < |qs| ==> qs[j].0 == ps[j].0;
    assert Sorted(qs);
    forall n ensures n in MapOf(qs) <==> n in MapOf(ps) {
      MapOfDomain(qs, n);
      MapOfDomain(ps, n);
      if n in MapOf(ps) {
        var j :| 0 <= j < |ps| && ps[j].0 == n;
        assert qs[j].0 == n;
      }
    }
    MapOfAt(ps, k);
    forall n | n in MapOf(qs) ensures MapOf(qs)[n] == MapOf(ps)[ps[k].0 := value][n] {
      MapOfDomain(qs, n);
      var j :| 0 <= j < |qs| && qs[j].0 == n;
      MapOfAt(qs, j);
      LessIrreflexive(n);
      if j != k {
        MapOfAt(ps, j);
        assert j < k ==> Less(ps[j].0, ps[k].0);
        assert k < j ==> Less(ps[k].0, ps[j].0);
      }
    }
  }

  /** `getProperty`: a copy of the stored property, or an empty property for an absent name. */
  function Lookup(ps: seq<Entry>, name: string): (p: Prop)
    requires Sorted(ps)
    ensures name in MapOf(ps) ==> p == MapOf(ps)[name]
    ensures name !in MapOf(ps) ==> p == EmptyProp()
  {
    var k := IndexOf(ps, name);
    if k.None? then EmptyProp()
    else
      MapOfAt(ps, k.value);
      ps[k.value].1
  }

  /** The items `dwgOutFields` writes for one entry: the name, then the property. */
  function EntryItems(e: Entry): seq<FilerItem>
    requires Wf(e.1)
  {
    [StringItem(e.0)] + Encode(e.1)
  }

  function EntriesItems(ps: seq<Entry>): seq<FilerItem>
    requires Stored(ps)
    decreases |ps|
  {
    if |ps| == 0 then []
    else
      assert forall i :: 0 <= i < |ps| - 1 ==> ps[1..][i] == ps[i + 1];
      EntryItems(ps[0]) + EntriesItems(ps[1..])
  }

  lemma {:induction false} EntriesItemsAppend(ps: seq<Entry>, e: Entry)
    requires Stored(ps) && Wf(e.1) && !IsEmpty(e.1)
    ensures Stored(ps + [e])
    ensures EntriesItems(ps + [e]) == EntriesItems(ps) + EntryItems(e)
    decreases |ps|
  {
    if |ps| > 0 {
      assert (ps + [e])[1..] == ps[1..] + [e];
      EntriesItemsAppend(ps[1..], e);
    }
  }

  /** One more entry written after the items of a prefix of the table gives the items of the longer prefix. */
  lemma EntriesItemsStep(ps: seq<Entry>, i: nat, start: seq<FilerItem>, items: seq<FilerItem>)
    requires Stored(ps) && i < |ps| && Stored(ps[..i])
    requires items == start + EntriesItems(ps[..i]) + [StringItem(ps[i].0)] + Encode(ps[i].1)
    ensures Stored(ps[..i + 1]) && items == start + EntriesItems(ps[..i + 1])
  {
    assert ps[..i + 1] == ps[..i] + [ps[i]];
    EntriesItemsAppend(ps[..i], ps[i]);
  }

  /** `dwgOutFields` after the base-object fields: version, definition, visibility, count, entries. */
  function EncodeRecord(definition: string, visible: bool, ps: seq<Entry>): seq<FilerItem>
    requires Stored(ps)
  {
    [UInt8Item(ClassVersion), StringItem(definition), BoolItem(visible), SizeItem(|ps|)] + EntriesItems(ps)
  }

  /** The outcome of `dwgInFields`. */
  datatype ErrorStatus = Ok | MakeMeProxy | FilerError

  /** Reads `count` entries starting at `pos`, adding each to `acc` with `addProperty`
      (entries that `addProperty` refuses are dropped). */
  function DecodeEntries(s: seq<FilerItem>, pos: nat, count: nat, acc: seq<Entry>): Option<(seq<Entry>, nat)>
    requires Sorted(acc)
    decreases count
  {
    if count == 0 then Some((acc, pos))
    else if pos >= |s| || !s[pos].StringItem? then None
    else
      var p := Decode(s, pos + 1);
      if p.None? then None
      else DecodeEntries(s, p.value.1, count - 1, Added(acc, s[pos].text, p.value.0).1)
  }

  /** What `dwgInFields` reads after the base-object fields. */
  datatype RecordRead =
    | Proxy
    | Broken
    | Read(definition: string, visible: bool, props: seq<Entry>, next: nat)

  function DecodeRecord(s: seq<FilerItem>, pos: nat): RecordRead {
    if pos >= |s| || !s[pos].UInt8Item? then Broken
    else if s[pos].byte > ClassVersion then Proxy
    else if pos + 3 >= |s| || !s[pos + 1].StringItem? || !s[pos + 2].BoolItem? || !s[pos + 3].SizeItem? then Broken
    else
      var r := DecodeEntries(s, pos + 4, s[pos + 3].size, []);
      if r.None? then Broken
      else Read(s[pos + 1].text, s[pos + 2].flag, r.value.0, r.value.1)
  }

  /** Same names in the same order, and properties that agree on type, flag and set value. */
  predicate EquivalentEntries(ps: seq<Entry>, qs: seq<Entry>) {
    |ps| == |qs| && forall i :: 0 <= i < |ps| ==> ps[i].0 == qs[i].0 && Equivalent(ps[i].1, qs[i].1)
  }

  /** The items of a non-empty table: the first entry's name and property, then the rest. */
  lemma EntriesItemsCons(ps: seq<Entry>)
    requires Stored(ps) && |ps| > 0
    ensures Stored(ps[1..]) && Wf(ps[0].1)
    ensures EntriesItems(ps) == [StringItem(ps[0].0)] + Encode(ps[0].1) + EntriesItems(ps[1..])
  {
    assert Stored(ps[1..]);
  }

  /** A part of a slice is the corresponding slice. */
  lemma SubSlice(s: seq<FilerItem>, pos: nat, t: seq<FilerItem>, lo: nat, hi: nat)
    requires pos + |t| <= |s| && s[pos..pos + |t|] == t && lo <= hi <= |t|
    ensures s[pos + lo..pos + hi] == t[lo..hi]
  {
    forall k | 0 <= k < hi - lo ensures s[pos + lo..pos + hi][k] == t[lo..hi][k] {
      assert s[pos + lo..pos + hi][k] == s[pos + lo + k] == s[pos..pos + |t|][lo + k];
    }
  }

  /** A slice of `s` that equals `[x] + a + b` splits into `x`, the slice for `a` and the slice for `b`. */
  lemma SliceSplit(s: seq<FilerItem>, pos: nat, x: FilerItem, a: seq<FilerItem>, b: seq<FilerItem>)
    requires pos + 1 + |a| + |b| <= |s| && s[pos..pos + 1 + |a| + |b|] == [x] + a + b
    ensures s[pos] == x
    ensures s[pos + 1..pos + 1 + |a|] == a
    ensures s[pos + 1 + |a|..pos + 1 + |a| + |b|] == b
  {
    var all := [x] + a + b;
    assert s[pos] == s[pos..pos + |all|][0];
    SubSlice(s, pos, all, 1, 1 + |a|);
    assert all[1..1 + |a|] == a;
    SubSlice(s, pos, all, 1 + |a|, |all|);
    assert all[1 + |a|..] == b;
  }

  /** Moving the first entry of `ps` to the end of `acc` keeps every name of `acc` below every name of `ps`. */
  lemma ShiftOrdered(acc: seq<Entry>, ps: seq<Entry>, q: Prop)
    requires Sorted(ps) && |ps| > 0
    requires forall j, m :: 0 <= j < |acc| && 0 <= m < |ps| ==> Less(acc[j].0, ps[m].0)
    ensures forall j :: 0 <= j < |acc| ==> Less(acc[j].0, ps[0].0)
    ensures var acc' := acc + [(ps[0].0, q)];
            forall j, m :: 0 <= j < |acc'| && 0 <= m < |ps[1..]| ==> Less(acc'[j].0, ps[1..][m].0)
  {
    var acc' := acc + [(ps[0].0, q)];
    forall j, m | 0 <= j < |acc'| && 0 <= m < |ps[1..]| ensures Less(acc'[j].0, ps[1..][m].0) {
      assert ps[1..][m] == ps[m + 1];
      if j < |acc| {
        assert acc'[j] == acc[j];
      }
    }
  }

  /** Reading back the items written for a table appends, one by one, entries with the same names
      and equivalent properties to what was already read. */
  lemma {:induction false} DecodeEncodedEntries(ps: seq<Entry>, acc: seq<Entry>, s: seq<FilerItem>, pos: nat)
    requires Sorted(acc) && Sorted(ps) && Stored(ps) && Stored(acc)
    requires forall j, m :: 0 <= j < |acc| && 0 <= m < |ps| ==> Less(acc[j].0, ps[m].0)
    requires pos + |EntriesItems(ps)| <= |s| && s[pos..pos + |EntriesItems(ps)|] == EntriesItems(ps)
    ensures DecodeEntries(s, pos, |ps|, acc).Some?
    ensures var r := DecodeEntries(s, pos, |ps|, acc).value;
            r.1 == pos + |EntriesItems(ps)| && |r.0| == |acc| + |ps| && Sorted(r.0) && Stored(r.0) &&
            (forall j :: 0 <= j < |acc| ==> r.0[j] == acc[j]) &&
            (forall j :: 0 <= j < |ps| ==> r.0[|acc| + j].0 == ps[j].0 && Equivalent(r.0[|acc| + j].1, ps[j].1))
    decreases |ps|
  {
    if |ps| > 0 {
      var q, next := DecodeFirstEntry(ps, acc, s, pos);
      var acc' := acc + [(ps[0].0, q)];
      DecodeEncodedEntries(ps[1..], acc', s, next);
      var r := DecodeEntries(s, pos, |ps|, acc).value;
      EntriesOfDecoded(r.0, acc, acc', ps);
    }
  }

  /** The first entry of the items written for a table is read back as an equivalent property,
      appended to what was already read, with the items of the other entries next. */
  lemma DecodeFirstEntry(ps: seq<Entry>, acc: seq<Entry>, s: seq<FilerItem>, pos: nat) returns (q: Prop, next: nat)
    requires |ps| > 0
    requires Sorted(acc) && Sorted(ps) && Stored(ps) && Stored(acc)
    requires forall j, m :: 0 <= j < |acc| && 0 <= m < |ps| ==> Less(acc[j].0, ps[m].0)
    requires pos + |EntriesItems(ps)| <= |s| && s[pos..pos + |EntriesItems(ps)|] == EntriesItems(ps)
    ensures Equivalent(q, ps[0].1)
    ensures var acc' := acc + [(ps[0].0, q)];
            && Sorted(acc') && Stored(acc') && Sorted(ps[1..]) && Stored(ps[1..])
            && (forall j, m :: 0 <= j < |acc'| && 0 <= m < |ps[1..]| ==> Less(acc'[j].0, ps[1..][m].0))
            && next + |EntriesItems(ps[1..])| == pos + |EntriesItems(ps)| && s[next..next + |EntriesItems(ps[1..])|] == EntriesItems(ps[1..])
            && DecodeEntries(s, pos, |ps|, acc) == DecodeEntries(s, next, |ps| - 1, acc')
  {
    var e := ps[0];
    next := pos + 1 + |Encode(e.1)|;
    EntriesItemsCons(ps);
    SliceSplit(s, pos, StringItem(e.0), Encode(e.1), EntriesItems(ps[1..]));
    RoundTrip(e.1, s, pos + 1);
    q := Decode(s, pos + 1).value.0;
    ShiftOrdered(acc, ps, q);
    AppendLarger(acc, e.0, q);
    var acc' := acc + [(e.0, q)];
    assert Stored(acc');
    assert Sorted(ps[1..]);
  }

  lemma EntriesOfDecoded(r: seq<Entry>, acc: seq<Entry>, acc': seq<Entry>, ps: seq<Entry>)
    requires |ps| > 0 && |acc'| == |acc| + 1
    requires acc' == acc + [(ps[0].0, acc'[|acc|].1)] && Equivalent(acc'[|acc|].1, ps[0].1)
    requires |r| == |acc'| + |ps[1..]|
    requires forall j :: 0 <= j < |acc'| ==> r[j] == acc'[j]
    requires forall j :: 0 <= j < |ps[1..]| ==> r[|acc'| + j].0 == ps[1..][j].0 && Equivalent(r[|acc'| + j].1, ps[1..][j].1)
    ensures forall j :: 0 <= j < |acc| ==> r[j] == acc[j]
    ensures forall j :: 0 <= j < |ps| ==> r[|acc| + j].0 == ps[j].0 && Equivalent(r[|acc| + j].1, ps[j].1)
  {
    forall j | 0 <= j < |ps| ensures r[|acc| + j].0 == ps[j].0 && Equivalent(r[|acc| + j].1, ps[j].1) {
      if j > 0 {
        assert r[|acc| + j] == r[|acc'| + (j - 1)];
        assert ps[j] == ps[1..][j - 1];
      } else {
        assert r[|acc|] == acc'[|acc|];
      }
    }
    forall j | 0 <= j < |acc| ensures r[j] == acc[j] {
      assert acc'[j] == acc[j];
    }
  }

  /** A name above every name of the table has its lower bound at the end. */
  lemma {:induction false} LowerBoundAbove(ps: seq<Entry>, name: string)
    requires forall j :: 0 <= j < |ps| ==> Less(ps[j].0, name)
    ensures LowerBound(ps, name) == |ps|
    decreases |ps|
  {
    if |ps| > 0 {
      assert forall j :: 0 <= j < |ps[1..]| ==> ps[1..][j] == ps[j + 1];
      LowerBoundAbove(ps[1..], name);
    }
  }

  /** Adding a name larger than every name in the table appends it. */
  lemma AppendLarger(acc: seq<Entry>, name: string, p: Prop)
    requires Sorted(acc) && !IsEmpty(p)
    requires forall j :: 0 <= j < |acc| ==> Less(acc[j].0, name)
    ensures Added(acc, name, p) == (true, acc + [(name, p)])
  {
    LowerBoundAbove(acc, name);
    MapOfDomain(acc, name);
    LessIrreflexive(name);
    assert name !in MapOf(acc);
    var i := LowerBound(acc, name);
    assert acc[..i] == acc && acc[i..] == [];
    assert Added(acc, name, p) == (true, acc[..i] + [(name, p)] + acc[i..]);
    assert acc[..i] + [(name, p)] + acc[i..] == acc + [(name, p)];
  }

  /** A record written by `dwgOutFields` and read by `dwgInFields` gets back its definition,
      its visibility and its property table (same names, in order, with equivalent properties). */
  lemma RecordRoundTrip(definition: string, visible: bool, ps: seq<Entry>, after: seq<FilerItem>)
    requires Sorted(ps) && Stored(ps)
    ensures DecodeRecord(EncodeRecord(definition, visible, ps) + after, 0).Read?
    ensures var r := DecodeRecord(EncodeRecord(definition, visible, ps) + after, 0);
            r.definition == definition && r.visible == visible && EquivalentEntries(r.props, ps) &&
            r.next == |EncodeRecord(definition, visible, ps)|
  {
    var s := EncodeRecord(definition, visible, ps) + after;
    var items := EntriesItems(ps);
    assert s[4..4 + |items|] == items;
    DecodeEncodedEntries(ps, [], s, 4);
    var r := DecodeEntries(s, 4, |ps|, []).value;
    assert DecodeRecord(s, 0) == Read(definition, visible, r.0, r.1);
    forall j | 0 <= j < |ps| ensures r.0[j].0 == ps[j].0 && Equivalent(r.0[j].1, ps[j].1) {
      assert 0 + j == j;
    }
  }

  /** A stream that announces a later class version is refused with eMakeMeProxy. */
  lemma NewerVersionIsProxy(s: seq<FilerItem>, pos: nat)
    requires pos < |s| && s[pos].UInt8Item? && s[pos].byte > ClassVersion
    ensures DecodeRecord(s, pos) == Proxy
  {
  }

  /** An extension dictionary: its owner and its named entries. */
  datatype Dictionary = Dictionary(owner: ObjectId, entries: map<string, ObjectId>)

  /** The part of a drawing database the record's attach/remove/lookup touch: each entity's
      extension dictionary, the dictionaries, the database-resident records and the erased ids. */
  class Database {
    var extensionDictionary: map<ObjectId, ObjectId>
    var dictionaries: map<ObjectId, Dictionary>
    var records: map<ObjectId, DbGrasshopperData>
    var erased: set<ObjectId>
    var nextRaw: int

    /** Object ids are allocated from `nextRaw`, so every id in use is non-null and below it. */
    ghost predicate Valid()
      reads this
    {
      && nextRaw > 0
      && (forall e :: e in extensionDictionary ==> 0 < extensionDictionary[e].raw < nextRaw)
      && (forall id :: id in dictionaries ==> 0 < id.raw < nextRaw)
      && (forall id :: id in records ==> 0 < id.raw < nextRaw)
      && ExtensionDictionariesOwned()
    }

    /** An extension dictionary is owned by its entity. */
    ghost predicate ExtensionDictionariesOwned()
      reads this
    {
      forall e :: e in extensionDictionary && extensionDictionary[e] in dictionaries ==>
        dictionaries[extensionDictionary[e]].owner == e
    }

    constructor ()
      ensures Valid() && extensionDictionary == map[] && dictionaries == map[] && records == map[] && erased == {}
    {
      extensionDictionary, dictionaries, records, erased, nextRaw := map[], map[], map[], {}, 1;
    }

    /** `getGrasshopperData`: the record id in the entity's extension dictionary, or null when the
        entity, its dictionary or the entry is missing. */
    function GetGrasshopperData(entity: Option<ObjectId>): (id: ObjectId)
      reads this
      ensures !id.IsNull() ==>
                entity.Some? && entity.value in extensionDictionary &&
                extensionDictionary[entity.value] in dictionaries &&
                GhDataKey in dictionaries[extensionDictionary[entity.value]].entries &&
                dictionaries[extensionDictionary[entity.value]].entries[GhDataKey] == id
    {
      if entity.None? || entity.value !in extensionDictionary then NullId
      else
        var dictId := extensionDictionary[entity.value];
        if dictId.IsNull() || dictId !in dictionaries then NullId
        else if GhDataKey !in dictionaries[dictId].entries then NullId
        else dictionaries[dictId].entries[GhDataKey]
    }

    /** A fresh object id; its handle is the id's number, kept within 64 bits. */
    method Allocate() returns (id: ObjectId)
      requires Valid()
      modifies this
      ensures Valid() && !id.IsNull() && id !in dictionaries && id !in records
      ensures id.raw == old(nextRaw) && nextRaw == old(nextRaw) + 1
      ensures extensionDictionary == old(extensionDictionary) && dictionaries == old(dictionaries)
      ensures records == old(records) && erased == old(erased)
    {
      id := ObjectId(nextRaw, nextRaw % 0x8000_0000_0000_0000);
      nextRaw := nextRaw + 1;
    }

    /** The entity's extension dictionary, created (`createExtensionDictionary`) when it has none. */
    method ExtensionDictionary(ent: ObjectId) returns (dictId: ObjectId)
      requires Valid()
      modifies this
      ensures Valid() && ent in extensionDictionary && dictId == extensionDictionary[ent]
      ensures ent in old(extensionDictionary) ==>
                extensionDictionary == old(extensionDictionary) && dictionaries == old(dictionaries) &&
                nextRaw == old(nextRaw)
      ensures ent !in old(extensionDictionary) ==>
                dictId !in old(dictionaries) &&
                extensionDictionary == old(extensionDictionary)[ent := dictId] &&
                dictionaries == old(dictionaries)[dictId := Dictionary(ent, map[])]
      ensures records == old(records) && erased == old(erased)
    {
      if ent !in extensionDictionary {
        dictId := Allocate();
        dictionaries := dictionaries[dictId := Dictionary(ent, map[])];
        extensionDictionary := extensionDictionary[ent := dictId];
      } else {
        dictId := extensionDictionary[ent];
      }
    }

    /** `attachGrasshopperData`: fails for a null entity or record and for a record that is already
        database-resident; creates the entity's extension dictionary when it has none; adds the record
        under "GrasshopperData" unless that entry already exists. */
    method AttachGrasshopperData(entity: Option<ObjectId>, data: DbGrasshopperData?) returns (ok: bool)
      requires Valid()
      modifies this, data
      ensures Valid()
      ensures ok <==> entity.Some? && data != null && old(data.objectId).IsNull() &&
                      (entity.value in old(extensionDictionary) ==>
                         old(extensionDictionary)[entity.value] in old(dictionaries) &&
                         GhDataKey !in old(dictionaries)[old(extensionDictionary)[entity.value]].entries)
      ensures !ok ==> extensionDictionary == old(extensionDictionary) && dictionaries == old(dictionaries) &&
                      records == old(records) && nextRaw == old(nextRaw)
      ensures !ok && data != null ==> data.objectId == old(data.objectId) && data.ownerId == old(data.ownerId)
      ensures ok ==>
                var ent := entity.value;
                var dictId := data.ownerId;
                var before := if dictId in old(dictionaries) then old(dictionaries)[dictId].entries else map[];
                && extensionDictionary == old(extensionDictionary)[ent := dictId]
                && (ent in old(extensionDictionary) ==> dictId == old(extensionDictionary)[ent])
                && (ent !in old(extensionDictionary) ==> dictId !in old(dictionaries))
                && dictionaries == old(dictionaries)[dictId := Dictionary(ent, before[GhDataKey := data.objectId])]
                && !data.objectId.IsNull() && data.objectId !in old(records)
                && records == old(records)[data.objectId := data]
      ensures ok ==> GetGrasshopperData(entity) == data.objectId && data.GetHostEntity(this) == entity.value
      ensures forall e: ObjectId :: Some(e) != entity ==> GetGrasshopperData(Some(e)) == old(GetGrasshopperData(Some(e)))
      ensures erased == old(erased)
      ensures data != null ==> data.definition == old(data.definition) && data.props == old(data.props) &&
                               data.visible == old(data.visible)
    {
      if entity.None? || data == null || !data.objectId.IsNull() {
        return false;
      }
      ok := AttachTo(entity.value, data);
    }

    /** `attachGrasshopperData` once the entity and the record are known and the record is not yet
        database-resident. */
    method AttachTo(ent: ObjectId, data: DbGrasshopperData) returns (ok: bool)
      requires Valid() && data.objectId.IsNull()
      modifies this, data
      ensures Valid()
      ensures ok <==> (ent in old(extensionDictionary) ==>
                         old(extensionDictionary)[ent] in old(dictionaries) &&
                         GhDataKey !in old(dictionaries)[old(extensionDictionary)[ent]].entries)
      ensures !ok ==> extensionDictionary == old(extensionDictionary) && dictionaries == old(dictionaries) &&
                      records == old(records) && nextRaw == old(nextRaw)
      ensures !ok ==> data.objectId == old(data.objectId) && data.ownerId == old(data.ownerId)
      ensures ok ==>
                var dictId := data.ownerId;
                var before := if dictId in old(dictionaries) then old(dictionaries)[dictId].entries else map[];
                && extensionDictionary == old(extensionDictionary)[ent := dictId]
                && (ent in old(extensionDictionary) ==> dictId == old(extensionDictionary)[ent])
                && (ent !in old(extensionDictionary) ==> dictId !in old(dictionaries))
                && dictionaries == old(dictionaries)[dictId := Dictionary(ent, before[GhDataKey := data.objectId])]
                && !data.objectId.IsNull() && data.objectId !in old(records)
                && records == old(records)[data.objectId := data]
      ensures ok ==> GetGrasshopperData(Some(ent)) == data.objectId && data.GetHostEntity(this) == ent
      ensures forall e: ObjectId :: e != ent ==> GetGrasshopperData(Some(e)) == old(GetGrasshopperData(Some(e)))
      ensures erased == old(erased)
      ensures data.definition == old(data.definition) && data.props == old(data.props) && data.visible == old(data.visible)
    {
      var dictId := ExtensionDictionary(ent);
      if dictId !in dictionaries {
        return false;
      }
      var dict := dictionaries[dictId];
      if GhDataKey in dict.entries {
        return false;
      }
      assert dict.owner == ent;
      PutRecord(dictId, data);
      ok := true;
    }

    /** `setAt("GrasshopperData", data)` on a dictionary: the record becomes database-resident under
        a fresh id and the dictionary becomes its owner. */
    method PutRecord(dictId: ObjectId, data: DbGrasshopperData)
      requires Valid() && dictId in dictionaries && GhDataKey !in dictionaries[dictId].entries
      modifies this, data
      ensures Valid()
      ensures !data.objectId.IsNull() && data.objectId !in old(records) && data.ownerId == dictId
      ensures dictionaries == old(dictionaries)[dictId := Dictionary(old(dictionaries)[dictId].owner,
                                                          old(dictionaries)[dictId].entries[GhDataKey := data.objectId])]
      ensures records == old(records)[data.objectId := data]
      ensures extensionDictionary == old(extensionDictionary) && erased == old(erased)
      ensures data.definition == old(data.definition) && data.props == old(data.props) && data.visible == old(data.visible)
    {
      var dict := dictionaries[dictId];
      var id := Allocate();
      dictionaries := dictionaries[dictId := Dictionary(dict.owner, dict.entries[GhDataKey := id])];
      records := records[id := data];
      data.objectId := id;
      data.ownerId := dictId;
    }

    /** `removeGrasshopperData`: nothing happens when the entity carries no record; otherwise the
        entry is removed from the dictionary and the record is erased. */
    method RemoveGrasshopperData(entity: Option<ObjectId>)
      requires Valid()
      modifies this
      ensures Valid()
      ensures old(GetGrasshopperData(entity)).IsNull() ==>
                dictionaries == old(dictionaries) && erased == old(erased)
      ensures !old(GetGrasshopperData(entity)).IsNull() ==>
                GetGrasshopperData(entity).IsNull() &&
                erased == old(erased) + (if old(GetGrasshopperData(entity)) in records
                                         then {old(GetGrasshopperData(entity))} else {})
      ensures extensionDictionary == old(extensionDictionary) && records == old(records)
      ensures old(erased) <= erased
      ensures forall x: ObjectId :: old(GetGrasshopperData(Some(x))).IsNull() ==> GetGrasshopperData(Some(x)).IsNull()
      ensures forall x: ObjectId :: Some(x) != entity ==> GetGrasshopperData(Some(x)) == old(GetGrasshopperData(Some(x)))
    {
      var ghId := GetGrasshopperData(entity);
      if ghId.IsNull() {
        return;
      }
      var dictId := extensionDictionary[entity.value];
      var dict := dictionaries[dictId];
      dictionaries := dictionaries[dictId := Dictionary(dict.owner, dict.entries - {GhDataKey})];
      if ghId in records {
        erased := erased + {ghId};
      }
    }
  }

  /** The record object itself. */
  class DbGrasshopperData {
    var definition: string
    var props: seq<Entry>
    var visible: bool
    var objectId: ObjectId
    var ownerId: ObjectId

    ghost predicate Valid()
      reads this
    {
      Sorted(props) && Stored(props)
    }

    /** The property table as a map. */
    function Properties(): map<string, Prop>
      reads this
    {
      MapOf(props)
    }

    /** `DbGrasshopperData(definition)`: not visible, no properties, not yet in a database. */
    constructor (def: string)
      ensures Valid() && definition == def && props == [] && !visible
      ensures objectId.IsNull() && ownerId.IsNull()
    {
      definition, props, visible, objectId, ownerId := def, [], false, NullId, NullId;
    }

    method SetDefinition(def: string)
      modifies this
      ensures definition == def && props == old(props) && visible == old(visible)
      ensures objectId == old(objectId) && ownerId == old(ownerId)
    {
      definition := def;
    }

    method SetVisibility(v: bool)
      modifies this
      ensures visible == v && props == old(props) && definition == old(definition)
      ensures objectId == old(objectId) && ownerId == old(ownerId)
    {
      visible := v;
    }

    /** `getPropertiesTypes`: every (name, type) pair, in name order. */
    method GetPropertiesTypes() returns (r: seq<(string, PropType)>)
      requires Valid()
      ensures |r| == |props|
      ensures forall i :: 0 <= i < |r| ==> r[i] == (props[i].0, props[i].1.ty)
      ensures forall i :: 0 <= i < |r| ==> r[i].0 in Properties() && r[i].1 == Properties()[r[i].0].ty
      ensures forall i, j :: 0 <= i < j < |r| ==> Less(r[i].0, r[j].0)
      ensures forall name :: name in Properties() ==> exists i :: 0 <= i < |r| && r[i].0 == name
    {
      r := [];
      var i := 0;
      while i < |props|
        invariant 0 <= i <= |props|
        invariant |r| == i
        invariant forall j :: 0 <= j < i ==> r[j] == (props[j].0, props[j].1.ty)
      {
        r := r + [(props[i].0, props[i].1.ty)];
        i := i + 1;
      }
      forall j | 0 <= j < |r| ensures r[j].0 == props[j].0 && r[j].0 in Properties() && r[j].1 == Properties()[r[j].0].ty {
        MapOfAt(props, j);
      }
      forall name | name in Properties() ensures exists i :: 0 <= i < |r| && r[i].0 == name {
        MapOfDomain(props, name);
      }
    }

    /** `getProperty`. */
    function GetProperty(name: string): (p: Prop)
      requires Valid()
      reads this
      ensures name in Properties() ==> p == Properties()[name] && !IsEmpty(p)
      ensures name !in Properties() ==> p == EmptyProp()
    {
      var k := IndexOf(props, name);
      if k.Some? then MapOfAt(props, k.value); props[k.value].1 else EmptyProp()
    }

    /** `updateProperty`. */
    method UpdateProperty(name: string, value: Prop) returns (ok: bool)
      requires Valid() && Wf(value)
      modifies this
      ensures Valid()
      ensures (ok, props) == Updated(old(props), name, value)
      ensures definition == old(definition) && visible == old(visible)
      ensures objectId == old(objectId) && ownerId == old(ownerId)
    {
      var r := Updated(props, name, value);
      if r.0 {
        var k := IndexOf(props, name).value;
        assert r.1 == props[k := (name, value)];
        props := r.1;
      }
      ok := r.0;
    }

    /** `addProperty`. */
    method AddProperty(name: string, value: Prop) returns (ok: bool)
      requires Valid() && Wf(value)
      modifies this
      ensures Valid()
      ensures (ok, props) == Added(old(props), name, value)
      ensures definition == old(definition) && visible == old(visible)
      ensures objectId == old(objectId) && ownerId == old(ownerId)
    {
      var i := LowerBound(props, name);
      if (i < |props| && props[i].0 == name) || IsEmpty(value) {
        return false;
      }
      LowerBoundFinds(props, name);
      InsertAtLowerBound(props, name, value);
      props := props[..i] + [(name, value)] + props[i..];
      assert Stored(props) by {
        forall j | 0 <= j < |props| ensures Wf(props[j].1) && !IsEmpty(props[j].1) {
          if j < i { assert props[j] == old(props)[j]; }
          else if j > i { assert props[j] == old(props)[j - 1]; }
        }
      }
      ok := true;
    }

    /** `clearProperties`. */
    method ClearProperties()
      modifies this
      ensures Valid() && props == [] && Properties() == map[]
      ensures definition == old(definition) && visible == old(visible)
      ensures objectId == old(objectId) && ownerId == old(ownerId)
    {
      props := [];
    }

    /** `getHostEntity`: the owner of the owning dictionary, or null when the record has no owner
        or the owner does not open as a dictionary. */
    function GetHostEntity(db: Database): ObjectId
      reads this, db
    {
      if ownerId.IsNull() || ownerId !in db.dictionaries then NullId
      else db.dictionaries[ownerId].owner
    }

    /** `dwgOutFields`, after the base-object fields. */
    method DwgOutFields(f: DwgFiler)
      requires Valid() && f.Valid()
      modifies f
      ensures f.Valid() && f.items == old(f.items) + EncodeRecord(definition, visible, props)
      ensures f.pos == old(f.pos) && f.ok == old(f.ok)
    {
      f.Write(UInt8Item(ClassVersion));
      f.Write(StringItem(definition));
      f.Write(BoolItem(visible));
      f.Write(SizeItem(|props|));
      WriteEntries(f);
    }

    /** The entry loop of `dwgOutFields`: each name followed by its property, in name order. */
    method WriteEntries(f: DwgFiler)
      requires Valid() && f.Valid()
      modifies f
      ensures f.Valid() && f.items == old(f.items) + EntriesItems(props)
      ensures f.pos == old(f.pos) && f.ok == old(f.ok)
    {
      var i := 0;
      while i < |props|
        invariant 0 <= i <= |props| && f.Valid()
        invariant Stored(props[..i])
        invariant f.items == old(f.items) + EntriesItems(props[..i])
        invariant f.pos == old(f.pos) && f.ok == old(f.ok)
      {
        var p := PropertyObject(props[i].1);
        f.Write(StringItem(props[i].0));
        p.DwgOutFields(f);
        EntriesItemsStep(props, i, old(f.items), f.items);
        i := i + 1;
      }
      assert props[..|props|] == props;
    }

    /** `dwgInFields`: the table is cleared first; a failed base-object read is passed on; a later
        class version gives eMakeMeProxy; otherwise definition, visibility and the entries are read,
        each entry re-added with `addProperty`. */
    method DwgInFields(f: DwgFiler) returns (status: ErrorStatus)
      requires Valid() && f.Valid()
      modifies this, f
      ensures Valid() && f.Valid() && f.items == old(f.items)
      ensures objectId == old(objectId) && ownerId == old(ownerId)
      ensures !old(f.ok) ==> status == FilerError && props == []
      ensures old(f.ok) && DecodeRecord(f.items, old(f.pos)) == Proxy ==> status == MakeMeProxy && props == []
      ensures old(f.ok) && DecodeRecord(f.items, old(f.pos)) == Broken ==> status == FilerError && !f.ok
      ensures old(f.ok) && DecodeRecord(f.items, old(f.pos)).Read? ==>
                var r := DecodeRecord(f.items, old(f.pos));
                status == Ok && f.ok && f.pos == r.next &&
                definition == r.definition && visible == r.visible && props == r.props
    {
      props := [];
      if !f.ok {
        return FilerError;
      }
      var version := f.Read();
      if version.None? || !version.value.UInt8Item? {
        f.Fail();
        return FilerError;
      }
      if version.value.byte > ClassVersion {
        return MakeMeProxy;
      }
      var def := f.Read();
      var vis := f.Read();
      var size := f.Read();
      if def.None? || !def.value.StringItem? || vis.None? || !vis.value.BoolItem? || size.None? || !size.value.SizeItem? {
        f.Fail();
        return FilerError;
      }
      definition := def.value.text;
      visible := vis.value.flag;
      var entriesRead := ReadEntries(f, size.value.size);
      status := if entriesRead then Ok else FilerError;
    }

    /** The entry loop of `dwgInFields`: reads `count` (name, property) pairs, adding each with
        `addProperty`; stops at the first item that cannot be read. */
    method ReadEntries(f: DwgFiler, count: nat) returns (success: bool)
      requires Valid() && f.Valid() && f.ok
      modifies this, f
      ensures Valid() && f.Valid() && f.items == old(f.items)
      ensures definition == old(definition) && visible == old(visible)
      ensures objectId == old(objectId) && ownerId == old(ownerId)
      ensures var r := DecodeEntries(f.items, old(f.pos), count, old(props));
              (success <==> r.Some?) && f.ok == success &&
              (success ==> props == r.value.0 && f.pos == r.value.1)
    {
      ghost var start := f.pos;
      ghost var initial := props;
      var i := 0;
      while i < count
        invariant 0 <= i <= count && f.Valid() && Valid() && f.items == old(f.items) && f.ok
        invariant definition == old(definition) && visible == old(visible)
        invariant objectId == old(objectId) && ownerId == old(ownerId)
        invariant DecodeEntries(f.items, start, count, initial) == DecodeEntries(f.items, f.pos, count - i, props)
      {
        var name := f.Read();
        if name.None? || !name.value.StringItem? {
          f.Fail();
          return false;
        }
        var prop := new GhProperty();
        prop.DwgInFields(f);
        if !f.ok {
          return false;
        }
        var _ := AddProperty(name.value.text, prop.Snapshot());
        i := i + 1;
      }
      success := true;
    }
  }

  /** A `GhProperty` object holding a stored property, for the writer loop. */
  method PropertyObject(p: Prop) returns (obj: GhProperty)
    requires Wf(p)
    ensures fresh(obj) && obj.Valid() && obj.Snapshot() == p
  {
    obj := new GhProperty();
    obj.ty, obj.data, obj.setFlag := p.ty, p.data, p.setFlag;
  }
}
