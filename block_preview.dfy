/** The preview of the block-insertion component (`getBlockRefPreview` in
    Grasshopper-BricsCAD/Visualization/GrasshopperPreview.cs): its five inputs are matched by
    longest list, branch by branch and item by item, each input indexed at the last position it
    has when it is shorter. Grasshopper's casts of a goo to text, point, number and vector are
    given as functions. */
module BlockPreviews {
  import opened Wrappers
  import opened HostTypes
  import opened DatabaseUtils
  import opened ParameterTypes
  import opened GhKernel
  import Convert

  /** `IGH_Goo.CastTo` to the four target types; `None` where the cast fails. */
  datatype Casts = Casts(
    toText: Goo -> Option<string>,
    toPoint: Goo -> Option<Point3>,
    toNumber: Goo -> Option<real>,
    toVector: Goo -> Option<Vector3>)

  /** A block reference to preview: position, block definition, rotation and scale factors. */
  datatype BlockRef = BlockRef(position: Point3, blockId: ObjectId, rotation: real, scale: Vector3)

  /** What one position of the longest list gives: a block, a warning ("Error rendering block"),
      or an exception, which ends the preview. */
  datatype Cell = Block(block: BlockRef) | Warning | Throw

  /** The blocks and warnings so far, and whether an exception ended the preview. */
  datatype Outcome = Outcome(blocks: seq<BlockRef>, warnings: nat, thrown: bool)

  /** The five inputs, in the order the component registers them. */
  datatype BlockInputs = BlockInputs(handles: Tree, points: Tree, rotations: Tree, scales: Tree, explode: Tree)

  /** `IsEmpty`: the tree holds no item. */
  predicate IsEmpty(t: Tree) {
    DataCount(t) == 0
  }

  /** `Math.Min(i, count - 1)`. */
  function Clamp(i: nat, count: nat): (r: int)
    ensures count > 0 ==> 0 <= r < count
    ensures i < count ==> r == i
    ensures i >= count ==> r == count - 1
  {
    if i < count - 1 then i else count - 1
  }

  /** The list of an input at branch `i`: its branch at the clamped index, or no items when the
      input is empty. */
  function ListAt(t: Tree, i: nat): (r: seq<Option<Goo>>)
    ensures IsEmpty(t) ==> r == []
    ensures !IsEmpty(t) ==> |t| > 0 && r == t[Clamp(i, |t|)].items
  {
    if IsEmpty(t) then [] else t[Clamp(i, |t|)].items
  }

  function Max(a: nat, b: nat): nat {
    if a < b then b else a
  }

  /** `maxBranches`: the largest path count of the five inputs. */
  function MaxBranches(inp: BlockInputs): nat {
    Max(Max(Max(Max(|inp.handles|, |inp.points|), |inp.rotations|), |inp.scales|), |inp.explode|)
  }

  /** `maxListCount` of branch `i`: the longest of the five lists there. */
  function MaxListCount(inp: BlockInputs, i: nat): nat {
    Max(Max(Max(Max(|ListAt(inp.handles, i)|, |ListAt(inp.points, i)|), |ListAt(inp.rotations, i)|),
            |ListAt(inp.scales, i)|), |ListAt(inp.explode, i)|)
  }

  /** An optional input at item `j`: the default for an empty list, the cast value or the
      default when the cast fails; `None` when the item is null (the cast throws). */
  function OptionalAt<T>(items: seq<Option<Goo>>, j: nat, cast: Goo -> Option<T>, default: T): Option<T> {
    if |items| == 0 then Some(default)
    else
      match items[Clamp(j, |items|)]
      case None => None
      case Some(g) => Some(cast(g).GetOr(default))
  }

  /** Position (i, j): the handle text at the clamped position (an empty handle list or a null
      item throws, a failed cast warns), converted from hexadecimal (a bad text throws), looked up
      in the drawing (a missing handle warns); then the insertion point, rotation and scale at
      their clamped positions, with defaults (0,0,0), 0 and (1,1,1). */
  function CellAt(inp: BlockInputs, i: nat, j: nat, casts: Casts, doc: HostDocument): Cell {
    var handleList := ListAt(inp.handles, i);
    if |handleList| == 0 then Throw
    else
      match handleList[Clamp(j, |handleList|)]
      case None => Throw
      case Some(g) =>
        match casts.toText(g)
        case None => Warning
        case Some(text) =>
          match ParseHex64(text)
          case None => Throw
          case Some(h) =>
            if h !in doc.handles then Warning
            else
              var point := OptionalAt(ListAt(inp.points, i), j, casts.toPoint, Point3(0.0, 0.0, 0.0));
              var rotation := OptionalAt(ListAt(inp.rotations, i), j, casts.toNumber, 0.0);
              var scale := OptionalAt(ListAt(inp.scales, i), j, casts.toVector, Vector3(1.0, 1.0, 1.0));
              if point.None? || rotation.None? || scale.None? then Throw
              else Block(BlockRef(Convert.PointToHost(point.value), doc.handles[h], rotation.value, scale.value))
  }

  /** The positions of branch `i`, in order. */
  function RowCells(inp: BlockInputs, i: nat, casts: Casts, doc: HostDocument): (r: seq<Cell>)
    ensures |r| == MaxListCount(inp, i)
    ensures forall j :: 0 <= j < |r| ==> r[j] == CellAt(inp, i, j, casts, doc)
  {
    seq(MaxListCount(inp, i), j requires 0 <= j => CellAt(inp, i, j, casts, doc))
  }

  /** The positions of branches 0 .. k-1, branch after branch. */
  function Rows(inp: BlockInputs, k: nat, casts: Casts, doc: HostDocument): seq<Cell>
    decreases k
  {
    if k == 0 then [] else Rows(inp, k - 1, casts, doc) + RowCells(inp, k - 1, casts, doc)
  }

  /** One more position: a block is added, a warning counted, an exception recorded; nothing
      happens after an exception. */
  function Next(o: Outcome, c: Cell): Outcome {
    if o.thrown then o
    else
      match c
      case Block(b) => o.(blocks := o.blocks + [b])
      case Warning => o.(warnings := o.warnings + 1)
      case Throw => o.(thrown := true)
  }

  /** The outcome of the positions in order. */
  function Run(cells: seq<Cell>): Outcome
    decreases |cells|
  {
    if |cells| == 0 then Outcome([], 0, false) else Next(Run(cells[..|cells| - 1]), cells[|cells| - 1])
  }

  /** An outcome that has thrown stays as it is. */
  lemma {:induction false} RunStops(cells: seq<Cell>, k: nat)
    requires k <= |cells| && Run(cells[..k]).thrown
    ensures Run(cells) == Run(cells[..k])
    decreases |cells|
  {
    if k < |cells| {
      var n := |cells|;
      assert cells[..n - 1][..k] == cells[..k];
      RunStops(cells[..n - 1], k);
    } else {
      assert cells[..k] == cells;
    }
  }

  /** One more position of a row, after the positions before it. */
  lemma RunAppend(before: seq<Cell>, row: seq<Cell>, j: nat)
    requires j < |row|
    ensures Run(before + row[..j + 1]) == Next(Run(before + row[..j]), row[j])
  {
    var cs := before + row[..j + 1];
    assert cs[..|cs| - 1] == before + row[..j];
    assert cs[|cs| - 1] == row[j];
  }

  /** The rows of fewer branches come first in the rows of more. */
  lemma {:induction false} RowsPrefix(inp: BlockInputs, k: nat, m: nat, casts: Casts, doc: HostDocument)
    requires k <= m
    ensures |Rows(inp, k, casts, doc)| <= |Rows(inp, m, casts, doc)|
    ensures Rows(inp, m, casts, doc)[..|Rows(inp, k, casts, doc)|] == Rows(inp, k, casts, doc)
    decreases m
  {
    if k < m {
      RowsPrefix(inp, k, m - 1, casts, doc);
      var a := Rows(inp, m - 1, casts, doc);
      assert (a + RowCells(inp, m - 1, casts, doc))[..|a|] == a;
    }
  }

  /** An exception at position `k` of a row that the whole sequence of positions starts with
      (after `before`) is the outcome of the whole sequence. */
  lemma StopsInPrefix(all: seq<Cell>, before: seq<Cell>, row: seq<Cell>, k: nat)
    requires |before| + |row| <= |all| && all[..|before| + |row|] == before + row
    requires k <= |row| && Run(before + row[..k]).thrown
    ensures Run(all) == Run(before + row[..k])
  {
    assert all[..|before| + k] == before + row[..k];
    RunStops(all, |before| + k);
  }

  /** An exception within branch `i` is the outcome of all the branches. */
  lemma StopsInRow(inp: BlockInputs, i: nat, k: nat, m: nat, casts: Casts, doc: HostDocument)
    requires i < m && k <= MaxListCount(inp, i)
    requires Run(Rows(inp, i, casts, doc) + RowCells(inp, i, casts, doc)[..k]).thrown
    ensures Run(Rows(inp, m, casts, doc)) == Run(Rows(inp, i, casts, doc) + RowCells(inp, i, casts, doc)[..k])
  {
    RowsPrefix(inp, i + 1, m, casts, doc);
    StopsInPrefix(Rows(inp, m, casts, doc), Rows(inp, i, casts, doc), RowCells(inp, i, casts, doc), k);
  }

  /** `getBlockRefPreview` as a value: an exception when the component lacks its five inputs,
      nothing when the handle input is empty, otherwise the outcome of every position. */
  function BlockPreview(c: Component, casts: Casts, doc: HostDocument): (r: Outcome)
    ensures |c.inputs| >= 5 && IsEmpty(c.inputs[0].volatileData) ==> r == Outcome([], 0, false)
    ensures |c.inputs| < 5 ==> r == Outcome([], 0, true)
  {
    if |c.inputs| < 5 then Outcome([], 0, true)
    else
      var inp := InputsOf(c);
      if IsEmpty(inp.handles) then Outcome([], 0, false)
      else Run(Rows(inp, MaxBranches(inp), casts, doc))
  }

  function InputsOf(c: Component): BlockInputs
    requires |c.inputs| >= 5
  {
    BlockInputs(c.inputs[0].volatileData, c.inputs[1].volatileData, c.inputs[2].volatileData,
                c.inputs[3].volatileData, c.inputs[4].volatileData)
  }

  /** One branch of `getBlockRefPreview`: its positions in order from the outcome so far,
      stopping at an exception; `k` is the number of positions taken. */
  method PreviewRow(inp: BlockInputs, i: nat, casts: Casts, doc: HostDocument, ghost before: seq<Cell>, start: Outcome)
    returns (out: Outcome, k: nat)
    requires start == Run(before) && !start.thrown
    ensures k <= MaxListCount(inp, i) && out == Run(before + RowCells(inp, i, casts, doc)[..k])
    ensures !out.thrown ==> k == MaxListCount(inp, i)
  {
    ghost var row := RowCells(inp, i, casts, doc);
    out := start;
    var maxListCount := MaxListCount(inp, i);
    var j := 0;
    assert before + row[..0] == before;
    while j < maxListCount
      invariant 0 <= j <= maxListCount
      invariant out == Run(before + row[..j]) && !out.thrown
    {
      out := PreviewCell(inp, i, j, casts, doc, before, out);
      if out.thrown {
        return out, j + 1;
      }
      j := j + 1;
    }
    k := j;
  }

  /** One position of a branch added to the outcome. */
  method PreviewCell(inp: BlockInputs, i: nat, j: nat, casts: Casts, doc: HostDocument, ghost before: seq<Cell>,
                     start: Outcome)
    returns (out: Outcome)
    requires j < MaxListCount(inp, i) && start == Run(before + RowCells(inp, i, casts, doc)[..j]) && !start.thrown
    ensures out == Run(before + RowCells(inp, i, casts, doc)[..j + 1])
  {
    var cell := CellAt(inp, i, j, casts, doc);
    RunAppend(before, RowCells(inp, i, casts, doc), j);
    out := Next(start, cell);
  }

  /** `getBlockRefPreview`: branch by branch and item by item up to the longest counts, the
      position's block added or its warning given, stopping at the first exception. */
  method GetBlockRefPreview(c: Component, casts: Casts, doc: HostDocument) returns (out: Outcome)
    ensures out == BlockPreview(c, casts, doc)
  {
    out := Outcome([], 0, false);
    if |c.inputs| < 5 {
      return out.(thrown := true);
    }
    var inp := InputsOf(c);
    if IsEmpty(inp.handles) {
      return;
    }
    var maxBranches := MaxBranches(inp);
    ghost var all := Rows(inp, maxBranches, casts, doc);
    var i := 0;
    while i < maxBranches
      invariant 0 <= i <= maxBranches
      invariant out == Run(Rows(inp, i, casts, doc)) && !out.thrown
    {
      ghost var before := Rows(inp, i, casts, doc);
      ghost var row := RowCells(inp, i, casts, doc);
      var k;
      out, k := PreviewRow(inp, i, casts, doc, before, out);
      assert Rows(inp, i + 1, casts, doc) == before + row;
      if out.thrown {
        StopsInRow(inp, i, k, maxBranches, casts, doc);
        return;
      }
      assert row[..k] == row;
      i := i + 1;
    }
  }

  /** Positions that all give blocks give exactly those blocks, with no warning. */
  lemma {:induction false} RunBlocks(cells: seq<Cell>)
    requires forall k :: 0 <= k < |cells| ==> cells[k].Block?
    ensures Run(cells) == Outcome(seq(|cells|, k requires 0 <= k < |cells| => cells[k].block), 0, false)
    decreases |cells|
  {
    if |cells| > 0 {
      var n := |cells|;
      RunBlocks(cells[..n - 1]);
      var prev := seq(n - 1, k requires 0 <= k < n - 1 => cells[..n - 1][k].block);
      assert prev + [cells[n - 1].block] == seq(n, k requires 0 <= k < n => cells[k].block);
    }
  }

  /** Longest-list matching with one block handle: against n insertion points, and no rotation
      or scale, the handle is used for every point, giving n blocks of that definition at those
      points in order, unrotated and unscaled. */
  lemma OneHandleManyPoints(c: Component, casts: Casts, doc: HostDocument, h: Handle,
                            hp: seq<int>, handle: Goo, pp: seq<int>, points: seq<Goo>)
    requires |c.inputs| >= 5
    requires c.inputs[0].volatileData == [Branch(hp, [Some(handle)])]
    requires c.inputs[1].volatileData == [Branch(pp, seq(|points|, k requires 0 <= k < |points| => Some(points[k])))]
    requires c.inputs[2].volatileData == [] && c.inputs[3].volatileData == [] && c.inputs[4].volatileData == []
    requires casts.toText(handle).Some? && ParseHex64(casts.toText(handle).value) == Some(h) && h in doc.handles
    requires |points| > 0 && forall k :: 0 <= k < |points| ==> casts.toPoint(points[k]).Some?
    ensures BlockPreview(c, casts, doc) ==
              Outcome(seq(|points|, k requires 0 <= k < |points| =>
                            BlockRef(Convert.PointToHost(casts.toPoint(points[k]).value), doc.handles[h], 0.0, Vector3(1.0, 1.0, 1.0))),
                      0, false)
  {
    var inp := InputsOf(c);
    assert DataCount(inp.handles) == 1 + DataCount([]);
    assert MaxBranches(inp) == 1;
    var cells := Rows(inp, 1, casts, doc);
    assert cells == RowCells(inp, 0, casts, doc);
    assert |ListAt(inp.points, 0)| == |points|;
    assert MaxListCount(inp, 0) == |points|;
    forall k | 0 <= k < |points|
      ensures cells[k] == Block(BlockRef(Convert.PointToHost(casts.toPoint(points[k]).value), doc.handles[h], 0.0, Vector3(1.0, 1.0, 1.0)))
    {
      assert ListAt(inp.points, 0)[Clamp(k, |points|)] == Some(points[k]);
    }
    RunBlocks(cells);
  }
}
