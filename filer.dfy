/** The DWG filer that `dwgOutFields`/`dwgInFields` write to and read from, abstracted to a
    sequence of typed items with a read cursor and an error status. The byte layout is not modelled. */
module Filer {
  import opened Wrappers
  import opened HostTypes

  datatype FilerItem =
    | UInt8Item(byte: UInt8)
    | BoolItem(flag: bool)
    | Int32Item(int32: Int32)
    | RealItem(number: real)
    | StringItem(text: string)
    | PointItem(point: Point3)
    | VectorItem(vector: Vector3)
    | SizeItem(size: nat)

  class DwgFiler {
    var items: seq<FilerItem>
    var pos: nat
    var ok: bool

    ghost predicate Valid()
      reads this
    {
      pos <= |items|
    }

    /** A filer positioned at the start of `initial`, with no error recorded. */
    constructor (initial: seq<FilerItem>)
      ensures Valid() && items == initial && pos == 0 && ok
    {
      items := initial;
      pos := 0;
      ok := true;
    }

    method Write(x: FilerItem)
      requires Valid()
      modifies this
      ensures Valid()
      ensures items == old(items) + [x] && pos == old(pos) && ok == old(ok)
    {
      items := items + [x];
    }

    /** Reads the next item. Reading past the end records an error and yields nothing. */
    method Read() returns (x: Option<FilerItem>)
      requires Valid()
      modifies this
      ensures Valid() && items == old(items)
      ensures old(pos) < |items| ==> x == Some(items[old(pos)]) && pos == old(pos) + 1 && ok == old(ok)
      ensures old(pos) == |items| ==> x == None && pos == old(pos) && !ok
    {
      if pos < |items| {
        x := Some(items[pos]);
        pos := pos + 1;
      } else {
        x := None;
        ok := false;
      }
    }

    /** Records a read error (an item of the wrong kind was found). */
    method Fail()
      modifies this
      ensures items == old(items) && pos == old(pos) && !ok
    {
      ok := false;
    }
  }
}
