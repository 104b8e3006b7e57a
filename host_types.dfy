/** Opaque host values shared by the models of the C# plug-in and the C++ object enabler.
    Object ids and handles are plain integers; a document is an id plus its file name;
    points, vectors and colours are tuples whose arithmetic is not modelled. */
module HostTypes {

  /** A persistent database handle (the 64-bit value of `Handle`); 0 is the null handle. */
  type Handle = Int64

  /** A session object id. `raw == 0` is the null id; every id carries the handle of its object. */
  datatype ObjectId = ObjectId(raw: int, handle: Handle)
  {
    predicate IsNull() { raw == 0 }
  }

  const NullId: ObjectId := ObjectId(0, 0)

  /** A drawing open in the host: a unique id and its full file name. */
  datatype Document = Document(id: int, name: string)

  datatype Point3 = Point3(x: real, y: real, z: real)
  datatype Vector3 = Vector3(x: real, y: real, z: real)

  /** A colour with alpha channel, as used by System.Drawing. */
  datatype Argb = Argb(a: int, r: int, g: int, b: int)

  /** 16-bit signed integers (C# `short`). */
  type Int16 = x: int | -0x8000 <= x < 0x8000

  /** 32-bit signed integers, the width of C++ `int` and C# `int`. */
  type Int32 = x: int | -0x8000_0000 <= x < 0x8000_0000

  /** 64-bit signed integers (C# `long`). */
  type Int64 = x: int | -0x8000_0000_0000_0000 <= x < 0x8000_0000_0000_0000

  /** 8-bit unsigned integers (DWG filer bytes, C# `byte`). */
  type UInt8 = x: int | 0 <= x < 0x100
}
