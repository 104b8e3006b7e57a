/** `Convert` (Grasshopper-BricsCAD/Convert.cs): the unit mapping between BricsCAD and Rhino, the
    mesh-face encoding of the host, the list and colour conversions, and the knot copy of the NURBS
    conversion. Coordinates are opaque: the conversions of single points are identities on tuples. */
module Convert {
  import opened Wrappers
  import opened HostTypes

  /** `UnitsValue` of the host: the nineteen units the conversion knows, and any other value. */
  datatype HostUnits =
    | Inches | Feet | Miles | Millimeters | Centimeters | Meters | Kilometers | MicroInches | Mils
    | Angstroms | Nanometers | Microns | Decimeters | Dekameters | Hectometers | Gigameters
    | Astronomical | LightYears | Parsecs
    | OtherUnits(code: int)

  /** `Rhino.UnitSystem`, as far as the conversion produces it. */
  datatype RhinoUnits =
    | RhNone
    | RhInches | RhFeet | RhMiles | RhMillimeters | RhCentimeters | RhMeters | RhKilometers
    | RhMicroinches | RhMils | RhAngstroms | RhNanometers | RhMicrons | RhDecimeters | RhDekameters
    | RhHectometers | RhGigameters | RhAstronomicalUnits | RhLightYears | RhParsecs

  /** `ToRhino(UnitsValue)`: each of the nineteen units to its Rhino unit, anything else to None. */
  function UnitsToRhino(u: HostUnits): (r: RhinoUnits)
    ensures r == RhNone <==> u.OtherUnits?
  {
    match u
    case Inches => RhInches
    case Feet => RhFeet
    case Miles => RhMiles
    case Millimeters => RhMillimeters
    case Centimeters => RhCentimeters
    case Meters => RhMeters
    case Kilometers => RhKilometers
    case MicroInches => RhMicroinches
    case Mils => RhMils
    case Angstroms => RhAngstroms
    case Nanometers => RhNanometers
    case Microns => RhMicrons
    case Decimeters => RhDecimeters
    case Dekameters => RhDekameters
    case Hectometers => RhHectometers
    case Gigameters => RhGigameters
    case Astronomical => RhAstronomicalUnits
    case LightYears => RhLightYears
    case Parsecs => RhParsecs
    case OtherUnits(_) => RhNone
  }

  /** The host unit a Rhino unit comes from; None has none. */
  function UnitsFromRhino(r: RhinoUnits): (u: Option<HostUnits>)
    ensures u.None? <==> r == RhNone
  {
    match r
    case RhNone => None
    case RhInches => Some(Inches)
    case RhFeet => Some(Feet)
    case RhMiles => Some(Miles)
    case RhMillimeters => Some(Millimeters)
    case RhCentimeters => Some(Centimeters)
    case RhMeters => Some(Meters)
    case RhKilometers => Some(Kilometers)
    case RhMicroinches => Some(MicroInches)
    case RhMils => Some(Mils)
    case RhAngstroms => Some(Angstroms)
    case RhNanometers => Some(Nanometers)
    case RhMicrons => Some(Microns)
    case RhDecimeters => Some(Decimeters)
    case RhDekameters => Some(Dekameters)
    case RhHectometers => Some(Hectometers)
    case RhGigameters => Some(Gigameters)
    case RhAstronomicalUnits => Some(Astronomical)
    case RhLightYears => Some(LightYears)
    case RhParsecs => Some(Parsecs)
  }

  /** The mapping is a bijection between the nineteen units on each side. */
  lemma UnitsRoundTrip(u: HostUnits, r: RhinoUnits)
    ensures !u.OtherUnits? ==> UnitsFromRhino(UnitsToRhino(u)) == Some(u)
    ensures r != RhNone ==> UnitsToRhino(UnitsFromRhino(r).value) == r
  {
  }

  /** A Rhino mesh face: four vertex indices; it is a triangle when C == D and a quad otherwise. */
  datatype MeshFace = MeshFace(a: Int32, b: Int32, c: Int32, d: Int32)
  {
    predicate IsQuad() { c != d }
    predicate IsTriangle() { c == d }
  }

  /** The host group of one face: `[4, A, B, C, D]` for a quad, `[3, A, B, C]` for a triangle, and
      nothing for a face that is neither. */
  function FaceGroup(f: MeshFace): (g: seq<int>)
    ensures f.IsQuad() ==> g == [4, f.a, f.b, f.c, f.d]
    ensures f.IsTriangle() ==> g == [3, f.a, f.b, f.c]
  {
    if f.IsQuad() then [4, f.a, f.b, f.c, f.d]
    else if f.IsTriangle() then [3, f.a, f.b, f.c]
    else []
  }

  /** `ToHost(IList<MeshFace>)`: the groups of all faces, concatenated in order. */
  function FacesToHost(faces: seq<MeshFace>): (r: seq<int>)
    ensures |faces| == 0 <==> |r| == 0
  {
    if |faces| == 0 then [] else FaceGroup(faces[0]) + FacesToHost(faces[1..])
  }

  /** Reads a host face list back: each group starts with its count (3 or 4) of indices. */
  function FacesFromHost(s: seq<int>): Option<seq<MeshFace>>
    decreases |s|
  {
    if |s| == 0 then Some([])
    else if s[0] == 4 && |s| >= 5 && IsInt32(s[1]) && IsInt32(s[2]) && IsInt32(s[3]) && IsInt32(s[4]) then
      var rest := FacesFromHost(s[5..]);
      if rest.None? then None else Some([MeshFace(s[1], s[2], s[3], s[4])] + rest.value)
    else if s[0] == 3 && |s| >= 4 && IsInt32(s[1]) && IsInt32(s[2]) && IsInt32(s[3]) then
      var rest := FacesFromHost(s[4..]);
      if rest.None? then None else Some([MeshFace(s[1], s[2], s[3], s[3])] + rest.value)
    else None
  }

  predicate IsInt32(x: int) {
    -0x8000_0000 <= x < 0x8000_0000
  }

  /** Every group's leading count is the number of indices after it: the host list reads back as
      exactly the faces it came from. */
  lemma {:induction false} FacesRoundTrip(faces: seq<MeshFace>)
    ensures FacesFromHost(FacesToHost(faces)) == Some(faces)
    decreases |faces|
  {
    if |faces| > 0 {
      var f := faces[0];
      var g := FaceGroup(f);
      var s := FacesToHost(faces);
      assert s == g + FacesToHost(faces[1..]);
      FacesRoundTrip(faces[1..]);
      if f.IsQuad() {
        assert s[5..] == FacesToHost(faces[1..]);
      } else {
        assert s[4..] == FacesToHost(faces[1..]);
      }
      assert faces == [f] + faces[1..];
    }
  }

  /** A Rhino point (`Point3d`, or `Point3f` widened) to the host point with the same coordinates. */
  function PointToHost(p: Point3): Point3 {
    Point3(p.x, p.y, p.z)
  }

  /** `ToRhino(Point3d)`. */
  function PointToRhino(p: Point3): Point3 {
    Point3(p.x, p.y, p.z)
  }

  /** `ToHost(Vector3d)` and `ToRhino(Vector3d)`: the same components on the other side. */
  function VectorToHost(v: Vector3): Vector3 {
    Vector3(v.x, v.y, v.z)
  }

  function VectorToRhino(v: Vector3): Vector3 {
    Vector3(v.x, v.y, v.z)
  }

  /** `ToHost(IList<Point3d>)` and `ToHost(IList<Point3f>)`: same length, each point converted in place. */
  function PointsToHost(ps: seq<Point3>): (r: seq<Point3>)
    ensures |r| == |ps| && forall i :: 0 <= i < |ps| ==> r[i] == PointToHost(ps[i])
  {
    seq(|ps|, i requires 0 <= i < |ps| => PointToHost(ps[i]))
  }

  /** `ToHost(IList<Vector3f>)`. */
  function VectorsToHost(vs: seq<Vector3>): (r: seq<Vector3>)
    ensures |r| == |vs| && forall i :: 0 <= i < |vs| ==> r[i] == vs[i]
  {
    seq(|vs|, i requires 0 <= i < |vs| => Vector3(vs[i].x, vs[i].y, vs[i].z))
  }

  /** An `EntityColor` built from red, green and blue. */
  datatype EntityColor = EntityColor(r: int, g: int, b: int)

  /** `ToHost(Color)`: keeps R, G and B and drops alpha. */
  function ColorToHost(c: Argb): (e: EntityColor)
    ensures e.r == c.r && e.g == c.g && e.b == c.b
  {
    EntityColor(c.r, c.g, c.b)
  }

  /** Colours differing only in alpha give the same host colour. */
  lemma ColorIgnoresAlpha(c: Argb, alpha: int)
    ensures ColorToHost(c) == ColorToHost(Argb(alpha, c.r, c.g, c.b))
  {
  }

  /** `ToHost(IEnumerable<Color>)`. */
  function ColorsToHost(cs: seq<Argb>): (r: seq<EntityColor>)
    ensures |r| == |cs| && forall i :: 0 <= i < |cs| ==> r[i] == ColorToHost(cs[i])
  {
    seq(|cs|, i requires 0 <= i < |cs| => ColorToHost(cs[i]))
  }

  /** The knot loop of the NURBS conversion: knots 1 .. Count-2 of the host curve go to knots
      0 .. Count-3 of the Rhino curve, whose knot vector is two shorter; the end knots are dropped. */
  method CopyKnots(src: seq<real>, dst: array<real>)
    requires |src| < 2 || dst.Length >= |src| - 2
    modifies dst
    ensures |src| >= 2 ==> dst[..|src| - 2] == src[1..|src| - 1] && dst[|src| - 2..] == old(dst[|src| - 2..])
    ensures |src| < 2 ==> dst[..] == old(dst[..])
  {
    var i := 1;
    while i < |src| - 1
      invariant 1 <= i <= if |src| >= 2 then |src| - 1 else 1
      invariant forall k :: 0 <= k < i - 1 ==> dst[k] == src[k + 1]
      invariant forall k :: i - 1 <= k < dst.Length ==> dst[k] == old(dst[k])
    {
      dst[i - 1] := src[i];
      i := i + 1;
    }
  }
}
