/** Values shared by every part of the STL filter model: error codes, bytes,
    points, triangles and the external services the filter calls. */
module StlBase {

  datatype Option<T> = None | Some(value: T)

  /** The CC_FILE_ERROR codes that the STL filter returns. */
  datatype FileError =
    | NoError
    | Writing
    | Reading
    | MalformedFile
    | CanceledByUser
    | NotEnoughMemory

  type byte = b: int | 0 <= b < 256

  /** A coordinate triple. Coordinates are exact reals: the float/double
      conversions of the source are not modelled. */
  datatype Point = Point(x: real, y: real, z: real)

  const Origin: Point := Point(0.0, 0.0, 0.0)

  function Add(p: Point, q: Point): Point
  {
    Point(p.x + q.x, p.y + q.y, p.z + q.z)
  }

  function Sub(p: Point, q: Point): Point
  {
    Point(p.x - q.x, p.y - q.y, p.z - q.z)
  }

  function Cross(u: Point, v: Point): Point
  {
    Point(u.y * v.z - u.z * v.y, u.z * v.x - u.x * v.z, u.x * v.y - u.y * v.x)
  }

  /** The face normal written by both writers: the cross product (B-A)x(C-A),
      not normalised. */
  function FaceNormal(a: Point, b: Point, c: Point): (n: Point)
    ensures a == b ==> n == Origin
  {
    Cross(Sub(b, a), Sub(c, a))
  }

  /** Three vertex indexes (or, in the per-triangle normal table, three normal
      indexes). Signed, so that the model can record the slots the ASCII reader
      leaves unset. */
  datatype Triangle = Triangle(i1: int, i2: int, i3: int)

  /** The value the model records for a vertex slot the ASCII reader never set
      (an uninitialised local in the source). */
  const Unset: int := -1

  /** Every index of t is a valid index into a buffer of n elements. */
  predicate InRange(t: Triangle, n: nat)
  {
    0 <= t.i1 < n && 0 <= t.i2 < n && 0 <= t.i3 < n
  }

  /** The three indexes of t are pairwise distinct. */
  predicate NonDegenerate(t: Triangle)
  {
    t.i1 != t.i2 && t.i1 != t.i3 && t.i2 != t.i3
  }

  /** The buffers whose reservation can fail. */
  datatype Buffer =
    | PointBuffer
    | TriangleBuffer
    | NormalTable
    | TriangleNormalIndexes
    | EquivalenceTable
    | Octree
    | WeldedCloud

  /** The services the loaders call and cannot see into:
      - parseNumber: QString::toDouble (None when the token does not parse);
      - proposeShift: the coordinate-shift service, called on the first vertex;
      - normIndex: the quantisation of a normal into a compressed normal code;
      - grants(b, n): whether growing buffer b to n elements succeeds;
      - cancelled(k): whether the user has cancelled once k steps are done;
      - decodeF32: the value of four little-endian bytes read as a float. */
  datatype Env = Env(
    parseNumber: string -> Option<real>,
    proposeShift: Point -> Option<Point>,
    normIndex: Point -> nat,
    grants: (Buffer, nat) -> bool,
    cancelled: nat -> bool,
    decodeF32: (byte, byte, byte, byte) -> real)

  /** The services the writers call: the single-precision little-endian
      encoding of a coordinate and the printf "%e" rendering of a number. */
  datatype Format = Format(
    encodeF32: real -> (byte, byte, byte, byte),
    formatE: real -> string,
    cancelled: nat -> bool)
}
