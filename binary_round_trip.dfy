/** saveToBINFile followed by loadBinaryFile: the image the binary writer
    produces for a mesh, read back into a fresh mesh while every allocation
    is granted and nothing is cancelled, gives one triangle per facet written,
    three fresh vertices per triangle holding the written corners as the
    float encoding and decoding leave them (shifted by the global shift the
    first vertex proposes), and, when the normal tables are granted, the
    written face normals in facet order. */
module BinaryRoundTrip {
  import opened StlBase
  import opened MeshModel
  import opened BinaryReader
  import opened Writers
  import WriterLaws

  // ---------------------------------------------------------------------
  // What the reader gets back

  /** A point written as three floats and read back. */
  function Decoded(p: Point, fmt: Format, env: Env): Point
  {
    DecodePoint(PointBytes(p, fmt), env)
  }

  /** The three vertices a reader stores for facet t: its corners,
      decoded and shifted. */
  function Corners(points: seq<Point>, t: Triangle, fmt: Format, env: Env, shift: Point): seq<Point>
    requires InRange(t, |points|)
  {
    [Add(Decoded(points[t.i1], fmt, env), shift),
     Add(Decoded(points[t.i2], fmt, env), shift),
     Add(Decoded(points[t.i3], fmt, env), shift)]
  }

  /** The compressed normal a reader stores for facet t: the face normal as
      the writer computed it, decoded and quantised. */
  function NormalOf(points: seq<Point>, t: Triangle, fmt: Format, env: Env): nat
    requires InRange(t, |points|)
  {
    env.normIndex(Decoded(FaceNormal(points[t.i1], points[t.i2], points[t.i3]), fmt, env))
  }

  /** The chunks one after the other, the last one appended last. */
  function Joined<T>(cs: seq<seq<T>>): seq<T>
    decreases |cs|
  {
    if cs == [] then [] else Joined(cs[..|cs| - 1]) + cs[|cs| - 1]
  }

  /** Chunks of three elements each: chunk k sits 3k elements in. */
  lemma {:induction false} JoinedAt<T>(cs: seq<seq<T>>, k: nat)
    requires forall i :: 0 <= i < |cs| ==> |cs[i]| == 3
    requires k < |cs|
    ensures |Joined(cs)| == 3 * |cs|
    ensures Joined(cs)[3 * k .. 3 * k + 3] == cs[k]
  {
    var n := |cs| - 1;
    JoinedSize(cs[..n]);
    if k < n {
      JoinedAt(cs[..n], k);
    }
  }

  lemma {:induction false} JoinedSize<T>(cs: seq<seq<T>>)
    requires forall i :: 0 <= i < |cs| ==> |cs[i]| == 3
    ensures |Joined(cs)| == 3 * |cs|
  {
    if cs != [] {
      JoinedSize(cs[..|cs| - 1]);
    }
  }

  /** The vertices a reader stores for the facets ts, in order. */
  function Unpacked(points: seq<Point>, ts: seq<Triangle>, fmt: Format, env: Env, shift: Point): seq<Point>
    requires forall k :: 0 <= k < |ts| ==> InRange(ts[k], |points|)
  {
    Joined(seq(|ts|, k requires 0 <= k < |ts| => Corners(points, ts[k], fmt, env, shift)))
  }

  /** Facet k's vertices are the three after those of the facets before it. */
  lemma UnpackedAt(points: seq<Point>, ts: seq<Triangle>, fmt: Format, env: Env, shift: Point, k: nat)
    requires forall i :: 0 <= i < |ts| ==> InRange(ts[i], |points|)
    requires k < |ts|
    ensures |Unpacked(points, ts, fmt, env, shift)| == 3 * |ts|
    ensures Unpacked(points, ts, fmt, env, shift)[3 * k .. 3 * k + 3] == Corners(points, ts[k], fmt, env, shift)
  {
    JoinedAt(seq(|ts|, i requires 0 <= i < |ts| => Corners(points, ts[i], fmt, env, shift)), k);
  }

  /** The normals a reader stores for the facets ts, in order. */
  function Normals(points: seq<Point>, ts: seq<Triangle>, fmt: Format, env: Env): (r: seq<nat>)
    requires forall k :: 0 <= k < |ts| ==> InRange(ts[k], |points|)
  {
    seq(|ts|, k requires 0 <= k < |ts| => NormalOf(points, ts[k], fmt, env))
  }

  /** Triangle k has normal k in all three slots. */
  function Diagonal(n: nat): (r: seq<Triangle>)
    ensures |r| == n && forall k :: 0 <= k < n ==> r[k] == Triangle(k, k, k)
  {
    seq(n, k => Triangle(k, k, k))
  }

  /** The global shift a load of these facets ends with: the one proposed
      for the first vertex read, if any. */
  function FirstShift(points: seq<Point>, triangles: seq<Triangle>, fmt: Format, env: Env): Point
    requires Writable(points, triangles)
  {
    var proposed := env.proposeShift(Decoded(points[triangles[0].i1], fmt, env));
    if proposed.Some? then proposed.value else Origin
  }

  /** An environment in which a load of n facets runs to its end: the cloud
      may always grow, the mesh reservation is granted and no progress step
      before the last is cancelled. */
  ghost predicate Unhindered(env: Env, n: nat)
  {
    && (forall m :: env.grants(PointBuffer, m))
    && env.grants(TriangleBuffer, n)
    && (forall k :: 0 < k < n ==> !env.cancelled(k))
  }

  // ---------------------------------------------------------------------
  // The layout of the image

  /** The count field reads back as the count written. */
  lemma U32Bytes32(n: nat)
    requires n < 0x1_0000_0000
    ensures U32(U32Bytes(n)) == n
  {
    var q1 := n / 0x100;
    var q2 := q1 / 0x100;
    var q3 := q2 / 0x100;
    assert n == 0x100 * q1 + n % 0x100;
    assert q1 == 0x100 * q2 + q1 % 0x100;
    assert q2 == 0x100 * q3 + q2 % 0x100;
    assert n / 0x1_0000 == q2;
    assert n / 0x100_0000 == q3;
  }

  /** Facet k of uniformly sized facets sits FacetSize * k elements in. */
  lemma {:induction false} FlattenAt<T>(fs: seq<seq<seq<T>>>, k: nat)
    requires forall i :: 0 <= i < |fs| ==> |Concat(fs[i])| == FacetSize
    requires k < |fs|
    ensures |Flatten(fs)| == FacetSize * |fs|
    ensures Flatten(fs)[FacetSize * k .. FacetSize * k + FacetSize] == Concat(fs[k])
  {
    WriterLaws.FlattenUniform(fs, FacetSize);
    if k > 0 {
      FlattenAt(fs[1..], k - 1);
      assert Flatten(fs) == Concat(fs[0]) + Flatten(fs[1..]);
      assert fs[1..][k - 1] == fs[k];
    }
  }

  /** The bytes of one facet: normal, three corners, two attribute bytes. */
  lemma FacetLayout(points: seq<Point>, t: Triangle, fmt: Format)
    requires InRange(t, |points|)
    ensures var a, b, c := points[t.i1], points[t.i2], points[t.i3];
      Concat(BinFacetChunks(points, t, fmt))
        == PointBytes(FaceNormal(a, b, c), fmt) + PointBytes(a, fmt) + PointBytes(b, fmt) + PointBytes(c, fmt) + [0, 0]
  {
    var cs := BinFacetChunks(points, t, fmt);
    assert cs[0..] == cs && cs[5..] == [];
    WriterLaws.ConcatUnfold(cs, 0);
    WriterLaws.ConcatUnfold(cs, 1);
    WriterLaws.ConcatUnfold(cs, 2);
    WriterLaws.ConcatUnfold(cs, 3);
    WriterLaws.ConcatUnfold(cs, 4);
  }

  /** The 50 bytes of facet k of the image. */
  lemma FacetSlice(points: seq<Point>, triangles: seq<Triangle>, fmt: Format, k: nat)
    requires Writable(points, triangles) && k < |triangles|
    ensures var data := BinaryImage(points, triangles, fmt);
      var at := HeaderSize + CountSize + FacetSize * k;
      && |data| == HeaderSize + CountSize + FacetSize * |triangles|
      && data[at .. at + FacetSize] == Concat(BinFacetChunks(points, triangles[k], fmt))
  {
    var fs := BinFacets(points, triangles, fmt);
    forall i | 0 <= i < |fs|
      ensures |Concat(fs[i])| == FacetSize
    {
      WriterLaws.BinFacetSize(points, triangles[i], fmt);
    }
    FlattenAt(fs, k);
    var head := HeaderBytes() + U32Bytes(|triangles|);
    SliceOfBack(head, Flatten(fs), FacetSize * k, FacetSize * k + FacetSize);
  }

  lemma SliceOfFront<T>(a: seq<T>, b: seq<T>, i: nat, j: nat)
    requires i <= j <= |a|
    ensures (a + b)[i..j] == a[i..j]
  {
  }

  lemma SliceOfBack<T>(a: seq<T>, b: seq<T>, i: nat, j: nat)
    requires i <= j <= |b|
    ensures (a + b)[|a| + i .. |a| + j] == b[i..j]
  {
  }

  lemma SliceOfSlice<T>(x: seq<T>, at: nat, n: nat, i: nat, j: nat)
    requires at + n <= |x| && i <= j <= n
    ensures x[at + i .. at + j] == x[at .. at + n][i..j]
  {
    var w, z := x[at + i .. at + j], x[at .. at + n][i..j];
    forall m | 0 <= m < |w|
      ensures w[m] == z[m]
    {
    }
  }

  lemma FiveParts<T>(a: seq<T>, b: seq<T>, c: seq<T>, d: seq<T>, e: seq<T>)
    requires |a| == |b| == |c| == |d| == 12 && |e| == 2
    ensures var x := a + b + c + d + e;
      x[0..12] == a && x[12..24] == b && x[24..36] == c && x[36..48] == d && x[48..50] == e
  {
  }

  /** Where the reader finds the parts of facet k of the image. */
  lemma FacetBytes(points: seq<Point>, triangles: seq<Triangle>, fmt: Format, k: nat)
    requires Writable(points, triangles) && k < |triangles|
    ensures var data := BinaryImage(points, triangles, fmt);
      var at := HeaderSize + CountSize + FacetSize * k;
      var t := triangles[k];
      var a, b, c := points[t.i1], points[t.i2], points[t.i3];
      && |data| == HeaderSize + CountSize + FacetSize * |triangles|
      && data[at .. at + 12] == PointBytes(FaceNormal(a, b, c), fmt)
      && data[at + 12 .. at + 24] == PointBytes(a, fmt)
      && data[at + 24 .. at + 36] == PointBytes(b, fmt)
      && data[at + 36 .. at + 48] == PointBytes(c, fmt)
      && data[at + 48 .. at + 50] == [0, 0]
  {
    var data := BinaryImage(points, triangles, fmt);
    var at := HeaderSize + CountSize + FacetSize * k;
    var t := triangles[k];
    var a, b, c := points[t.i1], points[t.i2], points[t.i3];
    FacetSlice(points, triangles, fmt, k);
    FacetLayout(points, t, fmt);
    FiveParts(PointBytes(FaceNormal(a, b, c), fmt), PointBytes(a, fmt), PointBytes(b, fmt), PointBytes(c, fmt), [0, 0]);
    SliceOfSlice(data, at, FacetSize, 0, 12);
    SliceOfSlice(data, at, FacetSize, 12, 24);
    SliceOfSlice(data, at, FacetSize, 24, 36);
    SliceOfSlice(data, at, FacetSize, 36, 48);
    SliceOfSlice(data, at, FacetSize, 48, 50);
  }

  /** Corner i of facet t. */
  function CornerOf(points: seq<Point>, t: Triangle, i: nat): Point
    requires InRange(t, |points|) && i < 3
  {
    if i == 0 then points[t.i1] else if i == 1 then points[t.i2] else points[t.i3]
  }

  /** Part j of facet t: its normal (j = 0) or corner j - 1. */
  function Part(points: seq<Point>, t: Triangle, j: nat): Point
    requires InRange(t, |points|) && j < 4
  {
    if j == 0 then FaceNormal(points[t.i1], points[t.i2], points[t.i3]) else CornerOf(points, t, j - 1)
  }

  /** Part j of facet k sits 84 + 50k + 12j bytes into data. */
  predicate PartAt(data: seq<byte>, points: seq<Point>, triangles: seq<Triangle>, fmt: Format, k: nat, j: nat)
    requires Writable(points, triangles) && k < |triangles| && j < 4
  {
    var at := HeaderSize + CountSize + FacetSize * k + 12 * j;
    at + 12 <= |data| && data[at .. at + 12] == PointBytes(Part(points, triangles[k], j), fmt)
  }

  /** data is laid out as the binary image of the mesh: its size, and the
      normal and corners of every facet where the reader looks for them. */
  ghost predicate Laid(data: seq<byte>, points: seq<Point>, triangles: seq<Triangle>, fmt: Format)
    requires Writable(points, triangles)
  {
    && |data| == HeaderSize + CountSize + FacetSize * |triangles|
    && forall k, j :: 0 <= k < |triangles| && 0 <= j < 4 ==> PartAt(data, points, triangles, fmt, k, j)
  }

  /** The binary image is laid out so. */
  lemma ImageLaid(points: seq<Point>, triangles: seq<Triangle>, fmt: Format)
    requires Writable(points, triangles)
    ensures Laid(BinaryImage(points, triangles, fmt), points, triangles, fmt)
  {
    WriterLaws.BinaryImageSize(points, triangles, fmt);
    forall k, j | 0 <= k < |triangles| && 0 <= j < 4
      ensures PartAt(BinaryImage(points, triangles, fmt), points, triangles, fmt, k, j)
    {
      FacetBytes(points, triangles, fmt, k);
    }
  }

  /** The count field of the image. */
  lemma CountBytes(points: seq<Point>, triangles: seq<Triangle>, fmt: Format)
    requires Writable(points, triangles)
    ensures var data := BinaryImage(points, triangles, fmt);
      |data| >= HeaderSize + CountSize && U32(data[HeaderSize .. HeaderSize + CountSize]) == |triangles|
  {
    WriterLaws.BinaryImageSize(points, triangles, fmt);
    var head := HeaderBytes() + U32Bytes(|triangles|);
    SliceOfFront(head, Flatten(BinFacets(points, triangles, fmt)), HeaderSize, HeaderSize + CountSize);
    SliceOfBack(HeaderBytes(), U32Bytes(|triangles|), 0, CountSize);
    U32Bytes32(|triangles|);
  }

  // ---------------------------------------------------------------------
  // Reading the image back

  /** Whether the reservation at lines 883-889 keeps the normal tables. */
  predicate NormalsKept(env: Env, n: nat)
  {
    env.grants(NormalTable, n) && env.grants(TriangleNormalIndexes, n)
  }

  /** The reader at the start of facet f of the image: 84 + 50f bytes
      consumed, no error, f triangles of three fresh vertices holding the
      decoded corners of the facets before f, the shift fixed by the first
      vertex, and with the normal tables f normals in facet order. */
  ghost predicate Restored(data: seq<byte>, points: seq<Point>, triangles: seq<Triangle>, fmt: Format, env: Env,
                           s: BinScan, f: nat)
    requires Writable(points, triangles) && f <= |triangles|
  {
    && WellFormed(data, s, f, |triangles|)
    && s.pos == HeaderSize + CountSize + FacetSize * f
    && s.result == NoError
    && s.shift == s.g.globalShift
    && s.shift == (if f == 0 then Origin else FirstShift(points, triangles, fmt, env))
    && Shaped(s.g, 0) && |s.g.triangles| == f
    && s.g.points == Unpacked(points, triangles[..f], fmt, env, s.shift)
    && s.g.triangleCapacity == |triangles|
    && RoundedCapacity(s.g.pointCapacity, |s.g.points|)
    && (s.g.normals.Some? <==> NormalsKept(env, |triangles|))
    && (s.g.normals.Some? ==>
          s.g.normalIndexes == Some(Diagonal(f)) && s.g.normals.value == Normals(points, triangles[..f], fmt, env))
    && (s.g.normals.None? ==> s.g.normalIndexes.None?)
  }

  /** The reader at the end of the image: every facet read, the cloud
      holding their decoded corners under the first vertex's shift, its
      capacity rounded up to a multiple of 1000, triangle k on vertices 3k,
      3k+1 and 3k+2, and, when the normal tables are kept, the face normals
      with triangle k on normal k. */
  function FinalScan(points: seq<Point>, triangles: seq<Triangle>, fmt: Format, env: Env): BinScan
    requires Writable(points, triangles)
  {
    var n := |triangles|;
    var shift := FirstShift(points, triangles, fmt, env);
    var kept := NormalsKept(env, n);
    BinScan(HeaderSize + CountSize + FacetSize * n, NoError, shift,
            Geometry(Unpacked(points, triangles, fmt, env, shift), (3 * n + 999) / 1000 * 1000, shift,
                     seq(n, k => Triangle(3 * k, 3 * k + 1, 3 * k + 2)), n,
                     if kept then Some(Normals(points, triangles, fmt, env)) else None,
                     if kept then Some(Diagonal(n)) else None))
  }

  /** The invariant at the end of the image leaves one state. */
  lemma RestoredIsFinal(data: seq<byte>, points: seq<Point>, triangles: seq<Triangle>, fmt: Format, env: Env, s: BinScan)
    requires Writable(points, triangles)
    requires Restored(data, points, triangles, fmt, env, s, |triangles|)
    ensures s == FinalScan(points, triangles, fmt, env)
  {
    var n := |triangles|;
    var r := FinalScan(points, triangles, fmt, env);
    assert triangles[..n] == triangles;
    UnpackedSize(points, triangles, fmt, env, s.shift);
    var c := s.g.pointCapacity;
    assert c == (3 * n + 999) / 1000 * 1000 by {
      var q := c / 1000;
      assert c == 1000 * q;
      assert (3 * n + 999) / 1000 == q;
    }
    assert s.g.triangles == r.g.triangles;
  }

  /** One more facet appends its three vertices. */
  lemma UnpackedStep(points: seq<Point>, ts: seq<Triangle>, fmt: Format, env: Env, shift: Point, f: nat)
    requires forall k :: 0 <= k < |ts| ==> InRange(ts[k], |points|)
    requires f < |ts|
    ensures Unpacked(points, ts[..f + 1], fmt, env, shift)
      == Unpacked(points, ts[..f], fmt, env, shift) + Corners(points, ts[f], fmt, env, shift)
  {
    var long := seq(f + 1, k requires 0 <= k < f + 1 => Corners(points, ts[..f + 1][k], fmt, env, shift));
    var short := seq(f, k requires 0 <= k < f => Corners(points, ts[..f][k], fmt, env, shift));
    assert long[..f] == short;
  }

  /** One more facet appends its normal. */
  lemma NormalsStep(points: seq<Point>, ts: seq<Triangle>, fmt: Format, env: Env, f: nat)
    requires forall k :: 0 <= k < |ts| ==> InRange(ts[k], |points|)
    requires f < |ts|
    ensures Normals(points, ts[..f + 1], fmt, env) == Normals(points, ts[..f], fmt, env) + [NormalOf(points, ts[f], fmt, env)]
  {
  }

  /** The reader state s at position pos with points ps appended to the
      cloud under shift, which is also the cloud's global shift, and the
      cloud's capacity now cap. */
  function Appended(s: BinScan, pos: nat, shift: Point, ps: seq<Point>, cap: nat): BinScan
  {
    s.(pos := pos, shift := shift, g := s.g.(points := s.g.points + ps, globalShift := shift, pointCapacity := cap))
  }

  /** The shift after the vertex pd is stored: proposed for the first
      vertex of the cloud, else kept. */
  function ShiftAfter(s: BinScan, pd: Point, env: Env): Point
  {
    var proposed := if |s.g.points| == 0 then env.proposeShift(pd) else None;
    if proposed.Some? then proposed.value else s.shift
  }

  /** A normal read in full, and the reading goes on with the first vertex
      of the facet. */
  lemma NormalStep(data: seq<byte>, s: BinScan, f: nat, n: nat, strict: bool, env: Env, b: seq<byte>)
    requires WellFormed(data, s, f, n) && f < n
    requires s.pos + 12 <= |data| && data[s.pos .. s.pos + 12] == b
    ensures WellFormed(data, s.(pos := s.pos + 12), f, n)
    ensures FromFacet(data, s, f, n, strict, env)
      == FromVertex(data, s.(pos := s.pos + 12), f, n, 0, [Unset, Unset, Unset], DecodePoint(b, env), strict, env)
  {
    assert Read(data, s.pos, 12) == b;
  }

  /** A vertex read in full is stored, and the reading goes on with the
      next one. */
  lemma VertexStep(data: seq<byte>, s: BinScan, f: nat, n: nat, i: nat, slots: seq<int>, normal: Point,
                   strict: bool, env: Env, b: seq<byte>)
    returns (s2: BinScan, slots2: seq<int>)
    requires WellFormed(data, s, f, n) && f < n && i < 3 && |slots| == 3 && s.shift == s.g.globalShift
    requires s.pos + 12 <= |data| && data[s.pos .. s.pos + 12] == b
    requires forall m :: env.grants(PointBuffer, m)
    ensures WellFormed(data, s2, f, n) && |slots2| == 3
    ensures FromVertex(data, s, f, n, i, slots, normal, strict, env)
      == FromVertex(data, s2, f, n, i + 1, slots2, normal, strict, env)
    ensures var shift := ShiftAfter(s, DecodePoint(b, env), env);
      var cap := if s.g.pointCapacity == |s.g.points| then |s.g.points| + 1000 else s.g.pointCapacity;
      s2 == Appended(s, s.pos + 12, shift, [Add(DecodePoint(b, env), shift)], cap)
    ensures slots2 == slots[i := |s.g.points|]
  {
    assert Read(data, s.pos, 12) == b;
    assert Padded(b, 12) == b;
    var r := TakeVertex(s.(pos := s.pos + 12), i, slots, DecodePoint(b, env), env);
    s2, slots2 := r.0, r.1;
  }

  /** The attribute bytes read in full, the triangle and its normal are
      added, and the reading goes on with the next facet. */
  lemma EndStep(data: seq<byte>, s: BinScan, f: nat, n: nat, slots: seq<int>, normal: Point, strict: bool, env: Env)
    returns (s2: BinScan)
    requires WellFormed(data, s, f, n) && f < n && |slots| == 3
    requires s.pos + 2 <= |data|
    requires f + 1 < n ==> !env.cancelled(f + 1)
    ensures WellFormed(data, s2, f + 1, n)
    ensures FromVertex(data, s, f, n, 3, slots, normal, strict, env) == FromFacet(data, s2, f + 1, n, strict, env)
    ensures s2 == s.(pos := s.pos + 2,
                     g := AddFacetNormal(s.g.(triangles := s.g.triangles + [Triangle(slots[0], slots[1], slots[2])]),
                                         Some(normal), env))
  {
    s2 := s.(pos := s.pos + 2,
             g := AddFacetNormal(s.g.(triangles := s.g.triangles + [Triangle(slots[0], slots[1], slots[2])]),
                                 Some(normal), env));
  }

  /** The reader inside facet f of the image, before its vertex i: the
      facet's normal and its first i corners are read, on top of the state
      start at the beginning of the facet; slots holds the indexes of the
      vertices stored so far and Unset for the others. */
  ghost predicate Midway(data: seq<byte>, points: seq<Point>, triangles: seq<Triangle>, fmt: Format, env: Env,
                         start: BinScan, s: BinScan, f: nat, i: nat, slots: seq<int>, normal: Point)
    requires Writable(points, triangles) && f < |triangles| && i <= 3
  {
    var t := triangles[f];
    && |start.g.points| == 3 * f
    && WellFormed(data, s, f, |triangles|)
    && s.pos == HeaderSize + CountSize + FacetSize * f + 12 + 12 * i
    && s.result == NoError
    && s.shift == s.g.globalShift
    && s.shift == (if f == 0 && i == 0 then Origin else FirstShift(points, triangles, fmt, env))
    && s.g.points == start.g.points + Corners(points, t, fmt, env, s.shift)[..i]
    && RoundedCapacity(s.g.pointCapacity, |s.g.points|)
    && s.g.triangles == start.g.triangles && s.g.triangleCapacity == start.g.triangleCapacity
    && s.g.normals == start.g.normals && s.g.normalIndexes == start.g.normalIndexes
    && slots == [3 * f, 3 * f + 1, 3 * f + 2][..i] + [Unset, Unset, Unset][i..]
    && normal == Decoded(FaceNormal(points[t.i1], points[t.i2], points[t.i3]), fmt, env)
  }

  /** Once the normal of facet f is read. */
  lemma MidwayStart(data: seq<byte>, points: seq<Point>, triangles: seq<Triangle>, fmt: Format, env: Env, s: BinScan, f: nat)
    requires Writable(points, triangles) && f < |triangles|
    requires |data| == HeaderSize + CountSize + FacetSize * |triangles|
    requires Restored(data, points, triangles, fmt, env, s, f)
    ensures var t := triangles[f];
      Midway(data, points, triangles, fmt, env, s, s.(pos := s.pos + 12), f, 0, [Unset, Unset, Unset],
             Decoded(FaceNormal(points[t.i1], points[t.i2], points[t.i3]), fmt, env))
  {
    UnpackedSize(points, triangles[..f], fmt, env, s.shift);
  }

  /** Once vertex i of facet f is stored as VertexStep stores it. */
  lemma MidwayStep(data: seq<byte>, points: seq<Point>, triangles: seq<Triangle>, fmt: Format, env: Env,
                   start: BinScan, s: BinScan, s2: BinScan, f: nat, i: nat, slots: seq<int>, slots2: seq<int>, normal: Point)
    requires Writable(points, triangles) && f < |triangles| && i < 3
    requires Midway(data, points, triangles, fmt, env, start, s, f, i, slots, normal)
    requires WellFormed(data, s2, f, |triangles|)
    requires var pd := Decoded(CornerOf(points, triangles[f], i), fmt, env);
      var shift := ShiftAfter(s, pd, env);
      var cap := if s.g.pointCapacity == |s.g.points| then |s.g.points| + 1000 else s.g.pointCapacity;
      s2 == Appended(s, s.pos + 12, shift, [Add(pd, shift)], cap)
    requires slots2 == slots[i := |s.g.points|]
    ensures Midway(data, points, triangles, fmt, env, start, s2, f, i + 1, slots2, normal)
  {
    var t := triangles[f];
    var pd := Decoded(CornerOf(points, t, i), fmt, env);
    if f == 0 && i == 0 {
      assert s2.shift == FirstShift(points, triangles, fmt, env);
    } else {
      assert |s.g.points| > 0;
      assert s2.shift == s.shift;
    }
    var cs := Corners(points, t, fmt, env, s2.shift);
    assert cs[..i + 1] == cs[..i] + [Add(pd, s2.shift)];
    assert s2.g.points == start.g.points + cs[..i + 1];
    assert slots2 == [3 * f, 3 * f + 1, 3 * f + 2][..i + 1] + [Unset, Unset, Unset][i + 1..];
  }

  /** The vertices of the facets ts: three per facet. */
  lemma UnpackedSize(points: seq<Point>, ts: seq<Triangle>, fmt: Format, env: Env, shift: Point)
    requires forall k :: 0 <= k < |ts| ==> InRange(ts[k], |points|)
    ensures |Unpacked(points, ts, fmt, env, shift)| == 3 * |ts|
  {
    JoinedSize(seq(|ts|, k requires 0 <= k < |ts| => Corners(points, ts[k], fmt, env, shift)));
  }

  /** Once facet f is ended, the cloud holds the vertices of the facets up
      to f. */
  lemma EndedPoints(data: seq<byte>, points: seq<Point>, triangles: seq<Triangle>, fmt: Format, env: Env,
                  start: BinScan, s: BinScan, s2: BinScan, f: nat, slots: seq<int>, normal: Point)
    requires Writable(points, triangles) && f < |triangles|
    requires Restored(data, points, triangles, fmt, env, start, f)
    requires Midway(data, points, triangles, fmt, env, start, s, f, 3, slots, normal)
    requires s2 == s.(pos := s.pos + 2,
                      g := AddFacetNormal(s.g.(triangles := s.g.triangles + [Triangle(slots[0], slots[1], slots[2])]),
                                          Some(normal), env))
    ensures s2.shift == s2.g.globalShift == FirstShift(points, triangles, fmt, env)
    ensures s2.g.points == Unpacked(points, triangles[..f + 1], fmt, env, s2.shift)
  {
    var t := triangles[f];
    if f == 0 {
      assert Unpacked(points, triangles[..0], fmt, env, s.shift) == [];
    }
    assert start.g.points == Unpacked(points, triangles[..f], fmt, env, s.shift);
    UnpackedStep(points, triangles, fmt, env, s.shift, f);
    assert Corners(points, t, fmt, env, s.shift)[..3] == Corners(points, t, fmt, env, s.shift);
  }

  /** Once facet f is ended, triangle f is on its three fresh vertices. */
  lemma EndedShape(data: seq<byte>, points: seq<Point>, triangles: seq<Triangle>, fmt: Format, env: Env,
                  start: BinScan, s: BinScan, s2: BinScan, f: nat, slots: seq<int>, normal: Point)
    requires Writable(points, triangles) && f < |triangles|
    requires Restored(data, points, triangles, fmt, env, start, f)
    requires Midway(data, points, triangles, fmt, env, start, s, f, 3, slots, normal)
    requires s2 == s.(pos := s.pos + 2,
                      g := AddFacetNormal(s.g.(triangles := s.g.triangles + [Triangle(slots[0], slots[1], slots[2])]),
                                          Some(normal), env))
    ensures Shaped(s2.g, 0) && |s2.g.triangles| == f + 1
  {
    assert slots == [3 * f, 3 * f + 1, 3 * f + 2];
    assert s2.g.triangles == start.g.triangles + [Triangle(3 * f, 3 * f + 1, 3 * f + 2)];
  }

  /** Once facet f is ended, the normal tables hold the normals of the
      facets up to f. */
  lemma EndedNormals(points: seq<Point>, triangles: seq<Triangle>, fmt: Format, env: Env,
                     g: Geometry, g2: Geometry, f: nat, normal: Point)
    requires Writable(points, triangles) && f < |triangles|
    requires g.normals.Some? <==> NormalsKept(env, |triangles|)
    requires g.normals.Some? ==>
      g.normalIndexes == Some(Diagonal(f)) && g.normals.value == Normals(points, triangles[..f], fmt, env)
    requires g.normals.None? ==> g.normalIndexes.None?
    requires var t := triangles[f]; normal == Decoded(FaceNormal(points[t.i1], points[t.i2], points[t.i3]), fmt, env)
    requires g2 == AddFacetNormal(g, Some(normal), env)
    ensures g2.normals.Some? <==> NormalsKept(env, |triangles|)
    ensures g2.normals.Some? ==>
      g2.normalIndexes == Some(Diagonal(f + 1)) && g2.normals.value == Normals(points, triangles[..f + 1], fmt, env)
    ensures g2.normals.None? ==> g2.normalIndexes.None?
  {
    if g.normals.Some? {
      NormalsStep(points, triangles, fmt, env, f);
      assert Diagonal(f) + [Triangle(f, f, f)] == Diagonal(f + 1);
    }
  }

  /** Once facet f is ended as EndStep ends it, the reader is at the start
      of facet f + 1. */
  lemma MidwayEnd(data: seq<byte>, points: seq<Point>, triangles: seq<Triangle>, fmt: Format, env: Env,
                  start: BinScan, s: BinScan, s2: BinScan, f: nat, slots: seq<int>, normal: Point)
    requires Writable(points, triangles) && f < |triangles|
    requires Restored(data, points, triangles, fmt, env, start, f)
    requires Midway(data, points, triangles, fmt, env, start, s, f, 3, slots, normal)
    requires s2 == s.(pos := s.pos + 2,
                      g := AddFacetNormal(s.g.(triangles := s.g.triangles + [Triangle(slots[0], slots[1], slots[2])]),
                                          Some(normal), env))
    requires WellFormed(data, s2, f + 1, |triangles|)
    ensures Restored(data, points, triangles, fmt, env, s2, f + 1)
  {
    EndedPoints(data, points, triangles, fmt, env, start, s, s2, f, slots, normal);
    EndedShape(data, points, triangles, fmt, env, start, s, s2, f, slots, normal);
    var g1 := s.g.(triangles := s.g.triangles + [Triangle(slots[0], slots[1], slots[2])]);
    EndedNormals(points, triangles, fmt, env, g1, s2.g, f, normal);
  }

  /** The normal of facet f is read from the image and the invariant moves
      on to its first vertex. */
  lemma NormalMove(data: seq<byte>, points: seq<Point>, triangles: seq<Triangle>, fmt: Format, strict: bool, env: Env,
                   s: BinScan, f: nat)
    returns (s0: BinScan, normal: Point)
    requires Writable(points, triangles) && f < |triangles|
    requires Laid(data, points, triangles, fmt)
    requires Restored(data, points, triangles, fmt, env, s, f)
    ensures Midway(data, points, triangles, fmt, env, s, s0, f, 0, [Unset, Unset, Unset], normal)
    ensures FromFacet(data, s, f, |triangles|, strict, env)
      == FromVertex(data, s0, f, |triangles|, 0, [Unset, Unset, Unset], normal, strict, env)
  {
    var t := triangles[f];
    var face := FaceNormal(points[t.i1], points[t.i2], points[t.i3]);
    normal := Decoded(face, fmt, env);
    assert PartAt(data, points, triangles, fmt, f, 0);
    s0 := s.(pos := s.pos + 12);
    NormalStep(data, s, f, |triangles|, strict, env, PointBytes(face, fmt));
    MidwayStart(data, points, triangles, fmt, env, s, f);
  }

  /** From the start of facet f, the load ends in the final state. */
  lemma RunFacet(data: seq<byte>, points: seq<Point>, triangles: seq<Triangle>, fmt: Format, strict: bool, env: Env,
                 s: BinScan, f: nat)
    requires Writable(points, triangles) && Unhindered(env, |triangles|) && f <= |triangles|
    requires Laid(data, points, triangles, fmt)
    requires Restored(data, points, triangles, fmt, env, s, f)
    ensures FromFacet(data, s, f, |triangles|, strict, env) == FinalScan(points, triangles, fmt, env)
    decreases |triangles| - f, 5
  {
    if f < |triangles| {
      var s0, normal := NormalMove(data, points, triangles, fmt, strict, env, s, f);
      RunVertex(data, points, triangles, fmt, strict, env, s, s0, f, 0, [Unset, Unset, Unset], normal);
    } else {
      RestoredIsFinal(data, points, triangles, fmt, env, s);
    }
  }

  /** Vertex i of facet f is read from the image and the invariant moves
      on to vertex i + 1. */
  lemma VertexMove(data: seq<byte>, points: seq<Point>, triangles: seq<Triangle>, fmt: Format, strict: bool, env: Env,
                   start: BinScan, s: BinScan, f: nat, i: nat, slots: seq<int>, normal: Point)
    returns (s2: BinScan, slots2: seq<int>)
    requires Writable(points, triangles) && Unhindered(env, |triangles|) && f < |triangles| && i < 3
    requires Laid(data, points, triangles, fmt)
    requires Midway(data, points, triangles, fmt, env, start, s, f, i, slots, normal)
    ensures Midway(data, points, triangles, fmt, env, start, s2, f, i + 1, slots2, normal)
    ensures FromVertex(data, s, f, |triangles|, i, slots, normal, strict, env)
      == FromVertex(data, s2, f, |triangles|, i + 1, slots2, normal, strict, env)
  {
    var corner := CornerOf(points, triangles[f], i);
    assert PartAt(data, points, triangles, fmt, f, i + 1);
    s2, slots2 := VertexStep(data, s, f, |triangles|, i, slots, normal, strict, env, PointBytes(corner, fmt));
    MidwayStep(data, points, triangles, fmt, env, start, s, s2, f, i, slots, slots2, normal);
  }

  /** From vertex i of facet f, the load ends in the final state. */
  lemma RunVertex(data: seq<byte>, points: seq<Point>, triangles: seq<Triangle>, fmt: Format, strict: bool, env: Env,
                  start: BinScan, s: BinScan, f: nat, i: nat, slots: seq<int>, normal: Point)
    requires Writable(points, triangles) && Unhindered(env, |triangles|) && f < |triangles| && i < 3
    requires Laid(data, points, triangles, fmt)
    requires Restored(data, points, triangles, fmt, env, start, f)
    requires Midway(data, points, triangles, fmt, env, start, s, f, i, slots, normal)
    ensures FromVertex(data, s, f, |triangles|, i, slots, normal, strict, env) == FinalScan(points, triangles, fmt, env)
    decreases |triangles| - f, 4 - i
  {
    var s2, slots2 := VertexMove(data, points, triangles, fmt, strict, env, start, s, f, i, slots, normal);
    if i < 2 {
      RunVertex(data, points, triangles, fmt, strict, env, start, s2, f, i + 1, slots2, normal);
    } else {
      RunEnd(data, points, triangles, fmt, strict, env, start, s2, f, slots2, normal);
    }
  }

  /** From the attribute bytes of facet f, the load ends in the final state. */
  lemma RunEnd(data: seq<byte>, points: seq<Point>, triangles: seq<Triangle>, fmt: Format, strict: bool, env: Env,
               start: BinScan, s: BinScan, f: nat, slots: seq<int>, normal: Point)
    requires Writable(points, triangles) && Unhindered(env, |triangles|) && f < |triangles|
    requires Laid(data, points, triangles, fmt)
    requires Restored(data, points, triangles, fmt, env, start, f)
    requires Midway(data, points, triangles, fmt, env, start, s, f, 3, slots, normal)
    ensures FromVertex(data, s, f, |triangles|, 3, slots, normal, strict, env) == FinalScan(points, triangles, fmt, env)
    decreases |triangles| - f, 0
  {
    var s2 := EndStep(data, s, f, |triangles|, slots, normal, strict, env);
    MidwayEnd(data, points, triangles, fmt, env, start, s, s2, f, slots, normal);
    RunFacet(data, points, triangles, fmt, strict, env, s2, f + 1);
  }

  /** The reader at the first facet of the image loaded into a fresh mesh. */
  lemma Started(points: seq<Point>, triangles: seq<Triangle>, fmt: Format, g: Geometry, strict: bool, env: Env)
    returns (s: BinScan)
    requires Writable(points, triangles) && Pristine(g) && env.grants(TriangleBuffer, |triangles|)
    ensures var data := BinaryImage(points, triangles, fmt);
      && Restored(data, points, triangles, fmt, env, s, 0)
      && LoadBinaryWith(data, g, strict, env)
           == BinaryLoad(FromFacet(data, s, 0, |triangles|, strict, env).result,
                         FromFacet(data, s, 0, |triangles|, strict, env), |triangles|)
  {
    var data := BinaryImage(points, triangles, fmt);
    var n := |triangles|;
    CountBytes(points, triangles, fmt);
    assert Read(data, HeaderSize, CountSize) == data[HeaderSize .. HeaderSize + CountSize];
    var g1 := ReserveFacets(g, n, env).value;
    s := BinScan(HeaderSize + CountSize, NoError, Origin, g1);
    assert Unpacked(points, triangles[..0], fmt, env, Origin) == [];
    assert Normals(points, triangles[..0], fmt, env) == [];
  }

  /** The image of a mesh loads into a fresh mesh, in an environment that
      hinders nothing, as the final state without error. */
  lemma LoadsFinal(points: seq<Point>, triangles: seq<Triangle>, fmt: Format, g: Geometry, strict: bool, env: Env)
    requires Writable(points, triangles) && Pristine(g) && Unhindered(env, |triangles|)
    ensures LoadBinaryWith(BinaryImage(points, triangles, fmt), g, strict, env)
      == BinaryLoad(NoError, FinalScan(points, triangles, fmt, env), |triangles|)
  {
    var data := BinaryImage(points, triangles, fmt);
    var s := Started(points, triangles, fmt, g, strict, env);
    ImageLaid(points, triangles, fmt);
    RunFacet(data, points, triangles, fmt, strict, env, s, 0);
  }

  /** What the final state holds. */
  lemma FinalShape(points: seq<Point>, triangles: seq<Triangle>, fmt: Format, env: Env)
    requires Writable(points, triangles)
    ensures var r := FinalScan(points, triangles, fmt, env);
      var n := |triangles|;
      var shift := r.g.globalShift;
      && r.result == NoError && r.pos == |BinaryImage(points, triangles, fmt)|
      && shift == FirstShift(points, triangles, fmt, env)
      && |r.g.points| == 3 * n && |r.g.triangles| == n
      && (forall k :: 0 <= k < n ==>
            && r.g.triangles[k] == Triangle(3 * k, 3 * k + 1, 3 * k + 2)
            && r.g.points[3 * k .. 3 * k + 3] == Corners(points, triangles[k], fmt, env, shift))
      && (r.g.normals.Some? <==> NormalsKept(env, n))
      && (NormalsKept(env, n) ==>
            r.g.normals == Some(Normals(points, triangles, fmt, env)) && r.g.normalIndexes == Some(Diagonal(n)))
      && (!NormalsKept(env, n) ==> r.g.normalIndexes.None?)
  {
    var r := FinalScan(points, triangles, fmt, env);
    WriterLaws.BinaryImageSize(points, triangles, fmt);
    UnpackedSize(points, triangles, fmt, env, r.shift);
    forall k | 0 <= k < |triangles|
      ensures r.g.points[3 * k .. 3 * k + 3] == Corners(points, triangles[k], fmt, env, r.shift)
    {
      UnpackedAt(points, triangles, fmt, env, r.shift, k);
    }
  }

  /** The binary image of a mesh read back into a fresh mesh, with every
      point allocation granted, the mesh reservation granted and no
      progress step before the last cancelled, loads without error and to
      the end of the image: one triangle per facet written on three fresh
      vertices holding its corners as the float encoding and decoding leave
      them, shifted by the shift proposed for the first vertex; and, exactly
      when the normal tables are granted, the face normals the writer
      computed, quantised, with triangle k on normal k. */
  lemma BinaryRoundTrip(points: seq<Point>, triangles: seq<Triangle>, fmt: Format, g: Geometry, strict: bool, env: Env)
    requires Writable(points, triangles) && Pristine(g) && Unhindered(env, |triangles|)
    ensures var l := LoadBinaryWith(BinaryImage(points, triangles, fmt), g, strict, env);
      var n := |triangles|;
      var shift := l.last.g.globalShift;
      && l.result == NoError && l.count == n
      && l.last.pos == |BinaryImage(points, triangles, fmt)|
      && shift == FirstShift(points, triangles, fmt, env)
      && |l.last.g.points| == 3 * n && |l.last.g.triangles| == n
      && (forall k :: 0 <= k < n ==>
            && l.last.g.triangles[k] == Triangle(3 * k, 3 * k + 1, 3 * k + 2)
            && l.last.g.points[3 * k .. 3 * k + 3] == Corners(points, triangles[k], fmt, env, shift))
      && (l.last.g.normals.Some? <==> NormalsKept(env, n))
      && (NormalsKept(env, n) ==>
            l.last.g.normals == Some(Normals(points, triangles, fmt, env)) && l.last.g.normalIndexes == Some(Diagonal(n)))
      && (!NormalsKept(env, n) ==> l.last.g.normalIndexes.None?)
  {
    LoadsFinal(points, triangles, fmt, g, strict, env);
    FinalShape(points, triangles, fmt, env);
  }

  /** With the normal tables refused, the reader as written writes the
      normal of every facet of the image through the dropped table, while
      the corrected reader ends with no normal tables. */
  lemma StaleWritesAsWritten(points: seq<Point>, triangles: seq<Triangle>, fmt: Format, g: Geometry, strict: bool, env: Env)
    requires Writable(points, triangles) && Pristine(g) && Unhindered(env, |triangles|)
    requires !NormalsKept(env, |triangles|)
    ensures var data := BinaryImage(points, triangles, fmt);
      var l := LoadBinaryWith(data, g, strict, env);
      && StaleNormalWrites(data, g, strict, env) == |triangles|
      && l.last.g.normals.None? && l.last.g.normalIndexes.None?
  {
    LoadsFinal(points, triangles, fmt, g, strict, env);
    FinalShape(points, triangles, fmt, env);
  }
}
