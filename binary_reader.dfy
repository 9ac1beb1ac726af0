/** The binary STL reader (loadBinaryFile), specified over the bytes of the
    file: an 80-byte header that is skipped, the facet count as four
    little-endian bytes, then 50 bytes per facet (the normal, three vertices
    as little-endian floats, two attribute bytes that are ignored).

    As for the ASCII reader, the facet loop is one function per point of the
    loop body (FromFacet, FromVertex, FromEnd), each returning the state in
    which the loop is left. The reader is written once with a `strict` flag:
    the source (strict = false) does not detect a short vertex or attribute
    read, the corrected reader (strict = true) returns Reading for it, as it
    does for a short normal read. BinaryLoader implements both on the
    objects in place, and loadFile's model takes the strictness from its
    `corrected` flag. */
module BinaryReader {
  import opened StlBase
  import opened MeshModel

  const HeaderSize: nat := 80
  const CountSize: nat := 4
  const FacetSize: nat := 50

  /** The name every binary load gives the mesh (line 872). */
  const BinaryName: string := "Mesh"

  /** QFile::read(n) at pos: the bytes that are there, fewer than n near the
      end of the file. */
  function Read(data: seq<byte>, pos: nat, n: nat): (bytes: seq<byte>)
    requires pos <= |data|
    ensures |bytes| <= n && pos + |bytes| <= |data|
    ensures |bytes| == n <==> pos + n <= |data|
  {
    if pos + n <= |data| then data[pos..pos + n] else data[pos..]
  }

  /** A buffer of n bytes whose first bytes were read: the model fills the
      rest with zeros (in the source it keeps what the buffer held). */
  function Padded(bytes: seq<byte>, n: nat): (r: seq<byte>)
    requires |bytes| <= n
    ensures |r| == n
  {
    bytes + Zeros(n - |bytes|)
  }

  /** n zero bytes. */
  function Zeros(n: nat): (r: seq<byte>)
    ensures |r| == n
  {
    if n == 0 then [] else [0] + Zeros(n - 1)
  }

  /** A little-endian unsigned 32-bit integer. */
  function U32(b: seq<byte>): (n: nat)
    requires |b| == 4
    ensures n < 0x1_0000_0000
  {
    b[0] as int + 0x100 * (b[1] as int) + 0x1_0000 * (b[2] as int) + 0x100_0000 * (b[3] as int)
  }

  /** Three little-endian floats. */
  function DecodePoint(b: seq<byte>, env: Env): Point
    requires |b| == 12
  {
    Point(env.decodeF32(b[0], b[1], b[2], b[3]),
          env.decodeF32(b[4], b[5], b[6], b[7]),
          env.decodeF32(b[8], b[9], b[10], b[11]))
  }

  /** The reader's state: the file position, the load result, the current
      shift and the geometry. */
  datatype BinScan = BinScan(pos: nat, result: FileError, shift: Point, g: Geometry)

  /** Facet f is next: f triangles read, room reserved for all count, and a
      per-triangle normal index table beside any normal table. */
  predicate WellFormed(data: seq<byte>, s: BinScan, f: nat, count: nat)
  {
    && s.pos <= |data|
    && Consistent(s.g)
    && |s.g.triangles| == f <= count <= s.g.triangleCapacity
    && (s.g.normals.Some? ==> s.g.normalIndexes.Some?)
  }

  /** The reservations made once the count is known (lines 880-887): the
      mesh for count triangles (refused: None, the source returns
      NotEnoughMemory); then the normal table and the per-triangle normal
      indexes, and if either is refused, both are dropped. */
  function ReserveFacets(g: Geometry, count: nat, env: Env): (r: Option<Geometry>)
    requires Consistent(g) && g.triangles == []
    ensures r.None? <==> count > g.triangleCapacity && !env.grants(TriangleBuffer, count)
    ensures r.Some? ==>
      && Consistent(r.value) && r.value.triangles == [] && count <= r.value.triangleCapacity
      && (r.value.normals.Some? ==> r.value.normalIndexes.Some?)
      && r.value.points == g.points && r.value.pointCapacity == g.pointCapacity
      && r.value.globalShift == g.globalShift
      && (r.value.normals.Some? <==>
            g.normals.Some? && env.grants(NormalTable, count) && env.grants(TriangleNormalIndexes, count))
  {
    if count > g.triangleCapacity && !env.grants(TriangleBuffer, count) then None
    else
      var g1 := g.(triangleCapacity := if count > g.triangleCapacity then count else g.triangleCapacity);
      if g1.normals.None? then Some(g1)
      else if env.grants(NormalTable, count) && env.grants(TriangleNormalIndexes, count) then
        Some(g1.(normalIndexes := if g1.normalIndexes.None? then Some([]) else g1.normalIndexes))
      else
        Some(g1.(normals := None, normalIndexes := None))
  }

  /** From the start of facet f (lines 904-908): once count facets are read
      the loop ends; a short normal read returns Reading. */
  function FromFacet(data: seq<byte>, s: BinScan, f: nat, count: nat, strict: bool, env: Env): (r: BinScan)
    requires WellFormed(data, s, f, count)
    ensures WellFormed(data, r, |r.g.triangles|, count) && s.pos <= r.pos && f <= |r.g.triangles|
    decreases count - f, 2
  {
    if f == count then s
    else
      var normalBytes := Read(data, s.pos, 12);
      var s1 := s.(pos := s.pos + |normalBytes|);
      if |normalBytes| < 12 then s1.(result := Reading)
      else FromVertex(data, s1, f, count, 0, [Unset, Unset, Unset], DecodePoint(normalBytes, env), strict, env)
  }

  /** From the i-th vertex of facet f (lines 911-963): a read whose shortness
      is detected returns Reading; the vertex is stored as by the ASCII
      reader, and a cloud that cannot grow returns NotEnoughMemory. */
  function FromVertex(data: seq<byte>, s: BinScan, f: nat, count: nat, i: nat, slots: seq<int>,
                      normal: Point, strict: bool, env: Env): (r: BinScan)
    requires WellFormed(data, s, f, count) && f < count && i <= 3 && |slots| == 3
    ensures WellFormed(data, r, |r.g.triangles|, count) && s.pos <= r.pos && f <= |r.g.triangles|
    decreases count - f, 1, 3 - i
  {
    if i == 3 then FromEnd(data, s, f, count, slots, normal, strict, env)
    else
      var bytes := Read(data, s.pos, 12);
      var s1 := s.(pos := s.pos + |bytes|);
      if strict && |bytes| < 12 then s1.(result := Reading)
      else
        var (s2, slots2, outOfMemory) := TakeVertex(s1, i, slots, DecodePoint(Padded(bytes, 12), env), env);
        if outOfMemory then s2.(result := NotEnoughMemory)
        else FromVertex(data, s2, f, count, i + 1, slots2, normal, strict, env)
  }

  /** Storing vertex i of a facet (StoreVertex) and recording its index in
      slot i, unless the cloud cannot grow (the flag). */
  function TakeVertex(s: BinScan, i: nat, slots: seq<int>, pd: Point, env: Env): (r: (BinScan, seq<int>, bool))
    requires |s.g.points| <= s.g.pointCapacity && i < |slots|
    ensures |r.0.g.points| <= r.0.g.pointCapacity && r.0.pos == s.pos && r.0.result == s.result
    ensures r.0.g.triangles == s.g.triangles && r.0.g.triangleCapacity == s.g.triangleCapacity
    ensures r.0.g.normals == s.g.normals && r.0.g.normalIndexes == s.g.normalIndexes
    ensures !r.2 ==> r.0.g.points == s.g.points + [Add(pd, r.0.shift)] && r.1 == slots[i := |s.g.points|]
    ensures r.2 ==> r.0.g.points == s.g.points && r.0.g.pointCapacity == s.g.pointCapacity
    ensures r.2 ==> |s.g.points| == s.g.pointCapacity
  {
    var v := StoreVertex(s.g, s.shift, pd, env);
    (s.(shift := v.shift, g := v.g), if v.outOfMemory then slots else slots[i := |s.g.points|], v.outOfMemory)
  }

  /** From the attribute bytes of facet f (lines 966-995): a short read that
      is detected returns Reading; the triangle is added (its room is
      reserved) with the facet normal, then a cancellation ends the loop with
      the current result. */
  function FromEnd(data: seq<byte>, s: BinScan, f: nat, count: nat, slots: seq<int>,
                   normal: Point, strict: bool, env: Env): (r: BinScan)
    requires WellFormed(data, s, f, count) && f < count && |slots| == 3
    ensures WellFormed(data, r, |r.g.triangles|, count) && s.pos <= r.pos && f <= |r.g.triangles|
    decreases count - f, 0
  {
    var attribute := Read(data, s.pos, 2);
    var s1 := s.(pos := s.pos + |attribute|);
    if strict && |attribute| < 2 then s1.(result := Reading)
    else
      var g := AddFacetNormal(s1.g.(triangles := s1.g.triangles + [Triangle(slots[0], slots[1], slots[2])]),
                              Some(normal), env);
      var s2 := s1.(g := g);
      if env.cancelled(f + 1) then s2 else FromFacet(data, s2, f + 1, count, strict, env)
  }

  /** The outcome of a binary load: the result, the final state and the
      facet count read from the file (0 when it could not be read). */
  datatype BinaryLoad = BinaryLoad(result: FileError, last: BinScan, count: nat)

  /** loadBinaryFile from geometry g whose mesh has no triangle yet: skip
      the header (a short file leaves the position at its end), read the
      count (a short read returns Reading), reserve, then read the facets. */
  function LoadBinaryWith(data: seq<byte>, g: Geometry, strict: bool, env: Env): (l: BinaryLoad)
    requires Consistent(g) && g.triangles == []
    ensures WellFormed(data, l.last, |l.last.g.triangles|, |l.last.g.triangles|) || l.last.g.triangles == []
    ensures Consistent(l.last.g)
  {
    var pos := if |data| < HeaderSize then |data| else HeaderSize;
    var countBytes := Read(data, pos, CountSize);
    var s := BinScan(pos + |countBytes|, NoError, Origin, g);
    if |countBytes| < CountSize then BinaryLoad(Reading, s, 0)
    else
      var count := U32(countBytes);
      match ReserveFacets(g, count, env)
      case None => BinaryLoad(NotEnoughMemory, s, count)
      case Some(g1) =>
        var last := FromFacet(data, s.(g := g1), 0, count, strict, env);
        BinaryLoad(last.result, last, count)
  }

  /** The corrected binary reader, with every short read detected. */
  function LoadBinary(data: seq<byte>, g: Geometry, env: Env): (l: BinaryLoad)
    requires Consistent(g) && g.triangles == []
    ensures Consistent(l.last.g)
  {
    LoadBinaryWith(data, g, true, env)
  }

  /** The binary reader as written (lines 917 and 973 test the result of a
      read for < 0, which a short read never is). */
  function LoadBinaryAsWritten(data: seq<byte>, g: Geometry, env: Env): (l: BinaryLoad)
    requires Consistent(g) && g.triangles == []
    ensures Consistent(l.last.g)
  {
    LoadBinaryWith(data, g, false, env)
  }

  /** Lines 883-889 as written take the mesh's normal table into a local
      pointer before reserving it and leave that pointer set when the table
      is dropped (the ASCII reader clears its own at line 789), so every
      facet that reaches lines 984-991 then writes its normal and its normal
      indexes through the dropped table: the number of such writes in a
      load. LoadBinaryWith, for either strictness, tests the mesh's table
      instead and makes none; that is the corrected behaviour. */
  function StaleNormalWrites(data: seq<byte>, g: Geometry, strict: bool, env: Env): (w: nat)
    requires Consistent(g) && g.triangles == []
    ensures var l := LoadBinaryWith(data, g, strict, env);
      && w <= |l.last.g.triangles|
      && (w > 0 ==> g.normals.Some? && l.last.g.normals.None? && l.last.g.normalIndexes.None?)
  {
    var l := LoadBinaryWith(data, g, strict, env);
    if g.normals.Some? && l.last.g.normals.None? then |l.last.g.triangles| else 0
  }
}
