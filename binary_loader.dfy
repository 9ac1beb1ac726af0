/** loadBinaryFile on the mesh and its cloud in place. As for the ASCII
    loader, each block of the facet loop is a method proved to move the
    objects as the corresponding function of BinaryReader moves its value
    snapshot, and LoadBinaryFile is proved to end where
    BinaryReader.LoadBinaryWith ends, for the reader as written
    (strict = false) and for the corrected one (strict = true). */
module BinaryLoader {
  import opened StlBase
  import opened MeshModel
  import opened BinaryReader

  /** The reader state that the loader's variables and objects stand for. */
  function State(pos: nat, result: FileError, shift: Point, mesh: Mesh, vertices: PointCloud): BinScan
    reads mesh, vertices
  {
    BinScan(pos, result, shift, Snapshot(mesh, vertices))
  }

  /** The reservations once the count is known (lines 880-887), in place. */
  method ReserveFacetsInPlace(mesh: Mesh, vertices: PointCloud, count: nat, env: Env) returns (ok: bool)
    requires Consistent(Snapshot(mesh, vertices)) && mesh.triangles == []
    modifies mesh
    ensures mesh.name == old(mesh.name) && mesh.cloud == old(mesh.cloud)
    ensures var r := ReserveFacets(old(Snapshot(mesh, vertices)), count, env);
      && ok == r.Some?
      && Snapshot(mesh, vertices) == (if ok then r.value else old(Snapshot(mesh, vertices)))
  {
    ok := mesh.Reserve(count, env.grants(TriangleBuffer, count));
    if !ok {
      return;
    }
    if mesh.normals.Some? {
      var success := env.grants(NormalTable, count);
      if success {
        success := mesh.ReservePerTriangleNormalIndexes(env.grants(TriangleNormalIndexes, count));
      }
      if !success {
        mesh.DropNormals();
      }
    }
  }

  /** One vertex of a facet (lines 913-962): a detected short read, or a
      cloud that cannot grow, leaves the load. */
  method ReadVertex(data: seq<byte>, mesh: Mesh, vertices: PointCloud, f: nat, count: nat, pos0: nat,
                    i: nat, slots0: seq<int>, result0: FileError, shift0: Point, normal: Point,
                    strict: bool, ghost s: BinScan, env: Env)
    returns (leave: bool, pos: nat, slots: seq<int>, result: FileError, shift: Point)
    requires s == State(pos0, result0, shift0, mesh, vertices)
    requires WellFormed(data, s, f, count) && f < count && i < 3 && |slots0| == 3
    modifies vertices
    ensures pos0 <= pos <= |data| && |slots| == 3
    ensures var t := State(pos, result, shift, mesh, vertices);
      && WellFormed(data, t, f, count)
      && FromVertex(data, s, f, count, i, slots0, normal, strict, env)
         == (if leave then t else FromVertex(data, t, f, count, i + 1, slots, normal, strict, env))
  {
    leave, slots, result, shift := false, slots0, result0, shift0;
    var bytes := Read(data, pos0, 12);
    pos := pos0 + |bytes|;
    if strict && |bytes| < 12 {
      return true, pos, slots, Reading, shift;
    }
    var pointCount := |vertices.points|;
    var outOfMemory;
    outOfMemory, shift := StoreVertexInPlace(mesh, vertices, pointCount, shift, DecodePoint(Padded(bytes, 12), env), env);
    if outOfMemory {
      return true, pos, slots, NotEnoughMemory, shift;
    }
    slots := slots[i := pointCount];
  }

  /** The three vertices of a facet (lines 911-963). */
  method ReadVertices(data: seq<byte>, mesh: Mesh, vertices: PointCloud, f: nat, count: nat, pos0: nat,
                      result0: FileError, shift0: Point, normal: Point, strict: bool,
                      ghost s: BinScan, env: Env)
    returns (leave: bool, pos: nat, slots: seq<int>, result: FileError, shift: Point)
    requires s == State(pos0, result0, shift0, mesh, vertices)
    requires WellFormed(data, s, f, count) && f < count
    modifies vertices
    ensures pos0 <= pos <= |data| && |slots| == 3
    ensures var t := State(pos, result, shift, mesh, vertices);
      && WellFormed(data, t, f, count)
      && FromVertex(data, s, f, count, 0, [Unset, Unset, Unset], normal, strict, env)
         == (if leave then t else FromEnd(data, t, f, count, slots, normal, strict, env))
  {
    leave, pos, slots, result, shift := false, pos0, [Unset, Unset, Unset], result0, shift0;
    var i := 0;
    while i < 3
      invariant i <= 3 && |slots| == 3 && pos0 <= pos <= |data|
      invariant WellFormed(data, State(pos, result, shift, mesh, vertices), f, count)
      invariant FromVertex(data, s, f, count, 0, [Unset, Unset, Unset], normal, strict, env)
        == FromVertex(data, State(pos, result, shift, mesh, vertices), f, count, i, slots, normal, strict, env)
    {
      ghost var here := State(pos, result, shift, mesh, vertices);
      leave, pos, slots, result, shift :=
        ReadVertex(data, mesh, vertices, f, count, pos, i, slots, result, shift, normal, strict, here, env);
      if leave {
        return;
      }
      i := i + 1;
    }
  }

  /** The attribute bytes, the triangle, its normal and the cancellation
      test (lines 966-995). */
  method ReadFacetEnd(data: seq<byte>, mesh: Mesh, vertices: PointCloud, f: nat, count: nat, pos0: nat,
                      result0: FileError, shift: Point, slots: seq<int>, normal: Point, strict: bool,
                      ghost s: BinScan, env: Env)
    returns (leave: bool, pos: nat, result: FileError)
    requires s == State(pos0, result0, shift, mesh, vertices)
    requires WellFormed(data, s, f, count) && f < count && |slots| == 3
    modifies mesh
    ensures mesh.name == old(mesh.name) && mesh.cloud == old(mesh.cloud)
    ensures pos0 <= pos <= |data|
    ensures !leave ==> WellFormed(data, State(pos, result, shift, mesh, vertices), f + 1, count)
    ensures var t := State(pos, result, shift, mesh, vertices);
      FromEnd(data, s, f, count, slots, normal, strict, env)
        == (if leave then t else FromFacet(data, t, f + 1, count, strict, env))
  {
    result := result0;
    var attribute := Read(data, pos0, 2);
    pos := pos0 + |attribute|;
    if strict && |attribute| < 2 {
      return true, pos, Reading;
    }
    AppendFacet(mesh, vertices, Triangle(slots[0], slots[1], slots[2]), normal, env);
    leave := env.cancelled(f + 1);
  }

  /** Lines 980-991: the triangle goes into its reserved room and the
      facet's normal is recorded. */
  method AppendFacet(mesh: Mesh, vertices: PointCloud, t: Triangle, normal: Point, env: Env)
    requires |mesh.triangles| < mesh.capacity
    requires mesh.normals.Some? ==> mesh.normalIndexes.Some?
    modifies mesh
    ensures mesh.name == old(mesh.name) && mesh.cloud == old(mesh.cloud)
    ensures var g := old(Snapshot(mesh, vertices));
      Snapshot(mesh, vertices) == AddFacetNormal(g.(triangles := g.triangles + [t]), Some(normal), env)
  {
    mesh.AddTriangle(t);
    AddFacetNormalInPlace(mesh, vertices, Some(normal), env);
  }

  /** One turn of the facet loop (lines 902-996). */
  method ReadFacet(data: seq<byte>, mesh: Mesh, vertices: PointCloud, f: nat, count: nat, pos0: nat,
                   result0: FileError, shift0: Point, strict: bool, ghost s: BinScan, env: Env)
    returns (leave: bool, pos: nat, result: FileError, shift: Point)
    requires s == State(pos0, result0, shift0, mesh, vertices)
    requires WellFormed(data, s, f, count) && f < count
    modifies mesh, vertices
    ensures mesh.name == old(mesh.name) && mesh.cloud == old(mesh.cloud)
    ensures !leave ==> WellFormed(data, State(pos, result, shift, mesh, vertices), f + 1, count)
    ensures var t := State(pos, result, shift, mesh, vertices);
      FromFacet(data, s, f, count, strict, env)
        == (if leave then t else FromFacet(data, t, f + 1, count, strict, env))
  {
    shift := shift0;
    var normalBytes := Read(data, pos0, 12);
    pos := pos0 + |normalBytes|;
    if |normalBytes| < 12 {
      return true, pos, Reading, shift;
    }
    var normal := DecodePoint(normalBytes, env);
    ghost var here := State(pos, result0, shift, mesh, vertices);
    assert FromFacet(data, s, f, count, strict, env)
      == FromVertex(data, here, f, count, 0, [Unset, Unset, Unset], normal, strict, env);
    leave, pos, result, shift := ReadFacetBody(data, mesh, vertices, f, count, pos, result0, shift, normal, strict, here, env);
  }

  /** The vertices and the end of a facet whose normal is read (lines
      911-995). */
  method ReadFacetBody(data: seq<byte>, mesh: Mesh, vertices: PointCloud, f: nat, count: nat, pos0: nat,
                       result0: FileError, shift0: Point, normal: Point, strict: bool, ghost s: BinScan, env: Env)
    returns (leave: bool, pos: nat, result: FileError, shift: Point)
    requires s == State(pos0, result0, shift0, mesh, vertices)
    requires WellFormed(data, s, f, count) && f < count
    modifies mesh, vertices
    ensures mesh.name == old(mesh.name) && mesh.cloud == old(mesh.cloud)
    ensures !leave ==> WellFormed(data, State(pos, result, shift, mesh, vertices), f + 1, count)
    ensures var t := State(pos, result, shift, mesh, vertices);
      FromVertex(data, s, f, count, 0, [Unset, Unset, Unset], normal, strict, env)
        == (if leave then t else FromFacet(data, t, f + 1, count, strict, env))
  {
    var slots;
    leave, pos, slots, result, shift :=
      ReadVertices(data, mesh, vertices, f, count, pos0, result0, shift0, normal, strict, s, env);
    if leave {
      return;
    }
    ghost var here := State(pos, result, shift, mesh, vertices);
    leave, pos, result := ReadFacetEnd(data, mesh, vertices, f, count, pos, result, shift, slots, normal, strict, here, env);
  }

  /** loadBinaryFile (lines 859-1001) on a mesh with no triangle yet: the
      mesh is named "Mesh", then the count is read, the buffers reserved and
      the facets read. The objects end in the state LoadBinaryWith describes
      and the result is its result. */
  method LoadBinaryFile(data: seq<byte>, mesh: Mesh, vertices: PointCloud, strict: bool, env: Env)
    returns (result: FileError)
    requires Consistent(Snapshot(mesh, vertices)) && mesh.triangles == []
    modifies mesh, vertices
    ensures var l := LoadBinaryWith(data, old(Snapshot(mesh, vertices)), strict, env);
      && result == l.result && Snapshot(mesh, vertices) == l.last.g
      && mesh.name == BinaryName
    ensures mesh.cloud == old(mesh.cloud)
  {
    var pos: nat := if |data| < HeaderSize then |data| else HeaderSize;
    mesh.SetName(BinaryName);
    var countBytes := Read(data, pos, CountSize);
    pos := pos + |countBytes|;
    if |countBytes| < CountSize {
      return Reading;
    }
    var count := U32(countBytes);
    var ok := ReserveFacetsInPlace(mesh, vertices, count, env);
    if !ok {
      return NotEnoughMemory;
    }
    var shift := Origin;
    result := NoError;
    ghost var goal := FromFacet(data, State(pos, result, shift, mesh, vertices), 0, count, strict, env);
    var f: nat := 0;
    while f < count
      invariant f <= count && mesh.name == BinaryName && mesh.cloud == old(mesh.cloud)
      invariant WellFormed(data, State(pos, result, shift, mesh, vertices), f, count)
      invariant FromFacet(data, State(pos, result, shift, mesh, vertices), f, count, strict, env) == goal
      decreases count - f
    {
      var leave;
      leave, pos, result, shift :=
        ReadFacet(data, mesh, vertices, f, count, pos, result, shift, strict,
                  State(pos, result, shift, mesh, vertices), env);
      if leave {
        return;
      }
      f := f + 1;
    }
  }
}
