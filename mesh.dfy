/** The two host objects the loaders fill in place: the vertex cloud
    (ccPointCloud) and the mesh (ccMesh) with its triangle normal table.
    Only the operations STLFilter.cpp calls are modelled. */
module MeshModel {
  import opened StlBase

  /** The vertex cloud: points, reserved capacity and the global shift. */
  class PointCloud {
    var points: seq<Point>
    var capacity: nat
    var globalShift: Point

    ghost predicate Valid()
      reads this
    {
      |points| <= capacity
    }

    constructor ()
      ensures Valid() && points == [] && capacity == 0 && globalShift == Origin
    {
      points := [];
      capacity := 0;
      globalShift := Origin;
    }

    /** reserve(n): a request within the current capacity always succeeds;
        a larger one succeeds when the allocator grants it. */
    method Reserve(n: nat, granted: bool) returns (ok: bool)
      requires Valid()
      modifies this
      ensures Valid()
      ensures ok == (n <= old(capacity) || granted)
      ensures capacity == (if ok && n > old(capacity) then n else old(capacity))
      ensures points == old(points) && globalShift == old(globalShift)
    {
      ok := n <= capacity || granted;
      if ok && n > capacity {
        capacity := n;
      }
    }

    /** addPoint: appends within the reserved capacity. */
    method AddPoint(p: Point)
      requires Valid() && |points| < capacity
      modifies this
      ensures Valid()
      ensures points == old(points) + [p]
      ensures capacity == old(capacity) && globalShift == old(globalShift)
    {
      points := points + [p];
    }

    method SetGlobalShift(s: Point)
      modifies this
      ensures globalShift == s
      ensures points == old(points) && capacity == old(capacity)
    {
      globalShift := s;
    }

    /** shrinkToFit: the capacity becomes the size. */
    method ShrinkToFit()
      modifies this
      ensures Valid() && capacity == |points|
      ensures points == old(points) && globalShift == old(globalShift)
    {
      capacity := |points|;
    }
  }

  /** The mesh: its name, the cloud it indexes, its triangles with their
      reserved capacity, the triangle normal table (compressed normal codes)
      and the per-triangle normal indexes into that table. */
  class Mesh {
    var name: string
    var cloud: PointCloud
    var triangles: seq<Triangle>
    var capacity: nat
    var normals: Option<seq<nat>>
    var normalIndexes: Option<seq<Triangle>>

    ghost predicate Valid()
      reads this
    {
      |triangles| <= capacity
    }

    /** new ccMesh(vertices) followed by setTriNormsTable(new table). */
    constructor (vertices: PointCloud)
      ensures Valid() && cloud == vertices && name == ""
      ensures triangles == [] && capacity == 0
      ensures normals == Some([]) && normalIndexes == None
    {
      name := "";
      cloud := vertices;
      triangles := [];
      capacity := 0;
      normals := Some([]);
      normalIndexes := None;
    }

    method SetName(s: string)
      modifies this
      ensures name == s
      ensures cloud == old(cloud) && triangles == old(triangles) && capacity == old(capacity)
      ensures normals == old(normals) && normalIndexes == old(normalIndexes)
    {
      name := s;
    }

    /** reserve(n), with the same rule as PointCloud.Reserve. */
    method Reserve(n: nat, granted: bool) returns (ok: bool)
      requires Valid()
      modifies this
      ensures Valid()
      ensures ok == (n <= old(capacity) || granted)
      ensures capacity == (if ok && n > old(capacity) then n else old(capacity))
      ensures name == old(name) && cloud == old(cloud) && triangles == old(triangles)
      ensures normals == old(normals) && normalIndexes == old(normalIndexes)
    {
      ok := n <= capacity || granted;
      if ok && n > capacity {
        capacity := n;
      }
    }

    /** addTriangle: appends within the reserved capacity. */
    method AddTriangle(t: Triangle)
      requires Valid() && |triangles| < capacity
      modifies this
      ensures Valid()
      ensures triangles == old(triangles) + [t]
      ensures name == old(name) && cloud == old(cloud) && capacity == old(capacity)
      ensures normals == old(normals) && normalIndexes == old(normalIndexes)
    {
      triangles := triangles + [t];
    }

    /** reservePerTriangleNormalIndexes: creates the per-triangle normal
        index table if there is none; fails when the allocator refuses. */
    method ReservePerTriangleNormalIndexes(granted: bool) returns (ok: bool)
      modifies this
      ensures ok == granted
      ensures normalIndexes == (if ok && old(normalIndexes).None? then Some([]) else old(normalIndexes))
      ensures name == old(name) && cloud == old(cloud) && triangles == old(triangles)
      ensures capacity == old(capacity) && normals == old(normals)
    {
      ok := granted;
      if ok && normalIndexes.None? {
        normalIndexes := Some([]);
      }
    }

    /** removePerTriangleNormalIndexes followed by setTriNormsTable(0). */
    method DropNormals()
      modifies this
      ensures normals == None && normalIndexes == None
      ensures name == old(name) && cloud == old(cloud) && triangles == old(triangles)
      ensures capacity == old(capacity)
    {
      normals := None;
      normalIndexes := None;
    }

    /** normals->addElement(code). */
    method AddNormal(code: nat)
      requires normals.Some?
      modifies this
      ensures normals == Some(old(normals).value + [code])
      ensures name == old(name) && cloud == old(cloud) && triangles == old(triangles)
      ensures capacity == old(capacity) && normalIndexes == old(normalIndexes)
    {
      normals := Some(normals.value + [code]);
    }

    /** addTriangleNormalIndexes(i, j, k). */
    method AddTriangleNormalIndexes(t: Triangle)
      requires normalIndexes.Some?
      modifies this
      ensures normalIndexes == Some(old(normalIndexes).value + [t])
      ensures name == old(name) && cloud == old(cloud) && triangles == old(triangles)
      ensures capacity == old(capacity) && normals == old(normals)
    {
      normalIndexes := Some(normalIndexes.value + [t]);
    }

    /** Writing through getTriangleVertIndexes(i) (lines 458-461). */
    method SetTriangle(i: nat, t: Triangle)
      requires i < |triangles|
      modifies this
      ensures triangles == old(triangles)[i := t]
      ensures name == old(name) && cloud == old(cloud) && capacity == old(capacity)
      ensures normals == old(normals) && normalIndexes == old(normalIndexes)
    {
      triangles := triangles[i := t];
    }

    /** swapTriangles(i, j): the two triangles, and their per-triangle
        normal indexes when there are some, change places. */
    method SwapTriangles(i: nat, j: nat)
      requires i < |triangles| && j < |triangles|
      requires normalIndexes.Some? ==> |normalIndexes.value| == |triangles|
      modifies this
      ensures triangles == old(triangles)[i := old(triangles)[j]][j := old(triangles)[i]]
      ensures normalIndexes == (if old(normalIndexes).None? then None
        else var ns := old(normalIndexes).value; Some(ns[i := ns[j]][j := ns[i]]))
      ensures name == old(name) && cloud == old(cloud) && capacity == old(capacity) && normals == old(normals)
    {
      triangles := triangles[i := triangles[j]][j := triangles[i]];
      if normalIndexes.Some? {
        var ns := normalIndexes.value;
        normalIndexes := Some(ns[i := ns[j]][j := ns[i]]);
      }
    }

    /** resize(n) to fewer triangles: the first n triangles, and their
        per-triangle normal indexes, remain. */
    method Resize(n: nat)
      requires n <= |triangles|
      requires normalIndexes.Some? ==> |normalIndexes.value| == |triangles|
      modifies this
      ensures Valid() && triangles == old(triangles)[..n] && capacity == n
      ensures normalIndexes == (if old(normalIndexes).None? then None else Some(old(normalIndexes).value[..n]))
      ensures name == old(name) && cloud == old(cloud) && normals == old(normals)
    {
      triangles := triangles[..n];
      capacity := n;
      if normalIndexes.Some? {
        normalIndexes := Some(normalIndexes.value[..n]);
      }
    }

    /** setAssociatedCloud. */
    method SetCloud(c: PointCloud)
      modifies this
      ensures cloud == c
      ensures name == old(name) && triangles == old(triangles) && capacity == old(capacity)
      ensures normals == old(normals) && normalIndexes == old(normalIndexes)
    {
      cloud := c;
    }

    /** shrinkToFit on the mesh: the capacity becomes the size. */
    method ShrinkToFit()
      modifies this
      ensures Valid() && capacity == |triangles|
      ensures name == old(name) && cloud == old(cloud) && triangles == old(triangles)
      ensures normals == old(normals) && normalIndexes == old(normalIndexes)
    {
      capacity := |triangles|;
    }
  }

  /** A value snapshot of a cloud and a mesh, on which the reader
      specifications are written. */
  datatype Geometry = Geometry(
    points: seq<Point>,
    pointCapacity: nat,
    globalShift: Point,
    triangles: seq<Triangle>,
    triangleCapacity: nat,
    normals: Option<seq<nat>>,
    normalIndexes: Option<seq<Triangle>>)

  function Snapshot(mesh: Mesh, cloud: PointCloud): Geometry
    reads mesh, cloud
  {
    Geometry(cloud.points, cloud.capacity, cloud.globalShift,
             mesh.triangles, mesh.capacity, mesh.normals, mesh.normalIndexes)
  }

  /** The state loadFile hands to either reader: nothing read yet, nothing
      reserved, an empty normal table and no per-triangle normal indexes. */
  predicate Pristine(g: Geometry)
  {
    g == Geometry([], 0, Origin, [], 0, Some([]), None)
  }

  /** The object invariant both readers keep between facets: counts within
      capacities, and a per-triangle normal index for every triangle once that
      table exists (it exists only beside a normal table, and it is created
      with the first triangle capacity while the normal table is there). */
  predicate Consistent(g: Geometry)
  {
    && |g.points| <= g.pointCapacity
    && |g.triangles| <= g.triangleCapacity
    && (g.normalIndexes.Some? ==> g.normals.Some? && |g.normalIndexes.value| == |g.triangles|)
    && (g.normals.Some? && g.normalIndexes.None? ==> g.triangles == [] && g.triangleCapacity == 0)
  }

  /** The outcome of storing one vertex read from a file. */
  datatype VertexStore = VertexStore(g: Geometry, shift: Point, outOfMemory: bool)

  /** How both readers store a vertex pd (lines 717-758 and 919-960): the
      first vertex of the cloud may fix the shift, through the shift service;
      a full cloud grows by 1000 points, and a refused growth is reported as
      out of memory (the shift may already be set by then); otherwise pd plus
      the shift is appended. */
  function StoreVertex(g: Geometry, shift: Point, pd: Point, env: Env): (r: VertexStore)
    requires |g.points| <= g.pointCapacity
    ensures |r.g.points| <= r.g.pointCapacity
    ensures r.g.triangles == g.triangles && r.g.triangleCapacity == g.triangleCapacity
    ensures r.g.normals == g.normals && r.g.normalIndexes == g.normalIndexes
    ensures !r.outOfMemory ==> r.g.points == g.points + [Add(pd, r.shift)]
    ensures r.outOfMemory ==> r.g.points == g.points && r.g.pointCapacity == g.pointCapacity
    ensures r.outOfMemory ==> |g.points| == g.pointCapacity
  {
    var proposed := if |g.points| == 0 then env.proposeShift(pd) else None;
    var shift1 := if proposed.Some? then proposed.value else shift;
    var g1 := if proposed.Some? then g.(globalShift := proposed.value) else g;
    var n := |g1.points|;
    if g1.pointCapacity == n && !env.grants(PointBuffer, n + 1000) then
      VertexStore(g1, shift1, true)
    else
      var capacity := if g1.pointCapacity == n then n + 1000 else g1.pointCapacity;
      VertexStore(g1.(points := g1.points + [Add(pd, shift1)], pointCapacity := capacity), shift1, false)
  }

  /** StoreVertex on the cloud in place. */
  method StoreVertexInPlace(mesh: Mesh, vertices: PointCloud, pointCount: nat, shift0: Point, pd: Point, env: Env)
    returns (outOfMemory: bool, shift: Point)
    requires vertices.Valid() && pointCount == |vertices.points|
    modifies vertices
    ensures var r := StoreVertex(old(Snapshot(mesh, vertices)), shift0, pd, env);
      Snapshot(mesh, vertices) == r.g && shift == r.shift && outOfMemory == r.outOfMemory
  {
    shift := shift0;
    if pointCount == 0 {
      var proposed := env.proposeShift(pd);
      if proposed.Some? {
        shift := proposed.value;
        vertices.SetGlobalShift(shift);
      }
    }
    if vertices.capacity == pointCount {
      var ok := vertices.Reserve(pointCount + 1000, env.grants(PointBuffer, pointCount + 1000));
      if !ok {
        return true, shift;
      }
    }
    outOfMemory := false;
    vertices.AddPoint(Add(pd, shift));
  }

  /** How both readers record a facet's normal (lines 798-809 and 984-991):
      with a normal table, a read normal is quantised and appended to the
      table, and its index (the table size before) goes into all three slots;
      a facet without a normal gets -1 and the table does not grow. */
  function AddFacetNormal(g: Geometry, normal: Option<Point>, env: Env): (r: Geometry)
    requires g.normals.Some? ==> g.normalIndexes.Some?
    ensures r.points == g.points && r.triangles == g.triangles && r.globalShift == g.globalShift
    ensures r.pointCapacity == g.pointCapacity && r.triangleCapacity == g.triangleCapacity
    ensures r.normals.Some? <==> g.normals.Some?
    ensures g.normals.Some? ==>
      var index := if normal.Some? then |g.normals.value| else -1;
      && r.normalIndexes == Some(g.normalIndexes.value + [Triangle(index, index, index)])
      && |r.normals.value| == |g.normals.value| + (if normal.Some? then 1 else 0)
      && r.normals.value[..|g.normals.value|] == g.normals.value
    ensures g.normals.None? ==> r == g
  {
    if g.normals.None? then g
    else
      var index := if normal.Some? then |g.normals.value| else -1;
      var table := if normal.Some? then g.normals.value + [env.normIndex(normal.value)] else g.normals.value;
      g.(normals := Some(table), normalIndexes := Some(g.normalIndexes.value + [Triangle(index, index, index)]))
  }

  /** Recording the facet's normal in place (lines 798-809 and 984-991). */
  method AddFacetNormalInPlace(mesh: Mesh, vertices: PointCloud, normal: Option<Point>, env: Env)
    requires mesh.normals.Some? ==> mesh.normalIndexes.Some?
    modifies mesh
    ensures mesh.name == old(mesh.name) && mesh.cloud == old(mesh.cloud)
    ensures Snapshot(mesh, vertices) == AddFacetNormal(old(Snapshot(mesh, vertices)), normal, env)
  {
    if mesh.normals.Some? {
      var index := -1;
      if normal.Some? {
        index := |mesh.normals.value|;
        mesh.AddNormal(env.normIndex(normal.value));
      }
      mesh.AddTriangleNormalIndexes(Triangle(index, index, index));
    }
  }

  /** The rule of a buffer that a reader grows 1000 elements at a time, from
      0, and only when it is full. */
  predicate RoundedCapacity(capacity: nat, size: nat)
  {
    capacity % 1000 == 0 && size <= capacity < size + 1000
  }

  /** Facet k owns the three vertices 3k, 3k+1 and 3k+2, in file order, and
      the cloud holds the vertices of the triangles read so far plus `extra`. */
  predicate Shaped(g: Geometry, extra: nat)
  {
    && |g.points| == 3 * |g.triangles| + extra
    && forall k :: 0 <= k < |g.triangles| ==> g.triangles[k] == Triangle(3 * k, 3 * k + 1, 3 * k + 2)
  }
}
