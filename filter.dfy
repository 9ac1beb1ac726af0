/** The STL filter's entry points: the extension and save-type tests
    (lines 41-55) and loadFile (lines 320-543), which sniffs the format,
    runs the matching reader on a fresh mesh, shrinks the buffers and welds
    duplicated vertices. */
module StlFilter {
  import opened StlBase
  import opened Text
  import opened MeshModel
  import opened Welding
  import opened Compaction
  import Sniffer
  import AsciiReader
  import AsciiLaws
  import AsciiLoader
  import BinaryReader
  import BinaryLaws
  import BinaryLoader
  import WeldLaws

  // ---------------------------------------------------------------------
  // Extension and save-type tests

  /** canLoadExtension (lines 41-44): the caller passes the extension in
      upper case, and only "STL" is accepted. */
  function CanLoadExtension(upperCaseExt: string): (r: bool)
    ensures r <==> upperCaseExt == "STL"
    ensures r ==> |upperCaseExt| == 3
  {
    upperCaseExt == "STL"
  }

  /** The entity class a caller asks to save: a mesh, or any other class
      (clouds, sub-meshes, groups, ...) identified by its code. */
  datatype EntityType = MeshEntity | OtherEntity(code: nat)

  /** canSave (lines 46-55) with its two out-parameters: the answer, then
      the new values of `multiple` and `exclusive`. A mesh can be saved,
      alone and only by this filter; for anything else the answer is no and
      both flags are left as they were. */
  function CanSave(entity: EntityType, multiple: bool, exclusive: bool): (r: (bool, bool, bool))
    ensures r.0 <==> entity == MeshEntity
    ensures r.0 ==> !r.1 && r.2
    ensures !r.0 ==> r.1 == multiple && r.2 == exclusive
  {
    if entity == MeshEntity then (true, false, true) else (false, multiple, exclusive)
  }

  // ---------------------------------------------------------------------
  // The octree

  /** What loadFile takes from the octree at level 10 (lines 409-419): the
      points of each cell, the sphere search around a point, and for each
      cell whether its neighbour buffer is allocated and how far its
      progress runs. */
  datatype Traversal = Traversal(cells: seq<seq<nat>>, near: Near, granted: nat -> bool, proceed: nat -> nat -> bool)

  /** The octree of a cloud of n points: the cells hold indexes of the cloud
      and between them every point; the search stays in the cloud, finds the
      query point and finds b around a exactly when it finds a around b. */
  ghost predicate SoundTraversal(o: Traversal, n: nat)
  {
    && (forall c, k :: 0 <= c < |o.cells| && 0 <= k < |o.cells[c]| ==> o.cells[c][k] < n)
    && NearInRange(o.near, n)
    && Symmetric(o.near, n)
    && (forall x :: 0 <= x < n ==> x in Members(o.cells))
  }

  /** computeOctree (line 411), once it succeeds, as a function of the points. */
  type OctreeBuilder = seq<Point> -> Traversal

  ghost predicate SoundBuilder(build: OctreeBuilder)
  {
    forall points :: SoundTraversal(build(points), |points|)
  }

  // ---------------------------------------------------------------------
  // The load as a function

  /** The name loadFile gives the mesh before a reader runs (line 330). */
  const DefaultName: string := "mesh"

  /** The cloud and mesh loadFile creates (lines 369-374): empty, with an
      empty normal table. */
  const Fresh: Geometry := Geometry([], 0, Origin, [], 0, Some([]), None)

  /** The outcome of loadFile: an error and nothing added to the container,
      or the mesh it adds, with its name and content. */
  datatype Loaded = Failed(error: FileError) | Loaded(name: string, g: Geometry)

  /** The facts about a reader's output the compaction relies on. */
  predicate Readable(g: Geometry)
  {
    && Consistent(g)
    && AllInRange(g.triangles, |g.points|)
    && (forall k :: 0 <= k < |g.triangles| ==> NonDegenerate(g.triangles[k]))
  }

  /** Lines 376-385: the reader chosen by the sniffer runs on the fresh mesh
      and any error becomes MalformedFile. With `corrected` false the binary
      reader is the one as written, which does not detect a short vertex or
      attribute read; with `corrected` true it is the corrected one. The
      ASCII reader is the corrected one either way: as written, a blank
      facet line reads past an empty token list (see
      AsciiLaws.ParseFacetLineAsWritten), which has no defined outcome. */
  function ReadFile(file: seq<byte>, ascii: bool, corrected: bool, env: Env): (r: Loaded)
    ensures r.Failed? ==> r.error == MalformedFile
    ensures r.Loaded? ==> Readable(r.g)
  {
    if ascii then
      var l := AsciiReader.LoadAscii(Lines(Latin1(file)), Fresh, env);
      AsciiLaws.AsciiLoadLaw(Lines(Latin1(file)), Fresh, env);
      if l.result != NoError then Failed(MalformedFile)
      else Loaded(if l.name.Some? then l.name.value else DefaultName, l.last.g)
    else
      var l := BinaryReader.LoadBinaryWith(file, Fresh, corrected, env);
      BinaryLaws.BinaryLoadLaw(file, Fresh, corrected, env);
      if l.result != NoError then Failed(MalformedFile)
      else
        ShapedSound(l.last.g);
        Loaded(BinaryReader.BinaryName, l.last.g)
  }

  /** Facet k being the triangle (3k, 3k+1, 3k+2) over three vertices per
      facet makes every triangle valid and non-degenerate. */
  lemma ShapedSound(g: Geometry)
    requires Shaped(g, 0)
    ensures AllInRange(g.triangles, |g.points|)
    ensures forall k :: 0 <= k < |g.triangles| ==> NonDegenerate(g.triangles[k])
  {
    forall k | 0 <= k < |g.triangles|
      ensures InRange(g.triangles[k], |g.points|) && NonDegenerate(g.triangles[k])
    {
      assert g.triangles[k] == Triangle(3 * k, 3 * k + 1, 3 * k + 2);
    }
  }

  /** Lines 391-397: both capacities become the sizes. */
  function Shrink(g: Geometry): Geometry
  {
    g.(pointCapacity := |g.points|, triangleCapacity := |g.triangles|)
  }

  /** Lines 405-419: the table of -1s tagged cell by cell; a traversal that
      runs to the end leaves every vertex pointing at a root of the cloud. */
  function TagTable(o: Traversal, n: nat): (r: (seq<int>, bool))
    requires SoundTraversal(o, n)
    ensures |r.0| == n && (r.1 ==> Rooted(r.0))
  {
    TaggedTable(n, o.cells, o.near, o.granted, o.proceed);
    TagCells(seq(n, x => -1), o.cells, o.near, o.granted, o.proceed)
  }

  /** Lines 402-512: the table of -1s and the octree may fail to be
      allocated, the traversal may stop, and each of these leaves the mesh
      as it is; otherwise the tagged table is compacted by Weld, as written
      (`corrected` false: the new cloud has no shift, and a mesh whose
      triangles all collapse keeps them rewritten) or corrected. */
  function Compact(g: Geometry, corrected: bool, env: Env, build: OctreeBuilder): Geometry
    requires SoundBuilder(build) && Consistent(g) && AllInRange(g.triangles, |g.points|)
  {
    var n := |g.points|;
    if !env.grants(EquivalenceTable, n) || !env.grants(Octree, n) then g
    else
      var o := build(g.points);
      assert SoundTraversal(o, n);
      var tagged := TagTable(o, n);
      if !tagged.1 then g
      else
        var t := tagged.0;
        Weld(g, t, env.grants(WeldedCloud, RootsBefore(t, n)), corrected)
  }

  /** Lines 330-367, as written or corrected: as written, the header text
      runs on into `beyond`, the memory that follows the 80-byte buffer. */
  function Detect(file: seq<byte>, beyond: seq<byte>, corrected: bool): (d: Sniffer.Detection)
    ensures d.Refused? <==> |file| < BinaryReader.HeaderSize
    ensures d.Refused? ==> (d.error == Reading <==> file == [])
    ensures corrected ==> d == Sniffer.Sniff(file)
  {
    if corrected then Sniffer.Sniff(file) else Sniffer.SniffAsWritten(file, beyond)
  }

  /** loadFile, as written or corrected: a file that cannot be opened
      cannot be read; a header shorter than 80 bytes is refused; otherwise
      the detected reader runs and a clean load is shrunk and welded. */
  function Load(file: seq<byte>, beyond: seq<byte>, opens: bool, corrected: bool, env: Env, build: OctreeBuilder)
    : (l: Loaded)
    requires SoundBuilder(build)
  {
    if !opens then Failed(Reading)
    else
      match Detect(file, beyond, corrected)
      case Refused(e) => Failed(e)
      case Detected(ascii) =>
        match ReadFile(file, ascii, corrected, env)
        case Failed(e) => Failed(e)
        case Loaded(name, g) => Loaded(name, Compact(Shrink(g), corrected, env, build))
  }

  // ---------------------------------------------------------------------
  // Laws

  /** loadFile fails with Reading exactly when the file cannot be opened or
      is empty; every other failure is MalformedFile (a short header, or
      any error of a reader). */
  lemma LoadErrors(file: seq<byte>, beyond: seq<byte>, opens: bool, corrected: bool, env: Env, build: OctreeBuilder)
    requires SoundBuilder(build)
    ensures var l := Load(file, beyond, opens, corrected, env, build);
      && (l.Failed? ==> l.error == Reading || l.error == MalformedFile)
      && (l.Failed? && l.error == Reading <==> !opens || file == [])
      && (opens && |file| > 0 && |file| < BinaryReader.HeaderSize ==> l == Failed(MalformedFile))
  {
  }

  /** The compaction of a shrunk reader output, as written or corrected,
      leaves capacities equal to the sizes and no larger than before, every
      triangle indexing the cloud and one normal index per triangle.
      Corrected, every triangle is also non-degenerate and the global shift
      is kept; CollapseAsWritten and ShiftLostAsWritten show that neither
      holds as written. */
  lemma CompactSound(g: Geometry, corrected: bool, env: Env, build: OctreeBuilder)
    requires SoundBuilder(build) && Readable(g)
    requires g.pointCapacity == |g.points| && g.triangleCapacity == |g.triangles|
    ensures var r := Compact(g, corrected, env, build);
      && r.pointCapacity == |r.points| <= |g.points|
      && r.triangleCapacity == |r.triangles| <= |g.triangles|
      && AllInRange(r.triangles, |r.points|)
      && (r.normalIndexes.Some? ==> |r.normalIndexes.value| == |r.triangles|)
      && (corrected ==> WeldLaws.AllSound(r.triangles, |r.points|) && r.globalShift == g.globalShift)
  {
    var n := |g.points|;
    if env.grants(EquivalenceTable, n) && env.grants(Octree, n) {
      var o := build(g.points);
      assert SoundTraversal(o, n);
      var tagged := TagTable(o, n);
      if tagged.1 {
        var t := tagged.0;
        if env.grants(WeldedCloud, RootsBefore(t, n)) {
          if Count(Keeps(RewriteAll(t, g.triangles))) > 0 {
            WeldLaws.WeldPoints(g, t, corrected);
            WeldLaws.WeldTriangles(g, t, corrected);
          } else if !corrected {
            WeldLaws.RewrittenInRange(t, g.triangles);
          }
        }
      }
    }
  }

  /** A mesh that loadFile adds to the container, as written or corrected,
      has capacities equal to the sizes, every triangle indexing its cloud
      and one normal index per triangle when it has them; corrected, every
      triangle is also non-degenerate. */
  lemma LoadedSound(file: seq<byte>, beyond: seq<byte>, opens: bool, corrected: bool, env: Env, build: OctreeBuilder)
    requires SoundBuilder(build)
    ensures var l := Load(file, beyond, opens, corrected, env, build);
      l.Loaded? ==>
        && l.g.pointCapacity == |l.g.points|
        && l.g.triangleCapacity == |l.g.triangles|
        && AllInRange(l.g.triangles, |l.g.points|)
        && (l.g.normalIndexes.Some? ==> |l.g.normalIndexes.value| == |l.g.triangles|)
        && (corrected ==> WeldLaws.AllSound(l.g.triangles, |l.g.points|))
  {
    var l := Load(file, beyond, opens, corrected, env, build);
    if l.Loaded? {
      var ascii := Detect(file, beyond, corrected).ascii;
      var g := ReadFile(file, ascii, corrected, env).g;
      CompactSound(Shrink(g), corrected, env, build);
    }
  }

  // ---------------------------------------------------------------------
  // The compaction as written, on a concrete octree

  /** The indexes from i on of the points equal to p. */
  function SameFrom(points: seq<Point>, p: Point, i: nat): (r: seq<nat>)
    ensures forall j :: 0 <= j < |r| ==> i <= r[j] < |points| && points[r[j]] == p
    decreases |points| - i
  {
    if i >= |points| then []
    else if points[i] == p then [i] + SameFrom(points, p, i + 1)
    else SameFrom(points, p, i + 1)
  }

  lemma {:induction false} SameFromHas(points: seq<Point>, p: Point, i: nat, b: nat)
    requires i <= b < |points| && points[b] == p
    ensures b in SameFrom(points, p, i)
    decreases b - i
  {
    if i < b {
      SameFromHas(points, p, i + 1, b);
    }
  }

  /** An octree of one cell holding every point, whose search finds the
      points that coincide with the query point: a search of radius
      sqrt(ZERO_TOLERANCE) on a cloud whose distinct points lie further
      apart than that. */
  function CoincidentOctree(points: seq<Point>): (o: Traversal)
    ensures SoundTraversal(o, |points|)
  {
    var o := Traversal([seq(|points|, i => i)],
                       (a: nat) => if a < |points| then SameFrom(points, points[a], 0) else [],
                       c => true, c => k => true);
    var n := |points|;
    assert Symmetric(o.near, n) by {
      forall a, b | 0 <= a < n && 0 <= b < n && b in o.near(a)
        ensures a in o.near(b)
      {
        SameFromHas(points, points[b], 0, a);
      }
      forall a | 0 <= a < n
        ensures a in o.near(a)
      {
        SameFromHas(points, points[a], 0, a);
      }
    }
    assert forall x :: 0 <= x < n ==> x in Members(o.cells) by {
      assert Members(o.cells) == o.cells[0];
      forall x | 0 <= x < n
        ensures x in Members(o.cells)
      {
        assert o.cells[0][x] == x;
      }
    }
    o
  }

  function Coincident(): (b: OctreeBuilder)
    ensures SoundBuilder(b)
  {
    CoincidentOctree
  }

  /** The octree of p, p, q: one cell, in which the first two points find
      each other and the third finds itself. */
  lemma CollapsedOctree(p: Point, q: Point)
    requires p != q
    ensures var o := CoincidentOctree([p, p, q]);
      o.cells == [[0, 1, 2]] && o.near(0) == [0, 1] && o.near(1) == [0, 1] && o.near(2) == [2]
  {
    var points := [p, p, q];
    assert SameFrom(points, p, 2) == [];
    assert SameFrom(points, p, 1) == [1];
    assert SameFrom(points, p, 0) == [0, 1];
    assert SameFrom(points, q, 2) == [2];
    assert SameFrom(points, q, 1) == [2];
    assert SameFrom(points, q, 0) == [2];
    var o := CoincidentOctree(points);
    assert o.cells[0][0] == 0 && o.cells[0][1] == 1 && o.cells[0][2] == 2;
    assert |o.cells| == 1 && |o.cells[0]| == 3;
    assert o.cells[0] == [0, 1, 2];
  }

  /** The tagging of the three points p, p, q: the second point is fused
      with the first. */
  lemma CollapsedTable(p: Point, q: Point)
    requires p != q
    ensures TagTable(CoincidentOctree([p, p, q]), 3) == ([0, 0, 2], true)
  {
    var o := CoincidentOctree([p, p, q]);
    CollapsedOctree(p, q);
    var t0: seq<int> := [-1, -1, -1];
    assert Redirect(t0, [0, 1], 0) == [-1, 0, -1];
    var t1 := TagPoint(t0, 0, o.near);
    assert t1 == [0, 0, -1];
    assert TagPoint(t1, 1, o.near) == t1;
    var t2 := TagPoint(t1, 2, o.near);
    assert t2 == [0, 0, 2];
    assert TagCell(t2, [0, 1, 2], 3, o.near, o.proceed(0)) == (t2, true);
    assert TagCell(t1, [0, 1, 2], 2, o.near, o.proceed(0)) == (t2, true);
    assert TagCell(t1, [0, 1, 2], 1, o.near, o.proceed(0)) == (t2, true);
    assert TagCell(t0, [0, 1, 2], 0, o.near, o.proceed(0)) == (t2, true);
    assert seq(3, x => -1) == t0;
    assert TagCells(t0, o.cells, o.near, o.granted, o.proceed) == (t2, true);
  }

  /** The octree of three distinct points: one cell, in which each point
      finds only itself. */
  lemma DistinctOctree(a: Point, b: Point, c: Point)
    requires a != b && b != c && a != c
    ensures var o := CoincidentOctree([a, b, c]);
      o.cells == [[0, 1, 2]] && o.near(0) == [0] && o.near(1) == [1] && o.near(2) == [2]
  {
    var points := [a, b, c];
    assert SameFrom(points, a, 2) == [];
    assert SameFrom(points, a, 1) == [];
    assert SameFrom(points, a, 0) == [0];
    assert SameFrom(points, b, 2) == [];
    assert SameFrom(points, b, 1) == [1];
    assert SameFrom(points, b, 0) == [1];
    assert SameFrom(points, c, 2) == [2];
    assert SameFrom(points, c, 1) == [2];
    assert SameFrom(points, c, 0) == [2];
    var o := CoincidentOctree(points);
    assert |o.cells| == 1 && |o.cells[0]| == 3;
    assert o.cells[0][0] == 0 && o.cells[0][1] == 1 && o.cells[0][2] == 2;
    assert o.cells[0] == [0, 1, 2];
  }

  /** The tagging of three distinct points: each is its own root. */
  lemma DistinctTable(a: Point, b: Point, c: Point)
    requires a != b && b != c && a != c
    ensures TagTable(CoincidentOctree([a, b, c]), 3) == ([0, 1, 2], true)
  {
    var o := CoincidentOctree([a, b, c]);
    DistinctOctree(a, b, c);
    var t0: seq<int> := [-1, -1, -1];
    var t1 := TagPoint(t0, 0, o.near);
    assert t1 == [0, -1, -1];
    var t2 := TagPoint(t1, 1, o.near);
    assert t2 == [0, 1, -1];
    var t3 := TagPoint(t2, 2, o.near);
    assert t3 == [0, 1, 2];
    assert TagCell(t3, [0, 1, 2], 3, o.near, o.proceed(0)) == (t3, true);
    assert TagCell(t2, [0, 1, 2], 2, o.near, o.proceed(0)) == (t3, true);
    assert TagCell(t1, [0, 1, 2], 1, o.near, o.proceed(0)) == (t3, true);
    assert TagCell(t0, [0, 1, 2], 0, o.near, o.proceed(0)) == (t3, true);
    assert seq(3, x => -1) == t0;
    assert TagCells(t0, o.cells, o.near, o.granted, o.proceed) == (t3, true);
  }

  /** A mesh of one triangle whose first two corners coincide. */
  function Collapsing(): Geometry
  {
    var p := Point(1.0, 0.0, 0.0);
    Geometry([p, p, Point(0.0, 1.0, 0.0)], 3, Origin, [Triangle(0, 1, 2)], 1, None, None)
  }

  /** A mesh of one triangle with three distinct corners, shifted by 100
      along x. */
  function Shifted(): Geometry
  {
    Geometry([Point(1.0, 0.0, 0.0), Point(0.0, 1.0, 0.0), Origin], 3, Point(100.0, 0.0, 0.0),
             [Triangle(0, 1, 2)], 1, None, None)
  }

  /** Lines 452-477 as written, on the octree above with every allocation
      granted: the only triangle of a mesh whose first two corners coincide
      collapses, and it is kept as the degenerate triangle (0, 0, 1), where
      the corrected compaction leaves the mesh as it was. */
  lemma CollapseAsWritten(env: Env, corrected: bool)
    requires forall m :: env.grants(EquivalenceTable, m) && env.grants(Octree, m) && env.grants(WeldedCloud, m)
    ensures Readable(Collapsing())
    ensures Compact(Collapsing(), corrected, env, Coincident())
      == if corrected then Collapsing() else Collapsing().(triangles := [Triangle(0, 0, 1)])
  {
    var g := Collapsing();
    assert NonDegenerate(g.triangles[0]);
    var p, q := Point(1.0, 0.0, 0.0), Point(0.0, 1.0, 0.0);
    assert g.points == [p, p, q];
    CollapsedTable(p, q);
    assert Coincident()(g.points) == CoincidentOctree(g.points);
    assert RootsBefore([0, 0, 2], 3) == 2;
    assert RewriteAll([0, 0, 2], g.triangles) == [Triangle(0, 0, 1)];
    assert Keeps([Triangle(0, 0, 1)]) == [false];
  }

  /** Line 439 as written, on the octree above with every allocation
      granted: a shifted mesh with nothing to fuse is rebuilt on a cloud
      without shift, while the corrected compaction keeps the shift. */
  lemma ShiftLostAsWritten(env: Env)
    requires forall m :: env.grants(EquivalenceTable, m) && env.grants(Octree, m) && env.grants(WeldedCloud, m)
    ensures Readable(Shifted())
    ensures Compact(Shifted(), false, env, Coincident()).globalShift == Origin
    ensures Compact(Shifted(), true, env, Coincident()).globalShift == Shifted().globalShift
  {
    var h := Shifted();
    assert NonDegenerate(h.triangles[0]);
    DistinctTable(Point(1.0, 0.0, 0.0), Point(0.0, 1.0, 0.0), Origin);
    assert Coincident()(h.points) == CoincidentOctree(h.points);
    assert RootsBefore([0, 1, 2], 3) == 3;
    assert RewriteAll([0, 1, 2], h.triangles) == [Triangle(0, 1, 2)];
    assert Keeps([Triangle(0, 1, 2)]) == [true];
  }

  // ---------------------------------------------------------------------
  // loadFile in place

  /** loadFile (lines 320-543) with the file's bytes, the memory after the
      header buffer and whether the file opens as parameters, as written or
      corrected: on failure nothing is handed over
      (null), otherwise the mesh handed to the container, with its name and
      content, is the one Load describes. */
  method LoadFile(file: seq<byte>, beyond: seq<byte>, opens: bool, corrected: bool, env: Env, build: OctreeBuilder)
    returns (result: FileError, mesh: Mesh?)
    requires SoundBuilder(build)
    ensures var l := Load(file, beyond, opens, corrected, env, build);
      && (l.Failed? ==> result == l.error && mesh == null)
      && (l.Loaded? ==> result == NoError && mesh != null && mesh.name == l.name && Snapshot(mesh, mesh.cloud) == l.g)
  {
    if !opens {
      return Reading, null;
    }
    var d := Detect(file, beyond, corrected);
    if d.Refused? {
      return d.error, null;
    }
    var vertices;
    result, mesh, vertices := ReadMesh(file, d.ascii, corrected, env);
    if result != NoError {
      return;
    }
    ghost var read := ReadFile(file, d.ascii, corrected, env);
    vertices.ShrinkToFit();
    mesh.ShrinkToFit();
    assert Snapshot(mesh, vertices) == Shrink(read.g);
    WeldDuplicates(mesh, vertices, corrected, env, build);
  }

  /** Lines 369-385: a fresh cloud and mesh named "mesh" with an empty
      normal table, filled by the detected reader; on an error nothing is
      handed over. */
  method ReadMesh(file: seq<byte>, ascii: bool, corrected: bool, env: Env)
    returns (result: FileError, mesh: Mesh?, vertices: PointCloud)
    ensures var r := ReadFile(file, ascii, corrected, env);
      && (r.Failed? ==> result == r.error && mesh == null)
      && (r.Loaded? ==> && result == NoError && mesh != null && fresh(mesh) && fresh(vertices)
                        && mesh.cloud == vertices && mesh.Valid() && vertices.Valid()
                        && mesh.name == r.name && Snapshot(mesh, vertices) == r.g)
  {
    vertices := new PointCloud();
    var m := new Mesh(vertices);
    m.SetName(DefaultName);
    assert Snapshot(m, vertices) == Fresh;
    if ascii {
      result := AsciiLoader.LoadAsciiFile(Lines(Latin1(file)), m, vertices, env);
    } else {
      result := BinaryLoader.LoadBinaryFile(file, m, vertices, corrected, env);
    }
    if result != NoError {
      return MalformedFile, null, vertices;
    }
    mesh := m;
  }

  /** Lines 402-512 in place on the shrunk mesh and its cloud, as written or
      corrected. */
  method WeldDuplicates(mesh: Mesh, vertices: PointCloud, corrected: bool, env: Env, build: OctreeBuilder)
    requires SoundBuilder(build) && mesh.cloud == vertices && mesh.Valid() && vertices.Valid()
    requires Consistent(Snapshot(mesh, vertices)) && AllInRange(mesh.triangles, |vertices.points|)
    modifies mesh
    ensures mesh.name == old(mesh.name)
    ensures Snapshot(mesh, mesh.cloud) == Compact(old(Snapshot(mesh, vertices)), corrected, env, build)
  {
    ghost var g := Snapshot(mesh, vertices);
    var n := |vertices.points|;
    if !env.grants(EquivalenceTable, n) || !env.grants(Octree, n) {
      return;
    }
    var table := new int[n](_ => -1);
    assert table[..] == seq(n, x => -1);
    var o := build(vertices.points);
    assert SoundTraversal(o, n);
    var ok := TagAllCells(table, o.cells, o.near, o.granted, o.proceed);
    ghost var tagged := TagTable(o, n);
    assert ok == tagged.1 && table[..] == tagged.0;
    if !ok {
      return;
    }
    ghost var t := table[..];
    assert Compact(g, corrected, env, build) == Weld(g, t, env.grants(WeldedCloud, RootsBefore(t, n)), corrected);
    var cloud := RemoveDuplicates(mesh, vertices, table, (remaining: nat) => env.grants(WeldedCloud, remaining), corrected);
  }
}
