/** loadASCIIFile on the mesh and its cloud in place. Each block of the
    source's facet loop is a method here, proved to move the objects exactly
    as the corresponding transition of AsciiReader's machine moves its value
    snapshot; LoadAsciiFile is then proved to end where AsciiReader.LoadAscii
    ends. */
module AsciiLoader {
  import opened StlBase
  import opened Text
  import opened MeshModel
  import opened AsciiReader

  /** The reader state that the loader's variables and objects stand for. */
  function State(pos: nat, result: FileError, warned: bool, warnings: nat,
                 shift: Point, mesh: Mesh, vertices: PointCloud): Scan
    reads mesh, vertices
  {
    Scan(pos, result, warned, warnings, shift, Snapshot(mesh, vertices))
  }

  /** The first line of a facet (lines 604-662). */
  method ReadFacetLine(lines: seq<string>, pos0: nat, result0: FileError, warned0: bool,
                       warnings0: nat, hasNormals: bool, ghost s: Scan, env: Env)
    returns (leave: bool, normal: Option<Point>, pos: nat, result: FileError, warned: bool, warnings: nat)
    requires WellFormed(lines, s) && s.pos == pos0 && s.result == result0
    requires s.warned == warned0 && s.warnings == warnings0 && s.g.normals.Some? == hasNormals
    ensures pos0 <= pos <= |lines|
    ensures var t := s.(pos := pos, result := result, warned := warned, warnings := warnings);
      FromFacet(lines, s, env) == (if leave then t else FromOuterLoop(lines, t, normal, env))
  {
    var currentLine := LineAt(lines, pos0);
    pos := Next(lines, pos0);
    leave, normal, result, warned, warnings := false, None, result0, warned0, warnings0;
    var facet := ParseFacetLine(currentLine, hasNormals, warned, env);
    if facet.EndOfSolid? {
      leave := true;
    } else if facet.NotAFacet? {
      leave, result := true, MalformedFile;
    } else {
      normal := facet.normal;
      if facet.warn {
        warned, warnings := true, warnings + 1;
      }
    }
  }

  /** The 'outer loop' line (lines 665-676). */
  method ReadOuterLoopLine(lines: seq<string>, pos0: nat, result0: FileError, normal: Option<Point>,
                           ghost s: Scan, env: Env)
    returns (leave: bool, pos: nat, result: FileError)
    requires WellFormed(lines, s) && s.pos == pos0 && s.result == result0
    ensures pos0 <= pos <= |lines|
    ensures var t := s.(pos := pos, result := result);
      FromOuterLoop(lines, s, normal, env) == (if leave then t else FromVertex(lines, t, 0, Unsets(), normal, env))
  {
    var currentLine := LineAt(lines, pos0);
    pos := Next(lines, pos0);
    leave, result := false, result0;
    if !Accepts(currentLine, "OUTER LOOP") {
      leave, result := true, Reading;
    }
  }

  /** How one 'vertex' line ends. */
  datatype VertexOutcome = Stored | BadLine | OutOfMemory

  /** One 'vertex' line (lines 680-763), on the cloud in place. */
  method ReadVertex(lines: seq<string>, mesh: Mesh, vertices: PointCloud, pos0: nat, i: nat,
                    slots0: seq<int>, pointCount0: nat, result0: FileError, shift0: Point,
                    normal: Option<Point>, ghost s: Scan, env: Env)
    returns (outcome: VertexOutcome, pos: nat, slots: seq<int>, pointCount: nat, result: FileError, shift: Point)
    requires s == State(pos0, result0, s.warned, s.warnings, shift0, mesh, vertices)
    requires WellFormed(lines, s) && i < 3 && |slots0| == 3 && pointCount0 == |vertices.points|
    modifies vertices
    ensures pointCount == |vertices.points| && pos0 <= pos <= |lines| && |slots| == 3
    ensures Consistent(Snapshot(mesh, vertices))
    ensures var t := State(pos, result, s.warned, s.warnings, shift, mesh, vertices);
      && (outcome == Stored ==> FromVertex(lines, s, i, slots0, normal, env) == FromVertex(lines, t, i + 1, slots, normal, env))
      && (outcome == BadLine ==> FromVertex(lines, s, i, slots0, normal, env) == FromTriangle(lines, t, slots, normal, env))
      && (outcome == OutOfMemory ==> FromVertex(lines, s, i, slots0, normal, env) == t)
  {
    outcome, slots, pointCount, result, shift := Stored, slots0, pointCount0, result0, shift0;
    var currentLine := LineAt(lines, pos0);
    pos := Next(lines, pos0);
    var vertex := ParseVertexLine(currentLine, env);
    if vertex.None? {
      return BadLine, pos, slots, pointCount, MalformedFile, shift;
    }
    var pd := vertex.value;
    var outOfMemory;
    outOfMemory, shift := StoreVertexInPlace(mesh, vertices, pointCount, shift, pd, env);
    if outOfMemory {
      return OutOfMemory, pos, slots, pointCount, NotEnoughMemory, shift;
    }
    slots := slots[i := pointCount];
    pointCount := pointCount + 1;
  }

  /** The three-vertex 'for' loop of a facet (lines 678-764). It ends at the
      triangle, or at the end of the load when the cloud cannot grow. */
  method ReadVertexLines(lines: seq<string>, mesh: Mesh, vertices: PointCloud, pos0: nat,
                         pointCount0: nat, result0: FileError, shift0: Point,
                         normal: Option<Point>, ghost s: Scan, env: Env)
    returns (outOfMemory: bool, pos: nat, slots: seq<int>, pointCount: nat, result: FileError, shift: Point)
    requires s == State(pos0, result0, s.warned, s.warnings, shift0, mesh, vertices)
    requires WellFormed(lines, s) && pointCount0 == |vertices.points|
    modifies vertices
    ensures pointCount == |vertices.points| && pos0 <= pos <= |lines| && |slots| == 3
    ensures Consistent(Snapshot(mesh, vertices))
    ensures var t := State(pos, result, s.warned, s.warnings, shift, mesh, vertices);
      FromVertex(lines, s, 0, Unsets(), normal, env) ==
        (if outOfMemory then t else FromTriangle(lines, t, slots, normal, env))
  {
    outOfMemory, pos, slots, pointCount, result, shift := false, pos0, Unsets(), pointCount0, result0, shift0;
    var i := 0;
    while i < 3
      invariant i <= 3 && |slots| == 3
      invariant pointCount == |vertices.points| && pos0 <= pos <= |lines|
      invariant Consistent(Snapshot(mesh, vertices))
      invariant FromVertex(lines, s, 0, Unsets(), normal, env) ==
        FromVertex(lines, State(pos, result, s.warned, s.warnings, shift, mesh, vertices), i, slots, normal, env)
    {
      ghost var here := State(pos, result, s.warned, s.warnings, shift, mesh, vertices);
      var outcome;
      outcome, pos, slots, pointCount, result, shift :=
        ReadVertex(lines, mesh, vertices, pos, i, slots, pointCount, result, shift, normal, here, env);
      if outcome == BadLine {
        return;
      } else if outcome == OutOfMemory {
        outOfMemory := true;
        return;
      }
      i := i + 1;
    }
  }

  /** Adding the facet's triangle to the mesh in place (lines 767-795). */
  method AddFacetTriangle(mesh: Mesh, vertices: PointCloud, faceCount: nat, t: Triangle, env: Env)
    returns (ok: bool)
    requires Consistent(Snapshot(mesh, vertices)) && faceCount == |mesh.triangles|
    modifies mesh
    ensures mesh.name == old(mesh.name) && mesh.cloud == old(mesh.cloud)
    ensures var r := AddFacet(old(Snapshot(mesh, vertices)), t, env);
      && ok == r.Some?
      && Snapshot(mesh, vertices) == (if ok then r.value else old(Snapshot(mesh, vertices)))
  {
    if mesh.capacity == faceCount {
      ok := mesh.Reserve(faceCount + 1000, env.grants(TriangleBuffer, faceCount + 1000));
      if !ok {
        return;
      }
      if mesh.normals.Some? {
        var success := env.grants(NormalTable, mesh.capacity);
        if success && faceCount == 0 {
          success := mesh.ReservePerTriangleNormalIndexes(env.grants(TriangleNormalIndexes, mesh.capacity));
        }
        if !success {
          mesh.DropNormals();
        }
      }
    }
    ok := true;
    mesh.AddTriangle(t);
  }

  /** The triangle and its normal (lines 766-809). */
  method StoreFacet(lines: seq<string>, mesh: Mesh, vertices: PointCloud, faceCount0: nat, slots: seq<int>,
                    normal: Option<Point>, ghost s: Scan, env: Env)
    returns (ok: bool, faceCount: nat)
    requires s.g == Snapshot(mesh, vertices) && WellFormed(lines, s)
    requires |slots| == 3 && faceCount0 == |mesh.triangles|
    modifies mesh
    ensures mesh.name == old(mesh.name) && mesh.cloud == old(mesh.cloud) && faceCount == |mesh.triangles|
    ensures Consistent(Snapshot(mesh, vertices))
    ensures ok ==> FromTriangle(lines, s, slots, normal, env) == FromEndLoop(lines, s.(g := Snapshot(mesh, vertices)), env)
    ensures !ok ==> FromTriangle(lines, s, slots, normal, env) == s.(result := NotEnoughMemory, g := Snapshot(mesh, vertices))
  {
    faceCount := faceCount0;
    ok := AddFacetTriangle(mesh, vertices, faceCount, Triangle(slots[0], slots[1], slots[2]), env);
    if !ok {
      return;
    }
    faceCount := faceCount + 1;
    AddFacetNormalInPlace(mesh, vertices, normal, env);
  }

  /** The 'endloop' and 'endfacet' lines and the cancellation test
      (lines 811-844). */
  method ReadFacetEnd(lines: seq<string>, pos0: nat, result0: FileError, faceCount: nat,
                      ghost s: Scan, env: Env)
    returns (leave: bool, pos: nat, result: FileError)
    requires WellFormed(lines, s) && s.pos == pos0 && s.result == result0
    requires faceCount == |s.g.triangles|
    ensures pos0 <= pos <= |lines| && (!leave ==> pos0 < pos)
    ensures var t := s.(pos := pos, result := result);
      FromEndLoop(lines, s, env) == (if leave then t else FromFacet(lines, t, env))
  {
    result := result0;
    var currentLine := LineAt(lines, pos0);
    pos := Next(lines, pos0);
    if !Accepts(currentLine, "ENDLOOP") {
      return true, pos, MalformedFile;
    }
    ghost var s1 := s.(pos := pos);
    assert FromEndLoop(lines, s, env) == FromEndFacet(lines, s1, env);
    currentLine := LineAt(lines, pos);
    pos := Next(lines, pos);
    if !Accepts(currentLine, "ENDFACET") {
      return true, pos, MalformedFile;
    }
    leave := faceCount % 1024 == 0 && env.cancelled(faceCount);
  }

  /** One turn of the facet loop (lines 600-844): it ends at the next facet
      or leaves the loop. */
  method ReadFacet(lines: seq<string>, mesh: Mesh, vertices: PointCloud, pos0: nat,
                   pointCount0: nat, faceCount0: nat, result0: FileError, warned0: bool,
                   warnings0: nat, shift0: Point, ghost s: Scan, env: Env)
    returns (leave: bool, pos: nat, pointCount: nat, faceCount: nat, result: FileError,
             warned: bool, warnings: nat, shift: Point)
    requires s == State(pos0, result0, warned0, warnings0, shift0, mesh, vertices)
    requires WellFormed(lines, s)
    requires pointCount0 == |vertices.points| && faceCount0 == |mesh.triangles|
    modifies mesh, vertices
    ensures mesh.name == old(mesh.name) && mesh.cloud == old(mesh.cloud)
    ensures pointCount == |vertices.points| && faceCount == |mesh.triangles|
    ensures pos <= |lines| && (!leave ==> pos0 < pos)
    ensures Consistent(Snapshot(mesh, vertices))
    ensures var t := State(pos, result, warned, warnings, shift, mesh, vertices);
      FromFacet(lines, s, env) == (if leave then t else FromFacet(lines, t, env))
  {
    pointCount, faceCount, shift := pointCount0, faceCount0, shift0;
    var normal;
    leave, normal, pos, result, warned, warnings :=
      ReadFacetLine(lines, pos0, result0, warned0, warnings0, mesh.normals.Some?, s, env);
    if leave {
      return;
    }

    ghost var here := State(pos, result, warned, warnings, shift, mesh, vertices);
    leave, pos, result := ReadOuterLoopLine(lines, pos, result, normal, here, env);
    if leave {
      return;
    }

    here := State(pos, result, warned, warnings, shift, mesh, vertices);
    var outOfMemory, slots;
    outOfMemory, pos, slots, pointCount, result, shift :=
      ReadVertexLines(lines, mesh, vertices, pos, pointCount, result, shift, normal, here, env);
    if outOfMemory {
      return true, pos, pointCount, faceCount, result, warned, warnings, shift;
    }

    here := State(pos, result, warned, warnings, shift, mesh, vertices);
    var ok;
    ok, faceCount := StoreFacet(lines, mesh, vertices, faceCount, slots, normal, here, env);
    if !ok {
      return true, pos, pointCount, faceCount, NotEnoughMemory, warned, warnings, shift;
    }

    here := State(pos, result, warned, warnings, shift, mesh, vertices);
    leave, pos, result := ReadFacetEnd(lines, pos, result, faceCount, here, env);
  }

  /** loadASCIIFile (lines 545-857): the mesh is named after the first line,
      then facets are read until the loop is left. The mesh and its cloud end
      in the state that LoadAscii describes, and the result is LoadAscii's. */
  method LoadAsciiFile(lines: seq<string>, mesh: Mesh, vertices: PointCloud, env: Env)
    returns (result: FileError)
    requires Consistent(Snapshot(mesh, vertices))
    modifies mesh, vertices
    ensures var l := LoadAscii(lines, old(Snapshot(mesh, vertices)), env);
      && result == l.result && Snapshot(mesh, vertices) == l.last.g
      && mesh.name == (if l.name.Some? then l.name.value else old(mesh.name))
    ensures mesh.cloud == old(mesh.cloud)
  {
    var header := ParseSolidLine(LineAt(lines, 0));
    if header.SolidFailed? {
      return header.error;
    }
    mesh.SetName(header.name);
    var pos, pointCount, faceCount := Next(lines, 0), |vertices.points|, |mesh.triangles|;
    var warned, warnings, shift := false, 0, Origin;
    result := NoError;
    ghost var goal := FromFacet(lines, State(pos, result, warned, warnings, shift, mesh, vertices), env);
    while true
      invariant pointCount == |vertices.points| && faceCount == |mesh.triangles| && mesh.name == header.name
      invariant mesh.cloud == old(mesh.cloud)
      invariant WellFormed(lines, State(pos, result, warned, warnings, shift, mesh, vertices))
      invariant FromFacet(lines, State(pos, result, warned, warnings, shift, mesh, vertices), env) == goal
      decreases |lines| - pos
    {
      var leave;
      leave, pos, pointCount, faceCount, result, warned, warnings, shift :=
        ReadFacet(lines, mesh, vertices, pos, pointCount, faceCount, result, warned, warnings, shift,
                  State(pos, result, warned, warnings, shift, mesh, vertices), env);
      if leave {
        return;
      }
    }
  }
}
