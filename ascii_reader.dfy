/** The ASCII STL reader (loadASCIIFile), specified over the lines of the
    file: 'solid [name]', then facets of seven lines each, until an empty
    line, an 'endsolid' line or the end of the input.

    The facet loop is written as one function per point of the loop body
    (FromFacet, FromOuterLoop, FromVertex, FromTriangle, FromEndLoop,
    FromEndFacet): each performs one block of the source and continues with
    the next point, and each returns the state in which the loop is finally
    left. The geometry is a value snapshot of the mesh and its cloud
    (MeshModel.Geometry); AsciiLoader performs the same blocks on the objects
    in place. */
module AsciiReader {
  import opened StlBase
  import opened Text
  import opened MeshModel

  // ---------------------------------------------------------------------
  // Line classification

  /** The outcome of the first line. */
  datatype SolidLine = SolidFailed(error: FileError) | Solid(name: string)

  const DefaultName: string := "mesh"

  /** 'solid [name]': the first token must be SOLID in any case; the other
      tokens, joined by single spaces, are the name, "mesh" when there are
      none. An empty (or missing) first line is a read error. */
  function ParseSolidLine(line: string): (h: SolidLine)
    ensures h.SolidFailed? ==> h.error == (if line == "" then Reading else MalformedFile)
    ensures h.Solid? <==> line != "" && Tokens(line) != [] && Upper(Tokens(line)[0]) == "SOLID"
    ensures h.Solid? ==> Tokens(h.name) == (if |Tokens(line)| > 1 then Tokens(line)[1..] else [DefaultName])
    ensures h.Solid? && |Tokens(line)| == 1 ==> h.name == DefaultName
  {
    if line == "" then SolidFailed(Reading)
    else
      var ts := Tokens(line);
      if ts == [] || Upper(ts[0]) != "SOLID" then SolidFailed(MalformedFile)
      else if |ts| > 1 then
        TokensAreWords(line);
        assert forall k :: 0 <= k < |ts[1..]| ==> ts[1..][k] == ts[k + 1];
        TokensOfJoin(ts[1..]);
        Solid(Join(ts[1..], " "))
      else
        TokensOfJoin([DefaultName]);
        Solid(DefaultName)
  }

  /** Three successive toDouble calls: a point only when all three parse. */
  function ParseTriple(a: string, b: string, c: string, env: Env): (p: Option<Point>)
    ensures p.Some? <==> env.parseNumber(a).Some? && env.parseNumber(b).Some? && env.parseNumber(c).Some?
  {
    match (env.parseNumber(a), env.parseNumber(b), env.parseNumber(c))
    case (Some(x), Some(y), Some(z)) => Some(Point(x, y, z))
    case _ => None
  }

  /** The outcome of the first line of a facet. */
  datatype FacetLine =
    | EndOfSolid                                   // stop with the current result
    | NotAFacet                                    // return MalformedFile at once
    | Facet(normal: Option<Point>, warn: bool)     // warn: a normal warning is logged

  /** The first line of a facet: 'facet [normal nx ny nz]', or 'endsolid',
      or an empty line. A line whose first token is neither FACET nor
      ENDSOLID, or that has no token at all, is not a facet (the source reads
      the first token of an empty token list there; see WhitespaceLineAsWritten).
      The normal is read only when there is a normal table and at least five
      tokens; a normal that is missing or does not parse is logged once per
      file. */
  function ParseFacetLine(line: string, hasNormals: bool, warned: bool, env: Env): (f: FacetLine)
    ensures f.EndOfSolid? <==> line == "" || (Tokens(line) != [] && Upper(Tokens(line)[0]) == "ENDSOLID")
    ensures f.NotAFacet? <==>
      line != "" && (Tokens(line) == [] || (Upper(Tokens(line)[0]) != "FACET" && Upper(Tokens(line)[0]) != "ENDSOLID"))
    ensures f.Facet? <==> line != "" && Tokens(line) != [] && Upper(Tokens(line)[0]) == "FACET"
    ensures f.Facet? && f.warn ==> !warned
    ensures f.Facet? && f.normal.Some? ==> hasNormals
  {
    if line == "" then EndOfSolid
    else
      var ts := Tokens(line);
      if ts == [] then NotAFacet
      else if Upper(ts[0]) != "FACET" then
        if Upper(ts[0]) != "ENDSOLID" then NotAFacet else EndOfSolid
      else if hasNormals && |ts| >= 5 then
        if Upper(ts[1]) == "NORMAL" then
          var n := ParseTriple(ts[2], ts[3], ts[4], env);
          Facet(n, n.None? && !warned)
        else
          Facet(None, !warned)
      else
        Facet(None, |ts| > 1 && !warned)
  }

  /** A 'vertex x y z' line: the point, or None when the line is empty, does
      not start with VERTEX, has fewer than four tokens or a coordinate does
      not parse. */
  function ParseVertexLine(line: string, env: Env): (p: Option<Point>)
    ensures p.Some? ==> KeywordLine(line, "VERTEX") && |Tokens(line)| >= 4
  {
    if line == "" || !KeywordLine(line, "VERTEX") then None
    else
      var ts := Tokens(line);
      if |ts| < 4 then None else ParseTriple(ts[1], ts[2], ts[3], env)
  }

  /** A fixed facet line ('outer loop', 'endloop', 'endfacet') is accepted
      when it is not empty and, trimmed and upper-cased, starts with the
      keyword. */
  predicate Accepts(line: string, keyword: string)
  {
    line != "" && KeywordLine(line, keyword)
  }

  // ---------------------------------------------------------------------
  // The facet loop

  /** The reader's state: the line position, the load result, whether the
      normal warning was logged and how many normal warnings were logged, the
      current shift and the geometry. */
  datatype Scan = Scan(pos: nat, result: FileError, warned: bool, warnings: nat, shift: Point, g: Geometry)

  predicate WellFormed(lines: seq<string>, s: Scan)
  {
    s.pos <= |lines| && Consistent(s.g)
  }

  function Unsets(): seq<int>
  {
    [Unset, Unset, Unset]
  }

  /** From the first line of a facet (lines 604-662): 'endsolid', an empty
      line or the end of the input leave the loop; a line that is not a facet
      returns MalformedFile. */
  function FromFacet(lines: seq<string>, s: Scan, env: Env): (r: Scan)
    requires WellFormed(lines, s)
    ensures WellFormed(lines, r) && s.pos <= r.pos
    decreases |lines| - s.pos, 5
  {
    var s1 := s.(pos := Next(lines, s.pos));
    match ParseFacetLine(LineAt(lines, s.pos), s.g.normals.Some?, s.warned, env)
    case EndOfSolid => s1
    case NotAFacet => s1.(result := MalformedFile)
    case Facet(normal, warn) =>
      FromOuterLoop(lines, s1.(warned := s.warned || warn, warnings := s.warnings + (if warn then 1 else 0)),
                    normal, env)
  }

  /** From the 'outer loop' line (lines 665-676): a missing one is a read
      error that leaves the loop. */
  function FromOuterLoop(lines: seq<string>, s: Scan, normal: Option<Point>, env: Env): (r: Scan)
    requires WellFormed(lines, s)
    ensures WellFormed(lines, r) && s.pos <= r.pos
    decreases |lines| - s.pos, 4
  {
    var s1 := s.(pos := Next(lines, s.pos));
    if !Accepts(LineAt(lines, s.pos), "OUTER LOOP") then s1.(result := Reading)
    else FromVertex(lines, s1, 0, Unsets(), normal, env)
  }

  /** Storing the vertex of the i-th line (MeshModel.StoreVertex): its index
      goes into slot i unless the cloud could not grow. */
  function TakeVertex(s: Scan, i: nat, slots: seq<int>, pd: Point, env: Env): (r: (Scan, seq<int>, bool))
    requires Consistent(s.g) && i < |slots|
    ensures Consistent(r.0.g) && r.0.pos == s.pos && r.0.result == s.result
    ensures r.0.warned == s.warned && r.0.warnings == s.warnings
    ensures r.0.g.triangles == s.g.triangles && r.0.g.triangleCapacity == s.g.triangleCapacity
    ensures r.0.g.normals == s.g.normals && r.0.g.normalIndexes == s.g.normalIndexes
    ensures !r.2 ==> r.0.g.points == s.g.points + [Add(pd, r.0.shift)] && r.1 == slots[i := |s.g.points|]
    ensures r.2 ==> r.0.g.points == s.g.points && r.1 == slots
  {
    var v := StoreVertex(s.g, s.shift, pd, env);
    (s.(shift := v.shift, g := v.g), if v.outOfMemory then slots else slots[i := |s.g.points|], v.outOfMemory)
  }

  /** From the i-th 'vertex' line (lines 680-763). A bad line sets
      MalformedFile and leaves the vertex loop, not the facet: the triangle
      is still stored, with the slots that were set. */
  function FromVertex(lines: seq<string>, s: Scan, i: nat, slots: seq<int>, normal: Option<Point>, env: Env): (r: Scan)
    requires WellFormed(lines, s) && i <= 3 && |slots| == 3
    ensures WellFormed(lines, r) && s.pos <= r.pos
    decreases |lines| - s.pos, 3, 3 - i
  {
    if i == 3 then FromTriangle(lines, s, slots, normal, env)
    else
      var s1 := s.(pos := Next(lines, s.pos));
      match ParseVertexLine(LineAt(lines, s.pos), env)
      case None => FromTriangle(lines, s1.(result := MalformedFile), slots, normal, env)
      case Some(pd) =>
        var (s2, slots2, outOfMemory) := TakeVertex(s1, i, slots, pd, env);
        if outOfMemory then s2.(result := NotEnoughMemory)
        else FromVertex(lines, s2, i + 1, slots2, normal, env)
  }

  /** Adding the facet's triangle: a full mesh grows by 1000 triangles (a
      refusal is None); with a normal table, the table is grown too and, the
      first time, the per-triangle normal indexes are created; if either is
      refused, both are dropped and the load goes on without normals. */
  function AddFacet(g: Geometry, t: Triangle, env: Env): (r: Option<Geometry>)
    requires Consistent(g)
    ensures r.Some? ==> r.value.triangles == g.triangles + [t]
    ensures r.Some? ==> r.value.points == g.points && r.value.pointCapacity == g.pointCapacity
    ensures r.Some? ==> r.value.globalShift == g.globalShift
    ensures r.Some? ==> |r.value.triangles| <= r.value.triangleCapacity
    ensures r.Some? && r.value.normals.Some? ==>
      r.value.normalIndexes.Some? && |r.value.normalIndexes.value| == |g.triangles|
    ensures r.Some? && r.value.normals.None? ==> r.value.normalIndexes.None?
    ensures r.Some? && r.value.normals.Some? ==> r.value.normals == g.normals
    ensures r.Some? && r.value.normalIndexes.Some? && g.normalIndexes.Some? ==>
      r.value.normalIndexes == g.normalIndexes
  {
    var n := |g.triangles|;
    if g.triangleCapacity == n then
      if !env.grants(TriangleBuffer, n + 1000) then None
      else
        var g1 := g.(triangleCapacity := n + 1000);
        var g2 :=
          if g1.normals.None? then g1
          else if !env.grants(NormalTable, n + 1000) then g1.(normals := None, normalIndexes := None)
          else if n == 0 then
            if env.grants(TriangleNormalIndexes, n + 1000) then
              g1.(normalIndexes := if g1.normalIndexes.None? then Some([]) else g1.normalIndexes)
            else g1.(normals := None, normalIndexes := None)
          else g1;
        Some(g2.(triangles := g2.triangles + [t]))
    else
      Some(g.(triangles := g.triangles + [t]))
  }

  /** From the storing of the facet (lines 766-809): the triangle is added
      with the three slots and its normal is recorded; a refused mesh growth
      leaves the loop with NotEnoughMemory. */
  function FromTriangle(lines: seq<string>, s: Scan, slots: seq<int>, normal: Option<Point>, env: Env): (r: Scan)
    requires WellFormed(lines, s) && |slots| == 3
    ensures WellFormed(lines, r) && s.pos <= r.pos
    decreases |lines| - s.pos, 2
  {
    match AddFacet(s.g, Triangle(slots[0], slots[1], slots[2]), env)
    case None => s.(result := NotEnoughMemory)
    case Some(g2) => FromEndLoop(lines, s.(g := AddFacetNormal(g2, normal, env)), env)
  }

  /** From the 'endloop' line (lines 811-823). */
  function FromEndLoop(lines: seq<string>, s: Scan, env: Env): (r: Scan)
    requires WellFormed(lines, s)
    ensures WellFormed(lines, r) && s.pos <= r.pos
    decreases |lines| - s.pos, 1
  {
    var s1 := s.(pos := Next(lines, s.pos));
    if !Accepts(LineAt(lines, s.pos), "ENDLOOP") then s1.(result := MalformedFile)
    else FromEndFacet(lines, s1, env)
  }

  /** From the 'endfacet' line (lines 825-837), then the cancellation test
      made every 1024 triangles (lines 839-844), which leaves the loop with
      the current result. */
  function FromEndFacet(lines: seq<string>, s: Scan, env: Env): (r: Scan)
    requires WellFormed(lines, s)
    ensures WellFormed(lines, r) && s.pos <= r.pos
    decreases |lines| - s.pos, 0
  {
    var s1 := s.(pos := Next(lines, s.pos));
    var n := |s.g.triangles|;
    if !Accepts(LineAt(lines, s.pos), "ENDFACET") then s1.(result := MalformedFile)
    else if n % 1024 == 0 && env.cancelled(n) then s1
    else FromFacet(lines, s1, env)
  }

  /** The outcome of a whole ASCII load: the result, the name read from the
      first line (None when it was rejected) and the final state. */
  datatype AsciiLoad = AsciiLoad(result: FileError, name: Option<string>, last: Scan)

  /** The state in which the facet loop starts, after the first line. */
  function Start(lines: seq<string>, g: Geometry): Scan
  {
    Scan(Next(lines, 0), NoError, false, 0, Origin, g)
  }

  /** loadASCIIFile on the lines of the file, from geometry g. */
  function LoadAscii(lines: seq<string>, g: Geometry, env: Env): (l: AsciiLoad)
    requires Consistent(g)
    ensures Consistent(l.last.g)
  {
    match ParseSolidLine(LineAt(lines, 0))
    case SolidFailed(e) => AsciiLoad(e, None, Start(lines, g))
    case Solid(name) =>
      var last := FromFacet(lines, Start(lines, g), env);
      AsciiLoad(last.result, Some(name), last)
  }
}
