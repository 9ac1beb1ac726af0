/** What loadASCIIFile guarantees, proved about AsciiReader's functions:
    the codes it can return, an error is never cleared, the normal warning is
    logged at most once, buffers grow by steps of 1000, every per-triangle
    normal index points into the normal table, and a load that ends without
    error has three fresh vertices per facet. */
module AsciiLaws {
  import opened StlBase
  import opened Text
  import opened MeshModel
  import opened AsciiReader

  /** The codes the ASCII reader can return. A cancellation is not among
      them: it leaves the loop with the current result. */
  predicate ReaderResult(e: FileError)
  {
    e.NoError? || e.Reading? || e.MalformedFile? || e.NotEnoughMemory?
  }

  /** Every per-triangle normal index carries the same index three times,
      -1 (no normal) or a valid index into the normal table. */
  predicate NormalsIndexed(g: Geometry)
  {
    g.normalIndexes.Some? ==>
      && g.normals.Some?
      && forall k :: 0 <= k < |g.normalIndexes.value| ==>
           var t := g.normalIndexes.value[k];
           t.i1 == t.i2 == t.i3 && -1 <= t.i1 < |g.normals.value|
  }

  /** The facts that hold at every point of the facet loop. */
  predicate Kept(s: Scan)
  {
    && ReaderResult(s.result)
    && s.warnings == (if s.warned then 1 else 0)
    && RoundedCapacity(s.g.pointCapacity, |s.g.points|)
    && RoundedCapacity(s.g.triangleCapacity, |s.g.triangles|)
    && NormalsIndexed(s.g)
  }

  /** Inside the vertex loop of a clean facet: i vertices read, each in its
      slot. */
  predicate PartlyRead(s: Scan, i: nat, slots: seq<int>)
  {
    s.result.NoError? ==>
      && Shaped(s.g, i)
      && |slots| == 3
      && forall j :: 0 <= j < i && j < 3 ==> slots[j] == 3 * |s.g.triangles| + j
  }

  lemma {:induction false} FacetLaw(lines: seq<string>, s: Scan, env: Env)
    requires WellFormed(lines, s) && Kept(s) && (s.result.NoError? ==> Shaped(s.g, 0))
    ensures var r := FromFacet(lines, s, env);
      && Kept(r)
      && (r.result.NoError? ==> s.result.NoError? && Shaped(r.g, 0))
    decreases |lines| - s.pos, 5
  {
    var s1 := s.(pos := Next(lines, s.pos));
    match ParseFacetLine(LineAt(lines, s.pos), s.g.normals.Some?, s.warned, env)
    case EndOfSolid =>
    case NotAFacet =>
    case Facet(normal, warn) =>
      OuterLoopLaw(lines, s1.(warned := s.warned || warn, warnings := s.warnings + (if warn then 1 else 0)),
                   normal, env);
  }

  lemma {:induction false} OuterLoopLaw(lines: seq<string>, s: Scan, normal: Option<Point>, env: Env)
    requires WellFormed(lines, s) && Kept(s) && (s.result.NoError? ==> Shaped(s.g, 0))
    ensures var r := FromOuterLoop(lines, s, normal, env);
      && Kept(r)
      && (r.result.NoError? ==> s.result.NoError? && Shaped(r.g, 0))
    decreases |lines| - s.pos, 4
  {
    if Accepts(LineAt(lines, s.pos), "OUTER LOOP") {
      VertexLaw(lines, s.(pos := Next(lines, s.pos)), 0, Unsets(), normal, env);
    }
  }

  lemma {:induction false} VertexLaw(lines: seq<string>, s: Scan, i: nat, slots: seq<int>,
                                     normal: Option<Point>, env: Env)
    requires WellFormed(lines, s) && i <= 3 && |slots| == 3
    requires Kept(s) && PartlyRead(s, i, slots)
    ensures var r := FromVertex(lines, s, i, slots, normal, env);
      && Kept(r)
      && (r.result.NoError? ==> s.result.NoError? && Shaped(r.g, 0))
    decreases |lines| - s.pos, 3, 3 - i
  {
    if i == 3 {
      TriangleLaw(lines, s, slots, normal, env);
    } else {
      var s1 := s.(pos := Next(lines, s.pos));
      match ParseVertexLine(LineAt(lines, s.pos), env)
      case None =>
        TriangleLaw(lines, s1.(result := MalformedFile), slots, normal, env);
      case Some(pd) =>
        var (s2, slots2, outOfMemory) := TakeVertex(s1, i, slots, pd, env);
        if !outOfMemory {
          assert |s2.g.points| == |s.g.points| + 1;
          VertexLaw(lines, s2, i + 1, slots2, normal, env);
        }
    }
  }

  lemma {:induction false} TriangleLaw(lines: seq<string>, s: Scan, slots: seq<int>,
                                       normal: Option<Point>, env: Env)
    requires WellFormed(lines, s) && |slots| == 3
    requires Kept(s) && PartlyRead(s, 3, slots)
    ensures var r := FromTriangle(lines, s, slots, normal, env);
      && Kept(r)
      && (r.result.NoError? ==> s.result.NoError? && Shaped(r.g, 0))
    decreases |lines| - s.pos, 2
  {
    var t := Triangle(slots[0], slots[1], slots[2]);
    match AddFacet(s.g, t, env)
    case None =>
    case Some(g2) =>
      var g3 := AddFacetNormal(g2, normal, env);
      assert RoundedCapacity(g3.triangleCapacity, |g3.triangles|);
      if s.result.NoError? {
        var n := |s.g.triangles|;
        forall k | 0 <= k < |g3.triangles|
          ensures g3.triangles[k] == Triangle(3 * k, 3 * k + 1, 3 * k + 2)
        {
          if k < n {
            assert g3.triangles[k] == s.g.triangles[k];
          }
        }
      }
      NormalsAppended(g2, normal, env);
      EndLoopLaw(lines, s.(g := g3), env);
  }

  /** Recording a facet normal keeps every normal index in the table. */
  lemma NormalsAppended(g: Geometry, normal: Option<Point>, env: Env)
    requires (g.normals.Some? ==> g.normalIndexes.Some?) && NormalsIndexed(g)
    ensures NormalsIndexed(AddFacetNormal(g, normal, env))
  {
    var r := AddFacetNormal(g, normal, env);
    if g.normals.Some? {
      var before := g.normalIndexes.value;
      forall k | 0 <= k < |r.normalIndexes.value|
        ensures var t := r.normalIndexes.value[k]; t.i1 == t.i2 == t.i3 && -1 <= t.i1 < |r.normals.value|
      {
        if k < |before| {
          assert r.normalIndexes.value[k] == before[k];
        }
      }
    }
  }

  lemma {:induction false} EndLoopLaw(lines: seq<string>, s: Scan, env: Env)
    requires WellFormed(lines, s) && Kept(s) && (s.result.NoError? ==> Shaped(s.g, 0))
    ensures var r := FromEndLoop(lines, s, env);
      && Kept(r)
      && (r.result.NoError? ==> s.result.NoError? && Shaped(r.g, 0))
    decreases |lines| - s.pos, 1
  {
    if Accepts(LineAt(lines, s.pos), "ENDLOOP") {
      EndFacetLaw(lines, s.(pos := Next(lines, s.pos)), env);
    }
  }

  lemma {:induction false} EndFacetLaw(lines: seq<string>, s: Scan, env: Env)
    requires WellFormed(lines, s) && Kept(s) && (s.result.NoError? ==> Shaped(s.g, 0))
    ensures var r := FromEndFacet(lines, s, env);
      && Kept(r)
      && (r.result.NoError? ==> s.result.NoError? && Shaped(r.g, 0))
    decreases |lines| - s.pos, 0
  {
    var n := |s.g.triangles|;
    if Accepts(LineAt(lines, s.pos), "ENDFACET") && !(n % 1024 == 0 && env.cancelled(n)) {
      FacetLaw(lines, s.(pos := Next(lines, s.pos)), env);
    }
  }

  /** An ASCII load into the pristine mesh returns one of NoError, Reading,
      MalformedFile and NotEnoughMemory; logs the normal warning at most
      once; leaves both capacities rounded to the next 1000; leaves every
      normal index in the normal table; and, when it returns NoError, facet k
      is the triangle (3k, 3k+1, 3k+2) over a cloud of exactly three vertices
      per facet, so every triangle is valid and non-degenerate. */
  lemma AsciiLoadLaw(lines: seq<string>, g: Geometry, env: Env)
    requires Pristine(g)
    ensures var l := LoadAscii(lines, g, env);
      && ReaderResult(l.result)
      && l.last.warnings <= 1
      && RoundedCapacity(l.last.g.pointCapacity, |l.last.g.points|)
      && RoundedCapacity(l.last.g.triangleCapacity, |l.last.g.triangles|)
      && NormalsIndexed(l.last.g)
      && (l.result.NoError? ==>
            && Shaped(l.last.g, 0)
            && forall k :: 0 <= k < |l.last.g.triangles| ==>
                 InRange(l.last.g.triangles[k], |l.last.g.points|) && NonDegenerate(l.last.g.triangles[k]))
  {
    var l := LoadAscii(lines, g, env);
    if ParseSolidLine(LineAt(lines, 0)).Solid? {
      FacetLaw(lines, Start(lines, g), env);
    }
    if l.result.NoError? {
      var r := l.last.g;
      forall k | 0 <= k < |r.triangles|
        ensures InRange(r.triangles[k], |r.points|) && NonDegenerate(r.triangles[k])
      {
        assert r.triangles[k] == Triangle(3 * k, 3 * k + 1, 3 * k + 2);
      }
    }
  }

  // ---------------------------------------------------------------------
  // The first line of a facet as written

  /** ParseFacetLine as written at lines 619-627: when the token list is
      empty, the source still reads its first token. None stands for that
      out-of-range read, which happens exactly for the lines that are not
      empty but all whitespace; any other line is parsed as corrected. */
  function ParseFacetLineAsWritten(line: string, hasNormals: bool, warned: bool, env: Env): (f: Option<FacetLine>)
    ensures f.None? <==> line != "" && Blank(line)
    ensures f.Some? ==> f.value == ParseFacetLine(line, hasNormals, warned, env)
  {
    TokensEmptyIffBlank(line);
    if line != "" && Tokens(line) == [] then None
    else Some(ParseFacetLine(line, hasNormals, warned, env))
  }

  /** A line holding one space makes the as-written test read past the
      token list, while the corrected test calls it no facet. */
  lemma WhitespaceLineAsWritten(hasNormals: bool, warned: bool, env: Env)
    ensures ParseFacetLineAsWritten(" ", hasNormals, warned, env).None?
    ensures ParseFacetLine(" ", hasNormals, warned, env) == NotAFacet
  {
    assert Blank(" ");
    TokensEmptyIffBlank(" ");
  }

  /** The corrected test: a non-empty blank line is not a facet, so the load
      returns MalformedFile, as for any other line that does not start with
      'facet'. */
  lemma BlankFacetLineRejected(lines: seq<string>, s: Scan, env: Env)
    requires WellFormed(lines, s) && s.pos < |lines|
    requires lines[s.pos] != "" && Blank(lines[s.pos])
    ensures ParseFacetLine(lines[s.pos], s.g.normals.Some?, s.warned, env) == NotAFacet
    ensures FromFacet(lines, s, env).result == MalformedFile
  {
    TokensEmptyIffBlank(lines[s.pos]);
  }

  /** Lines 604-625: at an empty line (the end of the input reads as one)
      or an ENDSOLID line, the facet loop is left with the result, the
      geometry and the warnings it had; at any other line that does not
      start with FACET, it is left with MalformedFile and the geometry it
      had. */
  lemma FacetLineStops(lines: seq<string>, s: Scan, env: Env)
    requires WellFormed(lines, s)
    ensures var line := LineAt(lines, s.pos);
      var r := FromFacet(lines, s, env);
      && (line == "" || (Tokens(line) != [] && Upper(Tokens(line)[0]) == "ENDSOLID") ==>
            r.result == s.result && r.g == s.g && r.warnings == s.warnings)
      && (line != "" && (Tokens(line) == [] || (Upper(Tokens(line)[0]) != "FACET" && Upper(Tokens(line)[0]) != "ENDSOLID")) ==>
            r.result == MalformedFile && r.g == s.g && r.warnings == s.warnings)
  {
  }
}
