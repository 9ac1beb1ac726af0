/** What loadBinaryFile guarantees, proved about BinaryReader's functions:
    the codes it can return; a load that ends without error has read facets
    up to the count or up to a cancellation, three fresh vertices per facet
    and (when every short read is detected) 50 bytes per facet; each triangle
    k gets normal k; and the reader as written accepts a file whose last
    facet is cut short. */
module BinaryLaws {
  import opened StlBase
  import opened MeshModel
  import opened BinaryReader

  /** The codes the binary reader can return. A cancellation is not among
      them: it leaves the loop with NoError. */
  predicate ReaderResult(e: FileError)
  {
    e.NoError? || e.Reading? || e.NotEnoughMemory?
  }

  /** With a normal table, triangle k has normal k, stored in all three
      slots, and the table holds one normal per triangle. */
  predicate NormalPerFacet(g: Geometry)
  {
    g.normals.Some? ==>
      && |g.normals.value| == |g.triangles|
      && (g.normalIndexes.Some? ==>
            forall k :: 0 <= k < |g.normalIndexes.value| ==> g.normalIndexes.value[k] == Triangle(k, k, k))
  }

  /** The facts that hold at every point of the facet loop. */
  predicate Kept(s: BinScan)
  {
    && ReaderResult(s.result)
    && RoundedCapacity(s.g.pointCapacity, |s.g.points|)
    && NormalPerFacet(s.g)
  }

  /** At the start of a clean facet f: f facets of three vertices read and,
      when every short read is detected, f records of 50 bytes after base. */
  predicate AtFacet(s: BinScan, f: nat, base: nat, strict: bool)
  {
    s.result.NoError? ==> Shaped(s.g, 0) && (strict ==> s.pos == base + FacetSize * f)
  }

  /** Before vertex i of a clean facet f: its normal and i vertices read,
      each vertex in its slot. */
  predicate AtVertex(s: BinScan, f: nat, i: nat, slots: seq<int>, base: nat, strict: bool)
  {
    s.result.NoError? ==>
      && Shaped(s.g, i)
      && |slots| == 3
      && (forall j :: 0 <= j < i && j < 3 ==> slots[j] == 3 * f + j)
      && (strict ==> s.pos == base + FacetSize * f + 12 + 12 * i)
  }

  /** How the facet loop ends without error: every facet read, or a
      cancellation after the last one stored. */
  predicate Finished(r: BinScan, count: nat, env: Env)
  {
    |r.g.triangles| == count || env.cancelled(|r.g.triangles|)
  }

  /** How the facet loop is left from a state whose result was clean or
      not: with the facts kept and, without error, only from a clean state,
      finished, with every facet read in full. */
  predicate Outcome(r: BinScan, clean: bool, count: nat, base: nat, strict: bool, env: Env)
  {
    && Kept(r)
    && (r.result.NoError? ==> clean && Finished(r, count, env) && AtFacet(r, |r.g.triangles|, base, strict))
  }

  lemma {:induction false} FacetLaw(data: seq<byte>, s: BinScan, f: nat, count: nat, base: nat,
                                    strict: bool, env: Env)
    requires WellFormed(data, s, f, count) && Kept(s) && AtFacet(s, f, base, strict)
    ensures var r := FromFacet(data, s, f, count, strict, env);
      Outcome(r, s.result.NoError?, count, base, strict, env)
    decreases count - f, 2
  {
    if f < count {
      var normalBytes := Read(data, s.pos, 12);
      if |normalBytes| == 12 {
        VertexLaw(data, s.(pos := s.pos + 12), f, count, 0, [Unset, Unset, Unset],
                  DecodePoint(normalBytes, env), base, strict, env);
      }
    }
  }

  lemma {:induction false} VertexLaw(data: seq<byte>, s: BinScan, f: nat, count: nat, i: nat, slots: seq<int>,
                                     normal: Point, base: nat, strict: bool, env: Env)
    requires WellFormed(data, s, f, count) && f < count && i <= 3 && |slots| == 3
    requires Kept(s) && AtVertex(s, f, i, slots, base, strict)
    ensures var r := FromVertex(data, s, f, count, i, slots, normal, strict, env);
      Outcome(r, s.result.NoError?, count, base, strict, env)
    decreases count - f, 1, 3 - i, 2
  {
    if i == 3 {
      EndLaw(data, s, f, count, slots, normal, base, strict, env);
    } else {
      VertexCase(data, s, f, count, i, slots, normal, base, strict, env);
    }
  }

  /** Vertex i < 3: a detected short read, a cloud that cannot grow, or a
      stored vertex followed by the next one. */
  lemma {:induction false} VertexCase(data: seq<byte>, s: BinScan, f: nat, count: nat, i: nat, slots: seq<int>,
                                      normal: Point, base: nat, strict: bool, env: Env)
    requires WellFormed(data, s, f, count) && f < count && i < 3 && |slots| == 3
    requires Kept(s) && AtVertex(s, f, i, slots, base, strict)
    ensures var r := FromVertex(data, s, f, count, i, slots, normal, strict, env);
      Outcome(r, s.result.NoError?, count, base, strict, env)
    decreases count - f, 1, 3 - i, 1
  {
    var bytes := Read(data, s.pos, 12);
    var v := TakeVertex(s.(pos := s.pos + |bytes|), i, slots, DecodePoint(Padded(bytes, 12), env), env);
    if strict && |bytes| < 12 {
      VertexShort(data, s, f, count, i, slots, normal, base, strict, env);
    } else if v.2 {
      VertexFull(data, s, f, count, i, slots, normal, base, strict, env);
    } else {
      VertexOn(data, s, f, count, i, slots, normal, base, strict, env);
    }
  }

  /** A detected short vertex read ends the loop with Reading. */
  lemma VertexShort(data: seq<byte>, s: BinScan, f: nat, count: nat, i: nat, slots: seq<int>,
                    normal: Point, base: nat, strict: bool, env: Env)
    requires WellFormed(data, s, f, count) && f < count && i < 3 && |slots| == 3 && Kept(s)
    requires strict && |Read(data, s.pos, 12)| < 12
    ensures var r := FromVertex(data, s, f, count, i, slots, normal, strict, env);
      Outcome(r, s.result.NoError?, count, base, strict, env)
  {
    var s1 := s.(pos := s.pos + |Read(data, s.pos, 12)|);
    VertexUnfold(data, s, f, count, i, slots, normal, strict, env);
    Stopped(s1.(result := Reading), s.result.NoError?, count, base, strict, env);
    SameOutcome(FromVertex(data, s, f, count, i, slots, normal, strict, env), s1.(result := Reading),
                s.result.NoError?, count, base, strict, env);
  }

  /** A cloud that cannot grow ends the loop with NotEnoughMemory. */
  lemma VertexFull(data: seq<byte>, s: BinScan, f: nat, count: nat, i: nat, slots: seq<int>,
                   normal: Point, base: nat, strict: bool, env: Env)
    requires WellFormed(data, s, f, count) && f < count && i < 3 && |slots| == 3
    requires Kept(s) && AtVertex(s, f, i, slots, base, strict)
    requires !(strict && |Read(data, s.pos, 12)| < 12)
    requires TakeVertex(s.(pos := s.pos + |Read(data, s.pos, 12)|), i, slots,
                        DecodePoint(Padded(Read(data, s.pos, 12), 12), env), env).2
    ensures var r := FromVertex(data, s, f, count, i, slots, normal, strict, env);
      Outcome(r, s.result.NoError?, count, base, strict, env)
  {
    var bytes := Read(data, s.pos, 12);
    var v := TakeVertex(s.(pos := s.pos + |bytes|), i, slots, DecodePoint(Padded(bytes, 12), env), env);
    VertexUnfold(data, s, f, count, i, slots, normal, strict, env);
    VertexStored(data, s, f, count, i, slots, base, strict, env);
    Stopped(v.0.(result := NotEnoughMemory), s.result.NoError?, count, base, strict, env);
    SameOutcome(FromVertex(data, s, f, count, i, slots, normal, strict, env), v.0.(result := NotEnoughMemory),
                s.result.NoError?, count, base, strict, env);
  }

  /** A stored vertex leads to the next one: the facts are kept, and the
      outcome from this vertex is the outcome from the next one. */
  lemma {:induction false} VertexOn(data: seq<byte>, s: BinScan, f: nat, count: nat, i: nat, slots: seq<int>,
                                    normal: Point, base: nat, strict: bool, env: Env)
    requires WellFormed(data, s, f, count) && f < count && i < 3 && |slots| == 3
    requires Kept(s) && AtVertex(s, f, i, slots, base, strict)
    requires !(strict && |Read(data, s.pos, 12)| < 12)
    requires !TakeVertex(s.(pos := s.pos + |Read(data, s.pos, 12)|), i, slots,
                         DecodePoint(Padded(Read(data, s.pos, 12), 12), env), env).2
    ensures var r := FromVertex(data, s, f, count, i, slots, normal, strict, env);
      Outcome(r, s.result.NoError?, count, base, strict, env)
    decreases count - f, 1, 3 - i, 0
  {
    var v := TakeVertex(s.(pos := s.pos + |Read(data, s.pos, 12)|), i, slots,
                        DecodePoint(Padded(Read(data, s.pos, 12), 12), env), env);
    VertexStored(data, s, f, count, i, slots, base, strict, env);
    UnfoldNext(data, s, f, count, i, slots, normal, strict, env);
    VertexLaw(data, v.0, f, count, i + 1, v.1, normal, base, strict, env);
  }

  /** The step of FromVertex from a stored vertex i < 3 to the next. */
  lemma UnfoldNext(data: seq<byte>, s: BinScan, f: nat, count: nat, i: nat, slots: seq<int>,
                   normal: Point, strict: bool, env: Env)
    requires WellFormed(data, s, f, count) && f < count && i < 3 && |slots| == 3
    requires !(strict && |Read(data, s.pos, 12)| < 12)
    requires !TakeVertex(s.(pos := s.pos + |Read(data, s.pos, 12)|), i, slots,
                         DecodePoint(Padded(Read(data, s.pos, 12), 12), env), env).2
    ensures var v := TakeVertex(s.(pos := s.pos + |Read(data, s.pos, 12)|), i, slots,
                                DecodePoint(Padded(Read(data, s.pos, 12), 12), env), env);
      && v.0.result == s.result
      && WellFormed(data, v.0, f, count)
      && FromVertex(data, s, f, count, i, slots, normal, strict, env)
         == FromVertex(data, v.0, f, count, i + 1, v.1, normal, strict, env)
  {
  }

  /** Equal states have the same outcome. */
  lemma SameOutcome(r: BinScan, r2: BinScan, clean: bool, count: nat, base: nat, strict: bool, env: Env)
    requires r == r2 && Outcome(r2, clean, count, base, strict, env)
    ensures Outcome(r, clean, count, base, strict, env)
  {
  }

  /** One step of FromVertex for a vertex i < 3. */
  lemma VertexUnfold(data: seq<byte>, s: BinScan, f: nat, count: nat, i: nat, slots: seq<int>,
                     normal: Point, strict: bool, env: Env)
    requires WellFormed(data, s, f, count) && f < count && i < 3 && |slots| == 3
    ensures var bytes := Read(data, s.pos, 12);
      var s1 := s.(pos := s.pos + |bytes|);
      var v := TakeVertex(s1, i, slots, DecodePoint(Padded(bytes, 12), env), env);
      && (strict && |bytes| < 12 ==> FromVertex(data, s, f, count, i, slots, normal, strict, env) == s1.(result := Reading))
      && (!(strict && |bytes| < 12) && v.2 ==>
            FromVertex(data, s, f, count, i, slots, normal, strict, env) == v.0.(result := NotEnoughMemory))
      && (!(strict && |bytes| < 12) && !v.2 ==>
            && WellFormed(data, v.0, f, count)
            && FromVertex(data, s, f, count, i, slots, normal, strict, env)
               == FromVertex(data, v.0, f, count, i + 1, v.1, normal, strict, env))
  {
  }

  /** A loop left with an error and the facts kept has the outcome the
      laws promise, whatever the state it was left from. */
  lemma Stopped(r: BinScan, clean: bool, count: nat, base: nat, strict: bool, env: Env)
    requires Kept(r) && !r.result.NoError?
    ensures Outcome(r, clean, count, base, strict, env)
  {
  }

  /** The state after vertex i of facet f is read and stored. */
  lemma VertexStored(data: seq<byte>, s: BinScan, f: nat, count: nat, i: nat, slots: seq<int>,
                     base: nat, strict: bool, env: Env)
    requires WellFormed(data, s, f, count) && f < count && i < 3 && |slots| == 3
    requires Kept(s) && AtVertex(s, f, i, slots, base, strict)
    requires !(strict && |Read(data, s.pos, 12)| < 12)
    ensures var bytes := Read(data, s.pos, 12);
      var s1 := s.(pos := s.pos + |bytes|);
      var r := TakeVertex(s1, i, slots, DecodePoint(Padded(bytes, 12), env), env);
      && WellFormed(data, r.0, f, count) && Kept(r.0)
      && (!r.2 ==> AtVertex(r.0, f, i + 1, r.1, base, strict))
  {
    var bytes := Read(data, s.pos, 12);
    var s1 := s.(pos := s.pos + |bytes|);
    StoreVertexRounded(s1.g, s1.shift, DecodePoint(Padded(bytes, 12), env), env);
  }

  /** Storing a vertex keeps the cloud's capacity rounded. */
  lemma StoreVertexRounded(g: Geometry, shift: Point, pd: Point, env: Env)
    requires |g.points| <= g.pointCapacity && RoundedCapacity(g.pointCapacity, |g.points|)
    ensures var r := StoreVertex(g, shift, pd, env);
      RoundedCapacity(r.g.pointCapacity, |r.g.points|)
  {
  }

  lemma {:induction false} EndLaw(data: seq<byte>, s: BinScan, f: nat, count: nat, slots: seq<int>,
                                  normal: Point, base: nat, strict: bool, env: Env)
    requires WellFormed(data, s, f, count) && f < count && |slots| == 3
    requires Kept(s) && AtVertex(s, f, 3, slots, base, strict)
    ensures var r := FromEnd(data, s, f, count, slots, normal, strict, env);
      Outcome(r, s.result.NoError?, count, base, strict, env)
    decreases count - f, 0
  {
    var attribute := Read(data, s.pos, 2);
    var s1 := s.(pos := s.pos + |attribute|);
    if !(strict && |attribute| < 2) {
      var t := Triangle(slots[0], slots[1], slots[2]);
      var s2 := s1.(g := AddFacetNormal(s1.g.(triangles := s1.g.triangles + [t]), Some(normal), env));
      EndStored(data, s, f, count, slots, normal, base, strict, env);
      if !env.cancelled(f + 1) {
        FacetLaw(data, s2, f + 1, count, base, strict, env);
      }
    }
  }

  /** The state after the attribute bytes of a facet that is stored. */
  lemma EndStored(data: seq<byte>, s: BinScan, f: nat, count: nat, slots: seq<int>,
                  normal: Point, base: nat, strict: bool, env: Env)
    requires WellFormed(data, s, f, count) && f < count && |slots| == 3
    requires Kept(s) && AtVertex(s, f, 3, slots, base, strict)
    requires !(strict && |Read(data, s.pos, 2)| < 2)
    ensures var s1 := s.(pos := s.pos + |Read(data, s.pos, 2)|);
      var t := Triangle(slots[0], slots[1], slots[2]);
      var s2 := s1.(g := AddFacetNormal(s1.g.(triangles := s1.g.triangles + [t]), Some(normal), env));
      && WellFormed(data, s2, f + 1, count) && Kept(s2) && AtFacet(s2, f + 1, base, strict)
  {
    FacetStored(s.g, f, slots, normal, s.result.NoError?, env);
  }

  /** Adding facet f with its three vertices and its normal keeps one normal
      per facet and, for a clean facet, the three-vertices-per-facet shape. */
  lemma FacetStored(g: Geometry, f: nat, slots: seq<int>, normal: Point, clean: bool, env: Env)
    requires |g.triangles| == f && |slots| == 3
    requires (g.normals.Some? ==> g.normalIndexes.Some? && |g.normalIndexes.value| == f) && NormalPerFacet(g)
    requires clean ==> Shaped(g, 3) && forall j :: 0 <= j < 3 ==> slots[j] == 3 * f + j
    ensures var g2 := AddFacetNormal(g.(triangles := g.triangles + [Triangle(slots[0], slots[1], slots[2])]),
                                     Some(normal), env);
      && NormalPerFacet(g2)
      && (clean ==> Shaped(g2, 0))
  {
    var g1 := g.(triangles := g.triangles + [Triangle(slots[0], slots[1], slots[2])]);
    var g2 := AddFacetNormal(g1, Some(normal), env);
    if g2.normals.Some? {
      forall k | 0 <= k < |g2.normalIndexes.value|
        ensures g2.normalIndexes.value[k] == Triangle(k, k, k)
      {
        if k < f {
          assert g2.normalIndexes.value[k] == g.normalIndexes.value[k];
        }
      }
    }
    if clean {
      forall k | 0 <= k < |g2.triangles|
        ensures g2.triangles[k] == Triangle(3 * k, 3 * k + 1, 3 * k + 2)
      {
        if k < f {
          assert g2.triangles[k] == g.triangles[k];
        }
      }
    }
  }

  /** A binary load into the pristine mesh, by the reader as written
      (strict = false) or the corrected one, returns NoError, Reading or
      NotEnoughMemory and keeps the cloud's capacity rounded to the next
      1000. With a normal table, triangle k has normal k. When it returns
      NoError, it has read every facet of the count or stopped at a
      cancellation, and facet k is the triangle (3k, 3k+1, 3k+2) over a
      cloud of three vertices per facet; the corrected reader has then also
      found the header, the count and 50 bytes for each facet in the file. */
  lemma BinaryLoadLaw(data: seq<byte>, g: Geometry, strict: bool, env: Env)
    requires Pristine(g)
    ensures var l := LoadBinaryWith(data, g, strict, env);
      && ReaderResult(l.result)
      && RoundedCapacity(l.last.g.pointCapacity, |l.last.g.points|)
      && NormalPerFacet(l.last.g)
      && (l.result.NoError? ==>
            && Finished(l.last, l.count, env)
            && Shaped(l.last.g, 0)
            && (strict ==> |data| >= HeaderSize + CountSize + FacetSize * |l.last.g.triangles|))
  {
    var l := LoadBinaryWith(data, g, strict, env);
    var pos := if |data| < HeaderSize then |data| else HeaderSize;
    var countBytes := Read(data, pos, CountSize);
    if |countBytes| == CountSize {
      var count := U32(countBytes);
      var r := ReserveFacets(g, count, env);
      if r.Some? {
        assert pos == HeaderSize;
        FacetLaw(data, BinScan(pos + CountSize, NoError, Origin, r.value), 0, count,
                 HeaderSize + CountSize, strict, env);
      }
    }
  }

  // ---------------------------------------------------------------------
  // A truncated last facet

  /** An 80-byte header, the count 1, and the 12 bytes of one normal: the
      file ends before the facet's vertices. */
  function TruncatedFile(): (data: seq<byte>)
    ensures |data| == HeaderSize + CountSize + 12
  {
    seq(HeaderSize, _ => 0) + [1, 0, 0, 0] + seq(12, _ => 0)
  }

  /** Past the end of the file, the reader as written still stores the
      remaining vertices of the last facet (zeros, in the model) and the
      facet itself, as long as the cloud can grow. */
  lemma {:induction false} VerticesPastEnd(data: seq<byte>, s: BinScan, f: nat, count: nat, i: nat,
                                           slots: seq<int>, normal: Point, env: Env)
    requires WellFormed(data, s, f, count) && f + 1 == count && i <= 3 && |slots| == 3
    requires s.pos == |data|
    requires || s.g.pointCapacity >= |s.g.points| + 3 - i
             || (s.g.pointCapacity == |s.g.points| && env.grants(PointBuffer, |s.g.points| + 1000))
    ensures var r := FromVertex(data, s, f, count, i, slots, normal, false, env);
      r.result == s.result && |r.g.triangles| == count
    decreases 3 - i
  {
    if i == 3 {
      assert Read(data, s.pos, 2) == [];
      var t := Triangle(slots[0], slots[1], slots[2]);
      var s2 := s.(g := AddFacetNormal(s.g.(triangles := s.g.triangles + [t]), Some(normal), env));
      assert FromVertex(data, s, f, count, i, slots, normal, false, env)
          == FromEnd(data, s, f, count, slots, normal, false, env);
      if !env.cancelled(f + 1) {
        assert FromEnd(data, s, f, count, slots, normal, false, env) == FromFacet(data, s2, count, count, false, env);
      }
    } else {
      assert Read(data, s.pos, 12) == [];
      var (s2, slots2, outOfMemory) := TakeVertex(s, i, slots, DecodePoint(Padded([], 12), env), env);
      assert !outOfMemory;
      VerticesPastEnd(data, s2, f, count, i + 1, slots2, normal, env);
    }
  }

  /** The count and the normal of the truncated file. */
  lemma TruncatedBytes()
    ensures var data := TruncatedFile();
      Read(data, HeaderSize, CountSize) == [1, 0, 0, 0] && Read(data, HeaderSize + CountSize, 12) == data[HeaderSize + CountSize..]
  {
    var data := TruncatedFile();
    assert data[HeaderSize..HeaderSize + CountSize] == [1, 0, 0, 0];
  }

  /** The file of one facet that ends after the normal brings both readers
      to the first facet, past the header and the count 1. */
  lemma TruncatedStart(g: Geometry, strict: bool, env: Env)
    requires Pristine(g) && env.grants(TriangleBuffer, 1)
    ensures var data := TruncatedFile();
      var g1 := ReserveFacets(g, 1, env).value;
      var last := FromFacet(data, BinScan(HeaderSize + CountSize, NoError, Origin, g1), 0, 1, strict, env);
      && WellFormed(data, BinScan(HeaderSize + CountSize, NoError, Origin, g1), 0, 1)
      && g1.points == [] && g1.pointCapacity == 0
      && LoadBinaryWith(data, g, strict, env) == BinaryLoad(last.result, last, 1)
  {
    TruncatedBytes();
    assert U32([1, 0, 0, 0]) == 1;
  }

  /** Both readers reach the first vertex of the truncated file at its end,
      s, with the normal read and a cloud of no room yet. */
  lemma TruncatedFirstVertex(g: Geometry, strict: bool, env: Env) returns (s: BinScan, normal: Point)
    requires Pristine(g) && env.grants(TriangleBuffer, 1)
    ensures var data := TruncatedFile();
      var l := LoadBinaryWith(data, g, strict, env);
      && WellFormed(data, s, 0, 1) && s.pos == |data| && s.result == NoError
      && s.g.points == [] && s.g.pointCapacity == 0
      && l.result == l.last.result
      && l.last == FromVertex(data, s, 0, 1, 0, [Unset, Unset, Unset], normal, strict, env)
  {
    var data := TruncatedFile();
    var g1 := ReserveFacets(g, 1, env).value;
    s := BinScan(|data|, NoError, Origin, g1);
    normal := DecodePoint(data[HeaderSize + CountSize..], env);
    TruncatedStart(g, strict, env);
    TruncatedBytes();
    assert FromFacet(data, BinScan(HeaderSize + CountSize, NoError, Origin, g1), 0, 1, strict, env)
        == FromVertex(data, s, 0, 1, 0, [Unset, Unset, Unset], normal, strict, env);
  }

  /** As written, the file of one facet that ends after the normal loads
      without error, with one triangle over three vertices read past the end
      of the file. (The load is made with an allocator that grants the facet
      and the first vertices.) */
  lemma TruncatedFacetAsWritten(g: Geometry, env: Env)
    requires Pristine(g)
    requires env.grants(TriangleBuffer, 1) && env.grants(PointBuffer, 1000)
    ensures var l := LoadBinaryAsWritten(TruncatedFile(), g, env);
      l.result == NoError && |l.last.g.triangles| == 1
  {
    var s, normal := TruncatedFirstVertex(g, false, env);
    PastEndFromFirst(TruncatedFile(), s, normal, env);
  }

  /** The reader as written, at the end of a file before the first vertex of
      its only facet, stores the facet without error. */
  lemma PastEndFromFirst(data: seq<byte>, s: BinScan, normal: Point, env: Env)
    requires WellFormed(data, s, 0, 1) && s.pos == |data| && s.result == NoError
    requires s.g.points == [] && s.g.pointCapacity == 0 && env.grants(PointBuffer, 1000)
    ensures var r := FromVertex(data, s, 0, 1, 0, [Unset, Unset, Unset], normal, false, env);
      r.result == NoError && |r.g.triangles| == 1
  {
    VerticesPastEnd(data, s, 0, 1, 0, [Unset, Unset, Unset], normal, env);
  }

  /** The corrected reader returns Reading for the same file: the first
      vertex read comes back empty. */
  lemma TruncatedFacetRejected(g: Geometry, env: Env)
    requires Pristine(g) && env.grants(TriangleBuffer, 1)
    ensures LoadBinary(TruncatedFile(), g, env).result == Reading
  {
    var s, normal := TruncatedFirstVertex(g, true, env);
    assert Read(TruncatedFile(), s.pos, 12) == [];
  }
}
