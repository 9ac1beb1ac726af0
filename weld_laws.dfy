/** What the duplicate-vertex removal promises: vertices share an index in
    the new cloud exactly when the tagging fused them, the new cloud holds
    each root's point at that index, the surviving triangles index the new
    cloud and are non-degenerate, and the corrected compaction keeps the
    global coordinates. Also the two defects of the compaction as written. */
module WeldLaws {
  import opened StlBase
  import opened MeshModel
  import opened Compaction

  /** A root adds one to the count of the roots before it. */
  lemma RootCounted(t: seq<int>, r: nat)
    requires r < |t| && t[r] == r
    ensures RootsBefore(t, r) < RootsBefore(t, |t|)
  {
    assert RootsBefore(t, r + 1) == RootsBefore(t, r) + 1;
    RootsBeforeGrows(t, r + 1, |t|);
  }

  /** Roots are numbered in their original order (line 432). */
  lemma RanksOrdered(t: seq<int>, x: nat, y: nat)
    requires x < y < |t| && t[x] == x
    ensures RootsBefore(t, x) < RootsBefore(t, y)
  {
    assert RootsBefore(t, x + 1) == RootsBefore(t, x) + 1;
    RootsBeforeGrows(t, x + 1, y);
  }

  /** Two vertices get the same index in the new cloud exactly when they
      were tagged with the same root, and every new index is within the new
      cloud. */
  lemma FusedIffSameRoot(t: seq<int>, x: nat, y: nat)
    requires Rooted(t) && x < |t| && y < |t|
    ensures NewIndex(t, x) < RootsBefore(t, |t|)
    ensures (NewIndex(t, x) == NewIndex(t, y)) <==> (t[x] == t[y])
  {
    RootCounted(t, t[x]);
    if t[x] < t[y] {
      RanksOrdered(t, t[x], t[y]);
    } else if t[y] < t[x] {
      RanksOrdered(t, t[y], t[x]);
    }
  }

  /** The numbering leaves no gap: every index of the new cloud is some
      root's rank. */
  lemma {:induction false} RanksDense(t: seq<int>, i: nat, k: nat)
    requires i <= |t| && k < RootsBefore(t, i)
    ensures exists r :: 0 <= r < i && t[r] == r && RootsBefore(t, r) == k
  {
    if k < RootsBefore(t, i - 1) {
      RanksDense(t, i - 1, k);
    } else {
      assert t[i - 1] == i - 1 && RootsBefore(t, i - 1) == k;
    }
  }

  /** The copy loop puts each root's point at the root's rank. */
  lemma {:induction false} RootPointsAt(t: seq<int>, points: seq<Point>, i: nat, x: nat)
    requires |points| == |t| && x < i <= |t| && t[x] == x
    ensures RootsBefore(t, x) < |RootPoints(t, points, i)|
    ensures RootPoints(t, points, i)[RootsBefore(t, x)] == points[x]
  {
    if x < i - 1 {
      RootPointsAt(t, points, i - 1, x);
      RanksOrdered(t, x, i - 1);
    }
  }

  /** When the new cloud is used, it has one point per root, no more than
      the loaded cloud, and every vertex's new index holds its root's
      point. */
  lemma WeldPoints(g: Geometry, t: seq<int>, corrected: bool)
    requires Rooted(t) && |t| == |g.points| && AllInRange(g.triangles, |t|)
    requires g.normalIndexes.Some? ==> |g.normalIndexes.value| == |g.triangles|
    requires Count(Keeps(RewriteAll(t, g.triangles))) > 0
    ensures var r := Weld(g, t, true, corrected);
      && |r.points| == r.pointCapacity == RootsBefore(t, |t|) <= |g.points|
      && forall x :: 0 <= x < |t| ==> NewIndex(t, x) < |r.points| && r.points[NewIndex(t, x)] == g.points[t[x]]
  {
    var r := Weld(g, t, true, corrected);
    forall x | 0 <= x < |t|
      ensures NewIndex(t, x) < |r.points| && r.points[NewIndex(t, x)] == g.points[t[x]]
    {
      assert t[t[x]] == t[x];
      RootPointsAt(t, g.points, |t|, t[x]);
    }
  }

  /** Every rewritten triangle indexes the new cloud. */
  lemma RewrittenInRange(t: seq<int>, triangles: seq<Triangle>)
    requires Rooted(t) && AllInRange(triangles, |t|)
    ensures AllInRange(RewriteAll(t, triangles), RootsBefore(t, |t|))
  {
    forall k | 0 <= k < |triangles|
      ensures InRange(RewriteAll(t, triangles)[k], RootsBefore(t, |t|))
    {
      RewriteAllAt(t, triangles, k);
      var tri := triangles[k];
      FusedIffSameRoot(t, tri.i1, tri.i1);
      FusedIffSameRoot(t, tri.i2, tri.i2);
      FusedIffSameRoot(t, tri.i3, tri.i3);
    }
  }

  /** Every triangle is within the cloud of n points and has three
      distinct indexes. */
  predicate AllSound(triangles: seq<Triangle>, n: nat)
  {
    forall k :: 0 <= k < |triangles| ==> InRange(triangles[k], n) && NonDegenerate(triangles[k])
  }

  /** The selected elements are among those whose flag is set. */
  lemma {:induction false} SelectSound(xs: seq<Triangle>, keep: seq<bool>, n: nat)
    requires |xs| == |keep| && AllInRange(xs, n)
    requires forall k :: 0 <= k < |xs| && keep[k] ==> NonDegenerate(xs[k])
    ensures AllSound(Select(xs, keep), n)
  {
    if xs != [] {
      var m := |xs| - 1;
      SelectSound(xs[..m], keep[..m], n);
    }
  }

  /** The welded mesh has one triangle per surviving triangle, each within
      the new cloud and non-degenerate, with the per-triangle normal
      indexes cut to the same length. */
  lemma WeldTriangles(g: Geometry, t: seq<int>, corrected: bool)
    requires Rooted(t) && |t| == |g.points| && AllInRange(g.triangles, |t|)
    requires g.normalIndexes.Some? ==> |g.normalIndexes.value| == |g.triangles|
    requires Count(Keeps(RewriteAll(t, g.triangles))) > 0
    ensures var r := Weld(g, t, true, corrected);
      && |r.triangles| == r.triangleCapacity <= |g.triangles|
      && AllSound(r.triangles, |r.points|)
      && (r.normalIndexes.Some? ==> |r.normalIndexes.value| == |r.triangles|)
  {
    var rewritten := RewriteAll(t, g.triangles);
    var keep := Keeps(rewritten);
    RewrittenInRange(t, g.triangles);
    forall k | 0 <= k < |rewritten| && keep[k]
      ensures NonDegenerate(rewritten[k])
    {
      KeepsAt(rewritten, k);
    }
    SelectSound(rewritten, keep, RootsBefore(t, |t|));
  }

  /** Two vertices fused by the tagging share one corner index in every
      rewritten triangle, and a triangle survives only when its three
      corners lie on three distinct roots. */
  lemma SurvivesIffDistinctRoots(t: seq<int>, triangles: seq<Triangle>, k: nat)
    requires Rooted(t) && AllInRange(triangles, |t|) && k < |triangles|
    ensures var tri := triangles[k];
      Keeps(RewriteAll(t, triangles))[k] <==> (t[tri.i1] != t[tri.i2] && t[tri.i1] != t[tri.i3] && t[tri.i2] != t[tri.i3])
  {
    var tri := triangles[k];
    RewriteAllAt(t, triangles, k);
    KeepsAt(RewriteAll(t, triangles), k);
    FusedIffSameRoot(t, tri.i1, tri.i2);
    FusedIffSameRoot(t, tri.i1, tri.i3);
    FusedIffSameRoot(t, tri.i2, tri.i3);
  }

  // ---------------------------------------------------------------------
  // The collapse case (lines 472-477)

  /** When the new cloud is used, every corner of a rewritten triangle
      holds, in the new cloud, the point of its original corner's root. */
  lemma RewrittenCorners(g: Geometry, t: seq<int>, corrected: bool, k: nat)
    requires Rooted(t) && |t| == |g.points| && AllInRange(g.triangles, |t|)
    requires g.normalIndexes.Some? ==> |g.normalIndexes.value| == |g.triangles|
    requires Count(Keeps(RewriteAll(t, g.triangles))) > 0 && k < |g.triangles|
    ensures var r := Weld(g, t, true, corrected);
      var w := RewriteAll(t, g.triangles)[k];
      var tri := g.triangles[k];
      && InRange(w, |r.points|)
      && r.points[w.i1] == g.points[t[tri.i1]]
      && r.points[w.i2] == g.points[t[tri.i2]]
      && r.points[w.i3] == g.points[t[tri.i3]]
  {
    RewriteAllAt(t, g.triangles, k);
    var tri := g.triangles[k];
    assert InRange(tri, |t|);
    WeldPoints(g, t, corrected);
  }

  /** The corrected compaction either leaves the loaded geometry as it was
      or replaces the cloud and the triangles together, so that the
      rewritten triangles always index the cloud they were rewritten for. */
  lemma WeldConsistent(g: Geometry, t: seq<int>, granted: bool)
    requires Rooted(t) && |t| == |g.points| && AllInRange(g.triangles, |t|)
    requires g.normalIndexes.Some? ==> |g.normalIndexes.value| == |g.triangles|
    ensures var r := Weld(g, t, granted, true);
      var rewritten := RewriteAll(t, g.triangles);
      || r == g
      || (r.points == RootPoints(t, g.points, |t|) && r.triangles == Select(rewritten, Keeps(rewritten)))
  {
  }

  /** Four points on the x axis. */
  function Axis(): seq<Point>
  {
    [Point(0.0, 0.0, 0.0), Point(1.0, 0.0, 0.0), Point(2.0, 0.0, 0.0), Point(3.0, 0.0, 0.0)]
  }

  /** As written, a mesh whose only triangle collapses keeps the loaded
      cloud but the triangle's rewritten indexes: vertices 0 and 1 are fused
      with root 0, vertices 2 and 3 with root 2, so triangle (0, 1, 3)
      becomes (0, 0, 1), whose third corner now names vertex 1 of the loaded
      cloud instead of a point fused with vertex 3. */
  lemma CollapseAsWritten()
    ensures var g := Geometry(Axis(), 4, Origin, [Triangle(0, 1, 3)], 1, None, None);
      var t := [0, 0, 2, 2];
      && Rooted(t) && AllInRange(g.triangles, |t|)
      && var r := Weld(g, t, true, false);
      && r != g
      && r.triangles == [Triangle(0, 0, 1)]
      && r.points[r.triangles[0].i3] != g.points[t[g.triangles[0].i3]]
  {
    var g := Geometry(Axis(), 4, Origin, [Triangle(0, 1, 3)], 1, None, None);
    var t := [0, 0, 2, 2];
    assert RootsBefore(t, 2) == 1;
    assert RewriteAll(t, g.triangles) == [Triangle(0, 0, 1)];
    assert Keeps([Triangle(0, 0, 1)]) == [false];
  }

  // ---------------------------------------------------------------------
  // The global shift of the new cloud (lines 439 and 512)

  /** Corrected, every vertex keeps its global coordinates (the local
      point minus the cloud's shift) through the compaction. */
  lemma WeldKeepsGlobal(g: Geometry, t: seq<int>, granted: bool)
    requires Rooted(t) && |t| == |g.points| && AllInRange(g.triangles, |t|)
    requires g.normalIndexes.Some? ==> |g.normalIndexes.value| == |g.triangles|
    ensures var r := Weld(g, t, granted, true);
      forall x :: 0 <= x < |t| ==>
        var y := if r == g then t[x] else NewIndex(t, x);
        y < |r.points| && Sub(r.points[y], r.globalShift) == Sub(g.points[t[x]], g.globalShift)
  {
    var r := Weld(g, t, granted, true);
    if granted && Count(Keeps(RewriteAll(t, g.triangles))) > 0 {
      WeldPoints(g, t, true);
    }
  }

  /** As written, a shifted cloud welded without fusing anything comes out
      with no shift, so every global coordinate moves by the shift. */
  lemma ShiftAsWritten()
    ensures var g := Geometry(Axis()[..3], 3, Point(100.0, 0.0, 0.0), [Triangle(0, 1, 2)], 1, None, None);
      var t := [0, 1, 2];
      && Rooted(t) && AllInRange(g.triangles, |t|)
      && var r := Weld(g, t, true, false);
      && r.points == g.points
      && r.globalShift == Origin != g.globalShift
      && Sub(r.points[0], r.globalShift) != Sub(g.points[0], g.globalShift)
  {
    var g := Geometry(Axis()[..3], 3, Point(100.0, 0.0, 0.0), [Triangle(0, 1, 2)], 1, None, None);
    var t := [0, 1, 2];
    assert RootsBefore(t, 2) == 2;
    assert RewriteAll(t, g.triangles) == [Triangle(0, 1, 2)];
    assert Keeps([Triangle(0, 1, 2)]) == [true];
    assert RootPoints(t, g.points, 3) == g.points;
  }
}
