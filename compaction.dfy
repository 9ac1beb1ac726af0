/** The duplicate-vertex removal of loadFile (lines 402-517), once the
    equivalence table is filled: roots are renumbered densely in their
    original order (offset by the vertex count), the root points are copied
    into a new cloud, every other entry is redirected to its root's new
    index, the triangles are rewritten in place and the degenerate ones are
    swapped out of a kept prefix, and the mesh is resized to that prefix and
    given the new cloud. When no triangle survives the new cloud is dropped.
    `corrected` selects the loader as written (false) or with the two
    defects listed in the README fixed (true): the collapse case keeps the
    triangles already rewritten, and the new cloud loses the global shift. */
module Compaction {
  import opened StlBase
  import opened MeshModel

  /** The number of roots (entries tagged with themselves) among the first
      i entries of the table. */
  function RootsBefore(t: seq<int>, i: nat): (r: nat)
    requires i <= |t|
    ensures r <= i
  {
    if i == 0 then 0 else RootsBefore(t, i - 1) + (if t[i - 1] == i - 1 then 1 else 0)
  }

  /** The table the compaction expects from the tagging (the assert at line
      429 and the redirection at line 449): every entry is tagged and points
      straight at a root. */
  predicate Rooted(t: seq<int>)
  {
    forall x :: 0 <= x < |t| ==> 0 <= t[x] < |t| && t[t[x]] == t[x]
  }

  /** The index of vertex x in the new cloud: the rank of its root. */
  function NewIndex(t: seq<int>, x: nat): nat
    requires Rooted(t) && x < |t|
  {
    RootsBefore(t, t[x])
  }

  /** The root points among the first i, in their original order. */
  function RootPoints(t: seq<int>, points: seq<Point>, i: nat): (r: seq<Point>)
    requires |points| == |t| && i <= |t|
    ensures |r| == RootsBefore(t, i)
  {
    if i == 0 then []
    else RootPoints(t, points, i - 1) + (if t[i - 1] == i - 1 then [points[i - 1]] else [])
  }

  /** The triangles are within the cloud of n points. */
  predicate AllInRange(triangles: seq<Triangle>, n: nat)
  {
    forall k :: 0 <= k < |triangles| ==> InRange(triangles[k], n)
  }

  /** A triangle with every vertex replaced by its new index (lines 458-461). */
  function Rewrite(t: seq<int>, tri: Triangle): Triangle
    requires Rooted(t) && InRange(tri, |t|)
  {
    Triangle(NewIndex(t, tri.i1), NewIndex(t, tri.i2), NewIndex(t, tri.i3))
  }

  function RewriteAll(t: seq<int>, triangles: seq<Triangle>): (r: seq<Triangle>)
    requires Rooted(t) && AllInRange(triangles, |t|)
    ensures |r| == |triangles|
  {
    if triangles == [] then []
    else [Rewrite(t, triangles[0])] + RewriteAll(t, triangles[1..])
  }

  lemma {:induction false} RewriteAllAt(t: seq<int>, triangles: seq<Triangle>, k: nat)
    requires Rooted(t) && AllInRange(triangles, |t|) && k < |triangles|
    ensures RewriteAll(t, triangles)[k] == Rewrite(t, triangles[k])
  {
    if k > 0 {
      RewriteAllAt(t, triangles[1..], k - 1);
    }
  }

  /** Which triangles survive the fusion (line 464): those whose indexes
      are pairwise distinct. */
  function Keeps(triangles: seq<Triangle>): (r: seq<bool>)
    ensures |r| == |triangles|
  {
    if triangles == [] then [] else [NonDegenerate(triangles[0])] + Keeps(triangles[1..])
  }

  lemma {:induction false} KeepsAt(triangles: seq<Triangle>, k: nat)
    requires k < |triangles|
    ensures Keeps(triangles)[k] == NonDegenerate(triangles[k])
  {
    if k > 0 {
      KeepsAt(triangles[1..], k - 1);
    }
  }

  function Count(keep: seq<bool>): (r: nat)
    ensures r <= |keep|
  {
    if keep == [] then 0 else Count(keep[..|keep| - 1]) + (if keep[|keep| - 1] then 1 else 0)
  }

  /** The elements whose flag is set, in their order. */
  function Select<T>(xs: seq<T>, keep: seq<bool>): (r: seq<T>)
    requires |xs| == |keep|
    ensures |r| == Count(keep)
  {
    if xs == [] then []
    else
      var n := |xs| - 1;
      Select(xs[..n], keep[..n]) + (if keep[n] then [xs[n]] else [])
  }

  function Swap<T>(xs: seq<T>, i: nat, j: nat): (r: seq<T>)
    requires i < |xs| && j < |xs|
    ensures |r| == |xs|
  {
    xs[i := xs[j]][j := xs[i]]
  }

  /** The swap pass of lines 455-470 from position i, with k elements kept
      so far: a kept element at i changes places with the one at k. */
  function SwapPass<T>(xs: seq<T>, keep: seq<bool>, i: nat, k: nat): (r: seq<T>)
    requires |xs| == |keep| && k <= i <= |xs|
    ensures |r| == |xs|
    decreases |xs| - i
  {
    if i == |xs| then xs
    else if keep[i] then SwapPass(if k != i then Swap(xs, i, k) else xs, keep, i + 1, k + 1)
    else SwapPass(xs, keep, i + 1, k)
  }

  /** What the compaction makes of the loaded geometry g, given the tagged
      table t and whether the new cloud's reservation is granted. */
  function Weld(g: Geometry, t: seq<int>, granted: bool, corrected: bool): Geometry
    requires Rooted(t) && |t| == |g.points| && AllInRange(g.triangles, |t|)
    requires g.normalIndexes.Some? ==> |g.normalIndexes.value| == |g.triangles|
  {
    if !granted then g
    else
      var rewritten := RewriteAll(t, g.triangles);
      var keep := Keeps(rewritten);
      if Count(keep) == 0 then
        if corrected then g else g.(triangles := rewritten)
      else
        Geometry(RootPoints(t, g.points, |t|), RootsBefore(t, |t|), if corrected then g.globalShift else Origin,
                 Select(rewritten, keep), Count(keep), g.normals,
                 if g.normalIndexes.Some? then Some(Select(g.normalIndexes.value, keep)) else None)
  }

  // ---------------------------------------------------------------------
  // The compaction in place

  /** Lines 425-435: every root is replaced by the vertex count plus its
      rank; the result is the number of roots. */
  method RenumberRoots(table: array<int>) returns (remaining: nat)
    modifies table
    ensures remaining == RootsBefore(old(table[..]), table.Length)
    ensures forall x :: 0 <= x < table.Length ==>
      table[x] == if old(table[x]) == x then table.Length + RootsBefore(old(table[..]), x) else old(table[x])
  {
    ghost var t := table[..];
    var n := table.Length;
    remaining := 0;
    var i := 0;
    while i < n
      invariant i <= n && remaining == RootsBefore(t, i)
      invariant forall x :: 0 <= x < i ==> table[x] == if t[x] == x then n + RootsBefore(t, x) else t[x]
      invariant forall x :: i <= x < n ==> table[x] == t[x]
    {
      if table[i] == i {
        table[i] := n + remaining;
        remaining := remaining + 1;
      }
      i := i + 1;
    }
  }

  /** Lines 438-450: the root points go to the new cloud in order, and every
      other entry takes its root's new entry, so that every entry ends as
      the vertex count plus the vertex's new index. */
  method CopyRoots(table: array<int>, ghost t: seq<int>, points: seq<Point>, cloud: PointCloud)
    requires Rooted(t) && |t| == table.Length == |points|
    requires forall x :: 0 <= x < |t| ==> table[x] == if t[x] == x then |t| + RootsBefore(t, x) else t[x]
    requires cloud.Valid() && cloud.points == [] && cloud.capacity == RootsBefore(t, |t|)
    modifies table, cloud
    ensures forall x :: 0 <= x < |t| ==> table[x] == |t| + NewIndex(t, x)
    ensures cloud.points == RootPoints(t, points, |t|) && cloud.capacity == old(cloud.capacity)
    ensures cloud.globalShift == old(cloud.globalShift)
  {
    var n := table.Length;
    var i := 0;
    assert Copied(table[..], t, 0);
    while i < n
      invariant i <= n && cloud.Valid() && cloud.capacity == RootsBefore(t, n)
      invariant cloud.globalShift == old(cloud.globalShift)
      invariant cloud.points == RootPoints(t, points, i)
      invariant Copied(table[..], t, i)
    {
      CopyOne(table, t, points, cloud, i);
      i := i + 1;
    }
    assert Copied(table[..], t, n);
  }

  /** Lines 440-449 for entry i. */
  method CopyOne(table: array<int>, ghost t: seq<int>, points: seq<Point>, cloud: PointCloud, i: nat)
    requires Rooted(t) && |t| == table.Length == |points| && i < |t|
    requires Copied(table[..], t, i)
    requires cloud.Valid() && cloud.points == RootPoints(t, points, i) && cloud.capacity == RootsBefore(t, |t|)
    modifies table, cloud
    ensures Copied(table[..], t, i + 1)
    ensures cloud.Valid() && cloud.points == RootPoints(t, points, i + 1)
    ensures cloud.capacity == old(cloud.capacity) && cloud.globalShift == old(cloud.globalShift)
  {
    ghost var before := table[..];
    CopyStep(t, before, i);
    var eq := table[i];
    if eq >= table.Length {
      RootsBeforeGrows(t, i + 1, |t|);
      cloud.AddPoint(points[i]);
    } else {
      table[i] := table[eq];
    }
    CopyAdvance(t, before, table[..], i);
  }

  /** The table during the copy loop, before entry i: the entries before i
      hold the vertex count plus the new index, the others are as the
      renumbering left them. */
  ghost predicate Copied(table: seq<int>, t: seq<int>, i: nat)
    requires Rooted(t)
  {
    && |table| == |t| && i <= |t|
    && (forall x :: 0 <= x < i ==> table[x] == |t| + NewIndex(t, x))
    && (forall x :: i <= x < |t| ==> table[x] == if t[x] == x then |t| + RootsBefore(t, x) else t[x])
  }

  lemma CopyAdvance(t: seq<int>, table: seq<int>, table2: seq<int>, i: nat)
    requires Rooted(t) && Copied(table, t, i) && i < |t|
    requires |table2| == |table| && table2[i] == |t| + NewIndex(t, i)
    requires forall x :: 0 <= x < |table| && x != i ==> table2[x] == table[x]
    ensures Copied(table2, t, i + 1)
  {
  }

  /** Entry i in the copy loop: it is a root exactly when its entry is past
      the vertex count, and either it or the entry it points at holds the
      vertex count plus its new index. */
  lemma CopyStep(t: seq<int>, table: seq<int>, i: nat)
    requires Rooted(t) && Copied(table, t, i) && i < |t|
    ensures (table[i] >= |t|) == (t[i] == i)
    ensures t[i] == i ==> table[i] == |t| + NewIndex(t, i)
    ensures t[i] != i ==> table[i] == t[i] && table[table[i]] == |t| + NewIndex(t, i)
  {
    var r := t[i];
    assert t[r] == r;
    if r < i {
      assert table[r] == |t| + NewIndex(t, r);
    }
  }

  lemma {:induction false} RootsBeforeGrows(t: seq<int>, i: nat, j: nat)
    requires i <= j <= |t|
    ensures RootsBefore(t, i) <= RootsBefore(t, j)
    decreases j - i
  {
    if i < j {
      RootsBeforeGrows(t, i, j - 1);
    }
  }

  /** The swap pass one step further, on the elements rewritten so far
      followed by those still to rewrite: position i takes its rewritten
      value, then is swapped with k when it is kept. */
  lemma PassStep<T>(cur: seq<T>, later: seq<T>, keep: seq<bool>, i: nat, k: nat)
    requires |cur| == |later| == |keep| && k <= i < |cur|
    ensures var cur1 := cur[i := later[i]];
      var cur2 := if keep[i] && k != i then Swap(cur1, i, k) else cur1;
      && SwapPass(cur[..i] + later[i..], keep, i, k)
         == SwapPass(cur2[..i + 1] + later[i + 1..], keep, i + 1, if keep[i] then k + 1 else k)
      && cur2[i + 1..] == cur[i + 1..]
  {
    var base := cur[..i] + later[i..];
    var cur1 := cur[i := later[i]];
    assert base == cur1[..i + 1] + later[i + 1..];
    if keep[i] && k != i {
      assert Swap(cur1, i, k)[..i + 1] + later[i + 1..] == Swap(base, i, k);
    }
  }

  /** The triangles and per-triangle normal indexes after triangle i is
      rewritten to `moved` and, when it survives, swapped with position
      `kept` (lines 458-469), with the new kept count. */
  function RewriteStep(cur: seq<Triangle>, ns: Option<seq<Triangle>>, moved: Triangle, i: nat, kept: nat)
    : (r: (seq<Triangle>, Option<seq<Triangle>>, nat))
    requires kept <= i < |cur| && (ns.Some? ==> |ns.value| == |cur|)
  {
    var cur1 := cur[i := moved];
    if !NonDegenerate(moved) then (cur1, ns, kept)
    else if kept == i then (cur1, ns, kept + 1)
    else (Swap(cur1, i, kept), if ns.Some? then Some(Swap(ns.value, i, kept)) else None, kept + 1)
  }

  /** The invariant of the loop of lines 455-470 after i triangles: the
      pass still to run ends where the whole pass ends. */
  ghost predicate Midway(cur: seq<Triangle>, ns: Option<seq<Triangle>>, orig: seq<Triangle>, ns0: Option<seq<Triangle>>,
                         rewritten: seq<Triangle>, keep: seq<bool>, i: nat, kept: nat)
  {
    && i <= |cur| == |orig| == |rewritten| == |keep|
    && kept <= i && kept == Count(keep[..i])
    && cur[i..] == orig[i..]
    && SwapPass(cur[..i] + rewritten[i..], keep, i, kept) == SwapPass(rewritten, keep, 0, 0)
    && (ns.None? <==> ns0.None?)
    && (ns0.Some? ==> |ns.value| == |ns0.value| == |cur| && SwapPass(ns.value, keep, i, kept) == SwapPass(ns0.value, keep, 0, 0))
  }

  lemma MidwayStep(cur: seq<Triangle>, ns: Option<seq<Triangle>>, orig: seq<Triangle>, ns0: Option<seq<Triangle>>,
                   rewritten: seq<Triangle>, keep: seq<bool>, i: nat, kept: nat,
                   cur2: seq<Triangle>, ns2: Option<seq<Triangle>>, kept2: nat)
    requires Midway(cur, ns, orig, ns0, rewritten, keep, i, kept) && i < |cur|
    requires keep == Keeps(rewritten)
    requires var r := RewriteStep(cur, ns, rewritten[i], i, kept); cur2 == r.0 && ns2 == r.1 && kept2 == r.2
    ensures Midway(cur2, ns2, orig, ns0, rewritten, keep, i + 1, kept2)
  {
    KeepsAt(rewritten, i);
    PassStep(cur, rewritten, keep, i, kept);
    SelectStep(rewritten, keep, i);
    assert cur[i + 1..] == cur[i..][1..];
  }

  /** Where the loop of lines 455-470 ends. */
  lemma MidwayDone(cur: seq<Triangle>, ns: Option<seq<Triangle>>, orig: seq<Triangle>, ns0: Option<seq<Triangle>>,
                   rewritten: seq<Triangle>, keep: seq<bool>, kept: nat)
    requires Midway(cur, ns, orig, ns0, rewritten, keep, |cur|, kept)
    ensures kept == Count(keep) && cur == SwapPass(rewritten, keep, 0, 0)
    ensures ns == (if ns0.None? then None else Some(SwapPass(ns0.value, keep, 0, 0)))
  {
    assert cur[..|cur|] + rewritten[|cur|..] == cur;
    assert keep[..|cur|] == keep;
  }

  /** The triangle the loop rewrites next is the loaded one, and the table
      sends it to its rewritten form. */
  lemma MidwayNext(cur: seq<Triangle>, ns: Option<seq<Triangle>>, orig: seq<Triangle>, ns0: Option<seq<Triangle>>,
                   t: seq<int>, keep: seq<bool>, i: nat, kept: nat, table: seq<int>)
    requires Rooted(t) && AllInRange(orig, |t|) && i < |cur|
    requires Midway(cur, ns, orig, ns0, RewriteAll(t, orig), keep, i, kept)
    requires |table| == |t| && forall x :: 0 <= x < |t| ==> table[x] == |t| + NewIndex(t, x)
    ensures InRange(cur[i], |t|)
    ensures Triangle(table[cur[i].i1] - |t|, table[cur[i].i2] - |t|, table[cur[i].i3] - |t|) == RewriteAll(t, orig)[i]
  {
    assert cur[i] == cur[i..][0] == orig[i];
    RewriteAllAt(t, orig, i);
  }

  /** Lines 458-469 for triangle i, in place. */
  method RewriteOne(mesh: Mesh, i: nat, moved: Triangle, kept0: nat) returns (kept: nat)
    requires kept0 <= i < |mesh.triangles|
    requires mesh.normalIndexes.Some? ==> |mesh.normalIndexes.value| == |mesh.triangles|
    modifies mesh
    ensures (mesh.triangles, mesh.normalIndexes, kept)
         == RewriteStep(old(mesh.triangles), old(mesh.normalIndexes), moved, i, kept0)
    ensures mesh.name == old(mesh.name) && mesh.cloud == old(mesh.cloud)
    ensures mesh.capacity == old(mesh.capacity) && mesh.normals == old(mesh.normals)
  {
    kept := kept0;
    mesh.SetTriangle(i, moved);
    if moved.i1 != moved.i2 && moved.i1 != moved.i3 && moved.i2 != moved.i3 {
      if kept != i {
        mesh.SwapTriangles(i, kept);
      }
      kept := kept + 1;
    }
  }

  /** Lines 452-470: each triangle is rewritten, and one that survives is
      swapped to the end of the kept prefix; the result is the kept count. */
  method RewriteTriangles(mesh: Mesh, table: array<int>, ghost t: seq<int>) returns (kept: nat)
    requires Rooted(t) && |t| == table.Length && AllInRange(mesh.triangles, |t|)
    requires forall x :: 0 <= x < |t| ==> table[x] == |t| + NewIndex(t, x)
    requires mesh.normalIndexes.Some? ==> |mesh.normalIndexes.value| == |mesh.triangles|
    modifies mesh
    ensures var rewritten := RewriteAll(t, old(mesh.triangles));
      var keep := Keeps(rewritten);
      && kept == Count(keep)
      && mesh.triangles == SwapPass(rewritten, keep, 0, 0)
      && mesh.normalIndexes == (if old(mesh.normalIndexes).None? then None
                                else Some(SwapPass(old(mesh.normalIndexes).value, keep, 0, 0)))
    ensures mesh.name == old(mesh.name) && mesh.cloud == old(mesh.cloud)
    ensures mesh.capacity == old(mesh.capacity) && mesh.normals == old(mesh.normals)
  {
    ghost var orig := mesh.triangles;
    ghost var rewritten := RewriteAll(t, mesh.triangles);
    ghost var keep := Keeps(rewritten);
    ghost var ns0 := mesh.normalIndexes;
    var n := table.Length;
    var faceCount := |mesh.triangles|;
    kept := 0;
    var i := 0;
    assert mesh.triangles[..0] + rewritten[0..] == rewritten;
    while i < faceCount
      invariant faceCount == |orig|
      invariant Midway(mesh.triangles, mesh.normalIndexes, orig, ns0, rewritten, keep, i, kept)
      invariant mesh.name == old(mesh.name) && mesh.cloud == old(mesh.cloud)
      invariant mesh.capacity == old(mesh.capacity) && mesh.normals == old(mesh.normals)
    {
      MidwayNext(mesh.triangles, mesh.normalIndexes, orig, ns0, t, keep, i, kept, table[..]);
      var tri := mesh.triangles[i];
      var moved := Triangle(table[tri.i1] - n, table[tri.i2] - n, table[tri.i3] - n);
      assert moved == rewritten[i];
      ghost var cur, ns, kept0 := mesh.triangles, mesh.normalIndexes, kept;
      kept := RewriteOne(mesh, i, moved, kept);
      MidwayStep(cur, ns, orig, ns0, rewritten, keep, i, kept0, mesh.triangles, mesh.normalIndexes, kept);
      i := i + 1;
    }
    MidwayDone(mesh.triangles, mesh.normalIndexes, orig, ns0, rewritten, keep, kept);
  }

  /** The compaction of lines 425-512 once the table is filled: `grants(n)`
      says whether the new cloud's reservation of n points succeeds (line
      440). The mesh ends with the geometry
      Weld describes; the cloud it ends with is either the loaded one or a
      new one. */
  method RemoveDuplicates(mesh: Mesh, vertices: PointCloud, table: array<int>, grants: nat -> bool, corrected: bool)
    returns (cloud: PointCloud)
    requires mesh.cloud == vertices && mesh.Valid() && vertices.Valid()
    requires Rooted(table[..]) && table.Length == |vertices.points| && AllInRange(mesh.triangles, table.Length)
    requires mesh.normalIndexes.Some? ==> |mesh.normalIndexes.value| == |mesh.triangles|
    modifies mesh, table
    ensures mesh.cloud == cloud && (cloud == vertices || fresh(cloud))
    ensures mesh.name == old(mesh.name)
    ensures var t := old(table[..]);
      Snapshot(mesh, cloud) == Weld(old(Snapshot(mesh, vertices)), t, grants(RootsBefore(t, |t|)), corrected)
  {
    ghost var t := table[..];
    cloud := vertices;
    var remaining := RenumberRoots(table);
    var newVertices := new PointCloud();
    var ok := newVertices.Reserve(remaining, grants(remaining));
    if !ok {
      return;
    }
    cloud := Rebuild(mesh, vertices, newVertices, table, t, corrected);
    if !grants(remaining) {
      NoRoot(t);
      NoPointsWeld(old(Snapshot(mesh, vertices)), t, corrected);
    }
  }

  lemma OutOfEmpty(tri: Triangle)
    ensures !InRange(tri, 0)
  {
  }

  /** A table with an entry has a root. */
  lemma NoRoot(t: seq<int>)
    requires Rooted(t) && RootsBefore(t, |t|) == 0
    ensures |t| == 0
  {
    if |t| > 0 {
      var r := t[0];
      assert t[r] == r;
      RootsBeforeGrows(t, r + 1, |t|);
    }
  }

  /** Without points there is no triangle, and the reservation of an empty
      cloud changes nothing. */
  lemma NoPointsWeld(g: Geometry, t: seq<int>, corrected: bool)
    requires Rooted(t) && |t| == |g.points| == 0 && AllInRange(g.triangles, |t|)
    requires g.normalIndexes.Some? ==> |g.normalIndexes.value| == |g.triangles|
    ensures Weld(g, t, true, corrected) == g
  {
    if g.triangles != [] {
      OutOfEmpty(g.triangles[0]);
      assert false;
    }
  }

  /** Lines 438-512 once the new cloud is reserved. */
  method Rebuild(mesh: Mesh, vertices: PointCloud, newVertices: PointCloud, table: array<int>, ghost t: seq<int>,
                 corrected: bool)
    returns (cloud: PointCloud)
    requires mesh.cloud == vertices && vertices != newVertices
    requires Rooted(t) && |t| == table.Length == |vertices.points| && AllInRange(mesh.triangles, |t|)
    requires forall x :: 0 <= x < |t| ==> table[x] == if t[x] == x then |t| + RootsBefore(t, x) else t[x]
    requires mesh.normalIndexes.Some? ==> |mesh.normalIndexes.value| == |mesh.triangles|
    requires newVertices.Valid() && newVertices.points == [] && newVertices.globalShift == Origin
    requires newVertices.capacity == RootsBefore(t, |t|)
    modifies mesh, table, newVertices
    ensures mesh.cloud == cloud && (cloud == vertices || cloud == newVertices)
    ensures mesh.name == old(mesh.name)
    ensures Snapshot(mesh, cloud) == Weld(old(Snapshot(mesh, vertices)), t, true, corrected)
  {
    ghost var g := Snapshot(mesh, vertices);
    cloud := vertices;
    CopyRoots(table, t, vertices.points, newVertices);
    var original := mesh.triangles;
    var kept := RewriteTriangles(mesh, table, t);
    ghost var rewritten := RewriteAll(t, g.triangles);
    ghost var keep := Keeps(rewritten);
    if kept == 0 {
      NoneKept(rewritten, keep, 0, 0);
      if g.normalIndexes.Some? {
        NoneKept(g.normalIndexes.value, keep, 0, 0);
      }
      if corrected {
        RestoreTriangles(mesh, original);
      }
      return;
    }
    SwapPassSelects(rewritten, keep);
    if g.normalIndexes.Some? {
      SwapPassSelects(g.normalIndexes.value, keep);
    }
    mesh.Resize(kept);
    if corrected {
      newVertices.SetGlobalShift(vertices.globalShift);
    }
    mesh.SetCloud(newVertices);
    cloud := newVertices;
  }

  /** The corrected collapse case: the loaded triangles are put back. */
  method RestoreTriangles(mesh: Mesh, original: seq<Triangle>)
    requires |original| == |mesh.triangles|
    modifies mesh
    ensures mesh.triangles == original
    ensures mesh.name == old(mesh.name) && mesh.cloud == old(mesh.cloud) && mesh.capacity == old(mesh.capacity)
    ensures mesh.normals == old(mesh.normals) && mesh.normalIndexes == old(mesh.normalIndexes)
  {
    var i := 0;
    while i < |original|
      invariant i <= |original| == |mesh.triangles|
      invariant mesh.triangles[..i] == original[..i]
      invariant mesh.triangles[i..] == old(mesh.triangles)[i..]
      invariant mesh.name == old(mesh.name) && mesh.cloud == old(mesh.cloud) && mesh.capacity == old(mesh.capacity)
      invariant mesh.normals == old(mesh.normals) && mesh.normalIndexes == old(mesh.normalIndexes)
    {
      mesh.SetTriangle(i, original[i]);
      assert mesh.triangles[..i + 1] == original[..i + 1];
      i := i + 1;
    }
    assert mesh.triangles == mesh.triangles[..i];
  }

  // ---------------------------------------------------------------------
  // The swap pass

  /** Without a kept element the pass swaps nothing. */
  lemma {:induction false} NoneKept<T>(xs: seq<T>, keep: seq<bool>, i: nat, k: nat)
    requires |xs| == |keep| && k <= i <= |xs|
    requires Count(keep) == 0
    ensures SwapPass(xs, keep, i, k) == xs
    decreases |xs| - i
  {
    if i < |xs| {
      CountZero(keep, i);
      NoneKept(xs, keep, i + 1, k);
    }
  }

  lemma {:induction false} CountZero(keep: seq<bool>, i: nat)
    requires i < |keep| && Count(keep) == 0
    ensures !keep[i]
    decreases |keep|
  {
    if i < |keep| - 1 {
      CountZero(keep[..|keep| - 1], i);
    }
  }

  /** The swap pass leaves the kept elements, in their order, in the
      prefix of the kept count, and moves elements without losing any. */
  lemma SwapPassSelects<T>(xs: seq<T>, keep: seq<bool>)
    requires |xs| == |keep|
    ensures var r := SwapPass(xs, keep, 0, 0);
      r[..Count(keep)] == Select(xs, keep) && multiset(r) == multiset(xs)
  {
    assert xs[..0] == [] && keep[..0] == [];
    SwapPassFrom(xs, xs, keep, 0, 0);
    assert xs[..|xs|] == xs && keep[..|keep|] == keep;
  }

  lemma {:induction false} SwapPassFrom<T>(xs0: seq<T>, xs: seq<T>, keep: seq<bool>, i: nat, k: nat)
    requires |xs0| == |xs| == |keep| && k <= i <= |xs|
    requires k == Count(keep[..i]) && xs[..k] == Select(xs0[..i], keep[..i])
    requires xs[i..] == xs0[i..] && multiset(xs) == multiset(xs0)
    ensures var r := SwapPass(xs, keep, i, k);
      r[..Count(keep)] == Select(xs0, keep) && multiset(r) == multiset(xs0)
    decreases |xs| - i
  {
    if i == |xs| {
      assert xs0[..i] == xs0 && keep[..i] == keep;
    } else {
      SelectStep(xs0, keep, i);
      if keep[i] {
        var ys := if k != i then Swap(xs, i, k) else xs;
        KeptStep(xs0, xs, i, k);
        SwapPassFrom(xs0, ys, keep, i + 1, k + 1);
      } else {
        assert xs[i + 1..] == xs[i..][1..];
        SwapPassFrom(xs0, xs, keep, i + 1, k);
      }
    }
  }

  /** Select and Count one element further. */
  lemma SelectStep<T>(xs: seq<T>, keep: seq<bool>, i: nat)
    requires |xs| == |keep| && i < |xs|
    ensures Select(xs[..i + 1], keep[..i + 1]) == Select(xs[..i], keep[..i]) + (if keep[i] then [xs[i]] else [])
    ensures Count(keep[..i + 1]) == Count(keep[..i]) + (if keep[i] then 1 else 0)
  {
    assert xs[..i + 1][..i] == xs[..i] && keep[..i + 1][..i] == keep[..i];
  }

  /** A kept element moved from i to k. */
  lemma KeptStep<T>(xs0: seq<T>, xs: seq<T>, i: nat, k: nat)
    requires |xs0| == |xs| && k <= i < |xs| && xs[i..] == xs0[i..] && multiset(xs) == multiset(xs0)
    ensures var ys := if k != i then Swap(xs, i, k) else xs;
      && ys[..k + 1] == xs[..k] + [xs0[i]]
      && ys[i + 1..] == xs0[i + 1..]
      && multiset(ys) == multiset(xs0)
  {
    assert xs[i] == xs[i..][0];
    assert xs[i + 1..] == xs[i..][1..];
    if k != i {
      SwapMultiset(xs, i, k);
    }
  }

  lemma SwapMultiset<T>(xs: seq<T>, i: nat, j: nat)
    requires i < |xs| && j < |xs|
    ensures multiset(Swap(xs, i, j)) == multiset(xs)
  {
    var ys := xs[i := xs[j]];
    assert multiset(ys) == multiset(xs) - multiset{xs[i]} + multiset{xs[j]};
    assert multiset(ys[j := xs[i]]) == multiset(ys) - multiset{ys[j]} + multiset{xs[i]};
  }
}
