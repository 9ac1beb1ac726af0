/** TagDuplicatedVertices (lines 246-319): for one octree cell, every point
    not yet tagged in the equivalence table becomes a root, and the points
    its sphere search finds are redirected to it. The sphere search is the
    parameter `near`: the global indexes of the points found around a query
    point. The model proves that, when the search is symmetric and finds the
    query point itself, tagging keeps every tagged point pointing straight at
    a root, which is what the compaction in loadFile relies on (line 449). */
module Welding {

  /** The sphere search of radius sqrt(ZERO_TOLERANCE) around a point. */
  type Near = nat -> seq<nat>

  /** The search only returns points of a cloud of n points. */
  predicate NearInRange(near: Near, n: nat)
  {
    forall a, j :: 0 <= a < n && 0 <= j < |near(a)| ==> near(a)[j] < n
  }

  /** A distance test finds b around a exactly when it finds a around b, and
      always finds the query point. */
  predicate Symmetric(near: Near, n: nat)
  {
    && (forall a, b :: 0 <= a < n && 0 <= b < n && b in near(a) ==> a in near(b))
    && (forall a :: 0 <= a < n ==> a in near(a))
  }

  /** The state the tagging keeps: entries are -1 (not tagged) or a point
      index; a tagged point points at a root (a point tagged with itself);
      and everything the search finds around a root is tagged. */
  predicate Welded(t: seq<int>, near: Near)
  {
    && (forall x :: 0 <= x < |t| ==> -1 <= t[x] < |t|)
    && (forall x :: 0 <= x < |t| && 0 <= t[x] ==> t[t[x]] == t[x])
    && (forall r, y :: 0 <= r < |t| && t[r] == r && y in near(r) ==> 0 <= y < |t| && 0 <= t[y])
  }

  /** Lines 299-306: every point of ns other than q is tagged with q. */
  function Redirect(t: seq<int>, ns: seq<nat>, q: nat): (r: seq<int>)
    requires forall j :: 0 <= j < |ns| ==> ns[j] < |t|
    ensures |r| == |t|
    decreases |ns|
  {
    if ns == [] then t
    else Redirect(if ns[0] != q then t[ns[0] := q] else t, ns[1..], q)
  }

  /** Lines 289-312 for the query point q: an untagged q redirects the other
      points found around it (when there are some) and becomes a root. */
  function TagPoint(t: seq<int>, q: nat, near: Near): (r: seq<int>)
    requires q < |t| && NearInRange(near, |t|)
    ensures |r| == |t|
  {
    if t[q] >= 0 then t
    else (if |near(q)| > 1 then Redirect(t, near(q), q) else t)[q := q]
  }

  /** The loop over the points of a cell from the i-th on (lines 287-316);
      proceed(k) is the progress report after k points. The flag says whether
      the cell was completed. */
  function TagCell(t: seq<int>, cell: seq<nat>, i: nat, near: Near, proceed: nat -> bool): (r: (seq<int>, bool))
    requires i <= |cell| && (forall k :: 0 <= k < |cell| ==> cell[k] < |t|) && NearInRange(near, |t|)
    ensures |r.0| == |t|
    decreases |cell| - i
  {
    if i == |cell| then (t, true)
    else
      var t1 := TagPoint(t, cell[i], near);
      if !proceed(i + 1) then (t1, false)
      else TagCell(t1, cell, i + 1, near, proceed)
  }

  /** What a redirection does to each entry. */
  lemma {:induction false} RedirectAt(t: seq<int>, ns: seq<nat>, q: nat, x: nat)
    requires forall j :: 0 <= j < |ns| ==> ns[j] < |t|
    requires x < |t|
    ensures Redirect(t, ns, q)[x] == if x in ns && x != q then q else t[x]
    decreases |ns|
  {
    if ns != [] {
      var t1 := if ns[0] != q then t[ns[0] := q] else t;
      RedirectAt(t1, ns[1..], q, x);
      assert x in ns <==> x == ns[0] || x in ns[1..];
    }
  }

  /** What tagging an untagged point q does to each entry, when the search
      finds q itself: q and every point found become q. */
  lemma TagPointAt(t: seq<int>, q: nat, near: Near, x: nat)
    requires q < |t| && NearInRange(near, |t|) && t[q] < 0 && q in near(q) && x < |t|
    ensures TagPoint(t, q, near)[x] == if x == q || x in near(q) then q else t[x]
  {
    var ns := near(q);
    if |ns| > 1 {
      RedirectAt(t, ns, q, x);
    } else {
      assert ns == [q];
    }
  }

  /** Tagging a point keeps the table welded, never untags a point, never
      moves a root, and leaves the query point tagged. */
  lemma TagPointLaw(t: seq<int>, q: nat, near: Near)
    requires q < |t| && NearInRange(near, |t|) && Symmetric(near, |t|) && Welded(t, near)
    ensures var r := TagPoint(t, q, near);
      && Welded(r, near)
      && 0 <= r[q]
      && (forall x :: 0 <= x < |t| && 0 <= t[x] ==> 0 <= r[x])
      && (forall x :: 0 <= x < |t| && t[x] == x ==> r[x] == x)
  {
    if t[q] < 0 {
      var r := TagPoint(t, q, near);
      var ns := near(q);
      assert q in ns;
      forall x | 0 <= x < |t|
        ensures r[x] == if x == q || x in ns then q else t[x]
      {
        TagPointAt(t, q, near, x);
      }
      // no point found around q is a root: a root would have found q and
      // tagged it
      forall x | x in ns && 0 <= x < |t|
        ensures t[x] != x
      {
        assert q in near(x);
      }
      forall x | 0 <= x < |t| && 0 <= r[x]
        ensures r[r[x]] == r[x]
      {
        if x != q && x !in ns {
          assert t[t[t[x]]] == t[t[x]];
        }
      }
      forall rt, y | 0 <= rt < |t| && r[rt] == rt && y in near(rt)
        ensures 0 <= y < |t| && 0 <= r[y]
      {
        if rt != q {
          assert t[rt] == rt;
        }
      }
    }
  }

  /** A cell keeps the table welded and moves no root; tagged points stay
      tagged; when the cell is completed every point of it is tagged. */
  lemma {:induction false} TagCellLaw(t: seq<int>, cell: seq<nat>, i: nat, near: Near, proceed: nat -> bool)
    requires i <= |cell| && (forall k :: 0 <= k < |cell| ==> cell[k] < |t|)
    requires NearInRange(near, |t|) && Symmetric(near, |t|) && Welded(t, near)
    requires forall k :: 0 <= k < i ==> 0 <= t[cell[k]]
    ensures var r := TagCell(t, cell, i, near, proceed);
      && Welded(r.0, near)
      && (forall x :: 0 <= x < |t| && 0 <= t[x] ==> 0 <= r.0[x])
      && (forall x :: 0 <= x < |t| && t[x] == x ==> r.0[x] == x)
      && (r.1 ==> forall k :: 0 <= k < |cell| ==> 0 <= r.0[cell[k]])
    decreases |cell| - i
  {
    if i < |cell| {
      var t1 := TagPoint(t, cell[i], near);
      TagPointLaw(t, cell[i], near);
      if proceed(i + 1) {
        TagCellLaw(t1, cell, i + 1, near, proceed);
      }
    }
  }

  /** The octree visits its cells one after the other and stops at the
      first cell that fails; granted(c) is the neighbour buffer allocation
      and proceed(c) the progress of cell c. */
  function TagCells(t: seq<int>, cells: seq<seq<nat>>, near: Near, granted: nat -> bool, proceed: nat -> nat -> bool)
    : (r: (seq<int>, bool))
    requires forall c, k :: 0 <= c < |cells| && 0 <= k < |cells[c]| ==> cells[c][k] < |t|
    requires NearInRange(near, |t|)
    ensures |r.0| == |t|
    decreases |cells|
  {
    if cells == [] then (t, true)
    else
      var c := |cells| - 1;
      var before := TagCells(t, cells[..c], near, granted, proceed);
      if !before.1 then before
      else if !granted(c) then (before.0, false)
      else TagCell(before.0, cells[c], 0, near, proceed(c))
  }

  /** The points of all the cells. */
  function Members(cells: seq<seq<nat>>): seq<nat>
    decreases |cells|
  {
    if cells == [] then [] else Members(cells[..|cells| - 1]) + cells[|cells| - 1]
  }

  /** A traversal that completes keeps the table welded and tags every
      point of every cell. */
  lemma {:induction false} TagCellsLaw(t: seq<int>, cells: seq<seq<nat>>, near: Near, granted: nat -> bool,
                                          proceed: nat -> nat -> bool)
    requires forall c, k :: 0 <= c < |cells| && 0 <= k < |cells[c]| ==> cells[c][k] < |t|
    requires NearInRange(near, |t|) && Symmetric(near, |t|) && Welded(t, near)
    ensures var r := TagCells(t, cells, near, granted, proceed);
      && Welded(r.0, near)
      && (forall x :: 0 <= x < |t| && 0 <= t[x] ==> 0 <= r.0[x])
      && (r.1 ==> forall x :: 0 <= x < |t| && x in Members(cells) ==> 0 <= r.0[x])
    decreases |cells|
  {
    if cells != [] {
      var c := |cells| - 1;
      TagCellsLaw(t, cells[..c], near, granted, proceed);
      var before := TagCells(t, cells[..c], near, granted, proceed);
      if before.1 && granted(c) {
        TagCellLaw(before.0, cells[c], 0, near, proceed(c));
        var r := TagCell(before.0, cells[c], 0, near, proceed(c));
        if r.1 {
          forall x | 0 <= x < |t| && x in Members(cells)
            ensures 0 <= r.0[x]
          {
            if x !in Members(cells[..c]) {
              assert x in cells[c];
            }
          }
        }
      }
    }
  }

  /** Started from the table of -1s (line 406) and completed over cells that
      hold every point, the traversal leaves every point tagged and pointing
      straight at a root: the state the compaction requires (lines 429 and
      449). */
  lemma TaggedTable(n: nat, cells: seq<seq<nat>>, near: Near, granted: nat -> bool, proceed: nat -> nat -> bool)
    requires forall c, k :: 0 <= c < |cells| && 0 <= k < |cells[c]| ==> cells[c][k] < n
    requires NearInRange(near, n) && Symmetric(near, n)
    requires forall x :: 0 <= x < n ==> x in Members(cells)
    ensures var start := seq(n, x => -1);
      var r := TagCells(start, cells, near, granted, proceed);
      r.1 ==> forall x :: 0 <= x < n ==> 0 <= r.0[x] < n && r.0[r.0[x]] == r.0[x]
  {
    var start := seq(n, x => -1);
    TagCellsLaw(start, cells, near, granted, proceed);
  }

  /** Lines 299-306 on the table in place. */
  method RedirectNeighbours(table: array<int>, ns: seq<nat>, q: nat)
    requires forall j :: 0 <= j < |ns| ==> ns[j] < table.Length
    modifies table
    ensures table[..] == Redirect(old(table[..]), ns, q)
  {
    var j := 0;
    while j < |ns|
      invariant j <= |ns|
      invariant Redirect(table[..], ns[j..], q) == Redirect(old(table[..]), ns, q)
    {
      assert ns[j..][1..] == ns[j + 1..];
      var other := ns[j];
      if other != q {
        table[other] := q;
      }
      j := j + 1;
    }
    assert ns[j..] == [];
  }

  /** TagDuplicatedVertices for one cell (lines 246-319). `granted` is the
      allocation of the neighbour buffer (lines 265-272); the result says
      whether the cell was completed. */
  method TagDuplicatedVertices(table: array<int>, cell: seq<nat>, near: Near, granted: bool, proceed: nat -> bool)
    returns (ok: bool)
    requires forall k :: 0 <= k < |cell| ==> cell[k] < table.Length
    requires NearInRange(near, table.Length)
    modifies table
    ensures var r := TagCell(old(table[..]), cell, 0, near, proceed);
      && ok == (granted && r.1)
      && table[..] == (if granted then r.0 else old(table[..]))
  {
    if !granted {
      return false;
    }
    ghost var goal := TagCell(table[..], cell, 0, near, proceed);
    var i := 0;
    while i < |cell|
      invariant i <= |cell|
      invariant TagCell(table[..], cell, i, near, proceed) == goal
    {
      var q := cell[i];
      ghost var before := table[..];
      if table[q] < 0 {
        var ns := near(q);
        if |ns| > 1 {
          RedirectNeighbours(table, ns, q);
        }
        table[q] := q;
      }
      assert table[..] == TagPoint(before, q, near);
      if !proceed(i + 1) {
        return false;
      }
      i := i + 1;
    }
    ok := true;
  }

  /** Once a cell fails, the traversal has ended. */
  lemma {:induction false} TagCellsStops(t: seq<int>, cells: seq<seq<nat>>, m: nat, near: Near, granted: nat -> bool,
                                         proceed: nat -> nat -> bool)
    requires m <= |cells|
    requires forall c, k :: 0 <= c < |cells| && 0 <= k < |cells[c]| ==> cells[c][k] < |t|
    requires NearInRange(near, |t|)
    requires !TagCells(t, cells[..m], near, granted, proceed).1
    ensures TagCells(t, cells, near, granted, proceed) == TagCells(t, cells[..m], near, granted, proceed)
    decreases |cells| - m
  {
    if m < |cells| {
      var c := |cells| - 1;
      assert cells[..c][..m] == cells[..m];
      TagCellsStops(t, cells[..c], m, near, granted, proceed);
    } else {
      assert cells[..m] == cells;
    }
  }

  /** executeFunctionForAllCellsAtLevel with TagDuplicatedVertices (lines
      414-419): the cells in turn, stopping at the first that fails. */
  method TagAllCells(table: array<int>, cells: seq<seq<nat>>, near: Near, granted: nat -> bool,
                     proceed: nat -> nat -> bool) returns (ok: bool)
    requires forall c, k :: 0 <= c < |cells| && 0 <= k < |cells[c]| ==> cells[c][k] < table.Length
    requires NearInRange(near, table.Length)
    modifies table
    ensures var r := TagCells(old(table[..]), cells, near, granted, proceed);
      ok == r.1 && table[..] == r.0
  {
    var c := 0;
    ok := true;
    while c < |cells|
      invariant c <= |cells| && ok
      invariant TagCells(old(table[..]), cells[..c], near, granted, proceed) == (table[..], true)
    {
      assert cells[..c + 1][..c] == cells[..c];
      ok := TagDuplicatedVertices(table, cells[c], near, granted(c), proceed(c));
      if !ok {
        TagCellsStops(old(table[..]), cells, c + 1, near, granted, proceed);
        return;
      }
      c := c + 1;
    }
    assert cells[..c] == cells;
  }
}
