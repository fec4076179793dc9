/** The challenge grid as a graph: open cells, steps between neighbours, distances and canonical paths. */
module Grid {

  /** A square grid of width n, row by row, and the start cell. */
  datatype Graph = Graph(n: nat, grid: seq<char>, src: nat)

  /** indexofxy. */
  function IndexOf(x: int, y: int, width: int): int {
    y * width + x
  }

  predicate OnBorder(x: int, y: int, n: nat) {
    x == 0 || y == 0 || x == n - 1 || y == n - 1
  }

  /** The border is all walls, so an open cell has a cell on every side. */
  ghost predicate Walled(grid: seq<char>, n: nat) {
    |grid| == n * n &&
    forall k :: 0 <= k < |grid| && grid[k] != 'x' ==> n <= k < n * n - n && 0 < k % n < n - 1
  }

  predicate Open(g: Graph, k: int) {
    0 <= k < |g.grid| && g.grid[k] != 'x'
  }

  /** The neighbour of cell k in direction dir: down, up, right, left. */
  function Neighbour(g: Graph, k: int, dir: nat): int
    requires dir < 4
  {
    if dir == 0 then k + g.n else if dir == 1 then k - g.n else if dir == 2 then k + 1 else k - 1
  }

  predicate Adjacent(g: Graph, j: int, k: int) {
    k == j + g.n || k == j - g.n || k == j + 1 || k == j - 1
  }

  lemma AdjacentNeighbour(g: Graph, j: int, k: int) returns (dir: nat)
    requires Adjacent(g, j, k)
    ensures dir < 4 && Neighbour(g, j, dir) == k
  {
    dir := if k == j + g.n then 0 else if k == j - g.n then 1 else if k == j + 1 then 2 else 3;
  }

  ghost predicate ValidGraph(g: Graph) {
    Walled(g.grid, g.n) && Open(g, g.src)
  }

  /** k can be reached from the start in exactly d steps over open cells. */
  ghost predicate Reach(g: Graph, d: nat, k: int)
    decreases d, g
  {
    Open(g, k) && if d == 0 then k == g.src else exists j :: Adjacent(g, j, k) && Reach(g, d - 1, j)
  }

  /** d is the length of a shortest path to k. */
  ghost predicate Distance(g: Graph, d: int, k: int) {
    0 <= d && Reach(g, d, k) && forall e :: 0 <= e < d ==> !Reach(g, e, k)
  }

  /** p leads from the start to dst over open cells, one step at a time. */
  ghost predicate IsPath(g: Graph, p: seq<nat>, dst: int) {
    p != [] && p[0] == g.src && p[|p| - 1] == dst &&
    (forall i :: 0 <= i < |p| ==> Open(g, p[i])) &&
    (forall i :: 0 < i < |p| ==> Adjacent(g, p[i - 1], p[i]))
  }

  lemma {:induction false} PathReaches(g: Graph, p: seq<nat>, dst: int)
    requires IsPath(g, p, dst)
    ensures Reach(g, |p| - 1, dst)
  {
    if 1 < |p| {
      PathReaches(g, p[..|p| - 1], p[|p| - 2]);
      assert Adjacent(g, p[|p| - 2], p[|p| - 1]);
    }
  }

  lemma {:induction false} ReachHasPath(g: Graph, d: nat, k: int) returns (p: seq<nat>)
    requires Reach(g, d, k)
    ensures IsPath(g, p, k) && |p| == d + 1
    decreases d
  {
    if d == 0 {
      p := [k];
    } else {
      var j :| Adjacent(g, j, k) && Reach(g, d - 1, j);
      p := ReachHasPath(g, d - 1, j);
      p := p + [k];
    }
  }

  lemma DistanceIsUnique(g: Graph, d: int, e: int, k: int)
    requires Distance(g, d, k) && Distance(g, e, k)
    ensures d == e
  {
  }

  /** Each cell of the path is the least of the neighbours of its successor that are one step closer to the start. */
  ghost predicate Canonical(g: Graph, p: seq<nat>, dst: int) {
    IsPath(g, p, dst) &&
    (forall i :: 0 <= i < |p| ==> Distance(g, i, p[i])) &&
    (forall i, w :: 0 < i < |p| && Adjacent(g, w, p[i]) && Distance(g, i - 1, w) ==> p[i - 1] <= w)
  }

  /** No path is shorter than a canonical one. */
  lemma CanonicalIsShortest(g: Graph, p: seq<nat>, q: seq<nat>, dst: int)
    requires Canonical(g, p, dst) && IsPath(g, q, dst)
    ensures |p| <= |q|
  {
    PathReaches(g, q, dst);
    assert Distance(g, |p| - 1, p[|p| - 1]);
  }

  lemma CanonicalPrefix(g: Graph, p: seq<nat>, dst: int)
    requires Canonical(g, p, dst) && 1 < |p|
    ensures Canonical(g, p[..|p| - 1], p[|p| - 2])
  {
    hide Distance, Open, Adjacent;
    var r := p[..|p| - 1];
    assert forall i :: 0 <= i < |r| ==> r[i] == p[i];
  }

  /** There is at most one canonical path. */
  lemma {:induction false} CanonicalIsUnique(g: Graph, p: seq<nat>, q: seq<nat>, dst: int)
    requires Canonical(g, p, dst) && Canonical(g, q, dst)
    ensures p == q
    decreases |p|
  {
    hide Distance;
    var m, n := |p| - 1, |q| - 1;
    assert Distance(g, m, p[m]) && Distance(g, n, q[n]);
    DistanceIsUnique(g, m, n, dst);
    if 0 < m {
      CanonicalPrefix(g, p, dst);
      CanonicalPrefix(g, q, dst);
      SamePrevious(g, p, q, dst);
      CanonicalIsUnique(g, p[..m], q[..m], p[m - 1]);
      assert p == p[..m] + [dst] && q == q[..m] + [dst];
    }
  }

  lemma SamePrevious(g: Graph, p: seq<nat>, q: seq<nat>, dst: int)
    requires Canonical(g, p, dst) && Canonical(g, q, dst) && |p| == |q| && 1 < |p|
    ensures p[|p| - 2] == q[|p| - 2]
  {
    hide Distance;
    var m := |p| - 1;
    assert Adjacent(g, p[m - 1], p[m]) && Adjacent(g, q[m - 1], q[m]);
    assert Distance(g, m - 1, p[m - 1]) && Distance(g, m - 1, q[m - 1]);
  }

  /** Whoever reaches a cell of a path reaches the rest of it. */
  lemma {:induction false} ReachAlong(g: Graph, q: seq<nat>, dst: int, e: nat, i: nat, j: nat)
    requires IsPath(g, q, dst) && i <= j < |q| && Reach(g, e, q[i])
    ensures Reach(g, e + (j - i), q[j])
  {
    if i < j {
      ReachAlong(g, q, dst, e, i, j - 1);
      assert Adjacent(g, q[j - 1], q[j]) && Open(g, q[j]);
    }
  }

  /** On a shortest path every cell is as far from the start as its place says. */
  lemma ShortestDistances(g: Graph, q: seq<nat>, dst: int, i: nat)
    requires IsPath(g, q, dst) && Distance(g, |q| - 1, dst) && i < |q|
    ensures Distance(g, i, q[i])
  {
    var m := |q| - 1;
    assert Reach(g, 0, q[0]) by {
      assert Open(g, q[0]);
    }
    ReachAlong(g, q, dst, 0, 0, i);
    forall e: nat | e < i
      ensures !Reach(g, e, q[i])
    {
      if Reach(g, e, q[i]) {
        ReachAlong(g, q, dst, e, i, m);
      }
    }
  }

  /** Of the shortest paths the canonical one is the first, when they are compared from the destination back. */
  lemma CanonicalIsLeast(g: Graph, p: seq<nat>, q: seq<nat>, dst: int) returns (i: nat)
    requires Canonical(g, p, dst) && IsPath(g, q, dst) && |q| == |p| && q != p
    ensures i < |p| && p[i] < q[i] && p[i + 1..] == q[i + 1..]
  {
    i := LastDifference(p, q);
    SmallerCell(g, p, q, dst, i);
  }

  lemma {:induction false} LastDifference(p: seq<nat>, q: seq<nat>) returns (i: nat)
    requires |p| == |q| && p != q
    ensures i < |p| && p[i] != q[i] && p[i + 1..] == q[i + 1..]
  {
    var m := |p| - 1;
    i := m;
    if p[m] == q[m] {
      assert p == p[..m] + [p[m]] && q == q[..m] + [q[m]];
      i := LastDifference(p[..m], q[..m]);
      assert p[i + 1..] == p[..m][i + 1..] + [p[m]] && q[i + 1..] == q[..m][i + 1..] + [q[m]];
    }
  }

  lemma LastCells(g: Graph, p: seq<nat>, q: seq<nat>, dst: int)
    requires Canonical(g, p, dst) && IsPath(g, q, dst) && |q| == |p|
    ensures p != [] && p[|p| - 1] == q[|p| - 1] == dst && Distance(g, |p| - 1, dst)
  {
  }

  lemma SmallerCell(g: Graph, p: seq<nat>, q: seq<nat>, dst: int, i: nat)
    requires Canonical(g, p, dst) && IsPath(g, q, dst) && |q| == |p|
    requires i < |p| && p[i] != q[i] && p[i + 1..] == q[i + 1..]
    ensures p[i] < q[i]
  {
    LastCells(g, p, q, dst);
    ShortestDistances(g, q, dst, i);
    assert p[i + 1..][0] == p[i + 1] && q[i + 1..][0] == q[i + 1];
    assert Adjacent(g, q[i + 1 - 1], q[i + 1]);
  }

  // ---------- Coordinates ----------

  lemma Rows(y: int, v: int, n: int)
    requires 0 <= n && y < v
    ensures y * n + n <= v * n
  {
    var d := v - y - 1;
    assert v * n == (y + 1 + d) * n == y * n + n + d * n;
    assert 0 <= d * n;
  }

  lemma InGrid(x: int, y: int, n: int)
    requires 0 <= x < n && 0 <= y < n
    ensures 0 <= IndexOf(x, y, n) < n * n
  {
    Rows(y, n, n);
    if 0 < y {
      Rows(0, y, n);
    }
  }

  /** The order of the indices is the order by y and then by x. */
  lemma IndexOrder(x: int, y: int, u: int, v: int, n: int)
    requires 0 <= x < n && 0 <= u < n
    ensures IndexOf(x, y, n) < IndexOf(u, v, n) <==> y < v || (y == v && x < u)
  {
    if y < v {
      Rows(y, v, n);
    } else if v < y {
      Rows(v, y, n);
    }
  }

  /** The coordinates of the cell with index k. */
  lemma Coordinates(x: int, y: int, k: int, n: int)
    requires 0 <= x < n && IndexOf(x, y, n) == k && 0 <= k
    ensures x == k % n && y == k / n
  {
    var v, u := k / n, k % n;
    assert IndexOf(u, v, n) == k;
    IndexOrder(x, y, u, v, n);
    IndexOrder(u, v, x, y, n);
  }

  /** Next to an open cell are the cells one row or one column away, in the same column or row. */
  lemma AdjacentMeans(g: Graph, x: int, y: int, u: int, v: int)
    requires Walled(g.grid, g.n) && 0 <= x < g.n && 0 <= u < g.n && Open(g, IndexOf(x, y, g.n))
    ensures Adjacent(g, IndexOf(x, y, g.n), IndexOf(u, v, g.n)) <==>
            (x == u && (v == y + 1 || v == y - 1)) || (y == v && (u == x + 1 || u == x - 1))
  {
    var k := IndexOf(x, y, g.n);
    Coordinates(x, y, k, g.n);
    StepIndex(x, y, g.n);
    SamePlace(u, v, x, y + 1, g.n);
    SamePlace(u, v, x, y - 1, g.n);
    SamePlace(u, v, x + 1, y, g.n);
    SamePlace(u, v, x - 1, y, g.n);
  }

  lemma SamePlace(x: int, y: int, u: int, v: int, n: int)
    requires 0 <= x < n && 0 <= u < n
    ensures IndexOf(x, y, n) == IndexOf(u, v, n) <==> x == u && y == v
  {
    IndexOrder(x, y, u, v, n);
    IndexOrder(u, v, x, y, n);
  }

  /** Moving one cell moves the index by one, or by a row. */
  lemma StepIndex(x: int, y: int, n: int)
    ensures IndexOf(x, y + 1, n) == IndexOf(x, y, n) + n && IndexOf(x, y - 1, n) == IndexOf(x, y, n) - n
    ensures IndexOf(x + 1, y, n) == IndexOf(x, y, n) + 1 && IndexOf(x - 1, y, n) == IndexOf(x, y, n) - 1
  {
  }
}
