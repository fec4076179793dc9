/** clrgrid and popgrid: the walls, the start, the destination and the blockers. */
module MakeGrid {
  import opened Grid

  /** Row and column of the cells on the border. */
  ghost predicate WallsAt(s: seq<char>, n: nat, i: int)
    requires |s| == n * n
  {
    0 <= i < n ==>
      CharAt(s, IndexOf(0, i, n)) == 'x' && CharAt(s, IndexOf(n - 1, i, n)) == 'x' &&
      CharAt(s, IndexOf(i, 0, n)) == 'x' && CharAt(s, IndexOf(i, n - 1, n)) == 'x'
  }

  function CharAt(s: seq<char>, k: int): char {
    if 0 <= k < |s| then s[k] else 'x'
  }

  lemma SplitIndex(k: int, n: int)
    requires 0 < n && 0 <= k < n * n
    ensures IndexOf(k % n, k / n, n) == k && 0 <= k % n < n && 0 <= k / n < n
  {
    if n <= k / n {
      assert k / n * n >= n * n by {
        if n < k / n {
          Rows(n, k / n, n);
        }
      }
    }
  }

  /** With walls along all four sides, what is not a wall has a cell on every side. */
  lemma WallsMakeWalled(s: seq<char>, n: nat)
    requires 0 < n && |s| == n * n && forall i :: 0 <= i < n ==> WallsAt(s, n, i)
    ensures Walled(s, n)
  {
    hide IndexOf;
    forall k | 0 <= k < |s| && s[k] != 'x'
      ensures n <= k < n * n - n && 0 < k % n < n - 1
    {
      SplitIndex(k, n);
      var x, y := k % n, k / n;
      assert WallsAt(s, n, x) && WallsAt(s, n, y);
      InsideRows(x, y, n);
    }
  }

  lemma InsideRows(x: int, y: int, n: int)
    requires 0 <= x < n && 0 < y < n - 1
    ensures n <= IndexOf(x, y, n) < n * n - n
  {
    Rows(0, y, n);
    Rows(y, n - 1, n);
  }

  /** The grid that clrgrid leaves: walls on the border, free cells inside. */
  ghost predicate Bare(s: seq<char>, n: nat)
    requires 0 < n
  {
    |s| == n * n && forall k :: 0 <= k < |s| ==> s[k] == if OnBorder(k % n, k / n, n) then 'x' else ' '
  }

  /** Walls stand on the border only, everything else is free. */
  ghost predicate OnlyBorder(s: seq<char>, n: nat)
    requires 0 < n
  {
    forall k :: 0 <= k < |s| ==> s[k] == ' ' || (s[k] == 'x' && OnBorder(k % n, k / n, n))
  }

  lemma BareFromWalls(s: seq<char>, n: nat)
    requires 0 < n && |s| == n * n && OnlyBorder(s, n) && forall i :: 0 <= i < n ==> WallsAt(s, n, i)
    ensures Bare(s, n) && Walled(s, n)
  {
    hide IndexOf;
    WallsMakeWalled(s, n);
    forall k | 0 <= k < |s| && OnBorder(k % n, k / n, n)
      ensures s[k] == 'x'
    {
      SplitIndex(k, n);
      assert WallsAt(s, n, k % n) && WallsAt(s, n, k / n);
    }
  }

  /** A wall on the border keeps the walls there are. */
  method SetWall(grid: array<char>, x: int, y: int, n: nat, ghost i: int)
    requires 0 < n && grid.Length == n * n && 0 <= x < n && 0 <= y < n && OnBorder(x, y, n)
    requires OnlyBorder(grid[..], n) && forall j :: 0 <= j < i ==> WallsAt(grid[..], n, j)
    modifies grid
    ensures OnlyBorder(grid[..], n) && forall j :: 0 <= j < i ==> WallsAt(grid[..], n, j)
    ensures 0 <= IndexOf(x, y, n) < grid.Length && grid[IndexOf(x, y, n)] == 'x'
    ensures forall k :: 0 <= k < grid.Length && old(grid[k]) == 'x' ==> grid[k] == 'x'
  {
    hide IndexOf;
    InGrid(x, y, n);
    ghost var s := grid[..];
    Coordinates(x, y, IndexOf(x, y, n), n);
    grid[IndexOf(x, y, n)] := 'x';
    forall j | 0 <= j < i
      ensures WallsAt(grid[..], n, j)
    {
      assert WallsAt(s, n, j);
    }
  }

  /** clrgrid: free cells inside four walls. */
  method ClrGrid(grid: array<char>, n: nat)
    requires 0 < n && grid.Length == n * n
    modifies grid
    ensures Bare(grid[..], n) && Walled(grid[..], n)
  {
    hide IndexOf, OnlyBorder;
    forall k | 0 <= k < grid.Length {
      grid[k] := ' ';
    }
    var m := n - 1;
    var i := 0;
    AllFree(grid[..], n);
    while i < n
      invariant 0 <= i <= n && OnlyBorder(grid[..], n) && forall j :: 0 <= j < i ==> WallsAt(grid[..], n, j)
    {
      SetWall(grid, 0, i, n, i);
      SetWall(grid, m, i, n, i);
      SetWall(grid, i, 0, n, i);
      SetWall(grid, i, m, n, i);
      assert WallsAt(grid[..], n, i);
      i := i + 1;
    }
    BareFromWalls(grid[..], n);
  }

  lemma AllFree(s: seq<char>, n: nat)
    requires 0 < n && forall k :: 0 <= k < |s| ==> s[k] == ' '
    ensures OnlyBorder(s, n)
  {
  }

  // ---------- Random places ----------

  /** The place that the k-th pair of random numbers after `from` names, row first. */
  function Draw(rnd: seq<nat>, from: nat, k: nat, n: nat): (c: int)
    requires 0 < n && from + 2 * k + 2 <= |rnd|
    ensures 0 <= c < n * n
  {
    InGrid(rnd[from + 2 * k + 1] % n, rnd[from + 2 * k] % n, n);
    IndexOf(rnd[from + 2 * k + 1] % n, rnd[from + 2 * k] % n, n)
  }

  /** Draws places until one is free, the k-th; fails when the random numbers run out. */
  method PickFree(grid: array<char>, n: nat, rnd: seq<nat>, from: nat)
    returns (ok: bool, x: nat, y: nat, next: nat, ghost k: nat)
    requires 0 < n && grid.Length == n * n && from <= |rnd|
    ensures from <= next <= |rnd|
    ensures ok ==>
      next == from + 2 * k + 2 && x < n && y < n && IndexOf(x, y, n) == Draw(rnd, from, k, n) &&
      grid[IndexOf(x, y, n)] == ' '
    ensures ok ==> forall j :: 0 <= j < k ==> grid[Draw(rnd, from, j, n)] != ' '
    ensures !ok ==> forall j :: 0 <= j && from + 2 * j + 2 <= |rnd| ==> grid[Draw(rnd, from, j, n)] != ' '
  {
    hide IndexOf;
    ok, x, y, next, k := false, 0, 0, from, 0;
    while !ok && next + 2 <= |rnd|
      invariant from <= next <= |rnd|
      invariant !ok ==> next == from + 2 * k
      invariant ok ==>
        next == from + 2 * k + 2 && x < n && y < n && IndexOf(x, y, n) == Draw(rnd, from, k, n) &&
        grid[IndexOf(x, y, n)] == ' '
      invariant from + 2 * k <= |rnd| && forall j :: 0 <= j < k ==> grid[Draw(rnd, from, j, n)] != ' '
      decreases |rnd| - next
    {
      y, x := rnd[next] % n, rnd[next + 1] % n;
      next := next + 2;
      assert IndexOf(x, y, n) == Draw(rnd, from, k, n);
      ok := grid[IndexOf(x, y, n)] == ' ';
      if !ok {
        k := k + 1;
      }
    }
  }

  // ---------- popgrid ----------

  /** What stands at c when m blockers have been drawn, from the random number h on. */
  ghost function Stands(rnd: seq<nat>, h: nat, m: nat, n: nat, src: int, dst: int, c: int): char
    requires 0 < n && h + 2 * m <= |rnd|
  {
    if c == src then 's' else if c == dst then 'e'
    else if !Inside(c, n) || exists k :: 0 <= k < m && Draw(rnd, h, k, n) == c then 'x'
    else ' '
  }

  predicate Inside(c: int, n: nat)
    requires 0 < n
  {
    !OnBorder(c % n, c / n, n)
  }

  /**
   * The start is the first place drawn inside the walls, the a-th; the destination is the first one after
   * that which is inside the walls and not the start, the b-th; there are numbers left for m blockers.
   */
  ghost predicate Places(rnd: seq<nat>, n: nat, m: nat, a: nat, b: nat)
    requires 0 < n
  {
    var f := 2 * a + 2;
    f + 2 * b + 2 + 2 * m <= |rnd| &&
    var src, dst := Draw(rnd, 0, a, n), Draw(rnd, f, b, n);
    src != dst && Inside(src, n) && Inside(dst, n) &&
    (forall k :: 0 <= k < a ==> !Inside(Draw(rnd, 0, k, n), n)) &&
    (forall k :: 0 <= k < b ==> Draw(rnd, f, k, n) == src || !Inside(Draw(rnd, f, k, n), n))
  }

  /** The random numbers determine the start and the destination. */
  lemma PlacesAreUnique(rnd: seq<nat>, n: nat, m: nat, a: nat, b: nat, m': nat, a': nat, b': nat)
    requires 0 < n && Places(rnd, n, m, a, b) && Places(rnd, n, m', a', b')
    ensures a == a' && b == b'
  {
  }

  /** The grid for these places and the m blockers drawn after them. */
  ghost predicate Populated(s: seq<char>, rnd: seq<nat>, n: nat, m: nat, a: nat, b: nat, src: int, dst: int)
    requires 0 < n
  {
    Places(rnd, n, m, a, b) && src == Draw(rnd, 0, a, n) && dst == Draw(rnd, 2 * a + 2, b, n) &&
    |s| == n * n && forall c :: 0 <= c < |s| ==> s[c] == Stands(rnd, 2 * a + 2 * b + 4, m, n, src, dst, c)
  }

  /** A populated grid is walled, and start and destination are open. */
  lemma PopulatedIsWalled(s: seq<char>, rnd: seq<nat>, n: nat, m: nat, a: nat, b: nat, src: int, dst: int)
    requires 0 < n && Populated(s, rnd, n, m, a, b, src, dst)
    ensures Places(rnd, n, m, a, b) && ValidGraph(Graph(n, s, src)) && s[src] == 's' && s[dst] == 'e'
  {
    hide IndexOf, Draw;
    assert src != dst && Inside(src, n) && Inside(dst, n);
    hide Places;
    forall k | 0 <= k < |s| && s[k] != 'x'
      ensures n <= k < n * n - n && 0 < k % n < n - 1
    {
      OffBorder(k, n);
    }
  }

  lemma DrawMeans(rnd: seq<nat>, from: nat, k: nat, n: nat, x: nat, y: nat)
    requires 0 < n && from + 2 * k + 2 <= |rnd| && x < n && y < n
    ensures Draw(rnd, from, k, n) == IndexOf(x, y, n) <==> rnd[from + 2 * k] % n == y && rnd[from + 2 * k + 1] % n == x
  {
    var u, v := rnd[from + 2 * k + 1] % n, rnd[from + 2 * k] % n;
    IndexOrder(x, y, u, v, n);
    IndexOrder(u, v, x, y, n);
  }

  /**
   * What a populated grid shows in column x of row y: the start and the destination where their pairs of random
   * numbers name row and column, a wall elsewhere on the border and wherever one of the m later pairs says so.
   */
  lemma PopulatedMeans(s: seq<char>, rnd: seq<nat>, n: nat, m: nat, a: nat, b: nat, src: int, dst: int, x: nat, y: nat)
    requires 0 < n && Populated(s, rnd, n, m, a, b, src, dst) && x < n && y < n
    ensures 2 * a + 2 * b + 4 + 2 * m <= |rnd| && 0 <= y * n + x < |s|
    ensures var c, h := s[y * n + x], 2 * a + 2 * b + 4;
            var start := rnd[2 * a] % n == y && rnd[2 * a + 1] % n == x;
            var end := rnd[h - 2] % n == y && rnd[h - 1] % n == x;
            var wall := x == 0 || y == 0 || x == n - 1 || y == n - 1 ||
              exists j :: h <= j < h + 2 * m && (j - h) % 2 == 0 && rnd[j] % n == y && rnd[j + 1] % n == x;
            c == if start then 's' else if end then 'e' else if wall then 'x' else ' '
  {
    var k, h := IndexOf(x, y, n), 2 * a + 2 * b + 4;
    assert k == y * n + x;
    InGrid(x, y, n);
    Coordinates(x, y, k, n);
    DrawMeans(rnd, 0, a, n, x, y);
    DrawMeans(rnd, 2 * a + 2, b, n, x, y);
    hide Draw, IndexOf;
    BlockersMean(rnd, h, m, n, x, y);
    assert s[k] == Stands(rnd, h, m, n, src, dst, k);
  }

  lemma BlockersMean(rnd: seq<nat>, h: nat, m: nat, n: nat, x: nat, y: nat)
    requires 0 < n && h + 2 * m <= |rnd| && x < n && y < n
    ensures (exists k :: 0 <= k < m && Draw(rnd, h, k, n) == IndexOf(x, y, n)) <==>
            exists j :: h <= j < h + 2 * m && (j - h) % 2 == 0 && rnd[j] % n == y && rnd[j + 1] % n == x
  {
    hide Draw, IndexOf;
    if k :| 0 <= k < m && Draw(rnd, h, k, n) == IndexOf(x, y, n) {
      DrawMeans(rnd, h, k, n, x, y);
      var j := h + 2 * k;
      assert (j - h) % 2 == 0 && rnd[j] % n == y && rnd[j + 1] % n == x;
    } else {
      forall j | h <= j < h + 2 * m && (j - h) % 2 == 0
        ensures !(rnd[j] % n == y && rnd[j + 1] % n == x)
      {
        var k := (j - h) / 2;
        DrawMeans(rnd, h, k, n, x, y);
        assert j == h + 2 * k && Draw(rnd, h, k, n) != IndexOf(x, y, n);
      }
    }
  }

  lemma OffBorder(k: int, n: nat)
    requires 0 < n && 0 <= k < n * n && Inside(k, n)
    ensures n <= k < n * n - n && 0 < k % n < n - 1
  {
    hide IndexOf;
    SplitIndex(k, n);
    InsideRows(k % n, k / n, n);
  }

  /** Before any blocker is drawn. */
  lemma StartPopulated(s: seq<char>, rnd: seq<nat>, n: nat, a: nat, f: nat, b: nat, src: int, dst: int)
    requires 0 < n && Bare(s, n) && f == 2 * a + 2 && f + 2 * b + 2 <= |rnd|
    requires src == Draw(rnd, 0, a, n) && dst == Draw(rnd, f, b, n)
    requires s[src] == ' ' && s[src := 's'][dst] == ' '
    requires forall k :: 0 <= k < a ==> s[Draw(rnd, 0, k, n)] != ' '
    requires forall k :: 0 <= k < b ==> s[src := 's'][Draw(rnd, f, k, n)] != ' '
    ensures Populated(s[src := 's'][dst := 'e'], rnd, n, 0, a, b, src, dst)
  {
    hide IndexOf;
  }

  lemma NoStart(s: seq<char>, rnd: seq<nat>, n: nat, m: nat)
    requires 0 < n && Bare(s, n) && forall j :: 0 <= j && 0 + 2 * j + 2 <= |rnd| ==> s[Draw(rnd, 0, j, n)] != ' '
    ensures !exists a, b :: Places(rnd, n, m, a, b)
  {
    hide IndexOf;
  }

  lemma NoDestination(s: seq<char>, rnd: seq<nat>, n: nat, m: nat, a: nat, f: nat)
    requires 0 < n && Bare(s, n) && f == 2 * a + 2 <= |rnd| && s[Draw(rnd, 0, a, n)] == ' '
    requires forall k :: 0 <= k < a ==> s[Draw(rnd, 0, k, n)] != ' '
    requires forall j :: 0 <= j && f + 2 * j + 2 <= |rnd| ==> s[Draw(rnd, 0, a, n) := 's'][Draw(rnd, f, j, n)] != ' '
    ensures !exists a', b' :: Places(rnd, n, m, a', b')
  {
    hide IndexOf;
  }

  lemma NoBlocker(s: seq<char>, rnd: seq<nat>, n: nat, i: nat, m: nat, a: nat, b: nat, src: int, dst: int)
    requires 0 < n && Populated(s, rnd, n, i, a, b, src, dst) && |rnd| < 2 * a + 2 * b + 4 + 2 * m
    ensures !exists a', b' :: Places(rnd, n, m, a', b')
  {
    forall a', b' | Places(rnd, n, m, a', b')
      ensures false
    {
      PlacesAreUnique(rnd, n, i, a, b, m, a', b');
    }
  }

  /** One more blocker is drawn: it stands unless the place is the start or the destination. */
  lemma BlockerStands(s: seq<char>, rnd: seq<nat>, n: nat, m: nat, a: nat, b: nat, src: int, dst: int)
    requires 0 < n && Populated(s, rnd, n, m, a, b, src, dst) && 2 * a + 2 * b + 4 + 2 * m + 2 <= |rnd|
    ensures var c := Draw(rnd, 2 * a + 2 * b + 4, m, n);
            Populated(if c == src || c == dst then s else s[c := 'x'], rnd, n, m + 1, a, b, src, dst)
  {
  }

  /** One blocker, over an existing wall or blocker as well. */
  method Block(grid: array<char>, n: nat, x: nat, y: nat, sx: nat, sy: nat, dx: nat, dy: nat)
    requires 0 < n && grid.Length == n * n && x < n && y < n && sx < n && sy < n && dx < n && dy < n
    modifies grid
    ensures var c, src, dst := IndexOf(x, y, n), IndexOf(sx, sy, n), IndexOf(dx, dy, n);
            0 <= c < grid.Length && grid[..] == if c == src || c == dst then old(grid[..]) else old(grid[..])[c := 'x']
  {
    hide IndexOf;
    InGrid(x, y, n);
    InGrid(sx, sy, n);
    InGrid(dx, dy, n);
    Coordinates(x, y, IndexOf(x, y, n), n);
    Coordinates(sx, sy, IndexOf(sx, sy, n), n);
    Coordinates(dx, dy, IndexOf(dx, dy, n), n);
    if sx == x && sy == y {
      return;
    }
    if dx == x && dy == y {
      return;
    }
    grid[IndexOf(x, y, n)] := 'x';
  }

  lemma DrawIs(rnd: seq<nat>, from: nat, k: nat, n: nat)
    requires 0 < n && from + 2 * k + 2 <= |rnd|
    ensures Draw(rnd, from, k, n) == IndexOf(rnd[from + 2 * k + 1] % n, rnd[from + 2 * k] % n, n)
  {
  }

  /** popgrid; fails iff the random numbers run out. */
  method PopGrid(grid: array<char>, n: nat, nblks: nat, rnd: seq<nat>)
    returns (ok: bool, src: nat, dst: nat, next: nat, ghost a: nat, ghost b: nat)
    requires 0 < n && grid.Length == n * n
    modifies grid
    ensures ok ==> Populated(grid[..], rnd, n, nblks, a, b, src, dst) && next == 2 * a + 2 * b + 4 + 2 * nblks
    ensures ok <==> exists a', b' :: Places(rnd, n, nblks, a', b')
  {
    hide IndexOf, Populated, Draw, Bare, Walled, Places;
    src, dst, a, b := 0, 0, 0, 0;
    ClrGrid(grid, n);
    ghost var s := grid[..];
    var sx, sy, dx, dy;
    ok, sx, sy, next, a := PickFree(grid, n, rnd, 0);
    if !ok {
      NoStart(s, rnd, n, nblks);
      return;
    }
    src := IndexOf(sx, sy, n);
    grid[src] := 's';
    assert grid[..] == s[src := 's'];
    ok, dx, dy, next, b := PickFree(grid, n, rnd, next);
    if !ok {
      NoDestination(s, rnd, n, nblks, a, 2 * a + 2);
      return;
    }
    dst := IndexOf(dx, dy, n);
    grid[dst] := 'e';
    assert grid[..] == s[src := 's'][dst := 'e'];
    StartPopulated(s, rnd, n, a, 2 * a + 2, b, src, dst);
    var i := 0;
    while i < nblks
      invariant 0 <= i <= nblks && next == 2 * a + 2 * b + 4 + 2 * i && Populated(grid[..], rnd, n, i, a, b, src, dst)
    {
      if |rnd| < next + 2 {
        NoBlocker(grid[..], rnd, n, i, nblks, a, b, src, dst);
        ok := false;
        return;
      }
      BlockerStands(grid[..], rnd, n, i, a, b, src, dst);
      DrawIs(rnd, 2 * a + 2 * b + 4, i, n);
      Block(grid, n, rnd[next + 1] % n, rnd[next] % n, sx, sy, dx, dy);
      next := next + 2;
      i := i + 1;
    }
    PopulatedIsWalled(grid[..], rnd, n, nblks, a, b, src, dst);
  }
}
