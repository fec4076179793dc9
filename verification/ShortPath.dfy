/** search and its grid: the walls, the solution text and the whole result. */
module ShortPath {
  import opened Grid
  import opened Bfs
  import opened PathQueue
  import opened PathSearch
  import opened Decimal

  // ---------- The solution text ----------

  /** Row and column of a cell, in decimal. */
  function CellText(k: nat, n: nat): Text
    requires 0 < n
  {
    Digits(k / n) + Digits(k % n)
  }

  /** The texts of the cells of the path one after the other. */
  function PathText(p: seq<nat>, n: nat): (t: Text)
    requires 0 < n
  {
    if p == [] then [] else PathText(p[..|p| - 1], n) + CellText(p[|p| - 1], n)
  }

  lemma PathTextStart(n: nat)
    requires 0 < n
    ensures PathText([], n) == []
  {
  }

  lemma PathTextStep(p: seq<nat>, j: nat, n: nat)
    requires j < |p| && 0 < n
    ensures PathText(p[..j + 1], n) == PathText(p[..j], n) + CellText(p[j], n)
  {
    assert p[..j + 1][..j] == p[..j];
  }

  lemma CellTextAt(x: nat, y: nat, k: nat, n: nat)
    requires x < n && IndexOf(x, y, n) == k
    ensures CellText(k, n) == Digits(y) + Digits(x)
  {
    Coordinates(x, y, k, n);
  }

  /** One more cell on the path adds its row and then its column to the text. */
  lemma PathTextGrows(p: seq<nat>, x: nat, y: nat, k: nat, n: nat)
    requires x < n && IndexOf(x, y, n) == k
    ensures PathText(p + [k], n) == PathText(p, n) + (Digits(y) + Digits(x))
  {
    hide CellText;
    assert (p + [k])[..|p|] == p;
    CellTextAt(x, y, k, n);
  }

  /** Cells off the border have coordinates with digits, so the text of a path is never empty. */
  lemma {:induction false} PathTextNotEmpty(p: seq<nat>, n: nat)
    requires p != [] && 0 < n && 0 < p[0] % n
    ensures PathText(p, n) != []
  {
    ParseDigits(p[0] % n);
    if |p| == 1 {
      assert p[..0] == [];
    } else {
      PathTextNotEmpty(p[..|p| - 1], n);
    }
  }

  /** Empties the queue. */
  method Drain(qu: Queue)
    requires qu.Linked() && qu.Indexed()
    modifies qu`q, qu`qs, qu.cells`qn, qu.cells`qp
    ensures qu.Linked() && qu.qs == []
  {
    hide Links, NoDup;
    var p := qu.QPop();
    while p != null
      invariant qu.Linked() && (p == null ==> qu.qs == [])
      decreases |qu.qs|, p != null
    {
      p := qu.QPop();
    }
  }

  /** p lists cells that the parent links lead through backwards. */
  ghost predicate ParentChain(qu: Queue, p: seq<nat>)
    reads qu.cells`p
  {
    p != [] && InRange(p, |qu.cells|) && NoDup(p) &&
    forall i :: 0 < i < |p| ==> qu.cells[p[i]].p == qu.cells[p[i - 1]]
  }

  /** Uses the queue to reverse the parent chain: each cell gets a lower label than the one before. */
  method Reverse(qu: Queue, src: Cell, dst: Cell, ghost p: seq<nat>)
    requires qu.Linked() && qu.Indexed() && qu.Placed() && qu.qs == [] && ParentChain(qu, p)
    requires src == qu.cells[p[0]] && dst == qu.cells[p[|p| - 1]]
    modifies qu`q, qu`qs, qu.cells`c, qu.cells`qn, qu.cells`qp
    ensures qu.Linked() && qu.qs == p
  {
    hide Links, Queue.Placed;
    var i, cur := -1, dst;
    ghost var m := |p| - 1;
    while cur != src
      invariant 0 <= m < |p| && cur == qu.cells[p[m]]
      invariant qu.Linked() && qu.Placed() && qu.qs == p[m + 1..]
      invariant m + 1 < |p| ==> qu.cells[p[m + 1]].c == i + 1
      decreases m
    {
      Requeue(qu, cur, i, p, m);
      i := i - 1;
      cur := cur.p;
      m := m - 1;
    }
    Requeue(qu, cur, i, p, m);
  }

  /** A cell with a label below the head's goes to the front. */
  method Requeue(qu: Queue, cur: Cell, i: int, ghost p: seq<nat>, ghost m: nat)
    requires qu.Linked() && qu.Indexed() && qu.Placed() && InRange(p, |qu.cells|) && NoDup(p)
    requires m < |p| && cur == qu.cells[p[m]] && qu.qs == p[m + 1..]
    requires m + 1 < |p| ==> qu.cells[p[m + 1]].c == i + 1
    modifies qu`q, qu`qs, qu.cells`c, qu.cells`qn, qu.cells`qp
    ensures qu.Linked() && qu.qs == p[m..] && cur.c == i
  {
    hide Links, Queue.Linked, Queue.Placed;
    ghost var k := p[m];
    assert k !in p[m + 1..];
    hide NoDup;
    if m + 1 < |p| {
      Differ(p, m, m + 1);
    }
    SetCost(qu, cur, i, k);
    assert Place(qu.Costs(), qu.qs, k) == 0;
    qu.QAdd(cur, k);
    assert [k] + p[m + 1..] == p[m..];
  }

  method NextCell(qu: Queue, ghost p: seq<nat>, ghost j: nat) returns (cur: Cell?)
    requires qu.Linked() && qu.Indexed() && j <= |p| && qu.qs == p[j..] && InRange(p, |qu.cells|)
    modifies qu`q, qu`qs, qu.cells`qn, qu.cells`qp
    ensures qu.Linked()
    ensures if j == |p| then cur == null else cur == qu.cells[p[j]] && qu.qs == p[j + 1..]
  {
    hide Links, NoDup;
    cur := qu.QPop();
  }

  method PrintCell(qu: Queue, cur: Cell, ghost k: nat) returns (t: Text)
    requires qu.Placed() && k < |qu.cells| && cur == qu.cells[k] && 0 < qu.n
    ensures t == CellText(k, qu.n)
  {
    Coordinates(cur.x, cur.y, k, qu.n);
    t := Digits(cur.y) + Digits(cur.x);
  }

  /** Pops the cells and prints them. */
  method Print(qu: Queue, ghost p: seq<nat>) returns (sol: Text)
    requires qu.Linked() && qu.Indexed() && qu.Placed() && qu.qs == p && InRange(p, |qu.cells|) && 0 < qu.n
    modifies qu`q, qu`qs, qu.cells`qn, qu.cells`qp
    ensures sol == PathText(p, qu.n)
  {
    hide CellText, PathText, Queue.Linked, Queue.Placed;
    PathTextStart(qu.n);
    sol := [];
    ghost var j := 0;
    assert qu.qs == p[j..];
    var cur := NextCell(qu, p, j);
    while cur != null
      invariant 0 <= j <= |p| && sol == PathText(p[..j], qu.n) && qu.Linked() && qu.Placed()
      invariant if cur == null then j == |p| else j < |p| && cur == qu.cells[p[j]] && qu.qs == p[j + 1..]
      decreases |p| - j
    {
      PathTextStep(p, j, qu.n);
      var t := PrintCell(qu, cur, p[j]);
      sol := sol + t;
      j := j + 1;
      cur := NextCell(qu, p, j);
    }
    assert p[..j] == p;
  }

  /** The path found leads over the cells of a parent chain. */
  lemma ChainIsParentChain(qu: Queue, g: Graph, s: Search, k: nat)
    requires Parented(qu, s.par) && |s.cost| == |qu.cells|
    requires Shape(g, s) && LabelsReached(g, s) && Parents(g, s) && Labelled(s, k)
    ensures ParentChain(qu, Chain(g, s, k))
  {
    hide LabelsReached, Shape, Parents;
    var p := Chain(g, s, k);
    forall i | 0 < i < |p|
      ensures qu.cells[p[i]].p == qu.cells[p[i - 1]]
    {
      assert Labelled(s, p[i]) && Labelled(s, p[i - 1]);
    }
  }

  /**
   * search: 0 when dst cannot be reached; otherwise the length of the text of the canonical path, which is
   * left in sol.
   */
  method Search(qu: Queue, grid: array<char>, src: Cell, dst: Cell, ghost g: Graph, ghost di: nat)
    returns (r: nat, sol: Text, ghost path: seq<nat>)
    requires qu.Indexed() && |qu.cells| == qu.n * qu.n == |g.grid| && g.n == qu.n && g.grid == grid[..]
    requires ValidGraph(g) && g.src < |g.grid| && di < |qu.cells| && src == qu.cells[g.src] && dst == qu.cells[di]
    modifies qu`q, qu`qs, qu.cells
    ensures r == |sol|
    ensures r == 0 ==> forall p :: !IsPath(g, p, di)
    ensures r != 0 ==> 0 < g.n && Canonical(g, path, di) && sol == PathText(path, g.n)
  {
    hide Inv, Holds, Walled, IsPath, Canonical, PathText, Chain, Links, Queue.Linked, Queue.Placed;
    var cur;
    ghost var s, d, u;
    cur, s, d, u := Explore(qu, grid, src, dst, g, di);
    if cur == null {
      forall p
        ensures !IsPath(g, p, di)
      {
        UnlabelledIsUnreachable(g, s, d, u, di, p);
      }
      return 0, [], [];
    }
    path := FoundPath(qu, g, s, d, u, di);
    Drain(qu);
    Reverse(qu, src, cur, path);
    sol := Print(qu, path);
    r := |sol|;
  }

  lemma FoundPath(qu: Queue, g: Graph, s: Search, d: int, u: nat, di: nat) returns (p: seq<nat>)
    requires Inv(g, s, d, u, 4) && s.q != [] && s.q[0] == di && Holds(qu, Pop(s)) && g.n == qu.n
    ensures Canonical(g, p, di) && ParentChain(qu, p) && InRange(p, |qu.cells|)
    ensures p[0] == g.src && p[|p| - 1] == di && qu.Placed() && qu.Linked() && 0 < qu.n
    ensures PathText(p, qu.n) != []
  {
    ChainIsCanonical(g, s, d, u);
    p := Chain(g, s, di);
    ChainIsParentChain(qu, g, s, di);
    StartIsInterior(g);
    PathTextNotEmpty(p, qu.n);
  }

  lemma StartIsInterior(g: Graph)
    requires ValidGraph(g)
    ensures 0 < g.n && 0 < g.src % g.n
  {
  }
}
