/** The shortest path solver: search_init, getneigh and search over the cells and their queue. */
module PathSearch {
  import opened Grid
  import opened Bfs
  import opened PathQueue

  /** The cells hold the search s. */
  ghost predicate Holds(qu: Queue, s: Search)
    reads qu, qu.cells`x, qu.cells`y, qu.cells`c, qu.cells`p, qu.cells`qn, qu.cells`qp
  {
    qu.Linked() && qu.Indexed() && qu.Placed() && qu.qs == s.q && qu.Costs() == s.cost && Parented(qu, s.par)
  }

  ghost predicate Parented(qu: Queue, par: seq<int>)
    reads qu.cells`p
  {
    |par| == |qu.cells| &&
    forall k :: 0 <= k < |par| && 0 <= par[k] < |par| ==> qu.cells[k].p == qu.cells[par[k]]
  }

  /** getneigh: the neighbouring cell, unless there is a wall. */
  method GetNeigh(qu: Queue, grid: array<char>, cl: Cell, dir: nat, ghost g: Graph, ghost u: nat)
    returns (nei: Cell?)
    requires qu.Placed() && g.n == qu.n && g.grid == grid[..] && Walled(g.grid, g.n) && |qu.cells| == grid.Length
    requires Open(g, u) && cl == qu.cells[u] && dir < 4
    ensures var v := Neighbour(g, u, dir);
            0 <= v < |qu.cells| && nei == if Open(g, v) then qu.cells[v] else null
  {
    var x, y := cl.x, cl.y;
    StepIndex(x, y, qu.n);
    if dir == 0 {
      y := y + 1;
    } else if dir == 1 {
      y := y - 1;
    } else if dir == 2 {
      x := x + 1;
    } else {
      x := x - 1;
    }
    hide IndexOf;
    if grid[IndexOf(x, y, qu.n)] != 'x' {
      nei := qu.cells[IndexOf(x, y, qu.n)];
    } else {
      nei := null;
    }
  }

  method SetCost(qu: Queue, nei: Cell, c: int, ghost v: nat)
    requires qu.Indexed() && v < |qu.cells| && nei == qu.cells[v]
    modifies qu.cells`c
    ensures qu.Costs() == old(qu.Costs())[v := c]
  {
    nei.c := c;
  }

  method SetParent(qu: Queue, nei: Cell, cur: Cell, ghost par: seq<int>, ghost u: nat, ghost v: nat)
    requires qu.Indexed() && u < |qu.cells| && v < |qu.cells| && nei == qu.cells[v] && cur == qu.cells[u]
    requires Parented(qu, par)
    modifies qu.cells`p
    ensures Parented(qu, par[v := u])
  {
    nei.p := cur;
  }

  /** A cell seen for the first time is labelled, queued and given its parent. */
  method FirstVisit(qu: Queue, nei: Cell, cur: Cell, ghost s: Search, ghost u: nat, ghost v: nat)
    requires Holds(qu, s) && u < |s.cost| && v < |s.cost| && cur == qu.cells[u] && nei == qu.cells[v] && v !in s.q
    modifies qu`q, qu`qs, qu.cells`c, qu.cells`p, qu.cells`qn, qu.cells`qp
    ensures Holds(qu, Label(s, u, v))
  {
    hide Links, NoDup, IndexOf, Insert, Parented, Queue.Placed, Queue.Linked, Queue.Costs, Queue.CostsTo;
    SetCost(qu, nei, cur.c + 1, v);
    qu.QDel(nei, v);
    qu.QAdd(nei, v);
    SetParent(qu, nei, cur, s.par, u, v);
  }

  /** One neighbour of the popped cell: labelled and queued when it has no better label. */
  method Visit(qu: Queue, grid: array<char>, cur: Cell, dir: nat,
               ghost g: Graph, ghost s: Search, ghost d: int, ghost u: nat)
    returns (ghost t: Search)
    requires g.n == qu.n && g.grid == grid[..] && |qu.cells| == grid.Length
    requires Holds(qu, s) && dir < 4 && Inv(g, s, d, u, dir) && Done(s, u) && s.cost[u] == d && cur == qu.cells[u]
    modifies qu`q, qu`qs, qu.cells`c, qu.cells`p, qu.cells`qn, qu.cells`qp
    ensures Holds(qu, t) && Inv(g, t, d, u, dir + 1) && Done(t, u) && t.cost[u] == d
    ensures forall k :: Done(t, k) <==> Done(s, k)
  {
    hide LabelsReached, Frontier, Expanded, Parents, Walled, Ordered, Insert, IndexOf, Links, Label;
    PoppedIsOpen(g, s, d, u, dir);
    var nei := GetNeigh(qu, grid, cur, dir, g, u);
    ghost var v := Neighbour(g, u, dir);
    t := s;
    if nei == null || Labelled(s, v) {
      SkipInv(g, s, d, u, dir);
    }
    if nei != null {
      if 0 > nei.c || cur.c + 1 < nei.c {
        LabelInv(g, s, d, u, dir, v);
        FirstVisit(qu, nei, cur, s, u, v);
        t := Label(s, u, v);
      }
    }
  }

  lemma PoppedIsOpen(g: Graph, s: Search, d: int, u: nat, dir: nat)
    requires Inv(g, s, d, u, dir) && Done(s, u)
    ensures Open(g, u) && ValidGraph(g) && Walled(g.grid, g.n)
  {
    assert Reach(g, s.cost[u], u);
  }

  // ---------- search_init ----------

  ghost predicate Cleared(qu: Queue, k: nat)
    requires k < |qu.cells|
    reads qu.cells
  {
    var cl := qu.cells[k];
    0 <= cl.x < qu.n && IndexOf(cl.x, cl.y, qu.n) == k && cl.c == -1 && cl.p == null && cl.qn == null && cl.qp == null
  }

  lemma RowEnds(y: int, n: int)
    ensures IndexOf(n, y, n) == IndexOf(0, y + 1, n)
    ensures IndexOf(0, 0, n) == 0 && IndexOf(0, n, n) == n * n
  {
  }

  /** search_init: every cell gets its coordinates and is unlabelled, the queue is empty. */
  method SearchInit(qu: Queue)
    requires qu.Indexed() && |qu.cells| == qu.n * qu.n
    modifies qu`q, qu`qs, qu.cells
    ensures qu.Placed() && qu.Linked() && qu.qs == []
    ensures forall k :: 0 <= k < |qu.cells| ==> qu.Costs()[k] == -1
  {
    hide IndexOf;
    ghost var n := qu.n;
    var y := 0;
    RowEnds(0, n);
    while y < qu.n
      invariant 0 <= y <= n && 0 <= IndexOf(0, y, n) <= |qu.cells|
      invariant forall k :: 0 <= k < IndexOf(0, y, n) ==> Cleared(qu, k)
    {
      var x := 0;
      while x < qu.n
        invariant 0 <= x <= n && 0 <= IndexOf(x, y, n) <= |qu.cells|
        invariant forall k :: 0 <= k < IndexOf(x, y, n) ==> Cleared(qu, k)
      {
        InGrid(x, y, n);
        var i := IndexOf(x, y, qu.n);
        ClearCell(qu, i, x, y);
        StepIndex(x, y, n);
        x := x + 1;
      }
      RowEnds(y, n);
      y := y + 1;
    }
    qu.q := null;
    qu.qs := [];
    assert forall k :: 0 <= k < |qu.cells| ==> Cleared(qu, k);
    Blank(qu);
  }

  method ClearCell(qu: Queue, i: nat, x: int, y: int)
    requires qu.Indexed() && i < |qu.cells| && 0 <= x < qu.n && IndexOf(x, y, qu.n) == i
    requires forall k :: 0 <= k < i ==> Cleared(qu, k)
    modifies qu.cells[i]
    ensures forall k :: 0 <= k <= i ==> Cleared(qu, k)
  {
    hide IndexOf;
    qu.cells[i].x := x;
    qu.cells[i].y := y;
    qu.cells[i].c := -1;
    qu.cells[i].p := null;
    qu.cells[i].qn := null;
    qu.cells[i].qp := null;
    forall k | 0 <= k < i
      ensures Cleared(qu, k)
    {
      assert old(Cleared(qu, k)) && qu.cells[k] != qu.cells[i];
    }
  }

  lemma Blank(qu: Queue)
    requires qu.q == null && qu.qs == [] && forall k :: 0 <= k < |qu.cells| ==> Cleared(qu, k)
    ensures qu.Placed() && qu.Linked()
    ensures forall k :: 0 <= k < |qu.cells| ==> qu.Costs()[k] == -1
  {
    forall k | 0 <= k < |qu.cells|
      ensures qu.cells[k].c == -1 && qu.cells[k].qp == null && 0 <= qu.cells[k].x < qu.n
      ensures IndexOf(qu.cells[k].x, qu.cells[k].y, qu.n) == k
    {
      assert Cleared(qu, k);
    }
  }

  // ---------- search ----------

  /** The start is labelled 0 and queued. */
  method BeginSearch(qu: Queue, src: Cell, ghost g: Graph)
    requires qu.Indexed() && |qu.cells| == qu.n * qu.n == |g.grid|
    requires ValidGraph(g) && g.src < |g.grid| && src == qu.cells[g.src]
    modifies qu`q, qu`qs, qu.cells
    ensures Holds(qu, Start(g)) && Inv(g, Start(g), 0, 0, 4)
  {
    hide Inv, ValidGraph, Walled, IndexOf, Links, Queue.Linked, Queue.Placed, Queue.Costs, Queue.CostsTo;
    SearchInit(qu);
    SetCost(qu, src, 0, g.src);
    assert qu.Costs() == Start(g).cost;
    qu.QAdd(src, g.src);
    assert qu.qs == [g.src];
    StartInv(g);
  }

  method PopCell(qu: Queue, ghost s: Search) returns (cur: Cell?)
    requires Holds(qu, s)
    modifies qu`q, qu`qs, qu.cells`qn, qu.cells`qp
    ensures s.q == [] ==> cur == null && Holds(qu, s)
    ensures s.q != [] ==> s.q[0] < |qu.cells| && cur == qu.cells[s.q[0]] && Holds(qu, Pop(s))
  {
    hide Links, NoDup, IndexOf, Parented, Queue.Placed, Queue.Costs, Queue.CostsTo, Queue.CellLinks, Queue.LinkedTo;
    cur := qu.QPop();
  }

  /** All four neighbours of the popped cell are visited. */
  method VisitAll(qu: Queue, grid: array<char>, cur: Cell, ghost g: Graph, ghost s: Search, ghost d: int, ghost u: nat)
    returns (ghost t: Search)
    requires g.n == qu.n && g.grid == grid[..] && |qu.cells| == grid.Length
    requires Holds(qu, s) && Inv(g, s, d, u, 0) && Done(s, u) && s.cost[u] == d && cur == qu.cells[u]
    modifies qu`q, qu`qs, qu.cells`c, qu.cells`p, qu.cells`qn, qu.cells`qp
    ensures Holds(qu, t) && Inv(g, t, d, u, 4)
    ensures forall k :: Done(t, k) <==> Done(s, k)
  {
    hide Inv, Holds;
    t := s;
    var i := 0;
    while i < 4
      invariant 0 <= i <= 4 && Holds(qu, t) && Inv(g, t, d, u, i) && Done(t, u) && t.cost[u] == d
      invariant forall k :: Done(t, k) <==> Done(s, k)
    {
      t := Visit(qu, grid, cur, i, g, t, d, u);
      i := i + 1;
    }
  }

  /** One round of the search: the cell popped from s is not dst, and its neighbours are visited. */
  method Expand(qu: Queue, grid: array<char>, cur: Cell, ghost g: Graph, ghost s: Search, ghost d: int, ghost u: nat)
    returns (ghost t: Search, ghost e: int, ghost v: nat)
    requires g.n == qu.n && g.grid == grid[..] && |qu.cells| == grid.Length
    requires Inv(g, s, d, u, 4) && s.q != [] && Holds(qu, Pop(s)) && s.q[0] < |qu.cells| && cur == qu.cells[s.q[0]]
    modifies qu`q, qu`qs, qu.cells`c, qu.cells`p, qu.cells`qn, qu.cells`qp
    ensures Holds(qu, t) && Inv(g, t, e, v, 4) && |Waiting(t)| < |Waiting(s)|
    ensures forall k :: Done(t, k) ==> Done(Pop(s), k)
  {
    PopInv(g, s, d, u);
    e, v := s.cost[s.q[0]], s.q[0];
    assert Shape(g, s);
    hide Inv, Holds, Waiting, Shape, Done;
    t := VisitAll(qu, grid, cur, g, Pop(s), e, v);
    Sizes(g, s, d, u, t, e, v);
    PopShrinksWaiting(g, s, t);
  }

  lemma Sizes(g: Graph, s: Search, d: int, u: int, t: Search, e: int, v: int)
    requires Inv(g, s, d, u, 4) && Inv(g, t, e, v, 4)
    ensures |s.cost| == |t.cost| == |g.grid|
  {
  }

  lemma DoneByPop(s: Search, k: int)
    requires s.q != [] && Done(Pop(s), k) && k != s.q[0]
    ensures Done(s, k)
  {
    assert s.q == [s.q[0]] + Pop(s).q;
  }

  /**
   * The search proper. It ends with dst popped, the state before that pop being s, or with an empty queue
   * and dst never seen.
   */
  method Explore(qu: Queue, grid: array<char>, src: Cell, dst: Cell, ghost g: Graph, ghost di: nat)
    returns (cur: Cell?, ghost s: Search, ghost d: int, ghost u: nat)
    requires qu.Indexed() && |qu.cells| == qu.n * qu.n == |g.grid| && g.n == qu.n && g.grid == grid[..]
    requires ValidGraph(g) && g.src < |g.grid| && di < |qu.cells| && src == qu.cells[g.src] && dst == qu.cells[di]
    modifies qu`q, qu`qs, qu.cells
    ensures Inv(g, s, d, u, 4) && di < |s.cost|
    ensures if cur == null then s.q == [] && !Labelled(s, di)
            else cur == dst && s.q != [] && s.q[0] == di && Holds(qu, Pop(s))
  {
    hide *;
    BeginSearch(qu, src, g);
    s, d, u := Start(g), 0, 0;
    StartIsNotDone(qu, g, di);
    while true
      invariant Holds(qu, s) && Inv(g, s, d, u, 4) && !Done(s, di) && di < |s.cost| == |qu.cells|
      decreases |Waiting(s)|
    {
      cur := PopCell(qu, s);
      if cur == null {
        break;
      }
      if cur == dst {
        break;
      }
      ghost var s0, d0, u0 := s, d, u;
      s, d, u := Expand(qu, grid, cur, g, s, d, u);
      Sizes(g, s0, d0, u0, s, d, u);
      if Done(s, di) {
        DoneByPop(s0, di);
      }
    }
    NotDone(s, di);
    if s.q != [] {
      SameCell(qu, s.q[0], di);
    }
  }

  lemma StartIsNotDone(qu: Queue, g: Graph, di: nat)
    requires g.src < |g.grid| && Holds(qu, Start(g)) && di < |qu.cells|
    ensures !Done(Start(g), di) && |Start(g).cost| == |qu.cells|
  {
  }

  lemma SameCell(qu: Queue, j: nat, k: nat)
    requires qu.Indexed() && j < |qu.cells| && k < |qu.cells|
    ensures qu.cells[j] == qu.cells[k] ==> j == k
  {
  }

  lemma NotDone(s: Search, k: nat)
    requires !Done(s, k)
    ensures s.q == [] ==> !Labelled(s, k)
  {
  }
}
