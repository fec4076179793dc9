/** The cells of the grid and the sorted, doubly linked queue threaded through them. */
module PathQueue {
  import opened Grid
  import opened Bfs

  class Cell {
    ghost const id: nat  // place in the array of cells
    var x: int
    var y: int
    var c: int           // cost from src
    var p: Cell?         // parent
    var qn: Cell?        // next in the queue
    var qp: Cell?        // previous in the queue

    constructor (ghost id: nat)
      ensures this.id == id
    {
      this.id := id;
    }
  }

  /** <0: a before b, >0: a after b. */
  function CostCmp(a: Cell, b: Cell): int
    reads a, b
  {
    if a.c != b.c then a.c - b.c
    else if a.y != b.y then a.y - b.y
    else a.x - b.x
  }

  ghost predicate NoDup(r: seq<nat>) {
    forall i, j :: 0 <= i < j < |r| ==> r[i] != r[j]
  }

  lemma Differ(r: seq<nat>, i: nat, j: nat)
    requires NoDup(r) && i < |r| && j < |r| && i != j
    ensures r[i] != r[j]
  {
  }

  lemma NoDupTail(r: seq<nat>)
    requires NoDup(r) && r != []
    ensures NoDup(r[1..]) && forall k :: k in r[1..] <==> k in r && k != r[0]
  {
    forall k | k in r && k != r[0]
      ensures k in r[1..]
    {
      var i :| 0 <= i < |r| && r[i] == k;
      assert r[1..][i - 1] == k;
    }
  }

  lemma NoDupInsert(r: seq<nat>, m: nat, k: nat)
    requires NoDup(r) && m <= |r| && k !in r
    ensures NoDup(r[..m] + [k] + r[m..]) && forall j :: j in r[..m] + [k] + r[m..] <==> j in r || j == k
  {
    var t := r[..m] + [k] + r[m..];
    assert t[m] == k;
    forall j | j in r
      ensures j in t
    {
      var i :| 0 <= i < |r| && r[i] == j;
      assert t[if i < m then i else i + 1] == j;
    }
  }

  lemma NoDupRemove(r: seq<nat>, m: nat)
    requires NoDup(r) && m < |r|
    ensures NoDup(r[..m] + r[m + 1..]) && forall j :: j in r[..m] + r[m + 1..] <==> j in r && j != r[m]
  {
    var t := r[..m] + r[m + 1..];
    forall j | j in r && j != r[m]
      ensures j in t
    {
      var i :| 0 <= i < |r| && r[i] == j;
      assert t[if i < m then i else i - 1] == j;
    }
  }

  // ---------- Links as values ----------

  /** The cell at place i of r. */
  ghost function At(cells: seq<Cell>, r: seq<nat>, i: int): Cell?
    requires InRange(r, |cells|)
  {
    if 0 <= i < |r| then cells[r[i]] else null
  }

  /** Next and previous links of all cells. */
  datatype LinkMap = LinkMap(qn: seq<Cell?>, qp: seq<Cell?>)

  /** The links of the cell at place i lead to its neighbours in r. */
  ghost predicate LinkAt(cells: seq<Cell>, r: seq<nat>, l: LinkMap, i: nat)
    requires InRange(r, |cells|) && i < |r| && |l.qn| == |l.qp| == |cells|
  {
    l.qn[r[i]] == At(cells, r, i + 1) && l.qp[r[i]] == At(cells, r, i - 1)
  }

  /** The cells in r are linked in this order; cells outside have no predecessor. */
  ghost predicate Links(cells: seq<Cell>, r: seq<nat>, l: LinkMap) {
    |l.qn| == |l.qp| == |cells| && InRange(r, |cells|) && NoDup(r) &&
    (forall i :: 0 <= i < |r| ==> LinkAt(cells, r, l, i)) &&
    (forall k :: 0 <= k < |cells| && k !in r ==> l.qp[k] == null)
  }

  lemma LinksAt(cells: seq<Cell>, r: seq<nat>, l: LinkMap, i: nat)
    requires Links(cells, r, l) && i < |r|
    ensures InRange(r, |cells|) && NoDup(r) && LinkAt(cells, r, l, i)
    ensures i + 1 < |r| ==> r[i] != r[i + 1]
  {
  }

  /** The head leaves. */
  lemma LinkedOutHead(cells: seq<Cell>, r: seq<nat>, l: LinkMap, t: LinkMap)
    requires Links(cells, r, l) && r != [] && |t.qn| == |t.qp| == |cells|
    requires forall j :: 0 <= j < |cells| && j != r[0] ==> t.qn[j] == l.qn[j]
    requires forall j :: 0 <= j < |cells| ==> t.qp[j] == if 1 < |r| && j == r[1] then null else l.qp[j]
    ensures Links(cells, r[1..], t) && InRange(r[1..], |cells|) && NoDup(r[1..])
    ensures forall k :: k in r[1..] <==> k in r && k != r[0]
  {
    hide NoDup;
    NoDupTail(r);
    assert LinkAt(cells, r, l, 0);
    forall i | 0 <= i < |r[1..]|
      ensures LinkAt(cells, r[1..], t, i)
    {
      assert LinkAt(cells, r, l, i + 1);
      Differ(r, 0, i + 1);
      if 0 < i {
        Differ(r, 1, i + 1);
      }
    }
  }

  /** A cell other than the head leaves. */
  lemma LinkedOut(cells: seq<Cell>, r: seq<nat>, m: nat, l: LinkMap, t: LinkMap)
    requires Links(cells, r, l) && 0 < m < |r| && |t.qn| == |t.qp| == |cells|
    requires forall j :: 0 <= j < |cells| && j != r[m] ==>
               t.qn[j] == if j == r[m - 1] then At(cells, r, m + 1) else l.qn[j]
    requires forall j :: 0 <= j < |cells| && j != r[m] ==>
               t.qp[j] == if m + 1 < |r| && j == r[m + 1] then cells[r[m - 1]] else l.qp[j]
    requires t.qp[r[m]] == null
    ensures InRange(r[..m] + r[m + 1..], |cells|) && NoDup(r[..m] + r[m + 1..])
    ensures Links(cells, r[..m] + r[m + 1..], t)
  {
    hide NoDup;
    var u := r[..m] + r[m + 1..];
    NoDupRemove(r, m);
    forall i | 0 <= i < |u|
      ensures LinkAt(cells, u, t, i)
    {
      var h := if i < m then i else i + 1;
      assert LinkAt(cells, r, l, h) && u[i] == r[h];
      Differ(r, h, m);
      if h != m - 1 {
        Differ(r, h, m - 1);
      }
      if m + 1 < |r| && h != m + 1 {
        Differ(r, h, m + 1);
      }
    }
  }

  /** Cell k enters at place m. */
  lemma LinkedIn(cells: seq<Cell>, r: seq<nat>, m: nat, k: nat, l: LinkMap, t: LinkMap)
    requires Links(cells, r, l) && k < |cells| && k !in r && m <= |r| && |t.qn| == |t.qp| == |cells|
    requires forall j :: 0 <= j < |cells| ==>
               t.qn[j] == if j == k then At(cells, r, m) else if 0 < m && j == r[m - 1] then cells[k] else l.qn[j]
    requires forall j :: 0 <= j < |cells| ==>
               t.qp[j] == if j == k then At(cells, r, m - 1) else if m < |r| && j == r[m] then cells[k] else l.qp[j]
    ensures InRange(r[..m] + [k] + r[m..], |cells|) && NoDup(r[..m] + [k] + r[m..])
    ensures Links(cells, r[..m] + [k] + r[m..], t)
  {
    hide NoDup;
    var u := r[..m] + [k] + r[m..];
    NoDupInsert(r, m, k);
    forall i | 0 <= i < |u|
      ensures LinkAt(cells, u, t, i)
    {
      if i < m {
        if i < m - 1 {
          Differ(r, i, m - 1);
        }
        LinkedInBefore(cells, r, m, k, l, t, i);
      } else if m < i {
        if m < i - 1 {
          Differ(r, i - 1, m);
        }
        LinkedInAfter(cells, r, m, k, l, t, i);
      }
    }
  }

  lemma LinkedInBefore(cells: seq<Cell>, r: seq<nat>, m: nat, k: nat, l: LinkMap, t: LinkMap, i: nat)
    requires Links(cells, r, l) && k < |cells| && k !in r && i < m <= |r| && |t.qn| == |t.qp| == |cells|
    requires t.qn[r[i]] == if i == m - 1 then cells[k] else l.qn[r[i]]
    requires forall j :: 0 <= j < |cells| ==>
               t.qp[j] == if j == k then At(cells, r, m - 1) else if m < |r| && j == r[m] then cells[k] else l.qp[j]
    ensures InRange(r[..m] + [k] + r[m..], |cells|) && LinkAt(cells, r[..m] + [k] + r[m..], t, i)
  {
    hide NoDup;
    assert LinkAt(cells, r, l, i);
    if m < |r| {
      Differ(r, i, m);
    }
  }

  lemma LinkedInAfter(cells: seq<Cell>, r: seq<nat>, m: nat, k: nat, l: LinkMap, t: LinkMap, i: nat)
    requires Links(cells, r, l) && k < |cells| && k !in r && m < i <= |r| && |t.qn| == |t.qp| == |cells|
    requires forall j :: 0 <= j < |cells| ==>
               t.qn[j] == if j == k then At(cells, r, m) else if 0 < m && j == r[m - 1] then cells[k] else l.qn[j]
    requires t.qp[r[i - 1]] == if i == m + 1 then cells[k] else l.qp[r[i - 1]]
    ensures InRange(r[..m] + [k] + r[m..], |cells|) && LinkAt(cells, r[..m] + [k] + r[m..], t, i)
  {
    hide NoDup;
    assert LinkAt(cells, r, l, i - 1);
    if 0 < m {
      Differ(r, i - 1, m - 1);
    }
  }

  /** The queue head and the cells it links; qs is the queue as indices into the cells. */
  class Queue {
    const n: nat
    const cells: seq<Cell>
    var q: Cell?
    ghost var qs: seq<nat>

    constructor (n: nat, cells: seq<Cell>)
      ensures this.n == n && this.cells == cells && q == null && qs == []
    {
      this.n := n;
      this.cells := cells;
      q := null;
      qs := [];
    }

    ghost predicate Indexed() {
      forall i :: 0 <= i < |cells| ==> cells[i].id == i
    }

    /** Each cell knows its coordinates. */
    ghost predicate Placed()
      reads cells`x, cells`y
    {
      forall i :: 0 <= i < |cells| ==> 0 <= cells[i].x < n && IndexOf(cells[i].x, cells[i].y, n) == i
    }

    ghost function Costs(): (s: seq<int>)
      reads cells`c
      ensures |s| == |cells| && forall i :: 0 <= i < |s| ==> s[i] == cells[i].c
    {
      CostsTo(|cells|)
    }

    ghost function CostsTo(m: nat): (s: seq<int>)
      requires m <= |cells|
      reads cells`c
      ensures |s| == m && forall i :: 0 <= i < m ==> s[i] == cells[i].c
    {
      if m == 0 then [] else CostsTo(m - 1) + [cells[m - 1].c]
    }

    ghost function LinkedTo(m: nat): (l: LinkMap)
      requires m <= |cells|
      reads cells`qn, cells`qp
      ensures |l.qn| == |l.qp| == m
      ensures forall i :: 0 <= i < m ==> l.qn[i] == cells[i].qn
      ensures forall i :: 0 <= i < m ==> l.qp[i] == cells[i].qp
    {
      if m == 0 then LinkMap([], []) else
        var l := LinkedTo(m - 1);
        LinkMap(l.qn + [cells[m - 1].qn], l.qp + [cells[m - 1].qp])
    }

    ghost function CellLinks(): (l: LinkMap)
      reads cells`qn, cells`qp
      ensures |l.qn| == |l.qp| == |cells|
      ensures forall i :: 0 <= i < |cells| ==> l.qn[i] == cells[i].qn
      ensures forall i :: 0 <= i < |cells| ==> l.qp[i] == cells[i].qp
    {
      LinkedTo(|cells|)
    }

    ghost predicate Linked()
      reads this, cells`qn, cells`qp
    {
      InRange(qs, |cells|) && NoDup(qs) && Links(cells, qs, CellLinks()) && q == At(cells, qs, 0)
    }

    /** costcmp decides the order of the queue. */
    lemma CompareCells(j: nat, k: nat)
      requires Placed() && j < |cells| && k < |cells|
      ensures 0 < CostCmp(cells[j], cells[k]) <==> Before(Costs(), k, j)
    {
      IndexOrder(cells[k].x, cells[k].y, cells[j].x, cells[j].y, n);
      IndexOrder(cells[j].x, cells[j].y, cells[k].x, cells[k].y, n);
    }

    /** qfind: the constant-time test is membership. */
    method QFind(cl: Cell, ghost k: nat) returns (found: bool)
      requires Linked() && Indexed() && k < |cells| && cells[k] == cl
      ensures found <==> k in qs
    {
      hide NoDup;
      ghost var l := CellLinks();
      if k in qs {
        ghost var i :| 0 <= i < |qs| && qs[i] == k;
        LinksAt(cells, qs, l, i);
      }
      found := cl == q || cl.qp != null;
    }

    /** qpop: takes the head off. */
    method QPop() returns (p: Cell?)
      requires Linked() && Indexed()
      modifies this`q, this`qs, cells`qn, cells`qp
      ensures Linked()
      ensures old(qs) == [] ==> p == null && qs == []
      ensures old(qs) != [] ==> p == cells[old(qs)[0]] && qs == old(qs)[1..]
    {
      hide NoDup, Links, IndexOf, Queue.CellLinks, Queue.LinkedTo;
      ghost var r, l := qs, CellLinks();
      p := q;
      if p != null {
        LinksAt(cells, r, l, 0);
        q := p.qn;
        p.qn := null;
        if q != null {
          q.qp := null;
        }
        qs := r[1..];
        LinkedOutHead(cells, r, l, CellLinks());
      }
    }

    /** qdel: takes a cell out of the queue, wherever it is. */
    method QDel(cl: Cell, ghost k: nat)
      requires Linked() && Indexed() && k < |cells| && cells[k] == cl
      modifies this`q, this`qs, cells`qn, cells`qp
      ensures Linked()
      ensures k !in old(qs) ==> qs == old(qs)
      ensures k in old(qs) ==>
        exists m :: 0 <= m < |old(qs)| && old(qs)[m] == k && qs == old(qs)[..m] + old(qs)[m + 1..]
    {
      hide NoDup, Links, IndexOf, Queue.CellLinks, Queue.LinkedTo;
      ghost var r, l := qs, CellLinks();
      var found := QFind(cl, k);
      if !found {
        return;
      }
      if cl == q {
        LinksAt(cells, r, l, 0);
        assert r[0] == k;
        q := cl.qn;
        if q != null {
          q.qp := null;
        }
        qs := r[1..];
        LinkedOutHead(cells, r, l, CellLinks());
        assert r[..0] + r[1..] == r[1..];
      } else if q != null {
        ghost var h :| 0 <= h < |r| && r[h] == k;
        QDelInside(cl, k, h);
      }
    }

    /** The walk of qdel to a cell that is not the head. */
    method QDelInside(cl: Cell, ghost k: nat, ghost h: nat)
      requires Linked() && Indexed() && k < |cells| && cells[k] == cl
      requires 0 < h < |qs| && qs[h] == k
      modifies this`qs, cells`qn, cells`qp
      ensures Linked() && qs == old(qs)[..h] + old(qs)[h + 1..]
    {
      hide NoDup, Links, IndexOf, Queue.CellLinks, Queue.LinkedTo;
      ghost var r, l := qs, CellLinks();
      LinksAt(cells, r, l, h);
      var p := q;
      ghost var i := 0;
      while p.qn != null
        invariant 0 <= i < h && p == cells[r[i]]
        invariant Linked() && qs == r && CellLinks() == l
        decreases h - i
      {
        LinksAt(cells, r, l, i);
        if cl == p.qn {
          break;
        }
        p := p.qn;
        i := i + 1;
      }
      LinksAt(cells, r, l, i);
      Unlink(p, cl, h);
    }

    /** Unlinks cl, which follows p. */
    method Unlink(p: Cell, cl: Cell, ghost h: nat)
      requires Linked() && Indexed() && 0 < h < |qs| && p == cells[qs[h - 1]] && cl == cells[qs[h]]
      modifies this`qs, cells`qn, cells`qp
      ensures Linked() && qs == old(qs)[..h] + old(qs)[h + 1..]
    {
      hide NoDup, Links, IndexOf, Queue.CellLinks, Queue.LinkedTo;
      ghost var r, l := qs, CellLinks();
      LinksAt(cells, r, l, h);
      Differ(r, h - 1, h);
      p.qn := cl.qn;
      if p.qn != null {
        Differ(r, h, h + 1);
        p.qn.qp := p;
      }
      cl.qn := null;
      cl.qp := null;
      qs := r[..h] + r[h + 1..];
      LinkedOut(cells, r, h, l, CellLinks());
    }

    /** qadd: links a cell in before the first one that comes after it. */
    method QAdd(cl: Cell, ghost k: nat)
      requires Linked() && Indexed() && Placed() && k < |cells| && cells[k] == cl && k !in qs
      modifies this`q, this`qs, cells`qn, cells`qp
      ensures Linked() && qs == Insert(old(Costs()), old(qs), k)
    {
      hide NoDup, Links, IndexOf, Queue.CellLinks, Queue.LinkedTo;
      ghost var r, l, cost := qs, CellLinks(), Costs();
      ghost var m := Place(cost, r, k);
      if r != [] {
        CompareCells(r[0], k);
      }
      if q == null {
        q := cl;
        cl.qp := null;
        cl.qn := null;
      } else if 0 < CostCmp(q, cl) {
        cl.qn := q;
        cl.qp := null;
        q := cl;
        cl.qn.qp := cl;
      } else {
        QAddInside(cl, k);
        return;
      }
      qs := Insert(cost, r, k);
      LinkedIn(cells, r, m, k, l, CellLinks());
    }

    /** The walk of qadd past cells that come before. */
    method QAddInside(cl: Cell, ghost k: nat)
      requires Linked() && Indexed() && Placed() && k < |cells| && cells[k] == cl && k !in qs
      requires 0 < Place(Costs(), qs, k)
      modifies this`qs, cells`qn, cells`qp
      ensures Linked() && qs == Insert(old(Costs()), old(qs), k)
    {
      hide NoDup, Links, IndexOf, Queue.CellLinks, Queue.LinkedTo;
      ghost var r, l, cost := qs, CellLinks(), Costs();
      ghost var m := Place(cost, r, k);
      var p := q;
      ghost var i := 0;
      while p.qn != null
        invariant 0 <= i < |r| && i < m && p == cells[r[i]]
        invariant Linked() && qs == r && CellLinks() == l && Costs() == cost && Placed()
        decreases |r| - i
      {
        LinksAt(cells, r, l, i);
        CompareCells(r[i + 1], k);
        if 0 < CostCmp(p.qn, cl) {
          break;
        }
        p := p.qn;
        i := i + 1;
      }
      LinksAt(cells, r, l, i);
      if p.qn != null {
        CompareCells(r[i + 1], k);
        LinkBetween(p, cl, k, i);
      } else {
        LinkTail(p, cl, k, i);
      }
      assert m == i + 1;
    }

    /** Links cl in between p and its successor. */
    method LinkBetween(p: Cell, cl: Cell, ghost k: nat, ghost i: nat)
      requires Linked() && Indexed() && k < |cells| && cells[k] == cl && k !in qs
      requires i < |qs| && p == cells[qs[i]] && p.qn != null
      modifies this`qs, cells`qn, cells`qp
      ensures Linked() && qs == old(qs)[..i + 1] + [k] + old(qs)[i + 1..]
    {
      hide NoDup, Links, IndexOf, Queue.CellLinks, Queue.LinkedTo;
      ghost var r, l := qs, CellLinks();
      LinksAt(cells, r, l, i);
      Differ(r, i, i + 1);
      cl.qn := p.qn;
      cl.qp := p;
      p.qn.qp := cl;
      p.qn := cl;
      qs := r[..i + 1] + [k] + r[i + 1..];
      ghost var t := CellLinks();
      forall j | 0 <= j < |cells|
        ensures t.qn[j] == if j == k then At(cells, r, i + 1) else if j == r[i] then cells[k] else l.qn[j]
      {
        assert cells[j].id == j;
      }
      forall j | 0 <= j < |cells|
        ensures t.qp[j] == if j == k then At(cells, r, i) else if j == r[i + 1] then cells[k] else l.qp[j]
      {
        assert cells[j].id == j;
      }
      LinkedIn(cells, r, i + 1, k, l, t);
    }

    /** Links cl in after the tail p. */
    method LinkTail(p: Cell, cl: Cell, ghost k: nat, ghost i: nat)
      requires Linked() && Indexed() && k < |cells| && cells[k] == cl && k !in qs
      requires i < |qs| && p == cells[qs[i]] && p.qn == null
      modifies this`qs, cells`qn, cells`qp
      ensures Linked() && qs == old(qs)[..i + 1] + [k] + old(qs)[i + 1..]
    {
      hide NoDup, Links, IndexOf, Queue.CellLinks, Queue.LinkedTo;
      ghost var r, l := qs, CellLinks();
      LinksAt(cells, r, l, i);
      p.qn := cl;
      cl.qp := p;
      cl.qn := null;
      qs := r[..i + 1] + [k] + r[i + 1..];
      ghost var t := CellLinks();
      forall j | 0 <= j < |cells|
        ensures t.qn[j] == if j == k then At(cells, r, i + 1) else if j == r[i] then cells[k] else l.qn[j]
        ensures t.qp[j] == if j == k then At(cells, r, i) else l.qp[j]
      {
        assert cells[j].id == j;
      }
      LinkedIn(cells, r, i + 1, k, l, t);
    }
  }
}
