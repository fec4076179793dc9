/** The search on values: labels, parents and queue, and what every step of it keeps. */
module Bfs {
  import opened Grid

  /** Cost and parent per cell (-1 for none) and the cells queued. */
  datatype Search = Search(cost: seq<int>, par: seq<int>, q: seq<nat>)

  /** costcmp: by cost, then by place. */
  predicate Before(cost: seq<int>, j: int, k: int)
    requires 0 <= j < |cost| && 0 <= k < |cost|
  {
    cost[j] < cost[k] || (cost[j] == cost[k] && j < k)
  }

  predicate InRange(q: seq<nat>, n: nat) {
    forall i :: 0 <= i < |q| ==> q[i] < n
  }

  predicate Ordered(cost: seq<int>, q: seq<nat>)
    requires InRange(q, |cost|)
  {
    forall i, j :: 0 <= i < j < |q| ==> Before(cost, q[i], q[j])
  }

  /** Where k goes in the queue: before the first cell that comes after it. */
  function Place(cost: seq<int>, q: seq<nat>, k: nat): (m: nat)
    requires InRange(q, |cost|) && k < |cost|
    ensures m <= |q|
    ensures forall i :: 0 <= i < m ==> !Before(cost, k, q[i])
    ensures m < |q| ==> Before(cost, k, q[m])
  {
    if q == [] || Before(cost, k, q[0]) then 0 else 1 + Place(cost, q[1..], k)
  }

  function Insert(cost: seq<int>, q: seq<nat>, k: nat): (r: seq<nat>)
    requires InRange(q, |cost|) && k < |cost|
    ensures InRange(r, |cost|)
  {
    var m := Place(cost, q, k);
    q[..m] + [k] + q[m..]
  }

  /** In a sorted queue the cells before the place come before k, and those behind it after k. */
  lemma PlaceSplits(cost: seq<int>, q: seq<nat>, k: nat)
    requires InRange(q, |cost|) && Ordered(cost, q) && k < |cost| && k !in q
    ensures forall i :: 0 <= i < Place(cost, q, k) ==> Before(cost, q[i], k)
    ensures forall i :: Place(cost, q, k) <= i < |q| ==> Before(cost, k, q[i])
  {
    var m := Place(cost, q, k);
    hide Place;
    forall i | m <= i < |q|
      ensures Before(cost, k, q[i])
    {
      assert i == m || Before(cost, q[m], q[i]);
    }
  }

  lemma InsertMembers(cost: seq<int>, q: seq<nat>, k: nat)
    requires InRange(q, |cost|) && k < |cost|
    ensures forall j :: j in Insert(cost, q, k) <==> j in q || j == k
  {
    var m := Place(cost, q, k);
    assert q == q[..m] + q[m..];
    hide Place;
  }

  lemma InsertKeepsOrder(cost: seq<int>, q: seq<nat>, k: nat)
    requires InRange(q, |cost|) && Ordered(cost, q) && k < |cost| && k !in q
    ensures Ordered(cost, Insert(cost, q, k))
    ensures forall j :: j in Insert(cost, q, k) <==> j in q || j == k
  {
    InsertMembers(cost, q, k);
    PlaceSplits(cost, q, k);
    var m, r := Place(cost, q, k), Insert(cost, q, k);
    assert forall i :: 0 <= i < |r| ==> r[i] == if i < m then q[i] else if i == m then k else q[i - 1];
    hide Place, Before, Insert;
    forall i, j | 0 <= i < j < |r|
      ensures Before(cost, r[i], r[j])
    {
    }
  }

  /** The label of a cell outside the queue does not matter to the queue. */
  lemma OrderedUpdate(cost: seq<int>, q: seq<nat>, v: nat, c: int)
    requires InRange(q, |cost|) && Ordered(cost, q) && v < |cost| && v !in q
    ensures Ordered(cost[v := c], q)
  {
  }

  // ---------- The invariant ----------

  ghost predicate Labelled(s: Search, k: int) {
    0 <= k < |s.cost| && 0 <= s.cost[k]
  }

  /** Popped: labelled and no longer queued. */
  ghost predicate Done(s: Search, k: int) {
    Labelled(s, k) && k !in s.q
  }

  ghost predicate Shape(g: Graph, s: Search) {
    ValidGraph(g) && |s.cost| == |s.par| == |g.grid| && InRange(s.q, |s.cost|) && Ordered(s.cost, s.q)
  }

  /** Labels are lengths of walks over open cells; the start has label 0. */
  ghost predicate LabelsReached(g: Graph, s: Search) {
    Labelled(s, g.src) && s.cost[g.src] == 0 &&
    forall k :: Labelled(s, k) ==> Reach(g, s.cost[k], k)
  }

  /** Queued labels are d or d + 1; popped ones are at most d, and pops went in order. */
  ghost predicate Frontier(s: Search, d: int)
    requires InRange(s.q, |s.cost|)
  {
    0 <= d &&
    (forall k :: k in s.q ==> d <= s.cost[k] <= d + 1) &&
    (forall k :: Done(s, k) ==> s.cost[k] <= d) &&
    (forall w, k :: Done(s, w) && k in s.q && s.cost[w] == s.cost[k] ==> w < k)
  }

  /**
   * The open neighbours of popped cells are labelled at most one higher, but for those of u in the directions
   * from dir on.
   */
  ghost predicate Expanded(g: Graph, s: Search, u: int, dir: nat) {
    forall j, k :: Done(s, j) && Adjacent(g, j, k) && Open(g, k) ==>
      Near(s, j, k) || (j == u && exists e :: dir <= e < 4 && k == Neighbour(g, u, e))
  }

  ghost predicate Near(s: Search, j: int, k: int)
    requires 0 <= j < |s.cost|
  {
    Labelled(s, k) && s.cost[k] <= s.cost[j] + 1
  }

  /** The parent of a cell is the first popped cell one step closer. */
  ghost predicate Parents(g: Graph, s: Search)
    requires |s.cost| == |s.par|
  {
    (forall k :: Labelled(s, k) && k != g.src ==>
      Done(s, s.par[k]) && Adjacent(g, s.par[k], k) && s.cost[s.par[k]] == s.cost[k] - 1) &&
    (forall k, w :: Labelled(s, k) && k != g.src && Done(s, w) && Adjacent(g, w, k) && s.cost[w] == s.cost[k] - 1 ==>
      s.par[k] <= w)
  }

  ghost predicate Inv(g: Graph, s: Search, d: int, u: int, dir: nat) {
    Shape(g, s) && LabelsReached(g, s) && Frontier(s, d) && Expanded(g, s, u, dir) && Parents(g, s)
  }

  // ---------- Start ----------

  function Start(g: Graph): (s: Search)
    requires g.src < |g.grid|
  {
    Search(seq(|g.grid|, i => if i == g.src then 0 else -1), seq(|g.grid|, i => -1), [g.src])
  }

  lemma StartInv(g: Graph)
    requires ValidGraph(g)
    ensures Inv(g, Start(g), 0, 0, 4)
  {
  }

  // ---------- Popping ----------

  function Pop(s: Search): (t: Search)
    requires s.q != []
  {
    s.(q := s.q[1..])
  }

  lemma PopMembers(s: Search)
    requires s.q != [] && InRange(s.q, |s.cost|) && Ordered(s.cost, s.q)
    ensures s.q[0] !in Pop(s).q
    ensures forall k :: k in s.q <==> k == s.q[0] || k in Pop(s).q
    ensures forall k :: k in Pop(s).q ==> Before(s.cost, s.q[0], k)
  {
    var r := s.q[1..];
    forall k | k in r
      ensures Before(s.cost, s.q[0], k)
    {
      var i :| 0 <= i < |r| && r[i] == k;
      assert s.q[i + 1] == k;
    }
  }

  lemma PopDone(s: Search)
    requires s.q != [] && InRange(s.q, |s.cost|) && Ordered(s.cost, s.q) && 0 <= s.cost[s.q[0]]
    ensures forall k :: Done(Pop(s), k) <==> Done(s, k) || k == s.q[0]
  {
    PopMembers(s);
  }

  lemma PopShape(g: Graph, s: Search)
    requires Shape(g, s) && s.q != []
    ensures Shape(g, Pop(s))
  {
    hide ValidGraph;
    assert forall i :: 0 <= i < |s.q| - 1 ==> Pop(s).q[i] == s.q[i + 1];
  }

  /** The labels left in the queue are within one of the label popped, and what is popped came no later. */
  lemma PopFrontier(s: Search, d: int)
    requires s.q != [] && InRange(s.q, |s.cost|) && Ordered(s.cost, s.q) && Frontier(s, d)
    ensures InRange(Pop(s).q, |s.cost|) && Frontier(Pop(s), s.cost[s.q[0]])
  {
    assert s.q[0] in s.q;
    PopMembers(s);
    PopDone(s);
    hide Done, Ordered;
  }

  lemma PopParents(g: Graph, s: Search, d: int)
    requires s.q != [] && InRange(s.q, |s.cost|) && Ordered(s.cost, s.q) && Frontier(s, d)
    requires |s.par| == |s.cost| && Parents(g, s)
    ensures Parents(g, Pop(s))
  {
    var v, t := s.q[0], Pop(s);
    assert v in s.q;
    PopDone(s);
    hide Done, Ordered, Adjacent, Pop;
    forall k, w | Labelled(s, k) && k != g.src && Done(t, w) && Adjacent(g, w, k) && s.cost[w] == s.cost[k] - 1
      ensures s.par[k] <= w
    {
      assert Done(s, s.par[k]);
      if w != v {
        assert Done(s, w);
      }
    }
    PopKeeps(s);
  }

  lemma PopKeeps(s: Search)
    requires s.q != []
    ensures Pop(s).cost == s.cost && Pop(s).par == s.par && forall k :: Labelled(Pop(s), k) <==> Labelled(s, k)
  {
  }

  lemma PopInv(g: Graph, s: Search, d: int, u: int)
    requires Inv(g, s, d, u, 4) && s.q != []
    ensures var v := s.q[0]; Inv(g, Pop(s), s.cost[v], v, 0) && Done(Pop(s), v)
  {
    hide Reach, ValidGraph, Parents, Expanded, Frontier, Ordered;
    PopShape(g, s);
    PopFrontier(s, d);
    PopParents(g, s, d);
    PopExpanded(g, s, u);
    QueuedIsLabelled(s, d);
    PopDone(s);
  }

  lemma QueuedIsLabelled(s: Search, d: int)
    requires s.q != [] && InRange(s.q, |s.cost|) && Frontier(s, d)
    ensures 0 <= s.cost[s.q[0]]
  {
    assert s.q[0] in s.q;
  }

  lemma PopExpanded(g: Graph, s: Search, u: int)
    requires Shape(g, s) && s.q != [] && Expanded(g, s, u, 4)
    ensures Expanded(g, Pop(s), s.q[0], 0)
  {
    hide Reach, Walled, Open;
    PopMembers(s);
    var v, t := s.q[0], Pop(s);
    forall j, k | Done(t, j) && Adjacent(g, j, k) && Open(g, k)
      ensures Near(t, j, k) || (j == v && exists e :: 0 <= e < 4 && k == Neighbour(g, v, e))
    {
      if j == v {
        var e := AdjacentNeighbour(g, j, k);
      } else {
        assert Done(s, j);
      }
    }
  }

  /** The cells not yet popped; each pop removes one. */
  ghost function Waiting(s: Search): set<int> {
    set k | 0 <= k < |s.cost| && !Done(s, k)
  }

  lemma PopShrinksWaiting(g: Graph, s: Search, t: Search)
    requires Shape(g, s) && s.q != [] && Done(Pop(s), s.q[0]) && |t.cost| == |s.cost|
    requires forall k :: Done(t, k) <==> Done(Pop(s), k)
    ensures |Waiting(t)| < |Waiting(s)|
  {
    PopMembers(s);
    assert !Done(s, s.q[0]);
    assert Waiting(t) == Waiting(s) - {s.q[0]};
  }

  // ---------- Labelling a neighbour ----------

  /** Cell v is first seen from u. */
  function Label(s: Search, u: nat, v: nat): (t: Search)
    requires u < |s.cost| && v < |s.cost| == |s.par| && InRange(s.q, |s.cost|)
    ensures |t.cost| == |t.par| == |s.cost|
  {
    var cost := s.cost[v := s.cost[u] + 1];
    Search(cost, s.par[v := u], Insert(cost, s.q, v))
  }

  /** The situation in which v, in direction dir of the popped u, is about to be labelled. */
  ghost predicate Labelling(g: Graph, s: Search, d: int, u: nat, dir: nat, v: nat) {
    dir < 4 && Inv(g, s, d, u, dir) && Done(s, u) && s.cost[u] == d &&
    v == Neighbour(g, u, dir) && Open(g, v) && !Labelled(s, v)
  }

  lemma LabelMembers(g: Graph, s: Search, d: int, u: nat, dir: nat, v: nat)
    requires Labelling(g, s, d, u, dir, v)
    ensures var t := Label(s, u, v);
            Shape(g, t) && v !in s.q && (forall k :: k in t.q <==> k in s.q || k == v) &&
            (forall k :: Labelled(t, k) <==> Labelled(s, k) || k == v) &&
            (forall k :: Done(t, k) <==> Done(s, k))
  {
    hide Reach, Walled, Adjacent, LabelsReached, Expanded, Parents, Ordered, Insert;
    assert forall k :: k in s.q ==> d <= s.cost[k];
    assert v !in s.q;
    OrderedUpdate(s.cost, s.q, v, s.cost[u] + 1);
    InsertKeepsOrder(s.cost[v := s.cost[u] + 1], s.q, v);
  }

  lemma LabelReached(g: Graph, s: Search, d: int, u: nat, dir: nat, v: nat)
    requires Labelling(g, s, d, u, dir, v)
    ensures LabelsReached(g, Label(s, u, v)) && Frontier(Label(s, u, v), d)
  {
    hide Walled, Expanded, Parents, Insert;
    LabelMembers(g, s, d, u, dir, v);
    assert Adjacent(g, u, v) && Reach(g, d, u);
    assert Reach(g, d + 1, v);
  }

  lemma LabelExpanded(g: Graph, s: Search, d: int, u: nat, dir: nat, v: nat)
    requires Labelling(g, s, d, u, dir, v)
    ensures Expanded(g, Label(s, u, v), u, dir + 1)
  {
    hide Reach, Walled, Parents, Frontier, LabelsReached, Insert, Adjacent;
    LabelMembers(g, s, d, u, dir, v);
    var t := Label(s, u, v);
    forall j, k | Done(t, j) && Adjacent(g, j, k) && Open(g, k)
      ensures Near(t, j, k) || (j == u && exists e :: dir + 1 <= e < 4 && k == Neighbour(g, u, e))
    {
      assert Done(s, j);
    }
  }

  lemma LabelParents(g: Graph, s: Search, d: int, u: nat, dir: nat, v: nat)
    requires Labelling(g, s, d, u, dir, v)
    ensures Parents(g, Label(s, u, v))
  {
    hide Reach, Walled, Insert;
    LabelMembers(g, s, d, u, dir, v);
    var t := Label(s, u, v);
    assert Adjacent(g, u, v);
    forall k, w | Labelled(t, k) && k != g.src && Done(t, w) && Adjacent(g, w, k) && t.cost[w] == t.cost[k] - 1
      ensures t.par[k] <= w
    {
      assert Done(s, w) && w != v;
      if k == v {
        assert w == u;
      }
    }
  }

  /** Labelling keeps the invariant and is done with this direction. */
  lemma LabelInv(g: Graph, s: Search, d: int, u: nat, dir: nat, v: nat)
    requires Labelling(g, s, d, u, dir, v)
    ensures Inv(g, Label(s, u, v), d, u, dir + 1) && Done(Label(s, u, v), u)
    ensures v !in s.q && Label(s, u, v).cost[u] == d
    ensures forall k :: Done(Label(s, u, v), k) <==> Done(s, k)
  {
    hide Reach, Walled, Open, Insert, Expanded, Parents, Frontier, LabelsReached;
    LabelMembers(g, s, d, u, dir, v);
    LabelReached(g, s, d, u, dir, v);
    LabelExpanded(g, s, d, u, dir, v);
    LabelParents(g, s, d, u, dir, v);
  }

  /** A neighbour that is a wall or has a label is left alone; its label could not be improved. */
  lemma SkipInv(g: Graph, s: Search, d: int, u: nat, dir: nat)
    requires dir < 4 && Inv(g, s, d, u, dir) && Done(s, u) && s.cost[u] == d
    requires var v := Neighbour(g, u, dir); Open(g, v) ==> Labelled(s, v)
    ensures Inv(g, s, d, u, dir + 1)
    ensures var v := Neighbour(g, u, dir); Open(g, v) ==> s.cost[v] <= s.cost[u] + 1
  {
    hide Reach, Walled, Adjacent;
    var v := Neighbour(g, u, dir);
    assert Open(g, v) ==> Near(s, u, v) by {
      assert Open(g, v) ==> Done(s, v) || v in s.q;
    }
    forall j, k | Done(s, j) && Adjacent(g, j, k) && Open(g, k)
      ensures Near(s, j, k) || (j == u && exists e :: dir + 1 <= e < 4 && k == Neighbour(g, u, e))
    {
    }
  }

  // ---------- What the labels are ----------

  /** Whatever is within d steps of the start is labelled with no more than its distance. */
  lemma {:induction false} NearIsLabelled(g: Graph, s: Search, d: int, u: int, e: nat, k: int)
    requires Inv(g, s, d, u, 4) && Reach(g, e, k) && (e <= d || s.q == [])
    ensures Labelled(s, k) && s.cost[k] <= e
    decreases e
  {
    if 0 < e {
      var j :| Adjacent(g, j, k) && Reach(g, e - 1, j);
      NearIsLabelled(g, s, d, u, e - 1, j);
      assert Done(s, j);
      assert Near(s, j, k);
    }
  }

  /** A label is a distance. */
  lemma LabelIsDistance(g: Graph, s: Search, d: int, u: int, k: int)
    requires Inv(g, s, d, u, 4) && Labelled(s, k)
    ensures Distance(g, s.cost[k], k)
  {
    hide Walled, Adjacent, Expanded, Parents, Reach;
    assert k in s.q || Done(s, k);
    forall e | 0 <= e < s.cost[k]
      ensures !Reach(g, e, k)
    {
      if Reach(g, e, k) {
        NearIsLabelled(g, s, d, u, e, k);
      }
    }
  }

  /** With the queue empty, cells without a label cannot be reached at all. */
  lemma UnlabelledIsUnreachable(g: Graph, s: Search, d: int, u: int, k: int, p: seq<nat>)
    requires Inv(g, s, d, u, 4) && s.q == [] && !Labelled(s, k)
    ensures !IsPath(g, p, k)
  {
    if IsPath(g, p, k) {
      PathReaches(g, p, k);
      NearIsLabelled(g, s, d, u, |p| - 1, k);
    }
  }

  // ---------- The parent chain ----------

  lemma StepBack(g: Graph, s: Search, k: nat)
    requires Shape(g, s) && LabelsReached(g, s) && Parents(g, s) && Labelled(s, k)
    ensures |s.par| == |s.cost| && (k == g.src ==> s.cost[k] == 0)
    ensures k != g.src ==> Labelled(s, s.par[k]) && s.cost[s.par[k]] == s.cost[k] - 1
  {
  }

  /** Following the parents of k back to the start, start first. */
  ghost function Chain(g: Graph, s: Search, k: nat): (p: seq<nat>)
    requires Shape(g, s) && LabelsReached(g, s) && Parents(g, s) && Labelled(s, k)
    ensures |p| == s.cost[k] + 1 && p[|p| - 1] == k && p[0] == g.src
    ensures forall i :: 0 <= i < |p| ==> Labelled(s, p[i]) && s.cost[p[i]] == i
    ensures forall i :: 0 < i < |p| ==> p[i] != g.src && p[i - 1] == s.par[p[i]]
    decreases s.cost[k]
  {
    hide Shape, LabelsReached, Parents, Reach;
    StepBack(g, s, k);
    if k == g.src then [k] else Chain(g, s, s.par[k]) + [k]
  }

  /** Before the pop of a cell, everything closer has been popped. */
  lemma CloserIsDone(g: Graph, s: Search, d: int, u: int, w: int, e: int)
    requires Inv(g, s, d, u, 4) && s.q != [] && Distance(g, e, w) && e < s.cost[s.q[0]]
    ensures Done(s, w) && s.cost[w] == e
  {
    hide Walled, Adjacent, Expanded, Parents, Reach;
    assert s.q[0] in s.q;
    NearIsLabelled(g, s, d, u, e, w);
    LabelIsDistance(g, s, d, u, w);
    PopMembers(s);
  }

  /** Every cell of the chain is as far from the start as its place in it says. */
  lemma ChainDistances(g: Graph, s: Search, d: int, u: int, p: seq<nat>)
    requires Inv(g, s, d, u, 4)
    requires forall i :: 0 <= i < |p| ==> Labelled(s, p[i]) && s.cost[p[i]] == i
    ensures forall i :: 0 <= i < |p| ==> Distance(g, i, p[i])
  {
    hide Inv, Distance;
    forall i | 0 <= i < |p|
      ensures Distance(g, i, p[i])
    {
      LabelIsDistance(g, s, d, u, p[i]);
    }
  }

  /** Of the neighbours of k that are one step closer, the parent is the least. */
  lemma ParentIsLeast(g: Graph, s: Search, d: int, u: int, k: nat, w: int)
    requires Inv(g, s, d, u, 4) && s.q != [] && Labelled(s, k) && k != g.src && s.cost[k] <= s.cost[s.q[0]]
    requires Adjacent(g, w, k) && Distance(g, s.cost[k] - 1, w)
    ensures s.par[k] <= w
  {
    hide LabelsReached, Frontier, Expanded, Distance;
    CloserIsDone(g, s, d, u, w, s.cost[k] - 1);
  }

  /** The parent chain of the cell about to be popped is the canonical path to it. */
  lemma ChainIsCanonical(g: Graph, s: Search, d: int, u: int)
    requires Inv(g, s, d, u, 4) && s.q != []
    ensures Labelled(s, s.q[0]) && Canonical(g, Chain(g, s, s.q[0]), s.q[0])
  {
    var k := s.q[0];
    assert k in s.q;
    var p := Chain(g, s, k);
    ChainIsPath(g, s, k);
    hide Inv, Distance, Adjacent, Chain;
    ChainDistances(g, s, d, u, p);
    forall i, w | 0 < i < |p| && Adjacent(g, w, p[i]) && Distance(g, i - 1, w)
      ensures p[i - 1] <= w
    {
      ParentIsLeast(g, s, d, u, p[i], w);
    }
  }

  lemma ChainIsPath(g: Graph, s: Search, k: nat)
    requires Shape(g, s) && LabelsReached(g, s) && Parents(g, s) && Labelled(s, k)
    ensures IsPath(g, Chain(g, s, k), k)
  {
    hide Walled, Adjacent;
    var p := Chain(g, s, k);
    forall i | 0 <= i < |p|
      ensures Open(g, p[i])
    {
      assert Reach(g, s.cost[p[i]], p[i]);
    }
    forall i | 0 < i < |p|
      ensures Adjacent(g, p[i - 1], p[i])
    {
      assert Labelled(s, p[i]);
    }
  }
}
