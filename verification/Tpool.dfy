/**
 * The bookkeeping of the thread pools: which threads each pool lists, in which order, how many. Pools and
 * threads are the elements of two arrays, and a pointer to one is its index. The list of a pool runs through
 * the next fields of its threads. The handshake with a thread is in Handshake; what it promises here is that
 * the thread runs once thread_start has returned and is stopped once thread_stop has.
 */
module Tpool {
  import opened Words

  // ---------- The threads that a start takes ----------

  /** How many of the first i threads are idle; flags[t] tells whether thread t runs. */
  function Idle(flags: seq<bool>, i: nat): nat
    requires i <= |flags|
  {
    if i == 0 then 0 else Idle(flags, i - 1) + (if flags[i - 1] then 0 else 1)
  }

  /** The idle threads among the first i, but at most m of them, in the order of their indices. */
  function FirstIdle(flags: seq<bool>, i: nat, m: nat): (r: seq<nat>)
    requires i <= |flags|
    ensures forall k :: 0 <= k < |r| ==> r[k] < i && !flags[r[k]]
    ensures forall j, k :: 0 <= j < k < |r| ==> r[j] < r[k]
  {
    if i == 0 then [] else
    var r := FirstIdle(flags, i - 1, m);
    if !flags[i - 1] && |r| < m then r + [i - 1] else r
  }

  /** A start gets as many threads as it asks for, or all that are idle. */
  lemma {:induction false} FirstIdleCount(flags: seq<bool>, i: nat, m: nat)
    requires i <= |flags|
    ensures |FirstIdle(flags, i, m)| == Min(m, Idle(flags, i))
  {
    if i > 0 {
      FirstIdleCount(flags, i - 1, m);
    }
  }

  /** Taken are the threads that are idle and have fewer than m idle ones before them. */
  lemma {:induction false} FirstIdleMembers(flags: seq<bool>, i: nat, m: nat, t: nat)
    requires i <= |flags|
    ensures t in FirstIdle(flags, i, m) <==> t < i && !flags[t] && Idle(flags, t) < m
  {
    if i > 0 {
      FirstIdleMembers(flags, i - 1, m, t);
      FirstIdleCount(flags, i - 1, m);
    }
  }

  /** An idle thread is not passed over: with a later one it is taken too. */
  lemma FirstIdleIsFirst(flags: seq<bool>, i: nat, m: nat, t: nat, u: nat)
    requires i <= |flags| && t < u && u in FirstIdle(flags, i, m) && !flags[t]
    ensures t in FirstIdle(flags, i, m)
  {
    FirstIdleMembers(flags, i, m, t);
    FirstIdleMembers(flags, i, m, u);
    IdleGrows(flags, t, u);
  }

  lemma {:induction false} IdleGrows(flags: seq<bool>, t: nat, u: nat)
    requires t <= u <= |flags|
    ensures Idle(flags, t) <= Idle(flags, u)
  {
    if t < u {
      IdleGrows(flags, t, u - 1);
    }
  }

  /** Once m threads are taken, the others are left alone. */
  lemma {:induction false} FirstIdleIsFull(flags: seq<bool>, i: nat, j: nat, m: nat)
    requires i <= j <= |flags| && |FirstIdle(flags, i, m)| == m
    ensures FirstIdle(flags, j, m) == FirstIdle(flags, i, m)
  {
    if i < j {
      FirstIdleIsFull(flags, i, j - 1, m);
    }
  }

  /** A start goes without any thread iff it asks for none or none is idle. */
  lemma FirstIdleIsEmpty(flags: seq<bool>, i: nat, m: nat)
    requires i <= |flags|
    ensures FirstIdle(flags, i, m) == [] <==> m == 0 || Idle(flags, i) == 0
  {
    FirstIdleCount(flags, i, m);
  }

  // ---------- The pools in use ----------

  /** The first pool from `from` on that lists no thread. */
  function FirstEmpty(lists: seq<seq<nat>>, from: nat): (p: nat)
    requires from <= |lists|
    ensures from <= p <= |lists|
    ensures p < |lists| ==> lists[p] == []
    ensures forall q :: from <= q < p ==> lists[q] != []
    decreases |lists| - from
  {
    if from == |lists| || lists[from] == [] then from else FirstEmpty(lists, from + 1)
  }

  /** The first pool from `from` on that lists more than one thread, or none. */
  function FirstOther(lists: seq<seq<nat>>, from: nat): (p: nat)
    requires from <= |lists|
    ensures from <= p <= |lists|
    ensures p < |lists| ==> |lists[p]| != 1
    ensures forall q :: from <= q < p ==> |lists[q]| == 1
    decreases |lists| - from
  {
    if from == |lists| || |lists[from]| != 1 then from else FirstOther(lists, from + 1)
  }

  /** How many pools list a thread. */
  function Active(lists: seq<seq<nat>>): nat {
    if lists == [] then 0 else Active(lists[..|lists| - 1]) + (if lists[|lists| - 1] == [] then 0 else 1)
  }

  lemma {:induction false} ActiveUpdate(lists: seq<seq<nat>>, p: nat, list: seq<nat>)
    requires p < |lists|
    ensures Active(lists[p := list]) + (if lists[p] == [] then 0 else 1) ==
            Active(lists) + (if list == [] then 0 else 1)
  {
    var n := |lists| - 1;
    if p < n {
      ActiveUpdate(lists[..n], p, list);
      assert lists[p := list][..n] == lists[..n][p := list];
    } else {
      assert lists[p := list][..n] == lists[..n];
    }
  }

  /** There are as many as pools only when none is empty. */
  lemma {:induction false} ActiveBound(lists: seq<seq<nat>>)
    ensures Active(lists) <= |lists|
    ensures Active(lists) == |lists| <==> FirstEmpty(lists, 0) == |lists|
  {
    if lists != [] {
      var n := |lists| - 1;
      ActiveBound(lists[..n]);
      assert forall q :: 0 <= q < n ==> lists[..n][q] == lists[q];
    }
  }

  lemma {:induction false} ActiveSame(lists: seq<seq<nat>>, lists': seq<seq<nat>>)
    requires |lists| == |lists'| && forall p :: 0 <= p < |lists| ==> (lists[p] == [] <==> lists'[p] == [])
    ensures Active(lists) == Active(lists')
  {
    if lists != [] {
      var n := |lists| - 1;
      assert lists[n] == [] <==> lists'[n] == [];
      ActiveSame(lists[..n], lists'[..n]);
    }
  }

  lemma {:induction false} NoneActive(lists: seq<seq<nat>>)
    requires forall p :: 0 <= p < |lists| ==> lists[p] == []
    ensures Active(lists) == 0
  {
    if lists != [] {
      NoneActive(lists[..|lists| - 1]);
    }
  }

  /** While njobs is the number of pools in use, a start never goes for the threads of other pools. */
  lemma NoStealing(lists: seq<seq<nat>>, njobs: nat)
    requires njobs == Active(lists) && FirstEmpty(lists, 0) < |lists|
    ensures njobs != |lists|
  {
    ActiveBound(lists);
  }

  /** A start counts one more pool in use than there is only if it went without any thread. */
  lemma StartCount(lists: seq<seq<nat>>, list: seq<nat>)
    requires FirstEmpty(lists, 0) < |lists|
    ensures Active(lists) < |lists|
    ensures Active(lists[FirstEmpty(lists, 0) := list]) == Active(lists) + if list == [] then 0 else 1
  {
    ActiveBound(lists);
    ActiveUpdate(lists, FirstEmpty(lists, 0), list);
  }

  /** The pool of a start is given out again by the next one iff the start went without any thread. */
  lemma SameIdAgain(lists: seq<seq<nat>>, flags: seq<bool>, m: nat)
    requires FirstEmpty(lists, 0) < |lists|
    ensures var p := FirstEmpty(lists, 0);
            FirstEmpty(lists[p := FirstIdle(flags, |flags|, m)], 0) == p <==> m == 0 || Idle(flags, |flags|) == 0
  {
    FirstIdleIsEmpty(flags, |flags|, m);
    var p := FirstEmpty(lists, 0);
    var lists' := lists[p := FirstIdle(flags, |flags|, m)];
    var e := FirstEmpty(lists', 0);
    assert lists'[p] == FirstIdle(flags, |flags|, m);
    assert forall q :: 0 <= q < p ==> lists'[q] == lists[q];
  }

  // ---------- Lists ----------

  datatype Ptr = Null | To(i: nat)
  datatype Thread = Thread(running: bool, pool: nat, next: Ptr)
  datatype Pool = Pool(max: nat, job: nat, nthreads: nat, threads: Ptr)

  /** From head on the next fields spell list, backwards: its last element comes first. No thread comes twice. */
  ghost predicate Linked(ts: seq<Thread>, head: Ptr, list: seq<nat>)
    decreases |list|
  {
    if list == [] then head == Null else
    var n := |list| - 1;
    head == To(list[n]) && list[n] < |ts| && list[n] !in list[..n] && Linked(ts, ts[list[n]].next, list[..n])
  }

  lemma {:induction false} LinkedStays(ts: seq<Thread>, ts': seq<Thread>, head: Ptr, list: seq<nat>)
    requires Linked(ts, head, list) && |ts'| == |ts|
    requires forall t :: t in list && t < |ts| ==> ts'[t].next == ts[t].next
    ensures Linked(ts', head, list)
    decreases |list|
  {
    if list != [] {
      var n := |list| - 1;
      assert list[n] in list;
      LinkedStays(ts, ts', ts[list[n]].next, list[..n]);
    }
  }

  lemma LinkedOnto(ts: seq<Thread>, t: nat, list: seq<nat>)
    requires t < |ts| && t !in list && Linked(ts, ts[t].next, list)
    ensures Linked(ts, To(t), list + [t])
  {
    assert (list + [t])[..|list|] == list;
  }

  lemma LinkedHead(ts: seq<Thread>, t: nat, list: seq<nat>)
    requires Linked(ts, To(t), list)
    ensures t < |ts| && list != []
    ensures var n := |list| - 1;
            list[n] == t && t !in list[..n] && list == list[..n] + [t] && Linked(ts, ts[t].next, list[..n])
  {
  }

  lemma {:induction false} LinkedOnce(ts: seq<Thread>, head: Ptr, list: seq<nat>, j: nat, k: nat)
    requires Linked(ts, head, list) && j < k < |list|
    ensures list[j] != list[k]
    decreases |list|
  {
    var n := |list| - 1;
    if k < n {
      LinkedOnce(ts, ts[list[n]].next, list[..n], j, k);
    } else {
      assert list[..n][j] == list[j];
    }
  }

  ghost predicate PoolOk(p: nat, pl: Pool, ts: seq<Thread>, list: seq<nat>) {
    pl.nthreads == |list| && pl.nthreads <= pl.max && Linked(ts, pl.threads, list) &&
    forall t :: t in list ==> t < |ts| && ts[t].running && ts[t].pool == p
  }

  /** Every pool lists its own running threads, and every running thread is listed by its pool. */
  ghost predicate Inv(ps: seq<Pool>, ts: seq<Thread>, lists: seq<seq<nat>>) {
    |ps| == |ts| == |lists| &&
    (forall p :: 0 <= p < |ps| ==> PoolOk(p, ps[p], ts, lists[p])) &&
    (forall t :: 0 <= t < |ts| && ts[t].running ==> ts[t].pool < |ps| && t in lists[ts[t].pool])
  }

  /** A thread runs iff it is listed, and then by one pool only, once. */
  lemma ListedOnce(ps: seq<Pool>, ts: seq<Thread>, lists: seq<seq<nat>>, t: nat)
    requires Inv(ps, ts, lists) && t < |ts|
    ensures ts[t].running <==> exists p :: 0 <= p < |ps| && t in lists[p]
    ensures forall p, q :: 0 <= p < |ps| && 0 <= q < |ps| && t in lists[p] && t in lists[q] ==> p == q
    ensures forall p, j, k :: 0 <= p < |ps| && 0 <= j < k < |lists[p]| ==> lists[p][j] != lists[p][k]
  {
    forall p, j, k | 0 <= p < |ps| && 0 <= j < k < |lists[p]|
      ensures lists[p][j] != lists[p][k]
    {
      assert PoolOk(p, ps[p], ts, lists[p]);
      LinkedOnce(ts, ps[p].threads, lists[p], j, k);
    }
  }

  lemma PushInv(ps: seq<Pool>, ts: seq<Thread>, lists: seq<seq<nat>>, t: nat, p: nat)
    requires Inv(ps, ts, lists) && t < |ts| && p < |ps| && !ts[t].running && ps[p].nthreads < ps[p].max
    ensures Inv(ps[p := ps[p].(threads := To(t), nthreads := ps[p].nthreads + 1)],
                ts[t := Thread(true, p, ps[p].threads)], lists[p := lists[p] + [t]])
  {
    var ps' := ps[p := ps[p].(threads := To(t), nthreads := ps[p].nthreads + 1)];
    var ts' := ts[t := Thread(true, p, ps[p].threads)];
    hide Linked;
    forall q | 0 <= q < |ps|
      ensures PoolOk(q, ps'[q], ts', lists[p := lists[p] + [t]][q])
    {
      assert PoolOk(q, ps[q], ts, lists[q]) && t !in lists[q];
      LinkedStays(ts, ts', ps[q].threads, lists[q]);
      if q == p {
        LinkedOnto(ts', t, lists[p]);
      }
    }
  }

  lemma PopInv(ps: seq<Pool>, ts: seq<Thread>, lists: seq<seq<nat>>, t: nat, p: nat)
    requires Inv(ps, ts, lists) && t < |ts| && p < |ps| && ps[p].threads == To(t)
    ensures ts[t].running && ts[t].pool == p && ps[p].nthreads > 0 && lists[p] != []
    ensures lists[p][|lists[p]| - 1] == t
    ensures Inv(ps[p := ps[p].(threads := ts[t].next, nthreads := ps[p].nthreads - 1)],
                ts[t := ts[t].(running := false)], lists[p := lists[p][..|lists[p]| - 1]])
  {
    hide Linked;
    assert PoolOk(p, ps[p], ts, lists[p]);
    LinkedHead(ts, t, lists[p]);
    var n := |lists[p]| - 1;
    assert t in lists[p];
    var ps' := ps[p := ps[p].(threads := ts[t].next, nthreads := ps[p].nthreads - 1)];
    var ts' := ts[t := ts[t].(running := false)];
    forall q | 0 <= q < |ps|
      ensures PoolOk(q, ps'[q], ts', lists[p := lists[p][..n]][q])
    {
      assert PoolOk(q, ps[q], ts, lists[q]) && (q != p ==> t !in lists[q]);
      LinkedStays(ts, ts', ps'[q].threads, lists[p := lists[p][..n]][q]);
    }
  }

  lemma FreshPoolInv(ps: seq<Pool>, ts: seq<Thread>, lists: seq<seq<nat>>, p: nat, max: nat, job: nat)
    requires Inv(ps, ts, lists) && p < |ps| && lists[p] == []
    ensures Inv(ps[p := Pool(max, job, 0, Null)], ts, lists)
  {
    assert forall q :: 0 <= q < |ps| && q != p ==> PoolOk(q, ps[q], ts, lists[q]);
  }

  /** What the pools were started for has not changed. */
  predicate SameWants(ps: seq<Pool>, ps': seq<Pool>) {
    |ps| == |ps'| && forall p :: 0 <= p < |ps| ==> ps[p].max == ps'[p].max && ps[p].job == ps'[p].job
  }

  function Running(ts: seq<Thread>): (r: seq<bool>)
    ensures |r| == |ts| && forall t :: 0 <= t < |ts| ==> r[t] == ts[t].running
  {
    seq(|ts|, t requires 0 <= t < |ts| => ts[t].running)
  }

  // ---------- Sharing idle threads ----------

  /** What a pool of n threads gets in r rounds. */
  function Share(max: nat, n: nat, r: nat): nat {
    if n == 0 || max < n then 0 else Min(r, max - n)
  }

  /**
   * The pools have been dealt threads in turn, r rounds and then once more each pool before c: a pool keeps
   * what it had, an empty one stays empty, and a full one is passed over.
   */
  ghost predicate Dealt(ps: seq<Pool>, was: seq<seq<nat>>, lists: seq<seq<nat>>, r: nat, c: nat) {
    |was| == |lists| == |ps| &&
    forall p :: 0 <= p < |ps| ==>
      was[p] <= lists[p] && |lists[p]| == |was[p]| + Share(ps[p].max, |was[p]|, if p < c then r + 1 else r)
  }

  lemma DealtSkip(ps: seq<Pool>, was: seq<seq<nat>>, lists: seq<seq<nat>>, r: nat, c: nat)
    requires Dealt(ps, was, lists, r, c) && c < |ps| && (lists[c] == [] || |lists[c]| == ps[c].max)
    ensures Dealt(ps, was, lists, r, c + 1)
  {
  }

  lemma DealtGive(ps: seq<Pool>, was: seq<seq<nat>>, lists: seq<seq<nat>>, r: nat, c: nat, t: nat)
    requires Dealt(ps, was, lists, r, c) && c < |ps| && lists[c] != [] && |lists[c]| < ps[c].max
    ensures Dealt(ps, was, lists[c := lists[c] + [t]], r, c + 1)
  {
  }

  lemma DealtRound(ps: seq<Pool>, was: seq<seq<nat>>, lists: seq<seq<nat>>, r: nat)
    requires Dealt(ps, was, lists, r, |ps|)
    ensures Dealt(ps, was, lists, r + 1, 0)
  {
  }

  /**
   * No thread goes to an empty pool or past a maximum. A pool with room left is at most one thread behind any
   * other, and not behind a later one.
   */
  lemma DealtFairly(ps: seq<Pool>, was: seq<seq<nat>>, lists: seq<seq<nat>>, r: nat, c: nat, p: nat, q: nat)
    requires Dealt(ps, was, lists, r, c) && p < |ps| && q < |ps|
    ensures was[p] == [] ==> lists[p] == []
    ensures |lists[p]| <= ps[p].max || lists[p] == was[p]
    ensures was[q] != [] && |lists[q]| < ps[q].max ==>
              |lists[p]| - |was[p]| <= |lists[q]| - |was[q]| + (if p < q then 1 else 0)
  {
    assert was[p] <= lists[p] && was[q] <= lists[q];
  }

  lemma DealtSame(ps: seq<Pool>, ps': seq<Pool>, was: seq<seq<nat>>, lists: seq<seq<nat>>, r: nat, c: nat)
    requires Dealt(ps, was, lists, r, c) && SameWants(ps', ps)
    ensures Dealt(ps', was, lists, r, c)
  {
  }

  /** A pool in use is stopped, and no other goes out of use. */
  lemma StopCount(ps: seq<Pool>, was: seq<seq<nat>>, id: nat, lists: seq<seq<nat>>, r: nat, c: nat)
    requires id < |was| && was[id] != [] && Dealt(ps, was[id := []], lists, r, c)
    ensures 0 < Active(was) <= |was| && Active(lists) == Active(was) - 1
  {
    ActiveUpdate(was, id, []);
    ActiveBound(was);
    ActiveSame(was[id := []], lists);
  }

  // ---------- Operations ----------

  type size_t = n: nat | n < WORD witness 0

  /** n + d in 64 bits. */
  function Plus(n: size_t, d: int): (m: size_t)
    ensures 0 <= n + d < WORD ==> m == n + d
    ensures (n + d - m) % 0x1_0000_0000_0000_0000 == 0
  {
    (n + d) % WORD
  }

  /** Fault: the code follows a null pointer. */
  datatype Reply = Id(id: nat) | Done | EAGAIN | EINVAL | Fault

  class Tpool {
    const pools: array<Pool>
    const threads: array<Thread>
    var njobs: size_t
    ghost var lists: seq<seq<nat>>      // of each pool, the oldest thread first

    ghost predicate Valid()
      reads this`lists, pools, threads
    {
      |lists| == pools.Length == threads.Length < WORD && Inv(pools[..], threads[..], lists)
    }

    /** init_tpool with n processors: the memory is zeroed and no thread may run. */
    constructor (n: size_t)
      ensures Valid() && fresh(pools) && fresh(threads) && njobs == 0 == Active(lists)
      ensures threads.Length == n && lists == seq(n, _ => []) && Running(threads[..]) == seq(n, _ => false)
    {
      pools := new Pool[n](_ => Pool(0, 0, 0, Null));
      threads := new Thread[n](_ => Thread(false, 0, Null));
      njobs := 0;
      lists := seq(n, _ => []);
      new;
      NoneActive(lists);
    }

    lemma Sizes()
      requires Valid()
      ensures |lists| == pools.Length == threads.Length
    {
    }

    lemma CountIsLength(p: nat)
      requires Valid() && p < pools.Length
      ensures |lists| == pools.Length == threads.Length
      ensures pools[p].nthreads == |lists[p]| && pools[p].nthreads <= pools[p].max
      ensures pools[p].threads == Null <==> lists[p] == []
    {
      assert PoolOk(p, pools[..][p], threads[..], lists[p]);
    }

    lemma HeadIsOwn(p: nat)
      requires Valid() && p < pools.Length && pools[p].threads.To?
      ensures var t := pools[p].threads.i; t < threads.Length && threads[t].pool == p
    {
      PopInv(pools[..], threads[..], lists, pools[p].threads.i, p);
    }

    method ThreadStart(t: nat, p: nat)
      requires Valid() && t < threads.Length && p < pools.Length
      requires !threads[t].running && pools[p].nthreads < pools[p].max
      modifies this`lists, pools, threads
      ensures Valid() && lists == old(lists)[p := old(lists)[p] + [t]]
      ensures Running(threads[..]) == old(Running(threads[..]))[t := true]
      ensures SameWants(old(pools[..]), pools[..])
    {
      hide Inv, Linked, PoolOk;
      PushInv(pools[..], threads[..], lists, t, p);
      ghost var ps, ts := pools[..], threads[..];
      threads[t] := threads[t].(pool := p);
      threads[t] := threads[t].(next := pools[p].threads);
      pools[p] := pools[p].(threads := To(t));
      pools[p] := pools[p].(nthreads := pools[p].nthreads + 1);
      threads[t] := threads[t].(running := true);
      lists := lists[p := lists[p] + [t]];
      assert pools[..] == ps[p := ps[p].(threads := To(t), nthreads := ps[p].nthreads + 1)];
      assert threads[..] == ts[t := Thread(true, p, ps[p].threads)];
    }

    method ThreadStop(t: nat)
      requires Valid() && t < threads.Length && threads[t].pool < pools.Length
      requires pools[threads[t].pool].threads == To(t)
      modifies this`lists, pools, threads
      ensures Valid() && old(lists[threads[t].pool]) != []
      ensures var list := old(lists[threads[t].pool]); list[|list| - 1] == t && old(threads[t].running)
      ensures var p := old(threads[t].pool); lists == old(lists)[p := old(lists)[p][..|old(lists)[p]| - 1]]
      ensures Running(threads[..]) == old(Running(threads[..]))[t := false]
      ensures SameWants(old(pools[..]), pools[..])
    {
      hide Inv, Linked, PoolOk;
      ghost var p := threads[t].pool;
      PopInv(pools[..], threads[..], lists, t, p);
      ghost var ps, ts := pools[..], threads[..];
      threads[t] := threads[t].(running := false);
      pools[threads[t].pool] := pools[threads[t].pool].(threads := threads[t].next);
      pools[threads[t].pool] := pools[threads[t].pool].(nthreads := pools[threads[t].pool].nthreads - 1);
      lists := lists[p := lists[p][..|lists[p]| - 1]];
      assert pools[..] == ps[p := ps[p].(threads := ts[t].next, nthreads := ps[p].nthreads - 1)];
      assert threads[..] == ts[t := ts[t].(running := false)];
    }

    /** The branch of __start for threads that are available; it fills the empty pool p. */
    method Assign(p: nat)
      requires Valid() && p < pools.Length && lists[p] == []
      modifies this`lists, pools, threads
      ensures Valid()
      ensures lists == old(lists)[p := FirstIdle(old(Running(threads[..])), threads.Length, pools[p].max)]
      ensures SameWants(old(pools[..]), pools[..])
    {
      hide Tpool.Valid, Running;
      ghost var flags := Running(threads[..]);
      CountIsLength(p);
      ghost var max := pools[p].max;
      var i := 0;
      while i < threads.Length
        invariant i <= threads.Length && Valid()
        invariant lists == old(lists)[p := FirstIdle(flags, i, max)]
        invariant forall u :: i <= u < threads.Length ==> threads[u].running == flags[u]
        invariant SameWants(old(pools[..]), pools[..])
      {
        CountIsLength(p);
        if pools[p].nthreads == pools[p].max {
          FirstIdleIsFull(flags, i, threads.Length, max);
          break;
        }
        if !threads[i].running {
          ThreadStart(i, p);
        }
        i := i + 1;
      }
    }

    /**
     * The branch of __start for when no thread is available: the first pool that has not got exactly one
     * thread loses its head and gets it back, so nothing changes; if that pool is empty, a null pointer is
     * followed.
     */
    method Steal() returns (ok: bool)
      requires Valid()
      modifies this`lists, pools, threads
      ensures Valid() && lists == old(lists) && Running(threads[..]) == old(Running(threads[..]))
      ensures var i := FirstOther(lists, 0); ok <==> i == |lists| || lists[i] != []
      ensures SameWants(old(pools[..]), pools[..])
    {
      hide Tpool.Valid, Running;
      Sizes();
      var i := 0;
      while i < pools.Length
        invariant i <= pools.Length && FirstOther(lists, i) == FirstOther(lists, 0)
        modifies {}
      {
        CountIsLength(i);
        if pools[i].nthreads != 1 {
          break;
        }
        i := i + 1;
      }
      ok := true;
      if i < pools.Length {
        if pools[i].threads == Null {
          return false;
        }
        var th := pools[i].threads.i;
        HeadIsOwn(i);
        ThreadStop(th);
        CountIsLength(i);
        assert lists[i] + [th] == old(lists)[i];
        ThreadStart(th, i);
        assert Running(threads[..]) == old(Running(threads[..]));
      }
    }

    /** __start, for a pool that tpool_start has found empty. */
    method Begin(p: nat) returns (r: Reply)
      requires Valid() && p < pools.Length && lists[p] == []
      modifies this, pools, threads
      ensures Valid() && SameWants(old(pools[..]), pools[..])
      ensures old(njobs) != pools.Length ==>
        r == Id(p) && lists == old(lists)[p := FirstIdle(old(Running(threads[..])), threads.Length, pools[p].max)]
      ensures old(njobs) == pools.Length ==>
        lists == old(lists) && r == if lists[FirstOther(lists, 0)] == [] then Fault else Id(p)
      ensures njobs == if r == Fault then old(njobs) else Plus(old(njobs), 1)
    {
      hide Tpool.Valid, Running, Plus;
      Sizes();
      if njobs != pools.Length {
        Assign(p);
      } else {
        var ok := Steal();
        if !ok {
          return Fault;
        }
      }
      njobs := Plus(njobs, 1);
      r := Id(p);
    }

    /**
     * The first pool without threads is used. While there are threads for more jobs it gets the first idle
     * ones; otherwise nothing is assigned.
     */
    method Start(max: nat, job: nat) returns (r: Reply)
      requires Valid()
      modifies this, pools, threads
      ensures Valid()
      ensures FirstEmpty(old(lists), 0) == pools.Length ==>
        r == EAGAIN && lists == old(lists) && njobs == old(njobs) &&
        pools[..] == old(pools[..]) && threads[..] == old(threads[..])
      ensures var p := FirstEmpty(old(lists), 0);
        p < pools.Length ==>
          SameWants(old(pools[..])[p := Pool(max, job, 0, Null)], pools[..]) &&
          if old(njobs) != pools.Length
          then r == Id(p) && lists == old(lists)[p := FirstIdle(old(Running(threads[..])), threads.Length, max)]
          else lists == old(lists) && r == if lists[FirstOther(lists, 0)] == [] then Fault else Id(p)
      ensures r.Id? ==> njobs == Plus(old(njobs), 1)
      ensures r == Fault ==> njobs == old(njobs)
      ensures old(njobs == Active(lists)) ==>
        r != Fault && njobs == Active(lists) + if r.Id? && lists[r.id] == [] then 1 else 0
    {
      hide Inv, Linked, PoolOk, FirstIdle, Running, Plus, Active;
      ghost var ts := threads[..];
      var p := 0;
      while p < pools.Length
        invariant p <= pools.Length && FirstEmpty(lists, p) == FirstEmpty(lists, 0)
        modifies {}
      {
        CountIsLength(p);
        if pools[p].threads == Null {
          break;
        }
        p := p + 1;
      }
      if p == pools.Length {
        return EAGAIN;
      }
      FreshPoolInv(pools[..], threads[..], lists, p, max, job);
      ghost var ps := pools[..];
      pools[p] := pools[p].(max := max);
      pools[p] := pools[p].(job := job);
      pools[p] := pools[p].(threads := Null);
      pools[p] := pools[p].(nthreads := 0);
      assert pools[..] == ps[p := Pool(max, job, 0, Null)] && threads[..] == ts;
      StartCount(lists, FirstIdle(Running(ts), |ts|, max));
      r := Begin(p);
    }

    /**
     * One round over the pools, from thread `from` on; out tells that it met no idle thread any more, n how
     * many threads it gave away.
     */
    method Round(from: nat, ghost ps: seq<Pool>, ghost was: seq<seq<nat>>, ghost r: nat)
      returns (t: nat, n: nat, out: bool, ghost c: nat)
      requires Valid() && from <= threads.Length && forall u :: 0 <= u < from ==> threads[u].running
      requires Dealt(ps, was, lists, r, 0) && |ps| == pools.Length
      requires SameWants(ps, pools[..])
      modifies this`lists, pools, threads
      ensures Valid() && from <= t <= threads.Length && forall u :: 0 <= u < t ==> threads[u].running
      ensures Dealt(ps, was, lists, r, c) && if out then t == threads.Length else c == pools.Length
      ensures SameWants(ps, pools[..])
      ensures !out && n == 0 ==> forall q :: 0 <= q < pools.Length ==> lists[q] == [] || |lists[q]| == pools[q].max
      ensures !out && n > 0 ==> t < threads.Length && threads[t].running && (from < t || old(!threads[from].running))
    {
      hide Tpool.Valid, Running, Dealt;
      Sizes();
      t, n, out, c := from, 0, false, 0;
      var p := 0;
      while p < pools.Length
        invariant Valid() && p <= pools.Length == |lists| && Dealt(ps, was, lists, r, p)
        invariant from <= t <= threads.Length && forall u :: 0 <= u < t ==> threads[u].running
        invariant SameWants(ps, pools[..])
        invariant n == 0 && from < threads.Length ==> threads[from].running == old(threads[from].running)
        invariant n > 0 ==> t < threads.Length && threads[t].running && (from < t || old(!threads[from].running))
        invariant n == 0 ==> forall q :: 0 <= q < p ==> lists[q] == [] || |lists[q]| == pools[q].max
      {
        CountIsLength(p);
        if pools[p].nthreads == 0 || pools[p].nthreads == pools[p].max {
          DealtSkip(ps, was, lists, r, p);
          p := p + 1;
          continue;
        }
        while t < threads.Length && threads[t].running
          invariant from <= t <= threads.Length && forall u :: 0 <= u < t ==> threads[u].running
          modifies {}
        {
          t := t + 1;
        }
        if t == threads.Length {
          out, c := true, p;
          return;
        }
        DealtGive(ps, was, lists, r, p, t);
        ThreadStart(t, p);
        n := n + 1;
        p := p + 1;
      }
      c := p;
    }

    /** Returns how far the dealing went; at the end no thread is idle or no pool wants one. */
    method Redistribute() returns (ghost r: nat, ghost c: nat)
      requires Valid()
      modifies this`lists, pools, threads
      ensures Valid() && Dealt(old(pools[..]), old(lists), lists, r, c)
      ensures (forall t :: 0 <= t < threads.Length ==> threads[t].running) ||
              (forall p :: 0 <= p < pools.Length ==> lists[p] == [] || |lists[p]| == pools[p].max)
      ensures SameWants(old(pools[..]), pools[..])
    {
      ghost var ps := pools[..];
      assert Dealt(ps, lists, lists, 0, 0);
      hide Tpool.Valid, Running, Dealt;
      r, c := 0, 0;
      var t, n, out := 0, 0, false;
      while true
        invariant Valid() && t <= threads.Length && Dealt(ps, old(lists), lists, r, 0)
        invariant forall u :: 0 <= u < t ==> threads[u].running
        invariant SameWants(ps, pools[..])
        decreases threads.Length - t + (if t < threads.Length && !threads[t].running then 1 else 0)
      {
        t, n, out, c := Round(t, ps, old(lists), r);
        if out || n == 0 {
          break;
        }
        DealtRound(ps, old(lists), lists, r);
        r := r + 1;
      }
    }

    /** The loop of tpool_stop. */
    method Drain(id: nat)
      requires Valid() && id < pools.Length
      modifies this`lists, pools, threads
      ensures Valid() && lists == old(lists)[id := []]
      ensures SameWants(old(pools[..]), pools[..])
    {
      hide Tpool.Valid, Running;
      Sizes();
      while pools[id].threads != Null
        invariant Valid() && |lists| == pools.Length
        invariant forall q :: 0 <= q < pools.Length && q != id ==> lists[q] == old(lists)[q]
        invariant SameWants(old(pools[..]), pools[..])
        decreases |lists[id]|
      {
        HeadIsOwn(id);
        ThreadStop(pools[id].threads.i);
      }
      CountIsLength(id);
    }

    /** Empties the pool and shares what it leaves. */
    method Release(id: nat) returns (ghost r: nat, ghost c: nat)
      requires Valid() && id < pools.Length
      modifies this`lists, pools, threads
      ensures Valid() && id < |old(lists)| && Dealt(old(pools[..]), old(lists)[id := []], lists, r, c)
      ensures (forall t :: 0 <= t < threads.Length ==> threads[t].running) ||
              (forall p :: 0 <= p < pools.Length ==> lists[p] == [] || |lists[p]| == pools[p].max)
      ensures SameWants(old(pools[..]), pools[..])
    {
      hide Tpool.Valid, Running, Dealt;
      Sizes();
      Drain(id);
      ghost var ps, was := pools[..], lists;
      r, c := Redistribute();
      DealtSame(ps, old(pools[..]), was, lists, r, c);
    }

    /** What the stopped pool leaves is shared among the others; no other pool loses a thread. */
    method Stop(id: int) returns (reply: Reply, ghost r: nat, ghost c: nat)
      requires Valid()
      modifies this, pools, threads
      ensures Valid()
      ensures !(0 <= id < pools.Length) ==>
        reply == EINVAL && lists == old(lists) && njobs == old(njobs) &&
        pools[..] == old(pools[..]) && threads[..] == old(threads[..])
      ensures 0 <= id < pools.Length ==>
        reply == Done && njobs == Plus(old(njobs), -1) && Dealt(old(pools[..]), old(lists)[id := []], lists, r, c) &&
        ((forall t :: 0 <= t < threads.Length ==> threads[t].running) ||
         (forall p :: 0 <= p < pools.Length ==> lists[p] == [] || |lists[p]| == pools[p].max))
      ensures SameWants(old(pools[..]), pools[..])
      ensures 0 <= id < pools.Length && old(njobs == Active(lists) && lists[id] != []) ==> njobs == Active(lists)
    {
      r, c := 0, 0;
      if id < 0 || id >= pools.Length {
        return EINVAL, 0, 0;
      }
      hide Tpool.Valid, Running, Dealt, Plus, Active;
      r, c := Release(id);
      if old(lists)[id] != [] {
        StopCount(old(pools[..]), old(lists), id, lists, r, c);
      }
      njobs := Plus(njobs, -1);
      reply := Done;
    }
  }
}
