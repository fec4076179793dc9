/**
 * The futex mutex, one atomic instruction at a time, for any number of threads in any interleaving. The
 * lock word holds the two bytes locked and contended; 257 is both set.
 */
module Futex {

  /** Where a thread stands in mutex_lock, mutex_unlock or the end of cond_wait. */
  datatype Pc =
    | Out              // neither holds the lock nor wants it
    | Try(i: nat)      // mutex_lock: about to exchange the byte, for the i-th time
    | Mark             // about to exchange the word with 257
    | Sleepy           // the lock was taken: about to call futex wait with 257
    | Asleep           // in the kernel
    | Held             // owns the lock
    | Release          // mutex_unlock: saw the word 1, about to compare and swap
    | Store            // about to clear locked
    | Spin(i: nat)     // about to look at locked, for the i-th time
    | Clear            // about to clear contended
    | Wake             // about to call futex wake

  const TRIES: nat := 100
  const SPINS: nat := 200

  datatype State = State(locked: bool, contended: bool, pcs: seq<Pc>)

  function At(s: State, t: nat, pc: Pc): State
    requires t < |s.pcs|
  {
    s.(pcs := s.pcs[t := pc])
  }

  predicate Is257(s: State) {
    s.locked && s.contended
  }

  /** Thread t executes its next atomic instruction. */
  ghost predicate Runs(s: State, s': State, t: nat)
    requires t < |s.pcs|
  {
    match s.pcs[t]
    case Out => s' == s || s' == At(s, t, Try(0)) || s' == At(s, t, Mark)
    case Try(i) =>
      s' == if !s.locked then At(s.(locked := true), t, Held) else At(s, t, if i + 1 < TRIES then Try(i + 1) else Mark)
    case Mark =>
      s' == At(s.(locked := true, contended := true), t, if s.locked then Sleepy else Held)
    case Sleepy => s' == At(s, t, if Is257(s) then Asleep else Mark)
    case Asleep => s' == s
    case Held => s' == s || s' == At(s, t, if s.locked && !s.contended then Release else Store)
    case Release =>
      s' == if s.locked && !s.contended then At(s.(locked := false), t, Out) else At(s, t, Store)
    case Store => s' == At(s.(locked := false), t, Spin(0))
    case Spin(i) => s' == At(s, t, if s.locked then Out else if i + 1 < SPINS then Spin(i + 1) else Clear)
    case Clear => s' == At(s.(contended := false), t, Wake)
    case Wake => Wakes(s, s', t)
  }

  /** futex wake with 1: one sleeper, if there is any, goes back to the exchange. */
  ghost predicate Wakes(s: State, s': State, t: nat)
    requires t < |s.pcs|
  {
    if exists j :: 0 <= j < |s.pcs| && s.pcs[j] == Asleep
    then exists j :: 0 <= j < |s.pcs| && s.pcs[j] == Asleep && s' == At(At(s, j, Mark), t, Out)
    else s' == At(s, t, Out)
  }

  /** The kernel may let a sleeper go at any time. */
  ghost predicate Spurious(s: State, s': State, t: nat)
    requires t < |s.pcs|
  {
    s.pcs[t] == Asleep && s' == At(s, t, Mark)
  }

  ghost predicate Step(s: State, s': State) {
    exists t: nat :: t < |s.pcs| && (Runs(s, s', t) || Spurious(s, s', t))
  }

  ghost predicate Initial(s: State) {
    !s.locked && !s.contended && forall t :: 0 <= t < |s.pcs| ==> s.pcs[t] == Out
  }

  // ---------- Invariant ----------

  predicate Owner(pc: Pc) {
    pc == Held || pc == Release || pc == Store
  }

  predicate Unlocking(pc: Pc) {
    pc.Spin? || pc == Clear
  }

  /** A thread that will wake a sleeper, or that is about to mark the lock contended. */
  predicate Rescuer(pc: Pc) {
    pc == Wake || pc == Mark
  }

  ghost predicate SomeOwner(s: State) {
    exists t :: 0 <= t < |s.pcs| && Owner(s.pcs[t])
  }

  ghost predicate SomeUnlocking(s: State) {
    exists t :: 0 <= t < |s.pcs| && Unlocking(s.pcs[t])
  }

  ghost predicate SomeAsleep(s: State) {
    exists t :: 0 <= t < |s.pcs| && s.pcs[t] == Asleep
  }

  ghost predicate SomeRescuer(s: State) {
    exists t :: 0 <= t < |s.pcs| && Rescuer(s.pcs[t])
  }

  ghost predicate MutualExclusion(s: State) {
    forall i, j :: 0 <= i < |s.pcs| && 0 <= j < |s.pcs| && Owner(s.pcs[i]) && Owner(s.pcs[j]) ==> i == j
  }

  ghost predicate Inv(s: State) {
    MutualExclusion(s) && (s.locked <==> SomeOwner(s)) &&
    (s.contended && !s.locked ==> SomeUnlocking(s)) &&
    (SomeAsleep(s) ==> s.contended || SomeRescuer(s))
  }

  lemma InitialInv(s: State)
    requires Initial(s)
    ensures Inv(s)
  {
  }

  /** Other threads stay where they are, except that one sleeper may be woken. */
  lemma OthersStay(s: State, s': State, t: nat)
    requires t < |s.pcs| && (Runs(s, s', t) || Spurious(s, s', t))
    ensures |s'.pcs| == |s.pcs|
    ensures forall j :: 0 <= j < |s.pcs| && j != t ==>
              s'.pcs[j] == s.pcs[j] || (s.pcs[t] == Wake && s.pcs[j] == Asleep && s'.pcs[j] == Mark)
  {
    if s.pcs[t] == Wake {
      WakeMoves(s, s', t);
    } else {
      OwnPlace(s, s', t);
      hide Runs;
    }
  }

  /** Whatever a thread does but wake, its own place alone changes. */
  lemma OwnPlace(s: State, s': State, t: nat)
    requires t < |s.pcs| && s.pcs[t] != Wake && (Runs(s, s', t) || Spurious(s, s', t))
    ensures |s'.pcs| == |s.pcs| && s'.pcs == s.pcs[t := s'.pcs[t]]
  {
  }

  lemma WakeMoves(s: State, s': State, t: nat)
    requires t < |s.pcs| && s.pcs[t] == Wake && (Runs(s, s', t) || Spurious(s, s', t))
    ensures |s'.pcs| == |s.pcs| && s'.pcs[t] == Out && s'.locked == s.locked && s'.contended == s.contended
  {
  }

  /** Only a free lock is taken, and only by a thread that asks for it; only the owner lets go. */
  lemma LockMoves(s: State, s': State, t: nat)
    requires t < |s.pcs| && (Runs(s, s', t) || Spurious(s, s', t))
    ensures |s'.pcs| == |s.pcs|
    ensures Owner(s'.pcs[t]) && !Owner(s.pcs[t]) ==> !s.locked && s'.locked
    ensures Owner(s.pcs[t]) && !Owner(s'.pcs[t]) ==> !s'.locked
    ensures Owner(s.pcs[t]) == Owner(s'.pcs[t]) ==> s'.locked == s.locked
  {
    if s.pcs[t] == Wake {
      WakeMoves(s, s', t);
      hide Runs;
    } else {
      OwnPlace(s, s', t);
    }
  }

  lemma OwnersStep(s: State, s': State, t: nat)
    requires Inv(s) && t < |s.pcs| && (Runs(s, s', t) || Spurious(s, s', t))
    ensures MutualExclusion(s') && (s'.locked <==> SomeOwner(s'))
  {
    OthersStay(s, s', t);
    LockMoves(s, s', t);
    hide Runs;
    assert forall j :: 0 <= j < |s.pcs| && j != t ==> Owner(s'.pcs[j]) == Owner(s.pcs[j]);
    if s'.locked && !Owner(s'.pcs[t]) {
      var j :| 0 <= j < |s.pcs| && Owner(s.pcs[j]);
      assert Owner(s'.pcs[j]);
    }
  }

  lemma ContendedMoves(s: State, s': State, t: nat)
    requires t < |s.pcs| && (Runs(s, s', t) || Spurious(s, s', t))
    ensures |s'.pcs| == |s.pcs|
    ensures s'.contended && !s.contended ==> s'.locked
    ensures s.contended && !s'.contended ==> s'.pcs[t] == Wake
    ensures s.pcs[t] == Mark ==> s'.contended
    ensures s'.contended && s.locked && !s'.locked ==> Unlocking(s'.pcs[t])
    ensures s'.contended && !s'.locked && Unlocking(s.pcs[t]) ==> Unlocking(s'.pcs[t])
    ensures s'.pcs[t] == Asleep && s.pcs[t] != Asleep ==> s'.contended
    ensures s.pcs[t] == Wake && SomeAsleep(s) ==> SomeRescuer(s')
  {
    if s.pcs[t] == Wake && SomeAsleep(s) {
      var j :| 0 <= j < |s.pcs| && s.pcs[j] == Asleep && s' == At(At(s, j, Mark), t, Out);
      assert Rescuer(s'.pcs[j]);
    }
  }

  lemma ContendedStep(s: State, s': State, t: nat)
    requires Inv(s) && t < |s.pcs| && (Runs(s, s', t) || Spurious(s, s', t))
    ensures s'.contended && !s'.locked ==> SomeUnlocking(s')
  {
    OthersStay(s, s', t);
    ContendedMoves(s, s', t);
    hide Runs;
    if s'.contended && !s'.locked && !s.locked {
      var j :| 0 <= j < |s.pcs| && Unlocking(s.pcs[j]);
      assert Unlocking(s'.pcs[j]);
    }
  }

  lemma AsleepStep(s: State, s': State, t: nat)
    requires Inv(s) && t < |s.pcs| && (Runs(s, s', t) || Spurious(s, s', t))
    ensures SomeAsleep(s') ==> s'.contended || SomeRescuer(s')
  {
    OthersStay(s, s', t);
    ContendedMoves(s, s', t);
    if SomeAsleep(s') && !s'.contended {
      var a :| 0 <= a < |s.pcs| && s'.pcs[a] == Asleep;
      assert s.pcs[a] == Asleep;
      if s.contended {
        assert Rescuer(s'.pcs[t]);
      } else if s.pcs[t] != Wake {
        var r :| 0 <= r < |s.pcs| && Rescuer(s.pcs[r]);
        assert Rescuer(s'.pcs[r]);
      }
    }
  }

  /** Every step keeps the invariant. */
  lemma StepInv(s: State, s': State)
    requires Inv(s) && Step(s, s')
    ensures Inv(s') && |s'.pcs| == |s.pcs|
  {
    var t: nat :| t < |s.pcs| && (Runs(s, s', t) || Spurious(s, s', t));
    OthersStay(s, s', t);
    OwnersStep(s, s', t);
    ContendedStep(s, s', t);
    AsleepStep(s, s', t);
  }

  /** Every state follows from the one before by a step of some thread. */
  ghost predicate Steps(r: seq<State>) {
    r != [] && forall i :: 0 < i < |r| ==> Step(r[i - 1], r[i])
  }

  /** An execution. */
  ghost predicate Run(r: seq<State>) {
    Steps(r) && Initial(r[0])
  }

  lemma {:induction false} RunInv(r: seq<State>)
    requires Run(r)
    ensures Inv(r[|r| - 1])
  {
    if 1 < |r| {
      RunInv(r[..|r| - 1]);
      StepInv(r[|r| - 2], r[|r| - 1]);
    } else {
      InitialInv(r[0]);
    }
  }

  // ---------- What the invariant means ----------

  /** Whatever the interleaving, no two threads own the lock. */
  lemma NeverTwoOwners(r: seq<State>, i: nat, j: nat)
    requires Run(r) && i < j < |r[|r| - 1].pcs|
    ensures var s := r[|r| - 1]; !(Owner(s.pcs[i]) && Owner(s.pcs[j])) && !(s.pcs[i] == Held && s.pcs[j] == Held)
  {
    RunInv(r);
  }

  /**
   * Nobody is left asleep: while a thread sleeps, the lock is held and marked contended, or some thread is on
   * its way through the slow unlock or the slow lock.
   */
  lemma SleeperIsNotStranded(r: seq<State>)
    requires Run(r) && SomeAsleep(r[|r| - 1])
    ensures var s := r[|r| - 1];
            (Is257(s) && SomeOwner(s)) || SomeUnlocking(s) || SomeRescuer(s)
  {
    RunInv(r);
  }

  ghost function Owners(s: State): set<int> {
    set t | 0 <= t < |s.pcs| && Owner(s.pcs[t])
  }

  /** Each step is one of an abstract lock: nothing, a free lock taken by t, or a held lock let go by t. */
  lemma RefinesLock(s: State, s': State, t: nat)
    requires Inv(s) && t < |s.pcs| && (Runs(s, s', t) || Spurious(s, s', t))
    ensures Owners(s') == Owners(s) ||
            (Owners(s) == {} && Owners(s') == {t}) ||
            (Owners(s) == {t} && Owners(s') == {})
  {
    OthersStay(s, s', t);
    LockMoves(s, s', t);
    hide Runs;
    assert forall u :: 0 <= u < |s.pcs| && u != t ==> Owner(s'.pcs[u]) == Owner(s.pcs[u]);
    if Owner(s.pcs[t]) {
      assert Owners(s) == {t};
    }
  }

  // ---------- What a call of mutex_lock and one of mutex_unlock come to ----------

  /** Whoever comes out of mutex_lock has taken the lock, which was free. */
  lemma LockIsTaken(s: State, s': State, t: nat)
    requires t < |s.pcs| && Step(s, s')
    ensures |s'.pcs| == |s.pcs|
    ensures Wanting(s.pcs[t]) == 1 && Wanting(s'.pcs[t]) == 0 ==> s'.pcs[t] == Held && !s.locked && s'.locked
  {
    var u: nat :| u < |s.pcs| && (Runs(s, s', u) || Spurious(s, s', u));
    OthersStay(s, s', u);
    if u == t {
      OwnLockIsTaken(s, s', t);
    }
  }

  lemma OwnLockIsTaken(s: State, s': State, t: nat)
    requires t < |s.pcs| && (Runs(s, s', t) || Spurious(s, s', t))
    ensures |s'.pcs| == |s.pcs|
    ensures Wanting(s.pcs[t]) == 1 && Wanting(s'.pcs[t]) == 0 ==> s'.pcs[t] == Held && !s.locked && s'.locked
  {
  }

  lemma StepFrom(r: seq<State>, i: nat)
    requires Steps(r) && i + 1 < |r|
    ensures Step(r[i], r[i + 1])
  {
    hide Step;
    assert r[i] == r[i + 1 - 1];
  }

  lemma {:induction false} SameThreads(r: seq<State>, i: nat)
    requires Steps(r) && i < |r|
    ensures |r[i].pcs| == |r[0].pcs|
  {
    if 0 < i {
      SameThreads(r, i - 1);
      assert Step(r[i - 1], r[i]);
      var t: nat :| t < |r[i - 1].pcs| && (Runs(r[i - 1], r[i], t) || Spurious(r[i - 1], r[i], t));
      OthersStay(r[i - 1], r[i], t);
    }
  }

  lemma {:induction false} WantingTakesLock(r: seq<State>, t: nat, i: nat, j: nat) returns (k: nat)
    requires Steps(r) && i <= j < |r| && t < |r[i].pcs| && |r[i].pcs| == |r[j].pcs|
    requires Wanting(r[i].pcs[t]) == 1 && r[j].pcs[t] == Out
    ensures i < k < j && |r[k].pcs| == |r[k - 1].pcs| == |r[i].pcs|
    ensures r[k].pcs[t] == Held && !r[k - 1].locked && r[k].locked
    decreases j - i
  {
    StepFrom(r, i);
    LockIsTaken(r[i], r[i + 1], t);
    hide Step, Steps;
    if Wanting(r[i + 1].pcs[t]) == 1 {
      k := WantingTakesLock(r, t, i + 1, j);
    } else {
      k := i + 1;
    }
  }

  /** Between its request and its return to other work a thread has taken the free lock. */
  lemma RequestTakesLock(r: seq<State>, t: nat, i: nat, j: nat) returns (k: nat)
    requires Steps(r) && i <= j < |r| && t < |r[i].pcs| && |r[i].pcs| == |r[j].pcs|
    requires (r[i].pcs[t].Try? || r[i].pcs[t] in {Mark, Sleepy, Asleep}) && r[j].pcs[t] == Out
    ensures i < k < j && |r[k].pcs| == |r[k - 1].pcs| == |r[i].pcs|
    ensures r[k].pcs[t] == Held && !r[k - 1].locked && r[k].locked
  {
    hide Steps;
    k := WantingTakesLock(r, t, i, j);
  }

  lemma LockIsLeft(s: State, s': State, t: nat)
    requires t < |s.pcs| && Step(s, s')
    ensures |s'.pcs| == |s.pcs|
    ensures Owner(s.pcs[t]) && !Owner(s'.pcs[t]) ==> !s'.locked && s'.pcs[t] in {Out, Spin(0)}
  {
    var u: nat :| u < |s.pcs| && (Runs(s, s', u) || Spurious(s, s', u));
    OthersStay(s, s', u);
    LockMoves(s, s', u);
  }

  /** Between owning the lock and returning to other work a thread has let the lock go. */
  lemma {:induction false} ReturnFreesLock(r: seq<State>, t: nat, i: nat, j: nat) returns (k: nat)
    requires Steps(r) && i <= j < |r| && t < |r[i].pcs| && |r[i].pcs| == |r[j].pcs|
    requires r[i].pcs[t] in {Held, Release, Store} && r[j].pcs[t] == Out
    ensures i < k <= j && |r[k].pcs| == |r[i].pcs| && !r[k].locked && r[k].pcs[t] in {Out, Spin(0)}
    decreases j - i
  {
    StepFrom(r, i);
    LockIsLeft(r[i], r[i + 1], t);
    hide Step, Steps;
    if Owner(r[i + 1].pcs[t]) {
      k := ReturnFreesLock(r, t, i + 1, j);
    } else {
      k := i + 1;
    }
  }

  /** With no other thread in the way two steps take the lock and two give it back. */
  lemma AloneInFourSteps(s: State, t: nat)
    requires t < |s.pcs| && Initial(s)
    ensures var held := At(s.(locked := true), t, Held);
            Run([s, At(s, t, Try(0)), held, At(held, t, Release), s]) && held.pcs[t] == Held
  {
    var held := At(s.(locked := true), t, Held);
    var r := [s, At(s, t, Try(0)), held, At(held, t, Release), s];
    assert Runs(r[0], r[1], t);
    assert Runs(r[1], r[2], t) by { assert r[1].pcs[t := Held] == held.pcs; }
    assert Runs(r[2], r[3], t);
    assert Runs(r[3], r[4], t) by { assert r[3].pcs[t := Out] == s.pcs; }
  }

  /** A thread back from waiting on a condition takes a free lock by its mark, and a sleeper may wake at any time. */
  lemma BackFromWait(s: State, t: nat)
    requires t < |s.pcs|
    ensures s.pcs[t] == Out && !s.locked ==> Steps([s, At(s, t, Mark), At(State(true, true, s.pcs), t, Held)])
    ensures s.pcs[t] == Asleep ==> Step(s, At(s, t, Mark))
  {
    if s.pcs[t] == Out && !s.locked {
      var r := [s, At(s, t, Mark), At(State(true, true, s.pcs), t, Held)];
      assert Runs(r[0], r[1], t);
      assert Runs(r[1], r[2], t) by { assert r[1].pcs[t := Held] == r[2].pcs; }
      assert Step(r[0], r[1]) && Step(r[1], r[2]);
    } else {
      assert s.pcs[t] == Asleep ==> Spurious(s, At(s, t, Mark), t);
    }
  }

  /** A lock that stays taken is tried a hundred times and then marked. */
  lemma TakenLockIsMarked(s: State, t: nat, r: seq<State>)
    requires t < |s.pcs| && s.locked && |r| == 101
    requires (forall i: nat :: i < 100 ==> r[i] == At(s, t, Try(i))) && r[100] == At(s, t, Mark)
    ensures Steps(r)
  {
    forall i | 0 < i < |r|
      ensures Step(r[i - 1], r[i])
    {
      assert r[i] == At(r[i - 1], t, r[i].pcs[t]);
      assert Runs(r[i - 1], r[i], t);
    }
  }

  /** A lock that stays free is looked at two hundred times before its mark is cleared, and not after it is taken. */
  lemma FreeLockIsCleared(s: State, t: nat, r: seq<State>)
    requires t < |s.pcs| && |r| == 201
    requires (forall i: nat :: i < 200 ==> r[i] == At(s, t, Spin(i))) && r[200] == At(s, t, Clear)
    ensures !s.locked ==> Steps(r)
    ensures s.locked ==>
              forall i, s' :: 0 <= i < 200 && t < |r[i].pcs| && Runs(r[i], s', t) ==> s' == At(s, t, Out)
  {
    if !s.locked {
      forall i | 0 < i < |r|
        ensures Step(r[i - 1], r[i])
      {
        assert r[i] == At(r[i - 1], t, r[i].pcs[t]);
        assert Runs(r[i - 1], r[i], t);
      }
    } else {
      assert forall i: nat :: i < 200 ==> t < |r[i].pcs| && At(r[i], t, Out) == At(s, t, Out);
    }
  }

  // ---------- Progress ----------

  /** A step of a thread that is already under way, other than an owner's work; no sleeper wakes by itself. */
  ghost predicate QuietStep(s: State, s': State) {
    s' != s && exists t: nat :: t < |s.pcs| && s.pcs[t] != Out && Runs(s, s', t)
  }

  function Sum(f: Pc -> nat, pcs: seq<Pc>): nat {
    if pcs == [] then 0 else Sum(f, pcs[..|pcs| - 1]) + f(pcs[|pcs| - 1])
  }

  lemma {:induction false} SumUpdate(f: Pc -> nat, pcs: seq<Pc>, t: nat, pc: Pc)
    requires t < |pcs|
    ensures Sum(f, pcs[t := pc]) + f(pcs[t]) == Sum(f, pcs) + f(pc)
  {
    var n := |pcs| - 1;
    if t < n {
      SumUpdate(f, pcs[..n], t, pc);
      assert pcs[t := pc][..n] == pcs[..n][t := pc];
    } else {
      assert pcs[t := pc][..n] == pcs[..n];
    }
  }

  lemma {:induction false} SumLess(f: Pc -> nat, g: Pc -> nat, pcs: seq<Pc>)
    requires forall pc :: f(pc) <= g(pc)
    ensures Sum(f, pcs) <= Sum(g, pcs)
  {
    if pcs != [] {
      SumLess(f, g, pcs[..|pcs| - 1]);
    }
  }

  /** 1 for a thread that still has to get the lock. */
  function Wanting(pc: Pc): nat {
    if pc.Try? || pc == Mark || pc == Sleepy || pc == Asleep then 1 else 0
  }

  /** How far a thread is from the end of mutex_unlock. */
  function Leaving(pc: Pc): nat {
    match pc
    case Held => SPINS + 5
    case Release => SPINS + 4
    case Store => SPINS + 3
    case Spin(i) => if i < SPINS then SPINS + 2 - i else 3
    case Clear => 2
    case Wake => 1
    case _ => 0
  }

  /** How far a thread is from falling asleep while the word is 257, or may change once more. */
  function Settling(is257: bool, pc: Pc): nat {
    match pc
    case Try(i) => if i < TRIES then 4 + TRIES - i else 4
    case Mark => 2
    case Sleepy => if is257 then 1 else 3
    case _ => 0
  }

  function WantingSum(s: State): nat { Sum(Wanting, s.pcs) }

  function LeavingSum(s: State): nat { Sum(Leaving, s.pcs) }

  function SettlingSum(s: State): nat { Sum(pc => Settling(Is257(s), pc), s.pcs) }

  ghost predicate Closer(s: State, s': State) {
    WantingSum(s') < WantingSum(s) ||
    (WantingSum(s') == WantingSum(s) &&
     (LeavingSum(s') < LeavingSum(s) || (LeavingSum(s') == LeavingSum(s) && SettlingSum(s') < SettlingSum(s))))
  }

  lemma SumsAfter(s: State, t: nat, pc: Pc)
    requires t < |s.pcs|
    ensures Sum(Wanting, s.pcs[t := pc]) + Wanting(s.pcs[t]) == WantingSum(s) + Wanting(pc)
    ensures Sum(Leaving, s.pcs[t := pc]) + Leaving(s.pcs[t]) == LeavingSum(s) + Leaving(pc)
  {
    SumUpdate(Wanting, s.pcs, t, pc);
    SumUpdate(Leaving, s.pcs, t, pc);
  }

  /** A step that neither takes nor leaves the lock: the word is 257 at least where it was. */
  lemma SettlingAfter(s: State, s': State, t: nat)
    requires t < |s.pcs| && |s'.pcs| == |s.pcs| && s'.pcs == s.pcs[t := s'.pcs[t]]
    requires Is257(s) ==> Is257(s')
    ensures SettlingSum(s') + Settling(Is257(s'), s.pcs[t]) <= SettlingSum(s) + Settling(Is257(s'), s'.pcs[t])
  {
    var f, g := pc => Settling(Is257(s), pc), pc => Settling(Is257(s'), pc);
    SumUpdate(g, s.pcs, t, s'.pcs[t]);
    SumLess(g, f, s.pcs);
    assert SettlingSum(s') == Sum(g, s'.pcs) && SettlingSum(s) == Sum(f, s.pcs);
  }

  lemma WakeIsCloser(s: State, s': State, t: nat)
    requires t < |s.pcs| && s.pcs[t] == Wake && Wakes(s, s', t)
    ensures Closer(s, s')
  {
    hide Sum;
    if SomeAsleep(s) {
      var j :| 0 <= j < |s.pcs| && s.pcs[j] == Asleep && s' == At(At(s, j, Mark), t, Out);
      SumsAfter(s, j, Mark);
      SumsAfter(At(s, j, Mark), t, Out);
    } else {
      SumsAfter(s, t, Out);
    }
  }

  /** What a quiet step other than a wake does to the place of its own thread. */
  lemma QuietMoves(s: State, s': State, t: nat)
    requires t < |s.pcs| && s.pcs[t] != Out && s.pcs[t] != Wake && s' != s && Runs(s, s', t)
    ensures |s'.pcs| == |s.pcs| && s'.pcs == s.pcs[t := s'.pcs[t]]
    ensures var x, y := s.pcs[t], s'.pcs[t];
            Wanting(y) < Wanting(x) ||
            (Wanting(y) == Wanting(x) && Leaving(y) < Leaving(x)) ||
            (Wanting(y) == Wanting(x) && Leaving(y) == Leaving(x) && (Is257(s) ==> Is257(s')) &&
             Settling(Is257(s'), y) < Settling(Is257(s'), x))
  {
  }

  /** Every quiet step brings the threads closer to the end. */
  lemma QuietStepIsCloser(s: State, s': State)
    requires QuietStep(s, s')
    ensures Closer(s, s')
  {
    hide Sum, Settling;
    var t: nat :| t < |s.pcs| && s.pcs[t] != Out && Runs(s, s', t);
    if s.pcs[t] == Wake {
      WakeIsCloser(s, s', t);
    } else {
      QuietMoves(s, s', t);
      hide Runs, Wanting, Leaving;
      SumsAfter(s, t, s'.pcs[t]);
      if Wanting(s'.pcs[t]) == Wanting(s.pcs[t]) && Leaving(s'.pcs[t]) == Leaving(s.pcs[t]) {
        SettlingAfter(s, s', t);
      }
    }
  }

  /** No execution consists of quiet steps for ever. */
  lemma QuietStepsEnd(f: nat -> State)
    ensures exists i: nat :: !QuietStep(f(i), f(i + 1))
  {
    QuietStepsEndFrom(f, 0);
  }

  lemma {:induction false} QuietStepsEndFrom(f: nat -> State, k: nat)
    ensures exists i: nat :: !QuietStep(f(i), f(i + 1))
    decreases WantingSum(f(k)), LeavingSum(f(k)), SettlingSum(f(k))
  {
    if QuietStep(f(k), f(k + 1)) {
      QuietStepIsCloser(f(k), f(k + 1));
      QuietStepsEndFrom(f, k + 1);
    }
  }

  ghost predicate Quiet(s: State) {
    forall s' :: !QuietStep(s, s')
  }

  /** A thread on its way has a next instruction, and it changes something. */
  lemma CanRun(s: State, t: nat) returns (s': State)
    requires t < |s.pcs| && s.pcs[t] != Out && s.pcs[t] != Asleep
    ensures QuietStep(s, s')
  {
    match s.pcs[t]
    case Try(i) =>
      s' := if !s.locked then At(s.(locked := true), t, Held) else At(s, t, if i + 1 < TRIES then Try(i + 1) else Mark);
    case Mark =>
      s' := At(s.(locked := true, contended := true), t, if s.locked then Sleepy else Held);
    case Sleepy => s' := At(s, t, if Is257(s) then Asleep else Mark);
    case Held => s' := At(s, t, if s.locked && !s.contended then Release else Store);
    case Release =>
      s' := if s.locked && !s.contended then At(s.(locked := false), t, Out) else At(s, t, Store);
    case Store => s' := At(s.(locked := false), t, Spin(0));
    case Spin(i) => s' := At(s, t, if s.locked then Out else if i + 1 < SPINS then Spin(i + 1) else Clear);
    case Clear => s' := At(s.(contended := false), t, Wake);
    case Wake =>
      if SomeAsleep(s) {
        var j :| 0 <= j < |s.pcs| && s.pcs[j] == Asleep;
        s' := At(At(s, j, Mark), t, Out);
      } else {
        s' := At(s, t, Out);
      }
    assert Runs(s, s', t) && s'.pcs[t] != s.pcs[t];
  }

  /** Quiet steps stop only where nobody owns the lock, wants it or sleeps, and the lock is free and unmarked. */
  lemma QuietEndIsInitial(s: State)
    requires Inv(s) && Quiet(s)
    ensures Initial(s)
  {
    forall t | 0 <= t < |s.pcs|
      ensures s.pcs[t] == Out || s.pcs[t] == Asleep
    {
      if s.pcs[t] != Out && s.pcs[t] != Asleep {
        var s' := CanRun(s, t);
      }
    }
  }

  ghost predicate QuietSteps(r: seq<State>) {
    r != [] && forall i :: 0 < i < |r| ==> QuietStep(r[i - 1], r[i])
  }

  /** From every state quiet steps lead to the end of all calls under way. */
  lemma {:induction false} QuietRun(s: State) returns (r: seq<State>)
    requires Inv(s)
    ensures QuietSteps(r) && r[0] == s && Initial(r[|r| - 1])
    decreases WantingSum(s), LeavingSum(s), SettlingSum(s)
  {
    if s' :| QuietStep(s, s') {
      QuietStepIsCloser(s, s');
      StepInv(s, s');
      var q := QuietRun(s');
      r := [s] + q;
    } else {
      QuietEndIsInitial(s);
      r := [s];
    }
  }

  lemma QuietIsStep(r: seq<State>)
    requires QuietSteps(r)
    ensures Steps(r)
  {
    forall i | 0 < i < |r|
      ensures Step(r[i - 1], r[i])
    {
      assert QuietStep(r[i - 1], r[i]);
    }
  }

  lemma {:induction false} StepsInv(r: seq<State>, i: nat)
    requires Steps(r) && Inv(r[0]) && i < |r|
    ensures Inv(r[i])
  {
    if 0 < i {
      StepsInv(r, i - 1);
      StepInv(r[i - 1], r[i]);
    }
  }

  /** However quiet steps go on, where they stop every thread that wanted the lock has had it and is out again. */
  lemma EveryRequestIsServed(r: seq<State>, t: nat) returns (k: nat)
    requires QuietSteps(r) && Inv(r[0]) && t < |r[0].pcs|
    requires r[0].pcs[t].Try? || r[0].pcs[t] in {Mark, Sleepy, Asleep}
    requires Quiet(r[|r| - 1])
    ensures 0 < k < |r| - 1 && t < |r[k].pcs| && r[k].pcs[t] == Held
    ensures t < |r[|r| - 1].pcs| && r[|r| - 1].pcs[t] == Out
  {
    var n := |r| - 1;
    QuietIsStep(r);
    StepsInv(r, n);
    SameThreads(r, n);
    QuietEndIsInitial(r[n]);
    k := RequestTakesLock(r, t, 0, n);
  }

  /** From every state every thread has an execution in which it comes to own the lock. */
  lemma EveryThreadCanOwn(s: State, t: nat) returns (r: seq<State>)
    requires Inv(s) && t < |s.pcs|
    ensures Steps(r) && r[0] == s && t < |r[|r| - 1].pcs| && r[|r| - 1].pcs[t] == Held
  {
    var q := QuietRun(s);
    var n := |q| - 1;
    QuietIsStep(q);
    SameThreads(q, n);
    AloneInFourSteps(q[n], t);
    var held := At(q[n].(locked := true), t, Held);
    var p := [q[n], At(q[n], t, Try(0)), held, At(held, t, Release), q[n]];
    r := q + p[1..3];
    forall i | 0 < i < |r|
      ensures Step(r[i - 1], r[i])
    {
      if n < i {
        assert r[i - 1] == p[i - 1 - n] && r[i] == p[i - n];
        assert Step(p[i - n - 1], p[i - n]);
      }
    }
  }
}
