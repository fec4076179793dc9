/**
 * The handshake between a pool thread (the worker) and the thread that starts and stops it (the
 * controller): thread_main against thread_start and thread_stop, over one lock and one condition variable.
 * The lock is the abstract one that the futex mutex refines; the condition variable is its counter and the
 * kernel's sleepers.
 */
module Handshake {

  /** The controller. `start` tells thread_start from thread_stop; s is the counter read by cond_wait. */
  datatype Ctl =
    | Rest(started: bool)           // neither starting nor stopping
    | Lock(start: bool)             // about to take the lock
    | Set(start: bool)              // about to write canrun
    | Signal                        // about to advance the counter
    | WakeUp                        // about to wake a sleeper
    | Check(start: bool)            // about to look at running
    | Read(start: bool)             // cond_wait: about to read the counter
    | Drop(start: bool, s: nat)     // about to release the lock
    | Doze(start: bool, s: nat)     // about to sleep unless the counter has moved
    | Asleep(start: bool, s: nat)
    | Relock(start: bool)           // about to take the lock again
    | Unlock(start: bool)           // about to release the lock and return

  /** The worker. `run` tells the signal that it runs from the signal that it has stopped. */
  datatype Wk =
    | WLock
    | WCheck                        // about to look at canrun
    | WIdle                         // about to clear running
    | WSignal(run: bool)
    | WWakeUp(run: bool)
    | WRead
    | WDrop(s: nat)
    | WDoze(s: nat)
    | WAsleep(s: nat)
    | WRelock
    | WRun                          // about to set running
    | WUnlock
    | WCall                         // about to read its pool
    | WFunc(pool: nat)              // in the function of that pool

  /** pool is what the latest thread_start has written; tick is the counter of the condition variable. */
  datatype State = State(canrun: bool, running: bool, tick: nat, pool: nat, c: Ctl, w: Wk)

  predicate CtlHolds(c: Ctl) {
    c.Set? || c.Signal? || c.WakeUp? || c.Check? || c.Read? || c.Drop? || c.Unlock?
  }

  predicate WkHolds(w: Wk) {
    w.WCheck? || w.WIdle? || w.WSignal? || w.WWakeUp? || w.WRead? || w.WDrop? || w.WRun? || w.WUnlock?
  }

  function WokenCtl(c: Ctl): Ctl {
    if c.Asleep? then Relock(c.start) else c
  }

  function WokenWk(w: Wk): Wk {
    if w.WAsleep? then WRelock else w
  }

  predicate CtlReady(s: State) {
    !s.c.Rest? && !s.c.Asleep? && (s.c.Lock? || s.c.Relock? ==> !WkHolds(s.w))
  }

  /** The controller's next atomic step within a command. */
  function CtlNext(s: State): State
    requires CtlReady(s)
  {
    match s.c
    case Lock(start) => s.(c := Set(start))
    case Set(start) => s.(canrun := start, c := if start then Signal else Check(false))
    case Signal => s.(tick := s.tick + 1, c := WakeUp)
    case WakeUp => s.(w := WokenWk(s.w), c := Check(true))
    case Check(start) => s.(c := if s.running == start then Unlock(start) else Read(start))
    case Read(start) => s.(c := Drop(start, s.tick))
    case Drop(start, n) => s.(c := Doze(start, n))
    case Doze(start, n) => s.(c := if n == s.tick then Asleep(start, n) else Relock(start))
    case Relock(start) => s.(c := Check(start))
    case Unlock(start) => s.(c := Rest(start))
  }

  /** At rest the controller may begin the command that is due: a thread_stop, or a thread_start for the pool p. */
  predicate Begins(s: State, s': State, p: nat) {
    (s.c == Rest(true) && s' == s.(c := Lock(false))) || (s.c == Rest(false) && s' == s.(pool := p, c := Lock(true)))
  }

  predicate WkReady(s: State) {
    !s.w.WAsleep? && (s.w.WLock? || s.w.WRelock? ==> !CtlHolds(s.c))
  }

  /** The worker's next atomic step. */
  function WkNext(s: State): State
    requires WkReady(s)
  {
    match s.w
    case WLock => s.(w := WCheck)
    case WCheck => s.(w := if s.canrun then WRun else WIdle)
    case WIdle => s.(running := false, w := WSignal(false))
    case WSignal(run) => s.(tick := s.tick + 1, w := WWakeUp(run))
    case WWakeUp(run) => s.(c := WokenCtl(s.c), w := if run then WUnlock else WRead)
    case WRead => s.(w := WDrop(s.tick))
    case WDrop(n) => s.(w := WDoze(n))
    case WDoze(n) => s.(w := if n == s.tick then WAsleep(n) else WRelock)
    case WRelock => s.(w := WCheck)
    case WRun => s.(running := true, w := WSignal(true))
    case WUnlock => s.(w := WCall)
    case WCall => s.(w := WFunc(s.pool))
    case WFunc(_) => s.(w := WLock)
  }

  /** The kernel may wake a sleeper for no reason. */
  ghost predicate Spurious(s: State, s': State) {
    (s.c.Asleep? && s' == s.(c := WokenCtl(s.c))) || (s.w.WAsleep? && s' == s.(w := WokenWk(s.w)))
  }

  ghost predicate Step(s: State, s': State, p: nat) {
    (CtlReady(s) && s' == CtlNext(s)) || (WkReady(s) && s' == WkNext(s)) || Begins(s, s', p) || Spurious(s, s')
  }

  ghost predicate Initial(s: State) {
    !s.canrun && !s.running && s.tick == 0 && s.c == Rest(false) && s.w == WLock
  }

  // ---------- Invariant ----------

  /** From the end of thread_start to the next thread_stop's write. */
  predicate Up(c: Ctl) {
    c == Rest(true) || c == Lock(false) || c == Set(false) || c == Unlock(true)
  }

  /** From the end of thread_stop to the next thread_start's write. */
  predicate Down(c: Ctl) {
    c == Rest(false) || c == Lock(true) || c == Set(true) || c == Unlock(false)
  }

  /** canrun is 1 from the write of thread_start to that of thread_stop. */
  predicate MayRun(c: Ctl) {
    Up(c) || c == Signal || c == WakeUp ||
    ((c.Check? || c.Read? || c.Drop? || c.Doze? || c.Asleep? || c.Relock?) && c.start)
  }

  /** On the way to the function of the pool or in it. */
  predicate Active(w: Wk) {
    w == WSignal(true) || w == WWakeUp(true) || w == WUnlock || w == WCall || w.WFunc?
  }

  /** Announced as stopped and not looking at canrun. */
  predicate Parked(w: Wk) {
    w == WSignal(false) || w == WWakeUp(false) || w == WRead || w.WDrop? || w.WDoze? || w.WAsleep?
  }

  ghost predicate LockInv(s: State) {
    !(CtlHolds(s.c) && WkHolds(s.w))
  }

  ghost predicate FlagInv(s: State) {
    (s.canrun <==> MayRun(s.c)) &&
    (Up(s.c) ==> s.running) && (Down(s.c) ==> !s.running) &&
    (Active(s.w) ==> s.running) && (Parked(s.w) || s.w == WRelock ==> !s.running) &&
    (s.w == WRun ==> s.canrun) && (s.w == WIdle ==> !s.canrun) &&
    (s.w == WSignal(false) || s.w == WWakeUp(false) || s.w == WRead || s.w.WDrop? ==> !s.canrun) &&
    (s.c.Read? || s.c.Drop? ==> s.running != s.c.start)
  }

  /** Who waits with the present counter has not missed the signal; who missed it is about to be woken. */
  ghost predicate SignalInv(s: State) {
    (s.w.WDrop? ==> s.w.s == s.tick) && (s.w.WDoze? || s.w.WAsleep? ==> s.w.s <= s.tick) &&
    ((s.w.WDoze? || s.w.WAsleep?) && s.w.s == s.tick ==> !s.canrun || s.c == Signal) &&
    ((s.w.WDoze? || s.w.WAsleep?) && s.w.s != s.tick ==> s.canrun) &&
    (s.w.WAsleep? && s.w.s != s.tick ==> s.c == WakeUp) &&
    (s.c.Drop? ==> s.c.s == s.tick) && (s.c.Doze? || s.c.Asleep? ==> s.c.s <= s.tick) &&
    ((s.c.Doze? || s.c.Asleep?) && s.c.s == s.tick ==> s.running != s.c.start || s.w == WSignal(s.c.start)) &&
    (s.c.Asleep? && s.c.s != s.tick ==> s.w.WWakeUp?)
  }

  /** The pool whose function runs is not replaced under it. */
  ghost predicate PoolInv(s: State) {
    s.w.WFunc? ==> s.w.pool == s.pool
  }

  ghost predicate Inv(s: State) {
    LockInv(s) && FlagInv(s) && SignalInv(s) && PoolInv(s)
  }

  lemma InitialInv(s: State)
    requires Initial(s)
    ensures Inv(s)
  {
  }

  lemma CtlKeepsFlags(s: State)
    requires Inv(s) && CtlReady(s)
    ensures FlagInv(CtlNext(s))
  {
    hide SignalInv;
  }

  lemma CtlKeepsSignals(s: State)
    requires Inv(s) && CtlReady(s)
    ensures LockInv(CtlNext(s)) && SignalInv(CtlNext(s)) && PoolInv(CtlNext(s))
  {
  }

  lemma WkKeepsFlags(s: State)
    requires Inv(s) && WkReady(s)
    ensures FlagInv(WkNext(s))
  {
    hide SignalInv;
  }

  lemma WkKeepsSignals(s: State)
    requires Inv(s) && WkReady(s)
    ensures LockInv(WkNext(s)) && SignalInv(WkNext(s)) && PoolInv(WkNext(s))
  {
  }

  lemma BeginsInv(s: State, s': State, p: nat)
    requires Inv(s) && (Begins(s, s', p) || Spurious(s, s'))
    ensures Inv(s')
  {
  }

  lemma StepInv(s: State, s': State, p: nat)
    requires Inv(s) && Step(s, s', p)
    ensures Inv(s')
  {
    hide LockInv, FlagInv, SignalInv, PoolInv, CtlNext, WkNext;
    if Begins(s, s', p) || Spurious(s, s') {
      BeginsInv(s, s', p);
    } else if CtlReady(s) && s' == CtlNext(s) {
      CtlKeepsFlags(s);
      CtlKeepsSignals(s);
    } else {
      WkKeepsFlags(s);
      WkKeepsSignals(s);
    }
  }

  // ---------- Safety ----------

  /** An execution; args[i] is the pool that step i is for, should it begin a thread_start. */
  ghost predicate Run(run: seq<State>, args: seq<nat>) {
    |run| == |args| + 1 && Initial(run[0]) && forall i :: 0 <= i < |args| ==> Step(run[i], run[i + 1], args[i])
  }

  lemma {:induction false} RunInv(run: seq<State>, args: seq<nat>, i: nat)
    requires Run(run, args) && i < |run|
    ensures Inv(run[i])
  {
    hide Inv, Step;
    if i == 0 {
      InitialInv(run[0]);
    } else {
      RunInv(run, args, i - 1);
      StepAt(run, args, i - 1);
      StepInv(run[i - 1], run[i], args[i - 1]);
    }
  }

  lemma StepAt(run: seq<State>, args: seq<nat>, i: nat)
    requires Run(run, args) && i < |args|
    ensures Step(run[i], run[i + 1], args[i])
  {
    hide Step;
  }

  lemma RestIsStopped(s: State)
    requires Inv(s)
    ensures s.c == Rest(false) ==> !Active(s.w) && s.w != WRun && !s.running
  {
  }

  lemma StoppedStays(s: State, s': State, p: nat)
    requires Inv(s) && Step(s, s', p) && !s'.canrun
    requires !Active(s.w) && s.w != WRun && !s.running
    ensures !Active(s'.w) && s'.w != WRun && !s'.running
  {
  }

  /**
   * Once thread_stop has returned, the worker is neither in the function nor on its way to it until a
   * thread_start has written canrun.
   */
  lemma {:induction false} StoppedUntilStarted(run: seq<State>, args: seq<nat>, i: nat, j: nat)
    requires Run(run, args) && i <= j < |run| && run[i].c == Rest(false)
    requires forall k :: i < k <= j ==> !run[k].canrun
    ensures !Active(run[j].w) && run[j].w != WRun && !run[j].running
    ensures !run[j].w.WCall? && !run[j].w.WFunc?
  {
    hide Inv, Step, Run;
    if i == j {
      RunInv(run, args, j);
      RestIsStopped(run[j]);
    } else {
      StoppedUntilStarted(run, args, i, j - 1);
      RunInv(run, args, j - 1);
      StepBefore(run, args, j);
      StoppedStays(run[j - 1], run[j], args[j - 1]);
    }
  }

  lemma StepBefore(run: seq<State>, args: seq<nat>, j: nat)
    requires Run(run, args) && 0 < j < |run|
    ensures |run| == |args| + 1 && Step(run[j - 1], run[j], args[j - 1])
  {
    StepAt(run, args, j - 1);
  }

  /** When thread_start returns, the worker has announced that it runs and may enter the function. */
  lemma StartedIsRunning(run: seq<State>, args: seq<nat>, i: nat)
    requires Run(run, args) && i < |run| && run[i].c == Rest(true)
    ensures run[i].canrun && run[i].running
    ensures Active(run[i].w) || run[i].w == WLock || run[i].w == WCheck || run[i].w == WRun
  {
    RunInv(run, args, i);
  }

  // ---------- The pool whose function runs ----------

  /** A thread_start begins. */
  predicate Starts(s: State, s': State) {
    s.c == Rest(false) && s'.c == Lock(true)
  }

  /** At rest a thread_start for any pool may begin, and it leaves that pool for the worker. */
  lemma CanStart(s: State, p: nat) returns (s': State)
    requires s.c == Rest(false)
    ensures Step(s, s', p) && s'.c == Lock(true) && s'.pool == p
  {
    s' := s.(pool := p, c := Lock(true));
  }

  /** After a thread_start comes a thread_stop. */
  lemma CanStop(s: State, p: nat) returns (s': State)
    requires s.c == Rest(true)
    ensures Step(s, s', p) && s'.c == Lock(false) && s'.pool == s.pool
  {
    s' := s.(c := Lock(false));
  }

  /** The function may return at any time, and a sleeper may wake at any time. */
  lemma MayReturnOrWake(s: State, p: nat)
    ensures s.w.WFunc? ==> Step(s, s.(w := WLock), p)
    ensures s.w.WAsleep? ==> Step(s, s.(w := WRelock), p)
    ensures s.c.Asleep? ==> Step(s, s.(c := Relock(s.c.start)), p)
  {
  }

  /** A step that starts is for its pool; any other step leaves the pool, and a controller between commands, alone. */
  lemma StartStep(s: State, s': State, p: nat)
    requires Step(s, s', p)
    ensures s'.pool == if Starts(s, s') then p else s.pool
    ensures s.c == Rest(false) && !Starts(s, s') ==> s'.c == Rest(false)
  {
  }

  /** No thread_start begins at the steps from i up to j. */
  predicate NoStart(run: seq<State>, i: nat, j: nat) {
    forall k :: i <= k < j && k + 1 < |run| ==> !Starts(run[k], run[k + 1])
  }

  /** Until a thread_start begins the controller rests; after it, the pool is the one that it was for. */
  lemma {:induction false} LatestStart(run: seq<State>, args: seq<nat>, j: nat) returns (started: bool, i: nat)
    requires Run(run, args) && j < |run|
    ensures !started ==> run[j].c == Rest(false)
    ensures started ==>
      i < j && Starts(run[i], run[i + 1]) && NoStart(run, i + 1, j) && |run| == |args| + 1 && run[j].pool == args[i]
  {
    if j == 0 {
      started, i := false, 0;
    } else {
      started, i := LatestStart(run, args, j - 1);
      StepBefore(run, args, j);
      StartStep(run[j - 1], run[j], args[j - 1]);
      hide Run, Step, Starts;
      if Starts(run[j - 1], run[j]) {
        started, i := true, j - 1;
      }
    }
  }

  /** The function that runs is that of the pool that the latest thread_start was given. */
  lemma FunctionOfTheLatestPool(run: seq<State>, args: seq<nat>, j: nat) returns (i: nat)
    requires Run(run, args) && j < |run| && run[j].w.WFunc?
    ensures i < j && Starts(run[i], run[i + 1]) && NoStart(run, i + 1, j)
    ensures |run| == |args| + 1 && run[j].w.pool == args[i]
  {
    RunInv(run, args, j);
    RestIsStopped(run[j]);
    var started;
    started, i := LatestStart(run, args, j);
  }

  /** thread_start changes the pool only while the worker is out of the function. */
  lemma PoolChangesOnlyWhenStopped(run: seq<State>, args: seq<nat>, i: nat)
    requires Run(run, args) && i < |args| && run[i + 1].pool != run[i].pool
    ensures Starts(run[i], run[i + 1]) && run[i + 1].pool == args[i]
    ensures !Active(run[i].w) && !run[i].w.WCall? && !run[i].w.WFunc?
  {
    RunInv(run, args, i);
    StepAt(run, args, i);
  }

  /** No signal is lost: the two never sleep on the condition variable at the same time. */
  lemma NeverBothAsleep(run: seq<State>, args: seq<nat>, i: nat)
    requires Run(run, args) && i < |run|
    ensures !(run[i].c.Asleep? && run[i].w.WAsleep?)
  {
    RunInv(run, args, i);
  }

  // ---------- Progress ----------

  /** A step that begins no command; the worker leaves a function only once canrun is 0. */
  ghost predicate QuietStep(s: State, s': State) {
    (CtlReady(s) && s' == CtlNext(s)) || (WkReady(s) && !(s.w.WFunc? && s.canrun) && s' == WkNext(s))
  }

  /** How much of its command the controller has still to do before it waits. */
  function Stage(c: Ctl): nat {
    match c
    case Lock(_) => 4
    case Set(_) => 3
    case Signal => 2
    case WakeUp => 1
    case _ => 0
  }

  /** How far the worker is from the function, or from sleep. */
  function WkRank(canrun: bool, w: Wk): nat {
    match w
    case WAsleep(_) => 0
    case WFunc(_) => if canrun then 0 else 15
    case WCall => 16
    case WUnlock => 17
    case WWakeUp(run) => if run then 18 else if canrun then 26 else 4
    case WSignal(run) => if run then 19 else if canrun then 27 else 5
    case WRun => 20
    case WCheck => if canrun then 21 else 7
    case WLock => if canrun then 22 else 8
    case WRelock => if canrun then 22 else 8
    case WDoze(_) => if canrun then 23 else 1
    case WDrop(_) => if canrun then 24 else 2
    case WRead => if canrun then 25 else 3
    case WIdle => if canrun then 28 else 6
  }

  /** How far the controller is from its return, or from sleep. */
  function CtlRank(tick: nat, c: Ctl): nat {
    match c
    case Doze(_, n) => if n == tick then 1 else 6
    case Drop(_, _) => 2
    case Read(_) => 3
    case Unlock(_) => 1
    case Check(_) => 4
    case Relock(_) => 5
    case _ => 0
  }

  ghost predicate Closer(s: State, s': State) {
    Stage(s'.c) < Stage(s.c) ||
    (Stage(s'.c) == Stage(s.c) &&
     (WkRank(s'.canrun, s'.w) < WkRank(s.canrun, s.w) ||
      (WkRank(s'.canrun, s'.w) == WkRank(s.canrun, s.w) && CtlRank(s'.tick, s'.c) < CtlRank(s.tick, s.c))))
  }

  lemma CtlIsCloser(s: State)
    requires Inv(s) && CtlReady(s)
    ensures Closer(s, CtlNext(s))
  {
    hide FlagInv;
  }

  lemma WkIsCloser(s: State)
    requires Inv(s) && WkReady(s) && !(s.w.WFunc? && s.canrun)
    ensures Closer(s, WkNext(s))
  {
  }

  /** Every quiet step brings the command closer to its end. */
  lemma QuietStepIsCloser(s: State, s': State)
    requires Inv(s) && QuietStep(s, s')
    ensures Closer(s, s')
  {
    hide Inv, CtlNext, WkNext, Stage, WkRank, CtlRank;
    if CtlReady(s) && s' == CtlNext(s) {
      CtlIsCloser(s);
    } else {
      WkIsCloser(s);
    }
  }

  /** No execution consists of quiet steps for ever. */
  lemma QuietStepsEnd(f: nat -> State)
    requires Inv(f(0))
    ensures exists i: nat :: !QuietStep(f(i), f(i + 1))
  {
    QuietStepsEndFrom(f, 0);
  }

  lemma QuietIsStep(s: State, s': State, p: nat)
    requires QuietStep(s, s')
    ensures Step(s, s', p) && s'.pool == s.pool
    ensures Starting(s'.c) == Starting(s.c)
  {
  }

  lemma {:induction false} QuietStepsEndFrom(f: nat -> State, k: nat)
    requires Inv(f(k))
    ensures exists i: nat :: !QuietStep(f(i), f(i + 1))
    decreases Stage(f(k).c), WkRank(f(k).canrun, f(k).w), CtlRank(f(k).tick, f(k).c)
  {
    hide Inv, Stage, WkRank, CtlRank;
    if QuietStep(f(k), f(k + 1)) {
      QuietIsStep(f(k), f(k + 1), 0);
      StepInv(f(k), f(k + 1), 0);
      QuietStepIsCloser(f(k), f(k + 1));
      QuietStepsEndFrom(f, k + 1);
    }
  }

  ghost predicate Quiet(s: State) {
    forall s' :: !QuietStep(s, s')
  }

  /**
   * Quiet steps stop only when the command is over: after thread_start the worker is in the function, after
   * thread_stop it sleeps.
   */
  lemma QuietEndIsRest(s: State)
    requires Inv(s) && Quiet(s)
    ensures (s.c == Rest(true) && s.w == WFunc(s.pool)) || (s.c == Rest(false) && s.w.WAsleep?)
  {
    if CtlReady(s) {
      assert QuietStep(s, CtlNext(s));
    }
    if WkReady(s) && !(s.w.WFunc? && s.canrun) {
      assert QuietStep(s, WkNext(s));
    }
  }

  /** The command under way, or the latest one, is a thread_start. */
  predicate Starting(c: Ctl) {
    match c
    case Rest(started) => started
    case Signal => true
    case WakeUp => true
    case _ => c.start
  }

  ghost predicate QuietSteps(r: seq<State>) {
    r != [] && forall i :: 0 < i < |r| ==> QuietStep(r[i - 1], r[i])
  }

  lemma {:induction false} QuietStepsKeep(r: seq<State>)
    requires QuietSteps(r) && Inv(r[0])
    ensures var last := r[|r| - 1]; Inv(last) && last.pool == r[0].pool && Starting(last.c) == Starting(r[0].c)
  {
    hide Inv, QuietStep, Starting;
    if 1 < |r| {
      var m := |r| - 2;
      QuietStepsKeep(r[..m + 1]);
      assert QuietStep(r[m + 1 - 1], r[m + 1]);
      QuietIsStep(r[m], r[m + 1], 0);
      StepInv(r[m], r[m + 1], 0);
    }
  }

  /** However a thread_start for p goes on, it ends with the worker in the function of p. */
  lemma StartRunsItsPool(s: State, p: nat, r: seq<State>)
    requires Inv(s) && QuietSteps(r) && Step(s, r[0], p) && Starts(s, r[0]) && Quiet(r[|r| - 1])
    ensures r[|r| - 1].c == Rest(true) && r[|r| - 1].w == WFunc(p)
  {
    StepInv(s, r[0], p);
    StartStep(s, r[0], p);
    QuietStepsKeep(r);
    QuietEndIsRest(r[|r| - 1]);
  }

  /** However a thread_stop goes on, it ends with the worker asleep. */
  lemma StopPutsToSleep(s: State, p: nat, r: seq<State>)
    requires Inv(s) && QuietSteps(r) && Step(s, r[0], p) && s.c == Rest(true) && r[0].c == Lock(false)
    requires Quiet(r[|r| - 1])
    ensures r[|r| - 1].c == Rest(false) && r[|r| - 1].w.WAsleep?
  {
    StepInv(s, r[0], p);
    QuietStepsKeep(r);
    QuietEndIsRest(r[|r| - 1]);
  }
}
