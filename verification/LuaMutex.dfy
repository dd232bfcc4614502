/** `LuaMutex` and its use by `ThinkMainInterface`: any number of threads, one step for each operation on the mutex,
    the condition variable, an atomic, and each load and store of `recursion`. */
module LuaMutex {
  import opened Bytes

  datatype Pc =
    | Idle
    // lock
    | AddWaiting | LockMutex | SubWaiting | StoreOwner | LoadRecursion | StoreRecursion(value: int)
    // unlock
    | LoadToDecrement | StoreDecremented(value: int) | ClearOwner | UnlockMutex | Notify
    // lockWhenDone
    | LockCv | LoadWaiting | LoadOwner | Sleeping | UnlockCv
    // ThinkMainInterface
    | CheckWaiting

  /** The call a thread is in: `lock` and `unlock` may be called by the other two. */
  datatype Task = Plain | WhenDone | Think

  /** `depth` counts the thread's completed, not yet undone locks. */
  datatype Thread = Thread(depth: nat, pc: Pc, task: Task)

  /** The fields: `mutex`, recursive, with its holder and count; `cvMutex`'s holder; thread `t` has identifier
      `t + 1`. */
  datatype State = State(
    threads: seq<Thread>,
    waiting: int,
    holder: Option<nat>,
    count: nat,
    cvHolder: Option<nat>,
    owner: nat,
    recursion: int)

  datatype Action = Lock(t: nat) | Unlock(t: nat) | LockWhenDone(t: nat) | ThinkMainInterface(t: nat) | Go(t: nat)

  // ---------------------------------------------------------------------------
  // The steps
  // ---------------------------------------------------------------------------

  /** Locking and unlocking are balanced; `ThinkMainInterface` runs on the thread that has the main state locked. */
  predicate Enabled(s: State, a: Action) {
    a.t < |s.threads|
    && var th := s.threads[a.t];
    match a
    case Lock(_) => th.pc.Idle?
    case Unlock(_) => th.pc.Idle? && th.depth > 0
    case LockWhenDone(_) => th.pc.Idle?
    case ThinkMainInterface(_) => th.pc.Idle? && th.depth > 0
    case Go(t) =>
      match th.pc
      case Idle => false
      case LockMutex => s.holder == None || s.holder == Some(t)
      case LockCv => s.cvHolder == None
      case _ => true
  }

  function With(s: State, t: nat, th: Thread): State
    requires t < |s.threads|
  {
    s.(threads := s.threads[t := th])
  }

  function GoLock(s: State, t: nat): State
    requires t < |s.threads|
  {
    var th := s.threads[t];
    match th.pc
    case AddWaiting => With(s, t, th.(pc := LockMutex)).(waiting := s.waiting + 1)
    case LockMutex => With(s, t, th.(pc := SubWaiting)).(holder := Some(t), count := s.count + 1)
    case SubWaiting => With(s, t, th.(pc := StoreOwner)).(waiting := s.waiting - 1)
    case StoreOwner => With(s, t, th.(pc := LoadRecursion)).(owner := t + 1)
    case LoadRecursion => With(s, t, th.(pc := StoreRecursion(s.recursion + 1)))
    case StoreRecursion(v) =>
      With(s, t, th.(depth := th.depth + 1, pc := if th.task.WhenDone? then UnlockCv else Idle)).(recursion := v)
    case _ => s
  }

  function GoUnlock(s: State, t: nat): State
    requires t < |s.threads|
  {
    var th := s.threads[t];
    match th.pc
    case LoadToDecrement => With(s, t, th.(pc := StoreDecremented(s.recursion - 1)))
    case StoreDecremented(v) => With(s, t, th.(pc := if v == 0 then ClearOwner else UnlockMutex)).(recursion := v)
    case ClearOwner => With(s, t, th.(pc := UnlockMutex)).(owner := 0)
    case UnlockMutex =>
      With(s, t, th.(depth := if th.depth > 0 then th.depth - 1 else 0, pc := Notify))
        .(count := if s.count > 0 then s.count - 1 else 0, holder := if s.count <= 1 then None else s.holder)
    case Notify => With(s, t, if th.task.Think? then th.(pc := LockCv, task := WhenDone) else th.(pc := Idle))
    case _ => s
  }

  /** A sleeping thread may wake at any time, notified or not. */
  function GoWhenDone(s: State, t: nat): State
    requires t < |s.threads|
  {
    var th := s.threads[t];
    match th.pc
    case LockCv => With(s, t, th.(pc := LoadWaiting)).(cvHolder := Some(t))
    case LoadWaiting =>
      if s.waiting == 0 then With(s, t, th.(pc := LoadOwner))
      else With(s, t, th.(pc := Sleeping)).(cvHolder := None)
    case LoadOwner =>
      if s.owner == 0 then With(s, t, th.(pc := AddWaiting))
      else With(s, t, th.(pc := Sleeping)).(cvHolder := None)
    case Sleeping => With(s, t, th.(pc := LockCv))
    case UnlockCv => With(s, t, th.(pc := Idle, task := Plain)).(cvHolder := None)
    case CheckWaiting =>
      With(s, t, if s.waiting == 0 then th.(pc := Idle, task := Plain) else th.(pc := LoadToDecrement))
    case _ => s
  }

  predicate InLock(pc: Pc) {
    pc.AddWaiting? || pc.LockMutex? || pc.SubWaiting? || pc.StoreOwner? || pc.LoadRecursion? || pc.StoreRecursion?
  }

  predicate InUnlock(pc: Pc) {
    pc.LoadToDecrement? || pc.StoreDecremented? || pc.ClearOwner? || pc.UnlockMutex? || pc.Notify?
  }

  function Do(s: State, a: Action): State
    requires Enabled(s, a)
  {
    var th := s.threads[a.t];
    match a
    case Lock(t) => With(s, t, th.(pc := AddWaiting))
    case Unlock(t) => With(s, t, th.(pc := LoadToDecrement))
    case LockWhenDone(t) => With(s, t, th.(pc := LockCv, task := WhenDone))
    case ThinkMainInterface(t) => With(s, t, th.(pc := CheckWaiting, task := Think))
    case Go(t) => if InLock(th.pc) then GoLock(s, t) else if InUnlock(th.pc) then GoUnlock(s, t) else GoWhenDone(s, t)
  }

  function Start(n: nat): State {
    State(seq(n, _ => Thread(0, Idle, Plain)), 0, None, 0, None, 0, 0)
  }

  // ---------------------------------------------------------------------------
  // The invariant
  // ---------------------------------------------------------------------------

  /** Past `mutex.lock()`, not yet at the end of `lock`. */
  predicate JustLocked(pc: Pc) { pc.SubWaiting? || pc.StoreOwner? || pc.LoadRecursion? || pc.StoreRecursion? }

  /** How often the thread has the underlying mutex locked. */
  function Held(th: Thread): nat { th.depth + if JustLocked(th.pc) then 1 else 0 }

  /** Between the increment and the decrement of `waiting`. */
  predicate IsWaiting(th: Thread) { th.pc.LockMutex? || th.pc.SubWaiting? }

  function Waiters(threads: seq<Thread>): nat {
    if threads == [] then 0
    else Waiters(threads[..|threads| - 1]) + if IsWaiting(threads[|threads| - 1]) then 1 else 0
  }

  /** Evaluating the predicate of the wait, or asleep. */
  predicate InWait(pc: Pc) { pc.LockCv? || pc.LoadWaiting? || pc.LoadOwner? || pc.Sleeping? }

  predicate HasCv(th: Thread) {
    th.pc.LoadWaiting? || th.pc.LoadOwner? || th.pc.UnlockCv? || (th.task.WhenDone? && InLock(th.pc))
  }

  predicate Sensible(th: Thread) {
    && (th.pc.Idle? ==> th.task.Plain?)
    && (InWait(th.pc) || th.pc.UnlockCv? ==> th.task.WhenDone?)
    && (InLock(th.pc) ==> th.task.Plain? || (th.task.WhenDone? && th.depth == 0))
    && (InUnlock(th.pc) ==> !th.task.WhenDone?)
    && (InUnlock(th.pc) && !th.pc.Notify? ==> th.depth > 0)
    && (th.pc.CheckWaiting? ==> th.task.Think? && th.depth > 0)
    && (th.pc.ClearOwner? ==> th.depth == 1)
    && (th.pc.StoreRecursion? ==> th.pc.value == th.depth + 1)
    && (th.pc.StoreDecremented? ==> th.pc.value == th.depth - 1)
  }

  /** What `owner` says when `th`, with identifier `id`, has the mutex. */
  function Published(th: Thread, id: nat): nat {
    if th.pc.UnlockMutex? && th.depth == 1 then 0
    else if th.depth > 0 || th.pc.LoadRecursion? || th.pc.StoreRecursion? then id
    else 0
  }

  /** What `recursion` says then. */
  function Recorded(th: Thread): int {
    if th.pc.UnlockMutex? || th.pc.ClearOwner? then th.depth - 1 else th.depth
  }

  predicate ThreadOk(s: State, t: nat)
    requires t < |s.threads|
  {
    var th := s.threads[t];
    && Sensible(th)
    && (Held(th) > 0 <==> s.holder == Some(t))
    && (s.holder == Some(t) ==> s.count == Held(th) && s.owner == Published(th, t + 1) && s.recursion == Recorded(th))
    && (HasCv(th) <==> s.cvHolder == Some(t))
  }

  predicate Inv(s: State) {
    && (forall t :: 0 <= t < |s.threads| ==> ThreadOk(s, t))
    && s.waiting == Waiters(s.threads)
    && (s.holder.None? ==> s.count == 0 && s.owner == 0 && s.recursion == 0)
    && (s.holder.Some? ==> s.holder.value < |s.threads|)
    && (s.cvHolder.Some? ==> s.cvHolder.value < |s.threads|)
  }

  lemma {:induction false} WaitersUpdate(threads: seq<Thread>, t: nat, th: Thread)
    requires t < |threads|
    ensures Waiters(threads[t := th]) + (if IsWaiting(threads[t]) then 1 else 0)
            == Waiters(threads) + (if IsWaiting(th) then 1 else 0)
  {
    var k := |threads| - 1;
    if t == k {
      assert threads[t := th][..k] == threads[..k];
    } else {
      assert threads[t := th][..k] == threads[..k][t := th];
      WaitersUpdate(threads[..k], t, th);
    }
  }

  lemma GoLockKeeps(s: State, t: nat)
    requires Inv(s) && Enabled(s, Go(t)) && InLock(s.threads[t].pc)
    ensures Inv(GoLock(s, t)) && |GoLock(s, t).threads| == |s.threads|
  {
    hide Waiters;
    var r := GoLock(s, t);
    WaitersUpdate(s.threads, t, r.threads[t]);
    assert ThreadOk(s, t);
    forall u | 0 <= u < |r.threads| ensures ThreadOk(r, u) { assert ThreadOk(s, u); }
  }

  lemma GoUnlockKeeps(s: State, t: nat)
    requires Inv(s) && Enabled(s, Go(t)) && InUnlock(s.threads[t].pc)
    ensures Inv(GoUnlock(s, t)) && |GoUnlock(s, t).threads| == |s.threads|
  {
    hide Waiters;
    var r := GoUnlock(s, t);
    WaitersUpdate(s.threads, t, r.threads[t]);
    assert ThreadOk(s, t);
    forall u | 0 <= u < |r.threads| ensures ThreadOk(r, u) { assert ThreadOk(s, u); }
  }

  lemma WaitKeeps(s: State, t: nat)
    requires Inv(s) && Enabled(s, Go(t)) && InWait(s.threads[t].pc)
    ensures Inv(GoWhenDone(s, t)) && |GoWhenDone(s, t).threads| == |s.threads|
  {
    hide Waiters;
    var r := GoWhenDone(s, t);
    WaitersUpdate(s.threads, t, r.threads[t]);
    assert ThreadOk(s, t);
    forall u | 0 <= u < |r.threads| ensures ThreadOk(r, u) { assert ThreadOk(s, u); }
  }

  lemma GoWhenDoneKeeps(s: State, t: nat)
    requires Inv(s) && Enabled(s, Go(t)) && !InLock(s.threads[t].pc) && !InUnlock(s.threads[t].pc)
    ensures Inv(GoWhenDone(s, t)) && |GoWhenDone(s, t).threads| == |s.threads|
  {
    hide Waiters;
    if InWait(s.threads[t].pc) {
      WaitKeeps(s, t);
    } else {
      var r := GoWhenDone(s, t);
      WaitersUpdate(s.threads, t, r.threads[t]);
      assert ThreadOk(s, t);
      forall u | 0 <= u < |r.threads| ensures ThreadOk(r, u) { assert ThreadOk(s, u); }
    }
  }

  lemma CallKeeps(s: State, a: Action)
    requires Inv(s) && Enabled(s, a) && !a.Go?
    ensures Inv(Do(s, a)) && |Do(s, a).threads| == |s.threads|
  {
    hide Waiters;
    var r := Do(s, a);
    WaitersUpdate(s.threads, a.t, r.threads[a.t]);
    assert ThreadOk(s, a.t);
    forall u | 0 <= u < |r.threads| ensures ThreadOk(r, u) { assert ThreadOk(s, u); }
  }

  lemma StepKeeps(s: State, a: Action)
    requires Inv(s) && Enabled(s, a)
    ensures Inv(Do(s, a)) && |Do(s, a).threads| == |s.threads|
  {
    hide Inv, GoLock, GoUnlock, GoWhenDone;
    if !a.Go? {
      CallKeeps(s, a);
    } else if InLock(s.threads[a.t].pc) {
      GoLockKeeps(s, a.t);
    } else if InUnlock(s.threads[a.t].pc) {
      GoUnlockKeeps(s, a.t);
    } else {
      GoWhenDoneKeeps(s, a.t);
    }
  }

  // ---------------------------------------------------------------------------
  // Every run
  // ---------------------------------------------------------------------------

  predicate Runs(s: State, actions: seq<Action>, r: State)
    decreases |actions|
  {
    if actions == [] then s == r else Enabled(s, actions[0]) && Runs(Do(s, actions[0]), actions[1..], r)
  }

  ghost predicate Reachable(s: State) { exists n: nat, actions :: Runs(Start(n), actions, s) }

  lemma {:induction false} NoWaiters(threads: seq<Thread>)
    requires forall th :: th in threads ==> !IsWaiting(th)
    ensures Waiters(threads) == 0
  {
    if threads != [] { NoWaiters(threads[..|threads| - 1]); }
  }

  lemma StartKeeps(n: nat)
    ensures Inv(Start(n))
  {
    NoWaiters(Start(n).threads);
  }

  lemma {:induction false} RunKeeps(s: State, actions: seq<Action>, r: State)
    requires Inv(s) && Runs(s, actions, r)
    ensures Inv(r) && |r.threads| == |s.threads|
    decreases |actions|
  {
    hide Inv, Enabled;
    if actions != [] {
      StepKeeps(s, actions[0]);
      RunKeeps(Do(s, actions[0]), actions[1..], r);
    }
  }

  lemma ReachableInv(s: State)
    requires Reachable(s)
    ensures Inv(s)
  {
    hide Inv;
    var n: nat, actions :| Runs(Start(n), actions, s);
    StartKeeps(n);
    RunKeeps(Start(n), actions, s);
  }

  /** `isOwning`, asked by thread `t` */
  predicate IsOwning(s: State, t: nat) { s.owner == t + 1 }

  /** For a thread between calls `isOwning` is true exactly when it has the mutex, whatever the others are doing; then
      `recursion` is its depth. */
  lemma OwningIsHolding(s: State, t: nat)
    requires Reachable(s) && t < |s.threads| && s.threads[t].pc.Idle?
    ensures IsOwning(s, t) <==> s.holder == Some(t)
    ensures s.holder == Some(t) <==> s.threads[t].depth > 0
    ensures s.holder == Some(t) ==> s.recursion == s.count == s.threads[t].depth
  {
    ReachableInv(s);
    assert ThreadOk(s, t);
    if s.holder.Some? { assert ThreadOk(s, s.holder.value); }
  }

  /** About to load or store `recursion`. */
  predicate TouchesRecursion(pc: Pc) {
    pc.LoadRecursion? || pc.StoreRecursion? || pc.LoadToDecrement? || pc.StoreDecremented?
  }

  /** The plain counter is never raced on. */
  lemma RecursionIsGuarded(s: State, t: nat, u: nat)
    requires Reachable(s) && t < |s.threads| && u < |s.threads|
    requires TouchesRecursion(s.threads[t].pc) && TouchesRecursion(s.threads[u].pc)
    ensures t == u && s.holder == Some(t)
  {
    ReachableInv(s);
    assert ThreadOk(s, t) && ThreadOk(s, u);
  }

  function WaitersAmong(s: State, n: nat): set<nat>
    requires n <= |s.threads|
  {
    set t: nat | t < n && IsWaiting(s.threads[t])
  }

  lemma {:induction false} WaitersAreCounted(s: State, n: nat)
    requires n <= |s.threads|
    ensures Waiters(s.threads[..n]) == |WaitersAmong(s, n)|
  {
    if n > 0 {
      WaitersAreCounted(s, n - 1);
      assert s.threads[..n][..n - 1] == s.threads[..n - 1];
      var before := WaitersAmong(s, n - 1);
      assert WaitersAmong(s, n) == before + if IsWaiting(s.threads[n - 1]) then {n - 1} else {};
    }
  }

  /** `waiting` is the number of threads between its increment and its decrement. */
  lemma WaitingIsExact(s: State)
    requires Reachable(s)
    ensures s.waiting == |WaitersAmong(s, |s.threads|)|
  {
    ReachableInv(s);
    WaitersAreCounted(s, |s.threads|);
    assert s.threads[..|s.threads|] == s.threads;
  }

  lemma HoldersAreThreads(s: State)
    requires Inv(s)
    ensures s.holder.Some? ==> s.holder.value < |s.threads| && Held(s.threads[s.holder.value]) > 0
    ensures s.cvHolder.Some? ==> s.cvHolder.value < |s.threads| && HasCv(s.threads[s.cvHolder.value])
  {
    hide Waiters;
    if s.holder.Some? { assert ThreadOk(s, s.holder.value); }
    if s.cvHolder.Some? { assert ThreadOk(s, s.cvHolder.value); }
  }

  predicate AllDone(s: State) { forall th :: th in s.threads ==> th == Thread(0, Idle, Plain) }

  /** Once everything locked is unlocked the object is as it was made. */
  lemma BalancedIsFresh(s: State)
    requires Reachable(s) && AllDone(s)
    ensures s == Start(|s.threads|)
  {
    ReachableInv(s);
    forall t | 0 <= t < |s.threads| ensures s.threads[t] == Thread(0, Idle, Plain) && ThreadOk(s, t) {
      assert s.threads[t] in s.threads;
    }
    NoWaiters(s.threads);
    HoldersAreThreads(s);
    assert s.threads == Start(|s.threads|).threads;
  }

  // ---------------------------------------------------------------------------
  // Whole calls
  // ---------------------------------------------------------------------------

  /** Thread `t` starts no call of its own; the others do what they like. */
  predicate OnlyGoes(actions: seq<Action>, t: nat) { forall a :: a in actions && a.t == t ==> a.Go? }

  /** The depth that the thread will have when the call it is in ends. */
  function DepthToBe(th: Thread): int {
    if InLock(th.pc) || InWait(th.pc) then th.depth + 1
    else if InUnlock(th.pc) then th.depth + (if th.pc.Notify? then 0 else -1) + (if th.task.Think? then 1 else 0)
    else th.depth
  }

  lemma GoKeepsDepthToBe(s: State, a: Action, t: nat)
    requires Inv(s) && Enabled(s, a) && t < |s.threads| && (a.t == t ==> a.Go?)
    ensures t < |Do(s, a).threads| && DepthToBe(Do(s, a).threads[t]) == DepthToBe(s.threads[t])
  {
    hide Inv, ThreadOk, Published, Recorded, HasCv;
    TurnFacts(s, t);
  }

  /** What a call is for, in terms of the thread's depth. */
  predicate Counts(before: int, call: Action, after: int) {
    match call
    case Lock(_) => after == before + 1
    case LockWhenDone(_) => after == before + 1
    case Unlock(_) => after == before - 1
    case ThinkMainInterface(_) => after == before
    case Go(_) => false
  }

  lemma CallsAim(s: State, call: Action)
    requires Inv(s) && Enabled(s, call) && !call.Go?
    ensures call.t < |s.threads| == |Do(s, call).threads|
    ensures Counts(s.threads[call.t].depth, call, DepthToBe(Do(s, call).threads[call.t]))
  {
    hide Inv, ThreadOk;
    TurnFacts(s, call.t);
  }

  lemma {:induction false} DepthAfter(s: State, actions: seq<Action>, r: State, t: nat)
    requires Inv(s) && Runs(s, actions, r) && OnlyGoes(actions, t) && t < |s.threads|
    ensures t < |r.threads| && DepthToBe(r.threads[t]) == DepthToBe(s.threads[t])
    decreases |actions|
  {
    hide Inv, Enabled, Do, DepthToBe;
    if actions != [] {
      assert actions[0] in actions;
      GoKeepsDepthToBe(s, actions[0], t);
      StepKeeps(s, actions[0]);
      DepthAfter(Do(s, actions[0]), actions[1..], r, t);
    }
  }

  lemma {:induction false} RunsOn(s: State, actions: seq<Action>, m: State, more: seq<Action>, r: State)
    requires Runs(s, actions, m) && Runs(m, more, r)
    ensures Runs(s, actions + more, r)
    decreases |actions|
  {
    hide Enabled, Do;
    if actions == [] {
      assert [] + more == more;
    } else {
      assert (actions + more)[1..] == actions[1..] + more;
      RunsOn(Do(s, actions[0]), actions[1..], m, more, r);
    }
  }

  lemma ReachesOn(s: State, call: Action, actions: seq<Action>, r: State)
    requires Reachable(s) && Enabled(s, call) && Runs(Do(s, call), actions, r)
    ensures Reachable(r)
  {
    hide Enabled, Do;
    assert ([call] + actions)[1..] == actions;
    var n: nat, before :| Runs(Start(n), before, s);
    RunsOn(Start(n), before, s, [call] + actions, r);
  }

  /** A call that has ended, whatever the other threads did meanwhile: `lock` and `lockWhenDone` have locked once more,
      `unlock` has undone one lock, `ThinkMainInterface` leaves the mutex locked as it found it. */
  lemma WholeCall(s: State, call: Action, actions: seq<Action>, r: State)
    requires Reachable(s) && Enabled(s, call) && !call.Go?
    requires Runs(Do(s, call), actions, r) && OnlyGoes(actions, call.t)
    ensures |r.threads| == |s.threads|
    ensures r.threads[call.t].pc.Idle? ==>
              Counts(s.threads[call.t].depth, call, r.threads[call.t].depth)
    ensures r.threads[call.t].pc.Idle? && !call.Unlock? ==>
              r.holder == Some(call.t) && IsOwning(r, call.t) && r.count == r.threads[call.t].depth
    ensures r.threads[call.t].pc.Idle? && call.Unlock? ==>
              (IsOwning(r, call.t) <==> s.threads[call.t].depth > 1)
              && (r.holder == Some(call.t) <==> s.threads[call.t].depth > 1)
  {
    hide Inv, Runs, Reachable, GoLock, GoUnlock, GoWhenDone;
    ReachableInv(s);
    CallsAim(s, call);
    StepKeeps(s, call);
    DepthAfter(Do(s, call), actions, r, call.t);
    RunKeeps(Do(s, call), actions, r);
    ReachesOn(s, call, actions, r);
    if r.threads[call.t].pc.Idle? { OwningIsHolding(r, call.t); }
  }

  /** Some state of the run, the first and the last included, is such. */
  predicate Meets(s: State, actions: seq<Action>, such: State -> bool)
    decreases |actions|
  {
    such(s) || (actions != [] && Enabled(s, actions[0]) && Meets(Do(s, actions[0]), actions[1..], such))
  }

  /** On the way to a look at `waiting` that finds it zero; on the way to one at `owner`. */
  predicate AwaitsNoWaiter(th: Thread) {
    th.pc.LockCv? || th.pc.LoadWaiting? || th.pc.Sleeping? || (th.task.Think? && !th.pc.Idle?)
  }

  lemma NoWaiterStep(s: State, a: Action, t: nat)
    requires Inv(s) && Enabled(s, a) && t < |s.threads| && (a.t == t ==> a.Go?)
    requires s.waiting != 0 && AwaitsNoWaiter(s.threads[t])
    ensures t < |Do(s, a).threads| && AwaitsNoWaiter(Do(s, a).threads[t])
  {
    hide Waiters;
    assert ThreadOk(s, t);
  }

  lemma NoOwnerStep(s: State, a: Action, t: nat)
    requires Inv(s) && Enabled(s, a) && t < |s.threads| && (a.t == t ==> a.Go?)
    requires s.owner != 0 && InWait(s.threads[t].pc)
    ensures t < |Do(s, a).threads| && InWait(Do(s, a).threads[t].pc)
  {
    hide Waiters;
    assert ThreadOk(s, t);
  }

  lemma {:induction false} MeetsNoWaiter(s: State, actions: seq<Action>, r: State, t: nat)
    requires Inv(s) && Runs(s, actions, r) && OnlyGoes(actions, t) && t < |s.threads|
    requires AwaitsNoWaiter(s.threads[t])
    ensures Meets(s, actions, (m: State) => m.waiting == 0) || (t < |r.threads| && !r.threads[t].pc.Idle?)
    decreases |actions|
  {
    hide Inv, Enabled, Do;
    if actions != [] && s.waiting != 0 {
      assert actions[0] in actions;
      NoWaiterStep(s, actions[0], t);
      StepKeeps(s, actions[0]);
      MeetsNoWaiter(Do(s, actions[0]), actions[1..], r, t);
    }
  }

  lemma {:induction false} MeetsNoOwner(s: State, actions: seq<Action>, r: State, t: nat)
    requires Inv(s) && Runs(s, actions, r) && OnlyGoes(actions, t) && t < |s.threads|
    requires InWait(s.threads[t].pc)
    ensures Meets(s, actions, (m: State) => m.owner == 0) || (t < |r.threads| && !r.threads[t].pc.Idle?)
    decreases |actions|
  {
    hide Inv, Enabled, Do;
    if actions != [] && s.owner != 0 {
      assert actions[0] in actions;
      NoOwnerStep(s, actions[0], t);
      StepKeeps(s, actions[0]);
      MeetsNoOwner(Do(s, actions[0]), actions[1..], r, t);
    }
  }

  /** `lockWhenDone` and `ThinkMainInterface` do not return before there was a moment without waiters; the first, not
      before one at which the mutex was not locked either. */
  lemma ReturnsWhenDone(s: State, call: Action, actions: seq<Action>, r: State)
    requires Reachable(s) && Enabled(s, call) && (call.LockWhenDone? || call.ThinkMainInterface?)
    requires Runs(Do(s, call), actions, r) && OnlyGoes(actions, call.t)
    requires call.t < |r.threads| && r.threads[call.t].pc.Idle?
    ensures Meets(Do(s, call), actions, (m: State) => m.waiting == 0)
    ensures call.LockWhenDone? ==> Meets(Do(s, call), actions, (m: State) => m.owner == 0)
  {
    hide Inv, Runs, Reachable, Meets, GoLock, GoUnlock, GoWhenDone;
    ReachableInv(s);
    StepKeeps(s, call);
    MeetsNoWaiter(Do(s, call), actions, r, call.t);
    if call.LockWhenDone? { MeetsNoOwner(Do(s, call), actions, r, call.t); }
  }

  // ---------------------------------------------------------------------------
  // Threads that never return
  // ---------------------------------------------------------------------------

  /** In `lockWhenDone` with the mutex locked, or bound to get there from `ThinkMainInterface`. */
  predicate Doomed(s: State, t: nat)
    requires t < |s.threads|
  {
    var th := s.threads[t];
    || (InWait(th.pc) && th.depth > 0)
    || (th.task.Think? && InUnlock(th.pc) && th.depth > (if th.pc.Notify? then 0 else 1))
    || (th.pc.CheckWaiting? && th.depth > 1 && s.waiting != 0)
  }

  lemma AloneWithMutex(s: State, t: nat, u: nat)
    requires Inv(s) && t < |s.threads| && u < |s.threads| && t != u && s.threads[t].depth > 0
    ensures s.threads[u].depth == 0 && !JustLocked(s.threads[u].pc)
  {
    hide Waiters;
    assert ThreadOk(s, t) && ThreadOk(s, u);
  }

  /** Whoever is doomed stays so, whatever happens. */
  lemma DoomedStays(s: State, a: Action, t: nat)
    requires Inv(s) && Enabled(s, a) && t < |s.threads| && Doomed(s, t)
    ensures t < |Do(s, a).threads| && Doomed(Do(s, a), t)
  {
    hide Waiters;
    assert ThreadOk(s, t) && ThreadOk(s, a.t);
    if a.t != t { AloneWithMutex(s, t, a.t); }
    StepKeeps(s, a);
    var r := Do(s, a);
    if s.threads[t].pc.CheckWaiting? && a.t != t {
      var u := s.threads[a.t];
      assert Waiters(r.threads) >= Waiters(s.threads) by {
        WaitersUpdate(s.threads, a.t, r.threads[a.t]);
      }
    }
  }

  lemma {:induction false} DoomedForever(s: State, actions: seq<Action>, r: State, t: nat)
    requires Inv(s) && Runs(s, actions, r) && t < |s.threads| && Doomed(s, t)
    ensures t < |r.threads| && Doomed(r, t)
    decreases |actions|
  {
    hide Inv, Enabled, Doomed;
    if actions != [] {
      DoomedStays(s, actions[0], t);
      StepKeeps(s, actions[0]);
      DoomedForever(Do(s, actions[0]), actions[1..], r, t);
    }
  }

  /** `ThinkMainInterface` called with the mutex locked more than once, while someone waits, never returns. */
  lemma ThinkNeverReturns(s: State, t: nat, actions: seq<Action>, r: State)
    requires Reachable(s) && t < |s.threads| && s.threads[t].pc.Idle? && s.threads[t].depth > 1 && s.waiting != 0
    requires Runs(Do(s, ThinkMainInterface(t)), actions, r)
    ensures t < |r.threads| && !r.threads[t].pc.Idle?
  {
    hide Inv;
    ReachableInv(s);
    StepKeeps(s, ThinkMainInterface(t));
    DoomedForever(Do(s, ThinkMainInterface(t)), actions, r, t);
  }

  /** Steps left until the thread is idle with nothing locked, when all goes well. */
  function ToGo(th: Thread): int {
    6 * th.depth + (if th.task.Think? && InUnlock(th.pc) then 17 else 0) +
    match th.pc
    case Idle => 0
    case AddWaiting => 13
    case LockMutex => 12
    case SubWaiting => 11
    case StoreOwner => 10
    case LoadRecursion => 9
    case StoreRecursion(_) => 8
    case LoadToDecrement => -1
    case StoreDecremented(_) => -2
    case ClearOwner => -3
    case UnlockMutex => -4
    case Notify => 1
    case LockCv => 16
    case LoadWaiting => 15
    case LoadOwner => 14
    case Sleeping => 17
    case UnlockCv => 1
    case CheckWaiting => 17
  }

  function TotalToGo(threads: seq<Thread>): int {
    if threads == [] then 0 else TotalToGo(threads[..|threads| - 1]) + ToGo(threads[|threads| - 1])
  }

  lemma {:induction false} TotalUpdate(threads: seq<Thread>, t: nat, th: Thread)
    requires t < |threads|
    ensures TotalToGo(threads[t := th]) == TotalToGo(threads) - ToGo(threads[t]) + ToGo(th)
  {
    hide ToGo;
    var k := |threads| - 1;
    if t == k {
      assert threads[t := th][..k] == threads[..k];
    } else {
      assert threads[t := th][..k] == threads[..k][t := th];
      TotalUpdate(threads[..k], t, th);
    }
  }

  lemma {:induction false} TotalNotNegative(s: State, n: nat)
    requires Inv(s) && n <= |s.threads|
    ensures TotalToGo(s.threads[..n]) >= 0
  {
    hide Waiters;
    if n > 0 {
      TotalNotNegative(s, n - 1);
      assert s.threads[..n][..n - 1] == s.threads[..n - 1];
      assert ThreadOk(s, n - 1);
    }
  }

  /** A thread's next step on its way out. */
  function Onward(th: Thread, t: nat): Action { if th.pc.Idle? then Unlock(t) else Go(t) }

  predicate NoneDoomed(s: State) { forall t :: 0 <= t < |s.threads| ==> !Doomed(s, t) }

  /** The thread whose turn it is can step. */
  predicate Turn(s: State, t: nat) {
    t < |s.threads| && Enabled(s, Onward(s.threads[t], t))
    && (s.holder == Some(t)
        || (s.holder.None? && !InWait(s.threads[t].pc))
        || (s.holder.None? && s.waiting == 0 && s.owner == 0))
  }

  lemma GoLockDecreases(s: State, t: nat)
    requires t < |s.threads| && InLock(s.threads[t].pc) && Sensible(s.threads[t])
    ensures ToGo(GoLock(s, t).threads[t]) < ToGo(s.threads[t])
  {
  }

  lemma GoUnlockDecreases(s: State, t: nat)
    requires t < |s.threads| && InUnlock(s.threads[t].pc) && Sensible(s.threads[t])
    ensures ToGo(GoUnlock(s, t).threads[t]) < ToGo(s.threads[t])
  {
  }

  lemma GoWhenDoneDecreases(s: State, t: nat)
    requires t < |s.threads| && Sensible(s.threads[t])
    requires !s.threads[t].pc.Idle? && !InLock(s.threads[t].pc) && !InUnlock(s.threads[t].pc)
    requires InWait(s.threads[t].pc) ==> s.waiting == 0 && s.owner == 0
    ensures ToGo(GoWhenDone(s, t).threads[t]) < ToGo(s.threads[t])
  {
  }

  lemma TurnDecreases(s: State, t: nat)
    requires Inv(s) && Turn(s, t) && !Doomed(s, t)
    ensures ToGo(Do(s, Onward(s.threads[t], t)).threads[t]) < ToGo(s.threads[t])
  {
    hide Inv, ThreadOk, Published, Recorded, GoLock, GoUnlock, GoWhenDone, Sensible;
    TurnFacts(s, t);
    var th := s.threads[t];
    if th.pc.Idle? {
      SensibleIdle(th);
    } else if InLock(th.pc) {
      GoLockDecreases(s, t);
    } else if InUnlock(th.pc) {
      GoUnlockDecreases(s, t);
    } else {
      GoWhenDoneDecreases(s, t);
    }
  }

  lemma SensibleIdle(th: Thread)
    requires Sensible(th) && th.pc.Idle?
    ensures th.task.Plain?
  {
  }

  lemma TurnFacts(s: State, t: nat)
    requires Inv(s) && t < |s.threads|
    ensures Sensible(s.threads[t]) && (s.holder == Some(t) ==> Held(s.threads[t]) > 0)
  {
    hide Waiters, Sensible;
    assert ThreadOk(s, t);
  }

  lemma TurnDoomsNone(s: State, t: nat)
    requires Inv(s) && Turn(s, t) && NoneDoomed(s)
    ensures NoneDoomed(Do(s, Onward(s.threads[t], t)))
  {
    hide Waiters;
    var r := Do(s, Onward(s.threads[t], t));
    assert ThreadOk(s, t) && !Doomed(s, t);
    forall u | 0 <= u < |r.threads| ensures !Doomed(r, u) {
      assert ThreadOk(s, u) && !Doomed(s, u);
    }
  }

  /** The thread that holds the mutex goes first; then whoever is not in the wait; then the one evaluating. */
  lemma SomeonesTurn(s: State) returns (t: nat)
    requires Inv(s) && NoneDoomed(s) && !AllDone(s)
    ensures Turn(s, t)
  {
    hide Waiters;
    if s.holder.Some? {
      t := s.holder.value;
      assert ThreadOk(s, t) && !Doomed(s, t);
    } else if u :| 0 <= u < |s.threads| && !s.threads[u].pc.Idle? && !InWait(s.threads[u].pc) {
      t := u;
      assert ThreadOk(s, t);
    } else {
      NoWaiters(s.threads);
      if s.cvHolder.Some? {
        t := s.cvHolder.value;
        assert ThreadOk(s, t);
      } else {
        var th :| th in s.threads && th != Thread(0, Idle, Plain);
        t :| 0 <= t < |s.threads| && s.threads[t] == th;
        assert ThreadOk(s, t);
      }
    }
  }

  lemma {:induction false} FinishAll(s: State) returns (actions: seq<Action>, r: State)
    requires Inv(s) && NoneDoomed(s)
    ensures Runs(s, actions, r) && AllDone(r) && forall a :: a in actions ==> a.Unlock? || a.Go?
    decreases var total := TotalToGo(s.threads); if total < 0 then 0 else total, !AllDone(s)
  {
    hide Inv, Enabled, AllDone, Turn, NoneDoomed, Doomed, ToGo;
    if AllDone(s) { return [], s; }
    var t := SomeonesTurn(s);
    TurnMeans(s, t);
    var a := Onward(s.threads[t], t);
    var next := Do(s, a);
    StepKeeps(s, a);
    TurnDecreases(s, t);
    TurnDoomsNone(s, t);
    DoChanges(s, a);
    TotalUpdate(s.threads, t, next.threads[t]);
    TotalNotNegative(next, |next.threads|);
    assert next.threads[..|next.threads|] == next.threads;
    var more: seq<Action>;
    more, r := FinishAll(next);
    actions := [a] + more;
  }

  lemma TurnMeans(s: State, t: nat)
    requires Turn(s, t)
    ensures t < |s.threads| && Enabled(s, Onward(s.threads[t], t))
    ensures NoneDoomed(s) ==> !Doomed(s, t)
  {
  }

  lemma DoChanges(s: State, a: Action)
    requires Enabled(s, a)
    ensures a.t < |Do(s, a).threads| && Do(s, a).threads == s.threads[a.t := Do(s, a).threads[a.t]]
  {
  }

  /** Every call can still return, and every lock be undone, exactly when no thread is doomed. */
  lemma AllCanReturnIff(s: State)
    requires Reachable(s)
    ensures (exists actions: seq<Action>, r ::
               Runs(s, actions, r) && AllDone(r) && forall a :: a in actions ==> a.Unlock? || a.Go?)
            <==> NoneDoomed(s)
  {
    ReachableInv(s);
    if NoneDoomed(s) {
      var actions, r := FinishAll(s);
    } else {
      var t :| 0 <= t < |s.threads| && Doomed(s, t);
      forall actions: seq<Action>, r | Runs(s, actions, r) ensures !AllDone(r) {
        DoomedForever(s, actions, r, t);
        assert r.threads[t] in r.threads;
      }
    }
  }

  // ---------------------------------------------------------------------------
  // At the call
  // ---------------------------------------------------------------------------

  /** A call begun in `s` by thread `t` can return: there is a run after which the thread is between calls. */
  ghost predicate CanReturn(s: State, t: nat) {
    exists actions: seq<Action>, r :: Runs(s, actions, r) && t < |r.threads| && r.threads[t].pc.Idle?
  }

  /** A thread with the mutex is not kept from it by anyone. */
  lemma HolderDoomsOthers(s: State, t: nat)
    requires Inv(s) && t < |s.threads| && s.threads[t].depth > 0 && !Doomed(s, t)
    ensures NoneDoomed(s)
  {
    hide Waiters;
    forall u | 0 <= u < |s.threads| ensures !Doomed(s, u) {
      if u != t { AloneWithMutex(s, t, u); }
      assert ThreadOk(s, u);
    }
  }

  lemma NoneDoomedCanReturn(s: State, t: nat)
    requires Inv(s) && NoneDoomed(s) && t < |s.threads|
    ensures CanReturn(s, t)
  {
    hide Inv, NoneDoomed;
    var actions, r := FinishAll(s);
    RunKeeps(s, actions, r);
    assert r.threads[t] in r.threads;
  }

  lemma DoomedCannotReturn(s: State, t: nat)
    requires Inv(s) && t < |s.threads| && Doomed(s, t)
    ensures !CanReturn(s, t)
  {
    hide Inv;
    forall actions: seq<Action>, r | Runs(s, actions, r) && t < |r.threads| ensures !r.threads[t].pc.Idle? {
      DoomedForever(s, actions, r, t);
    }
  }

  /** `ThinkMainInterface`, called by the thread that has the main state locked, can return exactly if it has it
      locked once, or if nobody waits at the call. */
  lemma ThinkReturnsIff(s: State, t: nat)
    requires Reachable(s) && Enabled(s, ThinkMainInterface(t))
    ensures CanReturn(Do(s, ThinkMainInterface(t)), t) <==> s.threads[t].depth == 1 || s.waiting == 0
  {
    hide Inv;
    ReachableInv(s);
    StepKeeps(s, ThinkMainInterface(t));
    var r := Do(s, ThinkMainInterface(t));
    if Doomed(r, t) {
      DoomedCannotReturn(r, t);
    } else {
      HolderDoomsOthers(r, t);
      NoneDoomedCanReturn(r, t);
    }
  }

  /** Waiting for a mutex that a doomed thread has. */
  predicate ShutOut(s: State, t: nat)
    requires t < |s.threads|
  {
    var th := s.threads[t];
    th.depth == 0 && th.task.WhenDone? && (InWait(th.pc) || th.pc.AddWaiting? || th.pc.LockMutex?)
  }

  lemma DoomedHolds(s: State, u: nat)
    requires Inv(s) && u < |s.threads| && Doomed(s, u)
    ensures s.holder == Some(u)
  {
    hide Waiters;
    assert ThreadOk(s, u);
  }

  lemma ShutOutStays(s: State, a: Action, t: nat, u: nat)
    requires Inv(s) && Enabled(s, a) && t < |s.threads| && u < |s.threads| && u != t
    requires Doomed(s, u) && ShutOut(s, t)
    ensures t < |Do(s, a).threads| && ShutOut(Do(s, a), t)
  {
    hide Inv, Doomed;
    DoomedHolds(s, u);
  }

  lemma {:induction false} ShutOutForever(s: State, actions: seq<Action>, r: State, t: nat, u: nat)
    requires Inv(s) && Runs(s, actions, r) && t < |s.threads| && u < |s.threads| && u != t
    requires Doomed(s, u) && ShutOut(s, t)
    ensures t < |r.threads| && ShutOut(r, t)
    decreases |actions|
  {
    hide Inv, Enabled, Doomed, ShutOut;
    if actions != [] {
      DoomedStays(s, actions[0], u);
      ShutOutStays(s, actions[0], t, u);
      StepKeeps(s, actions[0]);
      ShutOutForever(Do(s, actions[0]), actions[1..], r, t, u);
    }
  }

  /** Starting to wait dooms nobody else. */
  lemma WaitDoomsNoOther(s: State, t: nat, u: nat)
    requires Enabled(s, LockWhenDone(t)) && u < |s.threads| && u != t
    ensures var r := Do(s, LockWhenDone(t)); u < |r.threads| && (Doomed(r, u) <==> Doomed(s, u))
  {
  }

  /** `lockWhenDone` can return exactly if the caller does not have the mutex, and no doomed thread has it. */
  lemma LockWhenDoneReturnsIff(s: State, t: nat)
    requires Reachable(s) && Enabled(s, LockWhenDone(t))
    ensures CanReturn(Do(s, LockWhenDone(t)), t) <==> s.threads[t].depth == 0 && NoneDoomed(s)
  {
    hide Inv;
    ReachableInv(s);
    StepKeeps(s, LockWhenDone(t));
    var r := Do(s, LockWhenDone(t));
    forall u | 0 <= u < |s.threads| && u != t ensures u < |r.threads| && (Doomed(r, u) <==> Doomed(s, u)) {
      WaitDoomsNoOther(s, t, u);
    }
    if s.threads[t].depth > 0 {
      DoomedCannotReturn(r, t);
    } else if NoneDoomed(s) {
      NoneDoomedCanReturn(r, t);
    } else {
      var u :| 0 <= u < |s.threads| && Doomed(s, u);
      forall actions: seq<Action>, q | Runs(r, actions, q) && t < |q.threads| ensures !q.threads[t].pc.Idle? {
        ShutOutForever(r, actions, q, t, u);
      }
    }
  }

  // ---------------------------------------------------------------------------
  // It happens
  // ---------------------------------------------------------------------------

  lemma ReachOn(s: State, a: Action, r: State)
    requires Reachable(s) && Enabled(s, a) && Do(s, a) == r
    ensures Reachable(r)
  {
    ReachesOn(s, a, [], r);
  }

  /** Two threads, of which the first has the mutex `depth` times and is at `pc`. */
  function Two(depth: nat, pc: Pc, waiting: int, count: nat, owner: nat, recursion: int): State {
    State([Thread(depth, pc, Plain), Thread(0, Idle, Plain)], waiting, if count > 0 then Some(0) else None, count, None,
          owner, recursion)
  }

  lemma LockOnce(d: nat)
    requires Reachable(Two(d, Idle, 0, d, if d > 0 then 1 else 0, d))
    ensures Reachable(Two(d + 1, Idle, 0, d + 1, 1, d + 1))
  {
    hide Reachable;
    LocksMutex(d);
    ReachOn(Two(d, StoreOwner, 0, d + 1, if d > 0 then 1 else 0, d), Go(0), Two(d, LoadRecursion, 0, d + 1, 1, d));
    ReachOn(Two(d, LoadRecursion, 0, d + 1, 1, d), Go(0), Two(d, StoreRecursion(d + 1), 0, d + 1, 1, d));
    ReachOn(Two(d, StoreRecursion(d + 1), 0, d + 1, 1, d), Go(0), Two(d + 1, Idle, 0, d + 1, 1, d + 1));
  }

  lemma LocksMutex(d: nat)
    requires Reachable(Two(d, Idle, 0, d, if d > 0 then 1 else 0, d))
    ensures Reachable(Two(d, StoreOwner, 0, d + 1, if d > 0 then 1 else 0, d))
  {
    hide Reachable;
    var owner := if d > 0 then 1 else 0;
    ReachOn(Two(d, Idle, 0, d, owner, d), Lock(0), Two(d, AddWaiting, 0, d, owner, d));
    ReachOn(Two(d, AddWaiting, 0, d, owner, d), Go(0), Two(d, LockMutex, 1, d, owner, d));
    ReachOn(Two(d, LockMutex, 1, d, owner, d), Go(0), Two(d, SubWaiting, 1, d + 1, owner, d));
    ReachOn(Two(d, SubWaiting, 1, d + 1, owner, d), Go(0), Two(d, StoreOwner, 0, d + 1, owner, d));
  }

  /** The position in which `ThinkMainInterface` is lost is reached: one thread locks twice, another then waits. */
  lemma LockedTwiceWithWaiter()
    ensures exists s :: Reachable(s) && |s.threads| == 2 && s.threads[0] == Thread(2, Idle, Plain) && s.waiting == 1
  {
    hide Reachable;
    StartIsReachable(2);
    assert Start(2).threads == [Thread(0, Idle, Plain), Thread(0, Idle, Plain)];
    assert Start(2) == Two(0, Idle, 0, 0, 0, 0);
    LockOnce(0);
    LockOnce(1);
    var s := Two(2, Idle, 0, 2, 1, 2);
    var begun := s.(threads := [s.threads[0], Thread(0, AddWaiting, Plain)]);
    ReachOn(s, Lock(1), begun);
    var waits := s.(threads := [s.threads[0], Thread(0, LockMutex, Plain)], waiting := 1);
    ReachOn(begun, Go(1), waits);
    assert waits.threads[0] == Thread(2, Idle, Plain);
  }

  lemma StartIsReachable(n: nat)
    ensures Reachable(Start(n))
  {
    assert Runs(Start(n), [], Start(n));
  }
}
