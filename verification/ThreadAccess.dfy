/** `ThreadAccessMutex`: a recursive reader/writer lock from thread-local counters over a plain shared mutex, used
    through nested scopes by any number of threads. Each operation on the underlying mutex is a step of its own. */
module ThreadAccess {
  datatype Scope = Scoped | Critical

  /** Where a thread is: between calls, or about to do an operation on the underlying mutex. */
  datatype Pc =
    | Idle
    | WaitShared        // lock_shared: mutex.lock_shared()
    | ReleaseShared     // unlock_shared: mutex.unlock_shared()
    | UpgradeRelease    // lock: mutex.unlock_shared()
    | WaitExclusive     // lock: mutex.lock()
    | ReleaseExclusive  // unlock: mutex.unlock()
    | WaitSharedAgain   // unlock: mutex.lock_shared()

  /** A thread: its open scopes, the innermost last, and its two counters. */
  datatype Thread = Thread(scopes: seq<Scope>, shared: int, exclusive: int, pc: Pc)

  /** The underlying mutex: who holds it exclusively, and how often each thread holds it shared. */
  datatype Mutex = Mutex(writer: set<nat>, readers: multiset<nat>)

  datatype State = State(threads: seq<Thread>, mutex: Mutex)

  /** The calls a thread may start, and the step a thread inside a call may take. */
  datatype Action =
    | OpenScoped(t: nat)
    | TryScoped(t: nat, luck: bool)
    | OpenCritical(t: nat)
    | Close(t: nat)
    | Go(t: nat)

  // ---------------------------------------------------------------------------
  // The steps
  // ---------------------------------------------------------------------------

  predicate CanLock(m: Mutex) { m.writer == {} && m.readers == multiset{} }

  predicate CanLockShared(m: Mutex) { m.writer == {} }

  predicate Waits(pc: Pc) { pc.WaitShared? || pc.WaitExclusive? || pc.WaitSharedAgain? }

  function Top(scopes: seq<Scope>): Scope
    requires scopes != []
  {
    scopes[|scopes| - 1]
  }

  function Pop(scopes: seq<Scope>): seq<Scope> { if scopes == [] then [] else scopes[..|scopes| - 1] }

  /** Scopes are nested objects: only the innermost is closed, and a thread inside a call starts no other. */
  predicate Enabled(s: State, a: Action) {
    a.t < |s.threads|
    && var th := s.threads[a.t];
    match a
    case OpenScoped(_) => th.pc.Idle?
    case TryScoped(_, _) => th.pc.Idle?
    case OpenCritical(_) => th.pc.Idle?
    case Close(_) => th.pc.Idle? && th.scopes != []
    case Go(_) =>
      match th.pc
      case Idle => false
      case WaitShared => CanLockShared(s.mutex)
      case WaitExclusive => CanLock(s.mutex)
      case WaitSharedAgain => CanLockShared(s.mutex)
      case _ => true
  }

  /** `lock_shared`, up to the operation on the underlying mutex. */
  function LockShared(th: Thread): Thread {
    if th.exclusive > 0 then th.(scopes := th.scopes + [Scoped])
    else if th.shared > 0 then th.(scopes := th.scopes + [Scoped], shared := th.shared + 1)
    else th.(pc := WaitShared)
  }

  /** `try_lock_shared`; the underlying attempt may fail, and does when a writer holds the mutex. */
  function TryLockShared(th: Thread, m: Mutex, t: nat, luck: bool): (Thread, Mutex) {
    if th.exclusive > 0 then (th.(scopes := th.scopes + [Scoped]), m)
    else if th.shared > 0 then (th.(scopes := th.scopes + [Scoped], shared := th.shared + 1), m)
    else if luck && CanLockShared(m) then
      (th.(scopes := th.scopes + [Scoped], shared := th.shared + 1), m.(readers := m.readers + multiset{t}))
    else (th, m)
  }

  /** `unlock_shared` */
  function UnlockShared(th: Thread): Thread {
    if th.exclusive > 0 then th.(scopes := Pop(th.scopes))
    else if th.shared - 1 > 0 then th.(shared := th.shared - 1, scopes := Pop(th.scopes))
    else th.(shared := th.shared - 1, pc := ReleaseShared)
  }

  /** `lock` */
  function Lock(th: Thread): Thread {
    if th.exclusive > 0 then th.(exclusive := th.exclusive + 1, scopes := th.scopes + [Critical])
    else if th.shared > 0 && th.exclusive == 0 then th.(pc := UpgradeRelease)
    else th.(pc := WaitExclusive)
  }

  /** `unlock` */
  function Unlock(th: Thread): Thread {
    if th.exclusive - 1 > 0 then th.(exclusive := th.exclusive - 1, scopes := Pop(th.scopes))
    else th.(exclusive := th.exclusive - 1, pc := ReleaseExclusive)
  }

  /** The operation on the underlying mutex, and what follows it up to the next one. */
  function Proceed(th: Thread, m: Mutex, t: nat): (Thread, Mutex) {
    match th.pc
    case Idle => (th, m)
    case WaitShared =>
      (th.(shared := th.shared + 1, scopes := th.scopes + [Scoped], pc := Idle), m.(readers := m.readers + multiset{t}))
    case ReleaseShared => (th.(scopes := Pop(th.scopes), pc := Idle), m.(readers := m.readers - multiset{t}))
    case UpgradeRelease => (th.(pc := WaitExclusive), m.(readers := m.readers - multiset{t}))
    case WaitExclusive =>
      (th.(exclusive := th.exclusive + 1, scopes := th.scopes + [Critical], pc := Idle), m.(writer := m.writer + {t}))
    case ReleaseExclusive =>
      (if th.shared > 0 then th.(pc := WaitSharedAgain) else th.(scopes := Pop(th.scopes), pc := Idle),
       m.(writer := m.writer - {t}))
    case WaitSharedAgain => (th.(scopes := Pop(th.scopes), pc := Idle), m.(readers := m.readers + multiset{t}))
  }

  /** One thread's part of a step. */
  function Local(th: Thread, m: Mutex, a: Action): (Thread, Mutex)
    requires a.Close? ==> th.scopes != []
  {
    match a
    case OpenScoped(_) => (LockShared(th), m)
    case TryScoped(t, luck) => TryLockShared(th, m, t, luck)
    case OpenCritical(_) => (Lock(th), m)
    case Close(_) => (if Top(th.scopes).Scoped? then UnlockShared(th) else Unlock(th), m)
    case Go(t) => Proceed(th, m, t)
  }

  function Do(s: State, a: Action): State
    requires Enabled(s, a)
  {
    var (th, m) := Local(s.threads[a.t], s.mutex, a);
    State(s.threads[a.t := th], m)
  }

  function Start(n: nat): State {
    State(seq(n, _ => Thread([], 0, 0, Idle)), Mutex({}, multiset{}))
  }

  // ---------------------------------------------------------------------------
  // The invariant
  // ---------------------------------------------------------------------------

  predicate AllScoped(scopes: seq<Scope>) { forall s :: s in scopes ==> s.Scoped? }

  function Criticals(scopes: seq<Scope>): nat {
    if scopes == [] then 0 else Criticals(Pop(scopes)) + if Top(scopes).Critical? then 1 else 0
  }

  /** Scoped scopes below the first critical one. */
  function BelowCritical(scopes: seq<Scope>): nat {
    if scopes == [] then 0
    else BelowCritical(Pop(scopes)) + if Top(scopes).Scoped? && Criticals(scopes) == 0 then 1 else 0
  }

  predicate HoldsExclusive(m: Mutex, t: nat) { t in m.writer }

  predicate HoldsShared(m: Mutex, t: nat) { t in m.readers }

  predicate HoldsNothing(m: Mutex, t: nat) { !HoldsExclusive(m, t) && !HoldsShared(m, t) }

  /** The counters follow the scopes, the scope being opened not yet among them and the one being closed still. */
  predicate Counted(th: Thread) {
    match th.pc
    case Idle => th.shared == BelowCritical(th.scopes) && th.exclusive == Criticals(th.scopes)
    case WaitShared => th.scopes == [] && th.shared == 0 && th.exclusive == 0
    case ReleaseShared => th.scopes == [Scoped] && th.shared == 0 && th.exclusive == 0
    case UpgradeRelease =>
      AllScoped(th.scopes) && th.scopes != [] && th.shared == |th.scopes| && th.exclusive == 0
    case WaitExclusive => AllScoped(th.scopes) && th.shared == |th.scopes| && th.exclusive == 0
    case ReleaseExclusive =>
      th.scopes != [] && Top(th.scopes).Critical? && AllScoped(Pop(th.scopes))
      && th.shared == |th.scopes| - 1 && th.exclusive == 0
    case WaitSharedAgain =>
      |th.scopes| > 1 && Top(th.scopes).Critical? && AllScoped(Pop(th.scopes))
      && th.shared == |th.scopes| - 1 && th.exclusive == 0
  }

  /** What the thread holds of the underlying mutex. */
  predicate Holds(th: Thread, m: Mutex, t: nat) {
    && m.readers[t] <= 1
    && (HoldsExclusive(m, t) <==> th.exclusive > 0 || th.pc.ReleaseExclusive?)
    && (HoldsShared(m, t) <==>
          (th.pc.Idle? && th.exclusive == 0 && th.shared > 0) || th.pc.ReleaseShared? || th.pc.UpgradeRelease?)
  }

  /** The underlying mutex keeps its own promise, and only the model's threads use it. */
  predicate MutexSound(m: Mutex, n: nat) {
    && (forall t :: t in m.writer ==> t < n && m.readers == multiset{})
    && (forall t, u :: t in m.writer && u in m.writer ==> t == u)
    && (forall t :: t in m.readers ==> t < n)
  }

  predicate Inv(s: State) {
    MutexSound(s.mutex, |s.threads|)
    && forall t :: 0 <= t < |s.threads| ==> Counted(s.threads[t]) && Holds(s.threads[t], s.mutex, t)
  }

  // ---------------------------------------------------------------------------
  // Every step keeps it
  // ---------------------------------------------------------------------------

  lemma AllScopedBelow(scopes: seq<Scope>)
    requires scopes != []
    ensures AllScoped(scopes) <==> AllScoped(Pop(scopes)) && Top(scopes).Scoped?
  {
    assert scopes == Pop(scopes) + [Top(scopes)];
  }

  lemma EmptyIsScoped()
    ensures AllScoped([])
  {
  }

  lemma {:induction false} NoCriticals(scopes: seq<Scope>)
    ensures Criticals(scopes) == 0 <==> AllScoped(scopes)
    ensures AllScoped(scopes) ==> BelowCritical(scopes) == |scopes|
    ensures BelowCritical(scopes) + Criticals(scopes) > 0 <==> scopes != []
  {
    hide AllScoped;
    EmptyIsScoped();
    if scopes != [] {
      NoCriticals(Pop(scopes));
      AllScopedBelow(scopes);
    }
  }

  lemma CountsOfPush(scopes: seq<Scope>, s: Scope)
    ensures Criticals(scopes + [s]) == Criticals(scopes) + if s.Critical? then 1 else 0
    ensures BelowCritical(scopes + [s])
            == BelowCritical(scopes) + if s.Scoped? && Criticals(scopes) == 0 then 1 else 0
  {
    assert Pop(scopes + [s]) == scopes && Top(scopes + [s]) == s;
  }

  /** What a step of thread `t` must establish, and what it leaves alone. */
  ghost predicate Kept(s: State, th: Thread, m: Mutex, t: nat) {
    && Counted(th) && Holds(th, m, t) && MutexSound(m, |s.threads|)
    && (forall u :: u != t ==> (u in m.writer <==> u in s.mutex.writer))
    && forall u :: u != t ==> m.readers[u] == s.mutex.readers[u]
  }

  lemma OpenKeeps(s: State, a: Action)
    requires Inv(s) && Enabled(s, a) && (a.OpenScoped? || a.TryScoped?)
    ensures var (th, m) := Local(s.threads[a.t], s.mutex, a); Kept(s, th, m, a.t)
  {
    hide AllScoped, Criticals, BelowCritical;
    var th := s.threads[a.t];
    NoCriticals(th.scopes);
    CountsOfPush(th.scopes, Scoped);
  }

  lemma OpenCriticalKeeps(s: State, a: Action)
    requires Inv(s) && Enabled(s, a) && a.OpenCritical?
    ensures var (th, m) := Local(s.threads[a.t], s.mutex, a); Kept(s, th, m, a.t)
  {
    hide AllScoped, Criticals, BelowCritical;
    var th := s.threads[a.t];
    NoCriticals(th.scopes);
    CountsOfPush(th.scopes, Critical);
  }

  lemma CloseKeeps(s: State, a: Action)
    requires Inv(s) && Enabled(s, a) && a.Close?
    ensures var (th, m) := Local(s.threads[a.t], s.mutex, a); Kept(s, th, m, a.t)
  {
    hide AllScoped, Criticals, BelowCritical;
    var th := s.threads[a.t];
    NoCriticals(th.scopes);
    NoCriticals(Pop(th.scopes));
    CountsOfPush(Pop(th.scopes), Top(th.scopes));
    assert th.scopes == Pop(th.scopes) + [Top(th.scopes)];
    if |th.scopes| == 1 { assert th.scopes == [Top(th.scopes)]; }
  }

  lemma AcquireKeeps(s: State, a: Action)
    requires Inv(s) && Enabled(s, a) && a.Go? && Waits(s.threads[a.t].pc)
    ensures var (th, m) := Local(s.threads[a.t], s.mutex, a); Kept(s, th, m, a.t)
  {
    hide AllScoped, Criticals, BelowCritical;
    var th := s.threads[a.t];
    NoCriticals(th.scopes);
    NoCriticals(Pop(th.scopes));
    CountsOfPush(th.scopes, if th.pc.WaitShared? then Scoped else Critical);
  }

  lemma ReleaseKeeps(s: State, a: Action)
    requires Inv(s) && Enabled(s, a) && a.Go? && !Waits(s.threads[a.t].pc)
    ensures var (th, m) := Local(s.threads[a.t], s.mutex, a); Kept(s, th, m, a.t)
  {
    hide AllScoped, Criticals, BelowCritical;
    NoCriticals(Pop(s.threads[a.t].scopes));
  }

  lemma StepKeeps(s: State, a: Action)
    requires Inv(s) && Enabled(s, a)
    ensures Inv(Do(s, a)) && |Do(s, a).threads| == |s.threads|
  {
    hide Counted, MutexSound, Local;
    match a {
      case OpenScoped(_) => OpenKeeps(s, a);
      case TryScoped(_, _) => OpenKeeps(s, a);
      case OpenCritical(_) => OpenCriticalKeeps(s, a);
      case Close(_) => CloseKeeps(s, a);
      case Go(_) => if Waits(s.threads[a.t].pc) { AcquireKeeps(s, a); } else { ReleaseKeeps(s, a); }
    }
  }

  lemma StartKeeps(n: nat)
    ensures Inv(Start(n))
  {
  }

  // ---------------------------------------------------------------------------
  // Every run
  // ---------------------------------------------------------------------------

  /** The actions lead from `s` to `r`. */
  predicate Runs(s: State, actions: seq<Action>, r: State)
    decreases |actions|
  {
    if actions == [] then s == r else Enabled(s, actions[0]) && Runs(Do(s, actions[0]), actions[1..], r)
  }

  ghost predicate Reachable(s: State) { exists n: nat, actions :: Runs(Start(n), actions, s) }

  lemma {:induction false} RunKeeps(s: State, actions: seq<Action>, r: State)
    requires Inv(s) && Runs(s, actions, r)
    ensures Inv(r) && |r.threads| == |s.threads|
    decreases |actions|
  {
    hide Inv, Enabled;
    if actions != [] {
      StepKeeps(s, actions[0]);
      RunKeeps(Do(s, actions[0]), actions[1..], r);
    }
  }

  lemma ReachableInv(s: State)
    requires Reachable(s)
    ensures Inv(s)
  {
    var n: nat, actions :| Runs(Start(n), actions, s);
    StartKeeps(n);
    RunKeeps(Start(n), actions, s);
  }

  /** Position of the first critical scope, or the number of scopes. */
  function FirstCritical(scopes: seq<Scope>): (k: nat)
    ensures k <= |scopes| && (k < |scopes| ==> scopes[k] == Critical)
    ensures forall i :: 0 <= i < k ==> scopes[i] == Scoped
  {
    if scopes == [] || scopes[0].Critical? then 0 else 1 + FirstCritical(scopes[1..])
  }

  lemma FirstCriticalIs(scopes: seq<Scope>, k: nat)
    requires k <= |scopes| && (forall i :: 0 <= i < k ==> scopes[i] == Scoped)
    requires k < |scopes| ==> scopes[k] == Critical
    ensures FirstCritical(scopes) == k
  {
    var j := FirstCritical(scopes);
  }

  lemma FirstCriticalOfPush(scopes: seq<Scope>, s: Scope)
    ensures FirstCritical(scopes + [s])
            == FirstCritical(scopes) + if s.Scoped? && FirstCritical(scopes) == |scopes| then 1 else 0
    ensures AllScoped(scopes) <==> FirstCritical(scopes) == |scopes|
  {
    var k := FirstCritical(scopes);
    FirstCriticalIs(scopes + [s], if s.Scoped? && k == |scopes| then k + 1 else k);
    if k < |scopes| { assert scopes[k] in scopes; }
  }

  lemma {:induction false} CountsMean(scopes: seq<Scope>)
    ensures BelowCritical(scopes) == FirstCritical(scopes)
    ensures Criticals(scopes) == multiset(scopes)[Critical]
  {
    if scopes != [] {
      hide FirstCritical, AllScoped;
      CountsMean(Pop(scopes));
      assert scopes == Pop(scopes) + [Top(scopes)];
      CountsOfPush(Pop(scopes), Top(scopes));
      NoCriticals(Pop(scopes));
      FirstCriticalOfPush(Pop(scopes), Top(scopes));
    }
  }

  /** `isLocked` */
  predicate IsLocked(th: Thread) { th.exclusive > 0 || th.shared > 0 }

  /** Between its calls a thread holds the lock exclusively exactly when one of its scopes is critical, shared exactly
      when it has scopes and none is; its counters count the scopes below the first critical one, and the critical
      ones. */
  lemma BetweenCalls(s: State, t: nat)
    requires Reachable(s) && t < |s.threads| && s.threads[t].pc.Idle?
    ensures var th := s.threads[t];
            && (HoldsExclusive(s.mutex, t) <==> Critical in th.scopes)
            && (HoldsShared(s.mutex, t) <==> th.scopes != [] && Critical !in th.scopes)
            && th.shared == FirstCritical(th.scopes)
            && th.exclusive == multiset(th.scopes)[Critical]
            && (IsLocked(th) <==> th.scopes != [])
  {
    ReachableInv(s);
    CountsMean(s.threads[t].scopes);
    NoCriticals(s.threads[t].scopes);
    assert Counted(s.threads[t]) && Holds(s.threads[t], s.mutex, t);
  }

  // ---------------------------------------------------------------------------
  // Whole calls
  // ---------------------------------------------------------------------------

  /** Thread `t` starts no call of its own; the others do what they like. */
  predicate OnlyGoes(actions: seq<Action>, t: nat) { forall a :: a in actions && a.t == t ==> a.Go? }

  /** The scopes that the thread will have when the call it is in ends. */
  function ScopesToBe(th: Thread): seq<Scope> {
    match th.pc
    case Idle => th.scopes
    case WaitShared => th.scopes + [Scoped]
    case UpgradeRelease => th.scopes + [Critical]
    case WaitExclusive => th.scopes + [Critical]
    case _ => Pop(th.scopes)
  }

  lemma GoKeepsScopesToBe(s: State, a: Action, t: nat)
    requires Enabled(s, a) && t < |s.threads| && (a.t == t ==> a.Go?)
    ensures t < |Do(s, a).threads| && ScopesToBe(Do(s, a).threads[t]) == ScopesToBe(s.threads[t])
  {
  }

  lemma {:induction false} ScopesAfter(s: State, actions: seq<Action>, r: State, t: nat)
    requires Runs(s, actions, r) && OnlyGoes(actions, t) && t < |s.threads|
    ensures t < |r.threads| && ScopesToBe(r.threads[t]) == ScopesToBe(s.threads[t])
    decreases |actions|
  {
    hide Enabled, Do, ScopesToBe;
    if actions != [] {
      assert actions[0] in actions;
      GoKeepsScopesToBe(s, actions[0], t);
      ScopesAfter(Do(s, actions[0]), actions[1..], r, t);
    }
  }

  /** What a call is for. */
  predicate Opens(before: seq<Scope>, call: Action, after: seq<Scope>) {
    match call
    case OpenScoped(_) => after == before + [Scoped]
    case TryScoped(_, _) => after == before + [Scoped] || (before == [] && after == [])
    case OpenCritical(_) => after == before + [Critical]
    case Close(_) => before != [] && after == before[..|before| - 1]
    case Go(_) => false
  }

  lemma CallsAim(s: State, call: Action)
    requires Inv(s) && Enabled(s, call) && !call.Go?
    ensures call.t < |s.threads|
    ensures Opens(s.threads[call.t].scopes, call, ScopesToBe(Do(s, call).threads[call.t]))
    ensures call.TryScoped? && call.luck && s.mutex.writer == {} ==>
              ScopesToBe(Do(s, call).threads[call.t]) == s.threads[call.t].scopes + [Scoped]
  {
    hide AllScoped, Criticals, BelowCritical;
    NoCriticals(s.threads[call.t].scopes);
    assert Counted(s.threads[call.t]);
  }

  /** A call that has ended, whatever the other threads did meanwhile, has opened its scope, or closed the innermost;
      the attempt only fails for a thread without scopes, and then the underlying attempt failed or met a writer. */
  lemma WholeCall(s: State, call: Action, actions: seq<Action>, r: State)
    requires Reachable(s) && Enabled(s, call) && !call.Go?
    requires Runs(Do(s, call), actions, r) && OnlyGoes(actions, call.t)
    ensures |r.threads| == |s.threads|
    ensures var before, after := s.threads[call.t].scopes, r.threads[call.t].scopes;
            r.threads[call.t].pc.Idle? ==>
              && Opens(before, call, after)
              && (call.TryScoped? && after == before ==> !call.luck || s.mutex.writer != {})
  {
    hide Enabled, Opens, Inv;
    ReachableInv(s);
    CallsAim(s, call);
    StepKeeps(s, call);
    ScopesAfter(Do(s, call), actions, r, call.t);
    RunKeeps(Do(s, call), actions, r);
  }

  lemma {:induction false} RunsOn(s: State, actions: seq<Action>, m: State, more: seq<Action>, r: State)
    requires Runs(s, actions, m) && Runs(m, more, r)
    ensures Runs(s, actions + more, r)
    decreases |actions|
  {
    hide Enabled, Do;
    if actions == [] {
      assert [] + more == more;
    } else {
      assert (actions + more)[1..] == actions[1..] + more;
      RunsOn(Do(s, actions[0]), actions[1..], m, more, r);
    }
  }

  lemma ReachesOn(s: State, actions: seq<Action>, r: State)
    requires Reachable(s) && Runs(s, actions, r)
    ensures Reachable(r)
  {
    hide Runs;
    var n: nat, before :| Runs(Start(n), before, s);
    RunsOn(Start(n), before, s, actions, r);
  }

  /** So the thread holds the mutex when a call that opens a scope has ended: exclusively after `lock`, exclusively or
      shared after `lock_shared`, as it has critical scopes or not; and after its last scope was closed nothing. */
  lemma WholeCallHolds(s: State, call: Action, actions: seq<Action>, r: State)
    requires Reachable(s) && Enabled(s, call) && !call.Go?
    requires Runs(Do(s, call), actions, r) && OnlyGoes(actions, call.t)
    requires call.t < |r.threads| && r.threads[call.t].pc.Idle?
    ensures call.OpenScoped? ==>
              if Critical in s.threads[call.t].scopes then HoldsExclusive(r.mutex, call.t)
              else HoldsShared(r.mutex, call.t)
    ensures call.TryScoped? && r.threads[call.t].scopes != s.threads[call.t].scopes ==>
              !HoldsNothing(r.mutex, call.t)
    ensures call.OpenCritical? ==> HoldsExclusive(r.mutex, call.t)
    ensures call.Close? && |s.threads[call.t].scopes| == 1 ==> HoldsNothing(r.mutex, call.t)
    ensures call.Close? && |s.threads[call.t].scopes| > 1 ==>
              if Critical in s.threads[call.t].scopes[..|s.threads[call.t].scopes| - 1]
              then HoldsExclusive(r.mutex, call.t) else HoldsShared(r.mutex, call.t)
  {
    hide Enabled, Do, Reachable;
    WholeCall(s, call, actions, r);
    assert Runs(s, [call] + actions, r) by { assert ([call] + actions)[1..] == actions; }
    ReachesOn(s, [call] + actions, r);
    BetweenCalls(r, call.t);
  }

  /** A thread that waits can go on exactly when no other holds what it waits for. */
  lemma WaitIsOverIff(s: State, t: nat)
    requires Reachable(s) && t < |s.threads| && Waits(s.threads[t].pc)
    ensures Enabled(s, Go(t)) <==>
              forall u :: 0 <= u < |s.threads| ==>
                if s.threads[t].pc.WaitExclusive? then HoldsNothing(s.mutex, u) else !HoldsExclusive(s.mutex, u)
  {
    ReachableInv(s);
    if s.mutex.readers != multiset{} { var u :| u in s.mutex.readers; assert !HoldsNothing(s.mutex, u); }
    if s.mutex.writer != {} { var u :| u in s.mutex.writer; assert HoldsExclusive(s.mutex, u); }
  }

  /** A thread that holds the lock exclusively keeps all others out. */
  lemma Exclusion(s: State, t: nat, u: nat)
    requires Reachable(s) && t != u && HoldsExclusive(s.mutex, t)
    ensures HoldsNothing(s.mutex, u) && !HoldsShared(s.mutex, t)
  {
    ReachableInv(s);
  }

  /** A thread blocked inside a call holds nothing. */
  lemma BlockedHoldsNothing(s: State, t: nat)
    requires Reachable(s) && t < |s.threads| && Waits(s.threads[t].pc)
    ensures HoldsNothing(s.mutex, t)
  {
    ReachableInv(s);
    assert Counted(s.threads[t]) && Holds(s.threads[t], s.mutex, t);
  }

  /** The underlying mutex is never locked by a thread that holds it, nor released by one that does not hold it so. */
  lemma NeverMisused(s: State, t: nat)
    requires Reachable(s) && t < |s.threads|
    ensures match s.threads[t].pc
            case Idle => s.threads[t].shared == 0 && s.threads[t].exclusive == 0 ==> HoldsNothing(s.mutex, t)
            case WaitShared => HoldsNothing(s.mutex, t)
            case WaitSharedAgain => HoldsNothing(s.mutex, t)
            case WaitExclusive => HoldsNothing(s.mutex, t)
            case ReleaseExclusive => HoldsExclusive(s.mutex, t)
            case _ => s.mutex.readers[t] == 1
    ensures s.threads[t].shared >= 0 && s.threads[t].exclusive >= 0
  {
    ReachableInv(s);
    assert Counted(s.threads[t]) && Holds(s.threads[t], s.mutex, t);
  }

  predicate AllClosed(s: State) { forall th :: th in s.threads ==> th.pc.Idle? && th.scopes == [] }

  /** Once all scopes are closed the counters are zero and the mutex is free. */
  lemma AllClosedIsFree(s: State)
    requires Reachable(s) && AllClosed(s)
    ensures CanLock(s.mutex) && forall th :: th in s.threads ==> th == Thread([], 0, 0, Idle)
  {
    ReachableInv(s);
    forall t | 0 <= t < |s.threads| ensures s.threads[t] == Thread([], 0, 0, Idle) && HoldsNothing(s.mutex, t) {
      assert s.threads[t] in s.threads;
      assert Counted(s.threads[t]) && Holds(s.threads[t], s.mutex, t);
    }
    forall t: nat ensures t !in s.mutex.writer && t !in s.mutex.readers {
      if t < |s.threads| { assert s.threads[t] == Thread([], 0, 0, Idle) && HoldsNothing(s.mutex, t); }
    }
    assert s.mutex.readers == multiset{};
  }

  // ---------------------------------------------------------------------------
  // No deadlock
  // ---------------------------------------------------------------------------

  /** Steps a thread still has to take until all its scopes are closed, if it opens no more. */
  function ToGo(th: Thread): int {
    4 * |th.scopes| +
    match th.pc
    case Idle => 0
    case WaitShared => 5
    case ReleaseShared => -1
    case UpgradeRelease => 6
    case WaitExclusive => 5
    case ReleaseExclusive => -1
    case WaitSharedAgain => -2
  }

  function TotalToGo(threads: seq<Thread>): int {
    if threads == [] then 0 else TotalToGo(threads[..|threads| - 1]) + ToGo(threads[|threads| - 1])
  }

  lemma {:induction false} TotalUpdate(threads: seq<Thread>, t: nat, th: Thread)
    requires t < |threads|
    ensures TotalToGo(threads[t := th]) == TotalToGo(threads) - ToGo(threads[t]) + ToGo(th)
  {
    var k := |threads| - 1;
    if t == k {
      assert threads[t := th][..k] == threads[..k];
    } else {
      assert threads[t := th][..k] == threads[..k][t := th];
      TotalUpdate(threads[..k], t, th);
    }
  }

  lemma {:induction false} TotalNotNegative(s: State, n: nat)
    requires Inv(s) && n <= |s.threads|
    ensures TotalToGo(s.threads[..n]) >= 0
  {
    hide MutexSound, Holds;
    if n > 0 {
      TotalNotNegative(s, n - 1);
      assert s.threads[..n][..n - 1] == s.threads[..n - 1];
      assert Counted(s.threads[n - 1]);
    }
  }

  /** A step of closing a scope or of going on with a call. */
  predicate Closes(a: Action) { a.Close? || a.Go? }

  /** The next step of a thread on its way to having no scopes. */
  function Onward(th: Thread, t: nat): Action { if th.pc.Idle? then Close(t) else Go(t) }

  lemma OnwardDecreases(s: State, t: nat)
    requires Inv(s) && t < |s.threads| && Enabled(s, Onward(s.threads[t], t))
    ensures ToGo(Do(s, Onward(s.threads[t], t)).threads[t]) < ToGo(s.threads[t])
  {
    hide MutexSound, Holds;
    assert Counted(s.threads[t]);
  }

  /** Someone can go on: a holder is not blocked, and without holders nobody is. */
  lemma SomeoneGoesOn(s: State) returns (t: nat)
    requires Inv(s) && !AllClosed(s)
    ensures t < |s.threads| && Enabled(s, Onward(s.threads[t], t))
  {
    if w :| w in s.mutex.writer {
      t := w;
      NoCriticals(s.threads[t].scopes);
      assert Counted(s.threads[t]) && Holds(s.threads[t], s.mutex, t);
    } else if r :| r in s.mutex.readers {
      t := r;
      NoCriticals(s.threads[t].scopes);
      assert Counted(s.threads[t]) && Holds(s.threads[t], s.mutex, t);
    } else {
      t :| 0 <= t < |s.threads| && !(s.threads[t].pc.Idle? && s.threads[t].scopes == []);
      NoCriticals(s.threads[t].scopes);
      assert Counted(s.threads[t]) && Holds(s.threads[t], s.mutex, t);
      assert s.mutex.readers == multiset{};
    }
  }

  lemma {:induction false} CloseAll(s: State) returns (actions: seq<Action>, r: State)
    requires Inv(s)
    ensures Runs(s, actions, r) && AllClosed(r) && Inv(r)
    ensures forall a :: a in actions ==> Closes(a)
    decreases var total := TotalToGo(s.threads); if total < 0 then 0 else total, !AllClosed(s)
  {
    hide Inv, Enabled, AllClosed;
    if AllClosed(s) { return [], s; }
    var t := SomeoneGoesOn(s);
    var a := Onward(s.threads[t], t);
    var next := Do(s, a);
    StepKeeps(s, a);
    OnwardDecreases(s, t);
    TotalUpdate(s.threads, t, next.threads[t]);
    TotalNotNegative(next, |next.threads|);
    assert next.threads[..|next.threads|] == next.threads;
    var more: seq<Action>;
    more, r := CloseAll(next);
    actions := [a] + more;
  }

  /** Wherever the threads are, simultaneous upgrades included, they can all finish without anyone opening a scope. */
  lemma NoDeadlock(s: State)
    requires Reachable(s)
    ensures exists actions: seq<Action>, r ::
              Runs(s, actions, r) && AllClosed(r) && forall a :: a in actions ==> Closes(a)
  {
    ReachableInv(s);
    var actions, r := CloseAll(s);
  }

  lemma ClosingDecreases(s: State, a: Action)
    requires Inv(s) && Enabled(s, a) && Closes(a)
    ensures TotalToGo(Do(s, a).threads) < TotalToGo(s.threads)
  {
    hide Inv;
    assert a == Onward(s.threads[a.t], a.t);
    OnwardDecreases(s, a.t);
    TotalUpdate(s.threads, a.t, Do(s, a).threads[a.t]);
  }

  /** Every run in which nobody opens a scope is at most as long as the measure, and one that cannot go on has closed
      all the scopes. */
  lemma ClosingRunsEnd(s: State, actions: seq<Action>, r: State)
    requires Reachable(s) && Runs(s, actions, r) && forall a :: a in actions ==> Closes(a)
    ensures |actions| <= TotalToGo(s.threads)
    ensures AllClosed(r) <==> forall a :: Closes(a) ==> !Enabled(r, a)
  {
    hide Inv, Enabled;
    ReachableInv(s);
    ClosingRunBound(s, actions, r);
    RunKeeps(s, actions, r);
    StopsWhenClosed(r);
  }

  lemma {:induction false} ClosingRunBound(s: State, actions: seq<Action>, r: State)
    requires Inv(s) && Runs(s, actions, r) && forall a :: a in actions ==> Closes(a)
    ensures |actions| <= TotalToGo(s.threads)
    decreases |actions|
  {
    hide Inv, Enabled;
    if actions == [] {
      TotalNotNegative(s, |s.threads|);
      assert s.threads[..|s.threads|] == s.threads;
    } else {
      var a := actions[0];
      assert a in actions;
      StepKeeps(s, a);
      ClosingDecreases(s, a);
      ClosingRunBound(Do(s, a), actions[1..], r);
    }
  }

  lemma StopsWhenClosed(s: State)
    requires Inv(s)
    ensures AllClosed(s) <==> forall a :: Closes(a) ==> !Enabled(s, a)
  {
    hide Inv;
    if AllClosed(s) {
      forall a | Closes(a) ensures !Enabled(s, a) {
        if a.t < |s.threads| { assert s.threads[a.t] in s.threads; }
      }
    } else {
      var t := SomeoneGoesOn(s);
      assert Closes(Onward(s.threads[t], t));
    }
  }
}
