/** The worker pool: any number of workers and of threads that call `enqueue`, and one that calls `shutdown`. Each
    operation on the mutex and the condition variable, and each statement between, is a step of its own. */
module ThreadPool {
  import opened Bytes

  datatype Worker =
    | WantLock             // about to lock the mutex: at the top of the loop, or woken
    | Testing              // holds the mutex: evaluates the predicate
    | Sleeping             // in the wait, without the mutex
    | Taking(job: nat)     // holds the mutex: fn = jobs_.front() done, pop_front() to do
    | Taken(job: nat)      // holds the mutex: about to unlock it
    | Running(job: nat)    // in fn()
    | Leaving              // holds the mutex: break
    | Exited

  datatype Producer =
    | Outside
    | WantsLock
    | Checks               // holds the mutex
    | Pushes               // holds the mutex: there is room
    | Unlocks(taken: bool) // holds the mutex
    | Notifies

  datatype Closer =
    | Before
    | LocksToClose
    | SetsFlag             // holds the mutex
    | UnlocksFlag          // holds the mutex
    | NotifiesAll
    | Joins(next: nat)
    | Joined

  datatype Actor = TheWorker(w: nat) | TheProducer(p: nat) | TheCloser

  /** Jobs are numbered in the order they are pushed. `taken` is how many have been popped, `finished` those that have
      run; `closedAt` is how many had been pushed when the flag was set. */
  datatype State = State(
    workers: seq<Worker>,
    producers: seq<Producer>,
    closer: Closer,
    mutex: Option<Actor>,
    jobs: seq<nat>,
    shutdown: bool,
    maxQueued: nat,
    pushed: nat,
    taken: nat,
    finished: set<nat>,
    closedAt: Option<nat>)

  datatype Action =
    | Enqueue(p: nat)             // a call begins
    | Shutdown                    // the call begins
    | Work(w: nat)                // a worker's next step
    | Wake(w: nat)                // a spurious wake-up
    | Produce(p: nat, woken: nat) // the next step of enqueue; `woken` is the thread notify_one picks
    | Close                       // the next step of shutdown

  // ---------------------------------------------------------------------------
  // The steps
  // ---------------------------------------------------------------------------

  predicate Asleep(s: State, w: nat) { w < |s.workers| && s.workers[w].Sleeping? }

  predicate NoneAsleep(s: State) { forall w :: w in s.workers ==> !w.Sleeping? }

  predicate Enabled(s: State, a: Action) {
    match a
    case Enqueue(p) => p < |s.producers| && s.producers[p].Outside?
    case Shutdown => s.closer.Before?
    case Work(w) =>
      w < |s.workers|
      && (s.workers[w].WantLock? ==> s.mutex.None?) && !s.workers[w].Sleeping? && !s.workers[w].Exited?
    case Wake(w) => Asleep(s, w)
    case Produce(p, woken) =>
      p < |s.producers| && !s.producers[p].Outside?
      && (s.producers[p].WantsLock? ==> s.mutex.None?)
      && (s.producers[p].Notifies? ==> NoneAsleep(s) || Asleep(s, woken))
    case Close =>
      !s.closer.Before? && !s.closer.Joined?
      && (s.closer.LocksToClose? ==> s.mutex.None?)
      && (s.closer.Joins? && s.closer.next < |s.workers| ==> s.workers[s.closer.next].Exited?)
  }

  function SetWorker(s: State, w: nat, v: Worker): State
    requires w < |s.workers|
  {
    s.(workers := s.workers[w := v])
  }

  function SetProducer(s: State, p: nat, v: Producer): State
    requires p < |s.producers|
  {
    s.(producers := s.producers[p := v])
  }

  function DoWork(s: State, w: nat): State
    requires w < |s.workers|
  {
    match s.workers[w]
    case WantLock => SetWorker(s, w, Testing).(mutex := Some(TheWorker(w)))
    case Testing =>
      if s.jobs == [] && !s.shutdown then SetWorker(s, w, Sleeping).(mutex := None)
      else if s.shutdown && s.jobs == [] then SetWorker(s, w, Leaving)
      else SetWorker(s, w, Taking(s.jobs[0]))
    case Taking(j) => SetWorker(s, w, Taken(j)).(jobs := if s.jobs == [] then [] else s.jobs[1..], taken := s.taken + 1)
    case Taken(j) => SetWorker(s, w, Running(j)).(mutex := None)
    case Running(j) => SetWorker(s, w, WantLock).(finished := s.finished + {j})
    case Leaving => SetWorker(s, w, Exited).(mutex := None)
    case _ => s
  }

  function DoProduce(s: State, p: nat, woken: nat): State
    requires p < |s.producers|
  {
    match s.producers[p]
    case WantsLock => SetProducer(s, p, Checks).(mutex := Some(TheProducer(p)))
    case Checks => SetProducer(s, p, if s.maxQueued > 0 && |s.jobs| >= s.maxQueued then Unlocks(false) else Pushes)
    case Pushes => SetProducer(s, p, Unlocks(true)).(jobs := s.jobs + [s.pushed], pushed := s.pushed + 1)
    case Unlocks(taken) => SetProducer(s, p, if taken then Notifies else Outside).(mutex := None)
    case Notifies =>
      var r := SetProducer(s, p, Outside);
      if Asleep(s, woken) then SetWorker(r, woken, WantLock) else r
    case Outside => s
  }

  function Woken(w: Worker): Worker { if w.Sleeping? then WantLock else w }

  function WakeAll(workers: seq<Worker>): (r: seq<Worker>)
    ensures |r| == |workers| && forall w :: 0 <= w < |r| ==> r[w] == Woken(workers[w])
  {
    seq(|workers|, w requires 0 <= w < |workers| => Woken(workers[w]))
  }

  function DoClose(s: State): State {
    match s.closer
    case LocksToClose => s.(closer := SetsFlag, mutex := Some(TheCloser))
    case SetsFlag => s.(closer := UnlocksFlag, shutdown := true, closedAt := Some(s.pushed))
    case UnlocksFlag => s.(closer := NotifiesAll, mutex := None)
    case NotifiesAll => s.(closer := Joins(0), workers := WakeAll(s.workers))
    case Joins(next) => if next < |s.workers| then s.(closer := Joins(next + 1)) else s.(closer := Joined)
    case _ => s
  }

  function Do(s: State, a: Action): State
    requires Enabled(s, a)
  {
    match a
    case Enqueue(p) => SetProducer(s, p, WantsLock)
    case Shutdown => s.(closer := LocksToClose)
    case Work(w) => DoWork(s, w)
    case Wake(w) => SetWorker(s, w, WantLock)
    case Produce(p, woken) => DoProduce(s, p, woken)
    case Close => DoClose(s)
  }

  function Start(workers: nat, producers: nat, maxQueued: nat): State {
    State(seq(workers, _ => WantLock), seq(producers, _ => Outside), Before, None, [], false, maxQueued, 0, 0, {}, None)
  }

  // ---------------------------------------------------------------------------
  // The invariant
  // ---------------------------------------------------------------------------

  predicate WorkerLocks(w: Worker) { w.Testing? || w.Taking? || w.Taken? || w.Leaving? }

  predicate ProducerLocks(p: Producer) { p.Checks? || p.Pushes? || p.Unlocks? }

  predicate CloserLocks(c: Closer) { c.SetsFlag? || c.UnlocksFlag? }

  /** One owner of the mutex, and it is inside its critical section. */
  predicate MutexInv(s: State) {
    && (forall w :: 0 <= w < |s.workers| ==> (WorkerLocks(s.workers[w]) <==> s.mutex == Some(TheWorker(w))))
    && (forall p :: 0 <= p < |s.producers| ==> (ProducerLocks(s.producers[p]) <==> s.mutex == Some(TheProducer(p))))
    && (CloserLocks(s.closer) <==> s.mutex == Some(TheCloser))
    && (s.mutex.Some? && s.mutex.value.TheWorker? ==> s.mutex.value.w < |s.workers|)
    && (s.mutex.Some? && s.mutex.value.TheProducer? ==> s.mutex.value.p < |s.producers|)
  }

  predicate Carrying(w: Worker) { w.Taken? || w.Running? }

  predicate Carries(w: Worker, j: nat) { Carrying(w) && w.job == j }

  /** The queue holds the jobs pushed and not popped, in order; the popped ones are with one worker each, or
      finished. */
  predicate JobsInv(s: State) {
    && s.pushed == s.taken + |s.jobs|
    && (forall k :: 0 <= k < |s.jobs| ==> s.jobs[k] == s.taken + k)
    && (s.maxQueued > 0 ==> |s.jobs| <= s.maxQueued)
    && (forall p :: p in s.producers && p.Pushes? && s.maxQueued > 0 ==> |s.jobs| < s.maxQueued)
    && (forall w :: w in s.workers && w.Taking? ==> s.jobs != [] && w.job == s.jobs[0])
    && (forall w :: w in s.workers && w.Leaving? ==> s.jobs == [])
    && CarriedInv(s.workers, s.taken, s.finished)
  }

  predicate CarriedInv(workers: seq<Worker>, taken: nat, finished: set<nat>) {
    && (forall w :: 0 <= w < |workers| && Carrying(workers[w]) ==>
          workers[w].job < taken && workers[w].job !in finished)
    && (forall w, v :: 0 <= w < v < |workers| && Carrying(workers[w]) ==>
          !Carries(workers[v], workers[w].job))
    && (forall j :: j in finished ==> j < taken)
    && (forall j :: 0 <= j < taken && j !in finished ==> exists w :: 0 <= w < |workers| && Carries(workers[w], j))
  }

  predicate Flagged(c: Closer) { c.UnlocksFlag? || c.NotifiesAll? || c.Joins? || c.Joined? }

  predicate Notified(c: Closer) { c.Joins? || c.Joined? }

  /** Nobody leaves before the flag, nor before every job pushed before it is popped; nobody sleeps after the notice. */
  predicate CloseInv(s: State) {
    && (s.shutdown <==> Flagged(s.closer)) && (s.closedAt.Some? <==> s.shutdown)
    && (s.closedAt.Some? ==> s.closedAt.value <= s.pushed)
    && (forall w :: w in s.workers && (w.Leaving? || w.Exited?) ==> s.shutdown && s.closedAt.value <= s.taken)
    && (Notified(s.closer) ==> NoneAsleep(s))
    && (s.closer.Joins? ==> s.closer.next <= |s.workers|)
    && (forall w :: 0 <= w < |s.workers| && (s.closer.Joined? || (s.closer.Joins? && w < s.closer.next)) ==>
          s.workers[w].Exited?)
  }

  predicate Awake(w: Worker) { !w.Sleeping? && !w.Exited? }

  predicate WillNotify(p: Producer) { p.Notifies? || p == Unlocks(true) }

  /** No wake-up is lost: with a job queued and a worker left, one is awake or about to be notified. */
  predicate WakeInv(s: State) {
    s.jobs != [] && (exists w :: w in s.workers && !w.Exited?) ==>
      (exists w :: w in s.workers && Awake(w)) || exists p :: p in s.producers && WillNotify(p)
  }

  predicate Inv(s: State) { MutexInv(s) && JobsInv(s) && CloseInv(s) && WakeInv(s) }

  // ---------------------------------------------------------------------------
  // Every step keeps it
  // ---------------------------------------------------------------------------

  lemma MutexKeeps(s: State, a: Action)
    requires MutexInv(s) && Enabled(s, a)
    ensures MutexInv(Do(s, a))
  {
    if a.Work? {
      WorkKeepsMutex(s, a.w);
    } else if a.Produce? {
      ProduceKeepsMutex(s, a.p, a.woken);
    } else if a.Close? {
      CloseKeepsMutex(s);
    }
  }

  lemma WorkKeepsMutex(s: State, w: nat)
    requires MutexInv(s) && Enabled(s, Work(w))
    ensures MutexInv(DoWork(s, w))
  {
  }

  lemma ProduceKeepsMutex(s: State, p: nat, woken: nat)
    requires MutexInv(s) && Enabled(s, Produce(p, woken))
    ensures MutexInv(DoProduce(s, p, woken))
  {
  }

  lemma CloseKeepsMutex(s: State)
    requires MutexInv(s) && Enabled(s, Close)
    ensures MutexInv(DoClose(s))
  {
  }

  /** One worker's job changes hands: taken from the queue, or finished. */
  lemma CarriedMoves(workers: seq<Worker>, taken: nat, finished: set<nat>, w: nat, v: Worker)
    requires CarriedInv(workers, taken, finished) && w < |workers|
    ensures !Carrying(workers[w]) && !Carrying(v) ==> CarriedInv(workers[w := v], taken, finished)
    ensures !Carrying(workers[w]) && Carrying(v) && v.job == taken ==> CarriedInv(workers[w := v], taken + 1, finished)
    ensures Carrying(workers[w]) && Carrying(v) && v.job == workers[w].job ==>
              CarriedInv(workers[w := v], taken, finished)
    ensures Carrying(workers[w]) && !Carrying(v) ==>
              CarriedInv(workers[w := v], taken, finished + {workers[w].job})
  {
    var next := workers[w := v];
    forall j | 0 <= j < taken && j !in finished
      ensures (exists k :: 0 <= k < |next| && Carries(next[k], j))
              || (Carrying(workers[w]) && workers[w].job == j && !(Carrying(v) && v.job == j))
    {
      var k :| 0 <= k < |workers| && Carries(workers[k], j);
      if k != w || (Carrying(v) && v.job == j) { assert Carries(next[k], j); }
    }
    if Carrying(v) { assert Carries(next[w], v.job); }
  }

  lemma CarriedKeeps(s: State, w: nat)
    requires MutexInv(s) && JobsInv(s) && Enabled(s, Work(w))
    ensures var r := DoWork(s, w); CarriedInv(r.workers, r.taken, r.finished)
  {
    hide CarriedInv, MutexInv;
    var r := DoWork(s, w);
    assert s.workers[w] in s.workers;
    CarriedMoves(s.workers, s.taken, s.finished, w, r.workers[w]);
  }

  lemma WorkKeepsJobs(s: State, w: nat)
    requires MutexInv(s) && JobsInv(s) && Enabled(s, Work(w))
    ensures JobsInv(DoWork(s, w))
  {
    hide CarriedInv;
    CarriedKeeps(s, w);
    var r := DoWork(s, w);
    assert s.workers[w] in s.workers;
    forall v | 0 <= v < |r.workers|
      ensures r.workers[v].Taking? ==> r.jobs != [] && r.workers[v].job == r.jobs[0]
      ensures r.workers[v].Leaving? ==> r.jobs == []
    {
      assert s.workers[v] in s.workers;
    }
  }

  lemma SameCarried(a: seq<Worker>, b: seq<Worker>, taken: nat, finished: set<nat>)
    requires |a| == |b| && forall w :: 0 <= w < |a| ==> b[w] == a[w] || (a[w].Sleeping? && b[w].WantLock?)
    requires CarriedInv(a, taken, finished)
    ensures CarriedInv(b, taken, finished)
  {
    forall j | 0 <= j < taken && j !in finished ensures exists w :: 0 <= w < |b| && Carries(b[w], j) {
      var w :| 0 <= w < |a| && Carries(a[w], j);
      assert Carries(b[w], j);
    }
  }

  /** A push needs the mutex, so no worker is between its look at the queue and its unlocking. */
  lemma NoWorkerLocks(s: State, p: nat, w: nat)
    requires MutexInv(s) && p < |s.producers| && ProducerLocks(s.producers[p]) && w < |s.workers|
    ensures !WorkerLocks(s.workers[w])
  {
  }

  lemma PushKeepsJobs(s: State, p: nat)
    requires MutexInv(s) && JobsInv(s) && Enabled(s, Produce(p, 0)) && s.producers[p].Pushes?
    ensures JobsInv(DoProduce(s, p, 0))
  {
    hide CarriedInv, MutexInv;
    var r := DoProduce(s, p, 0);
    assert s.producers[p] in s.producers;
    forall w | 0 <= w < |r.workers| ensures !r.workers[w].Taking? && !r.workers[w].Leaving? {
      NoWorkerLocks(s, p, w);
    }
    forall q | 0 <= q < |r.producers| ensures !r.producers[q].Pushes? {
      if q != p { OnlyPusher(s, p, q); }
    }
  }

  lemma OnlyPusher(s: State, p: nat, q: nat)
    requires MutexInv(s) && p < |s.producers| && q < |s.producers| && p != q && ProducerLocks(s.producers[p])
    ensures !ProducerLocks(s.producers[q])
  {
  }

  lemma ProduceKeepsJobs(s: State, p: nat, woken: nat)
    requires MutexInv(s) && JobsInv(s) && Enabled(s, Produce(p, woken))
    ensures JobsInv(DoProduce(s, p, woken))
  {
    hide CarriedInv, MutexInv;
    if s.producers[p].Pushes? {
      PushKeepsJobs(s, p);
    } else {
      var r := DoProduce(s, p, woken);
      SameCarried(s.workers, r.workers, s.taken, s.finished);
      forall w | 0 <= w < |r.workers|
        ensures r.workers[w].Taking? ==> r.jobs != [] && r.workers[w].job == r.jobs[0]
        ensures r.workers[w].Leaving? ==> r.jobs == []
      {
        assert s.workers[w] in s.workers;
      }
      forall q | 0 <= q < |r.producers| ensures r.producers[q].Pushes? && r.maxQueued > 0 ==> |r.jobs| < r.maxQueued {
        assert s.producers[q] in s.producers;
      }
    }
  }

  lemma OtherKeepsJobs(s: State, a: Action)
    requires MutexInv(s) && JobsInv(s) && Enabled(s, a) && !a.Work? && !a.Produce?
    ensures JobsInv(Do(s, a))
  {
    hide CarriedInv, MutexInv;
    var r := Do(s, a);
    SameCarried(s.workers, r.workers, s.taken, s.finished);
    forall w | 0 <= w < |r.workers|
      ensures r.workers[w].Taking? ==> r.jobs != [] && r.workers[w].job == r.jobs[0]
      ensures r.workers[w].Leaving? ==> r.jobs == []
    {
      assert s.workers[w] in s.workers;
    }
    forall p | 0 <= p < |r.producers| ensures r.producers[p].Pushes? && r.maxQueued > 0 ==> |r.jobs| < r.maxQueued {
      assert s.producers[p] in s.producers;
    }
  }

  lemma JobsKeeps(s: State, a: Action)
    requires MutexInv(s) && JobsInv(s) && Enabled(s, a)
    ensures JobsInv(Do(s, a))
  {
    hide MutexInv, JobsInv;
    if a.Work? {
      WorkKeepsJobs(s, a.w);
    } else if a.Produce? {
      ProduceKeepsJobs(s, a.p, a.woken);
    } else {
      OtherKeepsJobs(s, a);
    }
  }

  lemma OneWorkerKeepsClose(s: State, r: State, w: nat, v: Worker)
    requires CloseInv(s) && w < |s.workers| && r.workers == s.workers[w := v] && !s.workers[w].Exited?
    requires r.closer == s.closer && r.shutdown == s.shutdown && r.closedAt == s.closedAt && r.pushed == s.pushed
    requires r.taken >= s.taken
    requires v.Leaving? || v.Exited? ==> s.shutdown && s.closedAt.Some? && s.closedAt.value <= r.taken
    requires v.Sleeping? ==> !s.shutdown
    ensures CloseInv(r)
  {
    forall u | 0 <= u < |r.workers|
      ensures r.workers[u].Leaving? || r.workers[u].Exited? ==> r.shutdown && r.closedAt.value <= r.taken
      ensures Notified(r.closer) ==> !r.workers[u].Sleeping?
    {
      assert s.workers[u] in s.workers;
    }
  }

  lemma CloseFacts(s: State, w: nat)
    requires CloseInv(s) && w < |s.workers|
    ensures s.shutdown ==> s.closedAt.Some? && s.closedAt.value <= s.pushed
    ensures s.workers[w].Leaving? ==> s.shutdown && s.closedAt.value <= s.taken
  {
    assert s.workers[w] in s.workers;
  }

  lemma WorkKeepsClose(s: State, w: nat)
    requires JobsInv(s) && CloseInv(s) && Enabled(s, Work(w))
    ensures CloseInv(DoWork(s, w))
  {
    hide CarriedInv, CloseInv;
    var r := DoWork(s, w);
    CloseFacts(s, w);
    OneWorkerKeepsClose(s, r, w, r.workers[w]);
  }

  /** The steps other than those of workers and of `shutdown` itself only wake workers and push jobs. */
  lemma QuietKeepsClose(s: State, r: State)
    requires CloseInv(s) && r.closer == s.closer && r.shutdown == s.shutdown && r.closedAt == s.closedAt
    requires r.taken == s.taken && r.pushed >= s.pushed && |r.workers| == |s.workers|
    requires forall w :: 0 <= w < |s.workers| ==>
               r.workers[w] == s.workers[w] || (s.workers[w].Sleeping? && r.workers[w].WantLock?)
    ensures CloseInv(r)
  {
    forall v | 0 <= v < |r.workers|
      ensures r.workers[v].Leaving? || r.workers[v].Exited? ==> r.shutdown && r.closedAt.value <= r.taken
      ensures Notified(r.closer) ==> !r.workers[v].Sleeping?
    {
      assert s.workers[v] in s.workers;
    }
  }

  lemma BeginKeepsClose(s: State)
    requires CloseInv(s) && s.closer.Before?
    ensures CloseInv(s.(closer := LocksToClose))
  {
  }

  lemma CloseKeepsClose(s: State)
    requires CloseInv(s) && Enabled(s, Close)
    ensures CloseInv(DoClose(s))
  {
    var r := DoClose(s);
    forall v | 0 <= v < |r.workers|
      ensures r.workers[v].Leaving? || r.workers[v].Exited? ==> r.shutdown && r.closedAt.value <= r.taken
      ensures Notified(r.closer) ==> !r.workers[v].Sleeping?
    {
      assert s.workers[v] in s.workers;
    }
  }

  lemma CloseKeeps(s: State, a: Action)
    requires JobsInv(s) && CloseInv(s) && Enabled(s, a)
    ensures CloseInv(Do(s, a))
  {
    hide JobsInv, CloseInv;
    if a.Work? {
      WorkKeepsClose(s, a.w);
    } else if a.Close? {
      CloseKeepsClose(s);
    } else if a.Shutdown? {
      BeginKeepsClose(s);
    } else {
      QuietKeepsClose(s, Do(s, a));
    }
  }

  lemma WorkKeepsWake(s: State, w: nat)
    requires JobsInv(s) && Enabled(s, Work(w))
    ensures WakeInv(DoWork(s, w))
  {
    hide CarriedInv;
    var r := DoWork(s, w);
    assert s.workers[w] in s.workers && r.workers[w] in r.workers;
  }

  lemma ProduceKeepsWake(s: State, p: nat, woken: nat)
    requires WakeInv(s) && Enabled(s, Produce(p, woken))
    ensures WakeInv(DoProduce(s, p, woken))
  {
    var r := DoProduce(s, p, woken);
    assert r.producers[p] in r.producers;
    if s.producers[p].Notifies? {
      if Asleep(s, woken) { assert r.workers[woken] in r.workers; }
    } else if !WillNotify(r.producers[p]) {
      OthersStillNotify(s, p, r.producers[p]);
    }
  }

  lemma OthersStillNotify(s: State, p: nat, v: Producer)
    requires p < |s.producers| && !WillNotify(s.producers[p])
    ensures (exists q :: q in s.producers && WillNotify(q)) ==> exists q :: q in s.producers[p := v] && WillNotify(q)
  {
    if q :| q in s.producers && WillNotify(q) {
      var k :| 0 <= k < |s.producers| && s.producers[k] == q;
      assert s.producers[p := v][k] == q;
    }
  }

  lemma OtherKeepsWake(s: State, a: Action)
    requires WakeInv(s) && Enabled(s, a) && !a.Work? && !a.Produce?
    ensures WakeInv(Do(s, a))
  {
    var r := Do(s, a);
    match a {
      case Enqueue(p) => OthersStillNotify(s, p, WantsLock);
      case Wake(w) => assert r.workers[w] in r.workers;
      case Shutdown =>
      case Close =>
    }
  }

  lemma WakeKeeps(s: State, a: Action)
    requires JobsInv(s) && WakeInv(s) && Enabled(s, a)
    ensures WakeInv(Do(s, a))
  {
    hide JobsInv, WakeInv;
    if a.Work? {
      WorkKeepsWake(s, a.w);
    } else if a.Produce? {
      ProduceKeepsWake(s, a.p, a.woken);
    } else {
      OtherKeepsWake(s, a);
    }
  }

  lemma StepKeeps(s: State, a: Action)
    requires Inv(s) && Enabled(s, a)
    ensures Inv(Do(s, a))
  {
    hide MutexInv, JobsInv, CloseInv, WakeInv, Enabled;
    MutexKeeps(s, a);
    JobsKeeps(s, a);
    CloseKeeps(s, a);
    WakeKeeps(s, a);
  }

  // ---------------------------------------------------------------------------
  // Every run
  // ---------------------------------------------------------------------------

  predicate Runs(s: State, actions: seq<Action>, r: State)
    decreases |actions|
  {
    if actions == [] then s == r else Enabled(s, actions[0]) && Runs(Do(s, actions[0]), actions[1..], r)
  }

  ghost predicate Reachable(s: State) {
    exists workers: nat, producers: nat, maxQueued: nat, actions ::
      Runs(Start(workers, producers, maxQueued), actions, s)
  }

  lemma StartKeeps(workers: nat, producers: nat, maxQueued: nat)
    ensures Inv(Start(workers, producers, maxQueued))
  {
  }

  lemma {:induction false} RunKeeps(s: State, actions: seq<Action>, r: State)
    requires Inv(s) && Runs(s, actions, r)
    ensures Inv(r)
    decreases |actions|
  {
    hide Inv, Enabled;
    if actions != [] {
      StepKeeps(s, actions[0]);
      RunKeeps(Do(s, actions[0]), actions[1..], r);
    }
  }

  lemma ReachableInv(s: State)
    requires Reachable(s)
    ensures Inv(s)
  {
    hide Inv;
    var workers: nat, producers: nat, maxQueued: nat, actions :|
      Runs(Start(workers, producers, maxQueued), actions, s);
    StartKeeps(workers, producers, maxQueued);
    RunKeeps(Start(workers, producers, maxQueued), actions, s);
  }

  function FirstJobs(n: nat): (r: set<nat>)
    ensures forall j :: j in r <==> 0 <= j < n
  {
    if n == 0 then {} else FirstJobs(n - 1) + {n - 1}
  }

  /** The jobs in the workers' hands. */
  function InHand(s: State): set<nat> {
    set w | w in s.workers && Carrying(w) :: w.job
  }

  /** The queue never exceeds its bound; what was pushed is exactly, and in the order of pushing, what is finished or in
      hand (the first `taken`), and what is queued; no job is in two places. */
  lemma JobsAreConserved(s: State)
    requires Reachable(s)
    ensures s.maxQueued > 0 ==> |s.jobs| <= s.maxQueued
    ensures s.finished + InHand(s) == FirstJobs(s.taken)
    ensures s.finished !! InHand(s)
    ensures |s.jobs| == s.pushed - s.taken && forall k :: 0 <= k < |s.jobs| ==> s.jobs[k] == s.taken + k
    ensures forall w, v :: 0 <= w < v < |s.workers| && Carrying(s.workers[w]) && Carrying(s.workers[v]) ==>
              s.workers[w].job != s.workers[v].job
  {
    hide MutexInv, CloseInv, WakeInv;
    ReachableInv(s);
    forall j | 0 <= j < s.taken ensures j in s.finished + InHand(s) {
      if j !in s.finished {
        var w :| 0 <= w < |s.workers| && Carries(s.workers[w], j);
        assert s.workers[w] in s.workers;
      }
    }
    forall j | j in InHand(s) ensures 0 <= j < s.taken && j !in s.finished {
      var w :| 0 <= w < |s.workers| && Carrying(s.workers[w]) && s.workers[w].job == j;
    }
  }

  lemma OthersKeepHands(s: State, a: Action)
    requires Enabled(s, a) && !a.Work?
    ensures var r := Do(s, a); r.finished == s.finished && r.taken == s.taken && InHand(r) == InHand(s)
  {
    var r := Do(s, a);
    assert |r.workers| == |s.workers|;
    assert forall w :: 0 <= w < |s.workers| ==> Carrying(r.workers[w]) == Carrying(s.workers[w])
                                                && (Carrying(s.workers[w]) ==> r.workers[w] == s.workers[w]);
    SameHands(s, r);
    SameHands(r, s);
  }

  lemma SameHands(s: State, r: State)
    requires |r.workers| == |s.workers|
    requires forall w :: 0 <= w < |s.workers| && Carrying(s.workers[w]) ==> r.workers[w] == s.workers[w]
    ensures InHand(s) <= InHand(r)
  {
    forall j | j in InHand(s) ensures j in InHand(r) {
      var w :| 0 <= w < |s.workers| && Carrying(s.workers[w]) && s.workers[w].job == j;
      assert r.workers[w] in r.workers;
    }
  }

  lemma WorkerChangesHands(s: State, w: nat)
    requires JobsInv(s) && Enabled(s, Work(w))
    ensures var r := DoWork(s, w);
            && s.finished <= r.finished && s.taken <= r.taken <= s.taken + 1
            && (forall j :: j in InHand(r) && j !in InHand(s) ==> j == s.taken == r.taken - 1)
            && (forall j :: j in InHand(s) && j !in InHand(r) ==> j in r.finished)
  {
    hide CarriedInv;
    var r := DoWork(s, w);
    assert s.workers[w] in s.workers && r.workers[w] in r.workers;
    forall j | j in InHand(r) && j !in InHand(s) ensures j == s.taken == r.taken - 1 {
      var v :| 0 <= v < |r.workers| && Carrying(r.workers[v]) && r.workers[v].job == j;
      assert s.workers[v] in s.workers;
    }
    forall j | j in InHand(s) && j !in InHand(r) ensures j in r.finished {
      var v :| 0 <= v < |s.workers| && Carrying(s.workers[v]) && s.workers[v].job == j;
      assert r.workers[v] in r.workers;
    }
  }

  /** A job is popped at most once, in the order of pushing: the next to be popped is always the oldest queued, and no
      step lets go of a job but to finish it. */
  lemma StepTakesInOrder(s: State, a: Action)
    requires Reachable(s) && Enabled(s, a)
    ensures var r := Do(s, a);
            && s.finished <= r.finished && s.taken <= r.taken <= s.taken + 1
            && (forall j :: j in InHand(r) && j !in InHand(s) ==> j == s.taken == r.taken - 1)
            && (forall j :: j in InHand(s) && j !in InHand(r) ==> j in r.finished)
  {
    hide MutexInv, CloseInv, WakeInv, JobsInv, InHand, DoProduce, DoClose, DoWork;
    ReachableInv(s);
    if a.Work? { WorkerChangesHands(s, a.w); } else { OthersKeepHands(s, a); }
  }

  function At(s: State, p: nat): Producer { if p < |s.producers| then s.producers[p] else Outside }

  /** Jobs pushed by producer `p` along a run. */
  function PushedBy(s: State, actions: seq<Action>, p: nat): nat
    decreases |actions|
  {
    if actions == [] || !Enabled(s, actions[0]) then 0
    else
      (if actions[0].Produce? && actions[0].p == p && At(s, p).Pushes? then 1 else 0)
      + PushedBy(Do(s, actions[0]), actions[1..], p)
  }

  /** Along the run there is a moment at which `p` has the mutex and looks at a queue that is at its bound. */
  predicate MeetsFullQueue(s: State, actions: seq<Action>, p: nat)
    decreases |actions|
  {
    (At(s, p).Checks? && s.mutex == Some(TheProducer(p)) && s.maxQueued > 0 && |s.jobs| == s.maxQueued)
    || (actions != [] && Enabled(s, actions[0]) && MeetsFullQueue(Do(s, actions[0]), actions[1..], p))
  }

  /** What is still to come of the call `p` is in. */
  predicate CallEnds(s: State, actions: seq<Action>, p: nat)
  {
    match At(s, p)
    case WantsLock => PushedBy(s, actions, p) == if MeetsFullQueue(s, actions, p) then 0 else 1
    case Checks => PushedBy(s, actions, p) == if MeetsFullQueue(s, actions, p) then 0 else 1
    case Pushes => PushedBy(s, actions, p) == 1 && !MeetsFullQueue(s, actions, p)
    case _ => PushedBy(s, actions, p) == 0 && !MeetsFullQueue(s, actions, p)
  }

  lemma CallStep(s: State, actions: seq<Action>, p: nat)
    requires Inv(s) && actions != [] && Enabled(s, actions[0]) && actions[0] != Enqueue(p)
    requires CallEnds(Do(s, actions[0]), actions[1..], p)
    ensures CallEnds(s, actions, p)
  {
    hide Inv, CallEnds, Enabled, Do;
    var a := actions[0];
    if a.Produce? && a.p == p { OwnCallStep(s, actions, p); } else { OtherCallStep(s, actions, p); }
  }

  lemma OwnCallStep(s: State, actions: seq<Action>, p: nat)
    requires Inv(s) && actions != [] && Enabled(s, actions[0])
    requires actions[0].Produce? && actions[0].p == p && CallEnds(Do(s, actions[0]), actions[1..], p)
    ensures CallEnds(s, actions, p)
  {
    hide CloseInv, WakeInv, CarriedInv;
    assert s.producers[p] in s.producers;
  }

  lemma OtherCallStep(s: State, actions: seq<Action>, p: nat)
    requires Inv(s) && actions != [] && Enabled(s, actions[0]) && actions[0] != Enqueue(p)
    requires !(actions[0].Produce? && actions[0].p == p) && CallEnds(Do(s, actions[0]), actions[1..], p)
    ensures CallEnds(s, actions, p)
  {
    hide CloseInv, WakeInv, JobsInv;
  }

  lemma {:induction false} CallRuns(s: State, actions: seq<Action>, r: State, p: nat)
    requires Inv(s) && Runs(s, actions, r) && Enqueue(p) !in actions
    requires At(r, p).Outside?
    ensures CallEnds(s, actions, p)
    decreases |actions|
  {
    hide Inv, Enabled, CallEnds;
    if actions == [] {
      NothingToCome(s, p);
    } else {
      StepKeeps(s, actions[0]);
      CallRuns(Do(s, actions[0]), actions[1..], r, p);
      CallStep(s, actions, p);
    }
  }

  lemma NothingToCome(s: State, p: nat)
    requires At(s, p).Outside?
    ensures CallEnds(s, [], p)
  {
  }

  /** A whole call of `enqueue`, whatever the other threads do meanwhile: it pushes its job once, or else, and only
      then, it met a full queue while it had the mutex. */
  lemma EnqueueCall(s: State, actions: seq<Action>, r: State, p: nat)
    requires Reachable(s) && Enabled(s, Enqueue(p)) && Runs(Do(s, Enqueue(p)), actions, r) && Enqueue(p) !in actions
    requires At(r, p).Outside?
    ensures var begun := Do(s, Enqueue(p));
            PushedBy(begun, actions, p) == if MeetsFullQueue(begun, actions, p) then 0 else 1
  {
    hide Inv;
    ReachableInv(s);
    StepKeeps(s, Enqueue(p));
    CallRuns(Do(s, Enqueue(p)), actions, r, p);
  }

  /** No wake-up is lost: if a job is queued and all the workers left sleep, a producer is still to notify. */
  lemma NoLostWakeUp(s: State)
    requires Reachable(s) && s.jobs != [] && forall w :: w in s.workers ==> w.Sleeping? || w.Exited?
    requires exists w :: w in s.workers && w.Sleeping?
    ensures exists p :: p in s.producers && WillNotify(p)
  {
    hide MutexInv, JobsInv, CloseInv;
    ReachableInv(s);
  }

  /** When `shutdown` has returned and there was a worker, every job pushed before the flag was set has run; a job
      pushed later has run exactly when it was popped. */
  lemma AllRunBeforeJoin(s: State)
    requires Reachable(s) && s.closer.Joined? && s.workers != []
    ensures s.closedAt.Some? && s.closedAt.value <= s.taken
    ensures s.finished == FirstJobs(s.taken)
  {
    hide MutexInv, WakeInv;
    ReachableInv(s);
    JobsAreConserved(s);
    assert s.workers[0].Exited? && s.workers[0] in s.workers;
    assert forall w :: 0 <= w < |s.workers| ==> s.workers[w].Exited?;
    assert InHand(s) == {};
  }

  /** With all workers gone, or none made, `enqueue` goes on accepting jobs but none runs. */
  lemma {:induction false} NoWorkersNothingRuns(s: State, actions: seq<Action>, r: State)
    requires (forall w :: w in s.workers ==> w.Exited?) && Runs(s, actions, r)
    ensures r.workers == s.workers && r.taken == s.taken && r.finished == s.finished
    decreases |actions|
  {
    if actions != [] {
      GoneStayGone(s, actions[0]);
      NoWorkersNothingRuns(Do(s, actions[0]), actions[1..], r);
    }
  }

  lemma GoneStayGone(s: State, a: Action)
    requires (forall w :: w in s.workers ==> w.Exited?) && Enabled(s, a)
    ensures var r := Do(s, a); r.workers == s.workers && r.taken == s.taken && r.finished == s.finished
  {
    assert forall w :: 0 <= w < |s.workers| ==> s.workers[w].Exited?;
    if a.Close? { assert WakeAll(s.workers) == s.workers; }
  }

  // ---------------------------------------------------------------------------
  // Shutting down ends
  // ---------------------------------------------------------------------------

  function WorkerToGo(w: Worker): nat {
    match w
    case Exited => 0
    case Leaving => 1
    case Taking(_) => 2
    case Testing => 3
    case WantLock => 4
    case Sleeping => 5
    case Running(_) => 5
    case Taken(_) => 6
  }

  /** A job queued makes for more than the steps of taking and running it. */
  const JOB_TO_GO := 5

  function ProducerToGo(p: Producer): nat {
    match p
    case Outside => 0
    case Notifies => 1
    case Unlocks(_) => 2
    case Pushes => 3 + JOB_TO_GO
    case Checks => 4 + JOB_TO_GO
    case WantsLock => 5 + JOB_TO_GO
  }

  function WorkersToGo(workers: seq<Worker>): nat {
    if workers == [] then 0 else WorkersToGo(workers[..|workers| - 1]) + WorkerToGo(workers[|workers| - 1])
  }

  function ProducersToGo(producers: seq<Producer>): nat {
    if producers == [] then 0
    else ProducersToGo(producers[..|producers| - 1]) + ProducerToGo(producers[|producers| - 1])
  }

  function CloserToGo(s: State): int {
    if s.closer.Joins? then |s.workers| - s.closer.next + 1 else 0
  }

  /** Steps left, at most, once `shutdown` has notified and nobody calls `enqueue` any more. */
  function ToGo(s: State): int {
    WorkersToGo(s.workers) + ProducersToGo(s.producers) + JOB_TO_GO * |s.jobs| + CloserToGo(s)
  }

  lemma {:induction false} WorkersUpdate(workers: seq<Worker>, w: nat, v: Worker)
    requires w < |workers|
    ensures WorkersToGo(workers[w := v]) == WorkersToGo(workers) - WorkerToGo(workers[w]) + WorkerToGo(v)
  {
    hide WorkerToGo;
    var k := |workers| - 1;
    if w == k {
      assert workers[w := v][..k] == workers[..k];
    } else {
      assert workers[w := v][..k] == workers[..k][w := v];
      WorkersUpdate(workers[..k], w, v);
    }
  }

  lemma {:induction false} ProducersUpdate(producers: seq<Producer>, p: nat, v: Producer)
    requires p < |producers|
    ensures ProducersToGo(producers[p := v]) == ProducersToGo(producers) - ProducerToGo(producers[p]) + ProducerToGo(v)
  {
    hide ProducerToGo;
    var k := |producers| - 1;
    if p == k {
      assert producers[p := v][..k] == producers[..k];
    } else {
      assert producers[p := v][..k] == producers[..k][p := v];
      ProducersUpdate(producers[..k], p, v);
    }
  }

  /** After the notice every step but a new call of `enqueue` brings the end nearer. */
  lemma StepsRunOut(s: State, a: Action)
    requires Reachable(s) && Notified(s.closer) && Enabled(s, a) && !a.Enqueue?
    ensures 0 <= ToGo(Do(s, a)) < ToGo(s) && Notified(Do(s, a).closer)
  {
    hide MutexInv, JobsInv, WakeInv, WorkersToGo, ProducersToGo;
    ReachableInv(s);
    StepKeeps(s, a);
    NobodySleeps(s);
    match a {
      case Work(w) => WorkRunsOut(s, w);
      case Wake(w) =>
      case Produce(p, woken) =>
        ProduceRunsOut(s, p, woken);
      case Close =>
      case Shutdown =>
    }
  }

  lemma NobodySleeps(s: State)
    requires CloseInv(s) && Notified(s.closer)
    ensures forall w :: !Asleep(s, w)
  {
    forall w: nat ensures !Asleep(s, w) {
      if w < |s.workers| { assert s.workers[w] in s.workers; }
    }
  }

  lemma WorkRunsOut(s: State, w: nat)
    requires Inv(s) && Notified(s.closer) && Enabled(s, Work(w))
    ensures ToGo(DoWork(s, w)) < ToGo(s)
  {
    hide MutexInv, WakeInv, WorkersToGo, ProducersToGo, CarriedInv;
    var r := DoWork(s, w);
    assert s.workers[w] in s.workers;
    WorkersUpdate(s.workers, w, r.workers[w]);
  }

  lemma ProduceRunsOut(s: State, p: nat, woken: nat)
    requires Inv(s) && Notified(s.closer) && Enabled(s, Produce(p, woken))
    ensures ToGo(DoProduce(s, p, woken)) < ToGo(s)
  {
    hide MutexInv, JobsInv, WakeInv, WorkersToGo, ProducersToGo;
    var r := DoProduce(s, p, woken);
    if woken < |s.workers| { assert s.workers[woken] in s.workers; }
    ProducersUpdate(s.producers, p, r.producers[p]);
  }

  /** ... and until it is reached someone can step, without a new call. */
  lemma SomeoneSteps(s: State) returns (a: Action)
    requires Reachable(s) && Notified(s.closer) && !s.closer.Joined?
    ensures Enabled(s, a) && !a.Enqueue?
  {
    hide JobsInv, WakeInv;
    ReachableInv(s);
    if s.mutex.Some? {
      if s.mutex.value.TheWorker? {
        a := Work(s.mutex.value.w);
      } else {
        a := Produce(s.mutex.value.p, 0);
      }
    } else if s.closer.next == |s.workers| || s.workers[s.closer.next].Exited? {
      a := Close;
    } else {
      a := Work(s.closer.next);
      assert s.workers[s.closer.next] in s.workers;
    }
  }

  lemma {:induction false} ShutdownReturns(s: State) returns (actions: seq<Action>, r: State)
    requires Reachable(s) && Notified(s.closer)
    ensures Runs(s, actions, r) && r.closer.Joined? && |actions| <= if ToGo(s) < 0 then 0 else ToGo(s)
    ensures forall a :: a in actions ==> !a.Enqueue?
    decreases if ToGo(s) < 0 then 0 else ToGo(s)
  {
    hide Reachable, Enabled, ToGo, Do;
    if s.closer.Joined? { return [], s; }
    var a := SomeoneSteps(s);
    StepsRunOut(s, a);
    ReachOn(s, a);
    var more: seq<Action>;
    more, r := ShutdownReturns(Do(s, a));
    actions := [a] + more;
  }

  /** So every run from there without a new call has at most that many steps. */
  lemma {:induction false} RunsAreBounded(s: State, actions: seq<Action>, r: State)
    requires Reachable(s) && Notified(s.closer) && Runs(s, actions, r)
    requires forall a :: a in actions ==> !a.Enqueue?
    ensures actions != [] ==> |actions| <= ToGo(s)
    decreases |actions|
  {
    hide Reachable, Enabled, ToGo, Do;
    if actions != [] {
      assert actions[0] in actions;
      StepsRunOut(s, actions[0]);
      ReachOn(s, actions[0]);
      RunsAreBounded(Do(s, actions[0]), actions[1..], r);
    }
  }

  lemma {:induction false} RunsOn(s: State, actions: seq<Action>, r: State, a: Action)
    requires Runs(s, actions, r) && Enabled(r, a)
    ensures Runs(s, actions + [a], Do(r, a))
    decreases |actions|
  {
    hide Enabled, Do;
    if actions == [] {
      assert [a][1..] == [];
    } else {
      assert (actions + [a])[1..] == actions[1..] + [a];
      RunsOn(Do(s, actions[0]), actions[1..], r, a);
    }
  }

  lemma ReachOn(s: State, a: Action)
    requires Reachable(s) && Enabled(s, a)
    ensures Reachable(Do(s, a))
  {
    hide Enabled, Do;
    var workers: nat, producers: nat, maxQueued: nat, actions :|
      Runs(Start(workers, producers, maxQueued), actions, s);
    RunsOn(Start(workers, producers, maxQueued), actions, s, a);
  }

  // ---------------------------------------------------------------------------
  // Which queued jobs can still run
  // ---------------------------------------------------------------------------

  /** Steps of the mutex's holder until it lets go. */
  function HolderToGo(s: State): nat {
    match s.mutex
    case None => 0
    case Some(TheWorker(w)) => if w < |s.workers| && s.workers[w].Testing? then 2 else 1
    case Some(TheProducer(p)) =>
      if p < |s.producers| && s.producers[p].Checks? then 3
      else if p < |s.producers| && s.producers[p].Pushes? then 2
      else 1
    case Some(TheCloser) => if s.closer.SetsFlag? then 2 else 1
  }

  /** How far worker `w` is from popping a job: alone with the mutex, waiting for its holder, or on its way to it. */
  function ToPop(s: State, w: nat): nat
    requires w < |s.workers|
  {
    if s.mutex == Some(TheWorker(w)) && !s.workers[w].Taken? then if s.workers[w].Testing? then 2 else 1
    else if s.mutex.Some? then 10 + HolderToGo(s)
    else if s.workers[w].WantLock? then 3
    else 4
  }

  /** Queued still, in the worker's own words: among the jobs pushed and not popped. */
  predicate Queued(s: State, j: nat) { s.taken <= j < s.pushed }

  /** The next step towards popping a job, and what it brings. */
  lemma NextPop(s: State, w: nat) returns (a: Action)
    requires Inv(s) && w < |s.workers| && !s.workers[w].Exited? && s.jobs != []
    ensures Enabled(s, a)
    ensures var r := Do(s, a);
            && w < |r.workers| && !r.workers[w].Exited? && r.pushed >= s.pushed
            && (r.taken == s.taken + 1 || (r.taken == s.taken && ToPop(r, w) < ToPop(s, w)))
  {
    hide CloseInv, WakeInv, CarriedInv;
    assert s.workers[w] in s.workers;
    match s.mutex {
      case None => a := if s.workers[w].Sleeping? then Wake(w) else Work(w);
      case Some(TheWorker(v)) =>
        assert s.workers[v] in s.workers;
        a := Work(v);
      case Some(TheProducer(p)) => a := Produce(p, 0);
      case Some(TheCloser) => a := Close;
    }
  }

  lemma QueuedMeans(s: State, j: nat)
    requires Inv(s)
    ensures Queued(s, j) <==> j in s.jobs
    ensures Queued(s, j) ==> s.jobs != []
    ensures j < s.taken ==> j in s.finished || exists w :: 0 <= w < |s.workers| && Carries(s.workers[w], j)
    ensures j in s.finished ==> j < s.taken
  {
    hide MutexInv, CloseInv, WakeInv;
    if Queued(s, j) { assert s.jobs[j - s.taken] == j; }
  }

  lemma OneStep(s: State, a: Action)
    requires Enabled(s, a)
    ensures Runs(s, [a], Do(s, a))
  {
    hide Enabled, Do;
    assert [a][1..] == [];
  }

  /** A popped job can be run: its worker unlocks the mutex and calls it. */
  lemma RunsTaken(s: State, j: nat) returns (actions: seq<Action>, r: State)
    requires Inv(s) && j < s.taken
    ensures Runs(s, actions, r) && j in r.finished
  {
    hide MutexInv, JobsInv, CloseInv, WakeInv;
    QueuedMeans(s, j);
    if j in s.finished { return [], s; }
    var w :| 0 <= w < |s.workers| && Carries(s.workers[w], j);
    r := Do(s, Work(w));
    actions := [Work(w)];
    OneStep(s, Work(w));
    if s.workers[w].Taken? {
      OneStep(r, Work(w));
      assert [Work(w), Work(w)][1..] == [Work(w)];
      r := Do(r, Work(w));
      actions := [Work(w), Work(w)];
    }
  }

  lemma {:induction false} RunsQueued(s: State, w: nat, j: nat) returns (actions: seq<Action>, r: State)
    requires Inv(s) && w < |s.workers| && !s.workers[w].Exited? && j < s.pushed
    ensures Runs(s, actions, r) && j in r.finished
    decreases if s.taken <= j then j - s.taken + 1 else 0, ToPop(s, w)
  {
    hide Inv, Enabled, ToPop, Do;
    if j < s.taken {
      actions, r := RunsTaken(s, j);
    } else {
      QueuedMeans(s, j);
      var a := NextPop(s, w);
      StepKeeps(s, a);
      var more: seq<Action>;
      more, r := RunsQueued(Do(s, a), w, j);
      actions := [a] + more;
    }
  }

  /** An accepted job that is still queued can run exactly as long as a worker is left. */
  lemma QueuedJobRunsIff(s: State, j: nat)
    requires Reachable(s) && j in s.jobs
    ensures (exists actions: seq<Action>, r :: Runs(s, actions, r) && j in r.finished)
            <==> exists w :: w in s.workers && !w.Exited?
  {
    hide Inv, Do, Enabled;
    ReachableInv(s);
    QueuedMeans(s, j);
    if v :| v in s.workers && !v.Exited? {
      var w :| 0 <= w < |s.workers| && s.workers[w] == v;
      var actions, r := RunsQueued(s, w, j);
    } else {
      forall actions: seq<Action>, r | Runs(s, actions, r) ensures j !in r.finished {
        NoWorkersNothingRuns(s, actions, r);
      }
    }
  }

  /** The state in which the pool has one worker and one producer. */
  function Small(w: Worker, p: Producer, c: Closer, mutex: Option<Actor>, jobs: seq<nat>): State {
    State([w], [p], c, mutex, jobs, Flagged(c), 0, |jobs|, 0, {}, if Flagged(c) then Some(0) else None)
  }

  lemma SmallStep(s: State, a: Action, r: State)
    requires Reachable(s) && Enabled(s, a) && Do(s, a) == r
    ensures Reachable(r)
  {
    ReachOn(s, a);
  }

  /** The closing of an idle pool with one worker, which leaves. */
  lemma SmallCloses()
    ensures Reachable(Small(Exited, Outside, Joined, None, []))
  {
    hide Reachable;
    var s := Start(1, 1, 0);
    StartIsReachable(1, 1, 0);
    assert s == Small(WantLock, Outside, Before, None, []);
    SmallStep(s, Shutdown, Small(WantLock, Outside, LocksToClose, None, []));
    SmallStep(Small(WantLock, Outside, LocksToClose, None, []), Close,
              Small(WantLock, Outside, SetsFlag, Some(TheCloser), []));
    SmallStep(Small(WantLock, Outside, SetsFlag, Some(TheCloser), []), Close,
              Small(WantLock, Outside, UnlocksFlag, Some(TheCloser), []));
    SmallStep(Small(WantLock, Outside, UnlocksFlag, Some(TheCloser), []), Close,
              Small(WantLock, Outside, NotifiesAll, None, []));
    assert WakeAll([WantLock]) == [WantLock];
    SmallStep(Small(WantLock, Outside, NotifiesAll, None, []), Close, Small(WantLock, Outside, Joins(0), None, []));
    SmallLeaves();
  }

  lemma SmallLeaves()
    requires Reachable(Small(WantLock, Outside, Joins(0), None, []))
    ensures Reachable(Small(Exited, Outside, Joined, None, []))
  {
    hide Reachable;
    var me := Some(TheWorker(0));
    SmallStep(Small(WantLock, Outside, Joins(0), None, []), Work(0), Small(Testing, Outside, Joins(0), me, []));
    SmallStep(Small(Testing, Outside, Joins(0), me, []), Work(0), Small(Leaving, Outside, Joins(0), me, []));
    SmallStep(Small(Leaving, Outside, Joins(0), me, []), Work(0), Small(Exited, Outside, Joins(0), None, []));
    SmallStep(Small(Exited, Outside, Joins(0), None, []), Close, Small(Exited, Outside, Joins(1), None, []));
    SmallStep(Small(Exited, Outside, Joins(1), None, []), Close, Small(Exited, Outside, Joined, None, []));
  }

  /** A job accepted after `shutdown` has returned: it is queued, and no worker is left. */
  lemma LateJobIsAccepted()
    ensures exists s :: Reachable(s) && s.closer.Joined? && |s.workers| == 1 && s.workers[0].Exited? && s.jobs == [0]
  {
    hide Reachable;
    SmallCloses();
    var me := Some(TheProducer(0));
    SmallStep(Small(Exited, Outside, Joined, None, []), Enqueue(0), Small(Exited, WantsLock, Joined, None, []));
    SmallStep(Small(Exited, WantsLock, Joined, None, []), Produce(0, 0), Small(Exited, Checks, Joined, me, []));
    SmallStep(Small(Exited, Checks, Joined, me, []), Produce(0, 0), Small(Exited, Pushes, Joined, me, []));
    assert [] + [0] == [0];
    SmallStep(Small(Exited, Pushes, Joined, me, []), Produce(0, 0), Small(Exited, Unlocks(true), Joined, me, [0]));
    assert Small(Exited, Unlocks(true), Joined, me, [0]).jobs == [0];
  }

  lemma StartIsReachable(workers: nat, producers: nat, maxQueued: nat)
    ensures Reachable(Start(workers, producers, maxQueued))
  {
    assert Runs(Start(workers, producers, maxQueued), [], Start(workers, producers, maxQueued));
  }
}
