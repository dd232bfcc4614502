/** Runs of `CreateLuaData`, `RemoveLuaData` and readers: what holds in every reachable state. */
module StateDataRuns {
  import opened ThreadAccess
  import opened StateData

  predicate Leads(w: World, events: seq<Event>, r: World)
    decreases |events|
  {
    if events == [] then w == r else Possible(w, events[0]) && Leads(Happen(w, events[0]), events[1..], r)
  }

  ghost predicate ReachableWorld(w: World) {
    exists n: nat, interfaces: nat, events :: Leads(Begins(n, interfaces), events, w)
  }

  lemma BeginsKeeps(n: nat, interfaces: nat)
    ensures WorldInv(Begins(n, interfaces))
  {
    StartKeeps(n);
  }

  lemma {:induction false} LeadsKeeps(w: World, events: seq<Event>, r: World)
    requires WorldInv(w) && Leads(w, events, r)
    ensures WorldInv(r)
    decreases |events|
  {
    hide WorldInv, Possible;
    if events != [] {
      HappenKeeps(w, events[0]);
      LeadsKeeps(Happen(w, events[0]), events[1..], r);
    }
  }

  lemma ReachableWorldInv(w: World)
    requires ReachableWorld(w)
    ensures WorldInv(w)
  {
    hide WorldInv;
    var n: nat, interfaces: nat, events :| Leads(Begins(n, interfaces), events, w);
    BeginsKeeps(n, interfaces);
    LeadsKeeps(Begins(n, interfaces), events, w);
  }

  /** Thread `t` does not leave its scope number `depth`, and opens no critical scope, by itself or in a function. */
  predicate StaysIn(w: World, events: seq<Event>, t: nat, depth: nat)
    decreases |events|
  {
    events != [] ==>
      Possible(w, events[0])
      && (match events[0]
          case Begin(u, _, _) => u != t
          case Sync(a) =>
            a.t != t || (!a.OpenCritical? && (a.Close? ==> |w.sync.threads[t].scopes| > depth))
          case _ => true)
      && StaysIn(Happen(w, events[0]), events[1..], t, depth)
  }

  lemma StillKept(w: World, e: Event, t: nat, p: Pointer)
    requires WorldInv(w) && Possible(w, e) && t < |w.clients| && p in w.clients[t].kept && StaysIn(w, [e], t, p.depth)
    ensures t < |Happen(w, e).clients| && p in Happen(w, e).clients[t].kept
  {
    hide Inv, MemoryOk, Local, Shape, Body;
    assert ClientOk(w.clients[t], w.sync.threads[t], w.memory);
  }

  lemma StaysStep(w: World, events: seq<Event>, t: nat, depth: nat)
    requires events != [] && StaysIn(w, events, t, depth)
    ensures Possible(w, events[0]) && StaysIn(w, [events[0]], t, depth)
    ensures StaysIn(Happen(w, events[0]), events[1..], t, depth)
  {
    hide Possible;
    assert [events[0]][1..] == [];
  }

  lemma {:induction false} KeptThroughout(w: World, events: seq<Event>, r: World, t: nat, p: Pointer)
    requires WorldInv(w) && t < |w.clients| && p in w.clients[t].kept
    requires Leads(w, events, r) && StaysIn(w, events, t, p.depth)
    ensures WorldInv(r) && t < |r.clients| && p in r.clients[t].kept
    decreases |events|
  {
    hide WorldInv, Possible, StaysIn;
    if events != [] {
      StaysStep(w, events, t, p.depth);
      StillKept(w, events[0], t, p);
      HappenKeeps(w, events[0]);
      KeptThroughout(Happen(w, events[0]), events[1..], r, t, p);
    }
  }

  /** A pointer read inside a scope that opens no critical scope of its own: however the other threads create and
      remove, the object is live in every state until the scope ends. */
  lemma NeverFreedInScope(w: World, t: nat, i: nat, events: seq<Event>, r: World)
    requires ReachableWorld(w) && Possible(w, Read(t, i)) && w.memory.slots[i] != 0
    requires Leads(Happen(w, Read(t, i)), events, r)
    requires StaysIn(Happen(w, Read(t, i)), events, t, |w.sync.threads[t].scopes|)
    ensures w.memory.slots[i] in r.memory.live
  {
    hide Inv, MemoryOk;
    ReachableWorldInv(w);
    HappenKeeps(w, Read(t, i));
    var p := Pointer(w.memory.slots[i], |w.sync.threads[t].scopes|);
    KeptThroughout(Happen(w, Read(t, i)), events, r, t, p);
    assert ClientOk(r.clients[t], r.sync.threads[t], r.memory);
    assert PointerOk(p, r.sync.threads[t].scopes, r.memory);
  }

  // ---------------------------------------------------------------------------
  // Whole functions
  // ---------------------------------------------------------------------------

  /** The memory when the function has done its work: a creation that does not find an object has allocated, stored and
      registered a new one, after clearing the slot if it was asked to; a removal that finds one has taken it out of the
      registry, freed it and cleared the slot; otherwise nothing has changed. */
  predicate Finished(call: Call, i: nat, before: Memory, after: Memory)
    requires i < |before.slots|
  {
    var found := before.slots[i];
    match call
    case Create(nullOut) =>
      if found != 0 && !nullOut then after == before
      else
        && i < |after.slots|
        && var d := after.slots[i];
           && d != 0 && d !in before.live && after.slots == before.slots[i := d]
           && after.live == before.live + {d} && after.registry == before.registry + {d}
           && after.lost == before.lost + if found == 0 then {} else {found}
    case Remove =>
      if found == 0 then after == before
      else
        && after.slots == before.slots[i := 0] && after.lost == before.lost
        && after.live == before.live - {found} && after.registry == before.registry - {found}
  }

  /** What the nulling out leaves of the memory. */
  function Cleared(call: Call, i: nat, m: Memory): Memory
    requires i < |m.slots|
  {
    if call == Create(true) then
      m.(slots := m.slots[i := 0], lost := m.lost + if m.slots[i] == 0 then {} else {m.slots[i]})
    else m
  }

  /** How far a function that began with `before` has come. */
  predicate Halfway(before: Memory, p: Program, m: Memory)
    requires p.Running? && p.iface < |before.slots|
  {
    var c, i := Cleared(p.call, p.iface, before), p.iface;
    match p.stage
    case NullOut => p.call == Create(true) && m == before
    case Check => m == c
    case Allocated(d) =>
      p.call.Create? && c.slots[i] == 0 && d != 0 && d !in before.live && m == c.(live := c.live + {d})
    case Stored(d) =>
      p.call.Create? && c.slots[i] == 0 && d != 0 && d !in before.live
      && m == c.(live := c.live + {d}, slots := c.slots[i := d])
    case Found(d) => p.call.Remove? && d != 0 && before.slots[i] == d && m == before
    case Erased(d) =>
      p.call.Remove? && d != 0 && before.slots[i] == d && m == before.(registry := before.registry - {d})
    case Deleted(d) =>
      p.call.Remove? && d != 0 && before.slots[i] == d
      && m == before.(registry := before.registry - {d}, live := before.live - {d})
  }

  lemma BodyAdvances(before: Memory, p: Program, m: Memory, address: nat)
    requires p.Running? && p.iface < |before.slots| == |m.slots| && Halfway(before, p, m)
    requires address != 0 && address !in m.live
    ensures var (q, n) := Body(p, m, address);
            if q.Closing? then Finished(p.call, p.iface, before, n)
            else q.Running? && q.iface == p.iface && q.call == p.call && |n.slots| == |m.slots| && Halfway(before, q, n)
  {
    assert before.slots[p.iface := 0][p.iface := address] == before.slots[p.iface := address];
    if p.stage.Stored? {
      assert before.slots[p.iface := 0][p.iface := p.stage.data] == before.slots[p.iface := p.stage.data];
    }
  }

  lemma OthersLeaveMemory(w: World, e: Event, t: nat)
    requires WorldInv(w) && Possible(w, e) && t < |w.clients| && HoldsExclusive(w.sync.mutex, t) && ThreadOf(e) != t
    ensures var r := Happen(w, e);
            && r.memory == w.memory && |r.clients| == |w.clients| && r.clients[t] == w.clients[t]
            && r.sync.threads[t] == w.sync.threads[t] && HoldsExclusive(r.sync.mutex, t)
  {
    hide Inv, MemoryOk, Local, Body, ClientOk, Counted;
    OthersQuiet(w.clients[ThreadOf(e)], w.sync, t, ThreadOf(e), w.memory);
    HappenKeeps(w, e);
    var r := Happen(w, e);
    StillExclusive(w.sync, t);
    StillExclusive(r.sync, t);
  }

  lemma StillExclusive(s: State, t: nat)
    requires Inv(s) && t < |s.threads|
    ensures HoldsExclusive(s.mutex, t) <==> s.threads[t].exclusive > 0 || s.threads[t].pc.ReleaseExclusive?
  {
    assert Holds(s.threads[t], s.mutex, t);
  }

  /** Thread `t` takes the statements of the function it is in; the others do what they like. */
  predicate OnlyStatements(events: seq<Event>, t: nat) { forall e :: e in events && ThreadOf(e) == t ==> e.Next? }

  /** In the function, or just behind its last statement. */
  predicate Under(w: World, t: nat, call: Call, i: nat, before: Memory) {
    t < |w.clients| && i < |before.slots| == |w.memory.slots| && HoldsExclusive(w.sync.mutex, t)
    && var p := w.clients[t].program;
       if !p.Running? then Finished(call, i, before, w.memory)
       else p.call == call && p.iface == i && Halfway(before, p, w.memory)
  }

  lemma UnderStep(w: World, e: Event, t: nat, call: Call, i: nat, before: Memory)
    requires WorldInv(w) && Possible(w, e) && (ThreadOf(e) == t ==> e.Next?) && Under(w, t, call, i, before)
    ensures Under(Happen(w, e), t, call, i, before)
  {
    if ThreadOf(e) == t {
      OwnStatement(w, t, e.address, call, i, before);
    } else {
      hide Inv, WorldInv, Possible, Halfway, Finished, Happen;
      OthersLeaveMemory(w, e, t);
    }
  }

  lemma OwnStatement(w: World, t: nat, address: nat, call: Call, i: nat, before: Memory)
    requires WorldInv(w) && Possible(w, Next(t, address)) && Under(w, t, call, i, before)
    ensures Under(Happen(w, Next(t, address)), t, call, i, before)
  {
    hide Inv, MemoryOk, Body, Halfway, Finished, ClientOk, Counted;
    var p := w.clients[t].program;
    BodyAdvances(before, p, w.memory, address);
    BodySize(p, w.memory, address);
    HappenKeeps(w, Next(t, address));
    var r := Happen(w, Next(t, address));
    StillExclusive(r.sync, t);
    StillExclusive(w.sync, t);
    RunnerCloses(w, t, address);
  }

  lemma BodySize(p: Program, m: Memory, address: nat)
    requires p.Running? && p.iface < |m.slots|
    ensures |Body(p, m, address).1.slots| == |m.slots|
  {
  }

  /** Behind its last statement the function still has the lock, or has it in an outer critical scope. */
  lemma RunnerCloses(w: World, t: nat, address: nat)
    requires WorldInv(w) && Possible(w, Next(t, address))
    ensures var (q, _) := Body(w.clients[t].program, w.memory, address);
            q.Closing? ==>
              var th := Happen(w, Next(t, address)).sync.threads[t];
              th.pc.ReleaseExclusive? || th.exclusive > 0
  {
    hide MemoryOk, Body;
    assert ClientOk(w.clients[t], w.sync.threads[t], w.memory) && Counted(w.sync.threads[t]);
  }

  lemma {:induction false} UnderThroughout(w: World, events: seq<Event>, r: World, t: nat, call: Call, i: nat,
                                           before: Memory)
    requires WorldInv(w) && Leads(w, events, r) && OnlyStatements(events, t) && Under(w, t, call, i, before)
    ensures Under(r, t, call, i, before)
    decreases |events|
  {
    hide WorldInv, Possible, Under;
    if events != [] {
      assert events[0] in events;
      UnderStep(w, events[0], t, call, i, before);
      HappenKeeps(w, events[0]);
      UnderThroughout(Happen(w, events[0]), events[1..], r, t, call, i, before);
    }
  }

  /** From the moment the function has its lock until it is about to give it up, whatever the other threads try. */
  lemma WholeFunction(w: World, events: seq<Event>, r: World, t: nat, call: Call, i: nat)
    requires ReachableWorld(w) && t < |w.clients| && i < |w.memory.slots|
    requires w.clients[t].program == Running(call, i, FirstStage(call))
    requires Leads(w, events, r) && OnlyStatements(events, t)
    ensures t < |r.clients| && HoldsExclusive(r.sync.mutex, t)
    ensures !r.clients[t].program.Running? ==> Finished(call, i, w.memory, r.memory)
  {
    hide Inv, MemoryOk, Finished;
    ReachableWorldInv(w);
    assert ClientOk(w.clients[t], w.sync.threads[t], w.memory);
    RunnerHolds(w.clients[t], w.sync, t, w.memory);
    UnderThroughout(w, events, r, t, call, i, w.memory);
  }

  // ---------------------------------------------------------------------------
  // The registry
  // ---------------------------------------------------------------------------

  /** The step is the nulling out of a slot that stores an object. */
  predicate NullsOutAnObject(w: World, e: Event)
    requires Possible(w, e)
  {
    e.Next? && w.clients[e.t].program.stage.NullOut? && w.memory.slots[w.clients[e.t].program.iface] != 0
  }

  /** In the run some creation nulls out a slot that stores an object. */
  predicate MeetsOccupied(w: World, events: seq<Event>)
    decreases |events|
  {
    events != [] && Possible(w, events[0])
    && (NullsOutAnObject(w, events[0]) || MeetsOccupied(Happen(w, events[0]), events[1..]))
  }

  lemma LostStep(w: World, e: Event)
    requires Possible(w, e)
    ensures w.memory.lost <= Happen(w, e).memory.lost
    ensures Happen(w, e).memory.lost == {} <==> w.memory.lost == {} && !NullsOutAnObject(w, e)
  {
    hide Do, Enabled;
  }

  lemma {:induction false} LostIff(w: World, events: seq<Event>, r: World)
    requires Leads(w, events, r)
    ensures w.memory.lost <= r.memory.lost
    ensures r.memory.lost == {} <==> w.memory.lost == {} && !MeetsOccupied(w, events)
    decreases |events|
  {
    hide Possible, Happen, NullsOutAnObject;
    if events != [] {
      LostStep(w, events[0]);
      LostIff(Happen(w, events[0]), events[1..], r);
    }
  }

  lemma LostHasNoSlot(m: Memory)
    requires Clean(m)
    ensures StoredExactly(m, m.live, -1) <==> m.lost == {}
  {
    if m.lost == {} {
      assert m.live - m.lost == m.live;
    } else {
      var d :| d in m.lost;
      assert d != 0 ==> forall j :: 0 <= j < |m.slots| ==> m.slots[j] != d;
    }
  }

  /** Whoever holds the lock, and is not inside the two functions, finds that the registry and the live objects agree;
      so does everyone when no thread is inside them. The slots agree with them too, each object in one slot, exactly
      if no creation so far has nulled out a slot that stored an object. */
  lemma RegistryIsLive(n: nat, interfaces: nat, events: seq<Event>, w: World, t: nat)
    requires Leads(Begins(n, interfaces), events, w) && t < |w.clients| && !w.clients[t].program.Running?
    requires !HoldsNothing(w.sync.mutex, t) || forall c :: c in w.clients ==> !c.program.Running?
    ensures w.memory.registry == w.memory.live
    ensures StoredExactly(w.memory, w.memory.live, -1) <==> !MeetsOccupied(Begins(n, interfaces), events)
  {
    hide StoredExactly, Inv;
    assert ReachableWorld(w);
    ReachableWorldInv(w);
    if !HoldsNothing(w.sync.mutex, t) { HolderFindsClean(w, t); }
    LostHasNoSlot(w.memory);
    LostIff(Begins(n, interfaces), events, w);
  }

  /** An object whose slot was nulled out is never freed. */
  lemma LostForEver(w: World, events: seq<Event>, r: World, d: nat)
    requires ReachableWorld(w) && d in w.memory.lost && Leads(w, events, r)
    ensures d in r.memory.live
  {
    hide Inv;
    ReachableWorldInv(w);
    LostIff(w, events, r);
    LeadsKeeps(w, events, r);
    LostIsLive(r);
  }

  lemma LostIsLive(w: World)
    requires WorldInv(w)
    ensures w.memory.lost <= w.memory.live
  {
    hide Inv, ClientOk, StoredExactly;
    if c :| c in w.clients && c.program.Running? { assert Shape(w.memory, c.program); }
  }

  lemma {:induction false} LeadsOn(w: World, events: seq<Event>, r: World, e: Event)
    requires Leads(w, events, r) && Possible(r, e)
    ensures Leads(w, events + [e], Happen(r, e))
    decreases |events|
  {
    hide Possible;
    if events == [] {
      assert [e][1..] == [];
    } else {
      assert (events + [e])[1..] == events[1..] + [e];
      LeadsOn(Happen(w, events[0]), events[1..], r, e);
    }
  }

  lemma ReachOn(w: World, e: Event)
    requires ReachableWorld(w) && Possible(w, e)
    ensures ReachableWorld(Happen(w, e))
  {
    hide Possible;
    var n: nat, interfaces: nat, events :| Leads(Begins(n, interfaces), events, w);
    LeadsOn(Begins(n, interfaces), events, w, e);
  }

  /** One thread alone, with one interface. */
  function Alone(scopes: seq<Scope>, exclusive: nat, pc: Pc, writer: set<nat>, program: Program, m: Memory): World {
    World(State([ThreadAccess.Thread.Thread(scopes, 0, exclusive, pc)], Mutex(writer, multiset{})),
          [Client(program, {})], m)
  }

  lemma AloneUpdate(w: World, th: ThreadAccess.Thread, mutex: Mutex, c: Client, m: Memory, r: World)
    requires |w.sync.threads| == |w.clients| == 1
    requires r == World(State(w.sync.threads[0 := th], mutex), w.clients[0 := c], m)
    ensures r == World(State([th], mutex), [c], m)
  {
  }

  /** The thread opens the critical scope of one of the functions. */
  lemma AloneEnters(call: Call, m: Memory)
    requires ReachableWorld(Alone([], 0, Idle, {}, Free, m)) && |m.slots| == 1
    ensures ReachableWorld(Alone([Critical], 1, Idle, {0}, Running(call, 0, FirstStage(call)), m))
  {
    hide ReachableWorld;
    var start := Alone([], 0, Idle, {}, Free, m);
    var opening := Alone([], 0, WaitExclusive, {}, Opening(call, 0), m);
    assert Happen(start, Begin(0, call, 0)) == opening;
    ReachOn(start, Begin(0, call, 0));
    assert [] + [Critical] == [Critical] && {} + {0} == {0};
    AloneUpdate(opening, ThreadAccess.Thread.Thread([Critical], 0, 1, Idle), Mutex({0}, multiset{}),
                Client(Running(call, 0, FirstStage(call)), {}), m, Happen(opening, Sync(Go(0))));
    ReachOn(opening, Sync(Go(0)));
  }

  /** One statement of the body. */
  lemma AloneNext(p: Program, m: Memory, address: nat, q: Program, n: Memory)
    requires var w := Alone([Critical], 1, Idle, {0}, p, m);
             ReachableWorld(w) && p.Running? && p.iface < |m.slots| && address != 0 && address !in m.live
    requires (q, n) == Body(p, m, address)
    ensures !q.Closing? ==> ReachableWorld(Alone([Critical], 1, Idle, {0}, q, n))
    ensures q.Closing? ==> ReachableWorld(Alone([Critical], 0, ReleaseExclusive, {0}, Closing, n))
  {
    hide Body, ReachableWorld;
    var w := Alone([Critical], 1, Idle, {0}, p, m);
    ReachOn(w, Next(0, address));
    if q.Closing? {
      AloneUpdate(w, ThreadAccess.Thread.Thread([Critical], 0, 0, ReleaseExclusive), w.sync.mutex, Client(q, {}), n,
                  Happen(w, Next(0, address)));
    } else {
      assert w.clients[0 := Client(q, {})] == [Client(q, {})];
    }
  }

  lemma AloneLeaves(m: Memory)
    requires ReachableWorld(Alone([Critical], 0, ReleaseExclusive, {0}, Closing, m))
    ensures ReachableWorld(Alone([], 0, Idle, {}, Free, m))
  {
    var w := Alone([Critical], 0, ReleaseExclusive, {0}, Closing, m);
    ReachOn(w, Sync(Go(0)));
    assert Happen(w, Sync(Go(0))) == Alone([], 0, Idle, {}, Free, m);
  }

  lemma AloneStarts(m: Memory)
    requires m == Memory([0], {}, {}, {})
    ensures ReachableWorld(Alone([], 0, Idle, {}, Free, m))
  {
    var w := Begins(1, 1);
    assert Leads(w, [], w);
    assert w == Alone([], 0, Idle, {}, Free, m);
  }

  /** A first creation, from the start to the end. */
  lemma AloneCreates(call: Call)
    requires call.Create?
    ensures ReachableWorld(Alone([], 0, Idle, {}, Free, Memory([1], {1}, {1}, {})))
  {
    hide ReachableWorld;
    var none, given := Memory([0], {}, {}, {}), Memory([0], {1}, {}, {});
    var stored, made := Memory([1], {1}, {}, {}), Memory([1], {1}, {1}, {});
    AloneStarts(none);
    AloneEnters(call, none);
    assert {} + {1} == {1} && [0][0 := 0] == [0] && [0][0 := 1] == [1];
    assert none.lost + {} == none.lost;
    if call.nullOut { AloneNext(Running(call, 0, NullOut), none, 1, Running(call, 0, Check), none); }
    AloneNext(Running(call, 0, Check), none, 1, Running(call, 0, Allocated(1)), given);
    AloneNext(Running(call, 0, Allocated(1)), given, 2, Running(call, 0, Stored(1)), stored);
    AloneNext(Running(call, 0, Stored(1)), stored, 2, Closing, made);
    AloneLeaves(made);
  }

  /** Without a scope the promise fails: for one step the slot of a removed object holds a freed address. */
  lemma DanglingSlot()
    ensures exists w ::
              ReachableWorld(w) && |w.memory.slots| == 1 && w.memory.slots[0] == 1 && w.memory.live == {}
  {
    hide ReachableWorld;
    var made, erased := Memory([1], {1}, {1}, {}), Memory([1], {1}, {}, {});
    var dangling := Memory([1], {}, {}, {});
    AloneCreates(Create(true));
    AloneEnters(Remove, made);
    assert {1} - {1} == {};
    AloneNext(Running(Remove, 0, Check), made, 2, Running(Remove, 0, Found(1)), made);
    AloneNext(Running(Remove, 0, Found(1)), made, 2, Running(Remove, 0, Erased(1)), erased);
    AloneNext(Running(Remove, 0, Erased(1)), erased, 2, Running(Remove, 0, Deleted(1)), dangling);
    assert ReachableWorld(Alone([Critical], 1, Idle, {0}, Running(Remove, 0, Deleted(1)), dangling));
  }

  /** A second creation with nulling out on the same interface: the first object stays registered and allocated, and
      no slot stores it. */
  lemma SecondCreationLosesObject()
    ensures exists w ::
              ReachableWorld(w) && (forall c :: c in w.clients ==> c.program.Free?) && w.memory.slots == [2]
              && w.memory.live == w.memory.registry == {1, 2}
  {
    hide ReachableWorld;
    var call := Create(true);
    var made, nulled := Memory([1], {1}, {1}, {}), Memory([0], {1}, {1}, {1});
    var given, stored := Memory([0], {1, 2}, {1}, {1}), Memory([2], {1, 2}, {1}, {1});
    var after := Memory([2], {1, 2}, {1, 2}, {1});
    AloneCreates(call);
    AloneEnters(call, made);
    assert {} + {1} == {1} && [1][0 := 0] == [0] && {1} + {2} == {1, 2} && [0][0 := 2] == [2];
    AloneNext(Running(call, 0, NullOut), made, 2, Running(call, 0, Check), nulled);
    AloneNext(Running(call, 0, Check), nulled, 2, Running(call, 0, Allocated(2)), given);
    AloneNext(Running(call, 0, Allocated(2)), given, 3, Running(call, 0, Stored(2)), stored);
    AloneNext(Running(call, 0, Stored(2)), stored, 3, Closing, after);
    AloneLeaves(after);
    assert Alone([], 0, Idle, {}, Free, after).memory == after;
  }
}
