/** Life of the `StateData` objects: created and deleted inside critical scopes, read inside scoped ones. Each
    statement of `CreateLuaData` and `RemoveLuaData` is a step of its own, so the slot of a deleted object dangles for
    one step; the allocator may hand out a freed address again. */
module StateData {
  import opened ThreadAccess

  /** `slots[i]` is what interface `i` stores, 0 for null; `live` are the allocated objects; `registry` is
      `g_pLuaStates`. `lost` are the objects whose slot a creation has nulled out. */
  datatype Memory = Memory(slots: seq<nat>, live: set<nat>, registry: set<nat>, lost: set<nat>)

  datatype Stage =
    | NullOut              // CreateLuaData only: clears what follows the path ID, the slot included
    | Check
    | Allocated(data: nat)
    | Stored(data: nat)
    | Found(data: nat)
    | Erased(data: nat)
    | Deleted(data: nat)

  /** The two functions; a creation may be asked to null out the slot first. */
  datatype Call = Create(nullOut: bool) | Remove

  /** What a thread is doing: nothing, or one of the two functions on an interface. */
  datatype Program =
    | Free
    | Opening(call: Call, iface: nat)
    | Running(call: Call, iface: nat, stage: Stage)
    | Closing

  /** A pointer and how many scopes were open when it was read. */
  datatype Pointer = Pointer(address: nat, depth: nat)

  /** `kept` are the pointers read in a scope that is still open and in which no critical scope was opened since. */
  datatype Client = Client(program: Program, kept: set<Pointer>)

  datatype World = World(sync: State, clients: seq<Client>, memory: Memory)

  datatype Event =
    | Sync(a: Action)                 // a scope is opened or closed, or a step inside doing so
    | Read(t: nat, iface: nat)        // GetLuaData
    | Begin(t: nat, call: Call, iface: nat)
    | Next(t: nat, address: nat)      // the next statement; `address` is the allocator's choice

  // ---------------------------------------------------------------------------
  // The steps
  // ---------------------------------------------------------------------------

  function ThreadOf(e: Event): nat { if e.Sync? then e.a.t else e.t }

  predicate Possible(w: World, e: Event) {
    ThreadOf(e) < |w.clients| == |w.sync.threads|
    && var c := w.clients[ThreadOf(e)];
    match e
    case Sync(a) => Enabled(w.sync, a) && (c.program.Free? || (a.Go? && !c.program.Running?))
    case Read(t, i) =>
      c.program.Free? && w.sync.threads[t].pc.Idle? && w.sync.threads[t].scopes != [] && i < |w.memory.slots|
    case Begin(t, _, i) => c.program.Free? && w.sync.threads[t].pc.Idle? && i < |w.memory.slots|
    case Next(t, address) =>
      c.program.Running? && c.program.iface < |w.memory.slots|
      && w.sync.threads[t].pc.Idle? && w.sync.threads[t].scopes != []
      && address != 0 && address !in w.memory.live
  }

  function FirstStage(call: Call): Stage { if call == Create(true) then NullOut else Check }

  /** Once its scope is open the function's body runs; once it is closed the function has returned. */
  function Continue(p: Program, pc: Pc): Program {
    if !pc.Idle? then p
    else match p
      case Opening(call, i) => Running(call, i, FirstStage(call))
      case Closing => Free
      case _ => p
  }

  /** Pointers whose scope stays open. */
  function Surviving(kept: set<Pointer>, th: ThreadAccess.Thread, a: Action): set<Pointer> {
    match a
    case OpenCritical(_) => {}
    case Close(_) => set p | p in kept && p.depth < |th.scopes|
    case _ => kept
  }

  function Shared(w: World, a: Action, program: Program, kept: set<Pointer>, m: Memory): World
    requires Enabled(w.sync, a) && |w.clients| == |w.sync.threads|
  {
    var sync := Do(w.sync, a);
    World(sync, w.clients[a.t := Client(Continue(program, sync.threads[a.t].pc), kept)], m)
  }

  /** The body's next statement: what follows, and the memory; `Closing` stands for the end of the body. */
  function Body(p: Program, m: Memory, address: nat): (Program, Memory)
    requires p.Running? && p.iface < |m.slots|
  {
    var slot := m.slots[p.iface];
    match p.stage
    case NullOut =>
      (p.(stage := Check),
       m.(slots := m.slots[p.iface := 0], lost := m.lost + if slot == 0 then {} else {slot}))
    case Check =>
      if p.call.Create? then
        if slot != 0 then (Closing, m)
        else (p.(stage := Allocated(address)), m.(live := m.live + {address}))
      else if slot == 0 then (Closing, m)
      else (p.(stage := Found(slot)), m)
    case Allocated(data) => (p.(stage := Stored(data)), m.(slots := m.slots[p.iface := data]))
    case Stored(data) => (Closing, m.(registry := m.registry + {data}))
    case Found(data) => (p.(stage := Erased(data)), m.(registry := m.registry - {data}))
    case Erased(data) => (p.(stage := Deleted(data)), m.(live := m.live - {data}))
    case Deleted(_) => (Closing, m.(slots := m.slots[p.iface := 0]))
  }

  function Happen(w: World, e: Event): World
    requires Possible(w, e)
  {
    match e
    case Sync(a) =>
      var c := w.clients[a.t];
      Shared(w, a, c.program, Surviving(c.kept, w.sync.threads[a.t], a), w.memory)
    case Read(t, i) =>
      var c, address := w.clients[t], w.memory.slots[i];
      var read := if address == 0 then {} else {Pointer(address, |w.sync.threads[t].scopes|)};
      w.(clients := w.clients[t := c.(kept := c.kept + read)])
    case Begin(t, call, i) => Shared(w, OpenCritical(t), Opening(call, i), {}, w.memory)
    case Next(t, address) =>
      var c := w.clients[t];
      var (p, m) := Body(c.program, w.memory, address);
      if p.Closing? then Shared(w, Close(t), p, {}, m)
      else w.(clients := w.clients[t := c.(program := p)], memory := m)
  }

  function Begins(n: nat, interfaces: nat): World {
    World(Start(n), seq(n, _ => Client(Free, {})), Memory(seq(interfaces, _ => 0), {}, {}, {}))
  }

  // ---------------------------------------------------------------------------
  // The invariant
  // ---------------------------------------------------------------------------

  /** The slots, but for that of `skip`, store just the objects of `objects`, each once. */
  predicate StoredExactly(m: Memory, objects: set<nat>, skip: int) {
    && 0 !in objects
    && (forall j :: 0 <= j < |m.slots| && j != skip && m.slots[j] != 0 ==> m.slots[j] in objects)
    && (forall d :: d in objects ==> exists j :: 0 <= j < |m.slots| && j != skip && m.slots[j] == d)
    && (forall j, k :: 0 <= j < k < |m.slots| && j != skip && k != skip && m.slots[j] != 0 ==> m.slots[j] != m.slots[k])
  }

  /** Outside the two functions the registry and the live objects agree, and so do the slots but for the lost ones. */
  predicate Clean(m: Memory) { m.registry == m.live && m.lost <= m.live && StoredExactly(m, m.live - m.lost, -1) }

  predicate Shape(m: Memory, p: Program)
    requires p.Running?
  {
    p.iface < |m.slots| && m.lost <= m.live
    && match p.stage
       case NullOut => p.call.Create? && Clean(m)
       case Check => Clean(m)
       case Allocated(d) =>
         p.call.Create? && d != 0 && d !in m.registry && m.live == m.registry + {d} && m.lost <= m.registry
         && m.slots[p.iface] == 0 && StoredExactly(m, m.registry - m.lost, p.iface)
       case Stored(d) =>
         p.call.Create? && d != 0 && d !in m.registry && m.live == m.registry + {d} && m.lost <= m.registry
         && m.slots[p.iface] == d && StoredExactly(m, m.live - m.lost, -1)
       case Found(d) => p.call.Remove? && Clean(m) && d != 0 && m.slots[p.iface] == d
       case Erased(d) =>
         p.call.Remove? && d != 0 && d !in m.registry && m.live == m.registry + {d} && m.lost <= m.registry
         && m.slots[p.iface] == d && StoredExactly(m, m.live - m.lost, -1)
       case Deleted(d) =>
         p.call.Remove? && d != 0 && m.registry == m.live && d !in m.live && m.slots[p.iface] == d
         && StoredExactly(m, m.live - m.lost, p.iface)
  }

  /** A kept pointer: its object is live, and no critical scope was opened above the scope it was read in. */
  predicate PointerOk(p: Pointer, scopes: seq<Scope>, m: Memory) {
    p.address in m.live && 1 <= p.depth <= |scopes| && forall j :: p.depth <= j < |scopes| ==> scopes[j] == Scoped
  }

  predicate ClientOk(c: Client, th: ThreadAccess.Thread, m: Memory) {
    && (match c.program
        case Free => true
        case Opening(_, i) => (th.pc.UpgradeRelease? || th.pc.WaitExclusive?) && i < |m.slots|
        case Running(_, i, _) => th.pc.Idle? && th.scopes != [] && Top(th.scopes).Critical? && i < |m.slots|
        case Closing => th.pc.ReleaseExclusive? || th.pc.WaitSharedAgain?)
    && (c.kept != {} ==> c.program.Free? && th.pc.Idle?)
    && forall p :: p in c.kept ==> PointerOk(p, th.scopes, m)
  }

  predicate MemoryOk(clients: seq<Client>, m: Memory) {
    && (forall c :: c in clients && c.program.Running? ==> Shape(m, c.program))
    && ((forall c :: c in clients ==> !c.program.Running?) ==> Clean(m))
  }

  predicate WorldInv(w: World) {
    && Inv(w.sync) && |w.clients| == |w.sync.threads|
    && (forall t :: 0 <= t < |w.clients| ==> ClientOk(w.clients[t], w.sync.threads[t], w.memory))
    && MemoryOk(w.clients, w.memory)
  }

  // ---------------------------------------------------------------------------
  // The statements
  // ---------------------------------------------------------------------------

  lemma CheckKeeps(p: Program, m: Memory, address: nat)
    requires p.Running? && p.stage.Check? && Shape(m, p) && address != 0 && address !in m.live
    ensures var (q, n) := Body(p, m, address);
            |n.slots| == |m.slots| && if q.Closing? then Clean(n) else q.Running? && Shape(n, q)
  {
    var objects := m.live - m.lost;
    if m.slots[p.iface] == 0 {
      assert forall d :: d in objects ==> exists j :: 0 <= j < |m.slots| && j != p.iface && m.slots[j] == d;
    }
  }

  /** Storing an object that no other slot has. */
  lemma StoreKeeps(m: Memory, objects: set<nat>, i: nat, d: nat)
    requires i < |m.slots| && StoredExactly(m, objects, i) && d !in objects
    ensures d != 0 ==> StoredExactly(m.(slots := m.slots[i := d]), objects + {d}, -1)
    ensures d == 0 ==> StoredExactly(m.(slots := m.slots[i := d]), objects, -1)
  {
    var slots := m.slots[i := d];
    forall x | x in objects ensures exists j :: 0 <= j < |slots| && slots[j] == x {
      var j :| 0 <= j < |m.slots| && j != i && m.slots[j] == x;
      assert slots[j] == x;
    }
    assert slots[i] == d;
  }

  lemma ForgetKeeps(m: Memory, objects: set<nat>, i: nat, d: nat)
    requires i < |m.slots| && StoredExactly(m, objects, -1) && m.slots[i] == d
    ensures StoredExactly(m, objects - {d}, i)
  {
    forall x | x in objects - {d} ensures exists j :: 0 <= j < |m.slots| && j != i && m.slots[j] == x {
      var j :| 0 <= j < |m.slots| && m.slots[j] == x;
    }
  }

  lemma SameSlots(m: Memory, n: Memory, objects: set<nat>, skip: int)
    requires m.slots == n.slots
    ensures StoredExactly(m, objects, skip) == StoredExactly(n, objects, skip)
  {
  }

  /** Nulling out a slot leaves its object, if any, allocated and registered but without a slot. */
  lemma NullOutKeeps(p: Program, m: Memory, address: nat)
    requires p.Running? && p.stage.NullOut? && Shape(m, p)
    ensures var (q, n) := Body(p, m, address);
            |n.slots| == |m.slots| && q.Running? && q.iface == p.iface && Shape(n, q)
  {
    var (q, n) := Body(p, m, address);
    var slot, objects := m.slots[p.iface], m.live - m.lost;
    if slot != 0 { SlotIsObject(m, p.iface); }
    ForgetKeeps(m, objects, p.iface, slot);
    NoNullObject(m, objects, -1);
    StoreKeeps(m, objects - {slot}, p.iface, 0);
    SameSlots(n, m.(slots := n.slots), objects - {slot}, -1);
    assert n.live - n.lost == objects - {slot};
  }

  /** Each statement takes the memory from the shape it expects to the shape the next one expects. */
  lemma BodyKeeps(p: Program, m: Memory, address: nat)
    requires p.Running? && Shape(m, p) && address != 0 && address !in m.live
    ensures var (q, n) := Body(p, m, address);
            |n.slots| == |m.slots| && if q.Closing? then Clean(n) else q.Running? && q.iface == p.iface && Shape(n, q)
  {
    var (q, n) := Body(p, m, address);
    var objects := m.live - m.lost;
    match p.stage {
      case NullOut => NullOutKeeps(p, m, address);
      case Check => CheckKeeps(p, m, address);
      case Allocated(d) =>
        hide StoredExactly;
        StoreKeeps(m, m.registry - m.lost, p.iface, d);
        SameSlots(n, m.(slots := n.slots), objects, -1);
        assert m.registry - m.lost + {d} == objects;
      case Stored(d) => hide StoredExactly; SameSlots(m, n, objects, -1);
      case Found(d) =>
        hide StoredExactly;
        SameSlots(m, n, objects, -1);
        SlotIsObject(m, p.iface);
      case Erased(d) =>
        hide StoredExactly;
        ForgetKeeps(m, objects, p.iface, d);
        SameSlots(m, n, objects - {d}, p.iface);
        assert n.live - n.lost == objects - {d};
      case Deleted(d) => hide StoredExactly; NullKeeps(m, p.iface, objects);
    }
  }

  lemma NullKeeps(m: Memory, i: nat, objects: set<nat>)
    requires i < |m.slots| && StoredExactly(m, objects, i)
    ensures StoredExactly(m.(slots := m.slots[i := 0]), objects, -1)
  {
    NoNullObject(m, objects, i);
    StoreKeeps(m, objects, i, 0);
  }

  lemma NoNullObject(m: Memory, objects: set<nat>, skip: int)
    requires StoredExactly(m, objects, skip)
    ensures 0 !in objects
  {
  }

  lemma SlotIsObject(m: Memory, i: nat)
    requires Clean(m) && i < |m.slots| && m.slots[i] != 0
    ensures m.slots[i] in m.live && m.slots[i] !in m.lost
  {
  }

  // ---------------------------------------------------------------------------
  // Exclusion
  // ---------------------------------------------------------------------------

  lemma IdleHolds(s: State, t: nat)
    requires Inv(s) && t < |s.threads| && s.threads[t].pc.Idle? && s.threads[t].scopes != []
    ensures !HoldsNothing(s.mutex, t)
    ensures Critical in s.threads[t].scopes ==> HoldsExclusive(s.mutex, t)
  {
    hide MutexSound;
    NoCriticals(s.threads[t].scopes);
    assert Counted(s.threads[t]) && Holds(s.threads[t], s.mutex, t);
  }

  lemma OthersHoldNothing(s: State, t: nat, u: nat)
    requires Inv(s) && HoldsExclusive(s.mutex, t) && u != t
    ensures HoldsNothing(s.mutex, u)
  {
  }

  lemma RunnerHolds(c: Client, s: State, t: nat, m: Memory)
    requires Inv(s) && t < |s.threads| && ClientOk(c, s.threads[t], m) && c.program.Running?
    ensures HoldsExclusive(s.mutex, t)
  {
    hide Inv;
    var scopes := s.threads[t].scopes;
    assert Top(scopes) in scopes;
    IdleHolds(s, t);
  }

  /** While one thread holds the lock exclusively, no other runs a body or keeps a pointer. */
  lemma OthersQuiet(c: Client, s: State, t: nat, u: nat, m: Memory)
    requires Inv(s) && HoldsExclusive(s.mutex, t) && u != t && u < |s.threads| && ClientOk(c, s.threads[u], m)
    ensures !c.program.Running? && c.kept == {}
  {
    hide Inv;
    OthersHoldNothing(s, t, u);
    if c.program.Running? { RunnerHolds(c, s, u, m); }
    if c.kept != {} {
      var p :| p in c.kept;
      assert PointerOk(p, s.threads[u].scopes, m);
      IdleHolds(s, u);
    }
  }

  /** A thread between calls with a scope open, and in neither function, finds the memory clean. */
  lemma HolderFindsClean(w: World, t: nat)
    requires WorldInv(w) && t < |w.clients| && !w.clients[t].program.Running?
    requires !HoldsNothing(w.sync.mutex, t)
    ensures Clean(w.memory)
  {
    hide Clean, Inv;
    forall c | c in w.clients ensures !c.program.Running? {
      var u :| 0 <= u < |w.clients| && w.clients[u] == c;
      if c.program.Running? {
        RunnerHolds(c, w.sync, u, w.memory);
        OthersHoldNothing(w.sync, u, t);
      }
    }
  }

  // ---------------------------------------------------------------------------
  // Kept pointers
  // ---------------------------------------------------------------------------

  lemma OpenKeepsPointers(th: ThreadAccess.Thread, mutex: Mutex, a: Action, kept: set<Pointer>, m: Memory)
    requires Counted(th) && th.pc.Idle? && (a.OpenScoped? || a.TryScoped?)
    requires forall p :: p in kept ==> PointerOk(p, th.scopes, m)
    ensures var (next, _) := Local(th, mutex, a);
            && (kept != {} ==> next.pc.Idle?)
            && forall p :: p in kept ==> PointerOk(p, next.scopes, m)
  {
    hide Criticals, BelowCritical;
    NoCriticals(th.scopes);
    if kept != {} {
      var p :| p in kept;
      assert PointerOk(p, th.scopes, m);
    }
  }

  lemma CloseKeepsPointers(th: ThreadAccess.Thread, mutex: Mutex, a: Action, kept: set<Pointer>, m: Memory)
    requires Counted(th) && th.pc.Idle? && th.scopes != [] && a.Close?
    requires forall p :: p in kept ==> PointerOk(p, th.scopes, m)
    ensures var (next, _) := Local(th, mutex, a);
            && (Surviving(kept, th, a) != {} ==> next.pc.Idle?)
            && forall p :: p in Surviving(kept, th, a) ==> PointerOk(p, next.scopes, m)
  {
    hide Criticals, BelowCritical;
    NoCriticals(th.scopes);
    NoCriticals(Pop(th.scopes));
    CountsOfPush(Pop(th.scopes), Top(th.scopes));
    assert th.scopes == Pop(th.scopes) + [Top(th.scopes)];
    forall p | p in Surviving(kept, th, a)
      ensures Local(th, mutex, a).0.pc.Idle? && PointerOk(p, Local(th, mutex, a).0.scopes, m)
    {
      assert PointerOk(p, th.scopes, m);
      assert Top(th.scopes) == th.scopes[|th.scopes| - 1] == Scoped;
    }
  }

  // ---------------------------------------------------------------------------
  // Every step keeps the invariant
  // ---------------------------------------------------------------------------

  /** The stepping thread's client after a step on the lock. */
  function After(w: World, a: Action, program: Program, kept: set<Pointer>): Client
    requires Enabled(w.sync, a)
  {
    Client(Continue(program, Do(w.sync, a).threads[a.t].pc), kept)
  }

  predicate OthersOk(w: World, t: nat, m: Memory)
    requires |w.clients| == |w.sync.threads|
  {
    forall u :: 0 <= u < |w.clients| && u != t ==> ClientOk(w.clients[u], w.sync.threads[u], m)
  }

  lemma FreeAfter(w: World, a: Action)
    requires WorldInv(w) && Possible(w, Sync(a)) && w.clients[a.t].program.Free?
    ensures var c := After(w, a, Free, Surviving(w.clients[a.t].kept, w.sync.threads[a.t], a));
            ClientOk(c, Do(w.sync, a).threads[a.t], w.memory) && c.program.Free?
  {
    hide Local, MemoryOk, PointerOk;
    var th, kept := w.sync.threads[a.t], w.clients[a.t].kept;
    assert ClientOk(w.clients[a.t], th, w.memory) && Counted(th);
    match a {
      case OpenScoped(_) => OpenKeepsPointers(th, w.sync.mutex, a, kept, w.memory);
      case TryScoped(_, _) => OpenKeepsPointers(th, w.sync.mutex, a, kept, w.memory);
      case Close(_) => CloseKeepsPointers(th, w.sync.mutex, a, kept, w.memory);
      case OpenCritical(_) =>
      case Go(_) =>
    }
  }

  lemma GoAfter(w: World, a: Action)
    requires WorldInv(w) && Possible(w, Sync(a)) && !w.clients[a.t].program.Free?
    ensures var program := w.clients[a.t].program;
            var c := After(w, a, program, Surviving(w.clients[a.t].kept, w.sync.threads[a.t], a));
            ClientOk(c, Do(w.sync, a).threads[a.t], w.memory)
            && (c.program.Running? ==> c.program.stage == FirstStage(c.program.call) && program.Opening?)
  {
    hide MemoryOk, PointerOk;
    assert ClientOk(w.clients[a.t], w.sync.threads[a.t], w.memory);
  }

  lemma BeginAfter(w: World, t: nat, call: Call, i: nat)
    requires WorldInv(w) && Possible(w, Begin(t, call, i))
    ensures var c := After(w, OpenCritical(t), Opening(call, i), {});
            ClientOk(c, Do(w.sync, OpenCritical(t)).threads[t], w.memory)
            && (c.program.Running? ==> c.program.stage == FirstStage(c.program.call))
  {
    hide MemoryOk, PointerOk;
    assert ClientOk(w.clients[t], w.sync.threads[t], w.memory);
  }

  lemma CloseAfter(w: World, t: nat, m: Memory)
    requires WorldInv(w) && t < |w.clients| && w.clients[t].program.Running?
    requires Enabled(w.sync, Close(t))
    ensures var c := After(w, Close(t), Closing, {});
            ClientOk(c, Do(w.sync, Close(t)).threads[t], m) && !c.program.Running?
  {
    hide MemoryOk, PointerOk;
    assert ClientOk(w.clients[t], w.sync.threads[t], w.memory);
  }

  lemma SharedClients(w: World, a: Action, program: Program, kept: set<Pointer>, m: Memory)
    requires Inv(w.sync) && Enabled(w.sync, a) && |w.clients| == |w.sync.threads|
    requires OthersOk(w, a.t, m) && ClientOk(After(w, a, program, kept), Do(w.sync, a).threads[a.t], m)
    ensures var r := Shared(w, a, program, kept, m);
            && Inv(r.sync) && |r.clients| == |r.sync.threads| == |w.clients|
            && (forall t :: 0 <= t < |r.clients| ==> ClientOk(r.clients[t], r.sync.threads[t], m))
  {
    hide Inv, ClientOk, Local, Continue;
    StepKeeps(w.sync, a);
  }

  /** The memory, when a thread that was not running a body does not disturb it. */
  lemma SharedMemory(w: World, a: Action, program: Program, kept: set<Pointer>)
    requires WorldInv(w) && Enabled(w.sync, a) && !w.clients[a.t].program.Running?
    requires var c := After(w, a, program, kept);
             ClientOk(c, Do(w.sync, a).threads[a.t], w.memory)
             && (c.program.Running? ==> c.program.stage == FirstStage(c.program.call))
    ensures WorldInv(Shared(w, a, program, kept, w.memory))
  {
    hide Inv, ClientOk, Local, Continue, Shape, Clean;
    SharedClients(w, a, program, kept, w.memory);
    var r := Shared(w, a, program, kept, w.memory);
    var c := After(w, a, program, kept);
    if c.program.Running? {
      RunnerHolds(c, r.sync, a.t, w.memory);
      forall u | 0 <= u < |w.clients| && u != a.t ensures !w.clients[u].program.Running? {
        OthersQuiet(r.clients[u], r.sync, a.t, u, w.memory);
        assert r.clients[u] == w.clients[u];
      }
      FirstIsClean(w.memory, c, r.sync.threads[a.t]);
    } else {
      forall u | 0 <= u < |w.clients| && u != a.t ensures r.clients[u] == w.clients[u] && w.clients[u] in r.clients {
        assert r.clients[u] == w.clients[u];
      }
    }
  }

  lemma FirstIsClean(m: Memory, c: Client, th: ThreadAccess.Thread)
    requires c.program.Running? && c.program.stage == FirstStage(c.program.call) && ClientOk(c, th, m)
    ensures Clean(m) ==> Shape(m, c.program)
  {
  }

  /** The others, when the runner's statement changes the memory: they keep no pointer and run no body. */
  lemma OthersUntouched(w: World, t: nat, m: Memory)
    requires WorldInv(w) && t < |w.clients| && HoldsExclusive(w.sync.mutex, t) && |m.slots| == |w.memory.slots|
    ensures OthersOk(w, t, m) && forall u :: 0 <= u < |w.clients| && u != t ==> !w.clients[u].program.Running?
  {
    hide Inv, MemoryOk;
    forall u | 0 <= u < |w.clients| && u != t
      ensures ClientOk(w.clients[u], w.sync.threads[u], m) && !w.clients[u].program.Running?
    {
      OthersQuiet(w.clients[u], w.sync, t, u, w.memory);
    }
  }

  lemma NextKeeps(w: World, t: nat, address: nat)
    requires WorldInv(w) && Possible(w, Next(t, address))
    ensures WorldInv(Happen(w, Next(t, address)))
  {
    hide Inv, ClientOk, Local, Continue, Shape, Clean, Body;
    var c := w.clients[t];
    RunnerHolds(c, w.sync, t, w.memory);
    BodyKeeps(c.program, w.memory, address);
    var (q, m) := Body(c.program, w.memory, address);
    OthersUntouched(w, t, m);
    var r := Happen(w, Next(t, address));
    if q.Closing? {
      CloseAfter(w, t, m);
      SharedClients(w, Close(t), q, {}, m);
    } else {
      StillRunning(c, q, w.sync.threads[t], w.memory, m);
    }
  }

  lemma StillRunning(c: Client, q: Program, th: ThreadAccess.Thread, m: Memory, n: Memory)
    requires ClientOk(c, th, m) && c.program.Running? && q.Running? && q.iface == c.program.iface
    requires |n.slots| == |m.slots|
    ensures ClientOk(c.(program := q), th, n)
  {
  }

  lemma ReadKeeps(w: World, t: nat, i: nat)
    requires WorldInv(w) && Possible(w, Read(t, i))
    ensures WorldInv(Happen(w, Read(t, i)))
  {
    hide Inv, Shape, Clean;
    IdleHolds(w.sync, t);
    HolderFindsClean(w, t);
    if w.memory.slots[i] != 0 { SlotIsObject(w.memory, i); }
    var r := Happen(w, Read(t, i));
    assert ClientOk(w.clients[t], w.sync.threads[t], w.memory);
    assert ClientOk(r.clients[t], r.sync.threads[t], r.memory);
    forall u | 0 <= u < |w.clients| && u != t ensures r.clients[u] == w.clients[u] && w.clients[u] in r.clients {
      assert r.clients[u] == w.clients[u];
    }
  }

  lemma HappenKeeps(w: World, e: Event)
    requires WorldInv(w) && Possible(w, e)
    ensures WorldInv(Happen(w, e))
  {
    hide Inv, ClientOk, Local, Continue, Shape, Clean, Body, Surviving, MemoryOk, Enabled;
    match e {
      case Sync(a) =>
        var c := w.clients[a.t];
        SyncPossible(w, a);
        if c.program.Free? { FreeAfter(w, a); } else { GoAfter(w, a); }
        SharedMemory(w, a, c.program, Surviving(c.kept, w.sync.threads[a.t], a));
      case Read(t, i) => ReadKeeps(w, t, i);
      case Begin(t, call, i) =>
        BeginPossible(w, t);
        BeginAfter(w, t, call, i);
        SharedMemory(w, OpenCritical(t), Opening(call, i), {});
      case Next(t, address) => NextKeeps(w, t, address);
    }
  }

  lemma SyncPossible(w: World, a: Action)
    requires Possible(w, Sync(a))
    ensures Enabled(w.sync, a) && !w.clients[a.t].program.Running?
  {
    hide Local;
  }

  lemma BeginPossible(w: World, t: nat)
    requires t < |w.sync.threads| && w.sync.threads[t].pc.Idle?
    ensures Enabled(w.sync, OpenCritical(t))
  {
  }
}
