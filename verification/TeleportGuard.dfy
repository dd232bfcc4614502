/** The re-entrancy guard around teleports: an intrusive stack of scopes, one for each thread. */
module TeleportGuard {
  import opened Bytes

  const MAX_DEPTH := 64

  type uint32 = x: int | 0 <= x < 0x1_0000_0000

  /** The thread-local variables; `list` are the entered scopes, the newest last, and `handles` their entities. */
  class ThreadLocals {
    var top: Scope?
    var depth: nat
    ghost var list: seq<Scope>
    ghost var handles: seq<uint32>

    constructor ()
      ensures Valid() && list == [] && handles == []
    {
      top, depth, list, handles := null, 0, [], [];
    }

    ghost predicate Valid()
      reads this, list
    {
      && depth == |list| <= MAX_DEPTH
      && top == Below(list, |list|)
      && Linked(list, handles)
      && Distinct(handles)
    }

    /** The walk from the top. */
    method Find(entityHandle: uint32) returns (found: bool)
      requires Valid()
      ensures found <==> entityHandle in handles
    {
      ghost var n: nat := |list|;
      var scope := top;
      while scope != null
        invariant n <= |list| && scope == Below(list, n)
        invariant forall k :: n <= k < |list| ==> handles[k] != entityHandle
        decreases n
      {
        if scope.entityHandle == entityHandle {
          assert handles[n - 1] == entityHandle;
          return true;
        }
        scope := scope.previous;
        n := n - 1;
      }
      return false;
    }
  }

  /** The scope entered before the `n`-th. */
  function Below(list: seq<Scope>, n: nat): Scope?
    requires n <= |list|
  {
    if n == 0 then null else list[n - 1]
  }

  /** Each scope points to the one entered before it. */
  ghost predicate Linked(list: seq<Scope>, handles: seq<uint32>)
    reads list
  {
    |handles| == |list|
    && forall i :: 0 <= i < |list| ==>
         list[i].entered && list[i].entityHandle == handles[i] && list[i].previous == Below(list, i)
  }

  lemma LinkedMore(list: seq<Scope>, handles: seq<uint32>, scope: Scope)
    requires Linked(list, handles) && scope.entered && scope.previous == Below(list, |list|)
    ensures Linked(list + [scope], handles + [scope.entityHandle])
  {
    var more, hs := list + [scope], handles + [scope.entityHandle];
    forall i | 0 <= i < |more|
      ensures more[i].entered && more[i].entityHandle == hs[i] && more[i].previous == Below(more, i)
    {
      if i < |list| { assert more[i] == list[i] && Below(more, i) == Below(list, i); }
    }
  }

  lemma LinkedLess(list: seq<Scope>, handles: seq<uint32>)
    requires Linked(list, handles) && list != []
    ensures Linked(list[..|list| - 1], handles[..|list| - 1])
    ensures |handles| == |list| && list[|list| - 1].previous == Below(list[..|list| - 1], |list| - 1)
  {
  }

  lemma DistinctMore(hs: seq<uint32>, h: uint32)
    requires Distinct(hs) && h !in hs
    ensures Distinct(hs + [h])
  {
  }

  lemma DistinctLess(hs: seq<uint32>)
    requires Distinct(hs) && hs != []
    ensures Distinct(hs[..|hs| - 1])
  {
  }

  class Scope {
    var previous: Scope?
    var entityHandle: uint32
    var entered: bool

    /** Entered exactly when there is room and no entered scope has that handle. */
    constructor (t: ThreadLocals, entityHandle: uint32)
      requires t.Valid()
      modifies t
      ensures t.Valid()
      ensures entered <==> |old(t.list)| < MAX_DEPTH && entityHandle !in old(t.handles)
      ensures if entered then t.list == old(t.list) + [this] && t.handles == old(t.handles) + [entityHandle]
              else t.list == old(t.list) && t.top == old(t.top) && t.handles == old(t.handles)
    {
      this.previous, this.entityHandle, this.entered := null, 0, false;
      new;
      hide *;
      TryEnter(t, entityHandle);
    }

    method TryEnter(t: ThreadLocals, entityHandle: uint32)
      requires t.Valid() && this !in t.list && !entered
      modifies this, t
      ensures t.Valid()
      ensures entered <==> |old(t.list)| < MAX_DEPTH && entityHandle !in old(t.handles)
      ensures if entered then t.list == old(t.list) + [this] && t.handles == old(t.handles) + [entityHandle]
              else t.list == old(t.list) && t.top == old(t.top) && t.handles == old(t.handles)
    {
      if t.depth >= MAX_DEPTH { return; }
      var found := t.Find(entityHandle);
      if found { return; }
      Enter(t, entityHandle);
    }

    method Enter(t: ThreadLocals, entityHandle: uint32)
      requires t.Valid() && this !in t.list && |t.list| < MAX_DEPTH && entityHandle !in t.handles
      modifies this, t
      ensures t.Valid() && entered && t.list == old(t.list) + [this] && t.handles == old(t.handles) + [entityHandle]
    {
      hide Linked, Distinct;
      DistinctMore(t.handles, entityHandle);
      this.entityHandle := entityHandle;
      this.previous := t.top;
      this.entered := true;
      LinkedMore(t.list, t.handles, this);
      t.top := this;
      t.depth := t.depth + 1;
      t.list, t.handles := t.list + [this], t.handles + [entityHandle];
    }

    /** The destructor. Scopes are destroyed in the reverse order of their construction. */
    method Destroy(t: ThreadLocals)
      requires t.Valid() && (entered ==> t.list != [] && t.list[|t.list| - 1] == this)
      modifies t
      ensures t.Valid()
      ensures t.list == if entered then old(t.list)[..|old(t.list)| - 1] else old(t.list)
      ensures t.handles == if entered then old(t.handles)[..|old(t.list)| - 1] else old(t.handles)
    {
      hide Distinct, Linked, Below;
      if entered {
        LinkedLess(t.list, t.handles);
        DistinctLess(t.handles);
        ghost var list, handles := t.list[..|t.list| - 1], t.handles[..|t.list| - 1];
        assert previous == Below(list, |list|);
        t.top := previous;
        t.depth := t.depth - 1;
        t.list, t.handles := list, handles;
        assert Linked(list, handles);
      }
    }

    function Entered(): bool
      reads this
    {
      entered
    }
  }

  // ---------------------------------------------------------------------------
  // Guarded touches
  // ---------------------------------------------------------------------------

  /** One guarded touch: the entity, whether it was let through, and the touches made inside it. */
  datatype Touch = Touch(handle: uint32, entered: bool, nested: seq<Touch>)

  /** Let through exactly when there is room and the entity is not being touched already; nothing happens otherwise. */
  predicate Guarded(path: seq<uint32>, c: Touch)
    decreases c
  {
    && (c.entered <==> |path| < MAX_DEPTH && c.handle !in path)
    && (!c.entered ==> c.nested == [])
    && forall n :: n in c.nested ==> Guarded(path + [c.handle], n)
  }

  /** Touches let through inside one another. */
  function Height(c: Touch): nat
    decreases c, 1
  {
    if c.entered then 1 + HeightOfAny(c, |c.nested|) else 0
  }

  function HeightOfAny(c: Touch, n: nat): nat
    requires n <= |c.nested|
    decreases c, 0, n
  {
    if n == 0 then 0
    else
      var h, rest := Height(c.nested[n - 1]), HeightOfAny(c, n - 1);
      if h > rest then h else rest
  }

  predicate HandlesIn(c: Touch, entities: set<uint32>)
    decreases c
  {
    c.handle in entities && forall n :: n in c.nested ==> HandlesIn(n, entities)
  }

  lemma {:induction false} DistinctWithin(hs: seq<uint32>, entities: set<uint32>)
    requires Distinct(hs) && forall h :: h in hs ==> h in entities
    ensures |hs| <= |entities|
  {
    if hs != [] {
      var last := hs[|hs| - 1];
      var others := hs[..|hs| - 1];
      forall h | h in others ensures h in entities - {last} {
        var i :| 0 <= i < |others| && others[i] == h;
        assert hs[i] == h;
      }
      DistinctWithin(others, entities - {last});
    }
  }

  /** However the touched entities react, the nesting stays within the guard's room and the number of entities. */
  lemma {:induction false} DepthBound(path: seq<uint32>, c: Touch, entities: set<uint32>)
    requires Guarded(path, c) && HandlesIn(c, entities)
    requires Distinct(path) && |path| <= MAX_DEPTH && forall h :: h in path ==> h in entities
    ensures |path| + Height(c) <= Min(MAX_DEPTH, |entities|)
    decreases c, 1
  {
    if c.entered {
      AnyDepthBound(path, c, |c.nested|, entities);
    } else {
      DistinctWithin(path, entities);
    }
  }

  lemma {:induction false} AnyDepthBound(path: seq<uint32>, c: Touch, n: nat, entities: set<uint32>)
    requires Guarded(path, c) && HandlesIn(c, entities) && c.entered && n <= |c.nested|
    requires Distinct(path) && |path| <= MAX_DEPTH && forall h :: h in path ==> h in entities
    ensures |path| + 1 + HeightOfAny(c, n) <= Min(MAX_DEPTH, |entities|)
    decreases c, 0, n
  {
    var inside := path + [c.handle];
    if n == 0 {
      DistinctWithin(inside, entities);
    } else {
      assert c.nested[n - 1] in c.nested;
      DepthBound(inside, c.nested[n - 1], entities);
      AnyDepthBound(path, c, n - 1, entities);
    }
  }

  function Blocked(c: Touch): nat
    decreases c, 1
  {
    if c.entered then BlockedIn(c, |c.nested|) else 1
  }

  function BlockedIn(c: Touch, n: nat): nat
    requires n <= |c.nested|
    decreases c, 0, n
  {
    if n == 0 then 0 else Blocked(c.nested[n - 1]) + BlockedIn(c, n - 1)
  }

  /** `blockedTouches` */
  class Counter {
    var count: nat
    constructor ()
      ensures count == 0
    {
      count := 0;
    }
  }

  /** A touched entity may touch any number of others before its own touch returns: that the recursion ends at all is
      due to the guard. The stack is left as it was. */
  method GuardedTouch(t: ThreadLocals, blocked: Counter, other: uint32) returns (ghost c: Touch)
    requires t.Valid()
    modifies t, blocked
    ensures t.Valid() && t.list == old(t.list) && t.handles == old(t.handles)
    ensures c.handle == other && Guarded(old(t.handles), c)
    ensures blocked.count == old(blocked.count) + Blocked(c)
    decreases MAX_DEPTH - |t.list|, 1
  {
    hide Guarded, ThreadLocals.Valid;
    ghost var path := t.handles;
    SameLength(t);
    var scope := new Scope(t, other);
    if !scope.Entered() {
      blocked.count := blocked.count + 1;
      c := Touch(other, false, []);
      TouchBegins(path, c);
      return;
    }
    SameLength(t);
    c := NestedTouches(t, blocked, path, other);
    SameLength(t);
    scope.Destroy(t);
    assert (path + [other])[..|path|] == path;
  }

  /** The touches made inside one that was let through. */
  method NestedTouches(t: ThreadLocals, blocked: Counter, ghost path: seq<uint32>, other: uint32)
    returns (ghost c: Touch)
    requires t.Valid() && t.handles == path + [other] && |path| < MAX_DEPTH && other !in path
    modifies t, blocked
    ensures t.Valid() && t.list == old(t.list) && t.handles == old(t.handles)
    ensures c.handle == other && c.entered && Guarded(path, c)
    ensures blocked.count == old(blocked.count) + Blocked(c)
    decreases MAX_DEPTH - |t.list|, 2
  {
    hide Guarded, ThreadLocals.Valid;
    c := Touch(other, true, []);
    TouchBegins(path, c);
    var touches: nat :| touches >= 0;
    for i := 0 to touches
      invariant t.Valid() && t.list == old(t.list) && t.handles == path + [other]
      invariant c.handle == other && c.entered && Guarded(path, c)
      invariant blocked.count == old(blocked.count) + Blocked(c)
    {
      var next: uint32 := *;
      ghost var n: Touch := GuardedTouch(t, blocked, next);
      BlockedMore(c, n);
      GuardedMore(path, c, n);
      c := c.(nested := c.nested + [n]);
    }
  }

  lemma SameLength(t: ThreadLocals)
    requires t.Valid()
    ensures |t.list| == |t.handles| <= MAX_DEPTH
  {
  }

  lemma TouchBegins(path: seq<uint32>, c: Touch)
    requires (c.entered <==> |path| < MAX_DEPTH && c.handle !in path) && c.nested == []
    ensures Guarded(path, c) && Blocked(c) == if c.entered then 0 else 1
  {
  }

  lemma GuardedMore(path: seq<uint32>, c: Touch, n: Touch)
    requires Guarded(path, c) && c.entered && Guarded(path + [c.handle], n)
    ensures Guarded(path, c.(nested := c.nested + [n]))
  {
  }

  lemma {:induction false} BlockedSame(a: Touch, b: Touch, n: nat)
    requires n <= |a.nested| && n <= |b.nested| && a.nested[..n] == b.nested[..n]
    ensures BlockedIn(a, n) == BlockedIn(b, n)
  {
    if n > 0 {
      assert a.nested[..n][n - 1] == b.nested[..n][n - 1];
      assert a.nested[..n][..n - 1] == b.nested[..n][..n - 1];
      assert a.nested[..n - 1] == b.nested[..n - 1];
      BlockedSame(a, b, n - 1);
    }
  }

  lemma BlockedMore(c: Touch, n: Touch)
    requires c.entered
    ensures Blocked(c.(nested := c.nested + [n])) == Blocked(c) + Blocked(n)
  {
    var d := c.(nested := c.nested + [n]);
    BlockedSame(c, d, |c.nested|);
  }
}
