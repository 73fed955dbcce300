/** The pool allocator: a free list threaded through the unused slots. */
module MemoryPoolSpec {
  import opened Wrappers

  /** A slot is a union: a link of the free list, or an object. Pointers are slot numbers. */
  datatype Slot<T> = Free(next: Option<nat>) | Live(value: T)

  datatype Pool<T> = Pool(slots: seq<Slot<T>>, head: Option<nat>)

  /** How the object's constructor ended, and what the bytes of the slot, read as a link,
      say afterwards: construction happens in the storage that the link occupies. */
  datatype Construction<T> = Built(value: T, link: Option<nat>) | Threw(link: Option<nat>)

  datatype Outcome = BadAlloc | ConstructorThrew | Object(slot: nat)

  /** `path` lists the slots met by following the links from the head: every slot without an
      object exactly once, and then null. */
  ghost predicate FreePath<T>(p: Pool<T>, path: seq<nat>) {
    && (forall i, j :: 0 <= i < j < |path| ==> path[i] != path[j])
    && (forall k :: 0 <= k < |path| ==> path[k] < |p.slots| && p.slots[path[k]].Free?)
    && (forall i :: 0 <= i < |p.slots| && p.slots[i].Free? ==> i in path)
    && p.head == LinkAt(path, 0)
    && (forall k :: 0 <= k < |path| ==> LinkedAt(p, path, k))
  }

  /** The link stored in the k-th slot of the path leads to the next one, or is null in the last. */
  ghost predicate LinkedAt<T>(p: Pool<T>, path: seq<nat>, k: nat)
    requires k < |path|
  {
    path[k] < |p.slots| && p.slots[path[k]] == Free(LinkAt(path, k + 1))
  }

  function LinkAt(path: seq<nat>, k: nat): Option<nat> {
    if k < |path| then Some(path[k]) else None
  }

  ghost predicate WellFormed<T>(p: Pool<T>) {
    exists path :: FreePath(p, path)
  }

  ghost predicate AllLive<T>(p: Pool<T>) {
    forall i :: 0 <= i < |p.slots| ==> p.slots[i].Live?
  }

  function Fresh<T>(capacity: nat): Pool<T> {
    Pool(seq(capacity, (i: nat) => Free(if i + 1 < capacity then Some(i + 1) else None)),
         if capacity > 0 then Some(0) else None)
  }

  predicate HeadOk<T>(p: Pool<T>) {
    p.head.Some? ==> p.head.value < |p.slots| && p.slots[p.head.value].Free?
  }

  /** As written: the next link is read from the slot after the object was constructed in it. */
  function Allocate<T>(p: Pool<T>, made: Construction<T>): Pool<T>
    requires p.head.Some? ==> p.head.value < |p.slots|
  {
    if p.head.None? then p
    else match made
      case Built(value, link) => Pool(p.slots[p.head.value := Live(value)], link)
      case Threw(link) => Pool(p.slots[p.head.value := Free(link)], p.head)
  }

  /** The next link is read before the object is constructed. What a constructor that throws
      has written stays in the slot all the same, and the slot stays the head. */
  function AllocateLinkFirst<T>(p: Pool<T>, made: Construction<T>): Pool<T>
    requires HeadOk(p)
  {
    if p.head.None? then p
    else
      var next := p.slots[p.head.value].next;
      match made
      case Built(value, _) => Pool(p.slots[p.head.value := Live(value)], next)
      case Threw(link) => Pool(p.slots[p.head.value := Free(link)], p.head)
  }

  datatype Order = AsWritten | LinkFirst

  function AllocateIn<T>(order: Order, p: Pool<T>, made: Construction<T>): Pool<T>
    requires HeadOk(p)
  {
    if order.AsWritten? then Allocate(p, made) else AllocateLinkFirst(p, made)
  }

  function AllocateOutcome<T>(p: Pool<T>, made: Construction<T>): Outcome {
    if p.head.None? then BadAlloc
    else if made.Threw? then ConstructorThrew
    else Object(p.head.value)
  }

  function Deallocate<T>(p: Pool<T>, ptr: Option<nat>): Pool<T>
    requires ptr.Some? ==> ptr.value < |p.slots|
  {
    if ptr.None? then p
    else Pool(p.slots[ptr.value := Free(p.head)], ptr)
  }

  /** The bytes of the slot, read as a link after the constructor has run, are the old link. */
  predicate LinkKept<T>(p: Pool<T>, made: Construction<T>) {
    && p.head.Some? && p.head.value < |p.slots| && p.slots[p.head.value].Free?
    && made.link == p.slots[p.head.value].next
  }

  /** What an allocation needs for the free list to survive. */
  predicate Keeps<T>(order: Order, p: Pool<T>, made: Construction<T>) {
    p.head.None? || (order.LinkFirst? && made.Built?) || LinkKept(p, made)
  }

  lemma FreshPath<T>(capacity: nat)
    ensures FreePath(Fresh<T>(capacity), seq(capacity, i => i))
  {
    var path := seq(capacity, i => i);
    forall i | 0 <= i < capacity ensures i in path { assert path[i] == i; }
  }

  lemma HeadIsFree<T>(p: Pool<T>)
    requires WellFormed(p)
    ensures HeadOk(p)
    ensures p.head.None? <==> AllLive(p)
  {
    var path :| FreePath(p, path);
    if path != [] {
      assert p.head == Some(path[0]);
    }
  }

  lemma BuiltKeepsPath<T>(p: Pool<T>, made: Construction<T>, path: seq<nat>)
    requires FreePath(p, path) && LinkKept(p, made) && made.Built?
    ensures path != [] && FreePath(Allocate(p, made), path[1..])
  {
    var p', rest := Allocate(p, made), path[1..];
    assert path == [path[0]] + rest;
    assert LinkedAt(p, path, 0);
    forall k | 0 <= k < |rest| ensures LinkedAt(p', rest, k) {
      assert rest[k] == path[k + 1];
      assert LinkedAt(p, path, k + 1);
    }
    forall i | 0 <= i < |p'.slots| && p'.slots[i].Free? ensures i in rest {
      assert i in path;
    }
  }

  lemma AllocateKeepsPath<T>(p: Pool<T>, made: Construction<T>, path: seq<nat>)
    requires FreePath(p, path) && LinkKept(p, made)
    ensures path != []
    ensures FreePath(Allocate(p, made), if made.Built? then path[1..] else path)
  {
    if made.Built? {
      BuiltKeepsPath(p, made, path);
    } else {
      assert Allocate(p, made) == p;
    }
  }

  /** A slot on the list is the first one, or some slot on the list links to it. */
  lemma Linker<T>(p: Pool<T>, path: seq<nat>, slot: nat)
    requires FreePath(p, path) && slot in path
    ensures p.head == Some(slot) || exists b :: b in path && p.slots[b].next == Some(slot)
  {
    var k :| 0 <= k < |path| && path[k] == slot;
    if k > 0 {
      assert path[k - 1] in path && LinkedAt(p, path, k - 1);
    }
  }

  /** After an allocation no slot but the former head can link to the slot that came second. */
  lemma OnlyHeadLinksToSecond<T>(p: Pool<T>, path: seq<nat>, b: nat)
    requires FreePath(p, path) && |path| > 1
    requires b < |p.slots| && p.slots[b].Free? && b != path[0]
    ensures p.slots[b].next != Some(path[1])
  {
    var j :| 0 <= j < |path| && path[j] == b;
    assert LinkedAt(p, path, j);
  }

  lemma LinkReadBackIsNext<T>(p: Pool<T>, path: seq<nat>, made: Construction<T>)
    requires FreePath(p, path) && path != []
    requires WellFormed(Allocate(p, made))
    ensures made.link == LinkAt(path, 1)
  {
    var p' := Allocate(p, made);
    var path' :| FreePath(p', path');
    forall b | b in path' ensures b in path && (made.Built? ==> b != path[0]) {
    }
    if |path| > 1 {
      assert path[1] != path[0] && p'.slots[path[1]].Free?;
      Linker(p', path', path[1]);
      forall b | b in path' && b != path[0] ensures p'.slots[b].next != Some(path[1]) {
        OnlyHeadLinksToSecond(p, path, b);
      }
    } else if made.Built? {
      forall i | 0 <= i < |p'.slots| ensures p'.slots[i].Live? {
        assert p.slots[i].Free? ==> i in path;
      }
      HeadIsFree(p');
    } else {
      assert forall b :: b in path' ==> b == path[0];
      assert LinkedAt(p', path', 0);
    }
  }

  /** An allocation leaves the free list intact exactly when the link can still be read from
      the slot after the constructor has run; and if it cannot, no other list takes its place. */
  lemma AllocateKeepsListIff<T>(p: Pool<T>, made: Construction<T>)
    requires WellFormed(p) && p.head.Some?
    ensures p.head.value < |p.slots| && p.slots[p.head.value].Free?
    ensures WellFormed(Allocate(p, made)) <==> made.link == p.slots[p.head.value].next
  {
    HeadIsFree(p);
    var path :| FreePath(p, path);
    AllocateKeepsListOn(p, made, path);
  }

  lemma AllocateKeepsListOn<T>(p: Pool<T>, made: Construction<T>, path: seq<nat>)
    requires FreePath(p, path) && path != []
    ensures WellFormed(Allocate(p, made)) <==> made.link == p.slots[p.head.value].next
  {
    assert LinkedAt(p, path, 0);
    if WellFormed(Allocate(p, made)) {
      LinkReadBackIsNext(p, path, made);
    } else if LinkKept(p, made) {
      AllocateKeepsPath(p, made, path);
    }
  }

  /** Reading the link first is enough for a constructor that returns, and not for one that
      throws: then the free list is intact exactly when the slot still holds its old link. */
  lemma LinkFirstKeepsListIff<T>(p: Pool<T>, made: Construction<T>)
    requires WellFormed(p) && p.head.Some?
    ensures HeadOk(p)
    ensures WellFormed(AllocateLinkFirst(p, made)) <==> made.Built? || made.link == p.slots[p.head.value].next
  {
    HeadIsFree(p);
    var kept := if made.Built? then made.(link := p.slots[p.head.value].next) else made;
    assert AllocateLinkFirst(p, made) == Allocate(p, kept);
    AllocateKeepsListIff(p, kept);
  }

  lemma AllocateInKeepsListIff<T>(order: Order, p: Pool<T>, made: Construction<T>)
    requires WellFormed(p)
    ensures HeadOk(p)
    ensures WellFormed(AllocateIn(order, p, made)) <==> Keeps(order, p, made)
  {
    HeadIsFree(p);
    if p.head.Some? {
      AllocateKeepsListIff(p, made);
      LinkFirstKeepsListIff(p, made);
    }
  }

  /** An object whose bytes overwrite the link with null loses the rest of the pool. */
  lemma ZeroObjectLosesPool<T>(v: T)
    ensures var p := Allocate(Fresh<T>(2), Built(v, None));
            WellFormed(Fresh<T>(2)) && !WellFormed(p) && AllocateOutcome(p, Built(v, None)) == BadAlloc && !AllLive(p)
  {
    FreshPath<T>(2);
    AllocateKeepsListIff(Fresh<T>(2), Built(v, None));
    assert Allocate(Fresh<T>(2), Built(v, None)).slots[1].Free?;
  }

  /** A constructor that writes null bytes and then throws loses the rest of the pool in either
      order: the next object takes the first slot, and then bad_alloc is thrown although the
      second slot is unused. */
  lemma ThrowLosesPool<T>(order: Order, v: T, link: Option<nat>)
    requires order.AsWritten? ==> link == None
    ensures var p := AllocateIn(order, Fresh<T>(2), Threw(None));
            && !WellFormed(p) && HeadOk(p) && AllocateOutcome(p, Built(v, link)) == Object(0)
            && var p' := AllocateIn(order, p, Built(v, link));
               AllocateOutcome(p', Built(v, link)) == BadAlloc && !AllLive(p')
  {
    FreshPath<T>(2);
    AllocateInKeepsListIff(order, Fresh<T>(2), Threw(None));
    var p := AllocateIn(order, Fresh<T>(2), Threw(None));
    assert AllocateIn(order, p, Built(v, link)).slots[1].Free?;
  }

  lemma DeallocateKeepsPath<T>(p: Pool<T>, ptr: Option<nat>, path: seq<nat>)
    requires FreePath(p, path)
    requires ptr.Some? ==> ptr.value < |p.slots| && p.slots[ptr.value].Live?
    ensures FreePath(Deallocate(p, ptr), if ptr.None? then path else [ptr.value] + path)
  {
    if ptr.Some? {
      var p', now := Deallocate(p, ptr), [ptr.value] + path;
      forall k | 0 <= k < |now| ensures LinkedAt(p', now, k) {
        if k > 0 {
          assert now[k] == path[k - 1] && LinkedAt(p, path, k - 1);
        }
      }
      forall i | 0 <= i < |p'.slots| && p'.slots[i].Free? ensures i in now {
        assert i == now[0] || i in path;
      }
    }
  }

  /** Giving an object back right after it was made restores the pool. */
  lemma AllocateDeallocate<T>(order: Order, p: Pool<T>, made: Construction<T>)
    requires HeadOk(p) && p.head.Some? && made.Built? && Keeps(order, p, made)
    ensures Deallocate(AllocateIn(order, p, made), Some(AllocateOutcome(p, made).slot)) == p
  {
  }

  // ----- runs -----

  datatype Op<T> = Alloc(made: Construction<T>) | Dealloc(ptr: Option<nat>)

  /** Only null and live objects may be given back. */
  predicate Legal<T>(p: Pool<T>, op: Op<T>) {
    op.Dealloc? && op.ptr.Some? ==> op.ptr.value < |p.slots| && p.slots[op.ptr.value].Live?
  }

  function Apply<T>(order: Order, p: Pool<T>, op: Op<T>): Pool<T>
    requires HeadOk(p) && Legal(p, op)
  {
    match op
    case Alloc(made) => AllocateIn(order, p, made)
    case Dealloc(ptr) => Deallocate(p, ptr)
  }

  /** A run in which every construction leaves what the order of reads needs. */
  predicate IsRun<T>(order: Order, p: Pool<T>, ops: seq<Op<T>>)
    decreases |ops|
  {
    ops == [] ||
    (&& HeadOk(p) && Legal(p, ops[0]) && (ops[0].Alloc? ==> Keeps(order, p, ops[0].made))
     && IsRun(order, Apply(order, p, ops[0]), ops[1..]))
  }

  function Final<T>(order: Order, p: Pool<T>, ops: seq<Op<T>>): Pool<T>
    requires IsRun(order, p, ops)
    decreases |ops|
  {
    if ops == [] then p else Final(order, Apply(order, p, ops[0]), ops[1..])
  }

  /** A run of legal calls after each of which the free list is intact. */
  ghost predicate IntactThroughout<T>(order: Order, p: Pool<T>, ops: seq<Op<T>>)
    decreases |ops|
  {
    && WellFormed(p)
    && (ops == [] ||
        (HeadOk(p) && Legal(p, ops[0]) && IntactThroughout(order, Apply(order, p, ops[0]), ops[1..])))
  }

  lemma OpKeepsListIff<T>(order: Order, p: Pool<T>, op: Op<T>)
    requires WellFormed(p) && Legal(p, op)
    ensures HeadOk(p) && |Apply(order, p, op).slots| == |p.slots|
    ensures WellFormed(Apply(order, p, op)) <==> (op.Alloc? ==> Keeps(order, p, op.made))
  {
    HeadIsFree(p);
    match op
    case Alloc(made) => AllocateInKeepsListIff(order, p, made);
    case Dealloc(ptr) =>
      var path :| FreePath(p, path);
      DeallocateKeepsPath(p, ptr, path);
      assert FreePath(Deallocate(p, ptr), if ptr.None? then path else [ptr.value] + path);
  }

  /** No call disturbs an object: only the slot that is handed out becomes live, with the value
      that was constructed, and only the one that is given back stops being live. */
  lemma OpKeepsObjects<T>(order: Order, p: Pool<T>, op: Op<T>, i: nat)
    requires HeadOk(p) && Legal(p, op) && i < |p.slots|
    ensures var slot := Apply(order, p, op).slots[i];
            if op == Dealloc(Some(i)) then slot.Free?
            else if op.Alloc? && AllocateOutcome(p, op.made) == Object(i) then slot == Live(op.made.value)
            else if p.slots[i].Live? then slot == p.slots[i]
            else slot.Free?
  {
  }

  /** In either order of reads, the free list is intact all along a run of legal calls exactly
      when every allocation of the run kept what it needs. */
  lemma {:induction false} IntactIffKept<T>(order: Order, p: Pool<T>, ops: seq<Op<T>>)
    requires WellFormed(p)
    ensures IntactThroughout(order, p, ops) <==> IsRun(order, p, ops)
    decreases |ops|
  {
    HeadIsFree(p);
    if ops != [] && Legal(p, ops[0]) {
      var p' := Apply(order, p, ops[0]);
      OpKeepsListIff(order, p, ops[0]);
      if WellFormed(p') {
        IntactIffKept(order, p', ops[1..]);
      } else {
        assert !IntactThroughout(order, p', ops[1..]);
      }
    }
  }

  lemma {:induction false} RunKeepsList<T>(order: Order, p: Pool<T>, ops: seq<Op<T>>)
    requires WellFormed(p) && IsRun(order, p, ops)
    ensures WellFormed(Final(order, p, ops)) && |Final(order, p, ops).slots| == |p.slots|
    decreases |ops|
  {
    if ops != [] {
      OpKeepsListIff(order, p, ops[0]);
      RunKeepsList(order, Apply(order, p, ops[0]), ops[1..]);
    }
  }

  /** While the links are kept, the order of reads makes no difference. */
  lemma {:induction false} OrdersAgree<T>(p: Pool<T>, ops: seq<Op<T>>)
    requires IsRun(AsWritten, p, ops)
    ensures IsRun(LinkFirst, p, ops) && Final(LinkFirst, p, ops) == Final(AsWritten, p, ops)
    decreases |ops|
  {
    if ops != [] {
      assert Apply(LinkFirst, p, ops[0]) == Apply(AsWritten, p, ops[0]);
      OrdersAgree(Apply(AsWritten, p, ops[0]), ops[1..]);
    }
  }

  /** After any run from a fresh pool, in any order of deallocations: the links visit exactly the
      slots without an object; allocation fails exactly when every slot is live, and otherwise
      hands out a slot that was not live and leaves every live object alone. With the link read
      first, a run may contain any construction that returns. */
  lemma PoolRuns<T>(order: Order, capacity: nat, ops: seq<Op<T>>, made: Construction<T>)
    requires IsRun(order, Fresh<T>(capacity), ops)
    ensures var p := Final(order, Fresh<T>(capacity), ops);
            && |p.slots| == capacity
            && WellFormed(p) && HeadOk(p)
            && var p', outcome := AllocateIn(order, p, made), AllocateOutcome(p, made);
               && (outcome == BadAlloc <==> AllLive(p))
               && (outcome == BadAlloc ==> p' == p)
               && (outcome.Object? ==> p.slots[outcome.slot].Free? && p'.slots[outcome.slot] == Live(made.value))
               && (forall i :: 0 <= i < capacity && p.slots[i].Live? ==> p'.slots[i] == p.slots[i])
  {
    FreshPath<T>(capacity);
    RunKeepsList(order, Fresh<T>(capacity), ops);
    HeadIsFree(Final(order, Fresh<T>(capacity), ops));
  }
}

/** The pool object. */
module MemoryPool {
  import opened Wrappers
  import opened MemoryPoolSpec

  class MemoryPool<T> {
    const capacity: nat
    const slots: array<Slot<T>>
    var nextFree: Option<nat>

    ghost function View(): Pool<T>
      reads this, slots
    {
      Pool(slots[..], nextFree)
    }

    ghost predicate Valid()
      reads this, slots
    {
      slots.Length == capacity && WellFormed(View())
    }

    constructor (capacity: nat)
      ensures Valid() && fresh(slots)
      ensures this.capacity == capacity && View() == Fresh(capacity)
    {
      this.capacity := capacity;
      slots := new Slot<T>[capacity](_ => Free(None));
      nextFree := None;
      new;
      var i := 0;
      while i < capacity
        invariant i <= capacity
        invariant forall j :: 0 <= j < i ==> slots[j] == Free(if j + 1 < capacity then Some(j + 1) else None)
      {
        slots[i] := Free(if i + 1 < capacity then Some(i + 1) else None);
        i := i + 1;
      }
      nextFree := if capacity > 0 then Some(0) else None;
      assert slots[..] == Fresh<T>(capacity).slots;
      FreshPath<T>(capacity);
    }

    /** The pool stays usable exactly when the slot's link survives the constructor. */
    method AllocateObject(made: Construction<T>) returns (outcome: Outcome)
      requires Valid()
      modifies this`nextFree, slots
      ensures View() == Allocate(old(View()), made)
      ensures outcome == AllocateOutcome(old(View()), made)
      ensures outcome == BadAlloc <==> AllLive(old(View()))
      ensures outcome.Object? ==> old(nextFree) == Some(outcome.slot) && slots[outcome.slot] == Live(made.value)
      ensures forall i :: 0 <= i < capacity && old(nextFree) != Some(i) ==> slots[i] == old(slots[i])
      ensures Valid() <==> outcome == BadAlloc || LinkKept(old(View()), made)
    {
      HeadIsFree(View());
      if nextFree.None? {
        return BadAlloc;
      }
      AllocateKeepsListIff(View(), made);
      var slot := nextFree.value;
      match made
      case Threw(link) =>
        slots[slot] := Free(link);
        outcome := ConstructorThrew;
      case Built(value, link) =>
        slots[slot] := Live(value);
        nextFree := link;
        outcome := Object(slot);
    }

    method DeallocateObject(ptr: Option<nat>)
      requires Valid()
      requires ptr.Some? ==> ptr.value < capacity && slots[ptr.value].Live?
      modifies this`nextFree, slots
      ensures Valid() && View() == Deallocate(old(View()), ptr)
      ensures forall i :: 0 <= i < capacity && ptr != Some(i) ==> slots[i] == old(slots[i])
      ensures ptr.Some? ==> nextFree == ptr && slots[ptr.value] == Free(old(nextFree))
      ensures ptr.None? ==> nextFree == old(nextFree)
    {
      ghost var path :| FreePath(View(), path);
      DeallocateKeepsPath(View(), ptr, path);
      if ptr.None? {
        return;
      }
      slots[ptr.value] := Free(nextFree);
      nextFree := ptr;
    }
  }
}
