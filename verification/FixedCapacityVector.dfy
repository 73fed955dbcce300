/** What each vector operation does, and the balance of constructions and destructions that
    every run on any number of vectors keeps. */
module VectorSpec {
  import opened Arithmetic
  import opened Sums
  import opened Wrappers

  datatype Op<T> = CopyFrom
                 | MoveFrom
                 | Resize(newSize: nat, fill: T)
                 | PushBack(value: T)
                 | PopBack
                 | Clear

  /** The elements of the vector and of its source afterwards, the objects constructed and
      destroyed, and the exception thrown. */
  datatype Effect<T> = Effect(dst: seq<T>, src: seq<T>, made: nat, gone: nat, thrown: Option<Exception>)

  function Fill<T>(n: nat, value: T): seq<T> {
    seq(n, _ => value)
  }

  /** The effect on a vector of the given capacity holding `dst`, with `src` held by another. */
  function EffectOf<T>(op: Op<T>, capacity: nat, dst: seq<T>, src: seq<T>): Effect<T>
    requires |dst| <= capacity
  {
    match op
    case CopyFrom =>
      if |src| > capacity then Effect(dst, src, 0, 0, Some(LengthError))
      else Effect(src, src, |src|, |dst|, None)
    case MoveFrom =>
      if |src| > capacity then Effect(dst, src, 0, 0, Some(LengthError))
      else Effect(src, [], |src|, |dst| + |src|, None)
    case Resize(newSize, fill) =>
      if newSize <= |dst| then Effect(dst[..newSize], src, 0, |dst| - newSize, None)
      else
        var added := Min(newSize, capacity) - |dst|;
        Effect(dst + Fill(added, fill), src, added, 0, if newSize <= capacity then None else Some(LengthError))
    case PushBack(value) =>
      if |dst| == capacity then Effect(dst, src, 0, 0, Some(LengthError))
      else Effect(dst + [value], src, 1, 0, None)
    case PopBack =>
      if dst == [] then Effect(dst, src, 0, 0, Some(OutOfRange))
      else Effect(dst[..|dst| - 1], src, 0, 1, None)
    case Clear => Effect([], src, 0, |dst|, None)
  }

  /** No operation loses or invents an object. */
  lemma EffectBalances<T>(op: Op<T>, capacity: nat, dst: seq<T>, src: seq<T>)
    requires |dst| <= capacity
    ensures var e := EffectOf(op, capacity, dst, src);
            && |e.dst| <= capacity && |e.src| <= |src|
            && |e.dst| + |e.src| + e.gone == |dst| + |src| + e.made
            && (e.thrown.Some? && !op.Resize? ==> e.dst == dst && e.src == src && e.made == e.gone == 0)
            && (op.Resize? && e.thrown.Some? ==> |e.dst| == capacity && dst <= e.dst)
  {
  }

  /** What the effects say about the elements: copy and move take over the whole sequence or
      throw exactly when it does not fit, push adds one element or throws on a full vector, pop
      takes the last one or throws on an empty vector, and resize keeps a prefix or appends. */
  lemma EffectOnElements<T>(op: Op<T>, capacity: nat, dst: seq<T>, src: seq<T>)
    requires |dst| <= capacity
    ensures var e := EffectOf(op, capacity, dst, src);
            match op
            case CopyFrom =>
              && e.thrown == (if |src| > capacity then Some(LengthError) else None)
              && (e.thrown == None ==> e.dst == src && e.src == src)
            case MoveFrom =>
              && e.thrown == (if |src| > capacity then Some(LengthError) else None)
              && (e.thrown == None ==> e.dst == src && e.src == [])
            case Resize(newSize, fill) =>
              && e.thrown == (if newSize > capacity then Some(LengthError) else None)
              && |e.dst| == Min(newSize, capacity)
              && (if newSize <= |dst| then e.dst <= dst else dst <= e.dst)
              && (forall i :: |dst| <= i < |e.dst| ==> e.dst[i] == fill)
            case PushBack(value) =>
              && e.thrown == (if |dst| == capacity then Some(LengthError) else None)
              && (e.thrown == None ==> e.dst == dst + [value])
            case PopBack =>
              && e.thrown == (if dst == [] then Some(OutOfRange) else None)
              && (e.thrown == None ==> exists x :: dst == e.dst + [x])
            case Clear => e.thrown == None && e.dst == []
  {
    if op.PopBack? && dst != [] {
      assert dst == EffectOf(op, capacity, dst, src).dst + [dst[|dst| - 1]];
    }
  }

  /** pop_back undoes push_back, and resize back to the old size undoes resize to a larger one. */
  lemma PopUndoesPush<T>(capacity: nat, dst: seq<T>, value: T, newSize: nat)
    requires |dst| < capacity && |dst| <= newSize
    ensures EffectOf(PopBack, capacity, EffectOf(PushBack(value), capacity, dst, []).dst, []).dst == dst
    ensures var grown := EffectOf(Resize(newSize, value), capacity, dst, []).dst;
            EffectOf(Resize(|dst|, value), capacity, grown, []).dst == dst
  {
    EffectOnElements(PushBack(value), capacity, dst, []);
    EffectOnElements(PopBack, capacity, dst + [value], []);
    assert (dst + [value])[..|dst|] == dst;
    var grown := EffectOf(Resize(newSize, value), capacity, dst, []).dst;
    assert grown[..|dst|] == dst;
  }

  // ----- runs on many vectors -----

  datatype Vector<T> = Vector(capacity: nat, contents: seq<T>)

  datatype Store<T> = Store(vectors: seq<Vector<T>>, constructed: nat, destroyed: nat)

  /** Make adds an empty vector, from which the other constructors continue; Do applies an
      operation to one vector, with another (or the same) as its source; Drop is the destructor,
      which clears the vector. */
  datatype Step<T> = Make(capacity: nat) | Do(op: Op<T>, dst: nat, src: nat) | Drop(dst: nat)

  predicate Enabled<T>(s: Store<T>, step: Step<T>) {
    match step
    case Make(_) => true
    case Do(_, dst, src) =>
      dst < |s.vectors| && src < |s.vectors| && |s.vectors[dst].contents| <= s.vectors[dst].capacity
    case Drop(dst) => dst < |s.vectors| && |s.vectors[dst].contents| <= s.vectors[dst].capacity
  }

  function Apply<T>(s: Store<T>, step: Step<T>): Store<T>
    requires Enabled(s, step)
  {
    match step
    case Make(capacity) => s.(vectors := s.vectors + [Vector(capacity, [])])
    case Do(op, dst, src) =>
      if dst == src && (op.CopyFrom? || op.MoveFrom?) then s
      else
        var e := EffectOf(op, s.vectors[dst].capacity, s.vectors[dst].contents, s.vectors[src].contents);
        var moved := if op.MoveFrom? then s.vectors[src := s.vectors[src].(contents := e.src)] else s.vectors;
        Store(moved[dst := moved[dst].(contents := e.dst)], s.constructed + e.made, s.destroyed + e.gone)
    case Drop(dst) =>
      var e := EffectOf(Clear, s.vectors[dst].capacity, s.vectors[dst].contents, []);
      Store(s.vectors[..dst] + s.vectors[dst + 1..], s.constructed + e.made, s.destroyed + e.gone)
  }

  /** A step changes no vector but the one it names, and the source of a move. */
  lemma StepTouchesOnly<T>(s: Store<T>, step: Step<T>, i: nat)
    requires Enabled(s, step) && i < |s.vectors|
    ensures var s' := Apply(s, step);
            match step
            case Make(capacity) => s'.vectors == s.vectors + [Vector(capacity, [])]
            case Drop(dst) =>
              |s'.vectors| == |s.vectors| - 1 &&
              (i < dst ==> s'.vectors[i] == s.vectors[i]) && (i > dst ==> s'.vectors[i - 1] == s.vectors[i])
            case Do(op, dst, src) =>
              && |s'.vectors| == |s.vectors| && s'.vectors[i].capacity == s.vectors[i].capacity
              && (i != dst && !(op.MoveFrom? && i == src) ==> s'.vectors[i] == s.vectors[i])
  {
  }

  predicate IsRun<T>(s: Store<T>, steps: seq<Step<T>>)
    decreases |steps|
  {
    steps == [] || (Enabled(s, steps[0]) && IsRun(Apply(s, steps[0]), steps[1..]))
  }

  function Final<T>(s: Store<T>, steps: seq<Step<T>>): Store<T>
    requires IsRun(s, steps)
    decreases |steps|
  {
    if steps == [] then s else Final(Apply(s, steps[0]), steps[1..])
  }

  function Size<T>(): Vector<T> -> nat {
    (v: Vector<T>) => |v.contents|
  }

  ghost predicate Balanced<T>(s: Store<T>) {
    && s.constructed == s.destroyed + Sum(s.vectors, Size())
    && forall i :: 0 <= i < |s.vectors| ==> |s.vectors[i].contents| <= s.vectors[i].capacity
  }

  lemma StepKeepsBalance<T>(s: Store<T>, step: Step<T>)
    requires Balanced(s) && Enabled(s, step)
    ensures Balanced(Apply(s, step))
  {
    match step
    case Make(capacity) =>
      SumAppend(s.vectors, [Vector(capacity, [])], Size<T>());
    case Do(op, dst, src) =>
      if dst != src || !(op.CopyFrom? || op.MoveFrom?) {
        DoKeepsBalance(s, op, dst, src);
      }
    case Drop(dst) => DropKeepsBalance(s, dst);
  }

  lemma DropKeepsBalance<T>(s: Store<T>, dst: nat)
    requires Balanced(s) && dst < |s.vectors|
    ensures Enabled(s, Drop(dst)) && Balanced(Apply(s, Drop(dst)))
  {
    SumRemove(s.vectors, dst, Size<T>());
    assert Size<T>()(s.vectors[dst]) == |s.vectors[dst].contents|;
  }

  lemma DoKeepsBalance<T>(s: Store<T>, op: Op<T>, dst: nat, src: nat)
    requires Balanced(s) && dst < |s.vectors| && src < |s.vectors|
    requires dst == src ==> !op.CopyFrom? && !op.MoveFrom?
    ensures Enabled(s, Do(op, dst, src)) && Balanced(Apply(s, Do(op, dst, src)))
  {
    var d, r := s.vectors[dst], s.vectors[src];
    EffectBalances(op, d.capacity, d.contents, r.contents);
    var e := EffectOf(op, d.capacity, d.contents, r.contents);
    var d', r' := d.(contents := e.dst), r.(contents := e.src);
    var s' := Apply(s, Do(op, dst, src));
    if op.MoveFrom? {
      var moved := s.vectors[src := r'];
      SumUpdate(s.vectors, src, r', Size<T>());
      SumUpdate(moved, dst, d', Size<T>());
      assert s'.vectors == moved[dst := d'];
    } else {
      SumUpdate(s.vectors, dst, d', Size<T>());
      assert s'.vectors == s.vectors[dst := d'];
      assert e.src == r.contents;
    }
    assert Size<T>()(d) == |d.contents| && Size<T>()(d') == |e.dst|;
    assert Size<T>()(r) == |r.contents| && Size<T>()(r') == |e.src|;
  }

  /** Over any run, on any number of vectors of any capacities, the objects constructed and
      not yet destroyed are as many as the vectors hold, and no vector exceeds its capacity. */
  lemma {:induction false} RunKeepsBalance<T>(s: Store<T>, steps: seq<Step<T>>)
    requires Balanced(s) && IsRun(s, steps)
    ensures Balanced(Final(s, steps))
    decreases |steps|
  {
    if steps != [] {
      StepKeepsBalance(s, steps[0]);
      RunKeepsBalance(Apply(s, steps[0]), steps[1..]);
    }
  }

  /** Once every vector ever made is gone, every object ever constructed was destroyed. */
  lemma NothingLeaks<T>(s: Store<T>, steps: seq<Step<T>>)
    requires s.vectors == [] && s.constructed == s.destroyed == 0 && IsRun(s, steps)
    ensures Final(s, steps).vectors == [] ==> Final(s, steps).constructed == Final(s, steps).destroyed
  {
    RunKeepsBalance(s, steps);
  }
}

/** The vector object over raw storage. */
module FixedCapacityVector {
  import opened Arithmetic
  import opened Wrappers
  import opened Storage
  import opened VectorSpec

  /** Counts the constructions and destructions of elements in all vectors. */
  class Ledger {
    ghost var made: nat
    ghost var gone: nat

    constructor ()
      ensures made == 0 && gone == 0
    {
      made, gone := 0, 0;
    }
  }

  class FixedCapacityVector<T> {
    const capacity: nat
    const buffer: array<Slot<T>>
    const ledger: Ledger
    var size: nat
    ghost var contents: seq<T>

    /** Live objects are exactly the slots below the size. */
    ghost predicate Valid()
      reads this, buffer
    {
      && buffer.Length == capacity
      && size == |contents| <= capacity
      && (forall i :: 0 <= i < size ==> buffer[i] == Live(contents[i]))
      && (forall i :: size <= i < capacity ==> buffer[i] == Raw)
    }

    constructor (capacity: nat, ledger: Ledger)
      ensures Valid() && fresh(buffer)
      ensures this.capacity == capacity && this.ledger == ledger && contents == []
    {
      this.capacity := capacity;
      this.ledger := ledger;
      buffer := new Slot<T>[capacity](_ => Raw);
      size, contents := 0, [];
    }

    /** Placement new: the storage must hold no object. */
    method ConstructAt(i: nat, value: T)
      requires i < buffer.Length && buffer[i] == Raw
      modifies buffer, ledger`made
      ensures buffer[..] == old(buffer[..])[i := Live(value)]
      ensures ledger.made == old(ledger.made) + 1
    {
      buffer[i] := Live(value);
      ledger.made := ledger.made + 1;
    }

    /** destroy_at: there must be an object, possibly moved from. */
    method DestroyAt(i: nat)
      requires i < buffer.Length && buffer[i] != Raw
      modifies buffer, ledger`gone
      ensures buffer[..] == old(buffer[..])[i := Raw]
      ensures ledger.gone == old(ledger.gone) + 1
    {
      buffer[i] := Raw;
      ledger.gone := ledger.gone + 1;
    }

    method ClearAll()
      requires Valid()
      modifies this`size, this`contents, buffer, ledger`gone
      ensures Valid() && contents == []
      ensures ledger.gone == old(ledger.gone) + old(size)
    {
      if size == 0 {
        return;
      }
      var i := 0;
      while i < size
        invariant i <= size
        invariant forall j :: 0 <= j < i ==> buffer[j] == Raw
        invariant forall j :: i <= j < size ==> buffer[j] == Live(contents[j])
        invariant forall j :: size <= j < capacity ==> buffer[j] == Raw
        invariant ledger.gone == old(ledger.gone) + i
        modifies buffer, ledger`gone
      {
        ghost var was := buffer[..];
        DestroyAt(i);
        assert forall j :: 0 <= j < capacity ==>
                 buffer[j] == buffer[..][j] && was[j] == if j == i then was[i] else buffer[j];
        i := i + 1;
      }
      size, contents := 0, [];
    }

    /** The copy loop, into a vector without elements. */
    method CopyElements(other: FixedCapacityVector<T>)
      requires Valid() && other.Valid() && size == 0 && other.buffer != buffer && other != this
      requires other.size <= capacity
      modifies this`size, this`contents, buffer, ledger`made
      ensures Valid() && other.Valid() && contents == other.contents
      ensures ledger.made == old(ledger.made) + other.size
    {
      var i := 0;
      while i < other.size
        invariant i <= other.size && size == i
        invariant Valid() && other.Valid()
        invariant contents == other.contents[..i]
        invariant ledger.made == old(ledger.made) + i
      {
        ghost var was := buffer[..];
        assert buffer[i] == Raw;
        ConstructAt(i, other.buffer[i].value);
        size := size + 1;
        contents := contents + [other.contents[i]];
        assert forall j :: 0 <= j < capacity ==> buffer[j] == if j == i then Live(other.contents[i]) else was[j];
        i := i + 1;
      }
    }

    /** The move loop: each element is moved over and its shell destroyed at once. */
    method MoveElements(other: FixedCapacityVector<T>)
      requires Valid() && other.Valid() && size == 0 && other.buffer != buffer && other != this
      requires other.size <= capacity && other.ledger == ledger
      modifies this`size, this`contents, buffer, other`size, other`contents, other.buffer, ledger
      ensures Valid() && other.Valid() && contents == old(other.contents) && other.contents == []
      ensures ledger.made == old(ledger.made) + old(other.size)
      ensures ledger.gone == old(ledger.gone) + old(other.size)
    {
      var i := 0;
      ghost var moving := other.contents;
      while i < other.size
        invariant i <= other.size && size == i
        invariant Valid()
        invariant contents == moving[..i]
        invariant other.size == |moving| == old(other.size)
        invariant forall j :: 0 <= j < i ==> other.buffer[j] == Raw
        invariant forall j :: i <= j < other.size ==> other.buffer[j] == Live(moving[j])
        invariant forall j :: other.size <= j < other.capacity ==> other.buffer[j] == Raw
        invariant ledger.made == old(ledger.made) + i
        invariant ledger.gone == old(ledger.gone) + i
        modifies this`size, this`contents, buffer, other.buffer, ledger
      {
        MoveOne(other, i, moving[i]);
        contents := contents + [moving[i]];
        size := size + 1;
        i := i + 1;
      }
      other.size, other.contents := 0, [];
    }

    method MoveOne(other: FixedCapacityVector<T>, i: nat, ghost value: T)
      requires other.buffer != buffer && i < buffer.Length && i < other.buffer.Length && other.ledger == ledger
      requires buffer[i] == Raw && other.buffer[i] == Live(value)
      modifies buffer, other.buffer, ledger
      ensures forall j :: 0 <= j < buffer.Length ==> buffer[j] == if j == i then Live(value) else old(buffer[j])
      ensures forall j :: 0 <= j < other.buffer.Length ==>
                other.buffer[j] == if j == i then Raw else old(other.buffer[j])
      ensures ledger.made == old(ledger.made) + 1 && ledger.gone == old(ledger.gone) + 1
    {
      ghost var mine, theirs := buffer[..], other.buffer[..];
      ConstructAt(i, other.buffer[i].value);
      other.buffer[i] := MovedFrom;
      other.DestroyAt(i);
      assert buffer[..] == mine[i := Live(value)];
      assert other.buffer[..] == theirs[i := Raw];
      assert forall j :: 0 <= j < buffer.Length ==> buffer[j] == buffer[..][j];
      assert forall j :: 0 <= j < other.buffer.Length ==> other.buffer[j] == other.buffer[..][j];
    }

    /** Both copy constructors: only a source of another capacity can be too large. */
    static method CopyOf(capacity: nat, other: FixedCapacityVector<T>) returns (made: Result<FixedCapacityVector<T>>)
      requires other.Valid()
      modifies other.ledger`made
      ensures other.Valid()
      ensures var e := EffectOf(CopyFrom, capacity, [], other.contents);
              && other.ledger.made == old(other.ledger.made) + e.made
              && (match made
                  case Throw(x) => e.thrown == Some(x)
                  case Ok(v) => e.thrown == None && fresh(v) && fresh(v.buffer) && v.Valid()
                                && v.capacity == capacity && v.contents == e.dst)
      ensures made == Throw(LengthError) || made.Ok?
      ensures made.Throw? <==> |other.contents| > capacity
      ensures made.Ok? ==> made.value.contents == other.contents
      ensures other.contents == old(other.contents)
    {
      if other.capacity != capacity && other.size > capacity {
        return Throw(LengthError);
      }
      var v := new FixedCapacityVector<T>(capacity, other.ledger);
      v.CopyElements(other);
      made := Ok(v);
    }

    /** Both move constructors. */
    static method MoveOf(capacity: nat, other: FixedCapacityVector<T>) returns (made: Result<FixedCapacityVector<T>>)
      requires other.Valid()
      modifies other`size, other`contents, other.buffer, other.ledger
      ensures other.Valid()
      ensures var e := EffectOf(MoveFrom, capacity, [], old(other.contents));
              && other.contents == e.src
              && other.ledger.made == old(other.ledger.made) + e.made
              && other.ledger.gone == old(other.ledger.gone) + e.gone
              && (match made
                  case Throw(x) => e.thrown == Some(x)
                  case Ok(v) => e.thrown == None && fresh(v) && fresh(v.buffer) && v.Valid()
                                && v.capacity == capacity && v.contents == e.dst)
      ensures made == Throw(LengthError) || made.Ok?
      ensures made.Throw? <==> old(|other.contents|) > capacity
      ensures if made.Ok? then made.value.contents == old(other.contents) && other.contents == []
              else other.contents == old(other.contents)
    {
      if other.capacity != capacity && other.size > capacity {
        return Throw(LengthError);
      }
      var v := new FixedCapacityVector<T>(capacity, other.ledger);
      v.MoveElements(other);
      made := Ok(v);
    }

    /** Both copy assignments: a refused one happens before anything is destroyed. */
    method AssignCopy(other: FixedCapacityVector<T>) returns (thrown: Option<Exception>)
      requires Valid() && other.Valid() && other.ledger == ledger && (other == this || other.buffer != buffer)
      modifies this`size, this`contents, buffer, ledger
      ensures Valid() && other.Valid()
      ensures other == this ==> thrown == None && contents == old(contents)
                                && ledger.made == old(ledger.made) && ledger.gone == old(ledger.gone)
      ensures other != this ==>
                var e := EffectOf(CopyFrom, capacity, old(contents), other.contents);
                contents == e.dst && thrown == e.thrown
                && ledger.made == old(ledger.made) + e.made && ledger.gone == old(ledger.gone) + e.gone
      ensures thrown == if |other.contents| > capacity then Some(LengthError) else None
      ensures contents == if thrown == None then old(other.contents) else old(contents)
    {
      if this == other {
        return None;
      }
      if other.capacity > capacity && other.size > capacity {
        return Some(LengthError);
      }
      ClearAll();
      CopyElements(other);
      thrown := None;
    }

    /** Both move assignments. */
    method AssignMove(other: FixedCapacityVector<T>) returns (thrown: Option<Exception>)
      requires Valid() && other.Valid() && other.ledger == ledger && (other == this || other.buffer != buffer)
      modifies this`size, this`contents, buffer, other`size, other`contents, other.buffer, ledger
      ensures Valid() && other.Valid()
      ensures other == this ==> thrown == None && contents == old(contents)
                                && ledger.made == old(ledger.made) && ledger.gone == old(ledger.gone)
      ensures other != this ==>
                var e := EffectOf(MoveFrom, capacity, old(contents), old(other.contents));
                contents == e.dst && other.contents == e.src && thrown == e.thrown
                && ledger.made == old(ledger.made) + e.made && ledger.gone == old(ledger.gone) + e.gone
      ensures thrown == if old(|other.contents|) > capacity then Some(LengthError) else None
      ensures contents == if thrown == None then old(other.contents) else old(contents)
      ensures other != this ==> other.contents == if thrown == None then [] else old(other.contents)
    {
      if this == other {
        return None;
      }
      if other.capacity > capacity && other.size > capacity {
        return Some(LengthError);
      }
      ClearAll();
      MoveElements(other);
      thrown := None;
    }

    /** Both push_back overloads and emplace_back. */
    method Append(value: T) returns (thrown: Option<Exception>)
      requires Valid()
      modifies this`size, this`contents, buffer, ledger`made
      ensures Valid()
      ensures var e := EffectOf(PushBack(value), capacity, old(contents), []);
              contents == e.dst && thrown == e.thrown && ledger.made == old(ledger.made) + e.made
      ensures thrown == if old(|contents|) == capacity then Some(LengthError) else None
      ensures contents == old(contents) + (if thrown == None then [value] else [])
    {
      if size == capacity {
        return Some(LengthError);
      }
      ghost var was := buffer[..];
      assert buffer[size] == Raw;
      ConstructAt(size, value);
      size := size + 1;
      contents := contents + [value];
      assert forall j :: 0 <= j < capacity ==> buffer[j] == if j == size - 1 then Live(value) else was[j];
      thrown := None;
    }

    method RemoveLast() returns (thrown: Option<Exception>)
      requires Valid()
      modifies this`size, this`contents, buffer, ledger`gone
      ensures Valid()
      ensures var e := EffectOf(PopBack, capacity, old(contents), []);
              contents == e.dst && thrown == e.thrown && ledger.gone == old(ledger.gone) + e.gone
      ensures thrown == if old(contents) == [] then Some(OutOfRange) else None
      ensures if thrown == None then exists x :: old(contents) == contents + [x] else contents == old(contents)
    {
      if size == 0 {
        return Some(OutOfRange);
      }
      ghost var was := buffer[..];
      size := size - 1;
      assert buffer[size] != Raw;
      DestroyAt(size);
      assert contents == contents[..size] + [contents[size]];
      contents := contents[..size];
      assert forall j :: 0 <= j < capacity ==> buffer[j] == if j == size then Raw else was[j];
      thrown := None;
    }

    /** Growing past the capacity throws, but only after the vector was filled up. */
    method ResizeTo(newSize: nat, fill: T) returns (thrown: Option<Exception>)
      requires Valid()
      modifies this`size, this`contents, buffer, ledger
      ensures Valid()
      ensures var e := EffectOf(Resize(newSize, fill), capacity, old(contents), []);
              contents == e.dst && thrown == e.thrown
              && ledger.made == old(ledger.made) + e.made && ledger.gone == old(ledger.gone) + e.gone
      ensures thrown == if newSize > capacity then Some(LengthError) else None
      ensures |contents| == Min(newSize, capacity)
      ensures if newSize <= old(|contents|) then contents <= old(contents) else old(contents) <= contents
      ensures forall i :: old(|contents|) <= i < |contents| ==> contents[i] == fill
    {
      if size == newSize {
        return None;
      }
      while size > newSize
        invariant Valid()
        invariant Min(old(size), newSize) <= size <= old(size)
        invariant contents == old(contents)[..size]
        invariant ledger.made == old(ledger.made) && ledger.gone == old(ledger.gone) + (old(size) - size)
      {
        var never := RemoveLast();
      }
      while size < newSize
        invariant Valid()
        invariant old(size) <= newSize ==> old(size) <= size <= newSize
        invariant old(size) <= newSize ==> contents == old(contents) + Fill(size - old(size), fill)
        invariant old(size) <= newSize ==>
                    ledger.gone == old(ledger.gone) && ledger.made == old(ledger.made) + (size - old(size))
        invariant old(size) > newSize ==>
                    && size == newSize && contents == old(contents)[..newSize]
                    && ledger.made == old(ledger.made) && ledger.gone == old(ledger.gone) + (old(size) - newSize)
        decreases newSize - size
      {
        thrown := Append(fill);
        if thrown.Some? {
          return;
        }
      }
      thrown := None;
    }
  }
}
