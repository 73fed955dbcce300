/** The lock-free ring for one producer and one consumer, split into its atomic actions.

    An acquire load of the other side's index may return a stale value: any value that
    index ever had, as long as it is not older than what the same thread read before.
    Indices are modular; the unbounded counters behind them are the lengths of the
    histories `accepted` and `popped`. */
module SpscProtocol {
  import opened Arithmetic
  import opened Wrappers
  import opened Storage

  /** Position of the producer inside try_push, with its local variables. */
  datatype Producer<T> = PIdle
                       | PLoaded(value: T, write: nat)
                       | PRoom(value: T, write: nat, next: nat)
                       | PBuilt(value: T, next: nat)

  /** Position of the consumer inside try_pop, with its local variables. */
  datatype Consumer<T> = CIdle
                       | CLoaded(read: nat)
                       | CFound(read: nat)
                       | CMoved(read: nat, result: T)
                       | CDestroyed(read: nat, result: T)

  /** `seenReads` is the newest count of pops the producer has learned about, `seenWrites`
      the newest count of pushes the consumer has learned about. */
  datatype State<T> = State(
    capacity: nat,
    slots: seq<Slot<T>>,
    readIndex: nat,
    writeIndex: nat,
    producer: Producer<T>,
    consumer: Consumer<T>,
    seenReads: nat,
    seenWrites: nat,
    accepted: seq<T>,
    popped: seq<T>)
  {
    function Size(): nat { capacity + 1 }

    function R(): nat { |popped| }

    function W(): nat { |accepted| }
  }

  datatype Step<T> = PushLoad(value: T)
                   | PushAcquire(readCount: nat)
                   | PushConstruct
                   | PushStore
                   | PopLoad
                   | PopAcquire(writeCount: nat)
                   | PopMove
                   | PopDestroy
                   | PopStore

  /** The slot that counter value k falls into. */
  function Pos(k: nat, size: nat): (p: nat)
    requires size > 0
    ensures p < size
  {
    k % size
  }

  predicate Enabled<T>(s: State<T>, step: Step<T>) {
    match step
    case PushLoad(_) => s.producer.PIdle?
    case PushAcquire(readCount) => s.producer.PLoaded? && s.seenReads <= readCount <= s.R()
    case PushConstruct => s.producer.PRoom? && s.producer.write < |s.slots|
    case PushStore => s.producer.PBuilt?
    case PopLoad => s.consumer.CIdle?
    case PopAcquire(writeCount) => s.consumer.CLoaded? && s.seenWrites <= writeCount <= s.W()
    case PopMove => s.consumer.CFound? && s.consumer.read < |s.slots| && s.slots[s.consumer.read].Live?
    case PopDestroy => s.consumer.CMoved? && s.consumer.read < |s.slots|
    case PopStore => s.consumer.CDestroyed?
  }

  function Apply<T>(s: State<T>, step: Step<T>): State<T>
    requires Enabled(s, step)
  {
    match step
    case PushLoad(value) => s.(producer := PLoaded(value, s.writeIndex))
    case PushAcquire(readCount) =>
      var write := s.producer.write;
      var next := (write + 1) % s.Size();
      if next == Pos(readCount, s.Size())
      then s.(producer := PIdle, seenReads := readCount)
      else s.(producer := PRoom(s.producer.value, write, next), seenReads := readCount)
    case PushConstruct =>
      s.(slots := s.slots[s.producer.write := Live(s.producer.value)],
         producer := PBuilt(s.producer.value, s.producer.next))
    case PushStore =>
      s.(writeIndex := s.producer.next, accepted := s.accepted + [s.producer.value], producer := PIdle)
    case PopLoad => s.(consumer := CLoaded(s.readIndex))
    case PopAcquire(writeCount) =>
      var read := s.consumer.read;
      if read == Pos(writeCount, s.Size())
      then s.(consumer := CIdle, seenWrites := writeCount)
      else s.(consumer := CFound(read), seenWrites := writeCount)
    case PopMove =>
      var read := s.consumer.read;
      s.(slots := s.slots[read := MovedFrom], consumer := CMoved(read, s.slots[read].value))
    case PopDestroy =>
      s.(slots := s.slots[s.consumer.read := Raw],
         consumer := CDestroyed(s.consumer.read, s.consumer.result))
    case PopStore =>
      s.(readIndex := (s.consumer.read + 1) % s.Size(), popped := s.popped + [s.consumer.result],
         consumer := CIdle)
  }

  predicate IsRun<T>(s: State<T>, steps: seq<Step<T>>)
    decreases |steps|
  {
    steps == [] || (Enabled(s, steps[0]) && IsRun(Apply(s, steps[0]), steps[1..]))
  }

  function Final<T>(s: State<T>, steps: seq<Step<T>>): State<T>
    requires IsRun(s, steps)
    decreases |steps|
  {
    if steps == [] then s else Final(Apply(s, steps[0]), steps[1..])
  }

  function Start<T>(capacity: nat): State<T> {
    State(capacity, seq(capacity + 1, _ => Raw), 0, 0, PIdle, CIdle, 0, 0, [], [])
  }

  // ----- modular arithmetic -----

  /** Counters less than one ring apart share a slot only if they are equal. */
  lemma PosInjective(j: nat, k: nat, size: nat)
    requires size > 0 && j <= k < j + size
    ensures Pos(j, size) == Pos(k, size) <==> j == k
  {
    var q := j / size;
    assert j == size * q + Pos(j, size);
    if Pos(j, size) + (k - j) < size {
      DivModUnique(k, size, q, Pos(j, size) + (k - j));
    } else {
      assert size * (q + 1) == size * q + size;
      DivModUnique(k, size, q + 1, Pos(j, size) + (k - j) - size);
    }
  }

  lemma PosNext(k: nat, size: nat)
    requires size > 0
    ensures Pos(k + 1, size) == (Pos(k, size) + 1) % size
    ensures Pos(k + size, size) == Pos(k, size)
  {
    var q, r := k / size, k % size;
    assert k == size * q + r;
    if r + 1 < size {
      DivModUnique(k + 1, size, q, r + 1);
      DivModUnique(r + 1, size, 0, r + 1);
    } else {
      assert size * (q + 1) == size * q + size;
      DivModUnique(k + 1, size, q + 1, 0);
      DivModUnique(r + 1, size, 1, 0);
    }
    assert size * (q + 1) == size * q + size;
    DivModUnique(k + size, size, q + 1, r);
  }

  // ----- invariant -----

  /** What slot Pos(k) holds, for the counters k of one ring length from the read counter on:
      the elements of the window [R, W), adjusted for the one construction and the one
      move-out or destruction that may be in flight. */
  ghost function Expected<T>(s: State<T>, k: nat): Slot<T>
    requires s.R() <= k
  {
    if k < s.W() then
      (if k == s.R() && s.consumer.CMoved? then MovedFrom
       else if k == s.R() && s.consumer.CDestroyed? then Raw
       else Live(s.accepted[k]))
    else if k == s.W() && s.producer.PBuilt? then Live(s.producer.value)
    else Raw
  }

  ghost predicate SlotInv<T>(s: State<T>) {
    && |s.slots| == s.Size()
    && forall k :: s.R() <= k < s.R() + s.Size() ==> s.slots[Pos(k, s.Size())] == Expected(s, k)
  }

  ghost predicate CounterInv<T>(s: State<T>) {
    && s.seenReads <= s.R() <= s.seenWrites <= s.W() <= s.seenReads + s.capacity
    && s.popped == s.accepted[..s.R()]
    && s.writeIndex == Pos(s.W(), s.Size())
    && s.readIndex == Pos(s.R(), s.Size())
  }

  ghost predicate ProducerInv<T>(s: State<T>) {
    match s.producer
    case PIdle => true
    case PLoaded(_, write) => write == s.writeIndex
    case PRoom(_, write, next) =>
      write == s.writeIndex && next == Pos(s.W() + 1, s.Size()) && s.W() < s.seenReads + s.capacity
    case PBuilt(_, next) => next == Pos(s.W() + 1, s.Size()) && s.W() < s.seenReads + s.capacity
  }

  ghost predicate ConsumerInv<T>(s: State<T>) {
    match s.consumer
    case CIdle => true
    case CLoaded(read) => read == s.readIndex
    case CFound(read) => read == s.readIndex && s.R() < s.seenWrites
    case CMoved(read, result) =>
      read == s.readIndex && s.R() < s.seenWrites <= s.W() && result == s.accepted[s.R()]
    case CDestroyed(read, result) =>
      read == s.readIndex && s.R() < s.seenWrites <= s.W() && result == s.accepted[s.R()]
  }

  ghost predicate Inv<T>(s: State<T>) {
    CounterInv(s) && ProducerInv(s) && ConsumerInv(s) && SlotInv(s)
  }

  lemma StartInv<T>(capacity: nat)
    ensures Inv(Start<T>(capacity))
  {
  }

  /** The full test compares modular indices, yet decides exactly whether the counters it
      stands for are one capacity apart, for every value the load may return. */
  lemma FullTestIsExact<T>(s: State<T>, readCount: nat)
    requires Inv(s) && Enabled(s, PushAcquire(readCount))
    ensures Apply(s, PushAcquire(readCount)).producer.PIdle? <==> s.W() == readCount + s.capacity
  {
    PosNext(s.W(), s.Size());
    PosNext(readCount, s.Size());
    PosInjective(s.W() + 1, readCount + s.Size(), s.Size());
  }

  lemma EmptyTestIsExact<T>(s: State<T>, writeCount: nat)
    requires Inv(s) && Enabled(s, PopAcquire(writeCount))
    ensures Apply(s, PopAcquire(writeCount)).consumer.CIdle? <==> s.R() == writeCount
  {
    PosInjective(s.R(), writeCount, s.Size());
  }

  lemma StepKeepsSlots<T>(s: State<T>, step: Step<T>)
    requires Inv(s) && Enabled(s, step) && !step.PushAcquire? && !step.PopAcquire?
    ensures SlotInv(Apply(s, step))
  {
    var s' := Apply(s, step);
    forall k | s'.R() <= k < s'.R() + s'.Size()
      ensures s'.slots[Pos(k, s'.Size())] == Expected(s', k)
    {
      if step.PopStore? && k == s.R() + s.Size() {
        PosNext(s.R(), s.Size());
        assert s.slots[Pos(s.R(), s.Size())] == Expected(s, s.R());
      } else {
        assert s.slots[Pos(k, s.Size())] == Expected(s, k);
        PosInjective(s.R(), k, s.Size());
        if k <= s.W() {
          PosInjective(k, s.W(), s.Size());
        } else {
          PosInjective(s.W(), k, s.Size());
        }
      }
    }
  }

  /** A step of control that neither touches a slot nor ends a call with an effect. */
  lemma ControlKeepsSlots<T>(s: State<T>, s': State<T>)
    requires SlotInv(s)
    requires s'.capacity == s.capacity && s'.slots == s.slots
    requires s'.accepted == s.accepted && s'.popped == s.popped
    requires s.producer == s'.producer || (!s.producer.PBuilt? && !s'.producer.PBuilt?)
    requires s.consumer == s'.consumer || (s.consumer.CLoaded? && (s'.consumer.CIdle? || s'.consumer.CFound?))
    ensures SlotInv(s')
  {
    forall k | s'.R() <= k < s'.R() + s'.Size() ensures s'.slots[Pos(k, s'.Size())] == Expected(s', k) {
      assert s.slots[Pos(k, s.Size())] == Expected(s, k);
    }
  }

  lemma PushAcquireKeepsInv<T>(s: State<T>, step: Step<T>)
    requires Inv(s) && Enabled(s, step) && step.PushAcquire?
    ensures Inv(Apply(s, step))
  {
    FullTestIsExact(s, step.readCount);
    PosNext(s.W(), s.Size());
    var s' := Apply(s, step);
    ControlKeepsSlots(s, s');
    assert CounterInv(s') && ProducerInv(s') && ConsumerInv(s');
  }

  lemma PushStepKeepsInv<T>(s: State<T>, step: Step<T>)
    requires Inv(s) && Enabled(s, step)
    requires step.PushLoad? || step.PushConstruct? || step.PushStore?
    ensures Inv(Apply(s, step))
  {
    StepKeepsSlots(s, step);
    assert CounterInv(Apply(s, step));
  }

  lemma PopAcquireKeepsInv<T>(s: State<T>, step: Step<T>)
    requires Inv(s) && Enabled(s, step) && step.PopAcquire?
    ensures Inv(Apply(s, step))
  {
    EmptyTestIsExact(s, step.writeCount);
    var s' := Apply(s, step);
    ControlKeepsSlots(s, s');
    assert CounterInv(s') && ProducerInv(s') && ConsumerInv(s');
  }

  lemma PopStoreKeepsInv<T>(s: State<T>, step: Step<T>)
    requires Inv(s) && Enabled(s, step) && step.PopStore?
    ensures Inv(Apply(s, step))
  {
    StepKeepsSlots(s, step);
    PosNext(s.R(), s.Size());
    var s' := Apply(s, step);
    assert CounterInv(s') && ProducerInv(s') && ConsumerInv(s');
  }

  lemma PopStepKeepsInv<T>(s: State<T>, step: Step<T>)
    requires Inv(s) && Enabled(s, step)
    requires step.PopLoad? || step.PopMove? || step.PopDestroy?
    ensures Inv(Apply(s, step))
  {
    StepKeepsSlots(s, step);
    assert s.slots[Pos(s.R(), s.Size())] == Expected(s, s.R());
  }

  lemma StepKeepsInv<T>(s: State<T>, step: Step<T>)
    requires Inv(s) && Enabled(s, step)
    ensures Inv(Apply(s, step))
  {
    if step.PushAcquire? {
      PushAcquireKeepsInv(s, step);
    } else if step.PushLoad? || step.PushConstruct? || step.PushStore? {
      PushStepKeepsInv(s, step);
    } else if step.PopAcquire? {
      PopAcquireKeepsInv(s, step);
    } else if step.PopStore? {
      PopStoreKeepsInv(s, step);
    } else {
      PopStepKeepsInv(s, step);
    }
  }

  /** Every state of every interleaving satisfies the invariant. */
  lemma {:induction false} RunKeepsInv<T>(s: State<T>, steps: seq<Step<T>>)
    requires Inv(s) && IsRun(s, steps)
    ensures Inv(Final(s, steps)) && Final(s, steps).capacity == s.capacity
    decreases |steps|
  {
    if steps != [] {
      StepKeepsInv(s, steps[0]);
      RunKeepsInv(Apply(s, steps[0]), steps[1..]);
    }
  }

  // ----- what every interleaving promises -----

  /** Nothing is lost, duplicated or reordered, and the bound is kept. */
  lemma PopsArePrefixOfPushes<T>(capacity: nat, steps: seq<Step<T>>)
    requires IsRun(Start<T>(capacity), steps)
    ensures var s := Final(Start<T>(capacity), steps);
            s.popped <= s.accepted && |s.accepted| - |s.popped| <= capacity
  {
    StartInv<T>(capacity);
    RunKeepsInv(Start<T>(capacity), steps);
  }

  /** The slot the producer is about to construct in, or the consumer is about to touch. */
  function ProducerSlot<T>(s: State<T>): Option<nat> {
    if s.producer.PRoom? then Some(s.producer.write) else None
  }

  function ConsumerSlot<T>(s: State<T>): Option<nat> {
    if s.consumer.CFound? || s.consumer.CMoved? || s.consumer.CDestroyed? then Some(s.consumer.read) else None
  }

  /** Construction hits raw storage, move-out hits a live object and gets the next element
      in order, destruction hits the moved-from object, and both sides never use one slot. */
  lemma SlotsAreSafe<T>(capacity: nat, steps: seq<Step<T>>)
    requires IsRun(Start<T>(capacity), steps)
    ensures var s := Final(Start<T>(capacity), steps);
            && (s.producer.PRoom? ==> s.producer.write < |s.slots| && s.slots[s.producer.write] == Raw)
            && (s.consumer.CFound? ==> s.R() < s.W() && s.consumer.read < |s.slots|
                                       && s.slots[s.consumer.read] == Live(s.accepted[s.R()]))
            && (s.consumer.CMoved? ==> s.consumer.read < |s.slots| && s.slots[s.consumer.read] == MovedFrom)
            && (ProducerSlot(s).Some? ==> ProducerSlot(s) != ConsumerSlot(s))
  {
    StartInv<T>(capacity);
    RunKeepsInv(Start<T>(capacity), steps);
    var s := Final(Start<T>(capacity), steps);
    assert s.slots[Pos(s.R(), s.Size())] == Expected(s, s.R());
    if s.producer.PRoom? {
      assert s.slots[Pos(s.W(), s.Size())] == Expected(s, s.W());
      PosInjective(s.R(), s.W(), s.Size());
    }
  }

  /** The consumer has touched, or is touching, the slot of element k. */
  predicate ConsumerTouched<T>(s: State<T>, k: nat) {
    k < s.R() || (k == s.R() && ConsumerSlot(s).Some?)
  }

  /** The producer has touched, or is touching, the slot of element k. */
  predicate ProducerTouched<T>(s: State<T>, k: nat) {
    k < s.W() || (k == s.W() && (s.producer.PRoom? || s.producer.PBuilt?))
  }

  /** No data race. When the producer constructs in a slot, every pop that ever touched that
      slot is complete and was published by a store that the producer's acquire loads have
      read; and when the consumer moves out of a slot, so is every push that touched it. */
  lemma SlotTouchesAreOrdered<T>(capacity: nat, steps: seq<Step<T>>, k: nat)
    requires IsRun(Start<T>(capacity), steps)
    ensures var s := Final(Start<T>(capacity), steps);
            && (s.producer.PRoom? && ConsumerTouched(s, k) && Pos(k, s.Size()) == s.producer.write
                ==> k < s.seenReads)
            && (s.consumer.CFound? && ProducerTouched(s, k) && Pos(k, s.Size()) == s.consumer.read
                ==> k < s.seenWrites)
  {
    StartInv<T>(capacity);
    RunKeepsInv(Start<T>(capacity), steps);
    var s := Final(Start<T>(capacity), steps);
    if s.producer.PRoom? && ConsumerTouched(s, k) && s.seenReads <= k {
      PosInjective(k, s.W(), s.Size());
    }
    if s.consumer.CFound? && ProducerTouched(s, k) && s.seenWrites <= k {
      PosInjective(s.R(), k, s.Size());
    }
  }

  /** With a load of the current index, a push is refused exactly when the ring is full, and a
      pop exactly when it is empty. With any coherent load, a refused push has read the count
      of pops that the producer already knew, and all capacity pushes after it are made; a
      refused pop has read the count of pushes that the consumer already knew, and has popped
      them all. */
  lemma RefusalsAreJustified<T>(capacity: nat, steps: seq<Step<T>>, n: nat)
    requires IsRun(Start<T>(capacity), steps)
    ensures var s := Final(Start<T>(capacity), steps);
            && (Enabled(s, PushAcquire(s.R())) ==>
                  (Apply(s, PushAcquire(s.R())).producer.PIdle? <==> s.W() - s.R() == capacity))
            && (Enabled(s, PopAcquire(s.W())) ==>
                  (Apply(s, PopAcquire(s.W())).consumer.CIdle? <==> s.W() == s.R()))
            && (Enabled(s, PushAcquire(n)) && Apply(s, PushAcquire(n)).producer.PIdle? ==>
                  n == s.seenReads && s.W() == n + capacity)
            && (Enabled(s, PopAcquire(n)) && Apply(s, PopAcquire(n)).consumer.CIdle? ==>
                  s.seenWrites == n == s.R())
  {
    StartInv<T>(capacity);
    RunKeepsInv(Start<T>(capacity), steps);
    var s := Final(Start<T>(capacity), steps);
    if s.producer.PLoaded? {
      FullTestIsExact(s, s.R());
      if Enabled(s, PushAcquire(n)) {
        FullTestIsExact(s, n);
      }
    }
    if s.consumer.CLoaded? {
      EmptyTestIsExact(s, s.W());
      if Enabled(s, PopAcquire(n)) {
        EmptyTestIsExact(s, n);
      }
    }
  }

  predicate NeverFull<T>(s: State<T>, steps: seq<Step<T>>)
    requires IsRun(s, steps)
    decreases |steps|
  {
    s.W() - s.R() < s.capacity && (steps == [] || NeverFull(Apply(s, steps[0]), steps[1..]))
  }

  /** One more step of a run that is nowhere full. */
  lemma {:induction false} OneMore<T>(s: State<T>, steps: seq<Step<T>>, step: Step<T>)
    requires IsRun(s, steps) && NeverFull(s, steps) && Enabled(Final(s, steps), step)
    requires var s' := Apply(Final(s, steps), step); s'.W() - s'.R() < s'.capacity
    ensures IsRun(s, steps + [step]) && NeverFull(s, steps + [step])
    ensures Final(s, steps + [step]) == Apply(Final(s, steps), step)
    decreases |steps|
  {
    if steps == [] {
      assert steps + [step] == [step];
    } else {
      assert (steps + [step])[1..] == steps[1..] + [step];
      OneMore(Apply(s, steps[0]), steps[1..], step);
    }
  }

  /** One push, and a second one that has loaded the index. */
  lemma SecondPushHasLoaded<T>(v: T) returns (steps: seq<Step<T>>)
    ensures IsRun(Start<T>(2), steps) && NeverFull(Start<T>(2), steps)
    ensures Final(Start<T>(2), steps) ==
            State(2, [Live(v), Raw, Raw], 0, 1, PRoom(v, 1, 2), CIdle, 0, 0, [v], [])
  {
    steps := [];
    OneMore(Start(2), steps, PushLoad(v));
    steps := steps + [PushLoad(v)];
    OneMore(Start(2), steps, PushAcquire(0));
    steps := steps + [PushAcquire(0)];
    OneMore(Start(2), steps, PushConstruct);
    steps := steps + [PushConstruct];
    OneMore(Start(2), steps, PushStore);
    steps := steps + [PushStore];
    OneMore(Start(2), steps, PushLoad(v));
    steps := steps + [PushLoad(v)];
    OneMore(Start(2), steps, PushAcquire(0));
    steps := steps + [PushAcquire(0)];
  }

  /** A stale load can refuse a push although the ring is not full in any state of the run:
      an element popped between the second push's load and its store goes unnoticed. */
  lemma StaleRefusal<T>(v: T) returns (steps: seq<Step<T>>)
    ensures IsRun(Start<T>(2), steps) && NeverFull(Start<T>(2), steps)
    ensures var s := Final(Start<T>(2), steps);
            Enabled(s, PushAcquire(0)) && Apply(s, PushAcquire(0)).producer.PIdle? && s.W() - s.R() == 1
  {
    steps := SecondPushHasLoaded(v);
    OneMore(Start(2), steps, PopLoad);
    steps := steps + [PopLoad];
    OneMore(Start(2), steps, PopAcquire(1));
    steps := steps + [PopAcquire(1)];
    OneMore(Start(2), steps, PopMove);
    steps := steps + [PopMove];
    OneMore(Start(2), steps, PopDestroy);
    steps := steps + [PopDestroy];
    OneMore(Start(2), steps, PopStore);
    steps := steps + [PopStore];
    OneMore(Start(2), steps, PushConstruct);
    steps := steps + [PushConstruct];
    OneMore(Start(2), steps, PushStore);
    steps := steps + [PushStore];
    OneMore(Start(2), steps, PushLoad(v));
    steps := steps + [PushLoad(v)];
  }

  // ----- what is accepted is what was offered -----

  /** The values of the calls in a list of steps that reach their store; `offered` is the value
      of the call that is in progress at its start. */
  function ValuesOfStores<T>(steps: seq<Step<T>>, offered: Option<T>): seq<T> {
    if steps == [] then []
    else if steps[0].PushLoad? then ValuesOfStores(steps[1..], Some(steps[0].value))
    else if steps[0].PushStore? && offered.Some? then [offered.value] + ValuesOfStores(steps[1..], offered)
    else ValuesOfStores(steps[1..], offered)
  }

  ghost predicate Offers<T>(s: State<T>, offered: Option<T>) {
    !s.producer.PIdle? ==> offered == Some(s.producer.value)
  }

  lemma {:induction false} RunStores<T>(s: State<T>, steps: seq<Step<T>>, offered: Option<T>)
    requires IsRun(s, steps) && Offers(s, offered)
    ensures Final(s, steps).accepted == s.accepted + ValuesOfStores(steps, offered)
    decreases |steps|
  {
    if steps != [] {
      var now := if steps[0].PushLoad? then Some(steps[0].value) else offered;
      RunStores(Apply(s, steps[0]), steps[1..], now);
    }
  }

  /** Under every interleaving, the accepted values are those of the try_push calls that
      reached their store, in order. */
  lemma {:induction false} AcceptedAreOffered<T>(capacity: nat, steps: seq<Step<T>>)
    requires IsRun(Start<T>(capacity), steps)
    ensures Final(Start<T>(capacity), steps).accepted == ValuesOfStores(steps, None)
  {
    RunStores(Start<T>(capacity), steps, None);
  }

  // ----- calls end -----

  predicate IsPushStep<T>(step: Step<T>) {
    step.PushLoad? || step.PushAcquire? || step.PushConstruct? || step.PushStore?
  }

  /** How many atomic actions a call of either side still has before it at most. */
  function ProducerRank<T>(s: State<T>): nat {
    match s.producer
    case PIdle => 0
    case PLoaded(_, _) => 3
    case PRoom(_, _, _) => 2
    case PBuilt(_, _) => 1
  }

  function ConsumerRank<T>(s: State<T>): nat {
    match s.consumer
    case CIdle => 0
    case CLoaded(_) => 4
    case CFound(_) => 3
    case CMoved(_, _) => 2
    case CDestroyed(_, _) => 1
  }

  /** A side's own step brings its call closer to the return; the other side's steps leave it alone. */
  lemma StepRanks<T>(s: State<T>, step: Step<T>)
    requires Enabled(s, step)
    ensures var s' := Apply(s, step);
            if IsPushStep(step)
            then s'.consumer == s.consumer && (!step.PushLoad? ==> ProducerRank(s') < ProducerRank(s))
            else s'.producer == s.producer && (!step.PopLoad? ==> ConsumerRank(s') < ConsumerRank(s))
  {
  }

  function PushSteps<T>(steps: seq<Step<T>>): nat {
    if steps == [] then 0 else (if IsPushStep(steps[0]) then 1 else 0) + PushSteps(steps[1..])
  }

  function PopSteps<T>(steps: seq<Step<T>>): nat {
    if steps == [] then 0 else (if IsPushStep(steps[0]) then 0 else 1) + PopSteps(steps[1..])
  }

  lemma {:induction false} OwnStepsBound<T>(s: State<T>, steps: seq<Step<T>>)
    requires IsRun(s, steps)
    ensures (forall i :: 0 <= i < |steps| ==> !steps[i].PushLoad?) ==>
              PushSteps(steps) + ProducerRank(Final(s, steps)) <= ProducerRank(s)
    ensures (forall i :: 0 <= i < |steps| ==> !steps[i].PopLoad?) ==>
              PopSteps(steps) + ConsumerRank(Final(s, steps)) <= ConsumerRank(s)
    decreases |steps|
  {
    if steps != [] {
      StepRanks(s, steps[0]);
      assert forall i :: 0 <= i < |steps[1..]| ==> steps[1..][i] == steps[i + 1];
      OwnStepsBound(Apply(s, steps[0]), steps[1..]);
    }
  }

  /** Wait-freedom: in every reachable state, whatever the other side is doing, a call in
      progress has a next step of its own. However the two sides interleave from there, a
      try_push in progress takes at most three more steps of its own and a try_pop four. */
  lemma CallsAreWaitFree<T>(capacity: nat, steps: seq<Step<T>>, more: seq<Step<T>>)
    requires IsRun(Start<T>(capacity), steps) && IsRun(Final(Start<T>(capacity), steps), more)
    ensures var s := Final(Start<T>(capacity), steps);
            && (s.producer.PLoaded? ==> Enabled(s, PushAcquire(s.R())))
            && (s.producer.PRoom? ==> Enabled(s, PushConstruct))
            && (s.producer.PBuilt? ==> Enabled(s, PushStore))
            && (s.consumer.CLoaded? ==> Enabled(s, PopAcquire(s.W())))
            && (s.consumer.CFound? ==> Enabled(s, PopMove))
            && (s.consumer.CMoved? ==> Enabled(s, PopDestroy))
            && (s.consumer.CDestroyed? ==> Enabled(s, PopStore))
    ensures (forall i :: 0 <= i < |more| ==> !more[i].PushLoad?) ==> PushSteps(more) <= 3
    ensures (forall i :: 0 <= i < |more| ==> !more[i].PopLoad?) ==> PopSteps(more) <= 4
  {
    SlotsAreSafe(capacity, steps);
    StartInv<T>(capacity);
    RunKeepsInv(Start<T>(capacity), steps);
    OwnStepsBound(Final(Start<T>(capacity), steps), more);
  }
}

/** The ring object, with try_push and try_pop run to completion. */
module SpscQueue {
  import opened Wrappers
  import opened Storage
  import opened SpscProtocol
  import opened BoundedFifo

  /** The steps of one uninterrupted call, whose acquire load returns the current index. */
  function SoloSteps<T>(s: State<T>, request: Request<T>): seq<Step<T>> {
    match request
    case Put(value) =>
      [PushLoad(value), PushAcquire(s.R())]
      + (if s.W() - s.R() < s.capacity then [PushConstruct, PushStore] else [])
    case Take =>
      [PopLoad, PopAcquire(s.W())]
      + (if s.R() < s.W() then [PopMove, PopDestroy, PopStore] else [])
  }

  lemma OneStep<T>(s: State<T>, step: Step<T>, rest: seq<Step<T>>)
    requires Enabled(s, step)
    ensures IsRun(s, [step] + rest) <==> IsRun(Apply(s, step), rest)
    ensures IsRun(s, [step] + rest) ==> Final(s, [step] + rest) == Final(Apply(s, step), rest)
  {
    assert ([step] + rest)[1..] == rest;
  }

  function Pushed<T>(s: State<T>, value: T): State<T>
    requires s.writeIndex < |s.slots|
  {
    s.(slots := s.slots[s.writeIndex := Live(value)],
       writeIndex := (s.writeIndex + 1) % s.Size(),
       accepted := s.accepted + [value],
       seenReads := s.R())
  }

  function Popped<T>(s: State<T>, value: T): State<T>
    requires s.readIndex < |s.slots|
  {
    s.(slots := s.slots[s.readIndex := Raw],
       readIndex := (s.readIndex + 1) % s.Size(),
       popped := s.popped + [value],
       seenWrites := s.W())
  }

  lemma PushStepsWithRoom<T>(s: State<T>, value: T)
    requires s.producer.PIdle? && s.writeIndex < |s.slots| && s.seenReads <= s.R()
    requires (s.writeIndex + 1) % s.Size() != Pos(s.R(), s.Size())
    ensures var steps := [PushLoad(value), PushAcquire(s.R()), PushConstruct, PushStore];
            IsRun(s, steps) && Final(s, steps) == Pushed(s, value)
  {
    var s1 := Apply(s, PushLoad(value));
    var s2 := Apply(s1, PushAcquire(s.R()));
    var s3 := Apply(s2, PushConstruct);
    OneStep(s3, PushStore, []);
    OneStep(s2, PushConstruct, [PushStore]);
    OneStep(s1, PushAcquire(s.R()), [PushConstruct] + [PushStore]);
    OneStep(s, PushLoad(value), [PushAcquire(s.R())] + ([PushConstruct] + [PushStore]));
    assert [PushLoad(value)] + ([PushAcquire(s.R())] + ([PushConstruct] + [PushStore]))
        == [PushLoad(value), PushAcquire(s.R()), PushConstruct, PushStore];
  }

  lemma PopStepsWithElement<T>(s: State<T>)
    requires s.consumer.CIdle? && s.readIndex < |s.slots| && s.seenWrites <= s.W()
    requires s.readIndex != Pos(s.W(), s.Size()) && s.slots[s.readIndex].Live?
    ensures var steps: seq<Step<T>> := [PopLoad, PopAcquire(s.W()), PopMove, PopDestroy, PopStore];
            IsRun(s, steps) && Final(s, steps) == Popped(s, s.slots[s.readIndex].value)
  {
    var s1 := Apply(s, PopLoad);
    var s2 := Apply(s1, PopAcquire(s.W()));
    var s3 := Apply(s2, PopMove);
    var s4 := Apply(s3, PopDestroy);
    assert s4.slots == s.slots[s.readIndex := Raw];
    OneStep(s4, PopStore, []);
    OneStep(s3, PopDestroy, [PopStore]);
    OneStep(s2, PopMove, [PopDestroy] + [PopStore]);
    OneStep(s1, PopAcquire(s.W()), [PopMove] + ([PopDestroy] + [PopStore]));
    OneStep(s, PopLoad, [PopAcquire(s.W())] + ([PopMove] + ([PopDestroy] + [PopStore])));
    var steps: seq<Step<T>> := [PopLoad, PopAcquire(s.W()), PopMove, PopDestroy, PopStore];
    assert steps == [PopLoad] + ([PopAcquire(s.W())] + ([PopMove] + ([PopDestroy] + [PopStore])));
  }

  /** An uninterrupted try_push is four steps of the protocol, or two when the ring is full. */
  lemma SoloPush<T>(s: State<T>, value: T)
    requires Inv(s) && s.producer.PIdle?
    ensures (s.writeIndex + 1) % s.Size() == Pos(s.R(), s.Size()) <==> s.W() - s.R() == s.capacity
    ensures IsRun(s, SoloSteps(s, Put(value)))
    ensures Final(s, SoloSteps(s, Put(value))) ==
            if s.W() - s.R() == s.capacity then s.(seenReads := s.R()) else Pushed(s, value)
  {
    var s1 := Apply(s, PushLoad(value));
    StepKeepsInv(s, PushLoad(value));
    FullTestIsExact(s1, s.R());
    if s.W() - s.R() == s.capacity {
      OneStep(s1, PushAcquire(s.R()), []);
      OneStep(s, PushLoad(value), [PushAcquire(s.R())]);
      assert SoloSteps(s, Put(value)) == [PushLoad(value)] + [PushAcquire(s.R())];
    } else {
      PushStepsWithRoom(s, value);
      assert SoloSteps(s, Put(value)) == [PushLoad(value), PushAcquire(s.R()), PushConstruct, PushStore];
    }
  }

  /** An uninterrupted try_pop is five steps of the protocol, or two when the ring is empty. */
  lemma SoloPop<T>(s: State<T>)
    requires Inv(s) && s.consumer.CIdle?
    ensures s.readIndex == Pos(s.W(), s.Size()) <==> s.R() == s.W()
    ensures s.R() < s.W() ==> s.slots[s.readIndex] == Live(s.accepted[s.R()])
    ensures IsRun(s, SoloSteps(s, Take))
    ensures Final(s, SoloSteps(s, Take)) ==
            if s.R() == s.W() then s.(seenWrites := s.W()) else Popped(s, s.accepted[s.R()])
  {
    var s1 := Apply(s, PopLoad);
    StepKeepsInv(s, PopLoad);
    EmptyTestIsExact(s1, s.W());
    if s.R() == s.W() {
      OneStep(s1, PopAcquire(s.W()), []);
      OneStep(s, PopLoad, [PopAcquire(s.W())]);
      assert SoloSteps(s, Take) == [PopLoad] + [PopAcquire(s.W())];
    } else {
      assert s.slots[Pos(s.R(), s.Size())] == Expected(s, s.R());
      PopStepsWithElement(s);
      assert SoloSteps(s, Take) == [PopLoad, PopAcquire(s.W()), PopMove, PopDestroy, PopStore];
    }
  }

  class LFSPSCQueue<T> {
    const capacity: nat
    const ring: array<Slot<T>>
    var readIndex: nat
    var writeIndex: nat
    ghost var accepted: seq<T>
    ghost var popped: seq<T>
    ghost var seenReads: nat
    ghost var seenWrites: nat

    ghost function View(): State<T>
      reads this, ring
    {
      State(capacity, ring[..], readIndex, writeIndex, PIdle, CIdle, seenReads, seenWrites, accepted, popped)
    }

    ghost predicate Valid()
      reads this, ring
    {
      Inv(View())
    }

    ghost function Contents(): seq<T>
      reads this, ring
      requires Valid()
    {
      accepted[|popped|..]
    }

    constructor (capacity: nat)
      ensures Valid() && fresh(ring) && this.capacity == capacity
      ensures View() == Start(capacity) && Contents() == []
    {
      this.capacity := capacity;
      ring := new Slot<T>[capacity + 1](_ => Raw);
      readIndex, writeIndex := 0, 0;
      accepted, popped, seenReads, seenWrites := [], [], 0, 0;
      new;
      assert ring[..] == seq(capacity + 1, _ => Raw);
      StartInv<T>(capacity);
    }

    method TryPush(value: T) returns (ok: bool)
      requires Valid()
      modifies this, ring
      ensures Valid()
      ensures Stored(ok) == AnswerTo(capacity, old(Contents()), Put(value))
      ensures ok <==> old(|Contents()|) < capacity
      ensures Contents() == old(Contents()) + (if ok then [value] else [])
      ensures accepted == old(accepted) + (if ok then [value] else []) && popped == old(popped)
      ensures Contents() == After(capacity, old(Contents()), Put(value))
      ensures IsRun(old(View()), SoloSteps(old(View()), Put(value)))
      ensures View() == Final(old(View()), SoloSteps(old(View()), Put(value)))
    {
      SoloPush(View(), value);
      RunKeepsInv(View(), SoloSteps(View(), Put(value)));
      var write := writeIndex;
      var next := (write + 1) % ring.Length;
      seenReads := |popped|;
      if next == readIndex {
        return false;
      }
      ring[write] := Live(value);
      writeIndex := next;
      accepted := accepted + [value];
      ok := true;
    }

    method TryPop() returns (result: Option<T>)
      requires Valid()
      modifies this, ring
      ensures Valid()
      ensures Taken(result) == AnswerTo(capacity, old(Contents()), Take)
      ensures result.None? <==> old(Contents()) == []
      ensures old(Contents()) == (if result.Some? then [result.value] else []) + Contents()
      ensures popped == old(popped) + (if result.Some? then [result.value] else []) && accepted == old(accepted)
      ensures Contents() == After(capacity, old(Contents()), Take)
      ensures IsRun(old(View()), SoloSteps(old(View()), Take))
      ensures View() == Final(old(View()), SoloSteps(old(View()), Take))
    {
      SoloPop(View());
      RunKeepsInv(View(), SoloSteps(View(), Take));
      var read := readIndex;
      seenWrites := |accepted|;
      if read == writeIndex {
        return None;
      }
      result := Some(ring[read].value);
      ghost var slots := ring[..];
      ring[read] := MovedFrom;
      ring[read] := Raw;
      assert ring[..] == slots[read := Raw];
      readIndex := (read + 1) % ring.Length;
      popped := popped + [result.value];
    }
  }
}
