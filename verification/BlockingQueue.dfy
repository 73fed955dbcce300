/** The monitor of the bounded blocking queue: one mutex, two condition
    variables, any number of threads, spurious wake-ups, and a notify_one that
    runs after the mutex was released. */
module BlockingQueueProtocol {
  import opened Arithmetic
  import opened Sums
  import opened Wrappers

  datatype Role = Producer | Consumer {
    function Other(): Role {
      if Producer? then Consumer else Producer
    }
  }

  datatype Op<T> = Push(value: T) | Pop {
    function RoleOf(): Role {
      if Push? then Producer else Consumer
    }
  }

  /** Where a thread stands inside its current call.
      Parked(r): blocked on the condition variable that r waits on.
      Woken(r): notified (or woken spuriously) but not yet holding the mutex again.
      Locked(r): holds the mutex, about to evaluate the wait predicate.
      Ready(r): holds the mutex, the predicate held.
      Modified(r): holds the mutex, the queue was changed.
      Notifying(r): mutex released, notify_one not yet called. */
  datatype Phase = Idle
                 | Parked(role: Role)
                 | Woken(role: Role)
                 | Locked(role: Role)
                 | Ready(role: Role)
                 | Modified(role: Role)
                 | Notifying(role: Role)

  /** `program` holds the calls whose effect on the queue is still to come. */
  datatype Thread<T> = Thread(program: seq<Op<T>>, phase: Phase)

  /** `pushed` and `popped` record the whole history of the queue. */
  datatype State<T> = State(
    capacity: nat,
    queue: seq<T>,
    owner: Option<nat>,
    threads: seq<Thread<T>>,
    pushed: seq<T>,
    popped: seq<T>)
  {
    function At(t: nat, phase: Phase): State<T>
      requires t < |threads|
    {
      this.(threads := threads[t := threads[t].(phase := phase)])
    }

    /** The wait predicate: room for a producer, an element for a consumer. */
    predicate CanProceed(r: Role) {
      if r.Producer? then |queue| < capacity else |queue| > 0
    }

    /** What the threads of role r wait for: elements, or free places. */
    function Resource(r: Role): int {
      if r.Producer? then capacity - |queue| else |queue|
    }
  }

  datatype Step = Acquire(t: nat)
                | Check(t: nat)
                | Modify(t: nat)
                | Unlock(t: nat)
                | Notify(t: nat, woken: Option<nat>)
                | SpuriousWake(t: nat)

  predicate Enabled<T>(s: State<T>, step: Step) {
    && step.t < |s.threads|
    && var th := s.threads[step.t];
       match step
       case Acquire(t) =>
         s.owner.None? && (th.phase.Woken? || (th.phase.Idle? && th.program != []))
       case Check(t) => th.phase.Locked?
       case Modify(t) =>
         && th.phase.Ready?
         && th.program != []
         && th.program[0].RoleOf() == th.phase.role
         && (th.phase.role.Consumer? ==> s.queue != [])
       case Unlock(t) => th.phase.Modified?
       case Notify(t, woken) =>
         && th.phase.Notifying?
         && var waiter := Parked(th.phase.role.Other());
            (match woken
             case None => forall u :: 0 <= u < |s.threads| ==> s.threads[u].phase != waiter
             case Some(u) => u < |s.threads| && s.threads[u].phase == waiter)
       case SpuriousWake(t) => th.phase.Parked?
  }

  function Apply<T>(s: State<T>, step: Step): State<T>
    requires Enabled(s, step)
  {
    var th := s.threads[step.t];
    match step
    case Acquire(t) =>
      var role := if th.phase.Woken? then th.phase.role else th.program[0].RoleOf();
      s.At(t, Locked(role)).(owner := Some(t))
    case Check(t) =>
      if s.CanProceed(th.phase.role) then s.At(t, Ready(th.phase.role))
      else s.At(t, Parked(th.phase.role)).(owner := None)
    case Modify(t) =>
      var moved := s.(threads := s.threads[t := Thread(th.program[1..], Modified(th.phase.role))]);
      (match th.program[0]
       case Push(v) => moved.(queue := s.queue + [v], pushed := s.pushed + [v])
       case Pop => moved.(queue := s.queue[1..], popped := s.popped + [s.queue[0]]))
    case Unlock(t) => s.At(t, Notifying(th.phase.role)).(owner := None)
    case Notify(t, woken) =>
      (match woken
       case None => s.At(t, Idle)
       case Some(u) => s.At(u, Woken(th.phase.role.Other())).At(t, Idle))
    case SpuriousWake(t) => s.At(t, Woken(th.phase.role))
  }

  predicate IsRun<T>(s: State<T>, steps: seq<Step>)
    decreases |steps|
  {
    steps == [] || (Enabled(s, steps[0]) && IsRun(Apply(s, steps[0]), steps[1..]))
  }

  function Final<T>(s: State<T>, steps: seq<Step>): State<T>
    requires IsRun(s, steps)
    decreases |steps|
  {
    if steps == [] then s else Final(Apply(s, steps[0]), steps[1..])
  }

  /** A fresh queue with any number of threads about to run their programs. */
  predicate Start<T>(s: State<T>) {
    && s.queue == [] && s.owner.None? && s.pushed == [] && s.popped == []
    && forall t :: 0 <= t < |s.threads| ==> s.threads[t].phase == Idle
  }

  /** No step but a spurious wake-up is possible. */
  ghost predicate Stuck<T>(s: State<T>) {
    forall step: Step :: Enabled(s, step) ==> step.SpuriousWake?
  }

  // ----- counting threads -----

  function ParkedWeight<T>(r: Role): Thread<T> -> nat {
    (th: Thread<T>) => if th.phase == Parked(r) then 1 else 0
  }

  predicate IsPending(phase: Phase, r: Role) {
    || phase == Woken(r) || phase == Locked(r) || phase == Ready(r)
    || phase == Modified(r.Other()) || phase == Notifying(r.Other())
  }

  /** Threads that will look at r's resource again, or will wake one that does. */
  function PendingWeight<T>(r: Role): Thread<T> -> nat {
    (th: Thread<T>) => if IsPending(th.phase, r) then 1 else 0
  }

  /** The lock-free part of PendingWeight: woken but not relocked, or modified but not yet notified. */
  function WakingWeight<T>(r: Role): Thread<T> -> nat {
    (th: Thread<T>) => if th.phase == Woken(r) || th.phase == Notifying(r.Other()) then 1 else 0
  }

  function OpsWeight<T>(r: Role): Thread<T> -> nat {
    (th: Thread<T>) => OpsOf(th.program, r)
  }

  function OpsOf<T>(program: seq<Op<T>>, r: Role): nat {
    if program == [] then 0
    else (if program[0].RoleOf() == r then 1 else 0) + OpsOf(program[1..], r)
  }

  function CountParked<T>(s: State<T>, r: Role): nat { Sum(s.threads, ParkedWeight(r)) }

  function CountPending<T>(s: State<T>, r: Role): nat { Sum(s.threads, PendingWeight(r)) }

  function CountWaking<T>(s: State<T>, r: Role): nat { Sum(s.threads, WakingWeight(r)) }

  function OpsLeft<T>(s: State<T>, r: Role): nat { Sum(s.threads, OpsWeight(r)) }

  // ----- invariants -----

  predicate HoldsLock(phase: Phase) {
    phase.Locked? || phase.Ready? || phase.Modified?
  }

  ghost predicate LockInv<T>(s: State<T>) {
    && (s.owner.Some? ==> s.owner.value < |s.threads|)
    && forall t :: 0 <= t < |s.threads| ==> (HoldsLock(s.threads[t].phase) <==> s.owner == Some(t))
  }

  ghost predicate QueueInv<T>(s: State<T>) {
    && |s.queue| <= s.capacity
    && s.pushed == s.popped + s.queue
    && forall t :: 0 <= t < |s.threads| ==>
         (s.threads[t].phase.Ready? ==> s.CanProceed(s.threads[t].phase.role))
  }

  ghost predicate ProgramInv<T>(s: State<T>) {
    forall t :: 0 <= t < |s.threads| ==>
      var th := s.threads[t];
      th.phase.Parked? || th.phase.Woken? || th.phase.Locked? || th.phase.Ready? ==>
        th.program != [] && th.program[0].RoleOf() == th.phase.role
  }

  /** No lost wake-up. */
  ghost predicate WakeInv<T>(s: State<T>, r: Role) {
    CountParked(s, r) == 0 || s.Resource(r) <= CountPending(s, r)
  }

  ghost predicate Inv<T>(s: State<T>) {
    LockInv(s) && QueueInv(s) && ProgramInv(s) && WakeInv(s, Producer) && WakeInv(s, Consumer)
  }

  lemma StartInv<T>(s: State<T>)
    requires Start(s)
    ensures Inv(s)
  {
    SumZero(s.threads, ParkedWeight<T>(Producer));
    SumZero(s.threads, ParkedWeight<T>(Consumer));
  }

  /** How one changed thread changes a count. */
  lemma CountsAfter<T>(s: State<T>, t: nat, th: Thread<T>, r: Role)
    requires t < |s.threads|
    ensures var ts := s.threads[t := th];
            && Sum(ts, ParkedWeight(r)) + ParkedWeight(r)(s.threads[t]) == CountParked(s, r) + ParkedWeight(r)(th)
            && Sum(ts, PendingWeight(r)) + PendingWeight(r)(s.threads[t]) == CountPending(s, r) + PendingWeight(r)(th)
  {
    SumUpdate(s.threads, t, th, ParkedWeight<T>(r));
    SumUpdate(s.threads, t, th, PendingWeight<T>(r));
  }

  lemma WakingKeepsWakeInv<T>(s: State<T>, t: nat, u: nat, r: Role)
    requires WakeInv(s, r) && Enabled(s, Notify(t, Some(u)))
    ensures WakeInv(Apply(s, Notify(t, Some(u))), r)
  {
    var waiters := s.threads[t].phase.role.Other();
    var mid := s.At(u, Woken(waiters));
    CountsAfter(s, u, mid.threads[u], r);
    CountsAfter(mid, t, mid.threads[t].(phase := Idle), r);
  }

  lemma VainNotifyKeepsWakeInv<T>(s: State<T>, t: nat, r: Role)
    requires WakeInv(s, r) && Enabled(s, Notify(t, None))
    ensures WakeInv(Apply(s, Notify(t, None)), r)
  {
    CountsAfter(s, t, s.threads[t].(phase := Idle), r);
    if r == s.threads[t].phase.role.Other() {
      SumZero(s.threads, ParkedWeight<T>(r));
    }
  }

  lemma StepKeepsWakeInv<T>(s: State<T>, step: Step, r: Role)
    requires LockInv(s) && QueueInv(s) && ProgramInv(s) && WakeInv(s, r) && Enabled(s, step)
    ensures WakeInv(Apply(s, step), r)
  {
    if step.Notify? && step.woken.Some? {
      WakingKeepsWakeInv(s, step.t, step.woken.value, r);
    } else if step.Notify? {
      VainNotifyKeepsWakeInv(s, step.t, r);
    } else {
      CountsAfter(s, step.t, Apply(s, step).threads[step.t], r);
    }
  }

  lemma StepKeepsInv<T>(s: State<T>, step: Step)
    requires Inv(s) && Enabled(s, step)
    ensures Inv(Apply(s, step))
  {
    StepKeepsWakeInv(s, step, Producer);
    StepKeepsWakeInv(s, step, Consumer);
    StepKeepsLockInv(s, step);
    StepKeepsQueueInv(s, step);
    StepKeepsProgramInv(s, step);
  }

  lemma StepKeepsLockInv<T>(s: State<T>, step: Step)
    requires LockInv(s) && Enabled(s, step)
    ensures LockInv(Apply(s, step))
  {
    assert HoldsLock(s.threads[step.t].phase) <==> s.owner == Some(step.t);
  }

  lemma StepKeepsQueueInv<T>(s: State<T>, step: Step)
    requires LockInv(s) && QueueInv(s) && Enabled(s, step)
    ensures QueueInv(Apply(s, step))
  {
    if step.Modify? {
      var s' := Apply(s, step);
      if s.threads[step.t].phase.role.Consumer? {
        assert s.queue == [s.queue[0]] + s.queue[1..];
      }
      forall t | 0 <= t < |s.threads| ensures !s'.threads[t].phase.Ready? {
        assert HoldsLock(s.threads[t].phase) <==> s.owner == Some(t);
        assert HoldsLock(s.threads[step.t].phase) <==> s.owner == Some(step.t);
      }
    }
  }

  lemma StepKeepsProgramInv<T>(s: State<T>, step: Step)
    requires ProgramInv(s) && Enabled(s, step)
    ensures ProgramInv(Apply(s, step))
  {
  }

  /** Every state of every run satisfies the invariant. */
  lemma {:induction false} RunKeepsInv<T>(s: State<T>, steps: seq<Step>)
    requires Inv(s) && IsRun(s, steps)
    ensures Inv(Final(s, steps))
    decreases |steps|
  {
    if steps != [] {
      StepKeepsInv(s, steps[0]);
      RunKeepsInv(Apply(s, steps[0]), steps[1..]);
    }
  }

  // ----- what every reachable state promises -----

  /** While a thread of role r is parked, the elements (or free places) it waits for are no more
      than the threads that will look at them again or wake one that does; while the mutex is
      free, these are the threads that were woken and have not relocked, and those that changed
      the queue and have not notified yet. */
  lemma {:induction false} NoLostWakeup<T>(s0: State<T>, steps: seq<Step>, r: Role)
    requires Start(s0) && IsRun(s0, steps)
    ensures var s := Final(s0, steps);
            CountParked(s, r) > 0 ==>
              s.Resource(r) <= CountPending(s, r) && (s.owner.None? ==> s.Resource(r) <= CountWaking(s, r))
  {
    StartInv(s0);
    RunKeepsInv(s0, steps);
    var s := Final(s0, steps);
    assert WakeInv(s, r);
    if s.owner.None? {
      forall t | 0 <= t < |s.threads|
        ensures PendingWeight<T>(r)(s.threads[t]) <= WakingWeight<T>(r)(s.threads[t])
      {
        assert !HoldsLock(s.threads[t].phase);
      }
      SumMonotone(s.threads, PendingWeight<T>(r), WakingWeight<T>(r));
    }
  }

  /** One holder at a time, the bound is kept, and elements leave in the order they came. */
  lemma {:induction false} SafetyOfRuns<T>(s0: State<T>, steps: seq<Step>)
    requires Start(s0) && IsRun(s0, steps)
    ensures var s := Final(s0, steps);
            && |s.queue| <= s0.capacity
            && s.popped <= s.pushed
            && s.pushed == s.popped + s.queue
            && forall t, u ::
                 0 <= t < |s.threads| && 0 <= u < |s.threads| ==>
                 HoldsLock(s.threads[t].phase) && HoldsLock(s.threads[u].phase) ==>
                 t == u
  {
    StartInv(s0);
    RunKeepsInv(s0, steps);
    RunKeepsTotals(s0, steps, Producer);
  }

  // ----- nothing is forgotten: operations left plus operations done -----

  predicate SingleRole<T>(s: State<T>) {
    forall t :: 0 <= t < |s.threads| ==>
      OpsOf(s.threads[t].program, Producer) == 0 || OpsOf(s.threads[t].program, Consumer) == 0
  }

  /** Operations of role r that already took effect. */
  function Completed<T>(s: State<T>, r: Role): nat {
    if r.Producer? then |s.pushed| else |s.popped|
  }

  lemma StepKeepsTotal<T>(s: State<T>, step: Step, r: Role)
    requires Enabled(s, step)
    ensures OpsLeft(Apply(s, step), r) + Completed(Apply(s, step), r) == OpsLeft(s, r) + Completed(s, r)
  {
    if step.Notify? && step.woken.Some? {
      var u := step.woken.value;
      var mid := s.At(u, Woken(s.threads[step.t].phase.role.Other()));
      SumUpdate(s.threads, u, mid.threads[u], OpsWeight<T>(r));
      SumUpdate(mid.threads, step.t, mid.threads[step.t].(phase := Idle), OpsWeight<T>(r));
    } else {
      SumUpdate(s.threads, step.t, Apply(s, step).threads[step.t], OpsWeight<T>(r));
    }
  }

  lemma StepKeepsSingleRole<T>(s: State<T>, step: Step)
    requires Enabled(s, step) && SingleRole(s)
    ensures SingleRole(Apply(s, step))
  {
    var s' := Apply(s, step);
    forall t | 0 <= t < |s'.threads|
      ensures OpsOf(s'.threads[t].program, Producer) == 0 || OpsOf(s'.threads[t].program, Consumer) == 0
    {
      var was, now := s.threads[t].program, s'.threads[t].program;
      assert now == was || now == was[1..];
      assert OpsOf(was, Producer) == 0 || OpsOf(was, Consumer) == 0;
    }
  }

  lemma {:induction false} RunKeepsTotals<T>(s: State<T>, steps: seq<Step>, r: Role)
    requires IsRun(s, steps)
    ensures var s' := Final(s, steps);
            && s'.capacity == s.capacity
            && OpsLeft(s', r) + Completed(s', r) == OpsLeft(s, r) + Completed(s, r)
            && (SingleRole(s) ==> SingleRole(s'))
    decreases |steps|
  {
    if steps != [] {
      var s' := Apply(s, steps[0]);
      StepKeepsTotal(s, steps[0], r);
      if SingleRole(s) {
        StepKeepsSingleRole(s, steps[0]);
      }
      RunKeepsTotals(s', steps[1..], r);
    }
  }

  // ----- the values pushed are those of the programs -----

  /** The values that a program is going to push, in order. */
  function PushValues<T>(program: seq<Op<T>>): seq<T> {
    if program == [] then []
    else (if program[0].Push? then [program[0].value] else []) + PushValues(program[1..])
  }

  /** How often a thread is still going to push v. */
  ghost function ValueWeight<T>(v: T): Thread<T> -> nat {
    (th: Thread<T>) => multiset(PushValues(th.program))[v]
  }

  ghost function TimesLeft<T>(s: State<T>, v: T): nat { Sum(s.threads, ValueWeight(v)) }

  lemma ModifyKeepsValue<T>(s: State<T>, t: nat, v: T)
    requires Enabled(s, Modify(t))
    ensures var s', times := Apply(s, Modify(t)), ValueWeight(v);
            multiset(s'.pushed)[v] + times(s'.threads[t]) == multiset(s.pushed)[v] + times(s.threads[t])
  {
    var program := s.threads[t].program;
    if program[0].Push? {
      assert PushValues(program) == [program[0].value] + PushValues(program[1..]);
    } else {
      assert PushValues(program) == PushValues(program[1..]);
    }
  }

  lemma StepKeepsValue<T>(s: State<T>, step: Step, v: T)
    requires Enabled(s, step)
    ensures var s' := Apply(s, step);
            multiset(s'.pushed)[v] + TimesLeft(s', v) == multiset(s.pushed)[v] + TimesLeft(s, v)
  {
    if step.Notify? && step.woken.Some? {
      var u := step.woken.value;
      var mid := s.At(u, Woken(s.threads[step.t].phase.role.Other()));
      SumUpdate(s.threads, u, mid.threads[u], ValueWeight<T>(v));
      SumUpdate(mid.threads, step.t, mid.threads[step.t].(phase := Idle), ValueWeight<T>(v));
    } else {
      SumUpdate(s.threads, step.t, Apply(s, step).threads[step.t], ValueWeight<T>(v));
      if step.Modify? {
        ModifyKeepsValue(s, step.t, v);
      }
    }
  }

  /** Nothing is pushed that no program asked for, and nothing is pushed twice or dropped: each
      value was pushed and is still to be pushed as often as all programs together push it. */
  lemma {:induction false} PushedAreProgramValues<T>(s0: State<T>, steps: seq<Step>, v: T)
    requires IsRun(s0, steps)
    ensures var s := Final(s0, steps);
            multiset(s.pushed)[v] + TimesLeft(s, v) == multiset(s0.pushed)[v] + TimesLeft(s0, v)
    decreases |steps|
  {
    if steps != [] {
      StepKeepsValue(s0, steps[0], v);
      PushedAreProgramValues(Apply(s0, steps[0]), steps[1..], v);
    }
  }

  /** The values of thread t among values that were pushed by the given threads. */
  function Own<T>(values: seq<T>, who: seq<nat>, t: nat): seq<T>
    requires |values| == |who|
  {
    if values == [] then []
    else (if who[0] == t then [values[0]] else []) + Own(values[1..], who[1..], t)
  }

  lemma StepPushes<T>(s: State<T>, step: Step)
    requires Enabled(s, step)
    ensures var s', th := Apply(s, step), s.threads[step.t];
            && |s'.threads| == |s.threads|
            && (forall u :: 0 <= u < |s.threads| && u != step.t ==> s'.threads[u].program == s.threads[u].program)
            && (if step.Modify? && th.program[0].Push?
                then s'.pushed == s.pushed + [th.program[0].value] && s'.threads[step.t].program == th.program[1..]
                else s'.pushed == s.pushed
                     && PushValues(s'.threads[step.t].program) == PushValues(th.program))
  {
  }

  /** The values that a run pushes, each with the thread that pushes it. */
  function Pushes<T>(s: State<T>, steps: seq<Step>): (p: (seq<T>, seq<nat>))
    requires IsRun(s, steps)
    ensures |p.0| == |p.1|
    decreases |steps|
  {
    if steps == [] then ([], [])
    else
      var (values, who) := Pushes(Apply(s, steps[0]), steps[1..]);
      if steps[0].Modify? && s.threads[steps[0].t].program[0].Push?
      then ([s.threads[steps[0].t].program[0].value] + values, [steps[0].t] + who)
      else (values, who)
  }

  lemma {:induction false} RunPushes<T>(s: State<T>, steps: seq<Step>, t: nat)
    requires IsRun(s, steps) && t < |s.threads|
    ensures var (values, who) := Pushes(s, steps);
            && Final(s, steps).pushed == s.pushed + values && |Final(s, steps).threads| == |s.threads|
            && (forall i :: 0 <= i < |who| ==> who[i] < |s.threads|)
            && Own(values, who, t) + PushValues(Final(s, steps).threads[t].program) == PushValues(s.threads[t].program)
    decreases |steps|
  {
    if steps != [] {
      StepPushes(s, steps[0]);
      RunPushes(Apply(s, steps[0]), steps[1..], t);
    }
  }

  /** Each thread's values are pushed in the order of its program: the pushed values can be
      told apart by thread so that each thread's part, followed by what its program still has
      to push, is what the program had to push at the start. */
  lemma {:induction false} PushedInProgramOrder<T>(s0: State<T>, steps: seq<Step>) returns (who: seq<nat>)
    requires Start(s0) && IsRun(s0, steps)
    ensures var s := Final(s0, steps);
            && |who| == |s.pushed| && |s.threads| == |s0.threads|
            && (forall i :: 0 <= i < |who| ==> who[i] < |s.threads|)
            && forall t: nat :: t < |s.threads| ==>
                 Own(s.pushed, who, t) + PushValues(s.threads[t].program) == PushValues(s0.threads[t].program)
  {
    var s, values := Final(s0, steps), Pushes(s0, steps).0;
    who := Pushes(s0, steps).1;
    if s0.threads == [] {
      assert steps == [];
    } else {
      RunPushes(s0, steps, 0);
    }
    assert s.pushed == values;
    forall t: nat | t < |s.threads|
      ensures Own(values, who, t) + PushValues(s.threads[t].program) == PushValues(s0.threads[t].program)
    {
      RunPushes(s0, steps, t);
    }
  }

  lemma {:induction false} OwnAll<T>(values: seq<T>, who: seq<nat>, t: nat)
    requires |values| == |who| && forall i :: 0 <= i < |who| ==> who[i] == t
    ensures Own(values, who, t) == values
  {
    if values != [] {
      assert forall i :: 0 <= i < |who[1..]| ==> who[1..][i] == who[i + 1];
      OwnAll(values[1..], who[1..], t);
    }
  }

  lemma {:induction false} OwnNone<T>(values: seq<T>, who: seq<nat>, t: nat, i: nat)
    requires |values| == |who| && i < |who| && Own(values, who, t) == []
    ensures who[i] != t
  {
    if i > 0 {
      OwnNone(values[1..], who[1..], t, i - 1);
    }
  }

  /** With one producer the queue sees exactly its values, in its order. */
  lemma OneProducerOrder<T>(s0: State<T>, steps: seq<Step>, t: nat)
    requires Start(s0) && IsRun(s0, steps) && t < |s0.threads|
    requires forall u :: 0 <= u < |s0.threads| && u != t ==> PushValues(s0.threads[u].program) == []
    ensures var s := Final(s0, steps);
            t < |s.threads| && s.pushed + PushValues(s.threads[t].program) == PushValues(s0.threads[t].program)
  {
    var who := PushedInProgramOrder(s0, steps);
    var s := Final(s0, steps);
    forall i | 0 <= i < |who| ensures who[i] == t {
      if who[i] != t {
        assert PushValues(s0.threads[who[i]].program) == [];
        OwnNone(s.pushed, who, who[i], i);
      }
    }
    OwnAll(s.pushed, who, t);
  }

  // ----- stuck means finished -----

  /** Whoever holds the mutex can move on. */
  lemma HolderCanStep<T>(s: State<T>) returns (step: Step)
    requires LockInv(s) && QueueInv(s) && ProgramInv(s) && s.owner.Some?
    ensures Enabled(s, step) && !step.SpuriousWake?
  {
    var t := s.owner.value;
    assert HoldsLock(s.threads[t].phase);
    step := if s.threads[t].phase.Locked? then Check(t)
            else if s.threads[t].phase.Ready? then Modify(t)
            else Unlock(t);
  }

  /** Whoever has released the mutex can notify. */
  lemma NotifierCanStep<T>(s: State<T>, t: nat) returns (step: Step)
    requires t < |s.threads| && s.threads[t].phase.Notifying?
    ensures Enabled(s, step) && !step.SpuriousWake?
  {
    var waiter := Parked(s.threads[t].phase.role.Other());
    if u: nat :| u < |s.threads| && s.threads[u].phase == waiter {
      step := Notify(t, Some(u));
    } else {
      step := Notify(t, None);
    }
  }

  /** In a stuck state the mutex is free and every thread is parked or has returned from its last call. */
  lemma StuckShape<T>(s: State<T>)
    requires Inv(s) && Stuck(s)
    ensures s.owner.None?
    ensures forall t :: 0 <= t < |s.threads| ==>
              s.threads[t].phase.Parked? || s.threads[t] == Thread([], Idle)
  {
    if s.owner.Some? {
      var step := HolderCanStep(s);
    }
    forall t | 0 <= t < |s.threads|
      ensures s.threads[t].phase.Parked? || s.threads[t] == Thread([], Idle)
    {
      var th := s.threads[t];
      assert !HoldsLock(th.phase);
      assert !Enabled(s, Acquire(t));
      if th.phase.Notifying? {
        var step := NotifierCanStep(s, t);
      }
    }
  }

  /** A role with operations left in a stuck state has a parked thread, and so its resource is used up. */
  lemma StuckRole<T>(s: State<T>, r: Role)
    requires Inv(s) && Stuck(s) && SingleRole(s)
    ensures OpsLeft(s, r) > 0 ==> s.Resource(r) == 0
  {
    StuckShape(s);
    if OpsLeft(s, r) > 0 {
      var t := SumWitness(s.threads, OpsWeight<T>(r));
      assert s.threads[t].phase == Parked(r);
      SumAtLeast(s.threads, t, ParkedWeight<T>(r));
      SumZero(s.threads, PendingWeight<T>(r));
    }
  }

  /** However the threads are scheduled, a run that cannot continue has popped and pushed
      exactly as much as any schedule could. */
  lemma StuckOutcome<T>(s0: State<T>, steps: seq<Step>)
    requires Start(s0) && IsRun(s0, steps) && Stuck(Final(s0, steps))
    requires s0.capacity >= 1 && SingleRole(s0)
    ensures var s := Final(s0, steps);
            && |s.popped| == Min(OpsLeft(s0, Producer), OpsLeft(s0, Consumer))
            && |s.pushed| == Min(OpsLeft(s0, Producer), OpsLeft(s0, Consumer) + s0.capacity)
  {
    StartInv(s0);
    RunKeepsInv(s0, steps);
    RunKeepsTotals(s0, steps, Producer);
    RunKeepsTotals(s0, steps, Consumer);
    StuckRole(Final(s0, steps), Producer);
    StuckRole(Final(s0, steps), Consumer);
  }

  /** With as many pops as pushes, stuck means that every call of every thread returned. */
  lemma StuckMeansFinished<T>(s0: State<T>, steps: seq<Step>)
    requires Start(s0) && IsRun(s0, steps) && Stuck(Final(s0, steps))
    requires s0.capacity >= 1 && SingleRole(s0)
    requires OpsLeft(s0, Producer) == OpsLeft(s0, Consumer)
    ensures var s := Final(s0, steps);
            && s.queue == [] && s.popped == s.pushed
            && forall t :: 0 <= t < |s.threads| ==> s.threads[t] == Thread([], Idle)
  {
    StuckOutcome(s0, steps);
    StartInv(s0);
    RunKeepsInv(s0, steps);
    RunKeepsTotals(s0, steps, Producer);
    RunKeepsTotals(s0, steps, Consumer);
    var s := Final(s0, steps);
    StuckShape(s);
    forall t | 0 <= t < |s.threads|
      ensures s.threads[t] == Thread([], Idle)
    {
      SumAtLeast(s.threads, t, OpsWeight<T>(Producer));
      SumAtLeast(s.threads, t, OpsWeight<T>(Consumer));
    }
  }

  /** A stuck run with as many pops as pushes has handed out every value of every program
      exactly once. */
  lemma EverythingDelivered<T>(s0: State<T>, steps: seq<Step>, v: T)
    requires Start(s0) && IsRun(s0, steps) && Stuck(Final(s0, steps))
    requires s0.capacity >= 1 && SingleRole(s0)
    requires OpsLeft(s0, Producer) == OpsLeft(s0, Consumer)
    ensures multiset(Final(s0, steps).popped)[v] == TimesLeft(s0, v)
  {
    StuckMeansFinished(s0, steps);
    PushedAreProgramValues(s0, steps, v);
    SumZero(Final(s0, steps).threads, ValueWeight<T>(v));
  }

  /** The single-role hypothesis is needed: a lone thread that pops before it pushes is stuck for ever. */
  lemma MixedThreadCanStick<T>(v: T)
    ensures var s0 := State(1, [], None, [Thread([Pop, Push(v)], Idle)], [], []);
            && Start(s0) && OpsLeft(s0, Producer) == OpsLeft(s0, Consumer)
            && IsRun(s0, [Acquire(0), Check(0)])
            && Stuck(Final(s0, [Acquire(0), Check(0)]))
            && Final(s0, [Acquire(0), Check(0)]).threads[0].program != []
  {
    var s0 := State(1, [], None, [Thread([Pop, Push(v)], Idle)], [], []);
    var s1 := Apply(s0, Acquire(0));
    var s2 := Apply(s1, Check(0));
    assert IsRun(s1, [Check(0)]) && Final(s1, [Check(0)]) == s2 by {
      assert [Check(0)][1..] == [];
    }
    assert [Acquire(0), Check(0)][1..] == [Check(0)];
    forall r: Role ensures OpsLeft(s0, r) == 1 {
      assert [Pop, Push(v)][1..] == [Push(v)] && [Push(v)][1..] == [];
      assert OpsOf([Push(v)], r) == if r.Producer? then 1 else 0;
      assert OpsOf([Pop, Push(v)], r) == 1;
      assert s0.threads[1..] == [];
      assert OpsWeight<T>(r)(s0.threads[0]) == 1;
      assert Sum(s0.threads, OpsWeight<T>(r)) == 1;
    }
  }

  // ----- runs do not go on for ever -----

  function PhaseWeight(phase: Phase): nat {
    match phase
    case Idle => 3
    case Parked(_) => 0
    case Woken(_) => 3
    case Locked(_) => 2
    case Ready(_) => 1
    case Modified(_) => 8
    case Notifying(_) => 7
  }

  function ThreadFuel<T>(): Thread<T> -> nat {
    (th: Thread<T>) => 8 * |th.program| + PhaseWeight(th.phase)
  }

  function Fuel<T>(s: State<T>): nat { Sum(s.threads, ThreadFuel()) }

  function Spurious(steps: seq<Step>): nat {
    if steps == [] then 0 else (if steps[0].SpuriousWake? then 1 else 0) + Spurious(steps[1..])
  }

  lemma StepBurnsFuel<T>(s: State<T>, step: Step)
    requires Enabled(s, step)
    ensures Fuel(Apply(s, step)) + 1 <= Fuel(s) + (if step.SpuriousWake? then 4 else 0)
  {
    if step.Notify? && step.woken.Some? {
      WakingBurnsFuel(s, step.t, step.woken.value);
    } else {
      SumUpdate(s.threads, step.t, Apply(s, step).threads[step.t], ThreadFuel<T>());
    }
  }

  lemma WakingBurnsFuel<T>(s: State<T>, t: nat, u: nat)
    requires Enabled(s, Notify(t, Some(u)))
    ensures Fuel(Apply(s, Notify(t, Some(u)))) + 1 <= Fuel(s)
  {
    var woken := s.threads[u].(phase := Woken(s.threads[t].phase.role.Other()));
    var mid := s.threads[u := woken];
    SumUpdate(s.threads, u, woken, ThreadFuel<T>());
    SumUpdate(mid, t, mid[t].(phase := Idle), ThreadFuel<T>());
  }

  /** A run is never longer than the work to be done plus four steps for each spurious wake-up;
      hence every run with finitely many of those reaches a stuck state. */
  lemma {:induction false} RunLength<T>(s: State<T>, steps: seq<Step>)
    requires IsRun(s, steps)
    ensures |steps| + Fuel(Final(s, steps)) <= Fuel(s) + 4 * Spurious(steps)
    decreases |steps|
  {
    if steps != [] {
      StepBurnsFuel(s, steps[0]);
      RunLength(Apply(s, steps[0]), steps[1..]);
    }
  }

  lemma {:induction false} OpsOfBothRoles<T>(program: seq<Op<T>>)
    ensures OpsOf(program, Producer) + OpsOf(program, Consumer) == |program|
  {
    if program != [] {
      OpsOfBothRoles(program[1..]);
    }
  }

  lemma {:induction false} FuelOfIdle<T>(threads: seq<Thread<T>>)
    requires forall t :: 0 <= t < |threads| ==> threads[t].phase == Idle
    ensures Sum(threads, ThreadFuel()) ==
            8 * (Sum(threads, OpsWeight(Producer)) + Sum(threads, OpsWeight(Consumer))) + 3 * |threads|
  {
    if threads != [] {
      OpsOfBothRoles(threads[0].program);
      FuelOfIdle(threads[1..]);
    }
  }

  /** The bound in terms of the calls to be made: at most eight steps for each of them, three
      for each thread, and four for each spurious wake-up. */
  lemma StepsPerCall<T>(s0: State<T>, steps: seq<Step>)
    requires Start(s0) && IsRun(s0, steps)
    ensures |steps| <= 8 * (OpsLeft(s0, Producer) + OpsLeft(s0, Consumer)) + 3 * |s0.threads| + 4 * Spurious(steps)
  {
    RunLength(s0, steps);
    FuelOfIdle(s0.threads);
  }

  /** From any state, some continuation without spurious wake-ups reaches a stuck state. */
  lemma {:induction false} RunToStuck<T>(s: State<T>) returns (steps: seq<Step>)
    ensures IsRun(s, steps) && Stuck(Final(s, steps)) && Spurious(steps) == 0 && |steps| <= Fuel(s)
    decreases Fuel(s)
  {
    if Stuck(s) {
      steps := [];
    } else {
      var step :| Enabled(s, step) && !step.SpuriousWake?;
      StepBurnsFuel(s, step);
      var rest := RunToStuck(Apply(s, step));
      steps := [step] + rest;
      assert steps[1..] == rest;
    }
  }

  lemma {:induction false} RunsCompose<T>(s: State<T>, first: seq<Step>, second: seq<Step>)
    requires IsRun(s, first) && IsRun(Final(s, first), second)
    ensures IsRun(s, first + second) && Final(s, first + second) == Final(Final(s, first), second)
    decreases |first|
  {
    if first == [] {
      assert first + second == second;
    } else {
      assert (first + second)[1..] == first[1..] + second;
      RunsCompose(Apply(s, first[0]), first[1..], second);
    }
  }

  /** No deadlock: whatever happened so far, every call of every thread can still return. */
  lemma AlwaysCanFinish<T>(s0: State<T>, steps: seq<Step>) returns (more: seq<Step>)
    requires Start(s0) && IsRun(s0, steps)
    requires s0.capacity >= 1 && SingleRole(s0)
    requires OpsLeft(s0, Producer) == OpsLeft(s0, Consumer)
    ensures IsRun(Final(s0, steps), more)
    ensures var s := Final(Final(s0, steps), more);
            s.queue == [] && forall t :: 0 <= t < |s.threads| ==> s.threads[t] == Thread([], Idle)
  {
    more := RunToStuck(Final(s0, steps));
    RunsCompose(s0, steps, more);
    StuckMeansFinished(s0, steps + more);
  }
}

/** The queue object itself. Each method is one atomic step of a call to push, emplace
    or pop; `threads` holds the two sets of waiters and each thread's position. */
module BlockingQueue {
  import opened Wrappers
  import opened BlockingQueueProtocol

  class BoundedBlockingQueue<T> {
    const capacity: nat
    var queue: seq<T>
    var owner: Option<nat>
    var threads: seq<Thread<T>>
    ghost var pushed: seq<T>
    ghost var popped: seq<T>

    ghost function View(): State<T>
      reads this
    {
      State(capacity, queue, owner, threads, pushed, popped)
    }

    ghost predicate Valid()
      reads this
    {
      Inv(View())
    }

    constructor (capacity: nat, programs: seq<seq<Op<T>>>)
      ensures Valid() && Start(View()) && this.capacity == capacity
      ensures |threads| == |programs|
      ensures forall t :: 0 <= t < |programs| ==> threads[t].program == programs[t]
    {
      this.capacity := capacity;
      queue := [];
      owner := None;
      threads := seq(|programs|, t requires 0 <= t < |programs| => Thread(programs[t], Idle));
      pushed, popped := [], [];
      new;
      StartInv(View());
    }

    method SetPhase(t: nat, phase: Phase)
      requires t < |threads|
      modifies this`threads
      ensures View() == old(View()).At(t, phase)
    {
      threads := threads[t := threads[t].(phase := phase)];
    }

    method Lock(t: nat)
      requires Valid() && Enabled(View(), Acquire(t))
      modifies this`owner, this`threads
      ensures Valid() && View() == Apply(old(View()), Acquire(t))
    {
      StepKeepsInv(View(), Acquire(t));
      var th := threads[t];
      SetPhase(t, Locked(if th.phase.Woken? then th.phase.role else th.program[0].RoleOf()));
      owner := Some(t);
    }

    /** Evaluates the wait predicate; when it fails, parks and gives the mutex back in one step. */
    method Wait(t: nat) returns (proceed: bool)
      requires Valid() && Enabled(View(), Check(t))
      modifies this`owner, this`threads
      ensures Valid() && View() == Apply(old(View()), Check(t))
      ensures proceed <==> owner == Some(t)
    {
      StepKeepsInv(View(), Check(t));
      var role := threads[t].phase.role;
      assert HoldsLock(threads[t].phase);
      proceed := if role.Producer? then |queue| < capacity else |queue| > 0;
      if proceed {
        SetPhase(t, Ready(role));
      } else {
        SetPhase(t, Parked(role));
        owner := None;
      }
    }

    /** The wait predicate held: there is room, and the element is appended. */
    method PushBack(t: nat)
      requires Valid() && t < |threads| && threads[t].phase == Ready(Producer)
      modifies this`queue, this`threads, this`pushed
      ensures Enabled(old(View()), Modify(t))
      ensures Valid() && View() == Apply(old(View()), Modify(t))
      ensures old(|queue|) < capacity
      ensures var program := old(threads[t]).program;
              && program != [] && program[0].Push?
              && queue == old(queue) + [program[0].value] && pushed == old(pushed) + [program[0].value]
              && threads[t].program == program[1..]
    {
      StepKeepsInv(View(), Modify(t));
      var value := threads[t].program[0].value;
      queue := queue + [value];
      threads := threads[t := Thread(threads[t].program[1..], Modified(Producer))];
      pushed := pushed + [value];
    }

    /** The wait predicate held: the queue is not empty, and its front is handed out. */
    method PopFront(t: nat) returns (value: T)
      requires Valid() && t < |threads| && threads[t].phase == Ready(Consumer)
      modifies this`queue, this`threads, this`popped
      ensures Enabled(old(View()), Modify(t))
      ensures Valid() && View() == Apply(old(View()), Modify(t))
      ensures [value] + queue == old(queue) && popped == old(popped) + [value]
      ensures var program := old(threads[t]).program;
              program != [] && program[0].Pop? && threads[t].program == program[1..]
    {
      StepKeepsInv(View(), Modify(t));
      value := queue[0];
      queue := queue[1..];
      threads := threads[t := Thread(threads[t].program[1..], Modified(Consumer))];
      popped := popped + [value];
    }

    method Release(t: nat)
      requires Valid() && Enabled(View(), Unlock(t))
      modifies this`owner, this`threads
      ensures Valid() && View() == Apply(old(View()), Unlock(t))
    {
      StepKeepsInv(View(), Unlock(t));
      SetPhase(t, Notifying(threads[t].phase.role));
      owner := None;
    }

    /** Wakes some waiter of the other side, if there is one. */
    method NotifyOne(t: nat) returns (woken: Option<nat>)
      requires Valid() && t < |threads| && threads[t].phase.Notifying?
      modifies this`threads
      ensures Enabled(old(View()), Notify(t, woken))
      ensures Valid() && View() == Apply(old(View()), Notify(t, woken))
    {
      var waiters := threads[t].phase.role.Other();
      if u: nat :| u < |threads| && threads[u].phase == Parked(waiters) {
        woken := Some(u);
        StepKeepsInv(View(), Notify(t, woken));
        SetPhase(u, Woken(waiters));
      } else {
        woken := None;
        StepKeepsInv(View(), Notify(t, woken));
      }
      SetPhase(t, Idle);
    }
  }
}
