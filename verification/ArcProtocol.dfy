/** The atomic reference-count protocol: any number of ArcPointer variables, used by any
    number of threads whose calls interleave between the atomic actions of a call. */
module ArcProtocol {
  import opened Wrappers
  import opened Sums

  /** `destroyed` counts the calls of destroy_object; the default constructor makes a block
      without an object. */
  datatype Block = Block(count: int, hasObject: bool, destroyed: nat, freed: bool)

  /** A variable that may hold an ArcPointer: its control block pointer and the object pointer
      that get() returns. The address of an object is named by the block made for it. `counted`
      tells whether the pointer's own reference is part of the block's count: a copy before its
      add_ref and a pointer after the decrement of its release_ref are not counted. */
  datatype Handle = Absent | Handle(block: Option<nat>, ptr: Option<nat>, counted: bool)

  /** What a call does once its release_ref is over. A copy assignment holds a reference on
      the block it will install. */
  datatype After = InstallCopy(dst: nat, src: nat, block: nat)
                 | InstallMove(dst: nat, src: nat)
                 | Gone(dst: nat)

  datatype Call = Idle
                | CopyAdding(dst: nat, src: nat)
                | AssignAdding(dst: nat, src: nat)
                | Releasing(after: After)
                | Destroying(block: nat, after: After)
                | Deleting(block: nat, after: After)
                | Finishing(after: After)

  datatype State = State(blocks: seq<Block>, handles: seq<Handle>, threads: seq<Call>) {
    function SetCall(t: nat, call: Call): State
      requires t < |threads|
    {
      this.(threads := threads[t := call])
    }

    function SetHandle(h: nat, handle: Handle): State
      requires h < |handles|
    {
      this.(handles := handles[h := handle])
    }

    function SetBlock(b: nat, block: Block): State
      requires b < |blocks|
    {
      this.(blocks := blocks[b := block])
    }
  }

  datatype Step = Construct(t: nat, dst: nat, hasObject: bool)
                | CopyConstruct(t: nat, dst: nat, src: nat)
                | MoveConstruct(t: nat, dst: nat, src: nat)
                | CopyAssign(t: nat, dst: nat, src: nat)
                | MoveAssign(t: nat, dst: nat, src: nat)
                | Destruct(t: nat, dst: nat)
                | AddRef(t: nat)
                | Decrement(t: nat)
                | DestroyObject(t: nat)
                | DeleteBlock(t: nat)
                | Finish(t: nat)

  // ----- which variables a call may use -----

  function AfterWrites(after: After): set<nat> {
    match after
    case InstallCopy(dst, _, _) => {dst}
    case InstallMove(dst, src) => {dst, src}
    case Gone(dst) => {dst}
  }

  function AfterReads(after: After): set<nat> {
    if after.InstallCopy? then {after.src} else {}
  }

  function Writes(call: Call): set<nat> {
    match call
    case Idle => {}
    case CopyAdding(dst, _) => {dst}
    case AssignAdding(dst, _) => {dst}
    case _ => AfterWrites(call.after)
  }

  function Reads(call: Call): set<nat> {
    match call
    case Idle => {}
    case CopyAdding(_, src) => {src}
    case AssignAdding(_, src) => {src}
    case _ => AfterReads(call.after)
  }

  /** The language's rule for unsynchronised variables: a variable is written by one call
      at a time, and not while another call reads it. */
  predicate MayWrite(s: State, h: nat) {
    h < |s.handles| && forall u :: 0 <= u < |s.threads| ==> h !in Writes(s.threads[u]) + Reads(s.threads[u])
  }

  predicate MayRead(s: State, h: nat) {
    h < |s.handles| && forall u :: 0 <= u < |s.threads| ==> h !in Writes(s.threads[u])
  }

  /** A live operand: a variable whose control block pointer is not null. */
  predicate Points(s: State, h: nat) {
    h < |s.handles| && s.handles[h].Handle? && s.handles[h].block.Some? && s.handles[h].block.value < |s.blocks|
  }

  // ----- steps -----

  /** The source of a move assignment, as written: the control block pointer is cleared twice
      and the object pointer not at all. */
  function MovedFrom(handle: Handle): Handle
    requires handle.Handle?
  {
    handle.(block := None, counted := false)
  }

  predicate CanInstall(s: State, after: After) {
    && after.dst < |s.handles|
    && (!after.Gone? ==> after.src < |s.handles| && s.handles[after.src].Handle?)
  }

  /** The assignments after release_ref, or the end of the variable. */
  function Installed(s: State, after: After): State
    requires CanInstall(s, after)
  {
    match after
    case InstallCopy(dst, src, _) => s.SetHandle(dst, s.handles[src].(counted := true))
    case InstallMove(dst, src) => s.SetHandle(dst, s.handles[src]).SetHandle(src, MovedFrom(s.handles[src]))
    case Gone(dst) => s.SetHandle(dst, Absent)
  }

  predicate Enabled(s: State, step: Step) {
    && step.t < |s.threads|
    && var call := s.threads[step.t];
       match step
       case Construct(_, dst, _) => call.Idle? && MayWrite(s, dst) && s.handles[dst].Absent?
       case CopyConstruct(_, dst, src) =>
         call.Idle? && MayWrite(s, dst) && s.handles[dst].Absent? && MayRead(s, src) && Points(s, src)
       case MoveConstruct(_, dst, src) =>
         call.Idle? && MayWrite(s, dst) && s.handles[dst].Absent? && MayWrite(s, src) && s.handles[src].Handle?
       case CopyAssign(_, dst, src) =>
         && call.Idle? && MayWrite(s, dst) && MayRead(s, src)
         && s.handles[dst].Handle? && s.handles[src].Handle?
         && (s.handles[dst].block == s.handles[src].block || (Points(s, dst) && Points(s, src)))
       case MoveAssign(_, dst, src) =>
         && call.Idle? && dst != src
         && MayWrite(s, dst) && Points(s, dst) && MayWrite(s, src) && s.handles[src].Handle?
       case Destruct(_, dst) => call.Idle? && MayWrite(s, dst) && s.handles[dst].Handle?
       case AddRef(_) =>
         || (call.CopyAdding? && Points(s, call.dst) && Points(s, call.src))
         || (call.AssignAdding? && Points(s, call.dst) && Points(s, call.src))
       case Decrement(_) => call.Releasing? && Points(s, call.after.dst)
       case DestroyObject(_) => call.Destroying? && call.block < |s.blocks|
       case DeleteBlock(_) => call.Deleting? && call.block < |s.blocks|
       case Finish(_) => call.Finishing? && CanInstall(s, call.after)
  }

  function Apply(s: State, step: Step): State
    requires Enabled(s, step)
  {
    var t, call := step.t, s.threads[step.t];
    match step
    case Construct(_, dst, hasObject) =>
      var b := |s.blocks|;
      s.(blocks := s.blocks + [Block(1, hasObject, 0, false)])
       .SetHandle(dst, Handle(Some(b), if hasObject then Some(b) else None, true))
    case CopyConstruct(_, dst, src) =>
      s.SetHandle(dst, s.handles[src].(counted := false)).SetCall(t, CopyAdding(dst, src))
    case MoveConstruct(_, dst, src) =>
      s.SetHandle(dst, s.handles[src]).SetHandle(src, Handle(None, None, false))
    case CopyAssign(_, dst, src) =>
      if s.handles[dst].block == s.handles[src].block then s
      else s.SetCall(t, AssignAdding(dst, src))
    case MoveAssign(_, dst, src) => s.SetCall(t, Releasing(InstallMove(dst, src)))
    case Destruct(_, dst) =>
      if s.handles[dst].block.None? then s.SetHandle(dst, Absent)
      else s.SetCall(t, Releasing(Gone(dst)))
    case AddRef(_) =>
      if call.CopyAdding? then
        var b := s.handles[call.dst].block.value;
        s.SetBlock(b, s.blocks[b].(count := s.blocks[b].count + 1))
         .SetHandle(call.dst, s.handles[call.dst].(counted := true))
         .SetCall(t, Idle)
      else
        var b := s.handles[call.src].block.value;
        s.SetBlock(b, s.blocks[b].(count := s.blocks[b].count + 1))
         .SetCall(t, Releasing(InstallCopy(call.dst, call.src, b)))
    case Decrement(_) =>
      var b := s.handles[call.after.dst].block.value;
      var count := s.blocks[b].count - 1;
      s.SetBlock(b, s.blocks[b].(count := count))
       .SetHandle(call.after.dst, s.handles[call.after.dst].(counted := false))
       .SetCall(t, if count != 0 then Finishing(call.after)
                   else if s.blocks[b].hasObject then Destroying(b, call.after)
                   else Deleting(b, call.after))
    case DestroyObject(_) =>
      var b := call.block;
      s.SetBlock(b, s.blocks[b].(destroyed := s.blocks[b].destroyed + 1)).SetCall(t, Deleting(b, call.after))
    case DeleteBlock(_) =>
      var b := call.block;
      s.SetBlock(b, s.blocks[b].(freed := true)).SetCall(t, Finishing(call.after))
    case Finish(_) =>
      Installed(s, call.after).SetCall(t, Idle)
  }

  predicate IsRun(s: State, steps: seq<Step>)
    decreases |steps|
  {
    steps == [] || (Enabled(s, steps[0]) && IsRun(Apply(s, steps[0]), steps[1..]))
  }

  function Final(s: State, steps: seq<Step>): State
    requires IsRun(s, steps)
    decreases |steps|
  {
    if steps == [] then s else Final(Apply(s, steps[0]), steps[1..])
  }

  predicate Start(s: State) {
    && s.blocks == []
    && (forall h :: 0 <= h < |s.handles| ==> s.handles[h].Absent?)
    && (forall t :: 0 <= t < |s.threads| ==> s.threads[t].Idle?)
  }

  // ----- counting references -----

  function HandleRef(b: nat): Handle -> nat {
    (h: Handle) => if h.Handle? && h.block == Some(b) && h.counted then 1 else 0
  }

  function HasAfter(call: Call): bool {
    call.Releasing? || call.Destroying? || call.Deleting? || call.Finishing?
  }

  /** The reference that a copy assignment carries from its add_ref to its end. */
  function CallRef(b: nat): Call -> nat {
    (call: Call) => if HasAfter(call) && call.after.InstallCopy? && call.after.block == b then 1 else 0
  }

  /** The call saw the count reach zero and has not deleted the block yet. */
  function Closing(b: nat): Call -> nat {
    (call: Call) => if (call.Destroying? || call.Deleting?) && call.block == b then 1 else 0
  }

  function DestroyingAt(b: nat): Call -> nat {
    (call: Call) => if call.Destroying? && call.block == b then 1 else 0
  }

  function Refs(s: State, b: nat): nat {
    Sum(s.handles, HandleRef(b)) + Sum(s.threads, CallRef(b))
  }

  // ----- invariant -----

  ghost predicate BlockInv(s: State, b: nat)
    requires b < |s.blocks|
  {
    var block := s.blocks[b];
    && block.count == Refs(s, b)
    && (block.freed ==> block.count == 0)
    && Sum(s.threads, Closing(b)) == (if block.count == 0 && !block.freed then 1 else 0)
    && block.destroyed + Sum(s.threads, DestroyingAt(b)) == (if block.hasObject && block.count == 0 then 1 else 0)
  }

  ghost predicate HandleInv(s: State, h: nat)
    requires h < |s.handles|
  {
    var handle := s.handles[h];
    handle.Handle? ==>
      && (handle.block.Some? ==> handle.block.value < |s.blocks|)
      && (handle.counted ==> handle.block.Some?)
      && (handle.block.Some? && MayRead(s, h) ==> handle.counted)
  }

  predicate CountedAt(s: State, h: nat) {
    Points(s, h) && s.handles[h].counted
  }

  ghost predicate AfterInv(s: State, after: After) {
    match after
    case InstallCopy(dst, src, b) =>
      dst != src && CountedAt(s, src) && s.handles[src].block == Some(b)
    case InstallMove(dst, src) =>
      && dst != src && src < |s.handles| && s.handles[src].Handle?
      && (s.handles[src].block.Some? ==> s.handles[src].counted)
    case Gone(dst) => true
  }

  ghost predicate CallInv(s: State, call: Call) {
    match call
    case Idle => true
    case CopyAdding(dst, src) =>
      && dst != src && CountedAt(s, src) && Points(s, dst)
      && s.handles[dst] == s.handles[src].(counted := false)
    case AssignAdding(dst, src) => dst != src && CountedAt(s, src) && CountedAt(s, dst)
    case Releasing(after) => CountedAt(s, after.dst) && AfterInv(s, after)
    case Destroying(b, after) =>
      b < |s.blocks| && Points(s, after.dst) && !s.handles[after.dst].counted && AfterInv(s, after)
    case Deleting(b, after) =>
      b < |s.blocks| && Points(s, after.dst) && !s.handles[after.dst].counted && AfterInv(s, after)
    case Finishing(after) => Points(s, after.dst) && !s.handles[after.dst].counted && AfterInv(s, after)
  }

  ghost predicate Exclusive(s: State) {
    forall t, u, h :: 0 <= t < |s.threads| && 0 <= u < |s.threads| && t != u && h in Writes(s.threads[t]) ==>
      h !in Writes(s.threads[u]) && h !in Reads(s.threads[u])
  }

  ghost predicate Inv(s: State) {
    && (forall b :: 0 <= b < |s.blocks| ==> BlockInv(s, b))
    && (forall h :: 0 <= h < |s.handles| ==> HandleInv(s, h))
    && (forall t :: 0 <= t < |s.threads| ==> CallInv(s, s.threads[t]))
    && Exclusive(s)
  }

  // ----- every step keeps the invariant -----

  lemma StartInv(s: State)
    requires Start(s)
    ensures Inv(s)
  {
  }

  lemma SumsAfterCall(s: State, t: nat, call: Call, b: nat)
    requires t < |s.threads|
    ensures var ts := s.threads[t := call];
            && Sum(ts, CallRef(b)) + CallRef(b)(s.threads[t]) == Sum(s.threads, CallRef(b)) + CallRef(b)(call)
            && Sum(ts, Closing(b)) + Closing(b)(s.threads[t]) == Sum(s.threads, Closing(b)) + Closing(b)(call)
            && Sum(ts, DestroyingAt(b)) + DestroyingAt(b)(s.threads[t])
               == Sum(s.threads, DestroyingAt(b)) + DestroyingAt(b)(call)
  {
    SumUpdate(s.threads, t, call, CallRef(b));
    SumUpdate(s.threads, t, call, Closing(b));
    SumUpdate(s.threads, t, call, DestroyingAt(b));
  }

  /** What a call that is about to act knows about the block it acts on. */
  ghost predicate BlockReady(s: State, call: Call)
    requires CallInv(s, call)
  {
    match call
    case CopyAdding(_, src) => s.blocks[s.handles[src].block.value].count >= 1
    case AssignAdding(_, src) => s.blocks[s.handles[src].block.value].count >= 1
    case Releasing(after) => s.blocks[s.handles[after.dst].block.value].count >= 1
    case Destroying(b, _) =>
      var k := s.blocks[b];
      k.count == 0 && !k.freed && k.hasObject && k.destroyed == 0
    case Deleting(b, _) =>
      var k := s.blocks[b];
      k.count == 0 && !k.freed && k.destroyed == if k.hasObject then 1 else 0
    case _ => true
  }

  lemma CallFacts(s: State, t: nat)
    requires Inv(s) && t < |s.threads|
    ensures CallInv(s, s.threads[t]) && BlockReady(s, s.threads[t])
  {
    var call := s.threads[t];
    assert CallInv(s, call);
    if call.CopyAdding? || call.AssignAdding? {
      var b := s.handles[call.src].block.value;
      assert BlockInv(s, b);
      SumAtLeast(s.handles, call.src, HandleRef(b));
    } else if call.Releasing? {
      var b := s.handles[call.after.dst].block.value;
      assert BlockInv(s, b);
      SumAtLeast(s.handles, call.after.dst, HandleRef(b));
    } else if call.Destroying? || call.Deleting? {
      var b := call.block;
      assert BlockInv(s, b);
      SumAtLeast(s.threads, t, Closing(b));
      SumAtLeast(s.threads, t, DestroyingAt(b));
      if call.Deleting? && s.blocks[b].destroyed == 0 {
        SumBothAtLeast(s.threads, t, b);
      }
    }
  }

  /** A deleting call leaves no room for a destroying one. */
  lemma {:induction false} SumBothAtLeast(threads: seq<Call>, t: nat, b: nat)
    requires t < |threads| && Closing(b)(threads[t]) == 1 && DestroyingAt(b)(threads[t]) == 0
    ensures Sum(threads, Closing(b)) >= Sum(threads, DestroyingAt(b)) + 1
  {
    var rest := threads[t := Idle];
    SumUpdate(threads, t, Idle, Closing(b));
    SumUpdate(threads, t, Idle, DestroyingAt(b));
    SumMonotone(rest, DestroyingAt(b), Closing(b));
  }

  /** Calls that change variables and blocks, but start no protocol of their own. */
  lemma LocalKeepsBlock(s: State, step: Step, b: nat)
    requires Enabled(s, step) && b < |s.blocks| && BlockInv(s, b)
    requires step.Construct? || step.MoveConstruct?
    ensures BlockInv(Apply(s, step), b)
  {
    if step.MoveConstruct? {
      TwoHandles(s, step.dst, step.src, s.handles[step.src], Handle(None, None, false), b);
    } else {
      SumUpdate(s.handles, step.dst, Apply(s, step).handles[step.dst], HandleRef(b));
    }
  }

  lemma CopyKeepsBlock(s: State, step: Step, b: nat)
    requires Enabled(s, step) && step.CopyConstruct? && b < |s.blocks| && BlockInv(s, b)
    ensures BlockInv(Apply(s, step), b)
  {
    SumsAfterCall(s, step.t, CopyAdding(step.dst, step.src), b);
    SumUpdate(s.handles, step.dst, s.handles[step.src].(counted := false), HandleRef(b));
  }

  lemma BeginKeepsBlock(s: State, step: Step, b: nat)
    requires Enabled(s, step) && b < |s.blocks| && BlockInv(s, b)
    requires step.CopyAssign? || step.MoveAssign? || step.Destruct?
    ensures BlockInv(Apply(s, step), b)
  {
    if step.Destruct? && s.handles[step.dst].block.None? {
      SumUpdate(s.handles, step.dst, Absent, HandleRef(b));
    } else {
      SumsAfterCall(s, step.t, Apply(s, step).threads[step.t], b);
    }
  }

  lemma AddRefKeepsBlock(s: State, step: Step, b: nat)
    requires Enabled(s, step) && step.AddRef? && b < |s.blocks| && BlockInv(s, b)
    requires CallInv(s, s.threads[step.t]) && BlockReady(s, s.threads[step.t])
    ensures BlockInv(Apply(s, step), b)
  {
    var s', call := Apply(s, step), s.threads[step.t];
    SumsAfterCall(s, step.t, s'.threads[step.t], b);
    SumUpdate(s.handles, call.dst, s'.handles[call.dst], HandleRef(b));
  }

  lemma DecrementKeepsBlock(s: State, step: Step, b: nat)
    requires Enabled(s, step) && step.Decrement? && b < |s.blocks| && BlockInv(s, b)
    requires CallInv(s, s.threads[step.t]) && BlockReady(s, s.threads[step.t])
    ensures BlockInv(Apply(s, step), b)
  {
    var s', call := Apply(s, step), s.threads[step.t];
    SumsAfterCall(s, step.t, s'.threads[step.t], b);
    SumUpdate(s.handles, call.after.dst, s'.handles[call.after.dst], HandleRef(b));
  }

  lemma CloseKeepsBlock(s: State, step: Step, b: nat)
    requires Enabled(s, step) && (step.DestroyObject? || step.DeleteBlock?) && b < |s.blocks| && BlockInv(s, b)
    requires CallInv(s, s.threads[step.t]) && BlockReady(s, s.threads[step.t])
    ensures BlockInv(Apply(s, step), b)
  {
    var s' := Apply(s, step);
    SumsAfterCall(s, step.t, s'.threads[step.t], b);
  }

  lemma FinishKeepsBlock(s: State, step: Step, b: nat)
    requires Enabled(s, step) && step.Finish? && b < |s.blocks| && BlockInv(s, b)
    requires CallInv(s, s.threads[step.t]) && BlockReady(s, s.threads[step.t])
    ensures BlockInv(Apply(s, step), b)
  {
    var s', after := Apply(s, step), s.threads[step.t].after;
    SumsAfterCall(s, step.t, s'.threads[step.t], b);
    if after.InstallMove? {
      TwoHandles(s, after.dst, after.src, s.handles[after.src], MovedFrom(s.handles[after.src]), b);
    } else {
      SumUpdate(s.handles, after.dst, s'.handles[after.dst], HandleRef(b));
    }
  }

  lemma StepKeepsBlock(s: State, step: Step, b: nat)
    requires Inv(s) && Enabled(s, step) && b < |s.blocks|
    ensures BlockInv(Apply(s, step), b)
  {
    CallFacts(s, step.t);
    match step
    case AddRef(_) => AddRefKeepsBlock(s, step, b);
    case Decrement(_) => DecrementKeepsBlock(s, step, b);
    case DestroyObject(_) => CloseKeepsBlock(s, step, b);
    case DeleteBlock(_) => CloseKeepsBlock(s, step, b);
    case Finish(_) => FinishKeepsBlock(s, step, b);
    case Construct(_, _, _) => LocalKeepsBlock(s, step, b);
    case MoveConstruct(_, _, _) => LocalKeepsBlock(s, step, b);
    case CopyConstruct(_, _, _) => CopyKeepsBlock(s, step, b);
    case _ => BeginKeepsBlock(s, step, b);
  }

  lemma TwoHandles(s: State, dst: nat, src: nat, moved: Handle, left: Handle, b: nat)
    requires dst < |s.handles| && src < |s.handles| && dst != src
    ensures Sum(s.handles[dst := moved][src := left], HandleRef(b))
            + HandleRef(b)(s.handles[dst]) + HandleRef(b)(s.handles[src])
            == Sum(s.handles, HandleRef(b)) + HandleRef(b)(moved) + HandleRef(b)(left)
  {
    SumUpdate(s.handles, dst, moved, HandleRef(b));
    SumUpdate(s.handles[dst := moved], src, left, HandleRef(b));
  }

  lemma ConstructMakesBlock(s: State, step: Step)
    requires Inv(s) && Enabled(s, step) && step.Construct?
    ensures BlockInv(Apply(s, step), |s.blocks|)
  {
    var b, s' := |s.blocks|, Apply(s, step);
    forall h | 0 <= h < |s.handles| ensures HandleRef(b)(s.handles[h]) == 0 {
      assert HandleInv(s, h);
    }
    SumZero(s.handles, HandleRef(b));
    SumUpdate(s.handles, step.dst, s'.handles[step.dst], HandleRef(b));
    forall t | 0 <= t < |s.threads|
      ensures CallRef(b)(s.threads[t]) == 0 && Closing(b)(s.threads[t]) == 0 && DestroyingAt(b)(s.threads[t]) == 0
    {
      assert CallInv(s, s.threads[t]);
    }
    SumZero(s.threads, CallRef(b));
    SumZero(s.threads, Closing(b));
    SumZero(s.threads, DestroyingAt(b));
  }

  /** A step changes no variable that another call uses. */
  lemma OthersUntouched(s: State, step: Step, u: nat, h: nat)
    requires Inv(s) && Enabled(s, step) && u < |s.threads| && u != step.t
    requires h in Writes(s.threads[u]) + Reads(s.threads[u]) && h < |s.handles|
    ensures Apply(s, step).handles[h] == s.handles[h]
  {
    var call := s.threads[step.t];
    assert forall w :: w in Writes(call) ==> w != h;
  }

  lemma CallInvFrame(s: State, s': State, call: Call)
    requires CallInv(s, call)
    requires |s.blocks| <= |s'.blocks| && |s.handles| == |s'.handles|
    requires forall h :: h in Writes(call) + Reads(call) && h < |s.handles| ==> s'.handles[h] == s.handles[h]
    ensures CallInv(s', call)
  {
    if HasAfter(call) {
      assert call.after.dst in Writes(call);
      if !call.after.Gone? {
        assert call.after.src in Writes(call) + Reads(call);
      }
    }
  }

  lemma StepKeepsCalls(s: State, step: Step, u: nat)
    requires Inv(s) && Enabled(s, step) && u < |s.threads|
    ensures CallInv(Apply(s, step), Apply(s, step).threads[u])
  {
    var s' := Apply(s, step);
    assert CallInv(s, s.threads[u]);
    if u != step.t {
      forall h | h in Writes(s.threads[u]) + Reads(s.threads[u]) && h < |s.handles|
        ensures s'.handles[h] == s.handles[h]
      {
        OthersUntouched(s, step, u, h);
      }
      CallInvFrame(s, s', s.threads[u]);
    } else {
      StepKeepsOwnCall(s, step);
    }
  }

  lemma StepKeepsOwnCall(s: State, step: Step)
    requires Inv(s) && Enabled(s, step)
    ensures CallInv(Apply(s, step), Apply(s, step).threads[step.t])
  {
    var t := step.t;
    assert CallInv(s, s.threads[t]);
    if step.CopyConstruct? || step.CopyAssign? || step.MoveAssign? || step.Destruct? {
      assert HandleInv(s, step.dst);
      assert MayRead(s, step.dst);
      if !step.Destruct? {
        assert HandleInv(s, step.src);
        assert MayRead(s, step.src);
      }
    }
  }

  lemma StepKeepsHandle(s: State, step: Step, h: nat)
    requires Inv(s) && Enabled(s, step) && h < |s.handles|
    ensures HandleInv(Apply(s, step), h)
  {
    var s', t := Apply(s, step), step.t;
    assert HandleInv(s, h) && CallInv(s, s.threads[t]);
    if MayRead(s', h) {
      assert h !in Writes(s'.threads[t]);
    }
    if s'.handles[h] != s.handles[h] {
      if step.MoveConstruct? {
        assert HandleInv(s, step.src) && MayRead(s, step.src);
      } else if step.Finish? && s.threads[t].after.InstallMove? {
        assert HandleInv(s, s.threads[t].after.src);
      }
    } else if MayRead(s', h) && !MayRead(s, h) {
      var u :| 0 <= u < |s.threads| && h in Writes(s.threads[u]);
      assert h !in Writes(s'.threads[u]);
      assert u == t;
    }
  }

  /** A call uses no variable but those it used before and those it was allowed to take. */
  lemma NewUses(s: State, step: Step, h: nat)
    requires Enabled(s, step)
    ensures var was, now := s.threads[step.t], Apply(s, step).threads[step.t];
            && (h in Writes(now) ==> h in Writes(was) || MayWrite(s, h))
            && (h in Reads(now) ==> h in Reads(was) || MayRead(s, h))
  {
  }

  lemma StepKeepsExclusive(s: State, step: Step)
    requires Exclusive(s) && Enabled(s, step)
    ensures Exclusive(Apply(s, step))
  {
    var s', t := Apply(s, step), step.t;
    forall a, c, h | 0 <= a < |s.threads| && 0 <= c < |s.threads| && a != c && h in Writes(s'.threads[a])
      ensures h !in Writes(s'.threads[c]) && h !in Reads(s'.threads[c])
    {
      NewUses(s, step, h);
      assert a != t ==> s'.threads[a] == s.threads[a];
      assert c != t ==> s'.threads[c] == s.threads[c];
    }
  }

  lemma StepKeepsInv(s: State, step: Step)
    requires Inv(s) && Enabled(s, step)
    ensures Inv(Apply(s, step))
  {
    var s' := Apply(s, step);
    forall b | 0 <= b < |s'.blocks| ensures BlockInv(s', b) {
      if b < |s.blocks| { StepKeepsBlock(s, step, b); } else { ConstructMakesBlock(s, step); }
    }
    forall h | 0 <= h < |s'.handles| ensures HandleInv(s', h) { StepKeepsHandle(s, step, h); }
    forall t | 0 <= t < |s'.threads| ensures CallInv(s', s'.threads[t]) { StepKeepsCalls(s, step, t); }
    StepKeepsExclusive(s, step);
  }

  /** Every state of every interleaving satisfies the invariant. */
  lemma {:induction false} RunKeepsInv(s: State, steps: seq<Step>)
    requires Inv(s) && IsRun(s, steps)
    ensures Inv(Final(s, steps))
    decreases |steps|
  {
    if steps != [] {
      StepKeepsInv(s, steps[0]);
      RunKeepsInv(Apply(s, steps[0]), steps[1..]);
    }
  }

  // ----- object pointers -----

  /** What get() of a pointer to block b should return: the object the block was made for. */
  function OwnObject(s: State, b: nat): Option<nat>
    requires b < |s.blocks|
  {
    if s.blocks[b].hasObject then Some(b) else None
  }

  /** A pointer with a control block holds that block's object; an object pointer without a
      control block was once the address of an object. */
  predicate PtrOk(s: State, handle: Handle) {
    handle.Handle? ==>
      && (handle.block.Some? ==>
            handle.block.value < |s.blocks| && handle.ptr == OwnObject(s, handle.block.value))
      && (handle.ptr.Some? ==>
            handle.ptr.value < |s.blocks| && s.blocks[handle.ptr.value].hasObject)
  }

  ghost predicate PtrInv(s: State) {
    forall h :: 0 <= h < |s.handles| ==> PtrOk(s, s.handles[h])
  }

  lemma StepGrows(s: State, step: Step)
    requires Enabled(s, step)
    ensures var s' := Apply(s, step);
            && |s'.blocks| >= |s.blocks| && |s'.handles| == |s.handles| && |s'.threads| == |s.threads|
            && (forall b :: 0 <= b < |s.blocks| ==> s'.blocks[b].hasObject == s.blocks[b].hasObject)
  {
  }

  /** Every pointer after a step was a pointer before it, up to its count and a cleared control
      block pointer, or is new. */
  lemma StepKeepsPtr(s: State, step: Step, h: nat)
    requires Enabled(s, step) && h < |s.handles|
    requires forall k :: 0 <= k < |s.handles| ==> PtrOk(Apply(s, step), s.handles[k])
    ensures PtrOk(Apply(s, step), Apply(s, step).handles[h])
  {
  }

  lemma StepKeepsPtrInv(s: State, step: Step)
    requires PtrInv(s) && Enabled(s, step)
    ensures PtrInv(Apply(s, step))
  {
    var s' := Apply(s, step);
    StepGrows(s, step);
    forall k | 0 <= k < |s.handles| ensures PtrOk(s', s.handles[k]) {
      assert PtrOk(s, s.handles[k]);
    }
    forall h | 0 <= h < |s'.handles| ensures PtrOk(s', s'.handles[h]) {
      StepKeepsPtr(s, step, h);
    }
  }

  lemma {:induction false} RunKeepsPtrInv(s: State, steps: seq<Step>)
    requires PtrInv(s) && IsRun(s, steps)
    ensures PtrInv(Final(s, steps))
    decreases |steps|
  {
    if steps != [] {
      StepKeepsPtrInv(s, steps[0]);
      RunKeepsPtrInv(Apply(s, steps[0]), steps[1..]);
    }
  }

  // ----- what every interleaving promises -----

  /** The count of a block is the number of counted pointers at it plus the references that
      unfinished copy assignments carry; a freed block has neither. */
  lemma CountsAreReferences(s0: State, steps: seq<Step>, b: nat)
    requires Start(s0) && IsRun(s0, steps) && b < |Final(s0, steps).blocks|
    ensures var s := Final(s0, steps);
            && s.blocks[b].count == Refs(s, b)
            && (s.blocks[b].freed ==> Refs(s, b) == 0)
            && s.blocks[b].destroyed <= 1
            && (s.blocks[b].destroyed == 1 ==> s.blocks[b].hasObject && Refs(s, b) == 0)
  {
    StartInv(s0);
    RunKeepsInv(s0, steps);
    assert BlockInv(Final(s0, steps), b);
  }

  lemma LivePointer(s: State, h: nat)
    requires Inv(s) && MayRead(s, h) && s.handles[h].Handle? && s.handles[h].block.Some?
    ensures var b := s.handles[h].block.value;
            b < |s.blocks| && !s.blocks[b].freed && s.blocks[b].destroyed == 0 && s.blocks[b].count >= 1
  {
    assert HandleInv(s, h);
    assert BlockInv(s, s.handles[h].block.value);
    SumAtLeast(s.handles, h, HandleRef(s.handles[h].block.value));
  }

  /** A pointer that no call is writing and whose control block pointer is not null leads to a
      block that is not freed; get() returns the block's own object, which is not destroyed. */
  lemma NoDanglingPointer(s0: State, steps: seq<Step>, h: nat)
    requires Start(s0) && IsRun(s0, steps)
    ensures var s := Final(s0, steps);
            MayRead(s, h) && s.handles[h].Handle? && s.handles[h].block.Some? ==>
              var b := s.handles[h].block.value;
              && b < |s.blocks| && !s.blocks[b].freed && s.blocks[b].destroyed == 0 && s.blocks[b].count >= 1
              && s.handles[h].ptr == OwnObject(s, b)
  {
    StartInv(s0);
    RunKeepsInv(s0, steps);
    RunKeepsPtrInv(s0, steps);
    var s := Final(s0, steps);
    if MayRead(s, h) && s.handles[h].Handle? && s.handles[h].block.Some? {
      LivePointer(s, h);
    }
  }

  /** The block that a step reads or writes. */
  function Touched(s: State, step: Step): Option<nat>
    requires Enabled(s, step)
  {
    var call := s.threads[step.t];
    match step
    case AddRef(_) => s.handles[call.src].block
    case Decrement(_) => s.handles[call.after.dst].block
    case DestroyObject(_) => Some(call.block)
    case DeleteBlock(_) => Some(call.block)
    case _ => None
  }

  /** No step touches a freed block; the count never drops below zero; the object is destroyed
      at most once, after the decrement that reached zero and before the block is deleted. */
  lemma StepsAreSafe(s0: State, steps: seq<Step>, step: Step)
    requires Start(s0) && IsRun(s0, steps) && Enabled(Final(s0, steps), step)
    ensures var s := Final(s0, steps);
            Touched(s, step).Some? ==>
              && Touched(s, step).value < |s.blocks|
              && var k := s.blocks[Touched(s, step).value];
                 && !k.freed
                 && (step.AddRef? || step.Decrement? ==> k.count >= 1 && k.destroyed == 0)
                 && (step.DestroyObject? ==> k.count == 0 && k.hasObject && k.destroyed == 0)
                 && (step.DeleteBlock? ==> k.count == 0 && k.destroyed == if k.hasObject then 1 else 0)
  {
    StartInv(s0);
    RunKeepsInv(s0, steps);
    var s := Final(s0, steps);
    CallFacts(s, step.t);
    assert CallInv(s, s.threads[step.t]);
    if Touched(s, step).Some? {
      assert BlockInv(s, Touched(s, step).value);
    }
  }

  // ----- calls end -----

  predicate IsContinuation(step: Step) {
    step.AddRef? || step.Decrement? || step.DestroyObject? || step.DeleteBlock? || step.Finish?
  }

  /** How many atomic actions a call still has before it at most. */
  function CallRank(call: Call): nat {
    match call
    case Idle => 0
    case CopyAdding(_, _) => 1
    case AssignAdding(_, _) => 5
    case Releasing(_) => 4
    case Destroying(_, _) => 3
    case Deleting(_, _) => 2
    case Finishing(_) => 1
  }

  function NextStep(call: Call, t: nat): Step
    requires !call.Idle?
  {
    match call
    case CopyAdding(_, _) => AddRef(t)
    case AssignAdding(_, _) => AddRef(t)
    case Releasing(_) => Decrement(t)
    case Destroying(_, _) => DestroyObject(t)
    case Deleting(_, _) => DeleteBlock(t)
    case Finishing(_) => Finish(t)
  }

  lemma StepRanks(s: State, step: Step)
    requires Enabled(s, step)
    ensures var s' := Apply(s, step);
            && |s'.threads| == |s.threads| && |s'.handles| == |s.handles|
            && (forall u :: 0 <= u < |s.threads| && u != step.t ==> s'.threads[u] == s.threads[u])
            && (IsContinuation(step) ==> CallRank(s'.threads[step.t]) < CallRank(s.threads[step.t]))
  {
  }

  lemma NextStepEnabled(s: State, t: nat)
    requires t < |s.threads| && CallInv(s, s.threads[t]) && !s.threads[t].Idle?
    ensures Enabled(s, NextStep(s.threads[t], t)) && IsContinuation(NextStep(s.threads[t], t))
  {
  }

  function OwnSteps(steps: seq<Step>, t: nat): nat {
    if steps == [] then 0 else (if steps[0].t == t then 1 else 0) + OwnSteps(steps[1..], t)
  }

  lemma {:induction false} OwnStepsBound(s: State, steps: seq<Step>, t: nat)
    requires IsRun(s, steps) && t < |s.threads|
    requires forall i :: 0 <= i < |steps| && steps[i].t == t ==> IsContinuation(steps[i])
    ensures t < |Final(s, steps).threads|
    ensures OwnSteps(steps, t) + CallRank(Final(s, steps).threads[t]) <= CallRank(s.threads[t])
    decreases |steps|
  {
    if steps != [] {
      StepRanks(s, steps[0]);
      assert steps[0].t == t ==> IsContinuation(steps[0]);
      assert forall i :: 0 <= i < |steps[1..]| ==> steps[1..][i] == steps[i + 1];
      OwnStepsBound(Apply(s, steps[0]), steps[1..], t);
    }
  }

  /** Calls are wait-free: a call in progress always has a next action, no other thread can
      prolong it, and it ends after at most five of its own actions. */
  lemma CallsEnd(s0: State, steps: seq<Step>, t: nat, more: seq<Step>)
    requires Start(s0) && IsRun(s0, steps) && t < |Final(s0, steps).threads|
    requires IsRun(Final(s0, steps), more)
    requires forall i :: 0 <= i < |more| && more[i].t == t ==> IsContinuation(more[i])
    ensures var s := Final(s0, steps);
            !s.threads[t].Idle? ==> Enabled(s, NextStep(s.threads[t], t))
    ensures OwnSteps(more, t) <= 5
  {
    StartInv(s0);
    RunKeepsInv(s0, steps);
    var s := Final(s0, steps);
    assert CallInv(s, s.threads[t]);
    if !s.threads[t].Idle? {
      NextStepEnabled(s, t);
    }
    OwnStepsBound(s, more, t);
  }

  // ----- nothing leaks -----

  predicate AllIdle(s: State) {
    forall t :: 0 <= t < |s.threads| ==> s.threads[t].Idle?
  }

  predicate Unreferenced(s: State, b: nat) {
    forall h :: 0 <= h < |s.handles| && s.handles[h].Handle? ==> s.handles[h].block != Some(b)
  }

  lemma UnreferencedIsFreed(s: State, b: nat)
    requires Inv(s) && AllIdle(s) && b < |s.blocks| && Unreferenced(s, b)
    ensures var k := s.blocks[b];
            k.freed && k.count == 0 && k.destroyed == if k.hasObject then 1 else 0
  {
    assert BlockInv(s, b);
    SumZero(s.handles, HandleRef(b));
    SumZero(s.threads, CallRef(b));
    SumZero(s.threads, Closing(b));
    SumZero(s.threads, DestroyingAt(b));
  }

  /** Nothing leaks: once every call has returned, every block that no variable points at is
      freed, and its object, if it had one, was destroyed exactly once. */
  lemma NothingLeaks(s0: State, steps: seq<Step>, b: nat)
    requires Start(s0) && IsRun(s0, steps) && AllIdle(Final(s0, steps)) && b < |Final(s0, steps).blocks|
    requires Unreferenced(Final(s0, steps), b)
    ensures var k := Final(s0, steps).blocks[b];
            k.freed && k.count == 0 && k.destroyed == if k.hasObject then 1 else 0
  {
    StartInv(s0);
    RunKeepsInv(s0, steps);
    UnreferencedIsFreed(Final(s0, steps), b);
  }
}
