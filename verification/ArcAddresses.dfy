/** When get() returns the address of a destroyed object. Move assignment leaves the object
    pointer of its source in place, so a source whose object pointer is not null is the only
    way to get there, and always one. */
module ArcAddresses {
  import opened ArcProtocol
  import opened ArcCalls
  import opened Wrappers

  /** What get() returns is null, or the address of the object of the pointer's own block,
      which exists. */
  predicate GetIsSound(s: State, h: nat)
    requires h < |s.handles|
  {
    s.handles[h].Handle? && s.handles[h].ptr.Some? ==>
      var k := s.handles[h].ptr.value;
      && s.handles[h].block == Some(k) && k < |s.blocks|
      && s.blocks[k].hasObject && s.blocks[k].destroyed == 0 && !s.blocks[k].freed
  }

  /** Every variable that no call is writing. */
  ghost predicate GetsAreSound(s: State) {
    forall h: nat :: MayRead(s, h) ==> GetIsSound(s, h)
  }

  /** No move assignment starts from a variable whose object pointer is not null. */
  predicate IsClean(s: State, step: Step)
    requires Enabled(s, step)
  {
    step.MoveAssign? ==> s.handles[step.src].ptr.None?
  }

  predicate CleanRun(s: State, steps: seq<Step>)
    requires IsRun(s, steps)
    decreases |steps|
  {
    steps == [] || (IsClean(s, steps[0]) && CleanRun(Apply(s, steps[0]), steps[1..]))
  }

  // ----- clean runs are safe -----

  predicate EmptyOk(handle: Handle) {
    handle.Handle? && handle.block.None? ==> handle.ptr.None?
  }

  predicate MoveOk(s: State, call: Call) {
    HasAfter(call) && call.after.InstallMove? ==>
      call.after.src < |s.handles| && s.handles[call.after.src].Handle? && s.handles[call.after.src].ptr.None?
  }

  ghost predicate CleanInv(s: State) {
    && (forall h :: 0 <= h < |s.handles| ==> EmptyOk(s.handles[h]))
    && (forall t :: 0 <= t < |s.threads| ==> MoveOk(s, s.threads[t]))
  }

  lemma StepKeepsEmptyOk(s: State, step: Step, h: nat)
    requires CleanInv(s) && Enabled(s, step) && h < |s.handles|
    ensures EmptyOk(Apply(s, step).handles[h])
  {
    assert MoveOk(s, s.threads[step.t]);
  }

  lemma StepKeepsOwnMoveOk(s: State, step: Step)
    requires CleanInv(s) && Enabled(s, step) && IsClean(s, step)
    ensures MoveOk(Apply(s, step), Apply(s, step).threads[step.t])
  {
    assert MoveOk(s, s.threads[step.t]);
  }

  lemma StepKeepsCleanInv(s: State, step: Step)
    requires Inv(s) && CleanInv(s) && Enabled(s, step) && IsClean(s, step)
    ensures CleanInv(Apply(s, step))
  {
    var s' := Apply(s, step);
    StepGrows(s, step);
    forall h | 0 <= h < |s'.handles| ensures EmptyOk(s'.handles[h]) {
      StepKeepsEmptyOk(s, step, h);
    }
    forall u | 0 <= u < |s'.threads| ensures MoveOk(s', s'.threads[u]) {
      assert MoveOk(s, s.threads[u]);
      if u == step.t {
        StepKeepsOwnMoveOk(s, step);
      } else if HasAfter(s.threads[u]) && s.threads[u].after.InstallMove? {
        assert s'.threads[u] == s.threads[u];
        OthersUntouched(s, step, u, s.threads[u].after.src);
      }
    }
  }

  lemma {:induction false} CleanRunIsSound(s: State, steps: seq<Step>)
    requires Inv(s) && PtrInv(s) && CleanInv(s) && IsRun(s, steps) && CleanRun(s, steps)
    ensures Inv(Final(s, steps)) && PtrInv(Final(s, steps)) && CleanInv(Final(s, steps))
    ensures GetsAreSound(Final(s, steps))
    decreases |steps|
  {
    if steps == [] {
      forall h: nat | MayRead(s, h) ensures GetIsSound(s, h) {
        assert EmptyOk(s.handles[h]) && PtrOk(s, s.handles[h]);
        if s.handles[h].Handle? && s.handles[h].block.Some? {
          LivePointer(s, h);
        }
      }
    } else {
      StepKeepsInv(s, steps[0]);
      StepKeepsPtrInv(s, steps[0]);
      StepKeepsCleanInv(s, steps[0]);
      CleanRunIsSound(Apply(s, steps[0]), steps[1..]);
    }
  }

  /** In a run without such a move assignment, what get() returns is null or the undestroyed
      object of the pointer's own block. */
  lemma GetIsSafe(s0: State, steps: seq<Step>)
    requires Start(s0) && IsRun(s0, steps) && CleanRun(s0, steps)
    ensures GetsAreSound(Final(s0, steps))
  {
    StartInv(s0);
    CleanRunIsSound(s0, steps);
  }

  // ----- every other run can go wrong -----

  lemma {:induction false} NoMoveAssignIsClean(s: State, steps: seq<Step>)
    requires IsRun(s, steps) && NoMoveAssign(steps)
    ensures CleanRun(s, steps)
    decreases |steps|
  {
    if steps != [] {
      assert !steps[0].MoveAssign?;
      assert forall i :: 0 <= i < |steps[1..]| ==> steps[1..][i] == steps[i + 1];
      NoMoveAssignIsClean(Apply(s, steps[0]), steps[1..]);
    }
  }

  /** From any state, once no call is in progress and all variables but a pointer without
      control block are dropped, no object is left. */
  lemma DropOthers(s: State, t: nat, h: nat) returns (run: seq<Step>)
    requires Inv(s) && t < |s.threads| && MayRead(s, h) && s.handles[h].Handle? && s.handles[h].block.None?
    ensures IsRun(s, run) && NoMoveAssign(run)
    ensures var f := Final(s, run);
            && AllIdle(f) && |f.handles| == |s.handles| && f.handles[h] == s.handles[h]
            && forall b :: 0 <= b < |f.blocks| ==>
                 f.blocks[b].freed && f.blocks[b].destroyed == if f.blocks[b].hasObject then 1 else 0
  {
    var calls := Quiesce(s);
    var s1 := Final(s, calls);
    RunGrows(s, calls);
    var drops := DropFrom(s1, t, h, 0);
    RunsCompose(s, calls, drops);
    run := calls + drops;
    var f := Final(s1, drops);
    forall b | 0 <= b < |f.blocks|
      ensures f.blocks[b].freed && f.blocks[b].destroyed == if f.blocks[b].hasObject then 1 else 0
    {
      UnreferencedIsFreed(f, b);
    }
  }

  lemma DangleAfter(s: State, step: Step) returns (more: seq<Step>)
    requires Inv(s) && PtrInv(s) && Enabled(s, step) && step.MoveAssign? && s.handles[step.src].ptr.Some?
    ensures IsRun(Apply(s, step), more) && NoMoveAssign(more)
    ensures var f, k := Final(Apply(s, step), more), s.handles[step.src].ptr.value;
            && MayRead(f, step.src) && f.handles[step.src].Handle? && f.handles[step.src].ptr == Some(k)
            && k < |f.blocks| && f.blocks[k].destroyed == 1 && f.blocks[k].freed
  {
    assert PtrOk(s, s.handles[step.src]);
    var s1 := Apply(s, step);
    StepKeepsInv(s, step);
    var move := FinishAssignMove(s, step.t, step.dst, step.src);
    var s2 := Final(s1, move);
    RunKeepsInv(s1, move);
    var drops := DropOthers(s2, step.t, step.src);
    RunsCompose(s1, move, drops);
    RunGrows(s2, drops);
    more := move + drops;
  }

  /** From every reachable state: any move assignment from a variable for which get() is not
      null can go on so that get() of that variable returns the address of a destroyed object. */
  lemma MoveAssignCanDangle(s0: State, steps: seq<Step>, step: Step) returns (more: seq<Step>)
    requires Start(s0) && IsRun(s0, steps) && Enabled(Final(s0, steps), step) && step.MoveAssign?
    requires Final(s0, steps).handles[step.src].ptr.Some?
    ensures var s := Apply(Final(s0, steps), step);
            && IsRun(s, more) && NoMoveAssign(more)
            && var f, k := Final(s, more), Final(s0, steps).handles[step.src].ptr.value;
               && MayRead(f, step.src) && f.handles[step.src].Handle? && f.handles[step.src].ptr == Some(k)
               && k < |f.blocks| && f.blocks[k].destroyed == 1 && f.blocks[k].freed
  {
    StartInv(s0);
    RunKeepsInv(s0, steps);
    RunKeepsPtrInv(s0, steps);
    more := DangleAfter(Final(s0, steps), step);
  }

  /** However clean calls go on from here, what get() returns is sound. */
  ghost predicate StaysSound(s: State) {
    forall more :: IsRun(s, more) && CleanRun(s, more) ==> GetsAreSound(Final(s, more))
  }

  lemma CleanStaysSound(s: State)
    requires Inv(s) && PtrInv(s) && CleanInv(s)
    ensures StaysSound(s)
  {
    forall more | IsRun(s, more) && CleanRun(s, more) ensures GetsAreSound(Final(s, more)) {
      CleanRunIsSound(s, more);
    }
  }

  /** After a clean run, a move assignment stays sound, whatever clean calls follow, exactly
      when get() of its source is null. */
  lemma {:induction false} MoveAssignSafeIff(s0: State, steps: seq<Step>, step: Step)
    requires Start(s0) && IsRun(s0, steps) && CleanRun(s0, steps)
    requires Enabled(Final(s0, steps), step) && step.MoveAssign?
    ensures StaysSound(Apply(Final(s0, steps), step)) <==> Final(s0, steps).handles[step.src].ptr.None?
  {
    var s := Final(s0, steps);
    var s' := Apply(s, step);
    StartInv(s0);
    CleanRunIsSound(s0, steps);
    if s.handles[step.src].ptr.None? {
      StepKeepsInv(s, step);
      StepKeepsPtrInv(s, step);
      StepKeepsCleanInv(s, step);
      CleanStaysSound(s');
    } else {
      var more := MoveAssignCanDangle(s0, steps, step);
      NoMoveAssignIsClean(s', more);
      assert !GetIsSound(Final(s', more), step.src);
    }
  }
}
