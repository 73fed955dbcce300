/** Whole calls of the reference-count protocol: what a call does when nobody interferes, and
    how any state can be brought to rest. */
module ArcCalls {
  import opened ArcProtocol
  import opened Sums
  import opened Wrappers

  // ----- runs in sequence -----

  lemma RunOfOne(s: State, step: Step)
    requires Enabled(s, step)
    ensures IsRun(s, [step]) && Final(s, [step]) == Apply(s, step)
  {
  }

  /** A run that starts with the given step. */
  lemma RunFrom(s: State, step: Step, more: seq<Step>)
    requires Enabled(s, step) && IsRun(Apply(s, step), more)
    ensures IsRun(s, [step] + more) && Final(s, [step] + more) == Final(Apply(s, step), more)
  {
    assert ([step] + more)[1..] == more;
  }

  lemma {:induction false} RunsCompose(s: State, first: seq<Step>, more: seq<Step>)
    requires IsRun(s, first) && IsRun(Final(s, first), more)
    ensures IsRun(s, first + more) && Final(s, first + more) == Final(Final(s, first), more)
    decreases |first|
  {
    if first == [] {
      assert first + more == more;
    } else {
      var run := first + more;
      assert run[0] == first[0] && run[1..] == first[1..] + more;
      RunsCompose(Apply(s, first[0]), first[1..], more);
    }
  }

  lemma {:induction false} RunGrows(s: State, steps: seq<Step>)
    requires IsRun(s, steps)
    ensures var s' := Final(s, steps);
            && |s'.blocks| >= |s.blocks| && |s'.handles| == |s.handles| && |s'.threads| == |s.threads|
            && (forall b :: 0 <= b < |s.blocks| ==> s'.blocks[b].hasObject == s.blocks[b].hasObject)
    decreases |steps|
  {
    if steps != [] {
      StepGrows(s, steps[0]);
      RunGrows(Apply(s, steps[0]), steps[1..]);
    }
  }

  // ----- one call alone -----

  /** Actions of one thread that start no call, and a whole call by its first action. */
  predicate RestOfCall(steps: seq<Step>, t: nat) {
    forall i :: 0 <= i < |steps| ==> steps[i].t == t && IsContinuation(steps[i])
  }

  predicate IsCall(steps: seq<Step>, first: Step) {
    steps != [] && steps[0] == first && RestOfCall(steps[1..], first.t)
  }

  predicate NoMoveAssign(steps: seq<Step>) {
    forall i :: 0 <= i < |steps| ==> !steps[i].MoveAssign?
  }

  function AddedRef(block: Block): Block {
    block.(count := block.count + 1)
  }

  /** A whole release_ref: the decrement, and on zero the destruction and the deletion. */
  function Released(block: Block): Block {
    var count := block.count - 1;
    if count != 0 then block.(count := count)
    else block.(count := 0, destroyed := block.destroyed + (if block.hasObject then 1 else 0), freed := true)
  }

  /** What follows a decrement that reached zero. */
  lemma SoloDelete(s: State, t: nat) returns (run: seq<Step>)
    requires t < |s.threads| && s.threads[t].Deleting? && s.threads[t].block < |s.blocks|
    ensures IsRun(s, run) && RestOfCall(run, t)
    ensures var b := s.threads[t].block;
            Final(s, run) == s.SetBlock(b, s.blocks[b].(freed := true)).SetCall(t, Finishing(s.threads[t].after))
  {
    run := [DeleteBlock(t)];
    RunOfOne(s, DeleteBlock(t));
  }

  lemma SoloDestroy(s: State, t: nat) returns (run: seq<Step>)
    requires t < |s.threads| && s.threads[t].Destroying? && s.threads[t].block < |s.blocks|
    ensures IsRun(s, run) && RestOfCall(run, t)
    ensures var b := s.threads[t].block;
            Final(s, run) == s.SetBlock(b, s.blocks[b].(destroyed := s.blocks[b].destroyed + 1, freed := true))
                              .SetCall(t, Finishing(s.threads[t].after))
  {
    var more := SoloDelete(Apply(s, DestroyObject(t)), t);
    RunFrom(s, DestroyObject(t), more);
    run := [DestroyObject(t)] + more;
  }

  function Closed(s: State, t: nat, b: nat, after: After): State
    requires t < |s.threads| && b < |s.blocks|
  {
    var block, call := s.blocks[b], s.threads[t];
    s.SetBlock(b, block.(destroyed := block.destroyed + (if call.Destroying? then 1 else 0),
                         freed := block.freed || !call.Finishing?))
     .SetCall(t, Finishing(after))
  }

  /** What follows a decrement, by the call it left behind. */
  lemma SoloClose(s: State, t: nat, b: nat, after: After) returns (run: seq<Step>)
    requires t < |s.threads| && b < |s.blocks|
    requires s.threads[t] in {Destroying(b, after), Deleting(b, after), Finishing(after)}
    ensures IsRun(s, run) && RestOfCall(run, t) && Final(s, run) == Closed(s, t, b, after)
  {
    if s.threads[t].Destroying? {
      run := SoloDestroy(s, t);
    } else if s.threads[t].Deleting? {
      run := SoloDelete(s, t);
    } else {
      run := [];
    }
  }

  lemma DecrementThenClose(s: State, t: nat)
    requires t < |s.threads| && s.threads[t].Releasing? && Points(s, s.threads[t].after.dst)
    ensures var after := s.threads[t].after;
            var b := s.handles[after.dst].block.value;
            var s1 := Apply(s, Decrement(t));
            && s1.threads[t] in {Destroying(b, after), Deleting(b, after), Finishing(after)}
            && Closed(s1, t, b, after) == s.SetBlock(b, Released(s.blocks[b]))
                                           .SetHandle(after.dst, s.handles[after.dst].(counted := false))
                                           .SetCall(t, Finishing(after))
  {
  }

  /** The atomic actions of release_ref add up to Released. */
  lemma SoloRelease(s: State, t: nat) returns (run: seq<Step>)
    requires t < |s.threads| && s.threads[t].Releasing? && Points(s, s.threads[t].after.dst)
    ensures IsRun(s, run) && RestOfCall(run, t)
    ensures var after := s.threads[t].after;
            var b := s.handles[after.dst].block.value;
            Final(s, run) == s.SetBlock(b, Released(s.blocks[b]))
                              .SetHandle(after.dst, s.handles[after.dst].(counted := false))
                              .SetCall(t, Finishing(after))
  {
    DecrementThenClose(s, t);
    var after := s.threads[t].after;
    var more := SoloClose(Apply(s, Decrement(t)), t, s.handles[after.dst].block.value, after);
    RunFrom(s, Decrement(t), more);
    run := [Decrement(t)] + more;
  }

  /** release_ref and the last action of the call. */
  lemma ReleaseAndFinish(s: State, t: nat) returns (run: seq<Step>)
    requires t < |s.threads| && s.threads[t].Releasing?
    requires var after := s.threads[t].after;
             Points(s, after.dst) && CanInstall(s, after) && (!after.Gone? ==> after.src != after.dst)
    ensures IsRun(s, run) && RestOfCall(run, t)
    ensures var after := s.threads[t].after;
            var b := s.handles[after.dst].block.value;
            Final(s, run) == Installed(s, after).SetBlock(b, Released(s.blocks[b])).SetCall(t, Idle)
  {
    var first := SoloRelease(s, t);
    var s1 := Final(s, first);
    RunOfOne(s1, Finish(t));
    RunsCompose(s, first, [Finish(t)]);
    run := first + [Finish(t)];
  }

  /** The thread of a call is back to where it was. */
  lemma IdleAgain(s: State, t: nat, one: Call)
    requires t < |s.threads| && s.threads[t].Idle?
    ensures s.threads[t := one][t := Idle] == s.threads
  {
  }

  /** A destructor call that nobody interrupts releases the block, if there is one. */
  lemma SoloDrop(s: State, t: nat, h: nat) returns (run: seq<Step>)
    requires Enabled(s, Destruct(t, h)) && (s.handles[h].block.Some? ==> Points(s, h))
    ensures IsRun(s, run) && IsCall(run, Destruct(t, h))
    ensures Final(s, run) ==
              var gone := s.SetHandle(h, Absent);
              if Points(s, h) then
                var b := s.handles[h].block.value;
                gone.SetBlock(b, Released(s.blocks[b]))
              else gone
  {
    var s1 := Apply(s, Destruct(t, h));
    var more := [];
    if s.handles[h].block.Some? {
      more := ReleaseAndFinish(s1, t);
      IdleAgain(s, t, Releasing(Gone(h)));
    }
    RunFrom(s, Destruct(t, h), more);
    run := [Destruct(t, h)] + more;
  }

  /** The default and the pointer constructor: a new block with count one, and a variable that
      holds the block's own object, if there is one. */
  lemma SoloConstruct(s: State, t: nat, dst: nat, hasObject: bool) returns (run: seq<Step>)
    requires Enabled(s, Construct(t, dst, hasObject))
    ensures IsRun(s, run) && IsCall(run, Construct(t, dst, hasObject))
    ensures var f, b := Final(s, run), |s.blocks|;
            && f.blocks == s.blocks + [Block(1, hasObject, 0, false)] && f.threads == s.threads
            && |f.handles| == |s.handles|
            && f.handles[dst] == Handle(Some(b), if hasObject then Some(b) else None, true)
            && forall h :: 0 <= h < |s.handles| && h != dst ==> f.handles[h] == s.handles[h]
  {
    run := [Construct(t, dst, hasObject)];
    RunOfOne(s, Construct(t, dst, hasObject));
  }

  /** A move construction: the new variable takes over block and object pointer, the source has
      neither any more, and no count changes. */
  lemma SoloMove(s: State, t: nat, dst: nat, src: nat) returns (run: seq<Step>)
    requires Enabled(s, MoveConstruct(t, dst, src))
    ensures IsRun(s, run) && IsCall(run, MoveConstruct(t, dst, src)) && dst != src
    ensures var f := Final(s, run);
            && f.blocks == s.blocks && f.threads == s.threads && |f.handles| == |s.handles|
            && f.handles[dst] == s.handles[src]
            && f.handles[src].Handle? && f.handles[src].block == None && f.handles[src].ptr == None
            && forall h :: 0 <= h < |s.handles| && h != dst && h != src ==> f.handles[h] == s.handles[h]
  {
    run := [MoveConstruct(t, dst, src)];
    RunOfOne(s, MoveConstruct(t, dst, src));
  }

  /** A copy construction that nobody interrupts. */
  lemma SoloCopy(s: State, t: nat, dst: nat, src: nat) returns (run: seq<Step>)
    requires Enabled(s, CopyConstruct(t, dst, src))
    ensures IsRun(s, run) && IsCall(run, CopyConstruct(t, dst, src))
    ensures var b := s.handles[src].block.value;
            Final(s, run) == s.SetHandle(dst, s.handles[src].(counted := true)).SetBlock(b, AddedRef(s.blocks[b]))
  {
    var s1 := Apply(s, CopyConstruct(t, dst, src));
    RunOfOne(s1, AddRef(t));
    RunFrom(s, CopyConstruct(t, dst, src), [AddRef(t)]);
    run := [CopyConstruct(t, dst, src), AddRef(t)];
    IdleAgain(s, t, CopyAdding(dst, src));
  }

  /** The new block gains a reference before the old one loses its own. */
  function Replaced(s: State, dst: nat, src: nat): State
    requires Points(s, dst) && Points(s, src)
  {
    var next, was := s.handles[src].block.value, s.handles[dst].block.value;
    s.SetHandle(dst, s.handles[src].(counted := true))
     .SetBlock(next, AddedRef(s.blocks[next])).SetBlock(was, Released(s.blocks[was]))
  }

  lemma AddRefThenRelease(s: State, t: nat)
    requires Enabled(s, AddRef(t)) && s.threads[t].AssignAdding?
    requires s.handles[s.threads[t].dst].block != s.handles[s.threads[t].src].block
    ensures var dst, src := s.threads[t].dst, s.threads[t].src;
            var next, was := s.handles[src].block.value, s.handles[dst].block.value;
            var s1 := Apply(s, AddRef(t));
            && s1.threads[t] == Releasing(InstallCopy(dst, src, next))
            && Points(s1, dst) && Points(s1, src) && dst != src
            && Installed(s1, InstallCopy(dst, src, next)).SetBlock(was, Released(s1.blocks[was])).SetCall(t, Idle)
               == Replaced(s, dst, src).SetCall(t, Idle)
  {
  }

  lemma SoloReplace(s: State, t: nat) returns (run: seq<Step>)
    requires Enabled(s, AddRef(t)) && s.threads[t].AssignAdding?
    requires s.handles[s.threads[t].dst].block != s.handles[s.threads[t].src].block
    ensures IsRun(s, run) && RestOfCall(run, t)
    ensures Final(s, run) == Replaced(s, s.threads[t].dst, s.threads[t].src).SetCall(t, Idle)
  {
    AddRefThenRelease(s, t);
    var more := ReleaseAndFinish(Apply(s, AddRef(t)), t);
    RunFrom(s, AddRef(t), more);
    run := [AddRef(t)] + more;
  }

  /** A copy assignment that nobody interrupts: nothing happens between pointers to one block. */
  lemma SoloAssignCopy(s: State, t: nat, dst: nat, src: nat) returns (run: seq<Step>)
    requires Enabled(s, CopyAssign(t, dst, src))
    ensures IsRun(s, run) && IsCall(run, CopyAssign(t, dst, src))
    ensures Final(s, run) == if s.handles[dst].block == s.handles[src].block then s else Replaced(s, dst, src)
  {
    var more := [];
    if s.handles[dst].block != s.handles[src].block {
      more := SoloReplace(Apply(s, CopyAssign(t, dst, src)), t);
      IdleAgain(s, t, AssignAdding(dst, src));
    }
    RunFrom(s, CopyAssign(t, dst, src), more);
    run := [CopyAssign(t, dst, src)] + more;
  }

  /** What follows the first action of a move assignment that nobody interrupts. */
  lemma FinishAssignMove(s: State, t: nat, dst: nat, src: nat) returns (more: seq<Step>)
    requires Enabled(s, MoveAssign(t, dst, src))
    ensures RestOfCall(more, t)
    ensures var s1 := Apply(s, MoveAssign(t, dst, src));
            var b := s.handles[dst].block.value;
            && IsRun(s1, more)
            && Final(s1, more) == s.SetHandle(dst, s.handles[src]).SetHandle(src, MovedFrom(s.handles[src]))
                                   .SetBlock(b, Released(s.blocks[b]))
  {
    more := ReleaseAndFinish(Apply(s, MoveAssign(t, dst, src)), t);
    IdleAgain(s, t, Releasing(InstallMove(dst, src)));
  }

  /** A move assignment that nobody interrupts: the source keeps its object pointer. */
  lemma SoloAssignMove(s: State, t: nat, dst: nat, src: nat) returns (run: seq<Step>)
    requires Enabled(s, MoveAssign(t, dst, src))
    ensures IsRun(s, run) && IsCall(run, MoveAssign(t, dst, src))
    ensures var b := s.handles[dst].block.value;
            Final(s, run) == s.SetHandle(dst, s.handles[src])
                              .SetHandle(src, s.handles[src].(block := None, counted := false))
                              .SetBlock(b, Released(s.blocks[b]))
  {
    var more := FinishAssignMove(s, t, dst, src);
    RunFrom(s, MoveAssign(t, dst, src), more);
    run := [MoveAssign(t, dst, src)] + more;
  }

  // ----- bringing a state to rest -----

  lemma ContinuationFrame(s: State, step: Step, h: nat)
    requires Enabled(s, step) && IsContinuation(step) && CallInv(s, s.threads[step.t]) && MayRead(s, h)
    ensures MayRead(Apply(s, step), h) && Apply(s, step).handles[h] == s.handles[h]
  {
    StepRanks(s, step);
    assert h !in Writes(s.threads[step.t]);
    assert h !in Writes(Apply(s, step).threads[step.t]);
  }

  /** The next action of a call in progress leaves less to do and keeps what nobody writes. */
  lemma NextStepAdvances(s: State, t: nat)
    requires Inv(s) && t < |s.threads| && !s.threads[t].Idle?
    ensures var step := NextStep(s.threads[t], t);
            && Enabled(s, step) && IsContinuation(step)
            && var s' := Apply(s, step);
               && Inv(s') && |s'.handles| == |s.handles|
               && Sum(s'.threads, CallRank) < Sum(s.threads, CallRank)
               && forall h: nat :: MayRead(s, h) ==> MayRead(s', h) && s'.handles[h] == s.handles[h]
  {
    assert CallInv(s, s.threads[t]);
    NextStepEnabled(s, t);
    var step := NextStep(s.threads[t], t);
    var s' := Apply(s, step);
    StepKeepsInv(s, step);
    StepRanks(s, step);
    assert s'.threads == s.threads[t := s'.threads[t]];
    SumUpdate(s.threads, t, s'.threads[t], CallRank);
    forall h: nat | MayRead(s, h) ensures MayRead(s', h) && s'.handles[h] == s.handles[h] {
      ContinuationFrame(s, step, h);
    }
  }

  /** Every call in progress can be brought to its end; variables that none of them writes
      keep their pointers. */
  lemma {:induction false} Quiesce(s: State) returns (run: seq<Step>)
    requires Inv(s)
    ensures IsRun(s, run) && NoMoveAssign(run)
    ensures AllIdle(Final(s, run)) && Inv(Final(s, run)) && |Final(s, run).handles| == |s.handles|
    ensures forall h: nat :: MayRead(s, h) ==> Final(s, run).handles[h] == s.handles[h]
    decreases Sum(s.threads, CallRank)
  {
    if AllIdle(s) {
      run := [];
    } else {
      var t: nat :| t < |s.threads| && !s.threads[t].Idle?;
      NextStepAdvances(s, t);
      var step := NextStep(s.threads[t], t);
      var more := Quiesce(Apply(s, step));
      RunFrom(s, step, more);
      run := [step] + more;
    }
  }

  /** Destructor calls for every variable from the i-th on, except one. */
  lemma {:induction false} DropFrom(s: State, t: nat, keep: nat, i: nat) returns (run: seq<Step>)
    requires Inv(s) && AllIdle(s) && t < |s.threads| && i <= |s.handles|
    ensures IsRun(s, run) && NoMoveAssign(run)
    ensures AllIdle(Final(s, run)) && Inv(Final(s, run)) && |Final(s, run).handles| == |s.handles|
    ensures forall h: nat :: h < |s.handles| && (h < i || h == keep) ==> Final(s, run).handles[h] == s.handles[h]
    ensures forall h: nat :: i <= h < |s.handles| && h != keep ==> Final(s, run).handles[h].Absent?
    decreases |s.handles| - i
  {
    if i == |s.handles| {
      run := [];
    } else if i == keep || s.handles[i].Absent? {
      run := DropFrom(s, t, keep, i + 1);
    } else {
      assert HandleInv(s, i);
      var first := SoloDrop(s, t, i);
      RunKeepsInv(s, first);
      var more := DropFrom(Final(s, first), t, keep, i + 1);
      RunsCompose(s, first, more);
      run := first + more;
    }
  }
}
