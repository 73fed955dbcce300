/** The objects and the protocol together: a call on the pointer objects takes a heap that
    represents a state of the protocol to one that represents the state after the call's
    atomic actions. */
module ArcRefinement {
  import opened ArcCalls
  import opened ArcProtocol
  import opened Sums
  import opened Wrappers
  import Objects = ArcPointer

  /** Block b of the protocol is the b-th control block, whose object, if it has one, is at
      the b-th address. */
  datatype Names = Names(blocks: seq<Objects.ControlBlock>, addresses: seq<nat>)

  ghost predicate Shows(names: Names, handle: Handle, variable: Objects.ArcPointer?)
    requires |names.addresses| == |names.blocks|
    reads variable
  {
    if variable == null then handle.Absent?
    else
      && handle.Handle?
      && (match handle.block
          case None => variable.controlBlock == null
          case Some(b) => b < |names.blocks| && variable.controlBlock == names.blocks[b])
      && (match handle.ptr
          case None => variable.ptr == None
          case Some(b) => b < |names.addresses| && variable.ptr == Some(names.addresses[b]))
  }

  /** The heap represents a state: one variable per handle, one control block per block. */
  ghost predicate Represents(s: State, names: Names, variables: seq<Objects.ArcPointer?>)
    reads variables, names.blocks
  {
    && |names.blocks| == |names.addresses| == |s.blocks| && |variables| == |s.handles|
    && (forall b, c :: 0 <= b < c < |names.blocks| ==> names.blocks[b] != names.blocks[c])
    && (forall h, k :: 0 <= h < k < |variables| && variables[h] != null ==> variables[h] != variables[k])
    && (forall b :: 0 <= b < |names.blocks| ==> names.blocks[b].View() == s.blocks[b])
    && (forall h :: 0 <= h < |variables| ==> Shows(names, s.handles[h], variables[h]))
  }

  method Construct(ghost s: State, ghost names: Names, variables: seq<Objects.ArcPointer?>,
                   ghost t: nat, dst: nat, ptr: Option<nat>)
    returns (now: seq<Objects.ArcPointer?>, ghost names': Names, ghost run: seq<Step>)
    requires Represents(s, names, variables) && Enabled(s, Step.Construct(t, dst, ptr.Some?))
    ensures IsRun(s, run) && IsCall(run, Step.Construct(t, dst, ptr.Some?))
    ensures Represents(Final(s, run), names', now) && Final(s, run).threads == s.threads
    ensures forall b :: 0 <= b < |names'.blocks| ==> names'.blocks[b] in names.blocks || fresh(names'.blocks[b])
    ensures forall h :: 0 <= h < |now| && now[h] != null ==> now[h] in variables || fresh(now[h])
  {
    var made := new Objects.ArcPointer(ptr);
    now := variables[dst := made];
    names' := Names(names.blocks + [made.controlBlock],
                    names.addresses + [if ptr.Some? then ptr.value else 0]);
    run := SoloConstruct(s, t, dst, ptr.Some?);
  }

  method Copy(ghost s: State, ghost names: Names, variables: seq<Objects.ArcPointer?>, ghost t: nat, dst: nat, src: nat)
    returns (now: seq<Objects.ArcPointer?>, ghost run: seq<Step>)
    requires Inv(s) && Represents(s, names, variables) && Enabled(s, CopyConstruct(t, dst, src))
    modifies names.blocks
    ensures IsRun(s, run) && IsCall(run, CopyConstruct(t, dst, src))
    ensures Represents(Final(s, run), names, now) && Final(s, run).threads == s.threads
    ensures forall h :: 0 <= h < |now| && now[h] != null ==> now[h] in variables || fresh(now[h])
  {
    LivePointer(s, src);
    var made := new Objects.ArcPointer.Copy(variables[src]);
    now := variables[dst := made];
    run := SoloCopy(s, t, dst, src);
  }

  method Move(ghost s: State, ghost names: Names, variables: seq<Objects.ArcPointer?>, ghost t: nat, dst: nat, src: nat)
    returns (now: seq<Objects.ArcPointer?>, ghost run: seq<Step>)
    requires Represents(s, names, variables) && Enabled(s, MoveConstruct(t, dst, src))
    modifies variables
    ensures IsRun(s, run) && IsCall(run, MoveConstruct(t, dst, src))
    ensures Represents(Final(s, run), names, now) && Final(s, run).threads == s.threads
    ensures forall h :: 0 <= h < |now| && now[h] != null ==> now[h] in variables || fresh(now[h])
  {
    var made := new Objects.ArcPointer.Move(variables[src]);
    now := variables[dst := made];
    run := SoloMove(s, t, dst, src);
  }

  method AssignCopy(ghost s: State, ghost names: Names, variables: seq<Objects.ArcPointer?>,
                    ghost t: nat, dst: nat, src: nat)
    returns (ghost run: seq<Step>)
    requires Inv(s) && Represents(s, names, variables) && Enabled(s, CopyAssign(t, dst, src))
    modifies variables, names.blocks
    ensures IsRun(s, run) && IsCall(run, CopyAssign(t, dst, src))
    ensures Represents(Final(s, run), names, variables) && Final(s, run).threads == s.threads
  {
    if s.handles[dst].block != s.handles[src].block {
      LivePointer(s, dst);
      LivePointer(s, src);
    }
    variables[dst].AssignCopy(variables[src]);
    run := SoloAssignCopy(s, t, dst, src);
  }

  /** Two counted pointers at one block are two references. */
  lemma TwoReferences(s: State, h: nat, k: nat)
    requires Inv(s) && MayRead(s, h) && MayRead(s, k) && h != k
    requires Points(s, h) && s.handles[k].Handle? && s.handles[h].block == s.handles[k].block
    ensures s.blocks[s.handles[h].block.value].count >= 2
  {
    var b := s.handles[h].block.value;
    assert HandleInv(s, h) && HandleInv(s, k) && BlockInv(s, b);
    SumUpdate(s.handles, h, Absent, HandleRef(b));
    SumAtLeast(s.handles[h := Absent], k, HandleRef(b));
  }

  method AssignMove(ghost s: State, ghost names: Names, variables: seq<Objects.ArcPointer?>,
                    ghost t: nat, dst: nat, src: nat)
    returns (ghost run: seq<Step>)
    requires Inv(s) && Represents(s, names, variables) && Enabled(s, MoveAssign(t, dst, src))
    modifies variables, names.blocks
    ensures IsRun(s, run) && IsCall(run, MoveAssign(t, dst, src))
    ensures Represents(Final(s, run), names, variables) && Final(s, run).threads == s.threads
  {
    LivePointer(s, dst);
    if s.handles[dst].block == s.handles[src].block {
      TwoReferences(s, dst, src);
    }
    variables[dst].AssignMove(variables[src]);
    run := SoloAssignMove(s, t, dst, src);
    ghost var f := Final(s, run);
    assert forall b :: 0 <= b < |names.blocks| ==> names.blocks[b].View() == f.blocks[b];
    assert forall h :: 0 <= h < |variables| ==> Shows(names, f.handles[h], variables[h]);
  }

  method Drop(ghost s: State, ghost names: Names, variables: seq<Objects.ArcPointer?>, ghost t: nat, h: nat)
    returns (now: seq<Objects.ArcPointer?>, ghost run: seq<Step>)
    requires Inv(s) && Represents(s, names, variables) && Enabled(s, Destruct(t, h))
    modifies names.blocks
    ensures IsRun(s, run) && IsCall(run, Destruct(t, h))
    ensures Represents(Final(s, run), names, now) && Final(s, run).threads == s.threads
    ensures forall h :: 0 <= h < |now| && now[h] != null ==> now[h] in variables || fresh(now[h])
  {
    if s.handles[h].block.Some? {
      LivePointer(s, h);
    }
    variables[h].Drop();
    now := variables[h := null];
    run := SoloDrop(s, t, h);
  }

  // ----- whole programs -----

  datatype Request = New(dst: nat, ptr: Option<nat>)
                   | CopyTo(dst: nat, src: nat)
                   | MoveTo(dst: nat, src: nat)
                   | AssignCopyTo(dst: nat, src: nat)
                   | AssignMoveTo(dst: nat, src: nat)
                   | End(dst: nat)

  function FirstStep(request: Request): Step {
    match request
    case New(dst, ptr) => Step.Construct(0, dst, ptr.Some?)
    case CopyTo(dst, src) => CopyConstruct(0, dst, src)
    case MoveTo(dst, src) => MoveConstruct(0, dst, src)
    case AssignCopyTo(dst, src) => CopyAssign(0, dst, src)
    case AssignMoveTo(dst, src) => MoveAssign(0, dst, src)
    case End(dst) => Destruct(0, dst)
  }

  /** What a caller can see of the operands: whether the variables exist, and whether their
      control block pointers are null. */
  predicate Legal(variables: seq<Objects.ArcPointer?>, request: Request)
    reads variables
  {
    && request.dst < |variables|
    && var dst := variables[request.dst];
       match request
       case New(_, _) => dst == null
       case CopyTo(_, src) =>
         dst == null && src < |variables| && variables[src] != null && variables[src].controlBlock != null
       case MoveTo(_, src) => dst == null && src < |variables| && variables[src] != null
       case AssignCopyTo(_, src) =>
         && src < |variables| && dst != null && variables[src] != null
         && (dst.controlBlock == variables[src].controlBlock
             || (dst.controlBlock != null && variables[src].controlBlock != null))
       case AssignMoveTo(_, src) =>
         request.dst != src && src < |variables| && dst != null && variables[src] != null && dst.controlBlock != null
       case End(_) => dst != null
  }

  /** The protocol's own condition is what the caller can see. */
  lemma LegalIsEnabled(s: State, names: Names, variables: seq<Objects.ArcPointer?>, request: Request)
    requires Represents(s, names, variables) && AllIdle(s) && |s.threads| == 1
    ensures Legal(variables, request) <==> Enabled(s, FirstStep(request))
  {
    assert forall h: nat :: h < |s.handles| ==> MayWrite(s, h) && MayRead(s, h);
    assert forall h: nat :: h < |variables| ==> Shows(names, s.handles[h], variables[h]);
  }

  /** One request takes s to s': a whole call of the protocol if the protocol allows it to
      begin, and nothing otherwise. */
  predicate Serves(s: State, request: Request, run: seq<Step>, s': State) {
    if Enabled(s, FirstStep(request))
    then IsRun(s, run) && IsCall(run, FirstStep(request)) && s' == Final(s, run)
    else s' == s
  }

  method Serve(ghost s: State, ghost names: Names, variables: seq<Objects.ArcPointer?>, request: Request)
    returns (now: seq<Objects.ArcPointer?>, ghost names': Names, ghost run: seq<Step>, ghost s': State)
    requires Inv(s) && AllIdle(s) && |s.threads| == 1 && Represents(s, names, variables)
    modifies variables, names.blocks
    ensures Serves(s, request, run, s') && Represents(s', names', now)
    ensures Inv(s') && s'.threads == s.threads
    ensures forall b :: 0 <= b < |names'.blocks| ==> names'.blocks[b] in names.blocks || fresh(names'.blocks[b])
    ensures forall h :: 0 <= h < |now| && now[h] != null ==> now[h] in variables || fresh(now[h])
  {
    LegalIsEnabled(s, names, variables, request);
    now, names', run, s' := variables, names, [], s;
    if Legal(variables, request) {
      match request {
        case New(dst, ptr) => now, names', run := Construct(s, names, variables, 0, dst, ptr);
        case CopyTo(dst, src) => now, run := Copy(s, names, variables, 0, dst, src);
        case MoveTo(dst, src) => now, run := Move(s, names, variables, 0, dst, src);
        case AssignCopyTo(dst, src) => run := AssignCopy(s, names, variables, 0, dst, src);
        case AssignMoveTo(dst, src) => run := AssignMove(s, names, variables, 0, dst, src);
        case End(dst) => now, run := Drop(s, names, variables, 0, dst);
      }
      s' := Final(s, run);
      RunKeepsInv(s, run);
    }
  }

  function NoVariables(n: nat): State {
    State([], seq(n, _ => Absent), [Idle])
  }

  /** Each request in turn takes one state to the next. */
  predicate Served(states: seq<State>, requests: seq<Request>, runs: seq<seq<Step>>) {
    && |states| == |requests| + 1 && |runs| == |requests|
    && forall i :: 0 <= i < |requests| ==> Serves(states[i], requests[i], runs[i], states[i + 1])
  }

  lemma ServedSnoc(states: seq<State>, requests: seq<Request>, runs: seq<seq<Step>>,
                   request: Request, run: seq<Step>, s': State)
    requires Served(states, requests, runs) && Serves(states[|requests|], request, run, s')
    ensures Served(states + [s'], requests + [request], runs + [run])
  {
  }

  /** The calls one after the other are one run of the protocol. */
  lemma {:induction false} ServedIsRun(states: seq<State>, requests: seq<Request>, runs: seq<seq<Step>>)
    returns (steps: seq<Step>)
    requires Served(states, requests, runs)
    ensures IsRun(states[0], steps) && Final(states[0], steps) == states[|requests|]
    decreases |requests|
  {
    if requests == [] {
      steps := [];
    } else {
      var n := |requests| - 1;
      var before := ServedIsRun(states[..n + 1], requests[..n], runs[..n]);
      assert Serves(states[n], requests[n], runs[n], states[n + 1]);
      if Enabled(states[n], FirstStep(requests[n])) {
        RunsCompose(states[0], before, runs[n]);
        steps := before + runs[n];
      } else {
        steps := before;
      }
    }
  }

  /** No variable leads to a freed block or a destroyed object, and a block that no variable
      leads to is freed, its object destroyed exactly once. */
  ghost predicate HeapIsSound(blocks: seq<Objects.ControlBlock>, variables: seq<Objects.ArcPointer?>)
    reads variables, blocks, set v | v in variables && v != null :: v.controlBlock
  {
    && (forall h :: 0 <= h < |variables| && variables[h] != null && variables[h].controlBlock != null ==>
          variables[h].controlBlock in blocks
          && !variables[h].controlBlock.freed && variables[h].controlBlock.destroyed == 0)
    && (forall b :: 0 <= b < |blocks| ==>
          (forall h :: 0 <= h < |variables| && variables[h] != null ==> variables[h].controlBlock != blocks[b]) ==>
          blocks[b].freed && blocks[b].destroyed == if blocks[b].hasObject then 1 else 0)
  }

  lemma RestIsSound(s: State, names: Names, variables: seq<Objects.ArcPointer?>)
    requires Inv(s) && AllIdle(s) && Represents(s, names, variables)
    ensures HeapIsSound(names.blocks, variables)
  {
    forall h | 0 <= h < |variables| && variables[h] != null && variables[h].controlBlock != null
      ensures variables[h].controlBlock in names.blocks
      ensures !variables[h].controlBlock.freed && variables[h].controlBlock.destroyed == 0
    {
      assert Shows(names, s.handles[h], variables[h]);
      LivePointer(s, h);
    }
    forall b | 0 <= b < |names.blocks|
      && forall h :: 0 <= h < |variables| && variables[h] != null ==> variables[h].controlBlock != names.blocks[b]
      ensures var block := names.blocks[b]; block.freed && block.destroyed == if block.hasObject then 1 else 0
    {
      forall h | 0 <= h < |s.handles| && s.handles[h].Handle? ensures s.handles[h].block != Some(b) {
        assert Shows(names, s.handles[h], variables[h]);
      }
      UnreferencedIsFreed(s, b);
      assert names.blocks[b].View() == s.blocks[b];
    }
  }

  /** Any list of requests on the objects is a run of the protocol: each request that may begin
      is a whole call, the others are passed over, and the heap represents the last state. */
  method Execute(n: nat, requests: seq<Request>)
    returns (variables: seq<Objects.ArcPointer?>, ghost names: Names,
             ghost states: seq<State>, ghost runs: seq<seq<Step>>)
    ensures Served(states, requests, runs) && states[0] == NoVariables(n) && Start(states[0])
    ensures Represents(states[|requests|], names, variables) && HeapIsSound(names.blocks, variables)
  {
    variables, names := seq(n, _ => null), Names([], []);
    ghost var s := NoVariables(n);
    states, runs := [s], [];
    StartInv(s);
    for k := 0 to |requests|
      invariant Served(states, requests[..k], runs) && states[0] == NoVariables(n) && states[k] == s
      invariant Inv(s) && s.threads == [Idle] && Represents(s, names, variables)
      invariant forall i :: 0 <= i < |names.blocks| ==> fresh(names.blocks[i])
      invariant forall h :: 0 <= h < |variables| ==> variables[h] == null || fresh(variables[h])
    {
      ghost var run, s';
      variables, names, run, s' := Serve(s, names, variables, requests[k]);
      ServedSnoc(states, requests[..k], runs, requests[k], run, s');
      assert requests[..k + 1] == requests[..k] + [requests[k]];
      states, runs, s := states + [s'], runs + [run], s';
    }
    assert requests[..|requests|] == requests;
    RestIsSound(s, names, variables);
  }
}
