/** The pointer and control block objects, each call run to completion. What a call does to the
    blocks is what its atomic actions add up to when nobody interferes: ArcCalls.SoloCopy,
    SoloAssignCopy, SoloAssignMove and SoloDrop. */
module ArcPointer {
  import opened ArcCalls
  import opened ArcProtocol
  import opened Wrappers

  class ControlBlock {
    const hasObject: bool
    var numShared: int
    ghost var destroyed: nat
    ghost var freed: bool

    ghost function View(): Block
      reads this
    {
      Block(numShared, hasObject, destroyed, freed)
    }

    constructor (hasObject: bool)
      ensures View() == Block(1, hasObject, 0, false)
    {
      this.hasObject := hasObject;
      numShared, destroyed, freed := 1, 0, false;
    }

    method AddRef()
      requires !freed
      modifies this`numShared
      ensures View() == AddedRef(old(View()))
    {
      numShared := numShared + 1;
    }

    method ReleaseRef()
      requires !freed
      modifies this
      ensures View() == Released(old(View()))
    {
      numShared := numShared - 1;
      if numShared == 0 {
        if hasObject {
          destroyed := destroyed + 1;
        }
        freed := true;
      }
    }
  }

  class ArcPointer {
    var controlBlock: ControlBlock?
    var ptr: Option<nat>

    /** A pointer to a block that is shared by at least `handles` pointers. */
    ghost predicate Live(handles: nat)
      reads this, controlBlock
    {
      controlBlock != null && !controlBlock.freed && controlBlock.numShared >= handles
    }

    constructor (ptr: Option<nat>)
      ensures fresh(controlBlock) && controlBlock.View() == Block(1, ptr.Some?, 0, false) && this.ptr == ptr
    {
      var made := new ControlBlock(ptr.Some?);
      controlBlock := made;
      this.ptr := ptr;
    }

    constructor Copy(other: ArcPointer)
      requires other.Live(1)
      modifies other.controlBlock
      ensures controlBlock == other.controlBlock && ptr == other.ptr
      ensures controlBlock.View() == AddedRef(old(other.controlBlock.View()))
    {
      controlBlock := other.controlBlock;
      ptr := other.ptr;
      new;
      controlBlock.AddRef();
    }

    constructor Move(other: ArcPointer)
      modifies other
      ensures controlBlock == old(other.controlBlock) && ptr == old(other.ptr)
      ensures other.controlBlock == null && other.ptr == None
    {
      controlBlock := other.controlBlock;
      ptr := other.ptr;
      new;
      other.controlBlock := null;
      other.ptr := None;
    }

    /** Self-assignment and assignment between pointers to one block change nothing. */
    method AssignCopy(other: ArcPointer)
      requires controlBlock == other.controlBlock || (Live(1) && other.Live(1))
      modifies this, controlBlock, other.controlBlock
      ensures controlBlock == old(other.controlBlock)
      ensures old(controlBlock) == old(other.controlBlock) ==>
                ptr == old(ptr) && (controlBlock != null ==> controlBlock.View() == old(controlBlock.View()))
      ensures old(controlBlock) != old(other.controlBlock) ==>
                && ptr == other.ptr
                && controlBlock.View() == AddedRef(old(other.controlBlock.View()))
                && old(controlBlock).View() == Released(old(controlBlock.View()))
    {
      if this == other {
        return;
      }
      if other.controlBlock == controlBlock {
        return;
      }
      other.controlBlock.AddRef();
      controlBlock.ReleaseRef();
      controlBlock := other.controlBlock;
      ptr := other.ptr;
    }

    method Get() returns (p: Option<nat>)
      ensures p == ptr
    {
      p := ptr;
    }

    /** As written: the control block pointer of the source is cleared twice and its object
        pointer not at all. The source therefore ends up empty exactly when its object pointer
        was null already. */
    method AssignMove(other: ArcPointer)
      requires this != other && Live(1)
      requires other.controlBlock == controlBlock ==> Live(2)
      modifies this, other, controlBlock
      ensures controlBlock == old(other.controlBlock) && ptr == old(other.ptr)
      ensures other.controlBlock == null && other.ptr == old(other.ptr)
      ensures other.controlBlock == null && other.ptr == None <==> old(other.ptr) == None
      ensures old(controlBlock).View() == Released(old(controlBlock.View()))
      ensures old(controlBlock) == old(other.controlBlock) ==> Live(1)
    {
      controlBlock.ReleaseRef();
      controlBlock := other.controlBlock;
      ptr := other.ptr;
      other.controlBlock := null;
      other.controlBlock := null;
    }

    /** The destructor; the variable is gone afterwards. */
    method Drop()
      requires controlBlock != null ==> Live(1)
      modifies controlBlock
      ensures controlBlock != null ==> controlBlock.View() == Released(old(controlBlock.View()))
    {
      if controlBlock != null {
        controlBlock.ReleaseRef();
      }
    }
  }

  /** A run in which a moved-from pointer hands out the address of a destroyed object. */
  method StaleAfterMoveAssign() returns (stale: Option<nat>, target: ArcPointer, last: ControlBlock)
    ensures stale == Some(7)
    ensures last.View() == Block(0, true, 1, true)
  {
    var source := new ArcPointer(Some(7));
    target := new ArcPointer(Some(8));
    last := source.controlBlock;
    target.AssignMove(source);
    target.Drop();
    stale := source.Get();
  }
}
