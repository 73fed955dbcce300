/** The ring that keeps a head index and a size, and wraps by comparison instead of modulo. */
module FixedCapacityQueue {
  import opened Wrappers
  import opened Storage
  import opened BoundedFifo

  class FixedCapacityQueue<T> {
    const capacity: nat
    const data: array<Slot<T>>
    var headIndex: nat
    var size: nat
    /** The elements held, oldest first. */
    ghost var contents: seq<T>
    /** What each destroyed slot held when it was destroyed, in order. */
    ghost var destroyed: seq<Slot<T>>

    /** The slot of the i-th element counted from the head. */
    function At(i: nat): (p: nat)
      requires headIndex < capacity && i <= capacity
      reads this`headIndex
      ensures i < capacity ==> p < capacity
    {
      if headIndex + i >= capacity then headIndex + i - capacity else headIndex + i
    }

    ghost predicate Valid()
      reads this, data
    {
      && data.Length == capacity
      && headIndex < capacity
      && size == |contents| <= capacity
      && (forall i :: 0 <= i < size ==> data[At(i)] == Live(contents[i]))
      && (forall i :: size <= i < capacity ==> data[At(i)] == Raw)
    }

    constructor (capacity: nat)
      requires capacity > 0
      ensures Valid() && fresh(data)
      ensures this.capacity == capacity && contents == [] && destroyed == []
    {
      this.capacity := capacity;
      data := new Slot<T>[capacity](_ => Raw);
      headIndex, size := 0, 0;
      contents, destroyed := [], [];
    }

    /** The throwing constructor: None stands for std::invalid_argument. */
    static method Create(capacity: nat) returns (queue: Option<FixedCapacityQueue<T>>)
      ensures queue.None? <==> capacity == 0
      ensures queue.Some? ==> fresh(queue.value) && fresh(queue.value.data) && queue.value.Valid()
                              && queue.value.capacity == capacity && queue.value.contents == []
    {
      if capacity == 0 {
        return None;
      }
      var made := new FixedCapacityQueue(capacity);
      queue := Some(made);
    }

    /** The live slots are exactly the window of `size` slots that starts at the head and
        continues at slot 0. */
    lemma LiveWindow(p: nat)
      requires Valid() && p < capacity
      ensures data[p].Live? <==>
              headIndex <= p < headIndex + size || p + capacity < headIndex + size
      ensures data[p].Live? || data[p] == Raw
    {
      var i := if p >= headIndex then p - headIndex else p + capacity - headIndex;
      assert At(i) == p;
    }

    method TailIndex() returns (writeIndex: nat)
      requires Valid()
      ensures writeIndex == At(size)
    {
      writeIndex := headIndex + size;
      if writeIndex >= capacity {
        writeIndex := writeIndex - capacity;
      }
    }

    /** Both push overloads and emplace. */
    method ConstructElement(value: T) returns (ok: bool)
      requires Valid()
      modifies this`size, this`contents, data
      ensures Valid()
      ensures Stored(ok) == AnswerTo(capacity, old(contents), Put(value))
      ensures contents == After(capacity, old(contents), Put(value))
      ensures ok <==> old(|contents|) < capacity
      ensures contents == old(contents) + (if ok then [value] else [])
      ensures ok ==> old(data[At(size)]) == Raw
    {
      if size == capacity {
        return false;
      }
      var tail := TailIndex();
      data[tail] := Live(value);
      size := size + 1;
      contents := contents + [value];
      ok := true;
    }

    /** Ends the lifetime of the oldest element, moved from or not. */
    method DestructElement()
      requires ValidButHead() && size > 0
      modifies this, data
      ensures Valid()
      ensures contents == old(contents[1..])
      ensures destroyed == old(destroyed + [data[headIndex]])
    {
      assert forall i :: 1 <= i <= capacity - 1 ==> data[At(i)] == if i < size then Live(contents[i]) else Raw;
      label before:
      assert At(0) == headIndex;
      destroyed := destroyed + [data[headIndex]];
      data[headIndex] := Raw;
      headIndex := headIndex + 1;
      if headIndex == capacity {
        headIndex := 0;
      }
      size := size - 1;
      contents := contents[1..];
      forall i | 0 <= i < capacity
        ensures data[At(i)] == if i < size then Live(contents[i]) else Raw
      {
        assert i < capacity - 1 ==> At(i) == old@before(At(i + 1));
        assert i == capacity - 1 ==> At(i) == old@before(headIndex);
      }
    }

    /** Valid, except that the value of the oldest element may have been moved out. */
    ghost predicate ValidButHead()
      reads this, data
    {
      && data.Length == capacity
      && headIndex < capacity
      && size == |contents| <= capacity
      && (size > 0 ==> data[headIndex] != Raw)
      && (forall i :: 1 <= i < size ==> data[At(i)] == Live(contents[i]))
      && (forall i :: size <= i < capacity ==> data[At(i)] == Raw)
    }

    method Pop() returns (result: Option<T>)
      requires Valid()
      modifies this, data
      ensures Valid()
      ensures Taken(result) == AnswerTo(capacity, old(contents), Take)
      ensures contents == After(capacity, old(contents), Take)
      ensures result.None? <==> old(contents) == []
      ensures old(contents) == (if result.Some? then [result.value] else []) + contents
      ensures destroyed == old(destroyed) + (if result.Some? then [MovedFrom] else [])
    {
      if size == 0 {
        return None;
      }
      assert At(0) == headIndex;
      result := Some(data[headIndex].value);
      data[headIndex] := MovedFrom;
      DestructElement();
    }

    /** Destroys each held element exactly once, oldest first. */
    method Clear()
      requires Valid()
      modifies this, data
      ensures Valid() && contents == []
      ensures destroyed == old(destroyed)
                + seq(|old(contents)|, i requires 0 <= i < |old(contents)| => Live(old(contents)[i]))
    {
      ghost var held := contents;
      ghost var gone := destroyed;
      while size != 0
        invariant Valid()
        invariant contents == held[|held| - size..]
        invariant |destroyed| == |gone| + (|held| - size) && destroyed[..|gone|] == gone
        invariant forall i :: 0 <= i < |held| - size ==> destroyed[|gone| + i] == Live(held[i])
        decreases size
      {
        assert At(0) == headIndex;
        DestructElement();
      }
      assert destroyed == gone + destroyed[|gone|..];
    }
  }
}

/** On every sequential run the two rings of equal capacity give the same answers: those of
    the bounded sequence. */
module RingAgreement {
  import opened Wrappers
  import opened BoundedFifo
  import HeadSize = FixedCapacityQueue
  import ReadWrite = SpscQueue

  method AskReadWrite<T>(ring: ReadWrite.LFSPSCQueue<T>, request: Request<T>) returns (answer: Answer<T>)
    requires ring.Valid()
    modifies ring, ring.ring
    ensures ring.Valid()
    ensures answer == AnswerTo(ring.capacity, old(ring.Contents()), request)
    ensures ring.Contents() == After(ring.capacity, old(ring.Contents()), request)
  {
    match request
    case Put(value) =>
      var ok := ring.TryPush(value);
      answer := Stored(ok);
    case Take =>
      var result := ring.TryPop();
      answer := Taken(result);
  }

  method AskHeadSize<T>(queue: HeadSize.FixedCapacityQueue<T>, request: Request<T>) returns (answer: Answer<T>)
    requires queue.Valid()
    modifies queue, queue.data
    ensures queue.Valid()
    ensures answer == AnswerTo(queue.capacity, old(queue.contents), request)
    ensures queue.contents == After(queue.capacity, old(queue.contents), request)
  {
    match request
    case Put(value) =>
      var ok := queue.ConstructElement(value);
      answer := Stored(ok);
    case Take =>
      var result := queue.Pop();
      answer := Taken(result);
  }

  /** The same request to both rings, which share nothing. */
  method AskBoth<T>(ring: ReadWrite.LFSPSCQueue<T>, queue: HeadSize.FixedCapacityQueue<T>, request: Request<T>)
    returns (a: Answer<T>, b: Answer<T>)
    requires ring.Valid() && queue.Valid() && ring.ring != queue.data
    modifies ring, ring.ring, queue, queue.data
    ensures ring.Valid() && queue.Valid()
    ensures a == AnswerTo(ring.capacity, old(ring.Contents()), request)
    ensures b == AnswerTo(queue.capacity, old(queue.contents), request)
    ensures ring.Contents() == After(ring.capacity, old(ring.Contents()), request)
    ensures queue.contents == After(queue.capacity, old(queue.contents), request)
  {
    a := AskReadWrite(ring, request);
    b := AskHeadSize(queue, request);
  }

  method AnswerOnBoth<T>(capacity: nat, requests: seq<Request<T>>)
    returns (fromReadWrite: seq<Answer<T>>, fromHeadSize: seq<Answer<T>>)
    requires capacity >= 1
    ensures fromReadWrite == fromHeadSize == Answers(capacity, [], requests)
    ensures IsFifo(capacity, requests, fromReadWrite) && IsFifo(capacity, requests, fromHeadSize)
  {
    var ring := new ReadWrite.LFSPSCQueue<T>(capacity);
    var queue := new HeadSize.FixedCapacityQueue<T>(capacity);
    fromReadWrite, fromHeadSize := [], [];
    for n := 0 to |requests|
      invariant ring.Valid() && queue.Valid()
      invariant fresh(ring) && fresh(ring.ring) && fresh(queue) && fresh(queue.data) && ring.ring != queue.data
      invariant ring.capacity == queue.capacity == capacity
      invariant ring.Contents() == queue.contents == Held(capacity, [], requests[..n])
      invariant fromReadWrite == fromHeadSize == Answers(capacity, [], requests[..n])
    {
      AnswersSnoc(capacity, [], requests[..n], requests[n]);
      assert requests[..n + 1] == requests[..n] + [requests[n]];
      var a, b := AskBoth(ring, queue, requests[n]);
      fromReadWrite, fromHeadSize := fromReadWrite + [a], fromHeadSize + [b];
    }
    assert requests[..|requests|] == requests;
    AnswersAreFifo(capacity, requests);
  }
}
