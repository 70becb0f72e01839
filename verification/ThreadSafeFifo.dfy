/**
  The queue object of atstest/ThreadSafeFIFO.c, with the parts of its functions that run under the mutex: they
  make the moves `Push` and `Take` of FifoProtocol. New elements enter the array at its front and leave at its end.
*/
module ThreadSafeFifo {
  import opened Options
  import opened FifoProtocol
  import opened Memory
  import opened VArray

  /** The array read from its end: oldest element first. */
  function Backwards<T>(s: seq<T>): (r: seq<T>)
    ensures |r| == |s|
  {
    if s == [] then [] else [s[|s| - 1]] + Backwards(s[..|s| - 1])
  }

  /** An element put in front of the array comes last in the queue. */
  lemma {:induction false} BackwardsInsert<T>(s: seq<T>, e: T)
    ensures Backwards(InsertAt(s, 0, e)) == Backwards(s) + [e]
  {
    var t := InsertAt(s, 0, e);
    assert t == [e] + s;
    if s != [] {
      var before := s[..|s| - 1];
      BackwardsInsert(before, e);
      assert InsertAt(before, 0, e) == [e] + before;
      assert t[..|t| - 1] == [e] + before;
    } else {
      assert t[..0] == [];
    }
  }

  class ThreadSafeFifo<T(0, !new)> {
    const queue: VArray<T>
    var pushCounter: int
    var popCounter: int

    ghost predicate Valid()
      reads this, queue
    {
      queue.Valid()
    }

    /** The queued elements, oldest first. */
    ghost function Queue(): seq<T>
      requires Valid()
      reads this, queue, queue.items
    {
      Backwards(queue.Contents())
    }

    /** fifo_create on a zeroed struct */
    constructor ()
      ensures Valid() && fresh(queue) && fresh(queue.items)
      ensures Queue() == [] && pushCounter == popCounter == 0
    {
      queue := new VArray<T>();
      pushCounter, popCounter := 0, 0;
    }

    /** fifo_push with the mutex held, up to its signal */
    method Push(element: T)
      requires Valid()
      modifies this, queue, queue.items
      ensures Valid() && (queue.items == old(queue.items) || fresh(queue.items))
      ensures Queue() == old(Queue()) + [element]
      ensures pushCounter == old(pushCounter) + 1 && popCounter == old(popCounter)
    {
      BackwardsInsert(queue.Contents(), element);
      queue.Insert(0, element);
      pushCounter := pushCounter + 1;
    }

    /** fifo_pop_peek with the mutex held: whether the caller has to wait. */
    method MustWait() returns (wait: bool)
      requires Valid()
      ensures wait <==> Queue() == []
    {
      return queue.length == 0;
    }

    /** fifo_pop_peek with the mutex held, after the wait if there was one */
    method Take(isPop: bool) returns (element: Option<T>)
      requires Valid()
      modifies this, queue, queue.items
      ensures Valid() && queue.items == old(queue.items)
      ensures element == Oldest(old(Queue())) && Queue() == Left(old(Queue()), isPop)
      ensures popCounter == (if isPop then old(popCounter) + 1 else old(popCounter)) && pushCounter == old(pushCounter)
    {
      if isPop {
        element := queue.Pop();
        popCounter := popCounter + 1;
      } else {
        element := queue.Peek();
      }
    }

    /** fifo_get_state */
    method GetState() returns (size: nat)
      requires Valid()
      ensures size == |Queue()|
    {
      return queue.length;
    }
  }
}
