/** The priority-queue facade over MinHeap: it owns one heap and forwards
    every call to it, so each operation keeps exactly the heap's contract. */
module PriorityQueues {
  import opened MinHeaps

  class PriorityQueue<T> {
    /** The one heap the queue owns. */
    const heap: MinHeap<T>

    ghost predicate Valid()
      reads this, heap
    {
      heap.Valid()
    }

    constructor ()
      ensures Valid() && fresh(heap) && heap.data == []
    {
      heap := new MinHeap();
    }

    method IsEmpty() returns (empty: bool)
      ensures empty <==> |heap.data| == 0
    {
      empty := heap.IsEmpty();
    }

    /** Forwards to MinHeap.Add. */
    method Add(priority: int, item: T)
      requires Valid()
      modifies heap
      ensures Valid()
      ensures AddOutcome(old(heap.data), heap.data, Entry(priority, item))
    {
      heap.Add(priority, item);
    }

    /** Forwards to MinHeap.PopMin. */
    method Pop() returns (r: Option<Entry<T>>)
      requires Valid()
      modifies heap
      ensures Valid()
      ensures PopOutcome(old(heap.data), heap.data, r)
    {
      r := heap.PopMin();
    }

    /** Forwards to MinHeap.Peek. */
    method Peek() returns (r: Option<Entry<T>>)
      requires Valid()
      ensures PeekOutcome(heap.data, r)
    {
      r := heap.Peek();
    }

    /** The number of queued entries (Python's `__len__`). */
    method Size() returns (n: nat)
      ensures n == |heap.data|
    {
      n := heap.Size();
    }
  }
}
