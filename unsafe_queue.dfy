/** A FIFO queue without locking, the single-threaded building block of the node's message
    queues: values leave in the order they arrived, one at a time or in batches. */
module UnsafeQueues {
  import opened RaftTypes

  /** Move up to `max` values from the front of `q`, one at a time, in order: `taken` holds the
      first min(max, |q|) values and `rest` the others, so nothing is lost or reordered. */
  method TakeFront<T>(q: seq<T>, max: nat) returns (taken: seq<T>, rest: seq<T>)
    ensures |taken| == Min(max, |q|)
    ensures taken + rest == q
    ensures taken == q[..|taken|] && rest == q[|taken|..]
  {
    taken, rest := [], q;
    var i := 0;
    while i < max && |rest| > 0
      invariant i == |taken| && taken + rest == q
      invariant i <= max
      decreases |rest|
    {
      taken := taken + [rest[0]];
      rest := rest[1..];
      i := i + 1;
    }
    assert taken == q[..|taken|] && rest == q[|taken|..] by {
      assert q[..|taken|] == (taken + rest)[..|taken|];
    }
  }

  class UnsafeQueue<T> {
    /** The queued values, front first. */
    var queue: seq<T>

    /** An empty queue. */
    constructor ()
      ensures queue == []
    {
      queue := [];
    }

    /** Append `value` at the back; reports whether the queue was empty before. */
    method Push(value: T) returns (wasEmpty: bool)
      modifies this
      ensures queue == old(queue) + [value]
      ensures wasEmpty <==> |old(queue)| == 0
    {
      queue := queue + [value];
      return 1 == |queue|;
    }

    /** Remove and return the value at the front; the queue must not be empty. */
    method Pop() returns (value: T)
      requires |queue| > 0
      modifies this
      ensures [value] + queue == old(queue)
    {
      value := queue[0];
      queue := queue[1..];
    }

    /** Remove the first min(max, Size()) values and return them, in order, as a new queue.
        When the whole queue fits, it is handed over at once and this queue is left empty. */
    method BatchPop(max: nat) returns (result: UnsafeQueue<T>)
      modifies this
      ensures fresh(result)
      ensures |result.queue| == Min(max, |old(queue)|)
      ensures result.queue + queue == old(queue)
      ensures |old(queue)| <= max ==> queue == [] && result.queue == old(queue)
    {
      result := new UnsafeQueue();
      if |queue| <= max {
        result.queue, queue := queue, [];
      } else {
        var taken, rest := TakeFront(queue, max);
        result.queue, queue := taken, rest;
      }
    }

    /** How many values are queued. */
    function Size(): (n: nat)
      reads this
      ensures n == 0 <==> queue == []
    {
      |queue|
    }

    /** Whether no value is queued. */
    predicate Empty()
      reads this
      ensures Empty() <==> Size() == 0
    {
      queue == []
    }
  }
}
