/** The list-backed FIFO queue of e04/02 (UnboundedQueue.java); t10/04 repeats the same class. */
module UnboundedQueue {
  import opened Exceptions

  class Queue {
    /** The list els; its order is the abstract queue, front first. */
    var els: seq<int>

    constructor ()
      ensures els == []
    {
      els := [];
    }

    method Size() returns (n: nat)
      ensures n == |els|
    {
      n := |els|;
    }

    method Enqueue(n: int)
      modifies this
      ensures els == old(els) + [n]
    {
      els := els + [n];
    }

    method Dequeue() returns (r: Result<int>)
      modifies this
      ensures r.Err? <==> old(els) == []
      ensures r.Err? ==> r.error == EmptyException && els == old(els)
      ensures r.Ok? ==> r.value == old(els)[0] && els == old(els)[1..]
    {
      var size := Size();
      if size == 0 {
        return Err(EmptyException);
      }
      r := Ok(els[0]);
      els := els[1..];
    }
  }

  /** FIFO order: enqueueing xs into an empty queue and dequeueing as often gives xs back, in order. */
  method FifoOrder(q: Queue, xs: seq<int>) returns (ys: seq<int>)
    requires q.els == []
    modifies q
    ensures ys == xs && q.els == []
  {
    var i := 0;
    while i < |xs|
      invariant 0 <= i <= |xs| && q.els == xs[..i]
    {
      q.Enqueue(xs[i]);
      assert xs[..i + 1] == xs[..i] + [xs[i]];
      i := i + 1;
    }
    ys := [];
    while |ys| < |xs|
      invariant |ys| <= |xs| && ys == xs[..|ys|] && q.els == xs[|ys|..]
      decreases |xs| - |ys|
    {
      var r := q.Dequeue();
      assert xs[..|ys| + 1] == xs[..|ys|] + [xs[|ys|]];
      ys := ys + [r.value];
    }
  }
}

/** The elements() generator of t10/04 (UnboundedQueue.java, QueueElementsGenerator). */
module QueueElements {
  import opened Exceptions
  import opened UnboundedQueue

  class QueueElementsGenerator {
    const q: Queue
    var index: int

    constructor (queue: Queue)
      ensures q == queue && index == 0
    {
      q := queue;
      index := 0;
    }

    /** hasNext: true exactly while elements of the live list remain to be yielded. */
    function HasNext(): (b: bool)
      reads this, q
      ensures 0 <= index <= |q.els| ==> (b <==> q.els[index..] != [])
    {
      index < |q.els|
    }

    /** Reads the live list at index and advances index, also when get raises. */
    method Next() returns (r: Result<int>)
      requires 0 <= index
      modifies this
      ensures index == old(index) + 1
      ensures r.Ok? <==> old(index) < |q.els|
      ensures r.Ok? ==> r.value == q.els[old(index)]
      ensures r.Err? ==> r.error == IndexOutOfBoundsException
    {
      var i := index;
      index := index + 1;
      if i < |q.els| {
        r := Ok(q.els[i]);
      } else {
        r := Err(IndexOutOfBoundsException);
      }
    }
  }

  /** Drains a fresh generator while hasNext holds: it yields the queue front to back. */
  method Elements(queue: Queue) returns (out: seq<int>)
    ensures out == queue.els
  {
    var it := new QueueElementsGenerator(queue);
    out := [];
    while it.HasNext()
      invariant it.q == queue && 0 <= it.index <= |queue.els|
      invariant out == queue.els[..it.index]
      decreases |queue.els| - it.index
    {
      var r := it.Next();
      assert queue.els[..it.index] == queue.els[..it.index - 1] + [r.value];
      out := out + [r.value];
    }
    assert out == queue.els[..|queue.els|];
  }
}
