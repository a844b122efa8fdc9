/** The bounded circular int queue of e05/06 (IntQueue.java). */
module BoundedQueue {
  import opened Exceptions

  class IntQueue {
    var elements: array<int>
    /** Index of the front element, or -1 when the queue is empty. */
    var head: int
    /** Index of the first free slot; equal to head when the queue is full. */
    var tail: int

    /** The representation invariant checked by repOK. A capacity of at least one is assumed. */
    predicate RepOk()
      reads this
    {
      0 < elements.Length
      && -1 <= head < elements.Length
      && 0 <= tail < elements.Length
      && (head == -1 ==> tail == 0)
    }

    /** The abstraction function: the slots from head up to tail, wrapping round the array. */
    ghost function Contents(): seq<int>
      reads this, elements
      requires RepOk()
    {
      if head == -1 then []
      else if head < tail then elements[head..tail]
      else elements[head..] + elements[..tail]
    }

    constructor (n: int)
      requires n > 0
      ensures RepOk() && fresh(elements) && elements.Length == n
      ensures head == -1 && tail == 0
      ensures Contents() == []
    {
      elements := new int[n];
      head := -1;
      tail := 0;
    }

    predicate IsFull()
      reads this, elements
      requires RepOk()
      ensures IsFull() <==> |Contents()| == elements.Length
    {
      head == tail
    }

    predicate IsEmpty()
      reads this, elements
      requires RepOk()
      ensures IsEmpty() <==> Contents() == []
    {
      head == -1
    }

    method Size() returns (n: nat)
      requires RepOk()
      ensures n == |Contents()| && n <= elements.Length
    {
      if IsEmpty() {
        return 0;
      }
      if IsFull() {
        return elements.Length;
      }
      n := (tail - head + elements.Length) % elements.Length;
      if head < tail {
        ModWrap(tail - head + elements.Length, elements.Length);
      } else {
        ModSmall(tail - head + elements.Length, elements.Length);
      }
    }

    method Enqueue(x: int) returns (st: Status)
      requires RepOk()
      modifies this, elements
      ensures RepOk() && elements == old(elements)
      ensures st == Raised(FullException) <==> old(|Contents()|) == elements.Length
      ensures st.Raised? ==> st == Raised(FullException)
      ensures st.Raised? ==> head == old(head) && tail == old(tail) && elements[..] == old(elements[..])
      ensures st.Done? ==> Contents() == old(Contents()) + [x]
      ensures st.Done? ==> head == (if old(head) == -1 then 0 else old(head))
      ensures st.Done? ==> tail == (old(tail) + 1) % elements.Length
      ensures st.Done? ==> elements[..] == old(elements[..])[old(tail) := x]
    {
      if IsFull() {
        return Raised(FullException);
      }
      if IsEmpty() {
        head := 0;
      }
      elements[tail] := x;
      tail := (tail + 1) % elements.Length;
      st := Done;
      EnqueueContents(old(elements[..]), old(head), old(tail), x);
    }

    method Dequeue() returns (r: Result<int>)
      requires RepOk()
      modifies this
      ensures RepOk() && elements == old(elements) && elements[..] == old(elements[..])
      ensures r.Err? <==> old(Contents()) == []
      ensures r.Err? ==> r.error == EmptyException && head == old(head) && tail == old(tail)
      ensures r.Ok? ==> r.value == old(Contents())[0] && Contents() == old(Contents())[1..]
      ensures r.Ok? && old(|Contents()|) == 1 ==> head == -1 && tail == 0
    {
      if IsEmpty() {
        return Err(EmptyException);
      }
      var v := elements[head];
      ModNext(head, elements.Length);
      head := (head + 1) % elements.Length;
      if head == tail {
        head := -1;
        tail := 0;
      }
      r := Ok(v);
      DequeueContents(elements[..], old(head), old(tail), (old(head) + 1) % elements.Length);
    }

    /**
     * equals: same capacity and the same elements slot by slot from each head, which is the
     * same abstract queue.
     */
    method Equals(other: IntQueue) returns (b: bool)
      requires RepOk() && other.RepOk()
      ensures b <==> elements.Length == other.elements.Length && Contents() == other.Contents()
    {
      var n := Size();
      var m := other.Size();
      if n != m || elements.Length != other.elements.Length {
        return false;
      }
      var mine, theirs := elements, other.elements;
      ghost var ms, ts := mine[..], theirs[..];
      SameSlotsAbs(ms, head, tail, ts, other.head, other.tail);
      assert n > 0 ==> head >= 0 && other.head >= 0;
      var i := 0;
      while i < n
        invariant 0 <= i <= n
        invariant SameSlots(ms, head, ts, other.head, i)
      {
        var x, y := mine[Slot(head, i, mine.Length)], theirs[Slot(other.head, i, mine.Length)];
        assert x == ms[Slot(head, i, |ms|)] && y == ts[Slot(other.head, i, |ts|)];
        if x != y {
          assert !SameSlots(ms, head, ts, other.head, n);
          return false;
        }
        SameSlotsStep(ms, head, ts, other.head, i);
        i := i + 1;
      }
      b := true;
    }
  }

  lemma ModWrap(x: int, m: int)
    requires 0 < m <= x < 2 * m
    ensures x % m == x - m
  {
  }

  lemma ModSmall(x: int, m: int)
    requires 0 <= x < m
    ensures x % m == x
  {
  }

  /** The abstraction function applied to a snapshot of the fields. */
  ghost function Abs(s: seq<int>, head: int, tail: int): seq<int>
    requires -1 <= head < |s| && 0 <= tail < |s|
  {
    if head == -1 then []
    else if head < tail then s[head..tail]
    else s[head..] + s[..tail]
  }

  /** Slot k places after slot h of a circular array of cap slots, which is (h + k) mod cap. */
  function Slot(h: int, k: int, cap: int): (j: int)
    requires 0 <= h < cap && 0 <= k < cap
    ensures 0 <= j < cap
  {
    if h + k < cap then h + k else h + k - cap
  }

  /** The slot is the source's (h + k) % cap. */
  lemma SlotIsMod(h: int, k: int, cap: int)
    requires 0 <= h < cap && 0 <= k < cap
    ensures Slot(h, k, cap) == (h + k) % cap
  {
    if h + k < cap {
      ModSmall(h + k, cap);
    } else {
      ModWrap(h + k, cap);
    }
  }

  /** Element i of the abstract queue sits at slot i after the head. */
  lemma AbsAt(s: seq<int>, head: int, tail: int, i: int)
    requires -1 <= head < |s| && 0 <= tail < |s| && 0 <= i < |Abs(s, head, tail)|
    ensures 0 <= head && i < |s| && Abs(s, head, tail)[i] == s[Slot(head, i, |s|)]
  {
  }

  /** The first n slots after h in s hold what the first n slots after h' in s' hold. */
  ghost predicate SameSlots(s: seq<int>, h: int, s': seq<int>, h': int, n: int)
  {
    forall k :: 0 <= k < n && 0 <= h < |s| && 0 <= h' < |s'| && k < |s| && k < |s'| ==>
      s[Slot(h, k, |s|)] == s'[Slot(h', k, |s'|)]
  }

  lemma SameSlotsStep(s: seq<int>, h: int, s': seq<int>, h': int, i: int)
    requires 0 <= h < |s| && 0 <= h' < |s'| && 0 <= i < |s| && i < |s'|
    requires SameSlots(s, h, s', h', i) && s[Slot(h, i, |s|)] == s'[Slot(h', i, |s'|)]
    ensures SameSlots(s, h, s', h', i + 1)
  {
  }

  /** Two queue snapshots of the same size agree slot by slot from their heads iff they are the same queue. */
  lemma SameSlotsAbs(s: seq<int>, h: int, t: int, s': seq<int>, h': int, t': int)
    requires -1 <= h < |s| && 0 <= t < |s| && -1 <= h' < |s'| && 0 <= t' < |s'|
    requires |Abs(s, h, t)| == |Abs(s', h', t')|
    ensures SameSlots(s, h, s', h', |Abs(s, h, t)|) <==> Abs(s, h, t) == Abs(s', h', t')
  {
    var c, c' := Abs(s, h, t), Abs(s', h', t');
    forall k | 0 <= k < |c|
      ensures 0 <= h < |s| && 0 <= h' < |s'| && k < |s| && k < |s'|
      ensures c[k] == s[Slot(h, k, |s|)] && c'[k] == s'[Slot(h', k, |s'|)]
    {
      AbsAt(s, h, t, k);
      AbsAt(s', h', t', k);
    }
  }

  lemma EnqueueContents(s: seq<int>, head: int, tail: int, x: int)
    requires 0 <= tail < |s| && -1 <= head < |s| && (head == -1 ==> tail == 0) && head != tail
    ensures var h := if head == -1 then 0 else head;
            var t := (tail + 1) % |s|;
            0 <= t < |s| && h != -1
            && Abs(s[tail := x], h, t) == Abs(s, head, tail) + [x]
  {
    var s' := s[tail := x];
    var h := if head == -1 then 0 else head;
    var t := (tail + 1) % |s|;
    if tail + 1 == |s| {
      assert t == 0 by { assert (tail + 1) % |s| == |s| % |s|; }
      if head == -1 || head < tail {
        assert s'[h..] == s[h..tail] + [x];
      } else {
        assert false;
      }
    } else {
      assert t == tail + 1 by { ModSmall(tail + 1, |s|); }
      if head == -1 || head < tail {
        assert s'[h..t] == s[h..tail] + [x];
      } else {
        assert s'[h..] == s[h..];
        assert s'[..t] == s[..tail] + [x];
      }
    }
  }

  lemma ModNext(t: int, m: int)
    requires 0 <= t < m
    ensures (t + 1) % m == if t + 1 == m then 0 else t + 1
  {
    if t + 1 < m {
      ModSmall(t + 1, m);
    }
  }

  lemma DequeueContents(s: seq<int>, head: int, tail: int, h: int)
    requires 0 <= head < |s| && 0 <= tail < |s|
    requires h == if head + 1 == |s| then 0 else head + 1
    ensures var c := Abs(s, head, tail);
            |c| > 0 && c[0] == s[head]
            && (h == tail ==> |c| == 1)
            && (h != tail ==> Abs(s, h, tail) == c[1..])
  {
    var c := Abs(s, head, tail);
    if head + 1 == |s| {
      if head >= tail {
        assert c[1..] == s[..tail];
      }
    } else {
      if head < tail {
        assert c[1..] == s[h..tail];
      } else {
        assert c[1..] == s[h..] + s[..tail];
      }
    }
  }
}
