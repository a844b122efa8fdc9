/** The LinkedList-backed set of integers of e06/02 (IntSet.java) and its iterator. */
module LinkedIntSet {
  import opened Exceptions
  import opened IntSetSpec

  class IntSet {
    /** The list field set: the elements in insertion order. */
    var elems: seq<int>

    /** No element is stored twice. */
    ghost predicate RepOk()
      reads this
    {
      NoDuplicates(elems)
    }

    /** The set the list stands for. */
    ghost function AF(): set<int>
      reads this
    {
      Elements(elems)
    }

    /** A new set is empty. */
    constructor ()
      ensures elems == [] && RepOk() && AF() == {}
    {
      elems := [];
    }

    /** insert: appends x when contains(x) is false. */
    method Insert(x: int)
      modifies this
      ensures elems == Inserted(old(elems), x)
      ensures AF() == old(AF()) + {x}
      ensures old(RepOk()) ==> RepOk()
    {
      var present := Contains(x);
      if !present {
        elems := elems + [x];
      }
      InsertedFacts(old(elems), x);
    }

    /** remove: takes out the first x, leaving the other elements in their order; no-op when x is absent. */
    method Remove(x: int)
      modifies this
      ensures elems == RemovedFirst(old(elems), x)
      ensures multiset(elems) == old(multiset(elems)) - multiset{x}
      ensures old(RepOk()) ==> RepOk() && AF() == old(AF()) - {x}
    {
      RemovedFirstFacts(elems, x);
      var present := Contains(x);
      if present {
        var index := IndexOf(elems, x);
        elems := elems[..index] + elems[index + 1..];
      }
    }

    /** choose: EmptyException on an empty set, otherwise the first stored element, a member. */
    method Choose() returns (r: Result<int>)
      ensures r.Err? <==> |elems| == 0
      ensures r.Err? ==> r.error == EmptyException
      ensures r.Ok? ==> r.value == elems[0] && r.value in AF()
    {
      if |elems| <= 0 {
        return Err(EmptyException);
      }
      return Ok(elems[0]);
    }

    /** size: the number of members. */
    method Size() returns (n: int)
      ensures n == |elems|
      ensures RepOk() ==> n == |AF()|
    {
      n := |elems|;
      if RepOk() {
        DistinctCard(elems);
      }
    }

    /** contains: x is a member. */
    method Contains(x: int) returns (b: bool)
      ensures b <==> x in AF()
    {
      b := x in elems;
    }
  }

  /** The anonymous iterator of IntSet.iterator(): a cursor into the live list. */
  class Iterator {
    const owner: IntSet
    var index: int

    /** iterator(): a cursor before the first element. */
    constructor (owner: IntSet)
      ensures this.owner == owner && index == 0
    {
      this.owner := owner;
      index := 0;
    }

    /** hasNext: an element remains, size > index. */
    method HasNext() returns (b: bool)
      ensures b <==> |owner.elems| > index
    {
      b := |owner.elems| > index;
    }

    /**
     * next: the element at the cursor, in stored order, and the cursor moves on; past the end
     * the list raises IndexOutOfBoundsException (the increment has already happened).
     */
    method Next() returns (r: Result<int>)
      modifies this
      ensures index == old(index) + 1
      ensures 0 <= old(index) < |owner.elems| ==> r == Ok(owner.elems[old(index)])
      ensures !(0 <= old(index) < |owner.elems|) ==> r == Err(IndexOutOfBoundsException)
    {
      var i := index;
      index := index + 1;
      if 0 <= i < |owner.elems| {
        r := Ok(owner.elems[i]);
      } else {
        r := Err(IndexOutOfBoundsException);
      }
    }
  }
}
