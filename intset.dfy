/** The ArrayList-backed set of integers of e03/01 (IntSet.java). */
module IntSetBasic {
  import opened Exceptions
  import opened IntSetSpec

  class IntSet {
    /** The elements, in insertion order up to the swaps that remove makes. */
    var mySet: seq<int>

    /** No element is stored twice. */
    ghost predicate RepOk()
      reads this
    {
      NoDuplicates(mySet)
    }

    /** The set the list stands for. */
    ghost function AF(): set<int>
      reads this
    {
      Elements(mySet)
    }

    /** A new set is empty. */
    constructor ()
      ensures mySet == [] && RepOk() && AF() == {}
    {
      mySet := [];
    }

    /** insert: appends x when it is not already a member. */
    method Insert(x: int)
      modifies this
      ensures mySet == Inserted(old(mySet), x)
      ensures AF() == old(AF()) + {x}
      ensures old(RepOk()) ==> RepOk()
    {
      if x !in mySet {
        mySet := mySet + [x];
      }
      InsertedFacts(old(mySet), x);
    }

    /** remove: overwrites x's slot with the last element and drops the last slot; no-op when x is absent. */
    method Remove(x: int)
      modifies this
      ensures mySet == SwapRemoved(old(mySet), x)
      ensures multiset(mySet) == old(multiset(mySet)) - multiset{x}
      ensures old(RepOk()) ==> RepOk() && AF() == old(AF()) - {x}
    {
      SwapRemovedFacts(mySet, x);
      var index := IndexOf(mySet, x);
      if index != -1 {
        var lastIndex := |mySet| - 1;
        mySet := mySet[index := mySet[lastIndex]];
        mySet := mySet[..lastIndex];
      }
    }

    /** choose: EmptyException on an empty set, otherwise the last stored element, a member. */
    method Choose() returns (r: Result<int>)
      ensures r.Err? <==> |mySet| == 0
      ensures r.Err? ==> r.error == EmptyException
      ensures r.Ok? ==> r.value == mySet[|mySet| - 1] && r.value in AF()
    {
      if |mySet| == 0 {
        return Err(EmptyException);
      }
      return Ok(mySet[|mySet| - 1]);
    }

    /** size: the number of members. */
    method Size() returns (n: int)
      ensures n == |mySet|
      ensures RepOk() ==> n == |AF()|
    {
      n := |mySet|;
      if RepOk() {
        DistinctCard(mySet);
      }
    }

    /** contains: x is a member. */
    method Contains(x: int) returns (b: bool)
      ensures b <==> x in AF()
    {
      b := x in mySet;
    }
  }
}
