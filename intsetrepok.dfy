/**
 * The ArrayList-backed set of integers of e04/03 (IntSet.java): the e03/01 operations plus get,
 * an in-place exchange sort, equals, a hashCode that sorts first, and repOK.
 */
module IntSetRepOk {
  import opened Exceptions
  import opened IntSetSpec
  import opened ExchangeSort
  import opened JavaInt

  /** The string hashCode builds: each element followed by "-". */
  function RepString(s: seq<int>): string
  {
    if s == [] then "" else RepString(s[..|s| - 1]) + IntString(s[|s| - 1]) + "-"
  }

  /** Reordering a list keeps it free of duplicates. */
  lemma PermutationKeepsDistinct(s: seq<int>, t: seq<int>)
    requires multiset(s) == multiset(t) && NoDuplicates(s)
    ensures NoDuplicates(t)
  {
    DistinctMultiset(s);
    MultisetDistinct(t);
  }

  /** In an ascending list, there are no duplicates exactly when no two neighbours are equal. */
  lemma SortedAdjacent(s: seq<int>)
    requires Sorted(s, false)
    ensures NoDuplicates(s) <==> forall k :: 1 <= k < |s| ==> s[k - 1] != s[k]
  {
    SortedMeans(s, false);
    if forall k :: 1 <= k < |s| ==> s[k - 1] != s[k] {
      forall i, j | 0 <= i < j < |s|
        ensures s[i] != s[j]
      {
        assert s[i] <= s[j - 1] && s[j - 1] != s[j] && s[j - 1] <= s[j];
      }
    }
  }

  /** Two ascending lists without duplicates holding the same set are the same list. */
  lemma SortedSetsEqual(s: seq<int>, t: seq<int>)
    requires NoDuplicates(s) && NoDuplicates(t) && Elements(s) == Elements(t)
    requires Sorted(s, false) && Sorted(t, false)
    ensures s == t
  {
    SameSetSameMultiset(s, t);
    SortingUnique(s, t, false);
  }

  class IntSet {
    var mySet: seq<int>

    /** No element is stored twice. */
    ghost predicate RepOk()
      reads this
    {
      NoDuplicates(mySet)
    }

    /** The set the list stands for. */
    ghost function AF(): set<int>
      reads this
    {
      Elements(mySet)
    }

    /** A new set is empty. */
    constructor ()
      ensures mySet == [] && RepOk() && AF() == {}
    {
      mySet := [];
    }

    /** insert: appends x when it is not already a member. */
    method Insert(x: int)
      modifies this
      ensures mySet == Inserted(old(mySet), x)
      ensures AF() == old(AF()) + {x}
      ensures old(RepOk()) ==> RepOk()
    {
      if x !in mySet {
        mySet := mySet + [x];
      }
      InsertedFacts(old(mySet), x);
    }

    /** remove: overwrites x's slot with the last element and drops the last slot; no-op when x is absent. */
    method Remove(x: int)
      modifies this
      ensures mySet == SwapRemoved(old(mySet), x)
      ensures multiset(mySet) == old(multiset(mySet)) - multiset{x}
      ensures old(RepOk()) ==> RepOk() && AF() == old(AF()) - {x}
    {
      SwapRemovedFacts(mySet, x);
      var index := IndexOf(mySet, x);
      if index != -1 {
        var lastIndex := |mySet| - 1;
        mySet := mySet[index := mySet[lastIndex]];
        mySet := mySet[..lastIndex];
      }
    }

    /** get: the element stored at index; IndexOutOfBoundsException outside 0 .. size - 1. */
    method Get(index: int) returns (r: Result<int>)
      ensures r.Err? <==> index < 0 || index >= |mySet|
      ensures r.Err? ==> r.error == IndexOutOfBoundsException
      ensures r.Ok? ==> r.value == mySet[index] && r.value in AF()
    {
      if index < 0 || index >= |mySet| {
        return Err(IndexOutOfBoundsException);
      }
      return Ok(mySet[index]);
    }

    /** choose: EmptyException on an empty set, otherwise the last stored element, a member. */
    method Choose() returns (r: Result<int>)
      ensures r.Err? <==> |mySet| == 0
      ensures r.Err? ==> r.error == EmptyException
      ensures r.Ok? ==> r.value == mySet[|mySet| - 1] && r.value in AF()
    {
      if |mySet| == 0 {
        return Err(EmptyException);
      }
      return Ok(mySet[|mySet| - 1]);
    }

    /** size: the number of members. */
    method Size() returns (n: int)
      ensures n == |mySet|
      ensures RepOk() ==> n == |AF()|
    {
      n := |mySet|;
      if RepOk() {
        DistinctCard(mySet);
      }
    }

    /** contains: x is a member. */
    method Contains(x: int) returns (b: bool)
      ensures b <==> x in AF()
    {
      b := x in mySet;
    }

    /**
     * One round of sort's outer loop for a fixed i. For i = 0 it carries the largest element to
     * position 0; for i > 0, with the first i positions ascending and the largest at i - 1, it
     * inserts mySet[i] among them and leaves the largest at i.
     */
    method SortPass(i: int)
      requires 0 <= i < |mySet|
      requires i > 0 ==> SortedBelow(mySet, i, false) && LastAt(mySet, i - 1, false)
      modifies this
      ensures |mySet| == |old(mySet)| && multiset(mySet) == multiset(old(mySet))
      ensures SortedBelow(mySet, i + 1, false) && LastAt(mySet, i, false)
    {
      ghost var orig := mySet;
      ghost var top := if i > 0 then Key(orig[i - 1], false) else 0;
      var j := 0;
      while j < |mySet|
        invariant 0 <= j <= |mySet| == |orig|
        invariant multiset(mySet) == multiset(orig)
        invariant i == 0 ==> CarryInv(mySet, j, false)
        invariant i > 0 ==> Bounded(mySet, top, false)
        invariant i > 0 && j <= i ==> InsertInv(mySet, orig, i, j, false)
        invariant i > 0 && j > i ==> SortedBelow(mySet, i + 1, false) && LastAt(mySet, i, false)
      {
        ghost var s := mySet;
        Exchange(i, j);
        if i == 0 {
          CarryStep(s, j, false);
        } else {
          BoundedStep(s, i, j, top, false);
          if j < i {
            InsertStep(s, orig, i, j, false);
          } else if j == i {
            PivotStep(s, orig, i, false);
          } else {
            TailStep(s, i, j, false);
          }
        }
        j := j + 1;
      }
    }

    /** The body of sort's inner loop: swap mySet[i] and mySet[j] when mySet[i] < mySet[j]. */
    method Exchange(i: int, j: int)
      requires 0 <= i < |mySet| && 0 <= j < |mySet|
      modifies this
      ensures mySet == StepOf(old(mySet), i, j, false)
    {
      if mySet[i] < mySet[j] {
        var temp := mySet[i];
        mySet := mySet[i := mySet[j]];
        mySet := mySet[j := temp];
      }
    }

    /** sort: permutes the list in place into ascending order; the set and the invariant are unchanged. */
    method Sort()
      modifies this
      ensures multiset(mySet) == multiset(old(mySet)) && Sorted(mySet, false)
      ensures AF() == old(AF()) && (old(RepOk()) ==> RepOk())
    {
      var i := 0;
      while i < |mySet|
        invariant 0 <= i <= |mySet|
        invariant multiset(mySet) == multiset(old(mySet))
        invariant i > 0 ==> SortedBelow(mySet, i, false) && LastAt(mySet, i - 1, false)
      {
        SortPass(i);
        i := i + 1;
      }
      assert |mySet| > 0 ==> SortedBelow(mySet, |mySet|, false);
      forall x
        ensures x in mySet <==> x in old(mySet)
      {
        assert x in mySet <==> x in multiset(mySet);
        assert x in old(mySet) <==> x in multiset(old(mySet));
      }
      if old(RepOk()) {
        PermutationKeepsDistinct(old(mySet), mySet);
      }
    }

    /**
     * equals: the sizes agree and every element of o is in this set; for two sets whose
     * invariant holds, that is exactly the same set.
     */
    method Equals(o: IntSet) returns (b: bool)
      ensures b <==> |o.mySet| == |mySet| && o.AF() <= AF()
      ensures RepOk() && o.RepOk() ==> (b <==> AF() == o.AF())
    {
      if |o.mySet| != |mySet| {
        if RepOk() && o.RepOk() {
          DistinctCard(mySet);
          DistinctCard(o.mySet);
        }
        return false;
      }
      var i := 0;
      while i < |mySet|
        invariant 0 <= i <= |mySet|
        invariant forall k :: 0 <= k < i ==> o.mySet[k] in mySet
      {
        if o.mySet[i] !in mySet {
          break;
        }
        i := i + 1;
      }
      if i != |mySet| {
        assert o.mySet[i] in o.AF() && o.mySet[i] !in AF();
        return false;
      }
      if RepOk() && o.RepOk() {
        SameSizeSubset(o.mySet, mySet);
      }
      return true;
    }

    /**
     * hashCode: sorts the list, then hashes the string of its elements each followed by "-".
     * With the list sorted, equal sets have equal lists (SortedSetsEqual), hence equal hashes.
     */
    method HashCode() returns (h: int)
      modifies this
      ensures multiset(mySet) == multiset(old(mySet)) && Sorted(mySet, false)
      ensures AF() == old(AF()) && (old(RepOk()) ==> RepOk())
      ensures h == StringHash(RepString(mySet))
    {
      Sort();
      var repString := "";
      var i := 0;
      while i < |mySet|
        invariant 0 <= i <= |mySet|
        invariant repString == RepString(mySet[..i])
      {
        assert mySet[..i + 1][..i] == mySet[..i];
        repString := repString + IntString(mySet[i]) + "-";
        i := i + 1;
      }
      assert mySet[..i] == mySet;
      h := StringHash(repString);
    }

    /**
     * repOK: sorts the list, then fails when two neighbours are the same Integer object. Boxes of
     * equal values are the same object only inside Integer.valueOf's cache, so a list without
     * duplicates always passes, and when every element is cached it passes exactly when it had
     * no duplicates.
     */
    method RepOK() returns (ok: bool)
      modifies this
      ensures multiset(mySet) == multiset(old(mySet)) && Sorted(mySet, false) && AF() == old(AF())
      ensures ok <==> forall k :: 1 <= k < |mySet| ==> BoxedDiffer(mySet[k - 1], mySet[k])
      ensures old(RepOk()) ==> ok
      ensures AllCached(mySet) ==> (ok <==> old(RepOk()))
    {
      Sort();
      SortedAdjacent(mySet);
      if NoDuplicates(mySet) {
        PermutationKeepsDistinct(mySet, old(mySet));
      }
      var i := 1;
      while i < |mySet|
        invariant 1 <= i <= |mySet| || |mySet| == 0
        invariant forall k :: 1 <= k < i && k < |mySet| ==> BoxedDiffer(mySet[k - 1], mySet[k])
      {
        if !BoxedDiffer(mySet[i - 1], mySet[i]) {
          return false;
        }
        i := i + 1;
      }
      return true;
    }
  }
}
