/** The ArrayList-backed set of integers of e05/03 (IntSet.java), with get, equals and hashCode. */
module IntSetCorrectness {
  import opened Exceptions
  import opened IntSetSpec
  import opened JavaInt

  /** hashCode's value: start from the size and fold h = 31 * h + x over the list, in int arithmetic. */
  function ListHash(seed: int, s: seq<int>): (h: int)
    ensures |s| > 0 ==> IntMin <= h <= IntMax
  {
    if s == [] then seed else Wrap32(31 * ListHash(seed, s[..|s| - 1]) + s[|s| - 1])
  }

  /** The sum of a list. */
  function SumOf(s: seq<int>): int
  {
    if s == [] then 0 else s[0] + SumOf(s[1..])
  }

  lemma {:induction false} SumOfConcat(a: seq<int>, b: seq<int>)
    ensures SumOf(a + b) == SumOf(a) + SumOf(b)
  {
    if a != [] {
      assert (a + b)[1..] == a[1..] + b;
      SumOfConcat(a[1..], b);
    } else {
      assert a + b == b;
    }
  }

  /** Taking out the element at k removes its value from the sum. */
  lemma RemoveAt(t: seq<int>, k: int)
    requires 0 <= k < |t|
    ensures SumOf(t) == t[k] + SumOf(t[..k] + t[k + 1..])
  {
    var a, b, c := t[..k], [t[k]], t[k + 1..];
    assert t == a + (b + c);
    SumOfConcat(a, b + c);
    assert (b + c)[1..] == c;
    SumOfConcat(a, c);
  }

  /** The first element of s sits at some k in a permutation t, and the rests are permutations too. */
  lemma PermutationHead(s: seq<int>, t: seq<int>) returns (k: int)
    requires multiset(s) == multiset(t) && s != []
    ensures 0 <= k < |t| && t[k] == s[0]
    ensures multiset(s[1..]) == multiset(t[..k] + t[k + 1..])
  {
    assert s[0] in multiset(t);
    k :| 0 <= k < |t| && t[k] == s[0];
    var a, c := t[..k], t[k + 1..];
    assert s == [s[0]] + s[1..];
    assert multiset(s[1..]) == multiset(s) - multiset{s[0]};
    assert t == a + [t[k]] + c;
    assert multiset(t) == multiset(a) + multiset{t[k]} + multiset(c);
    assert multiset(a + c) == multiset(a) + multiset(c);
  }

  /** The sum does not depend on the order of the list. */
  lemma {:induction false} SumOfPermutation(s: seq<int>, t: seq<int>)
    requires multiset(s) == multiset(t)
    ensures SumOf(s) == SumOf(t)
  {
    if s == [] {
      assert |t| == |multiset(t)| == 0;
    } else {
      var k := PermutationHead(s, t);
      RemoveAt(t, k);
      SumOfPermutation(s[1..], t[..k] + t[k + 1..]);
    }
  }

  /** An order-free hash: the size plus the sum of the members, in int arithmetic. */
  function OrderFreeHash(s: seq<int>): (h: int)
    ensures IntMin <= h <= IntMax
  {
    Wrap32(|s| + SumOf(s))
  }

  /** hashCode as written folds the list in stored order, so the same set stored in two orders hashes differently. */
  lemma ListHashOrderDependent()
    ensures Elements([1, 2]) == Elements([2, 1])
    ensures ListHash(2, [1, 2]) == 1955 && ListHash(2, [2, 1]) == 1985
  {
    assert Elements([1, 2]) == {1, 2} == Elements([2, 1]);
    assert [1, 2][..1] == [1] && [2, 1][..1] == [2];
    assert [1][..0] == [] && [2][..0] == [];
  }

  /** Lists without duplicates that hold the same set get the same order-free hash. */
  lemma EqualSetsEqualHash(s: seq<int>, t: seq<int>)
    requires NoDuplicates(s) && NoDuplicates(t) && Elements(s) == Elements(t)
    ensures OrderFreeHash(s) == OrderFreeHash(t)
  {
    SameSetSameMultiset(s, t);
    SumOfPermutation(s, t);
    assert |s| == |multiset(s)| == |multiset(t)| == |t|;
  }

  class IntSet {
    var mySet: seq<int>

    /** No element is stored twice. */
    ghost predicate RepOk()
      reads this
    {
      NoDuplicates(mySet)
    }

    /** The set the list stands for. */
    ghost function AF(): set<int>
      reads this
    {
      Elements(mySet)
    }

    /** A new set is empty. */
    constructor ()
      ensures mySet == [] && RepOk() && AF() == {}
    {
      mySet := [];
    }

    /** insert: a no-op when x is a member, and appends x otherwise. */
    method Insert(x: int)
      modifies this
      ensures mySet == Inserted(old(mySet), x)
      ensures AF() == old(AF()) + {x}
      ensures old(RepOk()) ==> RepOk()
    {
      if x !in mySet {
        mySet := mySet + [x];
      }
      InsertedFacts(old(mySet), x);
    }

    /** remove: overwrites x's slot with the last element and drops the last slot; no-op when x is absent. */
    method Remove(x: int)
      modifies this
      ensures mySet == SwapRemoved(old(mySet), x)
      ensures multiset(mySet) == old(multiset(mySet)) - multiset{x}
      ensures old(RepOk()) ==> RepOk() && AF() == old(AF()) - {x}
    {
      SwapRemovedFacts(mySet, x);
      var index := IndexOf(mySet, x);
      if index != -1 {
        var lastIndex := |mySet| - 1;
        mySet := mySet[index := mySet[lastIndex]];
        mySet := mySet[..lastIndex];
      }
    }

    /** get: the element stored at index; IndexOutOfBoundsException outside 0 .. size - 1. */
    method Get(index: int) returns (r: Result<int>)
      ensures r.Err? <==> index < 0 || index >= |mySet|
      ensures r.Err? ==> r.error == IndexOutOfBoundsException
      ensures r.Ok? ==> r.value == mySet[index] && r.value in AF()
    {
      if index < 0 || index >= |mySet| {
        return Err(IndexOutOfBoundsException);
      }
      return Ok(mySet[index]);
    }

    /** choose: EmptyException on an empty set, otherwise the last stored element, a member. */
    method Choose() returns (r: Result<int>)
      ensures r.Err? <==> |mySet| == 0
      ensures r.Err? ==> r.error == EmptyException
      ensures r.Ok? ==> r.value == mySet[|mySet| - 1] && r.value in AF()
    {
      if |mySet| == 0 {
        return Err(EmptyException);
      }
      return Ok(mySet[|mySet| - 1]);
    }

    /** size: the number of members. */
    method Size() returns (n: int)
      ensures n == |mySet|
      ensures RepOk() ==> n == |AF()|
    {
      n := |mySet|;
      if RepOk() {
        DistinctCard(mySet);
      }
    }

    /** contains: x is a member. */
    method Contains(x: int) returns (b: bool)
      ensures b <==> x in AF()
    {
      b := x in mySet;
    }

    /**
     * equals: the sizes agree and every member of this set is in o; for two sets whose invariant
     * holds, that is exactly the same set.
     */
    method Equals(o: IntSet) returns (b: bool)
      ensures b <==> |o.mySet| == |mySet| && AF() <= o.AF()
      ensures RepOk() && o.RepOk() ==> (b <==> AF() == o.AF())
    {
      if |o.mySet| != |mySet| {
        if RepOk() && o.RepOk() {
          DistinctCard(mySet);
          DistinctCard(o.mySet);
        }
        return false;
      }
      var i := 0;
      while i < |mySet|
        invariant 0 <= i <= |mySet|
        invariant forall k :: 0 <= k < i ==> mySet[k] in o.mySet
      {
        var actual := mySet[i];
        if actual !in o.mySet {
          assert actual in AF() && actual !in o.AF();
          return false;
        }
        i := i + 1;
      }
      if RepOk() && o.RepOk() {
        SameSizeSubset(mySet, o.mySet);
      }
      return true;
    }

    /** hashCode: ListHash of the list seeded with its size; it depends on the stored order. */
    method HashCode() returns (h: int)
      ensures h == ListHash(|mySet|, mySet)
    {
      h := |mySet|;
      var i := 0;
      while i < |mySet|
        invariant 0 <= i <= |mySet|
        invariant h == ListHash(|mySet|, mySet[..i])
      {
        assert mySet[..i + 1][..i] == mySet[..i];
        h := Wrap32(31 * h + mySet[i]);
        i := i + 1;
      }
      assert mySet[..i] == mySet;
    }

    /** A hashCode that agrees with equals: OrderFreeHash, equal for any two equal sets. */
    method OrderFreeHashCode() returns (h: int)
      ensures h == OrderFreeHash(mySet)
      ensures forall t :: RepOk() && NoDuplicates(t) && Elements(t) == AF() ==> OrderFreeHash(t) == h
    {
      var sum := 0;
      var i := |mySet|;
      while i > 0
        invariant 0 <= i <= |mySet|
        invariant sum == SumOf(mySet[i..])
      {
        i := i - 1;
        assert mySet[i..] == [mySet[i]] + mySet[i + 1..];
        sum := mySet[i] + sum;
      }
      h := Wrap32(|mySet| + sum);
      forall t | RepOk() && NoDuplicates(t) && Elements(t) == AF()
        ensures OrderFreeHash(t) == h
      {
        EqualSetsEqualHash(t, mySet);
      }
    }
  }
}
