/**
 * The list operations the list-backed int sets (e03/01, e04/03, e05/03, e06/02) are built on,
 * and what they do to the abstraction function AF(mySet) = { mySet[i] | 0 <= i < size }.
 */
module IntSetSpec {
  /** The representation invariant: no element is stored twice. */
  ghost predicate NoDuplicates(s: seq<int>)
  {
    forall i, j :: 0 <= i < j < |s| ==> s[i] != s[j]
  }

  /** The abstraction function. */
  ghost function Elements(s: seq<int>): set<int>
  {
    set x | x in s
  }

  /** List.indexOf: the first position holding x, or -1. */
  function IndexOf(s: seq<int>, x: int): (i: int)
    ensures -1 <= i < |s|
    ensures i == -1 <==> x !in s
    ensures i >= 0 ==> s[i] == x && forall k :: 0 <= k < i ==> s[k] != x
  {
    if s == [] then -1
    else if s[0] == x then 0
    else
      var r := IndexOf(s[1..], x);
      if r == -1 then -1 else r + 1
  }

  /** insert: add x at the end unless it is already there. */
  function Inserted(s: seq<int>, x: int): seq<int>
  {
    if x in s then s else s + [x]
  }

  lemma InsertedFacts(s: seq<int>, x: int)
    ensures Elements(Inserted(s, x)) == Elements(s) + {x}
    ensures NoDuplicates(s) ==> NoDuplicates(Inserted(s, x))
    ensures |Inserted(s, x)| == if x in s then |s| else |s| + 1
  {
  }

  /** The swap-with-last remove: x's slot takes the last element, and the last slot is dropped. */
  function SwapRemoved(s: seq<int>, x: int): seq<int>
  {
    var i := IndexOf(s, x);
    if i == -1 then s else s[i := s[|s| - 1]][..|s| - 1]
  }

  /** Overwriting slot i with the last element and dropping the last slot takes out one s[i]. */
  lemma SwapLastMultiset(s: seq<int>, i: int)
    requires 0 <= i < |s|
    ensures multiset(s[i := s[|s| - 1]][..|s| - 1]) == multiset(s) - multiset{s[i]}
  {
    var last := |s| - 1;
    var r := s[i := s[last]][..last];
    if i == last {
      assert s == r + [s[i]];
    } else {
      assert r == s[..i] + [s[last]] + s[i + 1..last];
      assert s == s[..i] + [s[i]] + s[i + 1..last] + [s[last]];
    }
  }

  /** The swap-with-last remove takes out one x, keeps every other element and adds no duplicate. */
  lemma SwapRemovedFacts(s: seq<int>, x: int)
    ensures multiset(SwapRemoved(s, x)) == multiset(s) - multiset{x}
    ensures NoDuplicates(s) ==> NoDuplicates(SwapRemoved(s, x)) && Elements(SwapRemoved(s, x)) == Elements(s) - {x}
  {
    var i := IndexOf(s, x);
    if i != -1 {
      SwapLastMultiset(s, i);
    }
    if NoDuplicates(s) {
      RemovedOneFacts(s, SwapRemoved(s, x), x);
    }
  }

  /** Taking one x out of a list without duplicates leaves a list without duplicates, holding the rest. */
  lemma RemovedOneFacts(s: seq<int>, r: seq<int>, x: int)
    requires NoDuplicates(s) && multiset(r) == multiset(s) - multiset{x}
    ensures NoDuplicates(r) && Elements(r) == Elements(s) - {x}
  {
    DistinctMultiset(s);
    MultisetDistinct(r);
    forall y
      ensures y in Elements(r) <==> y in Elements(s) - {x}
    {
      assert y in r <==> y in multiset(r);
      assert y in s <==> y in multiset(s);
    }
  }

  /** LinkedList.remove(Object): the first x is removed and the others keep their order. */
  function RemovedFirst(s: seq<int>, x: int): seq<int>
  {
    var i := IndexOf(s, x);
    if i == -1 then s else s[..i] + s[i + 1..]
  }

  lemma RemovedFirstFacts(s: seq<int>, x: int)
    ensures multiset(RemovedFirst(s, x)) == multiset(s) - multiset{x}
    ensures NoDuplicates(s) ==> NoDuplicates(RemovedFirst(s, x)) && Elements(RemovedFirst(s, x)) == Elements(s) - {x}
  {
    var i := IndexOf(s, x);
    if i != -1 {
      assert s == s[..i] + [x] + s[i + 1..];
    }
    if NoDuplicates(s) {
      RemovedOneFacts(s, RemovedFirst(s, x), x);
    }
  }

  /** A list without duplicates holds each of its elements once. */
  lemma {:induction false} DistinctMultiset(s: seq<int>)
    requires NoDuplicates(s)
    ensures forall x :: multiset(s)[x] == if x in s then 1 else 0
  {
    if s != [] {
      assert s == [s[0]] + s[1..];
      DistinctMultiset(s[1..]);
    }
  }

  /** A list whose multiset holds each element at most once has no duplicates. */
  lemma MultisetDistinct(s: seq<int>)
    requires forall x :: multiset(s)[x] <= 1
    ensures NoDuplicates(s)
  {
    forall i, j | 0 <= i < j < |s|
      ensures s[i] != s[j]
    {
      var a, b := s[..j], s[j..];
      assert s == a + b;
      assert s[i] == a[i] && s[j] == b[0];
      assert multiset(s)[s[j]] == multiset(a)[s[j]] + multiset(b)[s[j]];
      assert s[j] in multiset(b);
    }
  }

  /** size(): without duplicates, the length of the list is the cardinality of the set. */
  lemma {:induction false} DistinctCard(s: seq<int>)
    requires NoDuplicates(s)
    ensures |Elements(s)| == |s|
  {
    if s != [] {
      DistinctCard(s[1..]);
      assert Elements(s) == {s[0]} + Elements(s[1..]);
      assert s[0] !in Elements(s[1..]);
    }
  }

  /** Two lists without duplicates of the same length, one's elements among the other's, are the same set. */
  lemma SameSizeSubset(s: seq<int>, t: seq<int>)
    requires NoDuplicates(s) && NoDuplicates(t) && |s| == |t| && Elements(s) <= Elements(t)
    ensures Elements(s) == Elements(t)
  {
    DistinctCard(s);
    DistinctCard(t);
    var d := Elements(t) - Elements(s);
    assert Elements(t) == Elements(s) + d;
    assert |Elements(t)| == |Elements(s)| + |d|;
  }

  /** Lists without duplicates holding the same set hold the same multiset. */
  lemma SameSetSameMultiset(s: seq<int>, t: seq<int>)
    requires NoDuplicates(s) && NoDuplicates(t) && Elements(s) == Elements(t)
    ensures multiset(s) == multiset(t)
  {
    DistinctMultiset(s);
    DistinctMultiset(t);
    assert forall x :: multiset(s)[x] == multiset(t)[x] by {
      forall x
        ensures multiset(s)[x] == multiset(t)[x]
      {
        assert x in s <==> x in Elements(s);
        assert x in t <==> x in Elements(t);
      }
    }
  }
}
