/**
 * MaxMinIntSet of e06/02 (MaxMinIntSet.java): the LinkedList-backed IntSet extended with the
 * cached largest and smallest members. The inherited part is the IntSet object `base`; the
 * overriding methods call its insert, remove, size and iterator as the Java code calls super's.
 */
module MaxMinIntSet {
  import opened Exceptions
  import opened IntSetSpec
  import opened JavaInt
  import LinkedIntSet

  /** The largest element of a non-empty list. */
  function MaxOf(s: seq<int>): (m: int)
    requires |s| > 0
    ensures m in s && forall i :: 0 <= i < |s| ==> s[i] <= m
  {
    if |s| == 1 then s[0]
    else
      var m := MaxOf(s[..|s| - 1]);
      assert forall i :: 0 <= i < |s| - 1 ==> s[i] == s[..|s| - 1][i];
      if s[|s| - 1] > m then s[|s| - 1] else m
  }

  /** The smallest element of a non-empty list. */
  function MinOf(s: seq<int>): (m: int)
    requires |s| > 0
    ensures m in s && forall i :: 0 <= i < |s| ==> m <= s[i]
  {
    if |s| == 1 then s[0]
    else
      var m := MinOf(s[..|s| - 1]);
      assert forall i :: 0 <= i < |s| - 1 ==> s[i] == s[..|s| - 1][i];
      if s[|s| - 1] < m then s[|s| - 1] else m
  }

  lemma MaxOfSnoc(s: seq<int>, x: int)
    requires |s| > 0
    ensures MaxOf(s + [x]) == if x > MaxOf(s) then x else MaxOf(s)
  {
    assert (s + [x])[..|s|] == s;
  }

  lemma MinOfSnoc(s: seq<int>, x: int)
    requires |s| > 0
    ensures MinOf(s + [x]) == if x < MinOf(s) then x else MinOf(s)
  {
    assert (s + [x])[..|s|] == s;
  }

  lemma MaxStep(s: seq<int>, i: int)
    requires 0 < i < |s|
    ensures MaxOf(s[..i + 1]) == if s[i] > MaxOf(s[..i]) then s[i] else MaxOf(s[..i])
  {
    assert s[..i + 1] == s[..i] + [s[i]];
    MaxOfSnoc(s[..i], s[i]);
  }

  lemma MinStep(s: seq<int>, i: int)
    requires 0 < i < |s|
    ensures MinOf(s[..i + 1]) == if s[i] < MinOf(s[..i]) then s[i] else MinOf(s[..i])
  {
    assert s[..i + 1] == s[..i] + [s[i]];
    MinOfSnoc(s[..i], s[i]);
  }

  class MaxMinIntSet {
    /** The inherited IntSet state. */
    const base: LinkedIntSet.IntSet
    var max: int
    var min: int

    /**
     * The invariant: no duplicates, max and min are the largest and smallest members of a
     * non-empty set, and an empty set has the initial values Integer.MIN_VALUE and Integer.MAX_VALUE.
     */
    ghost predicate Valid()
      reads this, base
    {
      NoDuplicates(base.elems)
      && (|base.elems| > 0 ==> max == MaxOf(base.elems) && min == MinOf(base.elems))
      && (|base.elems| == 0 ==> max == IntMin && min == IntMax)
    }

    /** A new set is empty, with max = Integer.MIN_VALUE and min = Integer.MAX_VALUE. */
    constructor ()
      ensures fresh(base) && base.elems == [] && max == IntMin && min == IntMax
      ensures Valid()
    {
      base := new LinkedIntSet.IntSet();
      max := IntMin;
      min := IntMax;
    }

    /** insert: raises max to x and lowers min to x where x goes beyond them, then inserts x. */
    method Insert(x: Int32)
      modifies this, base
      ensures base.elems == Inserted(old(base.elems), x)
      ensures max == (if x > old(max) then x else old(max))
      ensures min == (if x < old(min) then x else old(min))
      ensures old(Valid()) ==> Valid()
    {
      if x > max {
        max := x;
      }
      if x < min {
        min := x;
      }
      base.Insert(x);
      if old(Valid()) && x !in old(base.elems) && |old(base.elems)| > 0 {
        MaxOfSnoc(old(base.elems), x);
        MinOfSnoc(old(base.elems), x);
      }
    }

    /** The largest element the iterator yields, walking the whole non-empty list. */
    method Largest() returns (m: int)
      requires |base.elems| > 0
      ensures m == MaxOf(base.elems)
    {
      ghost var s := base.elems;
      var it := new LinkedIntSet.Iterator(base);
      var first := it.Next();
      m := first.value;
      assert s[..1] == [s[0]];
      var more := it.HasNext();
      while more
        invariant it.owner == base && base.elems == s
        invariant 1 <= it.index <= |s| && (more <==> it.index < |s|)
        invariant m == MaxOf(s[..it.index])
        decreases |s| - it.index
      {
        ghost var i := it.index;
        var n := it.Next();
        var next := n.value;
        MaxStep(s, i);
        if next > m {
          m := next;
        }
        more := it.HasNext();
      }
      assert s[..it.index] == s;
    }

    /** The smallest element the iterator yields, walking the whole non-empty list. */
    method Smallest() returns (m: int)
      requires |base.elems| > 0
      ensures m == MinOf(base.elems)
    {
      ghost var s := base.elems;
      var it := new LinkedIntSet.Iterator(base);
      var first := it.Next();
      m := first.value;
      assert s[..1] == [s[0]];
      var more := it.HasNext();
      while more
        invariant it.owner == base && base.elems == s
        invariant 1 <= it.index <= |s| && (more <==> it.index < |s|)
        invariant m == MinOf(s[..it.index])
        decreases |s| - it.index
      {
        ghost var i := it.index;
        var n := it.Next();
        var next := n.value;
        MinStep(s, i);
        if next < m {
          m := next;
        }
        more := it.HasNext();
      }
      assert s[..it.index] == s;
    }

    /**
     * remove: removes x; when x was max (min) and the set is still non-empty, max (min) is
     * recomputed over the remaining elements. Otherwise max and min are left as they were, also
     * when the set has become empty.
     */
    method Remove(x: int)
      modifies this, base
      ensures base.elems == RemovedFirst(old(base.elems), x)
      ensures max == if x == old(max) && |base.elems| > 0 then MaxOf(base.elems) else old(max)
      ensures min == if x == old(min) && |base.elems| > 0 then MinOf(base.elems) else old(min)
      ensures old(Valid()) && |base.elems| > 0 ==> Valid()
    {
      base.Remove(x);
      var size := base.Size();
      if x == max && size > 0 {
        max := Largest();
      }
      if x == min && size > 0 {
        min := Smallest();
      }
      if old(Valid()) && |base.elems| > 0 {
        KeepsExtremes(old(base.elems), x, old(max), old(min));
      }
    }

    /**
     * The remove that keeps the invariant also when the set becomes empty: it then puts max
     * and min back to Integer.MIN_VALUE and Integer.MAX_VALUE.
     */
    method RemoveResetting(x: int)
      modifies this, base
      ensures base.elems == RemovedFirst(old(base.elems), x)
      ensures |base.elems| > 0 ==> max == (if x == old(max) then MaxOf(base.elems) else old(max))
      ensures |base.elems| > 0 ==> min == (if x == old(min) then MinOf(base.elems) else old(min))
      ensures old(Valid()) ==> Valid()
    {
      Remove(x);
      var size := base.Size();
      if size == 0 {
        max := IntMin;
        min := IntMax;
      }
    }

    /** max(): the cached maximum, the largest member while the invariant holds and the set is non-empty. */
    method Max() returns (r: int)
      ensures r == max
      ensures Valid() && |base.elems| > 0 ==> r in AFOf(base) && forall y :: y in AFOf(base) ==> y <= r
    {
      r := max;
    }

    /** min(): the cached minimum, the smallest member while the invariant holds and the set is non-empty. */
    method Min() returns (r: int)
      ensures r == min
      ensures Valid() && |base.elems| > 0 ==> r in AFOf(base) && forall y :: y in AFOf(base) ==> r <= y
    {
      r := min;
    }
  }

  /** The members of an IntSet. */
  ghost function AFOf(s: LinkedIntSet.IntSet): set<int>
    reads s
  {
    s.AF()
  }

  /**
   * Removing x from a list without duplicates whose extremes were mx and mn: an element other
   * than mx (mn) leaves the maximum (minimum) where it was.
   */
  lemma KeepsExtremes(s: seq<int>, x: int, mx: int, mn: int)
    requires NoDuplicates(s) && |s| > 0 && mx == MaxOf(s) && mn == MinOf(s)
    requires |RemovedFirst(s, x)| > 0
    ensures x != mx ==> MaxOf(RemovedFirst(s, x)) == mx
    ensures x != mn ==> MinOf(RemovedFirst(s, x)) == mn
    ensures NoDuplicates(RemovedFirst(s, x))
  {
    RemovedFirstFacts(s, x);
    var r := RemovedFirst(s, x);
    assert Elements(r) == Elements(s) - {x};
    if x != mx {
      ExtremesKept(s, r, mx);
    }
    if x != mn {
      ExtremesKept(s, r, mn);
    }
  }

  /** A sublist that keeps an extreme of the list has that extreme too. */
  lemma ExtremesKept(s: seq<int>, r: seq<int>, e: int)
    requires |s| > 0 && |r| > 0 && Elements(r) <= Elements(s) && e in Elements(r)
    ensures e == MaxOf(s) ==> MaxOf(r) == e
    ensures e == MinOf(s) ==> MinOf(r) == e
  {
    var hi, lo := MaxOf(r), MinOf(r);
    assert hi in Elements(s) && lo in Elements(s);
    assert e in r;
  }

  /**
   * The cached maximum goes stale: insert 5, remove 5 (the set is empty and max stays 5),
   * insert 3, and max() reports 5 for the set {3}.
   */
  method StaleMaximum() returns (s: MaxMinIntSet, reported: int)
    ensures s.base.elems == [3] && reported == 5
  {
    s := new MaxMinIntSet();
    s.Insert(5);
    s.Remove(5);
    s.Insert(3);
    reported := s.Max();
  }

  /** With RemoveResetting, the same calls report the right maximum 3. */
  method ResetMaximum() returns (s: MaxMinIntSet, reported: int)
    ensures s.base.elems == [3] && reported == 3
  {
    s := new MaxMinIntSet();
    s.Insert(5);
    s.RemoveResetting(5);
    s.Insert(3);
    reported := s.Max();
  }
}
