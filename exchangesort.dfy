/**
 * The exchange sort shared, line for line, by e01/06 (Kaprekar.sort), t04/06
 * (Saltapicchio.sort) and, in its ascending form, e04/03 (IntSet.sort): for every pair of
 * positions (i, j), swap when number[i] should come after number[j].
 */
module ExchangeSort {
  /** The sort key: ascending order on x, or descending when reverse is set. */
  function Key(x: int, reverse: bool): int
  {
    if reverse then -x else x
  }

  /** The swap test of the inner loop. */
  predicate Misplaced(x: int, y: int, reverse: bool)
    ensures Misplaced(x, y, reverse) <==> Key(x, reverse) < Key(y, reverse)
  {
    (reverse && x > y) || (!reverse && x < y)
  }

  /** Ascending (reverse false) or descending (reverse true). */
  ghost predicate Sorted(s: seq<int>, reverse: bool)
  {
    forall k, l :: 0 <= k < l < |s| ==> Key(s[k], reverse) <= Key(s[l], reverse)
  }

  lemma SortedMeans(s: seq<int>, reverse: bool)
    ensures Sorted(s, reverse) && !reverse ==> forall k, l :: 0 <= k < l < |s| ==> s[k] <= s[l]
    ensures Sorted(s, reverse) && reverse ==> forall k, l :: 0 <= k < l < |s| ==> s[k] >= s[l]
  {
  }

  /** The first n positions are in order. */
  ghost predicate SortedBelow(s: seq<int>, n: int, reverse: bool)
    requires 0 <= n <= |s|
  {
    forall k, l :: 0 <= k < l < n ==> Key(s[k], reverse) <= Key(s[l], reverse)
  }

  /** Position m holds an element that comes last in the order. */
  ghost predicate LastAt(s: seq<int>, m: int, reverse: bool)
    requires 0 <= m < |s|
  {
    forall k :: 0 <= k < |s| ==> Key(s[k], reverse) <= Key(s[m], reverse)
  }

  lemma SwapPermutes(s: seq<int>, i: int, j: int)
    requires 0 <= i < |s| && 0 <= j < |s|
    ensures multiset(s[i := s[j]][j := s[i]]) == multiset(s)
  {
  }

  /** What one iteration of the inner loop does to the array. */
  function StepOf(s: seq<int>, i: int, j: int, reverse: bool): (r: seq<int>)
    requires 0 <= i < |s| && 0 <= j < |s|
    ensures |r| == |s| && multiset(r) == multiset(s)
  {
    SwapPermutes(s, i, j);
    if Misplaced(s[i], s[j], reverse) then s[i := s[j]][j := s[i]] else s
  }

  /** For i = 0, the first j positions come no later than position 0. */
  ghost predicate CarryInv(s: seq<int>, j: int, reverse: bool)
    requires 0 <= j <= |s| && |s| > 0
  {
    forall k :: 0 <= k < j ==> Key(s[k], reverse) <= Key(s[0], reverse)
  }

  /**
   * For i > 0 and j <= i: the first j positions are in order and no later than the carried
   * element at i, positions j..i-1 are still the original ones and come no earlier than the
   * first j; once j reaches i, the carried element is the last one.
   */
  ghost predicate InsertInv(s: seq<int>, orig: seq<int>, i: int, j: int, reverse: bool)
    requires 0 < i < |s| == |orig| && 0 <= j <= i
  {
    SortedBelow(s, j, reverse)
    && (forall k :: 0 <= k < j ==> Key(s[k], reverse) <= Key(s[i], reverse))
    && (forall l :: j <= l < i ==> s[l] == orig[l])
    && (forall k, l :: 0 <= k < j <= l < i ==> Key(s[k], reverse) <= Key(s[l], reverse))
    && (j == i ==> Key(orig[i - 1], reverse) <= Key(s[i], reverse))
  }

  /** Nothing comes later than the original element at i - 1. */
  ghost predicate Bounded(s: seq<int>, top: int, reverse: bool)
  {
    forall k :: 0 <= k < |s| ==> Key(s[k], reverse) <= top
  }

  lemma CarryStep(s: seq<int>, j: int, reverse: bool)
    requires 0 <= j < |s| && CarryInv(s, j, reverse)
    ensures CarryInv(StepOf(s, 0, j, reverse), j + 1, reverse)
  {
  }

  lemma InsertStep(s: seq<int>, orig: seq<int>, i: int, j: int, reverse: bool)
    requires 0 <= j < i < |s| == |orig|
    requires SortedBelow(orig, i, reverse) && Bounded(s, Key(orig[i - 1], reverse), reverse)
    requires InsertInv(s, orig, i, j, reverse)
    ensures InsertInv(StepOf(s, i, j, reverse), orig, i, j + 1, reverse)
  {
    if Misplaced(s[i], s[j], reverse) {
      var t := s[i := s[j]][j := s[i]];
      assert t[j] == s[i] && t[i] == orig[j];
      assert forall k :: 0 <= k < j ==> t[k] == s[k];
      assert forall l :: j < l < i ==> t[l] == s[l];
    }
  }

  lemma BoundedStep(s: seq<int>, i: int, j: int, top: int, reverse: bool)
    requires 0 <= i < |s| && 0 <= j < |s| && Bounded(s, top, reverse)
    ensures Bounded(StepOf(s, i, j, reverse), top, reverse)
  {
  }

  /** At j = i nothing moves, and the first i + 1 positions are in order with the last at i. */
  lemma PivotStep(s: seq<int>, orig: seq<int>, i: int, reverse: bool)
    requires 0 < i < |s| == |orig|
    requires Bounded(s, Key(orig[i - 1], reverse), reverse) && InsertInv(s, orig, i, i, reverse)
    ensures StepOf(s, i, i, reverse) == s
    ensures SortedBelow(s, i + 1, reverse) && LastAt(s, i, reverse)
  {
  }

  /** Past i nothing moves: the element at i comes last. */
  lemma TailStep(s: seq<int>, i: int, j: int, reverse: bool)
    requires 0 <= i < j < |s| && LastAt(s, i, reverse)
    ensures StepOf(s, i, j, reverse) == s
  {
  }

  /** The body of the inner loop: swap number[i] and number[j] when they are out of order. */
  method SwapIfMisplaced(a: array<int>, i: int, j: int, reverse: bool)
    requires 0 <= i < a.Length && 0 <= j < a.Length
    modifies a
    ensures a[..] == StepOf(old(a[..]), i, j, reverse)
  {
    if (reverse && a[i] > a[j]) || (!reverse && a[i] < a[j]) {
      a[i], a[j] := a[j], a[i];
    }
  }

  /**
   * One pass of the inner loop for a fixed i. For i = 0 it carries the last element to
   * position 0; for i > 0, with the first i positions in order and the last element at
   * i - 1, it inserts number[i] into them and leaves the last element at i.
   */
  method Pass(a: array<int>, i: int, reverse: bool)
    requires 0 <= i < a.Length
    requires i > 0 ==> SortedBelow(a[..], i, reverse) && LastAt(a[..], i - 1, reverse)
    modifies a
    ensures multiset(a[..]) == multiset(old(a[..]))
    ensures SortedBelow(a[..], i + 1, reverse) && LastAt(a[..], i, reverse)
  {
    ghost var orig := a[..];
    ghost var top := if i > 0 then Key(orig[i - 1], reverse) else 0;
    var j := 0;
    while j < a.Length
      invariant 0 <= j <= a.Length
      invariant multiset(a[..]) == multiset(orig)
      invariant i == 0 ==> CarryInv(a[..], j, reverse)
      invariant i > 0 ==> Bounded(a[..], top, reverse)
      invariant i > 0 && j <= i ==> InsertInv(a[..], orig, i, j, reverse)
      invariant i > 0 && j > i ==> SortedBelow(a[..], i + 1, reverse) && LastAt(a[..], i, reverse)
    {
      ghost var s := a[..];
      SwapIfMisplaced(a, i, j, reverse);
      if i == 0 {
        CarryStep(s, j, reverse);
      } else {
        BoundedStep(s, i, j, top, reverse);
        if j < i {
          InsertStep(s, orig, i, j, reverse);
        } else if j == i {
          PivotStep(s, orig, i, reverse);
        } else {
          TailStep(s, i, j, reverse);
        }
      }
      j := j + 1;
    }
  }

  /** sort(number, reverse): permutes the array in place into ascending or descending order. */
  method Sort(a: array<int>, reverse: bool)
    modifies a
    ensures multiset(a[..]) == multiset(old(a[..]))
    ensures Sorted(a[..], reverse)
  {
    var i := 0;
    while i < a.Length
      invariant 0 <= i <= a.Length
      invariant multiset(a[..]) == multiset(old(a[..]))
      invariant i > 0 ==> SortedBelow(a[..], i, reverse) && LastAt(a[..], i - 1, reverse)
    {
      Pass(a, i, reverse);
      i := i + 1;
    }
  }

  /** r is s sorted: ascending, or descending when reverse is set. */
  ghost predicate SortingOf(r: seq<int>, s: seq<int>, reverse: bool)
  {
    multiset(r) == multiset(s) && Sorted(r, reverse)
  }

  /** The first element of a sorted sequence comes first among all its elements. */
  lemma SortedHead(r: seq<int>, x: int, reverse: bool)
    requires |r| > 0 && Sorted(r, reverse) && x in multiset(r)
    ensures Key(r[0], reverse) <= Key(x, reverse)
  {
    var k :| 0 <= k < |r| && r[k] == x;
    if k > 0 {
      assert Key(r[0], reverse) <= Key(r[k], reverse);
    }
  }

  lemma TailMultiset(r: seq<int>)
    requires |r| > 0
    ensures multiset(r[1..]) == multiset(r) - multiset{r[0]}
  {
    assert r == [r[0]] + r[1..];
  }

  lemma SortedTail(r: seq<int>, reverse: bool)
    requires |r| > 0 && Sorted(r, reverse)
    ensures Sorted(r[1..], reverse)
  {
    forall k, l | 0 <= k < l < |r| - 1
      ensures Key(r[1..][k], reverse) <= Key(r[1..][l], reverse)
    {
      assert r[1..][k] == r[k + 1] && r[1..][l] == r[l + 1];
    }
  }

  /** Two sortings of the same elements start alike, and what follows is again two sortings of the same elements. */
  lemma SortingHeads(r1: seq<int>, r2: seq<int>, reverse: bool)
    requires |r1| > 0 && multiset(r1) == multiset(r2)
    requires Sorted(r1, reverse) && Sorted(r2, reverse)
    ensures |r2| > 0 && r1[0] == r2[0]
    ensures multiset(r1[1..]) == multiset(r2[1..])
    ensures Sorted(r1[1..], reverse) && Sorted(r2[1..], reverse)
  {
    assert |r2| == |multiset(r2)| == |multiset(r1)| == |r1|;
    assert r1[0] in multiset(r1) && r2[0] in multiset(r2);
    SortedHead(r1, r2[0], reverse);
    SortedHead(r2, r1[0], reverse);
    SortedTail(r1, reverse);
    SortedTail(r2, reverse);
    TailMultiset(r1);
    TailMultiset(r2);
  }

  /** A sequence has only one sorting in each direction. */
  lemma {:induction false} SortingUnique(r1: seq<int>, r2: seq<int>, reverse: bool)
    requires multiset(r1) == multiset(r2)
    requires Sorted(r1, reverse) && Sorted(r2, reverse)
    ensures r1 == r2
  {
    if |r1| > 0 {
      SortingHeads(r1, r2, reverse);
      SortingUnique(r1[1..], r2[1..], reverse);
      assert r1 == [r1[0]] + r1[1..];
      assert r2 == [r2[0]] + r2[1..];
    } else {
      assert |r2| == |multiset(r2)| == 0;
    }
  }
}
