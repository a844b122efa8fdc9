/** The jolly-jumper ("saltapicchio") test of t04/06 (Saltapicchio.java). */
module Saltapicchio {
  import ExchangeSort

  function Abs(n: int): int
  {
    if n < 0 then -n else n
  }

  /** The sequence isFullSequence compares against: len, len - 1, ..., 1. */
  function Countdown(n: nat): (c: seq<int>)
    ensures |c| == n && forall i :: 0 <= i < n ==> c[i] == n - i
  {
    seq(n, i => n - i)
  }

  /** Countdown(n) holds each of 1..n exactly once and nothing else. */
  lemma {:induction false} CountdownMultiset(n: nat)
    ensures forall x :: multiset(Countdown(n))[x] == if 1 <= x <= n then 1 else 0
  {
    if n > 0 {
      CountdownMultiset(n - 1);
      assert Countdown(n) == [n] + Countdown(n - 1);
    }
  }

  lemma CountdownSorted(n: nat)
    ensures ExchangeSort.Sorted(Countdown(n), true)
  {
  }

  /** A descending sequence with the elements of 1..n is Countdown(n) itself. */
  lemma CountdownUnique(s: seq<int>, n: nat)
    requires ExchangeSort.Sorted(s, true)
    ensures multiset(s) == multiset(Countdown(n)) ==> s == Countdown(n)
  {
    if multiset(s) == multiset(Countdown(n)) {
      CountdownSorted(n);
      ExchangeSort.SortingUnique(s, Countdown(n), true);
    }
  }

  /**
   * isFullSequence: sorts values in place in descending order, then checks that it reads
   * len, len - 1, ..., 1; so it holds exactly when values is a permutation of 1..len.
   */
  method IsFullSequence(values: array<int>) returns (b: bool)
    modifies values
    ensures multiset(values[..]) == multiset(old(values[..]))
    ensures ExchangeSort.Sorted(values[..], true)
    ensures b <==> multiset(old(values[..])) == multiset(Countdown(values.Length))
  {
    ExchangeSort.Sort(values, true);
    CountdownUnique(values[..], values.Length);
    var i := 0;
    while i < values.Length
      invariant 0 <= i <= values.Length
      invariant forall k :: 0 <= k < i ==> values[k] == values.Length - k
    {
      if values[i] != values.Length - i {
        return false;
      }
      i := i + 1;
    }
    assert values[..] == Countdown(values.Length);
    return true;
  }

  /** The absolute differences of consecutive elements. */
  function AbsDiffs(s: seq<int>): (d: seq<int>)
    requires |s| > 0
    ensures |d| == |s| - 1 && forall i :: 0 <= i < |d| ==> d[i] == Abs(s[i] - s[i + 1])
  {
    seq(|s| - 1, i requires 0 <= i < |s| - 1 => Abs(s[i] - s[i + 1]))
  }

  /**
   * isSaltapicchio: true for at most one number; otherwise true exactly when the absolute
   * differences of consecutive numbers are 1..n-1, each once (see CountdownMultiset).
   */
  method IsSaltapicchio(numbers: array<int>) returns (b: bool)
    ensures b <==> numbers.Length <= 1 || multiset(AbsDiffs(numbers[..])) == multiset(Countdown(numbers.Length - 1))
  {
    if numbers.Length <= 1 {
      return true;
    }
    var calculated := new int[numbers.Length - 1];
    var i := 1;
    while i < numbers.Length
      invariant 1 <= i <= numbers.Length
      invariant forall k :: 0 <= k < i - 1 ==> calculated[k] == Abs(numbers[k] - numbers[k + 1])
    {
      var result := numbers[i - 1] - numbers[i];
      if result < 0 {
        result := result * -1;
      }
      calculated[i - 1] := result;
      i := i + 1;
    }
    assert calculated[..] == AbsDiffs(numbers[..]);
    b := IsFullSequence(calculated);
  }
}
