/** Rows of Pascal's (Tartaglia's) triangle, t04/04 (Tartaglia.java). */
module Tartaglia {
  /** The binomial coefficient C(n, k), by Pascal's rule. */
  function Binomial(n: nat, k: nat): nat
  {
    if k > n then 0
    else if k == 0 || k == n then 1
    else Binomial(n - 1, k - 1) + Binomial(n - 1, k)
  }

  /** Row n of the triangle: C(n, 0), ..., C(n, n). */
  function Row(n: nat): (r: seq<int>)
    ensures |r| == n + 1 && forall k :: 0 <= k <= n ==> r[k] == Binomial(n, k)
  {
    seq(n + 1, k requires 0 <= k <= n => Binomial(n, k))
  }

  /** The row nexLineTartaglia builds from p: 1, the sums of neighbours, 1. */
  function NextLine(p: seq<int>): (r: seq<int>)
    ensures |r| == |p| + 1 && r[0] == 1 && r[|p|] == 1
    ensures forall i :: 1 <= i < |p| ==> r[i] == p[i - 1] + p[i]
  {
    seq(|p| + 1, i requires 0 <= i <= |p| => if i == 0 || i == |p| then 1 else p[i - 1] + p[i])
  }

  /** Pascal's rule: the row after row n is row n + 1. */
  lemma NextRow(n: nat)
    ensures NextLine(Row(n)) == Row(n + 1)
  {
    var r := NextLine(Row(n));
    forall k | 0 <= k <= n + 1
      ensures r[k] == Binomial(n + 1, k)
    {
      if 0 < k <= n {
        assert r[k] == Binomial(n, k - 1) + Binomial(n, k);
      }
    }
  }

  /** nexLineTartaglia: a fresh array one longer than previous, which is left as it was. */
  method NexLineTartaglia(previous: array<int>) returns (next: array<int>)
    ensures fresh(next)
    ensures next[..] == NextLine(previous[..])
  {
    next := new int[previous.Length + 1];
    next[0] := 1;
    next[previous.Length] := 1;
    var i := 1;
    while i < previous.Length
      invariant 1 <= i <= previous.Length || (previous.Length == 0 && i == 1)
      invariant next[0] == 1 && next[previous.Length] == 1
      invariant forall k :: 1 <= k < i ==> next[k] == previous[k - 1] + previous[k]
      invariant forall k :: 0 <= k < i ==> next[k] == NextLine(previous[..])[k]
    {
      next[i] := previous[i - 1] + previous[i];
      i := i + 1;
    }
  }

  /** getTartagliaLine: [1] for line <= 1, otherwise row line - 1, of length line. */
  method GetTartagliaLine(line: int) returns (result: array<int>)
    ensures result.Length == if line <= 1 then 1 else line
    ensures forall k :: 0 <= k < result.Length ==> result[k] == Binomial(result.Length - 1, k)
  {
    result := new int[] [1];
    assert result[..] == Row(0);
    var i := 1;
    while i < line
      invariant 1 <= i && (line >= 1 ==> i <= line) && (line <= 1 ==> i == 1)
      invariant result.Length == i && result[..] == Row(i - 1)
    {
      NextRow(i - 1);
      result := NexLineTartaglia(result);
      i := i + 1;
    }
    assert forall k :: 0 <= k < result.Length ==> result[k] == Row(i - 1)[k];
  }
}
