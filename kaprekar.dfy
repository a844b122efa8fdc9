/** The digit helpers and one step of the Kaprekar routine of e01/06 (Kaprekar.java). */
module Kaprekar {
  import opened Decimal
  import ExchangeSort

  function Abs(n: int): nat
  {
    if n < 0 then -n else n
  }

  /** contaCifre: the number of decimal digits of |number|; 0 has none. */
  method ContaCifre(number: int) returns (count: nat)
    ensures count == NumDigits(Abs(number))
    ensures number != 0 ==> Pow10(count - 1) <= Abs(number) < Pow10(count)
    ensures count == 0 <==> number == 0
  {
    var n := number;
    if n < 0 {
      n := n * -1;
    }
    count := 0;
    while n > 0
      invariant n >= 0 && count + NumDigits(n) == NumDigits(Abs(number))
    {
      count := count + 1;
      n := n / 10;
    }
    NumDigitsBounds(Abs(number));
  }

  /**
   * The contents intToArray(number) produces: the digits least significant first, or, for a
   * negative number, as many zeros as it has digits (the filling loop never runs).
   */
  function ArrayOf(number: int): (ds: seq<int>)
    ensures |ds| == NumDigits(Abs(number))
    ensures forall i :: 0 <= i < |ds| ==> 0 <= ds[i] <= 9
  {
    if number >= 0 then DigitsLsb(number) else seq(NumDigits(-number), _ => 0)
  }

  /** What intToArray stores: digit i of a non-negative number is (number / 10^i) mod 10. */
  lemma ArrayOfDigits(number: int, i: int)
    requires 0 <= i < NumDigits(Abs(number))
    ensures number >= 0 ==> ArrayOf(number)[i] == number / Pow10(i) % 10
    ensures number < 0 ==> ArrayOf(number)[i] == 0
  {
    if number >= 0 {
      DigitAt(number, i);
    }
  }

  /** The digits read back, least significant first, give the number again. */
  lemma ArrayOfRoundTrip(number: nat)
    ensures ValueLsb(ArrayOf(number)) == number
  {
    DigitsRoundTrip(number);
  }

  method IntToArray(number: int) returns (cifre: array<int>)
    ensures fresh(cifre)
    ensures cifre[..] == ArrayOf(number)
  {
    var len := ContaCifre(number);
    cifre := new int[len](_ => 0);
    if number <= 0 {
      assert cifre[..] == ArrayOf(number);
      return;
    }
    FillDigits(cifre, number);
  }

  /** The filling loop of intToArray: digit i of number into slot i, least significant first. */
  method FillDigits(cifre: array<int>, number: int)
    requires number > 0 && cifre.Length == NumDigits(number)
    modifies cifre
    ensures cifre[..] == DigitsLsb(number)
  {
    ghost var ds := DigitsLsb(number);
    var index := 0;
    var n := number;
    while n > 0
      invariant n >= 0 && index + NumDigits(n) == |ds| == cifre.Length
      invariant forall i :: 0 <= i < index ==> cifre[i] == ds[i]
      invariant ds[index..] == DigitsLsb(n)
    {
      DigitsStep(n);
      assert ds[index] == n % 10 && ds[index + 1..] == DigitsLsb(n / 10) by {
        assert ds[index..][0] == ds[index];
        assert ds[index..][1..] == ds[index + 1..];
      }
      cifre[index] := n % 10;
      n := n / 10;
      index := index + 1;
    }
  }

  lemma DigitsStep(n: nat)
    requires n > 0
    ensures DigitsLsb(n) == [n % 10] + DigitsLsb(n / 10) && NumDigits(n) == 1 + NumDigits(n / 10)
  {
  }

  function Reverse(ds: seq<int>): (r: seq<int>)
    ensures |r| == |ds|
  {
    if ds == [] then [] else Reverse(ds[1..]) + [ds[0]]
  }

  /** Read most significant first, the reversed least-significant-first digits give the number. */
  lemma {:induction false} ValueMsbOfDigits(n: nat)
    ensures ValueMsb(Reverse(DigitsLsb(n))) == n
  {
    if n > 0 {
      var ds := DigitsLsb(n);
      assert ds[1..] == DigitsLsb(n / 10);
      ValueMsbOfDigits(n / 10);
      ValueMsbSnoc(Reverse(ds[1..]), ds[0]);
    }
  }

  /** intArrayToInt: the array read as decimal digits, most significant first; 0 when empty. */
  method IntArrayToInt(arr: array<int>) returns (result: int)
    ensures result == ValueMsb(arr[..])
  {
    result := 0;
    var shift := 1;
    var i := arr.Length - 1;
    while i >= 0
      invariant -1 <= i < arr.Length
      invariant shift == Pow10(arr.Length - 1 - i)
      invariant result == ValueMsb(arr[i + 1..])
    {
      assert arr[i..][1..] == arr[i + 1..];
      result := result + arr[i] * shift;
      shift := shift * 10;
      i := i - 1;
    }
    assert arr[0..] == arr[..];
  }

  ghost predicate Digits(ds: seq<int>)
  {
    forall i :: 0 <= i < |ds| ==> 0 <= ds[i] <= 9
  }

  lemma {:induction false} ValueMsbBound(ds: seq<int>)
    requires Digits(ds)
    ensures 0 <= ValueMsb(ds) < Pow10(|ds|)
  {
    if ds != [] {
      ValueMsbBound(ds[1..]);
      var p := Pow10(|ds| - 1);
      assert Pow10(|ds|) == 10 * p;
      LeadingPlace(ds[0], p, ValueMsb(ds[1..]));
    }
  }

  /** A digit in place p followed by a tail below p stays below 10 * p. */
  lemma LeadingPlace(x: int, p: int, u: int)
    requires 0 <= x <= 9 && p >= 1 && 0 <= u < p
    ensures 0 <= x * p + u < 10 * p
  {
    assert x * p <= 9 * p;
  }

  lemma DigitsPermuted(s: seq<int>, t: seq<int>)
    requires multiset(s) == multiset(t) && Digits(s)
    ensures Digits(t)
  {
    forall i | 0 <= i < |t|
      ensures 0 <= t[i] <= 9
    {
      assert t[i] in multiset(s);
    }
  }

  /** Among all arrangements of the same digits, the descending one has the largest value. */
  lemma {:induction false} DescendingIsLargest(d: seq<int>, a: seq<int>)
    requires multiset(d) == multiset(a) && Digits(a) && ExchangeSort.Sorted(d, true)
    ensures ValueMsb(d) >= ValueMsb(a)
  {
    assert |a| == |multiset(a)| == |multiset(d)| == |d|;
    if |a| > 0 {
      assert a[0] in multiset(a);
      ExchangeSort.SortedHead(d, a[0], true);
      DigitsPermuted(a, d);
      var p := Pow10(|a| - 1);
      ValueMsbBound(a[1..]);
      ValueMsbBound(d[1..]);
      if d[0] == a[0] {
        ExchangeSort.TailMultiset(d);
        ExchangeSort.TailMultiset(a);
        ExchangeSort.SortedTail(d, true);
        DescendingIsLargest(d[1..], a[1..]);
      } else {
        LeadingDigit(d[0], a[0], p, ValueMsb(d[1..]), ValueMsb(a[1..]));
      }
    }
  }

  /** A larger leading digit outweighs any tail below the place value p. */
  lemma LeadingDigit(x: int, y: int, p: int, u: int, v: int)
    requires x > y && p >= 1 && 0 <= u && v < p
    ensures x * p + u >= y * p + v
  {
    var k := x - y - 1;
    assert k * p >= 0;
    assert x * p == y * p + k * p + p;
  }

  /**
   * One Kaprekar step: the digits are sorted in place descending and read back, then sorted
   * ascending and read back, and the second value is subtracted from the first.
   */
  method KaprekarStep(number: int) returns (differenza: int)
    ensures differenza >= 0
    ensures forall d, a :: ExchangeSort.SortingOf(d, ArrayOf(number), true) && ExchangeSort.SortingOf(a, ArrayOf(number), false)
              ==> differenza == ValueMsb(d) - ValueMsb(a)
  {
    var arr := IntToArray(number);
    ExchangeSort.Sort(arr, true);
    ghost var d := arr[..];
    var big := IntArrayToInt(arr);
    ExchangeSort.Sort(arr, false);
    ghost var a := arr[..];
    var small := IntArrayToInt(arr);
    differenza := big - small;
    DigitsPermuted(ArrayOf(number), a);
    DescendingIsLargest(d, a);
    forall d', a' | ExchangeSort.SortingOf(d', ArrayOf(number), true) && ExchangeSort.SortingOf(a', ArrayOf(number), false)
      ensures differenza == ValueMsb(d') - ValueMsb(a')
    {
      ExchangeSort.SortingUnique(d, d', true);
      ExchangeSort.SortingUnique(a, a', false);
    }
  }

  /** 6174 is Kaprekar's constant: the step maps it to itself, where passiDiKaprekar stops. */
  lemma KaprekarConstant()
    ensures ExchangeSort.SortingOf([7, 6, 4, 1], ArrayOf(6174), true)
    ensures ExchangeSort.SortingOf([1, 4, 6, 7], ArrayOf(6174), false)
    ensures ValueMsb([7, 6, 4, 1]) - ValueMsb([1, 4, 6, 7]) == 6174
  {
    DigitsOf6174();
    SortedDigits();
    ValuesOf6174();
    SameDigits();
  }

  lemma SameDigits()
    ensures multiset([7, 6, 4, 1]) == multiset([4, 7, 1, 6]) == multiset([1, 4, 6, 7])
  {
    FourMultiset(7, 6, 4, 1);
    FourMultiset(4, 7, 1, 6);
    FourMultiset(1, 4, 6, 7);
  }

  lemma FourMultiset(a: int, b: int, c: int, d: int)
    ensures multiset([a, b, c, d]) == multiset{a} + multiset{b} + multiset{c} + multiset{d}
  {
    assert [a, b, c, d] == [a, b, c] + [d];
    assert [a, b, c] == [a, b] + [c];
    assert [a, b] == [a] + [b];
  }

  lemma ValuesOf6174()
    ensures ValueMsb([7, 6, 4, 1]) == 7641 && ValueMsb([1, 4, 6, 7]) == 1467
  {
    assert Pow10(3) == 1000 by {
      assert Pow10(1) == 10;
      assert Pow10(2) == 100;
    }
    assert ValueMsb([4, 1]) == 41 && ValueMsb([6, 7]) == 67;
  }

  lemma DigitsOf6174()
    ensures ArrayOf(6174) == [4, 7, 1, 6]
  {
    assert DigitsLsb(0) == [];
    assert DigitsLsb(6) == [6];
    assert DigitsLsb(61) == [1, 6];
    assert DigitsLsb(617) == [7, 1, 6];
  }

  lemma SortedDigits()
    ensures ExchangeSort.Sorted([7, 6, 4, 1], true)
    ensures ExchangeSort.Sorted([1, 4, 6, 7], false)
  {
  }
}
