/** Decimal digits of natural numbers, shared by the digit exercises (e01/06, e02/02, t04/05). */
module Decimal {
  function Pow10(k: nat): (p: nat)
    ensures p >= 1
  {
    if k == 0 then 1 else 10 * Pow10(k - 1)
  }

  /** The number of decimal digits of n; 0 has none. */
  function NumDigits(n: nat): nat
  {
    if n == 0 then 0 else 1 + NumDigits(n / 10)
  }

  /** The digits of n, least significant first. */
  function DigitsLsb(n: nat): (ds: seq<int>)
    ensures |ds| == NumDigits(n)
    ensures forall i :: 0 <= i < |ds| ==> 0 <= ds[i] <= 9
  {
    if n == 0 then [] else [n % 10] + DigitsLsb(n / 10)
  }

  /** The number whose digits, least significant first, are ds. */
  function ValueLsb(ds: seq<int>): int
  {
    if ds == [] then 0 else ds[0] + 10 * ValueLsb(ds[1..])
  }

  /** The number whose digits, most significant first, are ds: the sum of ds[i] * 10^(len-1-i). */
  function ValueMsb(ds: seq<int>): int
  {
    if ds == [] then 0 else ds[0] * Pow10(|ds| - 1) + ValueMsb(ds[1..])
  }

  lemma {:induction false} ValueMsbSnoc(ds: seq<int>, x: int)
    ensures ValueMsb(ds + [x]) == 10 * ValueMsb(ds) + x
  {
    if ds != [] {
      assert (ds + [x])[1..] == ds[1..] + [x];
      ValueMsbSnoc(ds[1..], x);
      assert Pow10(|ds|) == 10 * Pow10(|ds| - 1);
    } else {
      assert Pow10(0) == 1;
    }
  }

  /** NumDigits(n) is the number of decimal places n needs: 10^(k-1) <= n < 10^k. */
  lemma {:induction false} NumDigitsBounds(n: nat)
    ensures n < Pow10(NumDigits(n))
    ensures n > 0 ==> Pow10(NumDigits(n) - 1) <= n
  {
    if n > 0 {
      NumDigitsBounds(n / 10);
    }
  }

  /** Reading the digits back gives the number. */
  lemma {:induction false} DigitsRoundTrip(n: nat)
    ensures ValueLsb(DigitsLsb(n)) == n
  {
    if n > 0 {
      DigitsRoundTrip(n / 10);
      assert DigitsLsb(n)[1..] == DigitsLsb(n / 10);
    }
  }

  lemma DivDiv(n: nat, k: nat)
    ensures n / 10 / Pow10(k) == n / Pow10(k + 1)
  {
    var p := Pow10(k);
    var q := n / 10 / p;
    var r := n % 10 + 10 * (n / 10 % p);
    assert n / 10 == q * p + n / 10 % p;
    assert n == q * (10 * p) + r;
    assert 0 <= r < 10 * p;
    DivUnique(n, 10 * p, q, r);
  }

  lemma DivUnique(n: int, m: int, q: int, r: int)
    requires m > 0 && n == q * m + r && 0 <= r < m
    ensures n / m == q && n % m == r
  {
    var k := q - n / m;
    assert n == (n / m) * m + n % m;
    assert k * m == n % m - r;
    assert -m < k * m < m;
  }

  /** Digit i of n is (n / 10^i) mod 10. */
  lemma {:induction false} DigitAt(n: nat, i: nat)
    requires i < NumDigits(n)
    ensures DigitsLsb(n)[i] == n / Pow10(i) % 10
  {
    if i > 0 {
      var q := n / 10;
      assert DigitsLsb(n)[i] == DigitsLsb(q)[i - 1];
      DigitAt(q, i - 1);
      DivDiv(n, i - 1);
      assert q / Pow10(i - 1) == n / Pow10(i);
    } else {
      assert Pow10(0) == 1;
    }
  }

  /** The digit sum of n. */
  function DigitSum(n: nat): nat
  {
    if n == 0 then 0 else n % 10 + DigitSum(n / 10)
  }

  /** The digit sum is congruent to n modulo 9, and smaller than n from 10 on. */
  lemma {:induction false} DigitSumFacts(n: nat)
    ensures DigitSum(n) % 9 == n % 9
    ensures DigitSum(n) <= n && (n >= 10 ==> DigitSum(n) < n)
    ensures DigitSum(n) == 0 <==> n == 0
  {
    if n > 0 {
      var q, r := n / 10, n % 10;
      var s := DigitSum(q);
      DigitSumFacts(q);
      assert q == 9 * (q / 9) + q % 9 && s == 9 * (s / 9) + s % 9;
      assert n == (r + s) + 9 * (q + q / 9 - s / 9);
      ModNine(r + s, q + q / 9 - s / 9);
    }
  }

  lemma ModNine(x: int, k: int)
    ensures (x + 9 * k) % 9 == x % 9
  {
    assert x == 9 * (x / 9) + x % 9;
    DivUnique(x + 9 * k, 9, x / 9 + k, x % 9);
  }

  predicate IsDigit(c: char)
  {
    '0' <= c <= '9'
  }

  /** The character of a decimal digit. */
  function DigitChar(d: int): (c: char)
    requires 0 <= d <= 9
    ensures IsDigit(c) && CharValue(c) == d
  {
    ('0' as int + d) as char
  }

  /** The value of a digit character. */
  function CharValue(c: char): int
  {
    c as int - '0' as int
  }

  /** The decimal representation of n, most significant digit first, without leading zeros. */
  function NatString(n: nat): (s: string)
    ensures |s| > 0 && forall i :: 0 <= i < |s| ==> IsDigit(s[i])
  {
    if n < 10 then [DigitChar(n)] else NatString(n / 10) + [DigitChar(n % 10)]
  }

  /** The value of a string of digits, most significant first. */
  function DigitsValue(s: string): int
  {
    if s == [] then 0 else 10 * DigitsValue(s[..|s| - 1]) + CharValue(s[|s| - 1])
  }

  lemma {:induction false} NatStringRoundTrip(n: nat)
    ensures DigitsValue(NatString(n)) == n
  {
    var s := NatString(n);
    if n >= 10 {
      assert s[..|s| - 1] == NatString(n / 10);
      NatStringRoundTrip(n / 10);
    }
  }

  /** For n > 0, the characters of NatString(n) are DigitsLsb(n) read from the end. */
  lemma {:induction false} NatStringDigits(n: nat)
    requires n > 0
    ensures |NatString(n)| == NumDigits(n)
    ensures forall k :: 0 <= k < NumDigits(n) ==> NatString(n)[k] == DigitChar(DigitsLsb(n)[NumDigits(n) - 1 - k])
  {
    var len := NumDigits(n);
    assert DigitsLsb(n) == [n % 10] + DigitsLsb(n / 10);
    if n >= 10 {
      NatStringDigits(n / 10);
    } else {
      assert NumDigits(n / 10) == 0;
    }
  }
}
