/** The string helpers and one step of the Lychrel sequence of e02/02 (Lychrel.java). */
module Lychrel {
  import opened Decimal
  import opened Exceptions

  const LongMin: int := -0x8000_0000_0000_0000
  const LongMax: int := 0x7FFF_FFFF_FFFF_FFFF

  /** Java's long. */
  type Long = n: int | LongMin <= n <= LongMax

  /** The sum of two longs with Java's two's-complement wrap-around. */
  function AddLong(a: Long, b: Long): (r: Long)
    ensures LongMin <= a + b <= LongMax ==> r == a + b
    ensures r == a + b || r == a + b - 0x1_0000_0000_0000_0000 || r == a + b + 0x1_0000_0000_0000_0000
  {
    var s := a + b;
    if s > LongMax then s - 0x1_0000_0000_0000_0000
    else if s < LongMin then s + 0x1_0000_0000_0000_0000
    else s
  }

  /** fromLongToString: the decimal representation of n, with a leading '-' when negative. */
  function FromLongToString(n: int): (s: string)
    ensures |s| > 0 && (s[0] == '-' <==> n < 0)
    ensures n < 0 ==> |s| >= 2 && forall i :: 1 <= i < |s| ==> IsDigit(s[i])
    ensures n >= 0 ==> forall i :: 0 <= i < |s| ==> IsDigit(s[i])
  {
    if n < 0 then "-" + NatString(-n) else NatString(n)
  }

  /** reverse: the last character, then the reversed middle, then the first character. */
  function Reverse(s: string): (r: string)
    ensures |r| == |s|
    ensures forall i :: 0 <= i < |s| ==> r[i] == s[|s| - 1 - i]
  {
    if |s| <= 1 then s else [s[|s| - 1]] + Reverse(s[1..|s| - 1]) + [s[0]]
  }

  lemma ReverseInvolution(s: string)
    ensures Reverse(Reverse(s)) == s
  {
  }

  /** isPalindrome: the end characters agree and the middle is a palindrome. */
  function IsPalindrome(s: string): (p: bool)
    ensures p <==> forall i :: 0 <= i < |s| ==> s[i] == s[|s| - 1 - i]
  {
    if |s| <= 1 then true
    else
      var m := s[1..|s| - 1];
      assert forall i :: 0 <= i < |m| ==> m[i] == s[i + 1];
      s[0] == s[|s| - 1] && IsPalindrome(m)
  }

  lemma PalindromeIsReverseFixpoint(s: string)
    ensures IsPalindrome(s) <==> s == Reverse(s)
    ensures |s| <= 1 ==> IsPalindrome(s)
  {
    if IsPalindrome(s) {
      assert forall i :: 0 <= i < |s| ==> Reverse(s)[i] == s[i];
    }
  }

  predicate AllDigits(s: string)
  {
    forall i :: 0 <= i < |s| ==> IsDigit(s[i])
  }

  /**
   * Long.parseLong on ASCII input: an optional sign and at least one digit, with a value in the
   * range of long; anything else raises NumberFormatException.
   */
  function ParseLong(s: string): (r: Result<Long>)
    ensures r.Err? ==> r.error == NumberFormatException
    ensures r.Ok? ==> |s| > 0 && (s[0] == '-' || s[0] == '+' || IsDigit(s[0]))
    ensures r.Ok? ==> AllDigits(s[1..])
  {
    if s == [] then Err(NumberFormatException)
    else
      var body := if s[0] == '-' || s[0] == '+' then s[1..] else s;
      if body == [] || !AllDigits(body) then Err(NumberFormatException)
      else
        var v := if s[0] == '-' then -DigitsValue(body) else DigitsValue(body);
        if v < LongMin || v > LongMax then Err(NumberFormatException) else Ok(v)
  }

  /** Printing a long and parsing it back gives the long. */
  lemma ParseRoundTrip(n: Long)
    ensures ParseLong(FromLongToString(n)) == Ok(n)
  {
    if n < 0 {
      var m: nat := -(n as int);
      assert FromLongToString(n)[1..] == NatString(m);
      NatStringRoundTrip(m);
    } else {
      NatStringRoundTrip(n);
    }
  }

  /** lychrelStep: n plus the value of its reversed decimal string. */
  function LychrelStep(n: Long): (r: Result<Long>)
    ensures r.Err? ==> r.error == NumberFormatException
  {
    match ParseLong(Reverse(FromLongToString(n)))
    case Err(e) => Err(e)
    case Ok(v) => Ok(AddLong(n, v))
  }

  /** For a negative n the reversed string ends in '-', which parseLong rejects. */
  lemma NegativeStepRaises(n: Long)
    requires n < 0
    ensures LychrelStep(n) == Err(NumberFormatException)
  {
    var s := FromLongToString(n);
    var r := Reverse(s);
    assert r[|r| - 1] == '-' && IsDigit(r[0]);
    assert !AllDigits(r[1..]) by {
      assert r[1..][|r| - 2] == '-';
    }
  }

  /** The digits of ds as characters, in the same order. */
  function Chars(ds: seq<int>): (s: string)
    requires forall i :: 0 <= i < |ds| ==> 0 <= ds[i] <= 9
    ensures |s| == |ds| && forall i :: 0 <= i < |ds| ==> s[i] == DigitChar(ds[i])
  {
    if ds == [] then [] else [DigitChar(ds[0])] + Chars(ds[1..])
  }

  lemma {:induction false} CharsValue(ds: seq<int>)
    requires forall i :: 0 <= i < |ds| ==> 0 <= ds[i] <= 9
    ensures DigitsValue(Chars(ds)) == ValueMsb(ds)
  {
    if ds != [] {
      var init, last := ds[..|ds| - 1], ds[|ds| - 1];
      var s := Chars(ds);
      assert s[..|s| - 1] == Chars(init);
      assert DigitsValue(s) == 10 * DigitsValue(Chars(init)) + last;
      CharsValue(init);
      ValueMsbSnoc(init, last);
      assert init + [last] == ds;
    }
  }

  /**
   * For n >= 0 the step adds to n the number whose digits are n's read backwards; it raises
   * NumberFormatException exactly when that number does not fit in a long.
   */
  lemma StepAddsReversal(n: Long)
    requires n >= 0
    ensures var v := ValueMsb(DigitsLsb(n));
      v >= 0 && LychrelStep(n) == if v <= LongMax then Ok(AddLong(n, v)) else Err(NumberFormatException)
  {
    var v := ValueMsb(DigitsLsb(n));
    assert FromLongToString(n) == NatString(n);
    var r := Reverse(NatString(n));
    if n > 0 {
      ReversedDigits(n);
      ParseDigits(r);
    } else {
      assert r == "0";
      assert DigitsLsb(n) == [];
    }
    assert ParseLong(r) == if v <= LongMax then Ok(v) else Err(NumberFormatException);
  }

  /** The reversed decimal string of n > 0 spells DigitsLsb(n), whose value is non-negative. */
  lemma ReversedDigits(n: nat)
    requires n > 0
    ensures AllDigits(Reverse(NatString(n)))
    ensures DigitsValue(Reverse(NatString(n))) == ValueMsb(DigitsLsb(n)) >= 0
  {
    var ds := DigitsLsb(n);
    NatStringDigits(n);
    assert Reverse(NatString(n)) == Chars(ds);
    CharsValue(ds);
    ValueMsbNonNegative(ds);
  }

  /** A string of digits parses to its value when that fits in a long. */
  lemma ParseDigits(s: string)
    requires |s| > 0 && AllDigits(s) && DigitsValue(s) >= 0
    ensures ParseLong(s) == if DigitsValue(s) <= LongMax then Ok(DigitsValue(s)) else Err(NumberFormatException)
  {
  }

  lemma {:induction false} ValueMsbNonNegative(ds: seq<int>)
    requires forall i :: 0 <= i < |ds| ==> 0 <= ds[i] <= 9
    ensures ValueMsb(ds) >= 0
  {
    if ds != [] {
      ValueMsbNonNegative(ds[1..]);
    }
  }
}
