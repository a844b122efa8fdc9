/** The Tico/Taco counting game of t04/02 (TicoTaco.java). */
module TicoTaco {
  import opened Decimal

  /** The line ticoTaco prints for i. */
  function Label(i: int): string
    requires i >= 1
  {
    if i % 3 == 0 && i % 7 == 0 then "Tico Taco"
    else if i % 3 == 0 then "Tico"
    else if i % 7 == 0 then "Taco"
    else NatString(i)
  }

  lemma ModShift(x: int, m: int, k: int)
    requires m > 0
    ensures (x + m * k) % m == x % m
  {
    assert x == m * (x / m) + x % m;
    DivUnique(x + m * k, m, x / m + k, x % m);
  }

  /** i is a multiple of both 3 and 7 exactly when it is a multiple of 21. */
  lemma MultipleOf21(i: int)
    ensures i % 21 == 0 <==> i % 3 == 0 && i % 7 == 0
  {
    var q, r := i / 21, i % 21;
    assert i == r + 21 * q;
    ModShift(r, 3, 7 * q);
    ModShift(r, 7, 3 * q);
    assert 0 <= r < 21;
  }

  /**
   * Multiples of 21 give "Tico Taco", other multiples of 3 "Tico", other multiples of 7 "Taco",
   * and every other number its own decimal digits, which read back as the number.
   */
  lemma LabelMeans(i: int)
    requires i >= 1
    ensures Label(i) == "Tico Taco" <==> i % 21 == 0
    ensures Label(i) == "Tico" <==> i % 3 == 0 && i % 21 != 0
    ensures Label(i) == "Taco" <==> i % 7 == 0 && i % 21 != 0
    ensures i % 3 != 0 && i % 7 != 0 ==> Label(i) == NatString(i) && DigitsValue(Label(i)) == i
  {
    MultipleOf21(i);
    NatStringRoundTrip(i);
    var s := NatString(i);
    assert IsDigit(s[0]);
  }

  /** ticoTaco: one line for each i from 1 to max, in order, and none when max < 1. */
  method TicoTaco(max: int) returns (lines: seq<string>)
    ensures |lines| == if max < 1 then 0 else max
    ensures forall k :: 0 <= k < |lines| ==> lines[k] == Label(k + 1)
  {
    lines := [];
    var i := 1;
    while i <= max
      invariant 1 <= i && (max >= 1 ==> i <= max + 1) && (max < 1 ==> i == 1)
      invariant |lines| == i - 1 && forall k :: 0 <= k < |lines| ==> lines[k] == Label(k + 1)
    {
      var line: string;
      if i % 3 == 0 && i % 7 == 0 {
        line := "Tico Taco";
      } else if i % 3 == 0 {
        line := "Tico";
      } else if i % 7 == 0 {
        line := "Taco";
      } else {
        line := NatString(i);
      }
      lines := lines + [line];
      i := i + 1;
    }
  }
}
