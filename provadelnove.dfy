/** Casting out nines, t04/05 (ProvaDelNoveCopy.java). */
module ProvaDelNove {
  import opened Decimal

  /** The digital root of n: 0 for n <= 0, otherwise the digit 1..9 congruent to n modulo 9. */
  function DigitalRoot(n: int): int
  {
    if n <= 0 then 0 else if n % 9 == 0 then 9 else n % 9
  }

  /** What the source promises of its result: one digit, 0 only for 0, congruent modulo 9. */
  lemma DigitalRootFacts(n: int)
    requires n >= 0
    ensures 0 <= DigitalRoot(n) <= 9
    ensures DigitalRoot(n) == 0 <==> n == 0
    ensures DigitalRoot(n) % 9 == n % 9
  {
  }

  /** Two positive numbers have the same digital root exactly when they agree modulo 9. */
  lemma SameRoot(x: int, y: int)
    requires x > 0 && y > 0
    ensures DigitalRoot(x) == DigitalRoot(y) <==> x % 9 == y % 9
  {
  }

  /**
   * sommaCifreRicorsiva: the digit sum, repeated while it has more than one digit. A negative
   * number skips the loop and gives 0.
   */
  method SommaCifreRicorsiva(number: int) returns (result: int)
    ensures result == DigitalRoot(number)
    decreases if number < 0 then 0 else number
  {
    result := 0;
    var n := number;
    while n > 0
      invariant number <= 0 ==> n == number && result == 0
      invariant number > 0 ==> n >= 0 && result + DigitSum(n) == DigitSum(number)
    {
      result := result + n % 10;
      n := n / 10;
    }
    if number > 0 {
      DigitSumFacts(number);
      SameRoot(result, number);
    }
    if result > 9 {
      result := SommaCifreRicorsiva(result);
    }
  }

  /** (x * y) mod 9 depends only on x mod 9 and y mod 9. */
  lemma ModMul(x: int, y: int)
    requires x >= 0 && y >= 0
    ensures (x * y) % 9 == ((x % 9) * (y % 9)) % 9
  {
    var q, r := x / 9, x % 9;
    var p, s := y / 9, y % 9;
    assert x == 9 * q + r && y == 9 * p + s;
    assert x * y == r * s + 9 * (9 * q * p + q * s + p * r) by {
      assert x * y == (9 * q + r) * (9 * p + s);
    }
    ModNine(r * s, 9 * q * p + q * s + p * r);
  }

  /**
   * provaDelNove(a, b, r): compares the digital root of the product of the digital roots of a
   * and b with that of r. For positive factors it accepts exactly the r > 0 with
   * r = a * b (mod 9); if a factor is not positive it accepts exactly the r <= 0.
   */
  method ProvaDelNove(moltiplicando: int, moltiplicatore: int, risultato: int) returns (ok: bool)
    ensures moltiplicando > 0 && moltiplicatore > 0 ==>
              (ok <==> risultato > 0 && (moltiplicando * moltiplicatore) % 9 == risultato % 9)
    ensures moltiplicando <= 0 || moltiplicatore <= 0 ==> (ok <==> risultato <= 0)
  {
    var a := SommaCifreRicorsiva(moltiplicando);
    var b := SommaCifreRicorsiva(moltiplicatore);
    var r := SommaCifreRicorsiva(risultato);
    var check := SommaCifreRicorsiva(a * b);
    ok := check == r;
    if moltiplicando > 0 && moltiplicatore > 0 {
      AcceptsCongruent(moltiplicando, moltiplicatore, risultato);
    }
  }

  lemma AcceptsCongruent(x: int, y: int, r: int)
    requires x > 0 && y > 0
    ensures DigitalRoot(DigitalRoot(x) * DigitalRoot(y)) == DigitalRoot(r) <==> r > 0 && (x * y) % 9 == r % 9
  {
    var p := DigitalRoot(x) * DigitalRoot(y);
    assert p > 0;
    ModMul(x, y);
    ModMul(DigitalRoot(x), DigitalRoot(y));
    assert p % 9 == (x * y) % 9;
    if r > 0 {
      SameRoot(p, r);
    }
  }

  /** Every true product passes the check (the driver looks only for false positives). */
  lemma TrueProductAccepted(x: int, y: int)
    requires x >= 0 && y >= 0
    ensures DigitalRoot(DigitalRoot(DigitalRoot(x) * DigitalRoot(y))) == DigitalRoot(DigitalRoot(x * y))
  {
    if x > 0 && y > 0 {
      AcceptsCongruent(x, y, x * y);
    }
  }

  /** A false positive of the kind the driver prints: 2 * 3 is not 15, yet 15 = 6 (mod 9). */
  lemma FalsePositive()
    ensures 2 * 3 != 15
    ensures DigitalRoot(DigitalRoot(DigitalRoot(2) * DigitalRoot(3))) == DigitalRoot(DigitalRoot(15))
  {
  }
}
