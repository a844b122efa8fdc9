/**
 * The rationals of e05/01 (Razionale.java): a numerator and a denominator, the sign moved to
 * the numerator and both divided by their greatest common divisor, computed by Euclid's
 * algorithm on Java's truncating remainder.
 */
module Rational {
  import opened Exceptions
  import opened JavaInt

  function Abs(x: int): nat
  {
    if x < 0 then -x else x
  }

  // ---------------------------------------------------------------- Java integer division

  /** Java's %: the remainder takes the sign of the dividend. */
  function JavaRem(a: int, b: int): (r: int)
    requires b != 0
    ensures Abs(r) == Abs(a) % Abs(b) && Abs(r) < Abs(b)
    ensures a >= 0 ==> r >= 0
    ensures a <= 0 ==> r <= 0
  {
    if a >= 0 then a % Abs(b) else -((-a) % Abs(b))
  }

  function NatDiv(x: nat, y: nat): nat
    requires y > 0
  {
    x / y
  }

  /** Java's /: the quotient is truncated toward zero. */
  function JavaDiv(a: int, b: int): (q: int)
    requires b != 0
    ensures Abs(q) == NatDiv(Abs(a), Abs(b))
  {
    var m: int := NatDiv(Abs(a), Abs(b));
    if (a >= 0) == (b > 0) then m else -m
  }

  /** Division and remainder are unique: a quotient and remainder in range are the / and %. */
  lemma DivModUnique(n: int, m: int, q: int, r: int)
    requires m > 0 && n == q * m + r && 0 <= r < m
    ensures n / m == q && n % m == r
  {
    var k := q - n / m;
    assert n == (n / m) * m + n % m;
    assert k * m == n % m - r;
    assert -m < k * m < m;
  }

  /** A divisor of a divides it exactly: truncating division loses nothing. */
  lemma JavaDivExact(a: int, b: int)
    requires b != 0 && Abs(a) % Abs(b) == 0
    ensures JavaDiv(a, b) * b == a
  {
    var m := Abs(a) / Abs(b);
    assert m * Abs(b) == Abs(a);
  }

  // ---------------------------------------------------------------- greatest common divisor

  /** Euclid's greatest common divisor on natural numbers. */
  function Gcd(a: nat, b: nat): nat
    decreases b
  {
    if b == 0 then a else Gcd(b, a % b)
  }

  /** Gcd(a, b) divides both a and b, and is positive unless both are zero. */
  lemma {:induction false} GcdDivides(a: nat, b: nat)
    ensures Gcd(a, b) == 0 <==> a == 0 && b == 0
    ensures Gcd(a, b) > 0 ==> a % Gcd(a, b) == 0 && b % Gcd(a, b) == 0
    decreases b
  {
    if b > 0 {
      GcdDivides(b, a % b);
      DividesThroughRemainder(a, b, Gcd(b, a % b));
    }
  }

  /** A divisor of b and of a % b divides a. */
  lemma DividesThroughRemainder(a: nat, b: nat, g: nat)
    requires b > 0 && g > 0 && b % g == 0 && (a % b) % g == 0
    ensures a % g == 0
  {
    var q, r := a / b, a % b;
    var i, j := b / g, r / g;
    assert b == i * g && r == j * g;
    assert a == q * b + r;
    SumOfMultiples(q, b, r, i, j, g);
    DivModUnique(a, g, q * i + j, 0);
  }

  /** q * b + r is a multiple of g when b and r are. */
  lemma SumOfMultiples(q: int, b: int, r: int, i: int, j: int, g: int)
    requires b == i * g && r == j * g
    ensures q * b + r == (q * i + j) * g
  {
    assert q * b == (q * i) * g;
  }

  /** Every common divisor of a and b divides Gcd(a, b). */
  lemma {:induction false} GcdGreatest(a: nat, b: nat, c: nat)
    requires c > 0 && a % c == 0 && b % c == 0
    ensures Gcd(a, b) % c == 0
    decreases b
  {
    if b > 0 {
      var r := a % b;
      var i, j := a / c, b / c;
      assert a == i * c && b == j * c;
      assert r == a - (a / b) * b;
      assert r == (i - (a / b) * j) * c;
      DivModUnique(r, c, i - (a / b) * j, 0);
      GcdGreatest(b, r, c);
    }
  }

  lemma GcdSymmetric(a: nat, b: nat)
    ensures Gcd(a, b) == Gcd(b, a)
  {
    if a < b {
      DivModUnique(a, b, 0, a);
      assert Gcd(a, b) == Gcd(b, a);
    } else if b < a {
      DivModUnique(b, a, 0, b);
      assert Gcd(b, a) == Gcd(a, b);
    }
  }

  /** Multiplying both arguments by k multiplies the gcd by k. */
  lemma {:induction false} GcdScale(a: nat, b: nat, k: nat)
    requires k > 0
    ensures Gcd(a * k, b * k) == Gcd(a, b) * k
    decreases b
  {
    if b > 0 {
      var r := a % b;
      assert a * k == (a / b) * (b * k) + r * k;
      assert r * k < b * k;
      DivModUnique(a * k, b * k, a / b, r * k);
      GcdScale(b, r, k);
    }
  }

  lemma MulCancel(x: int, y: int, g: int)
    requires g > 0 && x * g == y * g
    ensures x == y
  {
    assert (x - y) * g == 0;
  }

  /** Dividing both arguments by their gcd leaves them coprime. */
  lemma DividedByGcd(a: nat, b: nat)
    requires a > 0 || b > 0
    ensures var g := Gcd(a, b); g > 0 && Gcd(NatDiv(a, g), NatDiv(b, g)) == 1
  {
    var g := Gcd(a, b);
    GcdDivides(a, b);
    var i, j := NatDiv(a, g), NatDiv(b, g);
    assert a == i * g by { assert a == (a / g) * g + a % g; }
    assert b == j * g by { assert b == (b / g) * g + b % g; }
    GcdScale(i, j, g);
    MulCancel(Gcd(i, j), 1, g);
  }

  // ---------------------------------------------------------------- mcd

  /** mcd's while loop from a given (x, y): r = y % x; y = x; x = r, until x is 0. */
  function EuclidLoop(x: int, y: int): int
    decreases Abs(x)
  {
    if x == 0 then y else EuclidLoop(JavaRem(y, x), x)
  }

  /** mcd: order so that x >= y, then run the loop; it is zero only for mcd(0, 0). */
  function McdOf(x: int, y: int): (g: int)
    ensures g == 0 <==> x == 0 && y == 0
  {
    EuclidIsGcd(x, y);
    EuclidIsGcd(y, x);
    GcdDivides(Abs(x), Abs(y));
    GcdDivides(Abs(y), Abs(x));
    if y > x then EuclidLoop(y, x) else EuclidLoop(x, y)
  }

  /** In absolute value the loop computes the gcd, whatever the signs. */
  lemma {:induction false} EuclidIsGcd(x: int, y: int)
    ensures Abs(EuclidLoop(x, y)) == Gcd(Abs(y), Abs(x))
    decreases Abs(x)
  {
    if x != 0 {
      EuclidIsGcd(JavaRem(y, x), x);
    }
  }

  /** On non-negative arguments the loop never produces a negative value. */
  lemma {:induction false} EuclidNonNegative(x: int, y: int)
    requires x >= 0 && y >= 0
    ensures EuclidLoop(x, y) >= 0
    decreases x
  {
    if x != 0 {
      EuclidNonNegative(JavaRem(y, x), x);
    }
  }

  lemma McdIsGcd(x: int, y: int)
    ensures Abs(McdOf(x, y)) == Gcd(Abs(x), Abs(y))
    ensures x >= 0 && y >= 0 ==> McdOf(x, y) >= 0
  {
    EuclidIsGcd(x, y);
    EuclidIsGcd(y, x);
    GcdSymmetric(Abs(x), Abs(y));
    if x >= 0 && y >= 0 {
      EuclidNonNegative(x, y);
      EuclidNonNegative(y, x);
    }
  }

  /** mcd(x, y): Euclid's algorithm; its absolute value is the gcd of |x| and |y|. */
  method Mcd(x: int, y: int) returns (g: int)
    ensures g == McdOf(x, y)
    ensures Abs(g) == Gcd(Abs(x), Abs(y))
    ensures x >= 0 && y >= 0 ==> g >= 0
  {
    var a, b := x, y;
    if b > a {
      var temp := a;
      a := b;
      b := temp;
    }
    while a != 0
      invariant EuclidLoop(a, b) == McdOf(x, y)
      decreases Abs(a)
    {
      var r := JavaRem(b, a);
      b := a;
      a := r;
    }
    g := b;
    McdIsGcd(x, y);
  }

  // ---------------------------------------------------------------- reduce

  lemma RealCancel(p: int, q: int, m: int)
    requires q != 0 && m != 0
    ensures (p * m) as real / (q * m) as real == p as real / q as real
  {
    assert (p * m) as real == p as real * m as real;
    assert (q * m) as real == q as real * m as real;
  }

  /**
   * Dividing n and d by m, a gcd of theirs up to sign, keeps the fraction's value and leaves
   * coprime numbers; the denominator stays positive when d and m have the same sign.
   */
  lemma ReduceFacts(n: int, d: int, m: int)
    requires d != 0 && Abs(m) == Gcd(Abs(n), Abs(d))
    ensures m != 0 && JavaDiv(d, m) != 0
    ensures JavaDiv(n, m) as real / JavaDiv(d, m) as real == n as real / d as real
    ensures Gcd(Abs(JavaDiv(n, m)), Abs(JavaDiv(d, m))) == 1
    ensures (d > 0) == (m > 0) ==> JavaDiv(d, m) > 0
  {
    GcdDivides(Abs(n), Abs(d));
    DividedByGcd(Abs(n), Abs(d));
    JavaDivExact(n, m);
    JavaDivExact(d, m);
    RealCancel(JavaDiv(n, m), JavaDiv(d, m), m);
  }

  /** The constructor's sign rule: the numerator carries the sign, unless n * d is positive. */
  function SignedNum(n: int, d: int): int
  {
    var a: int := Abs(n);
    if n * d > 0 then a else -a
  }

  lemma SignedNumValue(n: int, d: int)
    requires d != 0
    ensures SignedNum(n, d) as real / Abs(d) as real == n as real / d as real
    ensures n * d >= 0 ==> SignedNum(n, d) >= 0
  {
    if d < 0 {
      if n < 0 {
        assert n * d > 0;
      } else if n > 0 {
        assert n * d < 0;
      }
      RealCancel(n, d, -1);
    } else if n < 0 {
      assert n * d < 0;
    } else if n > 0 {
      assert n * d > 0;
    }
  }

  // ---------------------------------------------------------------- Razionale

  class Razionale {
    var num: int
    var den: int

    /** repOk: the denominator is not zero. */
    predicate RepOk()
      reads this
    {
      den != 0
    }

    /** The abstraction function: the rational number num / den. */
    ghost function Value(): real
      reads this
      requires RepOk()
    {
      num as real / den as real
    }

    /** hashCode: 31 * hash(num) + hash(den), in int arithmetic. */
    function HashCode(): (h: int)
      reads this
      ensures IntMin <= h <= IntMax
    {
      Wrap32(31 * num + den)
    }

    /**
     * Razionale(n, d) for d != 0: the value n / d in lowest terms; the denominator is
     * positive when n * d >= 0, but for a negative fraction reduce may move the sign to it.
     */
    constructor Init(n: int, d: int)
      requires d != 0
      ensures RepOk() && Value() == n as real / d as real
      ensures Gcd(Abs(num), Abs(den)) == 1
      ensures n * d >= 0 ==> den > 0
      ensures var m := McdOf(SignedNum(n, d), Abs(d));
              num == JavaDiv(SignedNum(n, d), m) && den == JavaDiv(Abs(d), m)
    {
      num := SignedNum(n, d);
      den := Abs(d);
      new;
      SignedNumValue(n, d);
      Reduce();
    }

    /** reduce: divide num and den by mcd(num, den), keeping the value. */
    method Reduce()
      requires RepOk()
      modifies this
      ensures RepOk() && Value() == old(Value())
      ensures Gcd(Abs(num), Abs(den)) == 1
      ensures var m := McdOf(old(num), old(den)); num == JavaDiv(old(num), m) && den == JavaDiv(old(den), m)
      ensures old(num) >= 0 && old(den) > 0 ==> den > 0
    {
      var n := num;
      var d := den;
      var mcd := Mcd(n, d);
      ReduceFacts(n, d, mcd);
      num := JavaDiv(n, mcd);
      den := JavaDiv(d, mcd);
    }

    /** The reduction the documentation (Razionale.java:26-31) describes, by mcd(|num|, den): the denominator stays positive. */
    method ReduceAbs()
      requires den > 0
      modifies this
      ensures den > 0 && Value() == old(Value())
      ensures Gcd(Abs(num), Abs(den)) == 1
      ensures var m := McdOf(Abs(old(num)), old(den)); num == JavaDiv(old(num), m) && den == JavaDiv(old(den), m)
    {
      var n := num;
      var d := den;
      var mcd := Mcd(Abs(n), d);
      ReduceFacts(n, d, mcd);
      num := JavaDiv(n, mcd);
      den := JavaDiv(d, mcd);
    }

    /** add: the sum of the two values. */
    method Add(s: Razionale) returns (r: Razionale)
      requires RepOk() && s.RepOk()
      ensures fresh(r) && r.RepOk() && r.Value() == Value() + s.Value()
      ensures Gcd(Abs(r.num), Abs(r.den)) == 1
    {
      AddFractions(num, den, s.num, s.den);
      r := new Razionale.Init(s.den * num + s.num * den, den * s.den);
    }

    /**
     * sub: reduces s in place, then returns add(s); the result is the sum of the two values,
     * not their difference.
     */
    method Sub(s: Razionale) returns (r: Razionale)
      requires RepOk() && s.RepOk()
      modifies s
      ensures RepOk() && s.RepOk() && Value() == old(Value()) && s.Value() == old(s.Value())
      ensures fresh(r) && r.RepOk() && r.Value() == old(Value()) + old(s.Value())
      ensures old(s.Value()) != 0.0 ==> r.Value() != old(Value()) - old(s.Value())
      ensures Gcd(Abs(s.num), Abs(s.den)) == 1
      ensures var m := McdOf(old(s.num), old(s.den)); s.num == JavaDiv(old(s.num), m) && s.den == JavaDiv(old(s.den), m)
    {
      s.Reduce();
      r := Add(s);
    }

    /** The subtraction the documentation (Razionale.java:64-69) describes: this + (-s), leaving s as it is. */
    method SubNegating(s: Razionale) returns (r: Razionale)
      requires RepOk() && s.RepOk()
      ensures fresh(r) && r.RepOk() && r.Value() == Value() - s.Value()
    {
      var opposite := new Razionale.Init(-s.num, s.den);
      NegatedValue(s.num, s.den);
      r := Add(opposite);
    }

    /** mul: the product of the two values. */
    method Mul(s: Razionale) returns (r: Razionale)
      requires RepOk() && s.RepOk()
      ensures fresh(r) && r.RepOk() && r.Value() == Value() * s.Value()
      ensures Gcd(Abs(r.num), Abs(r.den)) == 1
    {
      MulFractions(num, den, s.num, s.den);
      r := new Razionale.Init(num * s.num, den * s.den);
    }

    /** reciproco: raises ZeroDivisorException on zero; otherwise den / num. */
    method Reciproco() returns (r: Result<Razionale>)
      requires RepOk()
      ensures r.Err? <==> Value() == 0.0
      ensures r.Err? ==> r.error == ZeroDivisorException
      ensures r.Ok? ==> fresh(r.value) && r.value.RepOk() && r.value.Value() == 1.0 / Value()
    {
      ZeroValue(num, den);
      if num == 0 {
        return Err(ZeroDivisorException);
      }
      var inv := new Razionale.Init(den, num);
      InverseValue(num, den, inv.Value(), Value());
      r := Ok(inv);
    }

    /** div: raises ZeroDivisorException when s is zero; otherwise mul(s.reciproco()). */
    method Div(s: Razionale) returns (r: Result<Razionale>)
      requires RepOk() && s.RepOk()
      ensures r.Err? <==> s.Value() == 0.0
      ensures r.Err? ==> r.error == ZeroDivisorException
      ensures r.Ok? ==> fresh(r.value) && r.value.RepOk() && r.value.Value() == Value() / s.Value()
    {
      ZeroValue(s.num, s.den);
      if s.num == 0 {
        return Err(ZeroDivisorException);
      }
      var inv := s.Reciproco();
      var q := Mul(inv.value);
      QuotientValue(Value(), s.Value(), inv.value.Value());
      r := Ok(q);
    }

    /** equals: the stored numerators and denominators match; equal objects hash alike. */
    method Equals(s: Razionale) returns (b: bool)
      requires RepOk() && s.RepOk()
      ensures b <==> num == s.num && den == s.den
      ensures b ==> Value() == s.Value() && HashCode() == s.HashCode()
    {
      b := num == s.num && den == s.den;
    }
  }

  /** The public constructor: ZeroDivisorException when d is 0. */
  method Create(n: int, d: int) returns (r: Result<Razionale>)
    ensures r.Err? <==> d == 0
    ensures r.Err? ==> r.error == ZeroDivisorException
    ensures r.Ok? ==> fresh(r.value) && r.value.RepOk() && r.value.Value() == n as real / d as real
    ensures r.Ok? ==> Gcd(Abs(r.value.num), Abs(r.value.den)) == 1 && (n * d >= 0 ==> r.value.den > 0)
  {
    if d == 0 {
      return Err(ZeroDivisorException);
    }
    var q := new Razionale.Init(n, d);
    r := Ok(q);
  }

  lemma AddFractions(a: int, b: int, c: int, d: int)
    requires b != 0 && d != 0
    ensures b * d != 0
    ensures (d * a + c * b) as real / (b * d) as real == a as real / b as real + c as real / d as real
  {
    assert (d * a + c * b) as real == d as real * a as real + c as real * b as real;
    assert (b * d) as real == b as real * d as real;
  }

  lemma MulFractions(a: int, b: int, c: int, d: int)
    requires b != 0 && d != 0
    ensures b * d != 0
    ensures (a * c) as real / (b * d) as real == (a as real / b as real) * (c as real / d as real)
  {
    assert (a * c) as real == a as real * c as real;
    assert (b * d) as real == b as real * d as real;
  }

  lemma NegatedValue(a: int, b: int)
    requires b != 0
    ensures (-a) as real / b as real == -(a as real / b as real)
  {
  }

  lemma ZeroValue(a: int, b: int)
    requires b != 0
    ensures a as real / b as real == 0.0 <==> a == 0
  {
  }

  lemma InverseValue(a: int, b: int, x: real, y: real)
    requires a != 0 && b != 0 && x == b as real / a as real && y == a as real / b as real
    ensures y != 0.0 && x == 1.0 / y
  {
  }

  lemma QuotientValue(x: real, y: real, z: real)
    requires y != 0.0 && z == 1.0 / y
    ensures x * z == x / y
  {
  }

  /**
   * Razionale(-1, 2) stores 1 / -2: mcd(-1, 2) returns -1, and dividing by it moves the sign
   * to the denominator.
   */
  lemma NegativeNumeratorMovesSign()
    ensures SignedNum(-1, 2) == -1
    ensures McdOf(-1, 2) == -1
    ensures JavaDiv(-1, -1) == 1 && JavaDiv(Abs(2), -1) == -2
  {
    assert JavaRem(-1, 2) == -1;
    assert JavaRem(2, -1) == 0;
    assert EuclidLoop(2, -1) == EuclidLoop(-1, 2);
    assert EuclidLoop(-1, 2) == EuclidLoop(0, -1);
  }
}
