/**
 * The dense polynomial of e03/02 (Poly.java): an int array whose entry d is the
 * coefficient of x^d. The objects are immutable; each operation builds a new array.
 */
module DensePoly {
  import opened Exceptions

  /** Every constructor yields a non-empty array. */
  type Coeffs = p: seq<int> | |p| > 0 witness [0]

  /** coeff(d): the entry of degree d, and 0 outside [0, degree()]. */
  function Coeff(p: seq<int>, d: int): (c: int)
    ensures 0 <= d < |p| ==> c == p[d]
    ensures d < 0 || |p| <= d ==> c == 0
  {
    if 0 <= d < |p| then p[d] else 0
  }

  /** degree(): the length of the array less one; no coefficient lies above it. */
  function Degree(p: Coeffs): (n: nat)
    ensures n + 1 == |p|
    ensures forall d :: n < d ==> Coeff(p, d) == 0
  {
    |p| - 1
  }

  /** No trailing zero, except in the one-entry array. */
  predicate Trimmed(p: seq<int>)
  {
    |p| > 0 && (|p| == 1 || p[|p| - 1] != 0)
  }

  /** The coefficient of x^k in the product: the sum of p[i] * q[k - i]. */
  function Conv(p: seq<int>, q: seq<int>, k: int): int
    decreases |p|
  {
    if p == [] then 0
    else Conv(p[..|p| - 1], q, k) + p[|p| - 1] * Coeff(q, k - (|p| - 1))
  }

  /** Poly(): the zero polynomial [0]. */
  function Zero(): (p: Coeffs)
    ensures Degree(p) == 0 && forall d :: Coeff(p, d) == 0
  {
    [0]
  }

  /** Poly(c, n): c x^n in an array of length n + 1, even when c is 0. */
  function Monomial(c: int, n: int): (r: Result<Coeffs>)
    ensures r.Err? <==> n < 0
    ensures r.Err? ==> r.error == NegativeExponentException
    ensures r.Ok? ==> Degree(r.value) == n && forall d :: Coeff(r.value, d) == (if d == n then c else 0)
  {
    if n < 0 then Err(NegativeExponentException)
    else Ok(seq(n + 1, i => if i == n then c else 0))
  }

  /** The private constructor: it rejects an empty array. */
  function Make(p: seq<int>): (r: Result<Coeffs>)
    ensures r.Err? <==> p == []
    ensures r.Ok? ==> r.value == p
  {
    if p == [] then Err(IllegalArgumentException) else Ok(p)
  }

  /** add: adds the smaller array into a copy of the bigger one, then drops trailing zeros. */
  method Add(p: Coeffs, q: Coeffs) returns (r: Coeffs)
    ensures Trimmed(r) && |r| <= if |p| < |q| then |q| else |p|
    ensures forall d :: Coeff(r, d) == Coeff(p, d) + Coeff(q, d)
  {
    var smaller, bigger := if Degree(q) > Degree(p) then p else q, if Degree(q) > Degree(p) then q else p;
    var b := new int[|bigger|](i requires 0 <= i < |bigger| => bigger[i]);
    var i := 0;
    while i < |smaller|
      invariant 0 <= i <= |smaller| <= b.Length == |bigger|
      invariant forall m :: 0 <= m < i ==> b[m] == bigger[m] + smaller[m]
      invariant forall m :: i <= m < b.Length ==> b[m] == bigger[m]
    {
      b[i] := b[i] + smaller[i];
      i := i + 1;
    }
    assert forall d :: Coeff(b[..], d) == Coeff(p, d) + Coeff(q, d);
    var emptySpot := 0;
    var k := b.Length - 1;
    while k > 0
      invariant 0 <= k < b.Length && emptySpot == b.Length - 1 - k
      invariant forall m :: k < m < b.Length ==> b[m] == 0
    {
      if b[k] == 0 {
        emptySpot := emptySpot + 1;
      } else {
        break;
      }
      k := k - 1;
    }
    r := b[..b.Length - emptySpot];
    assert forall d :: Coeff(r, d) == Coeff(b[..], d);
  }

  /** minus: negates every entry and keeps the length. */
  method Minus(p: Coeffs) returns (r: Coeffs)
    ensures |r| == |p| && forall d :: Coeff(r, d) == -Coeff(p, d)
  {
    var opposite := new int[|p|];
    var i := 0;
    while i < |p|
      invariant 0 <= i <= |p| == opposite.Length
      invariant forall m :: 0 <= m < i ==> opposite[m] == -p[m]
    {
      opposite[i] := -p[i];
      i := i + 1;
    }
    r := opposite[..];
  }

  /** sub(q) = add(q.minus()). */
  method Sub(p: Coeffs, q: Coeffs) returns (r: Coeffs)
    ensures Trimmed(r)
    ensures forall d :: Coeff(r, d) == Coeff(p, d) - Coeff(q, d)
  {
    var m := Minus(q);
    r := Add(p, m);
  }

  /** mul: accumulates Poly(smaller[i] * bigger[j], i + j) into Poly() for every pair. */
  method Mul(p: Coeffs, q: Coeffs) returns (r: Coeffs)
    ensures Trimmed(r)
    ensures forall k :: Coeff(r, k) == Conv(p, q, k)
  {
    var smaller, bigger := if Degree(q) > Degree(p) then p else q, if Degree(q) > Degree(p) then q else p;
    r := Zero();
    var i := 0;
    while i < |smaller|
      invariant 0 <= i <= |smaller|
      invariant Trimmed(r)
      invariant forall k :: Coeff(r, k) == Conv(smaller[..i], bigger, k)
    {
      var j := 0;
      while j < |bigger|
        invariant 0 <= j <= |bigger|
        invariant Trimmed(r)
        invariant forall k :: Coeff(r, k) == Conv(smaller[..i], bigger, k) + smaller[i] * Coeff(bigger[..j], k - i)
      {
        var t := Monomial(smaller[i] * bigger[j], i + j);
        var r' := Add(r, t.value);
        forall k ensures Coeff(r', k) == Conv(smaller[..i], bigger, k) + smaller[i] * Coeff(bigger[..j + 1], k - i) {
          assert Coeff(bigger[..j + 1], k - i) == Coeff(bigger[..j], k - i) + (if k == i + j then bigger[j] else 0);
        }
        r := r';
        j := j + 1;
      }
      forall k ensures Coeff(r, k) == Conv(smaller[..i + 1], bigger, k) {
        assert smaller[..i + 1][..i] == smaller[..i];
        assert bigger[..j] == bigger;
      }
      i := i + 1;
    }
    assert smaller[..i] == smaller;
    forall k ensures Coeff(r, k) == Conv(p, q, k) {
      ConvCommutes(p, q, k);
    }
  }

  /** Two trimmed arrays with the same coefficients are the same array. */
  lemma {:induction false} TrimmedUnique(p: seq<int>, q: seq<int>)
    requires Trimmed(p) && Trimmed(q)
    requires forall d :: Coeff(p, d) == Coeff(q, d)
    ensures p == q
  {
    assert |p| == |q| by {
      assert Coeff(p, |q| - 1) == Coeff(q, |q| - 1);
      assert Coeff(p, |p| - 1) == Coeff(q, |p| - 1);
    }
    forall i | 0 <= i < |p| ensures p[i] == q[i] {
      assert Coeff(p, i) == Coeff(q, i);
    }
  }

  /** Appending b to q adds b * p[k - |q|] to every coefficient of the product. */
  lemma {:induction false} ConvSnoc(p: seq<int>, q: seq<int>, b: int, k: int)
    ensures Conv(p, q + [b], k) == Conv(p, q, k) + b * Coeff(p, k - |q|)
    decreases |p|
  {
    if p != [] {
      var m := |p| - 1;
      ConvSnoc(p[..m], q, b, k);
      assert Coeff(q + [b], k - m) == Coeff(q, k - m) + (if k - m == |q| then b else 0);
      assert Coeff(p, k - |q|) == Coeff(p[..m], k - |q|) + (if k - |q| == m then p[m] else 0);
    }
  }

  lemma {:induction false} ConvEmptyRight(p: seq<int>, k: int)
    ensures Conv(p, [], k) == 0
    decreases |p|
  {
    if p != [] {
      ConvEmptyRight(p[..|p| - 1], k);
    }
  }

  /** Multiplication of coefficient arrays is commutative. */
  lemma {:induction false} ConvCommutes(p: seq<int>, q: seq<int>, k: int)
    ensures Conv(p, q, k) == Conv(q, p, k)
    decreases |p| + |q|
  {
    if p == [] {
      ConvEmptyRight(q, k);
    } else if q == [] {
      ConvEmptyRight(p, k);
    } else {
      var m, n := |p| - 1, |q| - 1;
      var p', q' := p[..m], q[..n];
      assert p == p' + [p[m]] && q == q' + [q[n]];
      ConvSnoc(p', q', q[n], k);
      ConvSnoc(q', p', p[m], k);
      ConvCommutes(p', q', k);
      assert Conv(p, q, k) == Conv(p', q, k) + p[m] * Coeff(q, k - m);
      assert Conv(q, p, k) == Conv(q', p, k) + q[n] * Coeff(p, k - n);
      assert Coeff(q, k - m) == Coeff(q', k - m) + (if k - m == n then q[n] else 0);
      assert Coeff(p, k - n) == Coeff(p', k - n) + (if k - n == m then p[m] else 0);
    }
  }
}
