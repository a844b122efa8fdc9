/**
 * The dense polynomial of t10/01 (Poly.java). It stores the same array as e03/02
 * but states a representation invariant (no trailing zero unless the array has one
 * entry), checks it in the private constructor, and has a degrees() generator.
 */
module PolyDegrees {
  import opened Exceptions
  import opened DensePoly
  import opened JavaInt

  /** repOk: one entry, or a non-zero last entry. */
  predicate RepOk(p: Coeffs)
  {
    |p| == 1 || p[|p| - 1] != 0
  }

  /** The private constructor rejects an empty array and one that fails repOk. */
  function Make(p: seq<int>): (r: Result<Coeffs>)
    ensures r.Ok? <==> p != [] && RepOk(p)
    ensures r.Err? ==> r.error == IllegalArgumentException
    ensures r.Ok? ==> r.value == p
  {
    if p == [] then Err(IllegalArgumentException)
    else if |p| != 1 && p[|p| - 1] == 0 then Err(IllegalArgumentException)
    else Ok(p)
  }

  /** Poly(c, n) with the invariant restored: 0 x^n is stored as [0]. */
  function MonomialRepOk(c: int, n: int): (r: Result<Coeffs>)
    ensures r.Err? <==> n < 0
    ensures r.Err? ==> r.error == NegativeExponentException
    ensures r.Ok? ==> RepOk(r.value) && forall d :: Coeff(r.value, d) == (if d == n then c else 0)
  {
    if n < 0 then Err(NegativeExponentException)
    else if c == 0 then Ok(Zero())
    else Monomial(c, n)
  }

  /** Poly(0, 2) is built without complaint, yet fails repOk; its minus() then raises. */
  lemma ZeroMonomialBreaksRepOk()
    ensures Monomial(0, 2) == Ok([0, 0, 0])
    ensures !RepOk([0, 0, 0]) && Make([0, 0, 0]) == Err(IllegalArgumentException)
  {
    assert seq(3, i => if i == 2 then 0 else 0) == [0, 0, 0];
  }

  /** add: the same algorithm as e03/02; its trimmed result always passes repOk. */
  method Add(p: Coeffs, q: Coeffs) returns (r: Coeffs)
    ensures RepOk(r)
    ensures forall d :: Coeff(r, d) == Coeff(p, d) + Coeff(q, d)
  {
    r := DensePoly.Add(p, q);
  }

  /** minus: negates into a new array, which the private constructor rechecks. */
  method Minus(p: Coeffs) returns (r: Result<Coeffs>)
    ensures r.Err? <==> !RepOk(p)
    ensures r.Err? ==> r.error == IllegalArgumentException
    ensures r.Ok? ==> RepOk(r.value) && |r.value| == |p| && forall d :: Coeff(r.value, d) == -Coeff(p, d)
  {
    var opposite := DensePoly.Minus(p);
    assert Coeff(opposite, |p| - 1) == -Coeff(p, |p| - 1);
    r := Make(opposite);
  }

  /** sub(q) = add(q.minus()); it raises when q fails repOk. */
  method Sub(p: Coeffs, q: Coeffs) returns (r: Result<Coeffs>)
    ensures r.Err? <==> !RepOk(q)
    ensures r.Ok? ==> RepOk(r.value) && forall d :: Coeff(r.value, d) == Coeff(p, d) - Coeff(q, d)
  {
    var m := Minus(q);
    if m.Err? {
      return m;
    }
    var s := Add(p, m.value);
    r := Ok(s);
  }

  /** mul: the same pairwise accumulation as e03/02. */
  method Mul(p: Coeffs, q: Coeffs) returns (r: Coeffs)
    ensures RepOk(r)
    ensures forall k :: Coeff(r, k) == Conv(p, q, k)
  {
    r := DensePoly.Mul(p, q);
  }

  /** equals: same degree and the same coefficient at every degree up to it. */
  method Equals(p: Coeffs, q: Coeffs) returns (b: bool)
    ensures b <==> p == q
  {
    if Degree(q) != Degree(p) {
      return false;
    }
    var i := 0;
    while i <= Degree(p)
      invariant 0 <= i <= |p| && p[..i] == q[..i]
    {
      if Coeff(q, i) != Coeff(p, i) {
        return false;
      }
      assert p[..i + 1] == p[..i] + [p[i]] && q[..i + 1] == q[..i] + [q[i]];
      i := i + 1;
    }
    assert p == p[..i] && q == q[..i];
    b := true;
  }

  /** The hash folded by hashCode over the coefficients from i on, in int arithmetic. */
  function Hash(p: seq<int>, i: nat, h: int): int
    decreases |p| - i
  {
    if i >= |p| then h else Hash(p, i + 1, Wrap32(31 * h + p[i]))
  }

  /** hashCode: a fold over the array, so p == q (which equals decides) gives equal hashes. */
  method HashCode(p: Coeffs) returns (h: int)
    ensures h == Hash(p, 0, Degree(p))
  {
    h := Degree(p);
    var i := 0;
    while i <= Degree(p)
      invariant 0 <= i <= |p|
      invariant Hash(p, i, h) == Hash(p, 0, Degree(p))
    {
      h := Wrap32(31 * h + Coeff(p, i));
      i := i + 1;
    }
  }

  /** The first index at or after i with a non-zero entry, or |p| when there is none. */
  function NextNonZero(p: seq<int>, i: nat): (k: nat)
    ensures i <= k <= |p| || (i > |p| && k == i)
    decreases |p| - i
  {
    if i >= |p| then i else if p[i] != 0 then i else NextNonZero(p, i + 1)
  }

  /** The degrees with a non-zero coefficient from degree i on, in increasing order. */
  function NonZeroFrom(p: seq<int>, i: nat): seq<int>
    decreases |p| - i
  {
    if i >= |p| then [] else (if p[i] != 0 then [i] else []) + NonZeroFrom(p, i + 1)
  }

  lemma {:induction false} NonZeroFromNext(p: seq<int>, i: nat)
    ensures var k := NextNonZero(p, i);
            (k < |p| ==> p[k] != 0 && NonZeroFrom(p, i) == [k] + NonZeroFrom(p, k + 1))
            && (k >= |p| ==> NonZeroFrom(p, i) == [] && forall j :: i <= j < |p| ==> p[j] == 0)
    decreases |p| - i
  {
    if i < |p| && p[i] == 0 {
      NonZeroFromNext(p, i + 1);
    }
  }

  /** PolyDegreesGenerator: index starts at -1 and hasNext is index < degree(). */
  class DegreesGenerator {
    const myPoly: Coeffs
    var index: int

    constructor (p: Coeffs)
      ensures myPoly == p && index == -1
    {
      myPoly := p;
      index := -1;
    }

    /**
     * hasNext: index < degree(). When it fails no non-zero degree remains; when it holds there is
     * a position left, though for the zero polynomial it holds and next() still raises.
     */
    function HasNext(): (b: bool)
      reads this
      requires -1 <= index < |myPoly|
      ensures b ==> index + 1 < |myPoly|
      ensures !b ==> NonZeroFrom(myPoly, index + 1) == []
    {
      index < Degree(myPoly)
    }

    /** next: advances index and recurses while the coefficient there is zero. */
    method Next() returns (r: Result<int>)
      requires -1 <= index < |myPoly|
      modifies this
      ensures -1 <= index < |myPoly|
      ensures var k := NextNonZero(myPoly, old(index) + 1);
              if old(index) >= Degree(myPoly) then
                r == Err(NoSuchElementException) && index == old(index)
              else if k < |myPoly| then
                r == Ok(k) && index == k
              else
                r == Err(NoSuchElementException) && index == Degree(myPoly)
      decreases |myPoly| - index
    {
      if !HasNext() {
        return Err(NoSuchElementException);
      }
      index := index + 1;
      if Coeff(myPoly, index) == 0 {
        r := Next();
      } else {
        r := Ok(index);
      }
    }
  }

  /**
   * Drains degrees() while hasNext holds. It yields the non-zero degrees in increasing
   * order, and raises exactly when the last entry is zero: for the zero polynomial the
   * first next() raises although hasNext() held.
   */
  method Degrees(p: Coeffs) returns (out: Result<seq<int>>)
    ensures out.Err? <==> p[|p| - 1] == 0
    ensures out.Err? ==> out.error == NoSuchElementException
    ensures out.Ok? ==> out.value == NonZeroFrom(p, 0)
  {
    var it := new DegreesGenerator(p);
    var acc := [];
    while it.HasNext()
      invariant it.myPoly == p && -1 <= it.index < |p|
      invariant it.index >= 0 ==> p[it.index] != 0
      invariant acc + NonZeroFrom(p, it.index + 1) == NonZeroFrom(p, 0)
      decreases |p| - it.index
    {
      ghost var i0 := it.index;
      NonZeroFromNext(p, i0 + 1);
      var r := it.Next();
      if r.Err? {
        assert NextNonZero(p, i0 + 1) >= |p|;
        assert p[|p| - 1] == 0;
        return Err(NoSuchElementException);
      }
      acc := acc + [r.value];
    }
    assert it.index == |p| - 1 && p[|p| - 1] != 0;
    NonZeroFromNext(p, it.index + 1);
    out := Ok(acc);
  }
}
