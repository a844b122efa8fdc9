/**
 * The sparse polynomial of e03/03 (Polinomio.java): a list of monomials, add removes the
 * similar monomial it found (Monomio has no equals), and an empty result becomes 0 x^0.
 */
module Polinomio {
  import opened Exceptions
  import opened SparseTerms

  const Identity := Variant(ByIdentity, true, false)

  /** add: coefficient-wise sum; on operands with distinct degrees, cancelled degrees disappear. */
  method Add(p: Terms, q: Terms) returns (r: Terms)
    ensures forall d :: Sum(r, d) == Sum(p, d) + Sum(q, d)
    ensures Distinct(p) && Distinct(q) ==>
              Distinct(r) && (KeptDegrees(true, p, q, r) || (r == Zero() && KeptDegrees(true, p, q, [])))
  {
    var res := AddTerms(Identity, p, q);
    r := res.value;
    forall d ensures Sum(r, d) == Sum(p, d) + Sum(q, d) {
      AddSpecSum(Identity, p, q, d);
    }
    if Distinct(p) && Distinct(q) {
      AddSpecIdentity(Identity, p, q);
    }
  }

  /** minus: every coefficient negated, the same degrees. */
  method Minus(p: Terms) returns (r: Terms)
    ensures forall d :: Sum(r, d) == -Sum(p, d)
    ensures Degrees(r) == Degrees(p) && MaxDegree(r) == MaxDegree(p)
    ensures Distinct(p) ==> Distinct(r)
  {
    var opposto := NegateLoop(p);
    r := Construct(Identity, opposto).value;
    forall d ensures Sum(r, d) == -Sum(p, d) {
      NegateSum(p, d);
    }
    NegateDegrees(p);
  }

  /** sub: add(q.minus()). */
  method Sub(p: Terms, q: Terms) returns (r: Terms)
    ensures forall d :: Sum(r, d) == Sum(p, d) - Sum(q, d)
    ensures Distinct(p) && Distinct(q) ==> Distinct(r)
  {
    var m := Minus(q);
    r := Add(p, m);
  }

  /** mul: the sum of all pairwise products, accumulated by add from 0 x^0; degrees stay distinct. */
  method Mul(p: Terms, q: Terms) returns (r: Terms)
    ensures forall d :: Sum(r, d) == SparseConv(p, q, d)
    ensures Distinct(r)
  {
    MulFoldTotal(Identity, Zero(), Products(p, q));
    MulFoldDistinct(Identity, Zero(), Products(p, q));
    var res := MulTerms(Identity, p, q);
    r := res.value;
    forall d ensures Sum(r, d) == SparseConv(p, q, d) {
      MulSpecSum(Identity, p, q, d);
    }
  }
}
