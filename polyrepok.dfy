/**
 * The sparse polynomial of e04/05 (Poly.java with repOK): the algorithms of e03/03, but
 * Monomio overrides equals so that all zero monomials are equal, and list.remove(existent)
 * in add removes the first monomial equal to the one found.
 */
module PolyRepOk {
  import opened Exceptions
  import opened SparseTerms

  const ByEquality := Variant(ByEquals, true, false)

  /**
   * add: coefficient-wise sum. Degrees stay distinct and cancelled degrees disappear when
   * this has no zero monomial and q at most one, so that remove cannot drop the wrong one.
   */
  method Add(p: Terms, q: Terms) returns (r: Terms)
    ensures forall d :: Sum(r, d) == Sum(p, d) + Sum(q, d)
    ensures Distinct(p) && Distinct(q) && NoZeroTerms(p) && AtMostOneZero(q) ==>
              Distinct(r) && (KeptDegrees(true, p, q, r) || (r == Zero() && KeptDegrees(true, p, q, [])))
  {
    var res := AddTerms(ByEquality, p, q);
    r := res.value;
    forall d ensures Sum(r, d) == Sum(p, d) + Sum(q, d) {
      AddSpecSum(ByEquality, p, q, d);
    }
    if Distinct(p) && Distinct(q) && NoZeroTerms(p) && AtMostOneZero(q) {
      AddSpecEquals(ByEquality, p, q);
    }
  }

  /** minus: every coefficient negated, the same degrees. */
  method Minus(p: Terms) returns (r: Terms)
    ensures forall d :: Sum(r, d) == -Sum(p, d)
    ensures Degrees(r) == Degrees(p) && MaxDegree(r) == MaxDegree(p)
    ensures Distinct(p) ==> Distinct(r)
    ensures AtMostOneZero(p) ==> AtMostOneZero(r)
  {
    var opposto := NegateLoop(p);
    r := Construct(ByEquality, opposto).value;
    forall d ensures Sum(r, d) == -Sum(p, d) {
      NegateSum(p, d);
    }
    NegateDegrees(p);
  }

  /** sub: add(q.minus()). */
  method Sub(p: Terms, q: Terms) returns (r: Terms)
    ensures forall d :: Sum(r, d) == Sum(p, d) - Sum(q, d)
    ensures Distinct(p) && Distinct(q) && NoZeroTerms(p) && AtMostOneZero(q) ==> Distinct(r)
  {
    var m := Minus(q);
    r := Add(p, m);
  }

  /** mul: the sum of all pairwise products, accumulated by add from 0 x^0; the result satisfies repOK. */
  method Mul(p: Terms, q: Terms) returns (r: Terms)
    ensures forall d :: Sum(r, d) == SparseConv(p, q, d)
    ensures Distinct(r)
  {
    MulFoldTotal(ByEquality, Zero(), Products(p, q));
    MulFoldDistinctEquals(ByEquality, Zero(), Products(p, q));
    var res := MulTerms(ByEquality, p, q);
    r := res.value;
    forall d ensures Sum(r, d) == SparseConv(p, q, d) {
      MulSpecSum(ByEquality, p, q, d);
    }
  }

  /**
   * Poly(0, 3).add(Poly(0, 5)) stores 0x^5 and 0x^3; adding it to Poly(2, 3) finds 0x^3,
   * but remove drops the equal 0x^5 instead, leaving two monomials of degree 3.
   */
  lemma RemoveByEqualsBreaksRepOk()
    ensures AddSpec(ByEquality, [Term(0, 3)], [Term(0, 5)]) == Ok([Term(0, 5), Term(0, 3)])
    ensures AddSpec(ByEquality, [Term(2, 3)], [Term(0, 5), Term(0, 3)]) == Ok([Term(0, 3), Term(2, 3)])
    ensures !Distinct([Term(0, 3), Term(2, 3)])
  {
    var acc := [Term(0, 5), Term(0, 3)];
    assert IndexOfDegree([Term(0, 5)], 3) == 1;
    assert Step(ByEquals, true, [Term(0, 5)], Term(0, 3)) == acc;
    assert Merge(ByEquals, true, [Term(0, 3)], [Term(0, 5)]) == acc;
    assert acc[1..] == [Term(0, 3)];
    assert IndexOfDegree(acc, 3) == 1;
    assert IndexOfEqual(acc, Term(0, 3)) == 0;
    assert RemoveAt(acc, 0) == [Term(0, 3)];
    assert Step(ByEquals, true, acc, Term(2, 3)) == [Term(0, 3), Term(2, 3)];
    assert Merge(ByEquals, true, [Term(2, 3)], acc) == [Term(0, 3), Term(2, 3)];
    var bad := [Term(0, 3), Term(2, 3)];
    assert !(0 <= 0 < 1 < |bad| ==> bad[0].degree != bad[1].degree);
  }
}
