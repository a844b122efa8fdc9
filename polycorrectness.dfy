/**
 * The sparse polynomial of e05/05 (Poly.java with correctness arguments): the algorithms of
 * e04/05, except that the private list constructor raises IllegalArgumentException on an
 * empty list instead of storing 0 x^0.
 */
module PolyCorrectness {
  import opened Exceptions
  import opened SparseTerms

  const Raising := Variant(ByEquals, true, true)

  /**
   * add: coefficient-wise sum, raising when the merged list is empty; for zero-free operands
   * with distinct degrees that is exactly when the sum is the zero polynomial.
   */
  method Add(p: Terms, q: Terms) returns (r: Result<Terms>)
    ensures r.Err? ==> r.error == IllegalArgumentException && Cancel(p, q)
    ensures r.Ok? ==> forall d :: Sum(r.value, d) == Sum(p, d) + Sum(q, d)
    ensures Distinct(p) && Distinct(q) && NoZeroTerms(p) && NoZeroTerms(q) ==> (r.Err? <==> Cancel(p, q))
    ensures Distinct(p) && Distinct(q) && NoZeroTerms(p) && AtMostOneZero(q) && r.Ok? ==>
              Distinct(r.value) && KeptDegrees(true, p, q, r.value)
  {
    r := AddTerms(Raising, p, q);
    AddSpecRaisesOnZero(Raising, p, q);
    if r.Ok? {
      forall d ensures Sum(r.value, d) == Sum(p, d) + Sum(q, d) {
        AddSpecSum(Raising, p, q, d);
      }
    }
    if Distinct(p) && Distinct(q) && NoZeroTerms(p) && NoZeroTerms(q) {
      AddSpecRaises(Raising, p, q);
    }
    if Distinct(p) && Distinct(q) && NoZeroTerms(p) && AtMostOneZero(q) {
      AddSpecEquals(Raising, p, q);
    }
  }

  /** minus: every coefficient negated, the same degrees; the list is never empty, so it never raises. */
  method Minus(p: Terms) returns (r: Terms)
    ensures forall d :: Sum(r, d) == -Sum(p, d)
    ensures Degrees(r) == Degrees(p) && MaxDegree(r) == MaxDegree(p)
    ensures Distinct(p) ==> Distinct(r)
    ensures NoZeroTerms(p) ==> NoZeroTerms(r)
    ensures AtMostOneZero(p) ==> AtMostOneZero(r)
  {
    var opposto := NegateLoop(p);
    r := Construct(Raising, opposto).value;
    forall d ensures Sum(r, d) == -Sum(p, d) {
      NegateSum(p, d);
    }
    NegateDegrees(p);
  }

  /** sub: add(q.minus()); it raises when p and q are the same polynomial. */
  method Sub(p: Terms, q: Terms) returns (r: Result<Terms>)
    ensures r.Err? ==> r.error == IllegalArgumentException && SamePoly(p, q)
    ensures r.Ok? ==> forall d :: Sum(r.value, d) == Sum(p, d) - Sum(q, d)
    ensures Distinct(p) && Distinct(q) && NoZeroTerms(p) && NoZeroTerms(q) ==> (r.Err? <==> SamePoly(p, q))
  {
    var m := Minus(q);
    r := Add(p, m);
    SameIffCancel(p, q, m);
  }

  lemma SameIffCancel(p: Terms, q: Terms, m: Terms)
    requires forall d :: Sum(m, d) == -Sum(q, d)
    ensures Cancel(p, m) <==> SamePoly(p, q)
  {
    if Cancel(p, m) {
      forall d ensures Sum(p, d) == Sum(q, d) {
        assert Sum(p, d) + Sum(m, d) == 0;
      }
    }
    if SamePoly(p, q) {
      forall d ensures Sum(p, d) + Sum(m, d) == 0 {
        assert Sum(p, d) == Sum(q, d);
      }
    }
  }

  /**
   * mul: the sum of all pairwise products, accumulated by add from Poly(0, 0); a raising add ends
   * it. The result keeps repOK, whatever the operands.
   */
  method Mul(p: Terms, q: Terms) returns (r: Result<Terms>)
    ensures r.Err? ==> r.error == IllegalArgumentException
    ensures r.Ok? ==> forall d :: Sum(r.value, d) == SparseConv(p, q, d)
    ensures r.Ok? ==> Distinct(r.value)
  {
    r := MulTerms(Raising, p, q);
    MulFoldError(Raising, Zero(), Products(p, q));
    MulFoldDistinctEquals(Raising, Zero(), Products(p, q));
    if r.Ok? {
      forall d ensures Sum(r.value, d) == SparseConv(p, q, d) {
        MulSpecSum(Raising, p, q, d);
      }
    }
  }

  /**
   * x^2 + (-x^2) and 0 + 0 raise instead of giving the zero polynomial; so does Poly().mul(Poly()),
   * whose single product 0 x^0 cancels the accumulator 0 x^0.
   */
  lemma CancellationRaises()
    ensures AddSpec(Raising, [Term(1, 2)], [Term(-1, 2)]) == Err(IllegalArgumentException)
    ensures AddSpec(Raising, Zero(), Zero()) == Err(IllegalArgumentException)
    ensures MulSpec(Raising, Zero(), Zero()) == Err(IllegalArgumentException)
  {
    assert IndexOfDegree([Term(-1, 2)], 2) == 0;
    assert Step(ByEquals, true, [Term(-1, 2)], Term(1, 2)) == [];
    assert Merge(ByEquals, true, [Term(1, 2)], [Term(-1, 2)]) == [];
    assert IndexOfDegree(Zero(), 0) == 0;
    assert Step(ByEquals, true, Zero(), Term(0, 0)) == [];
    assert Merge(ByEquals, true, Zero(), Zero()) == [];
    assert Products(Zero(), Zero()) == [Term(0, 0)];
  }
}
