/**
 * The sparse polynomial of t10/02 (Poly.java with Term and terms()): add does not copy a
 * zero term of this that has no partner, the private list constructor raises on an empty
 * list, and sortByDegree / terms() list the positive coefficients by increasing degree.
 */
module PolyTerms {
  import opened Exceptions
  import opened SparseTerms

  const Dropping := Variant(ByEquals, false, true)

  /**
   * add: coefficient-wise sum, raising when the merged list is empty. On operands with
   * distinct degrees the result keeps them distinct, has at most one zero term, and holds
   * exactly the degrees that are not cancelled or a partnerless zero of this.
   */
  method Add(p: Terms, q: Terms) returns (r: Result<Terms>)
    ensures r.Err? ==> r.error == IllegalArgumentException && Cancel(p, q)
    ensures r.Ok? ==> forall d :: Sum(r.value, d) == Sum(p, d) + Sum(q, d)
    ensures Distinct(p) && Distinct(q) && NoZeroTerms(p) && NoZeroTerms(q) ==> (r.Err? <==> Cancel(p, q))
    ensures Distinct(p) && Distinct(q) && AtMostOneZero(q) && r.Ok? ==>
              Distinct(r.value) && AtMostOneZero(r.value) && KeptDegrees(false, p, q, r.value)
  {
    r := AddTerms(Dropping, p, q);
    AddSpecRaisesOnZero(Dropping, p, q);
    if r.Ok? {
      forall d ensures Sum(r.value, d) == Sum(p, d) + Sum(q, d) {
        AddSpecSum(Dropping, p, q, d);
      }
    }
    if Distinct(p) && Distinct(q) && NoZeroTerms(p) && NoZeroTerms(q) {
      AddSpecRaises(Dropping, p, q);
    }
    if Distinct(p) && Distinct(q) && AtMostOneZero(q) {
      AddSpecEquals(Dropping, p, q);
    }
  }

  /** minus: every coefficient negated, the same degrees; the list is never empty. */
  method Minus(p: Terms) returns (r: Terms)
    ensures forall d :: Sum(r, d) == -Sum(p, d)
    ensures Degrees(r) == Degrees(p) && MaxDegree(r) == MaxDegree(p)
    ensures Distinct(p) ==> Distinct(r)
    ensures NoZeroTerms(p) ==> NoZeroTerms(r)
    ensures AtMostOneZero(p) ==> AtMostOneZero(r)
  {
    var opposto := NegateLoop(p);
    r := Construct(Dropping, opposto).value;
    forall d ensures Sum(r, d) == -Sum(p, d) {
      NegateSum(p, d);
    }
    NegateDegrees(p);
  }

  /** sub: add(q.minus()); it raises when p and q are the same zero-free polynomial, as in p.sub(p). */
  method Sub(p: Terms, q: Terms) returns (r: Result<Terms>)
    ensures r.Err? ==> r.error == IllegalArgumentException && SamePoly(p, q)
    ensures r.Ok? ==> forall d :: Sum(r.value, d) == Sum(p, d) - Sum(q, d)
    ensures Distinct(p) && Distinct(q) && NoZeroTerms(p) && NoZeroTerms(q) ==> (r.Err? <==> SamePoly(p, q))
    ensures Distinct(p) && Distinct(q) && AtMostOneZero(q) && r.Ok? ==> Distinct(r.value) && AtMostOneZero(r.value)
  {
    var m := Minus(q);
    r := Add(p, m);
    CancelIffSame(p, q, m);
  }

  lemma CancelIffSame(p: Terms, q: Terms, m: Terms)
    requires forall d :: Sum(m, d) == -Sum(q, d)
    ensures Cancel(p, m) <==> SamePoly(p, q)
  {
    if Cancel(p, m) {
      forall d ensures Sum(p, d) == Sum(q, d) {
        assert Sum(p, d) + Sum(m, d) == 0;
      }
    }
    if SamePoly(p, q) {
      forall d ensures Sum(p, d) + Sum(m, d) == 0 {
        assert Sum(p, d) == Sum(q, d);
      }
    }
  }

  /**
   * mul: the pairwise products added one by one to Poly(0, 0); a raising add ends it, and
   * otherwise the product keeps its degrees distinct.
   */
  method Mul(p: Terms, q: Terms) returns (r: Result<Terms>)
    ensures r.Err? ==> r.error == IllegalArgumentException
    ensures r.Ok? ==> (forall d :: Sum(r.value, d) == SparseConv(p, q, d)) && Distinct(r.value)
  {
    r := MulTerms(Dropping, p, q);
    MulFoldError(Dropping, Zero(), Products(p, q));
    MulFoldDistinctEquals(Dropping, Zero(), Products(p, q));
    if r.Ok? {
      forall d ensures Sum(r.value, d) == SparseConv(p, q, d) {
        MulSpecSum(Dropping, p, q, d);
      }
    }
  }

  // ---------------------------------------------------------------- sortByDegree

  /** The terms sortByDegree builds from the degrees below n: every positive coeff, in order. */
  function PositiveUpTo(ts: seq<Term>, n: nat): seq<Term>
  {
    if n == 0 then []
    else PositiveUpTo(ts, n - 1) + (if Stored(ts, n - 1) > 0 then [Term(Stored(ts, n - 1), n - 1)] else [])
  }

  ghost predicate Increasing(ts: seq<Term>)
  {
    forall i, j :: 0 <= i < j < |ts| ==> ts[i].degree < ts[j].degree
  }

  /** No degree below n has a positive coefficient. */
  ghost predicate NoPositiveBelow(ts: seq<Term>, n: nat)
  {
    forall d :: 0 <= d < n ==> Stored(ts, d) <= 0
  }

  /**
   * The listed terms have increasing degrees below n and positive coefficients, and the
   * polynomial they denote is ts restricted to its positive coefficients below n.
   */
  lemma {:induction false} PositiveUpToFacts(ts: seq<Term>, n: nat)
    ensures var l := PositiveUpTo(ts, n);
            Increasing(l) && (forall i :: 0 <= i < |l| ==> l[i].degree < n && l[i].coeff > 0)
    ensures forall d :: Sum(PositiveUpTo(ts, n), d) == if 0 <= d < n && Stored(ts, d) > 0 then Stored(ts, d) else 0
  {
    if n > 0 {
      PositiveUpToFacts(ts, n - 1);
      var prev := PositiveUpTo(ts, n - 1);
      var last: seq<Term> := if Stored(ts, n - 1) > 0 then [Term(Stored(ts, n - 1), n - 1)] else [];
      forall d ensures Sum(prev + last, d) == if 0 <= d < n && Stored(ts, d) > 0 then Stored(ts, d) else 0 {
        SumAppend(prev, last, d);
      }
    }
  }

  /** Nothing is listed exactly when no degree below n has a positive coefficient. */
  lemma {:induction false} PositiveUpToEmpty(ts: seq<Term>, n: nat)
    ensures PositiveUpTo(ts, n) == [] <==> NoPositiveBelow(ts, n)
  {
    if n > 0 {
      PositiveUpToEmpty(ts, n - 1);
      if Stored(ts, n - 1) > 0 {
        assert |PositiveUpTo(ts, n)| > 0;
        assert !NoPositiveBelow(ts, n);
      } else {
        assert PositiveUpTo(ts, n) == PositiveUpTo(ts, n - 1);
        if NoPositiveBelow(ts, n - 1) {
          assert NoPositiveBelow(ts, n);
        }
      }
    }
  }

  /**
   * sortByDegree: the terms c x^i for i = 0..degree() with coeff(i) > 0, by increasing degree;
   * the private constructor raises when there is none. On distinct degrees these are the
   * positive coefficients of the polynomial.
   */
  method SortByDegree(p: Terms) returns (r: Result<Terms>)
    ensures r.Err? <==> NoPositiveBelow(p, MaxDegree(p) + 1)
    ensures r.Err? ==> r.error == IllegalArgumentException
    ensures r.Ok? ==> r.value == PositiveUpTo(p, MaxDegree(p) + 1)
    ensures r.Ok? ==> Increasing(r.value) && forall i :: 0 <= i < |r.value| ==> r.value[i].coeff > 0
    ensures r.Ok? && Distinct(p) ==> forall d :: Sum(r.value, d) == if Sum(p, d) > 0 then Sum(p, d) else 0
  {
    var deg := DegreeOf(p);
    var l := PositiveTerms(p, deg);
    r := Construct(Dropping, l);
    PositiveUpToEmpty(p, deg + 1);
    PositiveUpToFacts(p, deg + 1);
    if Distinct(p) {
      PositiveOfDistinct(p);
    }
  }

  /** The loop of sortByDegree: the terms coeff(i) x^i for i = 0..deg with coeff(i) > 0. */
  method PositiveTerms(p: Terms, deg: nat) returns (l: seq<Term>)
    requires deg == MaxDegree(p)
    ensures l == PositiveUpTo(p, deg + 1)
  {
    l := [];
    var i := 0;
    while i <= deg
      invariant 0 <= i <= deg + 1 && l == PositiveUpTo(p, i)
    {
      var c := CoeffOf(p, i);
      if c.value > 0 {
        l := l + [Term(c.value, i)];
      }
      i := i + 1;
    }
  }

  /** On distinct degrees, the listed terms denote the positive part of the polynomial. */
  lemma PositiveOfDistinct(p: seq<Term>)
    requires Distinct(p)
    ensures forall d :: Sum(PositiveUpTo(p, MaxDegree(p) + 1), d) == if Sum(p, d) > 0 then Sum(p, d) else 0
  {
    PositiveUpToFacts(p, MaxDegree(p) + 1);
    forall d ensures Sum(PositiveUpTo(p, MaxDegree(p) + 1), d) == if Sum(p, d) > 0 then Sum(p, d) else 0 {
      StoredIsSum(p, d);
      if d > MaxDegree(p) || d < 0 {
        AbsentAbove(p, d);
      }
    }
  }

  // ---------------------------------------------------------------- terms()

  /** The iterator returned by terms(): it walks sortByDegree's list with a moving index. */
  class TermsGenerator {
    const terms: Terms
    var index: nat

    ghost predicate Valid()
      reads this
    {
      index <= |terms| && Increasing(terms)
    }

    constructor (sorted: Terms)
      requires Increasing(sorted)
      ensures Valid() && terms == sorted && index == 0
    {
      terms := sorted;
      index := 0;
    }

    /** hasNext: a term remains, and it has a higher degree than every term already returned. */
    function HasNext(): (b: bool)
      reads this
      requires Valid()
      ensures b <==> terms[index..] != []
      ensures b ==> forall k :: 0 <= k < index ==> terms[k].degree < terms[index].degree
    {
      index < |terms|
    }

    /** next: the term at index, then one step on; NoSuchElementException once exhausted. */
    method Next() returns (r: Result<Term>)
      requires Valid()
      modifies this
      ensures Valid()
      ensures old(index) < |terms| ==> r == Ok(terms[old(index)]) && index == old(index) + 1
      ensures old(index) == |terms| ==> r == Err(NoSuchElementException) && index == old(index)
      ensures r.Ok? ==> forall k :: 0 <= k < old(index) ==> terms[k].degree < r.value.degree
    {
      if !HasNext() {
        return Err(NoSuchElementException);
      }
      var next := terms[index];
      index := index + 1;
      r := Ok(next);
    }
  }

  /** terms(): a generator over sortByDegree's list, raising as sortByDegree does. */
  method TermsOf(p: Terms) returns (r: Result<TermsGenerator>)
    ensures r.Err? <==> NoPositiveBelow(p, MaxDegree(p) + 1)
    ensures r.Err? ==> r.error == IllegalArgumentException
    ensures r.Ok? ==> fresh(r.value) && r.value.Valid() && r.value.index == 0
    ensures r.Ok? ==> r.value.terms == PositiveUpTo(p, MaxDegree(p) + 1)
  {
    var sorted := SortByDegree(p);
    if sorted.Err? {
      return Err(sorted.error);
    }
    var g := new TermsGenerator(sorted.value);
    r := Ok(g);
  }

  /**
   * Iterating terms() while hasNext holds: the positive coefficients in increasing degree,
   * each term once.
   */
  method AllTerms(p: Terms) returns (out: Result<seq<Term>>)
    ensures out.Err? <==> NoPositiveBelow(p, MaxDegree(p) + 1)
    ensures out.Ok? ==> out.value == PositiveUpTo(p, MaxDegree(p) + 1)
    ensures out.Ok? ==> Increasing(out.value) && forall i :: 0 <= i < |out.value| ==> out.value[i].coeff > 0
  {
    var g := TermsOf(p);
    if g.Err? {
      return Err(g.error);
    }
    var it := g.value;
    var acc := [];
    while it.HasNext()
      invariant it.Valid() && it.terms == PositiveUpTo(p, MaxDegree(p) + 1)
      invariant acc == it.terms[..it.index]
      decreases |it.terms| - it.index
    {
      var t := it.Next();
      acc := acc + [t.value];
    }
    assert acc == it.terms;
    out := Ok(acc);
    PositiveUpToFacts(p, MaxDegree(p) + 1);
  }

  /** x^2.sub(x^2) raises: the single pair cancels and the merged list is empty. */
  lemma SubOfItselfRaises()
    ensures AddSpec(Dropping, [Term(1, 2)], Negate([Term(1, 2)])) == Err(IllegalArgumentException)
  {
    assert Negate([Term(1, 2)]) == [Term(-1, 2)];
    assert IndexOfDegree([Term(-1, 2)], 2) == 0;
    assert Step(ByEquals, false, [Term(-1, 2)], Term(1, 2)) == [];
    assert Merge(ByEquals, false, [Term(1, 2)], [Term(-1, 2)]) == [];
  }
}
