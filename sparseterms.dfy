/**
 * The term-list machinery shared by the four sparse polynomial exercises
 * (e03/03 Polinomio.java, e04/05, e05/05 and t10/02 Poly.java). They store a list
 * of (coefficient, degree) terms and differ only in three details of add:
 * how list.remove(existent) picks the element it drops, whether a term of this
 * with no partner is copied when its coefficient is zero, and what the private
 * constructor does with an empty list.
 */
module SparseTerms {
  import opened Exceptions

  /** Monomio / Term: c x^d with d >= 0. */
  datatype Term = Term(coeff: int, degree: nat)

  /** A stored polynomial: every constructor leaves at least one term. */
  type Terms = ts: seq<Term> | |ts| > 0 witness [Term(0, 0)]

  /** How list.remove(existent) chooses the element it drops. */
  datatype Removal =
    | ByIdentity  // no equals override: the very element found, i.e. the first term of that degree
    | ByEquals    // Monomio.equals / Term.equals: the first term equal to it, and all zero terms are equal

  datatype Variant = Variant(removal: Removal, keepZero: bool, emptyRaises: bool)

  // ---------------------------------------------------------------- terms

  /** The Monomio/Term constructor rejects a negative degree. */
  function MakeTerm(c: int, d: int): (r: Result<Term>)
    ensures r.Err? <==> d < 0
    ensures r.Err? ==> r.error == IllegalArgumentException
    ensures r.Ok? ==> r.value.coeff == c && r.value.degree == d
  {
    if d < 0 then Err(IllegalArgumentException) else Ok(Term(c, d))
  }

  function NegateTerm(t: Term): (r: Term)
    ensures r.degree == t.degree && r.coeff + t.coeff == 0
  {
    Term(t.coeff * -1, t.degree)
  }

  predicate Similar(a: Term, b: Term)
  {
    a.degree == b.degree
  }

  /** addSimilar: the sum of two similar terms; dissimilar terms raise. */
  function AddSimilar(a: Term, b: Term): (r: Result<Term>)
    ensures r.Ok? <==> Similar(a, b)
    ensures r.Err? ==> r.error == IllegalArgumentException
    ensures r.Ok? ==> forall d :: Contribution(r.value, d) == Contribution(a, d) + Contribution(b, d)
  {
    if !Similar(a, b) then Err(IllegalArgumentException) else Ok(Term(a.coeff + b.coeff, a.degree))
  }

  /** Monomio.equals / Term.equals: any two zero terms are equal, whatever their degrees. */
  predicate SameTerm(a: Term, b: Term)
  {
    (a.coeff == 0 && b.coeff == 0) || (a.degree == b.degree && a.coeff == b.coeff)
  }

  // ---------------------------------------------------------------- abstraction

  /** What a term adds to the coefficient of x^d. */
  function Contribution(t: Term, d: int): int
  {
    if t.degree == d then t.coeff else 0
  }

  /** The polynomial's coefficient of x^d: the sum over all terms of degree d. */
  function Sum(ts: seq<Term>, d: int): int
  {
    if ts == [] then 0 else Contribution(ts[0], d) + Sum(ts[1..], d)
  }

  /** What the coeff loop reads: the coefficient of the last term of degree d, or 0. */
  function Stored(ts: seq<Term>, d: int): int
  {
    if ts == [] then 0
    else if ts[|ts| - 1].degree == d then ts[|ts| - 1].coeff
    else Stored(ts[..|ts| - 1], d)
  }

  /** What the degree loop computes: the largest degree, starting from 0. */
  function MaxDegree(ts: seq<Term>): nat
  {
    if ts == [] then 0
    else var m := MaxDegree(ts[..|ts| - 1]);
      if ts[|ts| - 1].degree > m then ts[|ts| - 1].degree else m
  }

  function Degrees(ts: seq<Term>): set<nat>
  {
    set i | 0 <= i < |ts| :: ts[i].degree
  }

  /** repOK: no two terms share a degree. */
  ghost predicate Distinct(ts: seq<Term>)
  {
    forall i, j :: 0 <= i < j < |ts| ==> ts[i].degree != ts[j].degree
  }

  predicate NoZeroTerms(ts: seq<Term>)
  {
    forall i :: 0 <= i < |ts| ==> ts[i].coeff != 0
  }

  lemma {:induction false} SumAppend(a: seq<Term>, b: seq<Term>, d: int)
    ensures Sum(a + b, d) == Sum(a, d) + Sum(b, d)
    decreases |a|
  {
    if a == [] {
      assert a + b == b;
    } else {
      assert (a + b)[0] == a[0];
      assert (a + b)[1..] == a[1..] + b;
      SumAppend(a[1..], b, d);
    }
  }

  lemma {:induction false} SumAbsent(ts: seq<Term>, d: int)
    requires d !in Degrees(ts)
    ensures Sum(ts, d) == 0
    decreases |ts|
  {
    if ts != [] {
      assert Degrees(ts[1..]) <= Degrees(ts) by {
        forall i | 0 <= i < |ts[1..]| ensures ts[1..][i].degree in Degrees(ts) {
          assert ts[1..][i] == ts[i + 1];
        }
      }
      assert ts[0].degree in Degrees(ts);
      SumAbsent(ts[1..], d);
    }
  }

  function RemoveAt(ts: seq<Term>, k: nat): seq<Term>
    requires k < |ts|
  {
    ts[..k] + ts[k + 1..]
  }

  lemma SumRemoveAt(ts: seq<Term>, k: nat, d: int)
    requires k < |ts|
    ensures Sum(RemoveAt(ts, k), d) == Sum(ts, d) - Contribution(ts[k], d)
  {
    assert ts == ts[..k] + ([ts[k]] + ts[k + 1..]);
    SumAppend(ts[..k], [ts[k]] + ts[k + 1..], d);
    SumAppend([ts[k]], ts[k + 1..], d);
    SumAppend(ts[..k], ts[k + 1..], d);
  }

  /** The last term of a degree is the only one when degrees are distinct, so coeff reads the sum. */
  lemma {:induction false} StoredIsSum(ts: seq<Term>, d: int)
    requires Distinct(ts)
    ensures Stored(ts, d) == Sum(ts, d)
    decreases |ts|
  {
    if ts != [] {
      var n := |ts| - 1;
      var pre := ts[..n];
      assert ts == pre + [ts[n]];
      SumAppend(pre, [ts[n]], d);
      assert Sum([ts[n]], d) == Contribution(ts[n], d);
      if ts[n].degree == d {
        assert d !in Degrees(pre);
        SumAbsent(pre, d);
      } else {
        StoredIsSum(pre, d);
      }
    }
  }

  /** degree() bounds every stored degree and is one of them, or 0. */
  lemma {:induction false} MaxDegreeIsMax(ts: seq<Term>)
    ensures forall i :: 0 <= i < |ts| ==> ts[i].degree <= MaxDegree(ts)
    ensures MaxDegree(ts) == 0 || MaxDegree(ts) in Degrees(ts)
    decreases |ts|
  {
    if ts != [] {
      var n := |ts| - 1;
      MaxDegreeIsMax(ts[..n]);
      assert forall i :: 0 <= i < n ==> ts[..n][i] == ts[i];
      assert Degrees(ts[..n]) <= Degrees(ts) by {
        forall i | 0 <= i < n ensures ts[..n][i].degree in Degrees(ts) {
          assert ts[..n][i] == ts[i];
        }
      }
    }
  }

  /** coeff(d): raises when d exceeds degree(); otherwise the last stored term of degree d, or 0. */
  method CoeffOf(ts: seq<Term>, d: int) returns (r: Result<int>)
    ensures r.Err? <==> MaxDegree(ts) < d
    ensures r.Err? ==> r.error == IllegalArgumentException
    ensures r.Ok? ==> r.value == Stored(ts, d)
  {
    var deg := DegreeOf(ts);
    if deg < d {
      return Err(IllegalArgumentException);
    }
    var c := 0;
    var i := 0;
    while i < |ts|
      invariant 0 <= i <= |ts| && c == Stored(ts[..i], d)
    {
      assert ts[..i + 1][..i] == ts[..i];
      if ts[i].degree == d {
        c := ts[i].coeff;
      }
      i := i + 1;
    }
    assert ts[..i] == ts;
    r := Ok(c);
  }

  /** degree(): the largest stored degree, 0 when every term has degree 0. */
  method DegreeOf(ts: seq<Term>) returns (deg: nat)
    ensures deg == MaxDegree(ts)
    ensures forall i :: 0 <= i < |ts| ==> ts[i].degree <= deg
    ensures deg == 0 || deg in Degrees(ts)
  {
    deg := 0;
    var i := 0;
    while i < |ts|
      invariant 0 <= i <= |ts| && deg == MaxDegree(ts[..i])
    {
      assert ts[..i + 1][..i] == ts[..i];
      if ts[i].degree > deg {
        deg := ts[i].degree;
      }
      i := i + 1;
    }
    assert ts[..i] == ts;
    MaxDegreeIsMax(ts);
  }

  /** repOK's double loop: no two positions i != j hold the same degree. */
  method RepOk(ts: seq<Term>) returns (ok: bool)
    ensures ok <==> Distinct(ts)
  {
    var i := 0;
    while i < |ts|
      invariant 0 <= i <= |ts|
      invariant forall a, b :: 0 <= a < i && 0 <= b < |ts| && a != b ==> ts[a].degree != ts[b].degree
    {
      var j := 0;
      while j < |ts|
        invariant 0 <= j <= |ts|
        invariant forall b :: 0 <= b < j && i != b ==> ts[i].degree != ts[b].degree
      {
        if i != j && ts[i].degree == ts[j].degree {
          return false;
        }
        j := j + 1;
      }
      i := i + 1;
    }
    ok := true;
  }

  // ---------------------------------------------------------------- add

  /** The index of the first term of degree d, or |ts|. */
  function IndexOfDegree(ts: seq<Term>, d: int): (k: nat)
    ensures k <= |ts| && (k < |ts| ==> ts[k].degree == d)
    ensures forall i :: 0 <= i < k ==> ts[i].degree != d
  {
    if ts == [] then 0
    else if ts[0].degree == d then 0
    else 1 + IndexOfDegree(ts[1..], d)
  }

  /** The index list.remove(t) drops under equals: the first term equal to t, or |ts|. */
  function IndexOfEqual(ts: seq<Term>, t: Term): (k: nat)
    ensures k <= |ts| && (k < |ts| ==> SameTerm(t, ts[k]))
    ensures forall i :: 0 <= i < k ==> !SameTerm(t, ts[i])
  {
    if ts == [] then 0
    else if SameTerm(t, ts[0]) then 0
    else 1 + IndexOfEqual(ts[1..], t)
  }

  /** The index of the element that remove(existent) drops, for the existent found at j. */
  function RemovedIndex(rm: Removal, acc: seq<Term>, j: nat): (k: nat)
    requires j < |acc|
    ensures k <= j && SameTerm(acc[j], acc[k])
  {
    if rm == ByIdentity then j else IndexOfEqual(acc, acc[j])
  }

  /** One pass of add's outer loop: merge the term actual into qElements. */
  function Step(rm: Removal, keepZero: bool, acc: seq<Term>, actual: Term): seq<Term>
  {
    var j := IndexOfDegree(acc, actual.degree);
    if j < |acc| then
      var existent := acc[j];
      var rest := RemoveAt(acc, RemovedIndex(rm, acc, j));
      if actual.coeff != existent.coeff * -1 then rest + [Term(actual.coeff + existent.coeff, actual.degree)]
      else rest
    else if keepZero || actual.coeff != 0 then acc + [actual]
    else acc
  }

  /** add's outer loop: the terms of this merged, in order, into a copy of q's. */
  function Merge(rm: Removal, keepZero: bool, ps: seq<Term>, acc: seq<Term>): seq<Term>
    decreases |ps|
  {
    if ps == [] then acc else Merge(rm, keepZero, ps[1..], Step(rm, keepZero, acc, ps[0]))
  }

  /** add itself: the merged list, passed to the private constructor. */
  /**
   * The private list constructor: an empty list becomes the zero polynomial
   * (e03/03, e04/05) or raises (e05/05, t10/02).
   */
  function Construct(v: Variant, ts: seq<Term>): (r: Result<Terms>)
    ensures r.Err? <==> ts == [] && v.emptyRaises
    ensures r.Err? ==> r.error == IllegalArgumentException
    ensures r.Ok? ==> (forall d :: Sum(r.value, d) == Sum(ts, d)) && (Distinct(ts) ==> Distinct(r.value))
    ensures r.Ok? && ts != [] ==> r.value == ts
  {
    if ts != [] then Ok(ts)
    else if v.emptyRaises then Err(IllegalArgumentException)
    else Ok([Term(0, 0)])
  }

  /** The no-argument constructor: the zero polynomial 0 x^0. */
  function Zero(): (p: Terms)
    ensures Distinct(p) && MaxDegree(p) == 0
    ensures forall d :: Sum(p, d) == 0
  {
    [Term(0, 0)]
  }

  /** Poly(c, n): c x^n; a negative exponent raises. */
  function Monomial(c: int, n: int): (r: Result<Terms>)
    ensures r.Err? <==> n < 0
    ensures r.Err? ==> r.error == NegativeExponentException
    ensures r.Ok? ==> Distinct(r.value) && MaxDegree(r.value) == n
    ensures r.Ok? ==> forall d :: Sum(r.value, d) == if d == n then c else 0
  {
    if n < 0 then Err(NegativeExponentException) else Ok([Term(c, n)])
  }

  function AddSpec(v: Variant, ps: seq<Term>, qs: seq<Term>): Result<Terms>
  {
    Construct(v, Merge(v.removal, v.keepZero, ps, qs))
  }

  /** One pass of add's outer loop: the inner search for a similar term, then the list updates. */
  method StepLoop(rm: Removal, keepZero: bool, qElements: seq<Term>, actual: Term) returns (r: seq<Term>)
    ensures r == Step(rm, keepZero, qElements, actual)
  {
    var j := 0;
    while j < |qElements| && !Similar(actual, qElements[j])
      invariant 0 <= j <= |qElements|
      invariant forall m :: 0 <= m < j ==> qElements[m].degree != actual.degree
    {
      j := j + 1;
    }
    assert j == IndexOfDegree(qElements, actual.degree);
    r := qElements;
    if j < |qElements| {
      var existent := qElements[j];
      r := RemoveAt(qElements, RemovedIndex(rm, qElements, j));
      if actual.coeff != existent.coeff * -1 {
        r := r + [Term(actual.coeff + existent.coeff, actual.degree)];
      }
    } else if keepZero || actual.coeff != 0 {
      r := qElements + [actual];
    }
  }

  /** add's outer loop over the terms of this, starting from a copy of q's terms. */
  method MergeLoop(rm: Removal, keepZero: bool, ps: seq<Term>, qs: seq<Term>) returns (qElements: seq<Term>)
    ensures qElements == Merge(rm, keepZero, ps, qs)
  {
    qElements := qs;
    var i := 0;
    while i < |ps|
      invariant 0 <= i <= |ps|
      invariant Merge(rm, keepZero, ps[i..], qElements) == Merge(rm, keepZero, ps, qs)
    {
      assert ps[i..][1..] == ps[i + 1..];
      qElements := StepLoop(rm, keepZero, qElements, ps[i]);
      i := i + 1;
    }
  }

  method AddTerms(v: Variant, ps: seq<Term>, qs: seq<Term>) returns (r: Result<Terms>)
    ensures r == AddSpec(v, ps, qs)
  {
    var merged := MergeLoop(v.removal, v.keepZero, ps, qs);
    r := Construct(v, merged);
  }

  /** Each merge step adds the term's coefficient at its degree, whichever term remove drops. */
  lemma StepSum(rm: Removal, keepZero: bool, acc: seq<Term>, a: Term, d: int)
    ensures Sum(Step(rm, keepZero, acc, a), d) == Sum(acc, d) + Contribution(a, d)
  {
    var j := IndexOfDegree(acc, a.degree);
    if j < |acc| {
      var k := RemovedIndex(rm, acc, j);
      var rest := RemoveAt(acc, k);
      SumRemoveAt(acc, k, d);
      assert Contribution(acc[k], d) == Contribution(acc[j], d);
      SumAppend(rest, [Term(a.coeff + acc[j].coeff, a.degree)], d);
    } else {
      SumAppend(acc, [a], d);
    }
  }

  /** add sums coefficients: at every degree, the merged list holds the sum of both operands. */
  lemma {:induction false} MergeSum(rm: Removal, keepZero: bool, ps: seq<Term>, acc: seq<Term>, d: int)
    ensures Sum(Merge(rm, keepZero, ps, acc), d) == Sum(acc, d) + Sum(ps, d)
    decreases |ps|
  {
    if ps != [] {
      StepSum(rm, keepZero, acc, ps[0], d);
      MergeSum(rm, keepZero, ps[1..], Step(rm, keepZero, acc, ps[0]), d);
    }
  }

  lemma AddSpecSum(v: Variant, ps: seq<Term>, qs: seq<Term>, d: int)
    ensures AddSpec(v, ps, qs).Ok? ==> Sum(AddSpec(v, ps, qs).value, d) == Sum(ps, d) + Sum(qs, d)
  {
    MergeSum(v.removal, v.keepZero, ps, qs, d);
  }

  lemma DegreesRemoveAt(ts: seq<Term>, k: nat)
    requires k < |ts| && Distinct(ts)
    ensures Distinct(RemoveAt(ts, k))
    ensures Degrees(RemoveAt(ts, k)) == Degrees(ts) - {ts[k].degree}
  {
    var r := RemoveAt(ts, k);
    assert forall i :: 0 <= i < |r| ==> r[i] == if i < k then ts[i] else ts[i + 1];
    forall x | x in Degrees(ts) - {ts[k].degree} ensures x in Degrees(r) {
      var i :| 0 <= i < |ts| && ts[i].degree == x;
      assert r[if i < k then i else i - 1].degree == x;
    }
  }

  lemma DegreesAppend(ts: seq<Term>, t: Term)
    requires Distinct(ts) && t.degree !in Degrees(ts)
    ensures Distinct(ts + [t]) && Degrees(ts + [t]) == Degrees(ts) + {t.degree}
  {
    var r := ts + [t];
    assert forall i :: 0 <= i < |ts| ==> r[i] == ts[i];
    assert r[|ts|] == t;
  }

  /** With distinct degrees, a merge step keeps them distinct under identity removal. */
  lemma StepDistinct(keepZero: bool, acc: seq<Term>, a: Term)
    requires Distinct(acc)
    ensures var s := Step(ByIdentity, keepZero, acc, a);
            Distinct(s)
            && (a.degree in Degrees(acc) && a.coeff + Sum(acc, a.degree) != 0 ==> Degrees(s) == Degrees(acc))
            && (a.degree in Degrees(acc) && a.coeff + Sum(acc, a.degree) == 0 ==> Degrees(s) == Degrees(acc) - {a.degree})
            && (a.degree !in Degrees(acc) && (keepZero || a.coeff != 0) ==> Degrees(s) == Degrees(acc) + {a.degree})
            && (a.degree !in Degrees(acc) && !(keepZero || a.coeff != 0) ==> Degrees(s) == Degrees(acc))
  {
    var j := IndexOfDegree(acc, a.degree);
    if j < |acc| {
      assert a.degree in Degrees(acc);
      DegreesRemoveAt(acc, j);
      var rest := RemoveAt(acc, j);
      StoredIsSum(acc, a.degree);
      assert Sum(acc, a.degree) == acc[j].coeff by {
        SumRemoveAt(acc, j, a.degree);
        SumAbsent(rest, a.degree);
      }
      if a.coeff != acc[j].coeff * -1 {
        DegreesAppend(rest, Term(a.coeff + acc[j].coeff, a.degree));
      }
    } else {
      assert a.degree !in Degrees(acc);
      if keepZero || a.coeff != 0 {
        DegreesAppend(acc, a);
      }
    }
  }

  /**
   * With identity removal and distinct operands, the merged list has distinct degrees,
   * and a degree survives unless the two coefficients cancel (or, without keepZero,
   * it is a zero term of this alone).
   */
  lemma {:induction false} MergeDegrees(keepZero: bool, ps: seq<Term>, acc: seq<Term>, d: nat)
    requires Distinct(ps) && Distinct(acc)
    ensures var m := Merge(ByIdentity, keepZero, ps, acc);
            Distinct(m)
            && (d in Degrees(m) <==>
                  (d in Degrees(acc) && d !in Degrees(ps))
                  || (d in Degrees(ps) && d !in Degrees(acc) && (keepZero || Sum(ps, d) != 0))
                  || (d in Degrees(ps) && d in Degrees(acc) && Sum(ps, d) + Sum(acc, d) != 0))
    decreases |ps|
  {
    if ps != [] {
      var a := ps[0];
      var s := Step(ByIdentity, keepZero, acc, a);
      StepDistinct(keepZero, acc, a);
      var rest := ps[1..];
      assert Distinct(rest);
      assert Degrees(ps) == {a.degree} + Degrees(rest) by {
        forall x | x in Degrees(ps) ensures x in {a.degree} + Degrees(rest) {
          var i :| 0 <= i < |ps| && ps[i].degree == x;
          if i > 0 { assert rest[i - 1] == ps[i]; }
        }
        forall x | x in Degrees(rest) ensures x in Degrees(ps) {
          var i :| 0 <= i < |rest| && rest[i].degree == x;
          assert ps[i + 1] == rest[i];
        }
      }
      assert a.degree !in Degrees(rest) by {
        forall i | 0 <= i < |rest| ensures rest[i].degree != a.degree {
          assert rest[i] == ps[i + 1];
        }
      }
      MergeDegrees(keepZero, rest, s, d);
      StepSum(ByIdentity, keepZero, acc, a, d);
      assert Sum(ps, d) == Contribution(a, d) + Sum(rest, d);
      if d == a.degree {
        SumAbsent(rest, d);
      } else {
        assert Contribution(a, d) == 0;
      }
    }
  }

  /** No two terms with coefficient zero. */
  predicate AtMostOneZero(ts: seq<Term>)
  {
    forall i, j :: 0 <= i < j < |ts| && ts[i].coeff == 0 ==> ts[j].coeff != 0
  }

  /** With at most one zero term, the first term equal to the one found is the one found. */
  lemma EqualIsFound(acc: seq<Term>, j: nat)
    requires AtMostOneZero(acc) && j < |acc|
    requires forall i :: 0 <= i < j ==> acc[i].degree != acc[j].degree
    ensures IndexOfEqual(acc, acc[j]) == j
  {
  }

  lemma RemoveAtZeros(acc: seq<Term>, j: nat)
    requires AtMostOneZero(acc) && j < |acc|
    ensures AtMostOneZero(RemoveAt(acc, j))
  {
    var r := RemoveAt(acc, j);
    assert forall i :: 0 <= i < |r| ==> r[i] == if i < j then acc[i] else acc[i + 1];
  }

  /**
   * While the accumulator holds at most one zero term and no zero term of this is
   * appended, remove-by-equals drops exactly the element identity removal drops.
   */
  lemma {:induction false} MergeAgrees(keepZero: bool, ps: seq<Term>, acc: seq<Term>)
    requires AtMostOneZero(acc) && (keepZero ==> NoZeroTerms(ps))
    ensures Merge(ByEquals, keepZero, ps, acc) == Merge(ByIdentity, keepZero, ps, acc)
    ensures AtMostOneZero(Merge(ByIdentity, keepZero, ps, acc))
    decreases |ps|
  {
    if ps != [] {
      var a := ps[0];
      var j := IndexOfDegree(acc, a.degree);
      var s := Step(ByIdentity, keepZero, acc, a);
      if j < |acc| {
        EqualIsFound(acc, j);
        RemoveAtZeros(acc, j);
        var r := RemoveAt(acc, j);
        assert s == Step(ByEquals, keepZero, acc, a);
        if a.coeff != acc[j].coeff * -1 {
          assert s == r + [Term(a.coeff + acc[j].coeff, a.degree)];
          assert forall i :: 0 <= i < |r| ==> s[i] == r[i];
        }
      } else if keepZero || a.coeff != 0 {
        assert a.coeff != 0;
        assert forall i :: 0 <= i < |acc| ==> s[i] == acc[i];
      }
      assert AtMostOneZero(s);
      assert keepZero ==> NoZeroTerms(ps[1..]) by {
        assert forall i :: 0 <= i < |ps[1..]| ==> ps[1..][i] == ps[i + 1];
      }
      MergeAgrees(keepZero, ps[1..], s);
    }
  }

  /**
   * When no accumulated term but the first can share a degree with the terms of this, as in
   * mul, where every add has a one-term q, remove-by-equals drops the very term it found.
   */
  lemma {:induction false} MergeFrontAgrees(keepZero: bool, ps: seq<Term>, acc: seq<Term>)
    requires Distinct(ps)
    requires forall i :: 1 <= i < |acc| ==> acc[i].degree !in Degrees(ps)
    ensures Merge(ByEquals, keepZero, ps, acc) == Merge(ByIdentity, keepZero, ps, acc)
    decreases |ps|
  {
    if ps != [] {
      var a := ps[0];
      var rest := ps[1..];
      assert a.degree in Degrees(ps);
      var j := IndexOfDegree(acc, a.degree);
      assert j == 0 || j == |acc|;
      if 0 < |acc| && j == 0 {
        assert IndexOfEqual(acc, acc[0]) == 0;
      }
      var s := Step(ByIdentity, keepZero, acc, a);
      assert Step(ByEquals, keepZero, acc, a) == s;
      assert Distinct(rest);
      assert a.degree !in Degrees(rest) by {
        forall i | 0 <= i < |rest| ensures rest[i].degree != a.degree {
          assert rest[i] == ps[i + 1];
        }
      }
      assert Degrees(rest) <= Degrees(ps) by {
        forall x | x in Degrees(rest) ensures x in Degrees(ps) {
          var i :| 0 <= i < |rest| && rest[i].degree == x;
          assert ps[i + 1] == rest[i];
        }
      }
      forall i | 1 <= i < |s| ensures s[i].degree !in Degrees(rest) {
        if j == |acc| {
          if i < |acc| { assert s[i] == acc[i]; } else { assert s[i] == a; }
        } else {
          var r := RemoveAt(acc, 0);
          assert r == acc[1..];
          if i < |r| { assert s[i] == acc[i + 1]; } else { assert s[i].degree == a.degree; }
        }
      }
      MergeFrontAgrees(keepZero, rest, s);
    }
  }

  /** The degrees add keeps: one side only, or both with a non-zero sum. */
  ghost predicate KeptDegrees(keepZero: bool, ps: seq<Term>, qs: seq<Term>, r: seq<Term>)
  {
    forall d: nat :: d in Degrees(r) <==>
      (d in Degrees(qs) && d !in Degrees(ps))
      || (d in Degrees(ps) && d !in Degrees(qs) && (keepZero || Sum(ps, d) != 0))
      || (d in Degrees(ps) && d in Degrees(qs) && Sum(ps, d) + Sum(qs, d) != 0)
  }

  /** Identity removal on distinct operands: distinct degrees, and exactly the kept ones. */
  lemma MergeIdentity(keepZero: bool, ps: seq<Term>, qs: seq<Term>)
    requires Distinct(ps) && Distinct(qs)
    ensures Distinct(Merge(ByIdentity, keepZero, ps, qs))
    ensures KeptDegrees(keepZero, ps, qs, Merge(ByIdentity, keepZero, ps, qs))
  {
    var m := Merge(ByIdentity, keepZero, ps, qs);
    forall d: nat ensures d in Degrees(m) <==>
      (d in Degrees(qs) && d !in Degrees(ps))
      || (d in Degrees(ps) && d !in Degrees(qs) && (keepZero || Sum(ps, d) != 0))
      || (d in Degrees(ps) && d in Degrees(qs) && Sum(ps, d) + Sum(qs, d) != 0)
    {
      MergeDegrees(keepZero, ps, qs, d);
    }
    MergeDegrees(keepZero, ps, qs, 0);
  }

  /** What add returns when the merged list keeps exactly the expected degrees. */
  lemma AddSpecKept(v: Variant, ps: seq<Term>, qs: seq<Term>)
    requires var m := Merge(v.removal, v.keepZero, ps, qs); Distinct(m) && KeptDegrees(v.keepZero, ps, qs, m)
    ensures var r := AddSpec(v, ps, qs);
            r.Ok? ==> Distinct(r.value)
                      && (KeptDegrees(v.keepZero, ps, qs, r.value)
                          || (r.value == Zero() && KeptDegrees(v.keepZero, ps, qs, [])))
    ensures var r := AddSpec(v, ps, qs);
            v.emptyRaises && r.Ok? ==> Distinct(r.value) && KeptDegrees(v.keepZero, ps, qs, r.value)
  {
  }

  lemma AddSpecIdentity(v: Variant, ps: seq<Term>, qs: seq<Term>)
    requires v.removal == ByIdentity && Distinct(ps) && Distinct(qs)
    ensures var r := AddSpec(v, ps, qs);
            r.Ok? ==> Distinct(r.value)
                      && (KeptDegrees(v.keepZero, ps, qs, r.value)
                          || (r.value == Zero() && KeptDegrees(v.keepZero, ps, qs, [])))
  {
    MergeIdentity(v.keepZero, ps, qs);
    AddSpecKept(v, ps, qs);
  }

  /** The same for remove-by-equals, when remove cannot pick the wrong zero term. */
  lemma AddSpecEquals(v: Variant, ps: seq<Term>, qs: seq<Term>)
    requires v.removal == ByEquals && Distinct(ps) && Distinct(qs)
    requires AtMostOneZero(qs) && (v.keepZero ==> NoZeroTerms(ps))
    ensures var r := AddSpec(v, ps, qs);
            r.Ok? ==> Distinct(r.value) && AtMostOneZero(r.value)
                      && (KeptDegrees(v.keepZero, ps, qs, r.value)
                          || (r.value == Zero() && KeptDegrees(v.keepZero, ps, qs, [])))
    ensures var r := AddSpec(v, ps, qs);
            v.emptyRaises && r.Ok? ==> Distinct(r.value) && KeptDegrees(v.keepZero, ps, qs, r.value)
  {
    MergeAgrees(v.keepZero, ps, qs);
    MergeIdentity(v.keepZero, ps, qs);
    AddSpecKept(v, ps, qs);
  }

  /** The two lists denote the same polynomial. */
  ghost predicate SamePoly(ps: seq<Term>, qs: seq<Term>)
  {
    forall d :: Sum(ps, d) == Sum(qs, d)
  }

  /** The two operands sum to the zero polynomial. */
  ghost predicate Cancel(ps: seq<Term>, qs: seq<Term>)
  {
    forall d :: Sum(ps, d) + Sum(qs, d) == 0
  }

  /** A degree held by a zero-free list with distinct degrees has a non-zero coefficient. */
  lemma SumPresent(ts: seq<Term>, d: int)
    requires Distinct(ts) && NoZeroTerms(ts) && d in Degrees(ts)
    ensures Sum(ts, d) != 0
  {
    var i :| 0 <= i < |ts| && ts[i].degree == d;
    SumRemoveAt(ts, i, d);
    DegreesRemoveAt(ts, i);
    SumAbsent(RemoveAt(ts, i), d);
  }

  lemma NoDegreesEmpty(ts: seq<Term>)
    ensures (forall d: nat :: d !in Degrees(ts)) ==> ts == []
  {
    if ts != [] {
      assert ts[0].degree in Degrees(ts);
    }
  }

  lemma CancelledMergeEmpty(keepZero: bool, ps: seq<Term>, qs: seq<Term>)
    requires Distinct(ps) && Distinct(qs) && NoZeroTerms(ps) && NoZeroTerms(qs)
    ensures Cancel(ps, qs) ==> Merge(ByIdentity, keepZero, ps, qs) == []
  {
    var m := Merge(ByIdentity, keepZero, ps, qs);
    NoDegreesEmpty(m);
    if Cancel(ps, qs) {
      NoDegreesOfCancelled(keepZero, ps, qs);
    }
  }

  lemma NoDegreesOfCancelled(keepZero: bool, ps: seq<Term>, qs: seq<Term>)
    requires Distinct(ps) && Distinct(qs) && NoZeroTerms(ps) && NoZeroTerms(qs)
    requires Cancel(ps, qs)
    ensures forall d: nat :: d !in Degrees(Merge(ByIdentity, keepZero, ps, qs))
  {
    var m := Merge(ByIdentity, keepZero, ps, qs);
    forall d: nat ensures d !in Degrees(m) {
      MergeDegrees(keepZero, ps, qs, d);
      if d in Degrees(ps) {
        SumPresent(ps, d);
      } else {
        SumAbsent(ps, d);
      }
      if d in Degrees(qs) {
        SumPresent(qs, d);
      } else {
        SumAbsent(qs, d);
      }
      assert Sum(ps, d) + Sum(qs, d) == 0;
    }
  }

  lemma EmptyMergeCancels(rm: Removal, keepZero: bool, ps: seq<Term>, qs: seq<Term>)
    ensures Merge(rm, keepZero, ps, qs) == [] ==> Cancel(ps, qs)
  {
    forall d ensures Sum(Merge(rm, keepZero, ps, qs), d) == Sum(ps, d) + Sum(qs, d) {
      MergeSum(rm, keepZero, ps, qs, d);
    }
  }

  /**
   * For zero-free operands with distinct degrees, the merged list is empty exactly when the
   * sum is the zero polynomial, so a raising constructor raises exactly on cancellation.
   */
  lemma AddSpecRaises(v: Variant, ps: seq<Term>, qs: seq<Term>)
    requires Distinct(ps) && Distinct(qs) && NoZeroTerms(ps) && NoZeroTerms(qs)
    ensures AddSpec(v, ps, qs).Err? <==> v.emptyRaises && Cancel(ps, qs)
  {
    var m := Merge(v.removal, v.keepZero, ps, qs);
    if v.removal == ByEquals {
      MergeAgrees(v.keepZero, ps, qs);
    }
    assert m == Merge(ByIdentity, v.keepZero, ps, qs);
    EmptyMergeCancels(v.removal, v.keepZero, ps, qs);
    CancelledMergeEmpty(v.keepZero, ps, qs);
  }

  /** Raising happens only when the sum is the zero polynomial. */
  lemma AddSpecRaisesOnZero(v: Variant, ps: seq<Term>, qs: seq<Term>)
    ensures AddSpec(v, ps, qs).Err? ==> Cancel(ps, qs)
  {
    EmptyMergeCancels(v.removal, v.keepZero, ps, qs);
  }

  // ---------------------------------------------------------------- minus

  function Negate(ts: seq<Term>): (r: seq<Term>)
    ensures |r| == |ts|
  {
    seq(|ts|, i requires 0 <= i < |ts| => NegateTerm(ts[i]))
  }

  /** minus's loop: the opposite of every term, in order. */
  method NegateLoop(ts: seq<Term>) returns (opposto: seq<Term>)
    ensures opposto == Negate(ts)
  {
    opposto := [];
    var i := 0;
    while i < |ts|
      invariant 0 <= i <= |ts| && opposto == Negate(ts[..i])
    {
      opposto := opposto + [NegateTerm(ts[i])];
      i := i + 1;
    }
    assert ts[..i] == ts;
  }

  lemma {:induction false} NegateSum(ts: seq<Term>, d: int)
    ensures Sum(Negate(ts), d) == -Sum(ts, d)
    decreases |ts|
  {
    if ts != [] {
      assert Negate(ts)[1..] == Negate(ts[1..]);
      NegateSum(ts[1..], d);
    }
  }

  lemma NegateDegrees(ts: seq<Term>)
    ensures Degrees(Negate(ts)) == Degrees(ts)
    ensures Distinct(ts) ==> Distinct(Negate(ts))
    ensures NoZeroTerms(ts) ==> NoZeroTerms(Negate(ts))
    ensures AtMostOneZero(ts) ==> AtMostOneZero(Negate(ts))
    ensures MaxDegree(Negate(ts)) == MaxDegree(ts)
  {
    var n := Negate(ts);
    assert forall i :: 0 <= i < |ts| ==> (n[i].coeff == 0 <==> ts[i].coeff == 0);
    assert forall i :: 0 <= i < |ts| ==> n[i].degree == ts[i].degree;
    MaxDegreeSameDegrees(n, ts);
  }

  lemma {:induction false} MaxDegreeSameDegrees(a: seq<Term>, b: seq<Term>)
    requires |a| == |b| && forall i :: 0 <= i < |a| ==> a[i].degree == b[i].degree
    ensures MaxDegree(a) == MaxDegree(b)
    decreases |a|
  {
    if a != [] {
      MaxDegreeSameDegrees(a[..|a| - 1], b[..|b| - 1]);
    }
  }

  // ---------------------------------------------------------------- mul

  /** The products of term a with every term of qs, in order. */
  function Row(a: Term, qs: seq<Term>): (r: seq<Term>)
    ensures |r| == |qs|
  {
    seq(|qs|, j requires 0 <= j < |qs| => Term(a.coeff * qs[j].coeff, a.degree + qs[j].degree))
  }

  /** All pairwise products, in the row-major order of mul's nested loops. */
  function Products(ps: seq<Term>, qs: seq<Term>): seq<Term>
    decreases |ps|
  {
    if ps == [] then [] else Row(ps[0], qs) + Products(ps[1..], qs)
  }

  /** The product's coefficient of x^d: the sum of c1 * c2 over term pairs with d1 + d2 = d. */
  function PairSum(a: Term, qs: seq<Term>, d: int): int
  {
    if qs == [] then 0
    else (if a.degree + qs[0].degree == d then a.coeff * qs[0].coeff else 0) + PairSum(a, qs[1..], d)
  }

  function SparseConv(ps: seq<Term>, qs: seq<Term>, d: int): int
  {
    if ps == [] then 0 else PairSum(ps[0], qs, d) + SparseConv(ps[1..], qs, d)
  }

  lemma {:induction false} RowSum(a: Term, qs: seq<Term>, d: int)
    ensures Sum(Row(a, qs), d) == PairSum(a, qs, d)
    decreases |qs|
  {
    if qs != [] {
      assert Row(a, qs)[1..] == Row(a, qs[1..]);
      RowSum(a, qs[1..], d);
    }
  }

  lemma {:induction false} ProductsSum(ps: seq<Term>, qs: seq<Term>, d: int)
    ensures Sum(Products(ps, qs), d) == SparseConv(ps, qs, d)
    decreases |ps|
  {
    if ps != [] {
      SumAppend(Row(ps[0], qs), Products(ps[1..], qs), d);
      RowSum(ps[0], qs, d);
      ProductsSum(ps[1..], qs, d);
    }
  }

  /** mul's accumulator: result = result.add(new Poly(c1 * c2, d1 + d2)) for each product; a raise ends it. */
  function MulFold(v: Variant, acc: Result<Terms>, ts: seq<Term>): Result<Terms>
    decreases |ts|
  {
    if acc.Err? || ts == [] then acc else MulFold(v, AddSpec(v, acc.value, [ts[0]]), ts[1..])
  }

  function MulSpec(v: Variant, ps: seq<Term>, qs: seq<Term>): Result<Terms>
  {
    MulFold(v, Ok([Term(0, 0)]), Products(ps, qs))
  }

  lemma {:induction false} MulFoldAppend(v: Variant, acc: Result<Terms>, t1: seq<Term>, t2: seq<Term>)
    ensures MulFold(v, acc, t1 + t2) == MulFold(v, MulFold(v, acc, t1), t2)
    decreases |t1|
  {
    if acc.Err? {
    } else if t1 == [] {
      assert t1 + t2 == t2;
    } else {
      assert (t1 + t2)[0] == t1[0] && (t1 + t2)[1..] == t1[1..] + t2;
      MulFoldAppend(v, AddSpec(v, acc.value, [t1[0]]), t1[1..], t2);
    }
  }

  /** mul's inner loop: add the products of one term of this with every term of q. */
  method AddRow(v: Variant, acc: Terms, actual: Term, qs: seq<Term>) returns (r: Result<Terms>)
    ensures r == MulFold(v, Ok(acc), Row(actual, qs))
  {
    var result := acc;
    var j := 0;
    while j < |qs|
      invariant 0 <= j <= |qs|
      invariant MulFold(v, Ok(result), Row(actual, qs)[j..]) == MulFold(v, Ok(acc), Row(actual, qs))
    {
      var t := Term(actual.coeff * qs[j].coeff, actual.degree + qs[j].degree);
      assert Row(actual, qs)[j..][0] == t && Row(actual, qs)[j..][1..] == Row(actual, qs)[j + 1..];
      var next := AddTerms(v, result, [t]);
      if next.Err? {
        return next;
      }
      result := next.value;
      j := j + 1;
    }
    r := Ok(result);
  }

  /** mul's nested loops, starting from new Poly(0, 0). */
  method MulTerms(v: Variant, ps: seq<Term>, qs: seq<Term>) returns (r: Result<Terms>)
    ensures r == MulSpec(v, ps, qs)
  {
    var result: Terms := [Term(0, 0)];
    var i := 0;
    while i < |ps|
      invariant 0 <= i <= |ps|
      invariant MulFold(v, Ok(result), Products(ps[i..], qs)) == MulSpec(v, ps, qs)
    {
      assert ps[i..][0] == ps[i] && ps[i..][1..] == ps[i + 1..];
      MulFoldAppend(v, Ok(result), Row(ps[i], qs), Products(ps[i + 1..], qs));
      var next := AddRow(v, result, ps[i], qs);
      if next.Err? {
        return next;
      }
      result := next.value;
      i := i + 1;
    }
    r := Ok(result);
  }

  /** When the accumulation completes, its coefficients are the pairwise product sums. */
  lemma {:induction false} MulFoldSum(v: Variant, acc: Terms, ts: seq<Term>, d: int)
    ensures MulFold(v, Ok(acc), ts).Ok? ==> Sum(MulFold(v, Ok(acc), ts).value, d) == Sum(acc, d) + Sum(ts, d)
    decreases |ts|
  {
    if ts != [] {
      var next := AddSpec(v, acc, [ts[0]]);
      AddSpecSum(v, acc, [ts[0]], d);
      if next.Ok? {
        MulFoldSum(v, next.value, ts[1..], d);
      }
    }
  }

  lemma MulSpecSum(v: Variant, ps: seq<Term>, qs: seq<Term>, d: int)
    ensures MulSpec(v, ps, qs).Ok? ==> Sum(MulSpec(v, ps, qs).value, d) == SparseConv(ps, qs, d)
  {
    MulFoldSum(v, [Term(0, 0)], Products(ps, qs), d);
    ProductsSum(ps, qs, d);
  }

  /** A variant whose private constructor accepts the empty list never raises in mul. */
  lemma {:induction false} MulFoldTotal(v: Variant, acc: Terms, ts: seq<Term>)
    requires !v.emptyRaises
    ensures MulFold(v, Ok(acc), ts).Ok?
    decreases |ts|
  {
    if ts != [] {
      MulFoldTotal(v, AddSpec(v, acc, [ts[0]]).value, ts[1..]);
    }
  }

  /** The only exception mul can raise is the constructor's. */
  lemma {:induction false} MulFoldError(v: Variant, acc: Terms, ts: seq<Term>)
    ensures MulFold(v, Ok(acc), ts).Err? ==> MulFold(v, Ok(acc), ts).error == IllegalArgumentException
    decreases |ts|
  {
    if ts != [] {
      var next := AddSpec(v, acc, [ts[0]]);
      if next.Ok? {
        MulFoldError(v, next.value, ts[1..]);
      }
    }
  }

  /** Identity removal keeps the product's degrees distinct. */
  lemma {:induction false} MulFoldDistinct(v: Variant, acc: Terms, ts: seq<Term>)
    requires v.removal == ByIdentity && Distinct(acc)
    ensures MulFold(v, Ok(acc), ts).Ok? ==> Distinct(MulFold(v, Ok(acc), ts).value)
    decreases |ts|
  {
    if ts != [] {
      MergeDegrees(v.keepZero, acc, [ts[0]], 0);
      var next := AddSpec(v, acc, [ts[0]]);
      if next.Ok? {
        MulFoldDistinct(v, next.value, ts[1..]);
      }
    }
  }

  /**
   * Remove-by-equals also keeps the product's degrees distinct: each add of mul has a one-term q,
   * so remove drops the term it found (MergeFrontAgrees).
   */
  lemma {:induction false} MulFoldDistinctEquals(v: Variant, acc: Terms, ts: seq<Term>)
    requires v.removal == ByEquals && Distinct(acc)
    ensures MulFold(v, Ok(acc), ts).Ok? ==> Distinct(MulFold(v, Ok(acc), ts).value)
    decreases |ts|
  {
    if ts != [] {
      MergeFrontAgrees(v.keepZero, acc, [ts[0]]);
      MergeIdentity(v.keepZero, acc, [ts[0]]);
      var next := AddSpec(v, acc, [ts[0]]);
      if next.Ok? {
        MulFoldDistinctEquals(v, next.value, ts[1..]);
      }
    }
  }

  // ---------------------------------------------------------------- equals

  /** What the equals loops compare: the degree, then the coefficients of every degree stored in both. */
  ghost predicate EqualsSpec(ps: seq<Term>, qs: seq<Term>)
  {
    MaxDegree(ps) == MaxDegree(qs)
    && forall i, j :: 0 <= i < |ps| && 0 <= j < |qs| && ps[i].degree == qs[j].degree ==> ps[i].coeff == qs[j].coeff
  }

  /** Poly.equals of e04/05, e05/05 and t10/02. */
  method EqualsLoop(ps: seq<Term>, qs: seq<Term>) returns (b: bool)
    ensures b <==> EqualsSpec(ps, qs)
  {
    var dq := DegreeOf(qs);
    var dp := DegreeOf(ps);
    if dq != dp {
      return false;
    }
    var i := 0;
    while i < |ps|
      invariant 0 <= i <= |ps|
      invariant forall a, c :: 0 <= a < i && 0 <= c < |qs| && ps[a].degree == qs[c].degree ==> ps[a].coeff == qs[c].coeff
    {
      var j := 0;
      while j < |qs|
        invariant 0 <= j <= |qs|
        invariant forall c :: 0 <= c < j && ps[i].degree == qs[c].degree ==> ps[i].coeff == qs[c].coeff
      {
        if Similar(ps[i], qs[j]) && ps[i].coeff != qs[j].coeff {
          return false;
        }
        j := j + 1;
      }
      i := i + 1;
    }
    b := true;
  }

  /** equals compares only degrees stored in both: 3 + x^2, as Poly(3, 0).add(Poly(1, 2)) stores it, equals x^2. */
  lemma EqualsIgnoresUnsharedDegrees()
    ensures EqualsSpec([Term(1, 2), Term(3, 0)], [Term(1, 2)])
    ensures Sum([Term(1, 2), Term(3, 0)], 0) == 3 && Sum([Term(1, 2)], 0) == 0
  {
    var ps, qs := [Term(1, 2), Term(3, 0)], [Term(1, 2)];
    assert ps[..1] == qs;
    assert MaxDegree(qs) == 2;
    assert MaxDegree(ps) == 2;
  }

  /** The corrected equals: coeff(d) agrees at every degree up to the larger of the two degrees. */
  method EqualsByDegree(ps: seq<Term>, qs: seq<Term>) returns (b: bool)
    ensures b <==> forall d :: 0 <= d <= MaxDegree(ps) || 0 <= d <= MaxDegree(qs) ==> Stored(ps, d) == Stored(qs, d)
    ensures Distinct(ps) && Distinct(qs) ==> (b <==> forall d :: Sum(ps, d) == Sum(qs, d))
  {
    var dp := DegreeOf(ps);
    var dq := DegreeOf(qs);
    var top := if dp < dq then dq else dp;
    var k := 0;
    while k <= top
      invariant 0 <= k <= top + 1
      invariant forall e :: 0 <= e < k ==> Stored(ps, e) == Stored(qs, e)
    {
      if Stored(ps, k) != Stored(qs, k) {
        if Distinct(ps) && Distinct(qs) {
          StoredIsSum(ps, k);
          StoredIsSum(qs, k);
          NotEverywhereEqual(ps, qs, k);
        }
        DisagreeAt(ps, qs, k);
        return false;
      }
      k := k + 1;
    }
    if Distinct(ps) && Distinct(qs) {
      AgreeingStoredIsEqual(ps, qs, top);
    }
    b := true;
  }

  /** With distinct degrees, agreeing coefficients up to both degrees make the same polynomial. */
  lemma AgreeingStoredIsEqual(ps: seq<Term>, qs: seq<Term>, top: nat)
    requires Distinct(ps) && Distinct(qs) && MaxDegree(ps) <= top && MaxDegree(qs) <= top
    requires forall e :: 0 <= e <= top ==> Stored(ps, e) == Stored(qs, e)
    ensures forall d :: Sum(ps, d) == Sum(qs, d)
  {
    forall d ensures Sum(ps, d) == Sum(qs, d) {
      if 0 <= d <= top {
        StoredIsSum(ps, d);
        StoredIsSum(qs, d);
      } else {
        AbsentAbove(ps, d);
        AbsentAbove(qs, d);
      }
    }
  }

  lemma DisagreeAt(ps: seq<Term>, qs: seq<Term>, k: int)
    requires 0 <= k <= MaxDegree(ps) || 0 <= k <= MaxDegree(qs)
    requires Stored(ps, k) != Stored(qs, k)
    ensures !(forall d :: 0 <= d <= MaxDegree(ps) || 0 <= d <= MaxDegree(qs) ==> Stored(ps, d) == Stored(qs, d))
  {
  }

  lemma NotEverywhereEqual(ps: seq<Term>, qs: seq<Term>, k: int)
    requires Sum(ps, k) != Sum(qs, k)
    ensures !(forall d :: Sum(ps, d) == Sum(qs, d))
  {
  }

  lemma AbsentAbove(ts: seq<Term>, d: int)
    requires d < 0 || d > MaxDegree(ts)
    ensures Sum(ts, d) == 0
  {
    MaxDegreeIsMax(ts);
    assert forall i :: 0 <= i < |ts| ==> ts[i].degree != d;
    SumAbsent(ts, d);
  }
}
