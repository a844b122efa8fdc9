/**
 * The astronomical system of e07/04 (SistemaAstronomico.java): a list of bodies that interact
 * pairwise, then move, and that can be listed in name order.
 *
 * What a step does to the bodies is stated on the values of their fields (`Body`): `Sweep` applies
 * the pairwise interactions in the order the nested loops perform them, `Moved` moves every body
 * by its speed.
 */
module SistemaAstronomico {
  import opened Punto
  import opened CorpoCeleste

  /** The loop pairs (i, a), ..., (i, b - 1) of one row, in loop order. */
  function Row(i: int, a: int, b: int): seq<(int, int)>
    decreases b - a
  {
    if b <= a then [] else Row(i, a, b - 1) + [(i, b - 1)]
  }

  /** The pairs of rows 0, ..., i - 1 of a list of n bodies: row r pairs r with r + 1, ..., n - 1. */
  function RowsBefore(i: int, n: int): seq<(int, int)>
    decreases i
  {
    if i <= 0 then [] else RowsBefore(i - 1, n) + Row(i - 1, i, n)
  }

  /** The pairs updateSpeed interacts for n bodies: the outer loop runs i over 0, ..., n - 2. */
  function Interactions(n: nat): seq<(int, int)>
  {
    RowsBefore(n - 1, n)
  }

  /** Row-major order of index pairs. */
  predicate RowMajorBefore(p: (int, int), q: (int, int))
  {
    p.0 < q.0 || (p.0 == q.0 && p.1 < q.1)
  }

  /** Pairs in strictly ascending row-major order. */
  predicate RowMajorSorted(s: seq<(int, int)>)
  {
    forall k, l :: 0 <= k < l < |s| ==> RowMajorBefore(s[k], s[l])
  }

  lemma {:induction false} RowMembers(i: int, a: int, b: int)
    ensures forall p: (int, int) :: p in Row(i, a, b) <==> p.0 == i && a <= p.1 < b
    decreases b - a
  {
    if a < b {
      RowMembers(i, a, b - 1);
    }
  }

  lemma {:induction false} RowSorted(i: int, a: int, b: int)
    ensures RowMajorSorted(Row(i, a, b))
    decreases b - a
  {
    if a < b {
      RowSorted(i, a, b - 1);
      RowMembers(i, a, b - 1);
      var front := Row(i, a, b - 1);
      forall k | 0 <= k < |front|
        ensures RowMajorBefore(front[k], (i, b - 1))
      {
        assert front[k] in front;
      }
      SortedConcat(front, [(i, b - 1)]);
    }
  }

  /** Two ascending runs, the first wholly before the second, make one ascending run. */
  lemma SortedConcat(s: seq<(int, int)>, t: seq<(int, int)>)
    requires RowMajorSorted(s) && RowMajorSorted(t)
    requires forall k, l :: 0 <= k < |s| && 0 <= l < |t| ==> RowMajorBefore(s[k], t[l])
    ensures RowMajorSorted(s + t)
  {
    forall k, l | 0 <= k < l < |s + t|
      ensures RowMajorBefore((s + t)[k], (s + t)[l])
    {
      if l < |s| {
        assert (s + t)[k] == s[k] && (s + t)[l] == s[l];
      } else if k < |s| {
        assert (s + t)[k] == s[k] && (s + t)[l] == t[l - |s|];
      } else {
        assert (s + t)[k] == t[k - |s|] && (s + t)[l] == t[l - |s|];
      }
    }
  }

  lemma {:induction false} RowsBeforeMembers(i: int, n: int)
    ensures forall p: (int, int) :: p in RowsBefore(i, n) <==> 0 <= p.0 < i && p.0 < p.1 < n
    decreases i
  {
    if i > 0 {
      RowsBeforeMembers(i - 1, n);
      RowMembers(i - 1, i, n);
    }
  }

  lemma {:induction false} RowsBeforeSorted(i: int, n: int)
    ensures RowMajorSorted(RowsBefore(i, n))
    decreases i
  {
    if i > 0 {
      var front := RowsBefore(i - 1, n);
      var row := Row(i - 1, i, n);
      RowsBeforeSorted(i - 1, n);
      RowsBeforeMembers(i - 1, n);
      RowSorted(i - 1, i, n);
      RowMembers(i - 1, i, n);
      forall k, l | 0 <= k < |front| && 0 <= l < |row|
        ensures RowMajorBefore(front[k], row[l])
      {
        assert front[k] in front && row[l] in row;
      }
      SortedConcat(front, row);
    }
  }

  /**
   * updateSpeed interacts every pair i < j of the n bodies, and each exactly once: the pairs come
   * in strictly ascending row-major order.
   */
  lemma InteractionsExactlyOnce(n: nat)
    ensures forall p: (int, int) :: p in Interactions(n) <==> 0 <= p.0 < p.1 < n
    ensures RowMajorSorted(Interactions(n))
  {
    RowsBeforeMembers(n - 1, n);
    RowsBeforeSorted(n - 1, n);
  }

  /** Every body's fields are as its kind allows. */
  predicate AllOk(bs: seq<Body>)
  {
    forall k :: 0 <= k < |bs| ==> BodyOk(bs[k])
  }

  /** body[i].interact(body[j]) for two distinct positions i < j of the list. */
  function InteractAt(bs: seq<Body>, p: (int, int)): (r: seq<Body>)
    ensures |r| == |bs|
  {
    if 0 <= p.0 < p.1 < |bs| then
      var q := Interaction(bs[p.0], bs[p.1]);
      bs[p.0 := q.0][p.1 := q.1]
    else
      bs
  }

  /** The interactions of the pairs ps, in order. */
  function Sweep(bs: seq<Body>, ps: seq<(int, int)>): (r: seq<Body>)
    ensures |r| == |bs|
    decreases |ps|
  {
    if ps == [] then bs else InteractAt(Sweep(bs, ps[..|ps| - 1]), ps[|ps| - 1])
  }

  /** Interactions change no body's kind, name or position, and keep every fixed star at rest. */
  lemma {:induction false} SweepKeeps(bs: seq<Body>, ps: seq<(int, int)>)
    ensures forall k :: 0 <= k < |bs| ==>
      Sweep(bs, ps)[k].kind == bs[k].kind && Sweep(bs, ps)[k].nome == bs[k].nome &&
      Sweep(bs, ps)[k].coordinate == bs[k].coordinate
    ensures AllOk(bs) ==> AllOk(Sweep(bs, ps))
    decreases |ps|
  {
    if ps != [] {
      SweepKeeps(bs, ps[..|ps| - 1]);
    }
  }

  /** Row i starts empty and, done to the end, extends the rows before it to the rows before i + 1. */
  lemma RowStart(i: int, n: int)
    requires 0 <= i
    ensures RowsBefore(i, n) + Row(i, i + 1, i + 1) == RowsBefore(i, n)
    ensures RowsBefore(i + 1, n) == RowsBefore(i, n) + Row(i, i + 1, n)
  {
  }

  lemma RowSnoc(i: int, j: int, n: int)
    requires i + 1 <= j
    ensures RowsBefore(i, n) + Row(i, i + 1, j + 1) == RowsBefore(i, n) + Row(i, i + 1, j) + [(i, j)]
  {
  }

  lemma SweepSnoc(bs: seq<Body>, ps: seq<(int, int)>, p: (int, int))
    ensures Sweep(bs, ps + [p]) == InteractAt(Sweep(bs, ps), p)
  {
    assert (ps + [p])[..|ps|] == ps;
  }

  /** move: every body moved by its speed. */
  function Moved(bs: seq<Body>): (r: seq<Body>)
    ensures |r| == |bs| && forall k :: 0 <= k < |bs| ==> r[k] == Simulated(bs[k])
  {
    seq(|bs|, k requires 0 <= k < |bs| => Simulated(bs[k]))
  }

  /** Moving the body at k next extends the moved prefix by one. */
  lemma MovedStep(bs: seq<Body>, k: int)
    requires 0 <= k < |bs|
    ensures (Moved(bs[..k]) + bs[k..])[k := Simulated(bs[k])] == Moved(bs[..k + 1]) + bs[k + 1..]
  {
    var l := (Moved(bs[..k]) + bs[k..])[k := Simulated(bs[k])];
    var r := Moved(bs[..k + 1]) + bs[k + 1..];
    assert |l| == |r|;
    forall m | 0 <= m < |l|
      ensures l[m] == r[m]
    {
      if m < k {
        assert l[m] == Moved(bs[..k])[m] == Simulated(bs[m]);
      } else if m > k {
        assert l[m] == bs[k..][m - k] == bs[m];
      }
    }
  }

  /** A fixed star does not move, and nothing but the positions changes. */
  lemma MovedStarsStay(bs: seq<Body>, k: int)
    requires AllOk(bs) && 0 <= k < |bs| && bs[k].kind == StellaFissa
    ensures Moved(bs)[k] == bs[k]
  {
  }

  /** The sum of all speeds. */
  function SpeedSum(bs: seq<Body>): Punto
  {
    if bs == [] then Origin else Plus(SpeedSum(bs[..|bs| - 1]), bs[|bs| - 1].speed)
  }

  lemma {:induction false} SpeedSumUpdate(bs: seq<Body>, i: int, b: Body)
    requires 0 <= i < |bs|
    ensures SpeedSum(bs[i := b]) == Plus(Minus(SpeedSum(bs), bs[i].speed), b.speed)
    decreases |bs|
  {
    var n := |bs| - 1;
    assert bs[i := b][..n] == if i < n then bs[..n][i := b] else bs[..n];
    if i < n {
      SpeedSumUpdate(bs[..n], i, b);
    }
  }

  /** In a system of planets only, an interaction keeps the summed speed. */
  lemma InteractAtKeepsSpeedSum(bs: seq<Body>, p: (int, int))
    requires forall k :: 0 <= k < |bs| ==> bs[k].kind == Pianeta
    ensures SpeedSum(InteractAt(bs, p)) == SpeedSum(bs)
  {
    if 0 <= p.0 < p.1 < |bs| {
      var q := Interaction(bs[p.0], bs[p.1]);
      PlanetsKeepSpeedSum(bs[p.0], bs[p.1]);
      SpeedSumUpdate(bs, p.0, q.0);
      SpeedSumUpdate(bs[p.0 := q.0], p.1, q.1);
    }
  }

  /** In a system of planets only, updateSpeed keeps the summed speed. */
  lemma {:induction false} SweepKeepsSpeedSum(bs: seq<Body>, ps: seq<(int, int)>)
    requires forall k :: 0 <= k < |bs| ==> bs[k].kind == Pianeta
    ensures SpeedSum(Sweep(bs, ps)) == SpeedSum(bs)
    decreases |ps|
  {
    if ps != [] {
      SweepKeepsSpeedSum(bs, ps[..|ps| - 1]);
      SweepKeeps(bs, ps[..|ps| - 1]);
      InteractAtKeepsSpeedSum(Sweep(bs, ps[..|ps| - 1]), ps[|ps| - 1]);
    }
  }

  function Sum(xs: seq<nat>): nat
  {
    if xs == [] then 0 else Sum(xs[..|xs| - 1]) + xs[|xs| - 1]
  }

  /** A sum of natural numbers is zero exactly when every term is. */
  lemma {:induction false} SumZero(xs: seq<nat>)
    ensures Sum(xs) == 0 <==> forall k :: 0 <= k < |xs| ==> xs[k] == 0
    decreases |xs|
  {
    if xs != [] {
      var n := |xs| - 1;
      SumZero(xs[..n]);
      assert forall k :: 0 <= k < n ==> xs[..n][k] == xs[k];
    }
  }

  /** The energies of the bodies, in list order. */
  function EnergyList(bs: seq<Body>): (r: seq<nat>)
    ensures |r| == |bs| && forall k :: 0 <= k < |bs| ==> r[k] == Energy(bs[k])
  {
    seq(|bs|, k requires 0 <= k < |bs| => Energy(bs[k]))
  }

  /** The total energy is zero exactly when every body is at rest or at the origin. */
  lemma TotalEnergyZero(bs: seq<Body>)
    ensures Sum(EnergyList(bs)) == 0 <==>
      forall k :: 0 <= k < |bs| ==> bs[k].speed == Origin || bs[k].coordinate == Origin
  {
    var energies := EnergyList(bs);
    SumZero(energies);
    assert forall k :: 0 <= k < |bs| ==> (energies[k] == 0 <==> bs[k].speed == Origin || bs[k].coordinate == Origin);
  }

  /** Java's String.compareTo: the first differing characters decide, otherwise the lengths. */
  function CompareTo(a: string, b: string): int
  {
    if a == [] || b == [] then |a| - |b|
    else if a[0] != b[0] then a[0] as int - b[0] as int
    else CompareTo(a[1..], b[1..])
  }

  /** compareTo is antisymmetric, and zero exactly on equal strings. */
  lemma {:induction false} CompareToFacts(a: string, b: string)
    ensures CompareTo(b, a) == -CompareTo(a, b)
    ensures CompareTo(a, b) == 0 <==> a == b
    decreases |a|
  {
    if a != [] && b != [] && a[0] == b[0] {
      CompareToFacts(a[1..], b[1..]);
      assert a == [a[0]] + a[1..] && b == [b[0]] + b[1..];
    }
  }

  predicate NameOrdered(s: seq<CorpoCeleste>)
  {
    forall k :: 0 <= k < |s| - 1 ==> CompareTo(s[k].nome, s[k + 1].nome) <= 0
  }

  predicate Distinct(s: seq<CorpoCeleste>)
  {
    forall k, l :: 0 <= k < l < |s| ==> s[k] != s[l]
  }

  /** Insertion into a name-ordered list, in front of the bodies with the same name. */
  function Insert(x: CorpoCeleste, s: seq<CorpoCeleste>): (r: seq<CorpoCeleste>)
    ensures multiset(r) == multiset(s) + multiset{x}
    ensures s != [] ==> r[0] == x || r[0] == s[0]
    ensures s == [] ==> r == [x]
  {
    if s == [] then [x]
    else if CompareTo(x.nome, s[0].nome) <= 0 then [x] + s
    else
      assert s == [s[0]] + s[1..];
      [s[0]] + Insert(x, s[1..])
  }

  lemma {:induction false} InsertOrdered(x: CorpoCeleste, s: seq<CorpoCeleste>)
    requires NameOrdered(s)
    ensures NameOrdered(Insert(x, s))
    decreases |s|
  {
    if s != [] && CompareTo(x.nome, s[0].nome) > 0 {
      CompareToFacts(x.nome, s[0].nome);
      var rest := Insert(x, s[1..]);
      InsertOrdered(x, s[1..]);
      assert ([s[0]] + rest)[1..] == rest;
      assert rest[0] == x || rest[0] == s[1];
    }
  }

  /** A list with no repeated body keeps none when a new body goes in front. */
  lemma DistinctCons(y: CorpoCeleste, t: seq<CorpoCeleste>)
    requires Distinct(t) && y !in t
    ensures Distinct([y] + t)
  {
    forall k, l | 0 <= k < l < |t| + 1
      ensures ([y] + t)[k] != ([y] + t)[l]
    {
      assert ([y] + t)[l] == t[l - 1];
      if k > 0 {
        assert ([y] + t)[k] == t[k - 1];
      }
    }
  }

  /** The tail of a list with no repeated body has none, and lacks the head. */
  lemma DistinctTail(s: seq<CorpoCeleste>)
    requires Distinct(s) && s != []
    ensures Distinct(s[1..]) && s[0] !in s[1..]
  {
    forall k | 0 <= k < |s| - 1
      ensures s[1..][k] != s[0]
    {
      assert s[1..][k] == s[k + 1];
    }
  }

  lemma {:induction false} InsertDistinct(x: CorpoCeleste, s: seq<CorpoCeleste>)
    requires Distinct(s) && x !in s
    ensures Distinct(Insert(x, s))
    decreases |s|
  {
    if s == [] {
    } else if CompareTo(x.nome, s[0].nome) <= 0 {
      DistinctCons(x, s);
    } else {
      DistinctTail(s);
      assert x !in s[1..];
      InsertDistinct(x, s[1..]);
      assert s[0] !in multiset(Insert(x, s[1..]));
      DistinctCons(s[0], Insert(x, s[1..]));
    }
  }

  /** The list sorted by name (Collections.sort with the name comparator): a name-ordered permutation. */
  function SortByName(s: seq<CorpoCeleste>): (r: seq<CorpoCeleste>)
    ensures multiset(r) == multiset(s)
    ensures NameOrdered(r)
    ensures Distinct(s) ==> Distinct(r)
  {
    if s == [] then []
    else
      assert s == [s[0]] + s[1..];
      var rest := SortByName(s[1..]);
      InsertOrdered(s[0], rest);
      if Distinct(s) then
        DistinctTail(s);
        assert s[0] !in multiset(rest);
        InsertDistinct(s[0], rest);
        Insert(s[0], rest)
      else
        Insert(s[0], rest)
  }

  /** The bodies of s named nm, in their order in s. */
  function Named(s: seq<CorpoCeleste>, nm: string): seq<CorpoCeleste>
  {
    if s == [] then []
    else (if s[0].nome == nm then [s[0]] else []) + Named(s[1..], nm)
  }

  /** Insertion passes only bodies with other names, so x lands in front of its namesakes. */
  lemma {:induction false} InsertNamed(x: CorpoCeleste, s: seq<CorpoCeleste>, nm: string)
    ensures Named(Insert(x, s), nm) == (if x.nome == nm then [x] else []) + Named(s, nm)
    decreases |s|
  {
    if s != [] && CompareTo(x.nome, s[0].nome) > 0 {
      CompareToFacts(x.nome, s[0].nome);
      InsertNamed(x, s[1..], nm);
      assert ([s[0]] + Insert(x, s[1..]))[1..] == Insert(x, s[1..]);
    } else if s != [] {
      assert ([x] + s)[1..] == s;
    }
  }

  /** The sort is stable: bodies with equal names keep their relative order. */
  lemma {:induction false} SortByNameStable(s: seq<CorpoCeleste>, nm: string)
    ensures Named(SortByName(s), nm) == Named(s, nm)
    decreases |s|
  {
    if s != [] {
      SortByNameStable(s[1..], nm);
      InsertNamed(s[0], SortByName(s[1..]), nm);
    }
  }

  /** The values of the bodies' fields, in list order. */
  ghost function Snap(bs: seq<CorpoCeleste>): (r: seq<Body>)
    reads bs
    ensures |r| == |bs| && forall k :: 0 <= k < |bs| ==> r[k] == bs[k].Value()
  {
    if bs == [] then [] else Snap(bs[..|bs| - 1]) + [bs[|bs| - 1].Value()]
  }

  /** Each body appears once in the list and keeps its own invariant. */
  ghost predicate Members(bs: seq<CorpoCeleste>)
    reads bs
  {
    Distinct(bs) && forall k :: 0 <= k < |bs| ==> bs[k].Valid()
  }

  /** body[i].interact(body[j]) for two positions i < j. */
  method InteractPair(bs: seq<CorpoCeleste>, i: int, j: int)
    requires Members(bs) && 0 <= i < j < |bs|
    modifies bs
    ensures Members(bs)
    ensures Snap(bs) == InteractAt(old(Snap(bs)), (i, j))
  {
    var s := bs[i].Interact(bs[j]);
    forall k | 0 <= k < |bs|
      ensures Snap(bs)[k] == InteractAt(old(Snap(bs)), (i, j))[k]
    {
      assert bs[k] == bs[i] <==> k == i;
      assert bs[k] == bs[j] <==> k == j;
    }
  }

  /** One row of updateSpeed: body[i].interact(body[j]) for j = i + 1, ..., n - 1. */
  method InteractRow(bs: seq<CorpoCeleste>, i: int, ghost start: seq<Body>)
    requires Members(bs) && 0 <= i < |bs| - 1
    requires |start| == |bs| && Snap(bs) == Sweep(start, RowsBefore(i, |bs|))
    modifies bs
    ensures Members(bs)
    ensures Snap(bs) == Sweep(start, RowsBefore(i + 1, |bs|))
  {
    var n := |bs|;
    var j := i + 1;
    ghost var done := RowsBefore(i, n);
    RowStart(i, n);
    while j < n
      invariant i + 1 <= j <= n
      invariant Members(bs)
      invariant done == RowsBefore(i, n) + Row(i, i + 1, j)
      invariant Snap(bs) == Sweep(start, done)
    {
      InteractPair(bs, i, j);
      SweepSnoc(start, done, (i, j));
      RowSnoc(i, j, n);
      done := done + [(i, j)];
      j := j + 1;
    }
    assert j == n;
    assert done == RowsBefore(i + 1, n);
  }

  /** The outer loop of updateSpeed stops at row n - 1, or at once for an empty list. */
  lemma LastRow(i: int, n: nat)
    requires 0 <= i <= n && !(i < n - 1) && (n > 0 ==> i <= n - 1)
    ensures RowsBefore(i, n) == Interactions(n)
  {
  }

  /** The nested loops of updateSpeed over the list bs. */
  method InteractAll(bs: seq<CorpoCeleste>, ghost start: seq<Body>)
    requires Members(bs) && Snap(bs) == start
    modifies bs
    ensures Members(bs)
    ensures Snap(bs) == Sweep(start, Interactions(|bs|))
  {
    var n := |bs|;
    var i := 0;
    while i < n - 1
      invariant 0 <= i <= n == |start|
      invariant n > 0 ==> i <= n - 1
      invariant Members(bs)
      invariant Snap(bs) == Sweep(start, RowsBefore(i, n))
    {
      InteractRow(bs, i, start);
      i := i + 1;
    }
    LastRow(i, n);
  }

  /** simulate on the body at position k; no other body changes. */
  method SimulateAt(bs: seq<CorpoCeleste>, k: int)
    requires Members(bs) && 0 <= k < |bs|
    modifies bs
    ensures Members(bs)
    ensures Snap(bs) == old(Snap(bs))[k := Simulated(old(Snap(bs))[k])]
  {
    bs[k].Simulate();
    forall m | 0 <= m < |bs|
      ensures Snap(bs)[m] == old(Snap(bs))[k := Simulated(old(Snap(bs))[k])][m]
    {
      assert bs[m] == bs[k] <==> m == k;
    }
  }

  /** The loop of move over the list bs. */
  method SimulateAll(bs: seq<CorpoCeleste>)
    requires Members(bs)
    modifies bs
    ensures Members(bs)
    ensures Snap(bs) == Moved(old(Snap(bs)))
  {
    ghost var start := Snap(bs);
    var k := 0;
    while k < |bs|
      invariant 0 <= k <= |bs| == |start|
      invariant Members(bs)
      invariant Snap(bs) == Moved(start[..k]) + start[k..]
    {
      SimulateAt(bs, k);
      MovedStep(start, k);
      k := k + 1;
    }
    assert start[..k] == start;
  }

  class SistemaAstronomico {
    var corpiCelesti: seq<CorpoCeleste>
    const name: string

    /** Each body appears once in the list and keeps its own invariant. */
    ghost predicate Valid()
      reads this, corpiCelesti
    {
      Members(corpiCelesti)
    }

    ghost function Bodies(): seq<Body>
      reads this, corpiCelesti
    {
      Snap(corpiCelesti)
    }

    constructor (name: string, corpiCelesti: seq<CorpoCeleste>)
      ensures this.name == name && this.corpiCelesti == corpiCelesti
    {
      this.name := name;
      this.corpiCelesti := corpiCelesti;
    }

    /** updateStatus: all interactions, then all moves. */
    method UpdateStatus()
      requires Valid()
      modifies corpiCelesti
      ensures Valid()
      ensures Bodies() == Moved(Sweep(old(Bodies()), Interactions(|corpiCelesti|)))
    {
      UpdateSpeed();
      Move();
    }

    /** updateSpeed: body[i].interact(body[j]) for i < j, row by row. */
    method UpdateSpeed()
      requires Valid()
      modifies corpiCelesti
      ensures Valid()
      ensures Bodies() == Sweep(old(Bodies()), Interactions(|corpiCelesti|))
    {
      InteractAll(corpiCelesti, Bodies());
    }

    /** move: simulate on every body, in list order. */
    method Move()
      requires Valid()
      modifies corpiCelesti
      ensures Valid()
      ensures Bodies() == Moved(old(Bodies()))
    {
      SimulateAll(corpiCelesti);
    }

    /** totalEnergy: the sum of getEnergia over all bodies. */
    method TotalEnergy() returns (e: int)
      ensures e == Sum(EnergyList(Bodies()))
    {
      var bodies := corpiCelesti;
      ghost var energies := EnergyList(Snap(bodies));
      e := 0;
      var k := 0;
      while k < |bodies|
        invariant 0 <= k <= |bodies|
        invariant e == Sum(energies[..k])
      {
        var energy := bodies[k].GetEnergia();
        assert energies[..k + 1][..k] == energies[..k];
        e := e + energy;
        k := k + 1;
      }
      assert energies[..k] == energies;
    }

    /** nameSortedIterator: sorts the list by name in place and then lists it in that order. */
    method NameSortedIterator() returns (it: seq<CorpoCeleste>)
      requires Valid()
      modifies this
      ensures corpiCelesti == SortByName(old(corpiCelesti)) && it == corpiCelesti
      ensures multiset(corpiCelesti) == multiset(old(corpiCelesti)) && NameOrdered(it)
      ensures Valid()
    {
      corpiCelesti := SortByName(corpiCelesti);
      forall k | 0 <= k < |corpiCelesti|
        ensures corpiCelesti[k].Valid()
      {
        assert corpiCelesti[k] in multiset(old(corpiCelesti));
      }
      it := corpiCelesti;
    }

    /** iterator: the name-sorted iterator. */
    method Iterator() returns (it: seq<CorpoCeleste>)
      requires Valid()
      modifies this
      ensures corpiCelesti == SortByName(old(corpiCelesti)) && it == corpiCelesti
      ensures Valid()
    {
      it := NameSortedIterator();
    }
  }
}
