/**
 * The points of space of e07/04 (Punto.java): three integer coordinates, immutable, with a sum,
 * a difference, a norm, equality and a hash.
 */
module Punto {
  import opened JavaInt

  datatype Punto = Punto(x: int, y: int, z: int)

  const Origin := Punto(0, 0, 0)

  function Abs(v: int): (r: nat)
    ensures r == v || r == -v
  {
    if v > 0 then v else -v
  }

  /** somma as written: its third component adds the y coordinates, not the z ones. */
  function Somma(p: Punto, q: Punto): (r: Punto)
    ensures r.x == p.x + q.x && r.y == p.y + q.y
  {
    Punto(p.x + q.x, p.y + q.y, p.y + q.y)
  }

  /** sottrazione as written: its third component subtracts the y coordinates, not the z ones. */
  function Sottrazione(p: Punto, q: Punto): (r: Punto)
    ensures r.x == p.x - q.x && r.y == p.y - q.y
  {
    Punto(p.x - q.x, p.y - q.y, p.y - q.y)
  }

  /** The sum the documentation of somma promises: component by component. */
  function Plus(p: Punto, q: Punto): (r: Punto)
    ensures Minus(r, q) == p
  {
    Punto(p.x + q.x, p.y + q.y, p.z + q.z)
  }

  /** The difference the documentation of sottrazione promises: component by component. */
  function Minus(p: Punto, q: Punto): (r: Punto)
  {
    Punto(p.x - q.x, p.y - q.y, p.z - q.z)
  }

  /** somma agrees with the componentwise sum exactly when the z coordinates add up to what the y ones do. */
  lemma SommaIgnoresZ(p: Punto, q: Punto)
    ensures Somma(p, q) == Plus(p, q) <==> p.z + q.z == p.y + q.y
  {
  }

  /** Subtracting q again after somma gives p back only for points whose z equals their y. */
  lemma SommaSottrazioneRoundTrip(p: Punto, q: Punto)
    ensures Sottrazione(Somma(p, q), q) == p <==> p.z == p.y
  {
    assert Sottrazione(Somma(p, q), q) == Punto(p.x, p.y, p.y);
  }

  /** A concrete input: (0,0,1) + (0,0,1) gives (0,0,0) where (0,0,2) is promised. */
  lemma SommaCounterexample()
    ensures Somma(Punto(0, 0, 1), Punto(0, 0, 1)) == Origin
    ensures Plus(Punto(0, 0, 1), Punto(0, 0, 1)) == Punto(0, 0, 2)
  {
  }

  /** The corrected sum is commutative and associative, has the origin as unit, and Minus undoes it. */
  lemma PlusLaws(p: Punto, q: Punto, s: Punto)
    ensures Plus(p, q) == Plus(q, p)
    ensures Plus(Plus(p, q), s) == Plus(p, Plus(q, s))
    ensures Plus(p, Origin) == p && Minus(p, p) == Origin
    ensures Plus(Minus(p, q), q) == p
  {
  }

  /** norma: the sum of the absolute values of the coordinates. */
  function Norma(p: Punto): (r: nat)
    ensures r == 0 <==> p == Origin
    ensures r >= Abs(p.x) && r >= Abs(p.y) && r >= Abs(p.z)
  {
    var n := Abs(p.x);
    var n := n + Abs(p.y);
    n + Abs(p.z)
  }

  /** The norm is a norm: the triangle inequality holds for the corrected sum, and negation keeps it. */
  lemma NormaTriangle(p: Punto, q: Punto)
    ensures Norma(Plus(p, q)) <= Norma(p) + Norma(q)
    ensures Norma(Minus(Origin, p)) == Norma(p)
  {
  }

  /** equals: two points are equal exactly when all three coordinates are. */
  function Equals(p: Punto, q: Punto): (b: bool)
    ensures b <==> p == q
  {
    q.x == p.x && q.y == p.y && q.z == p.z
  }

  /** hashCode: x, then 31 * hash + y, then 31 * hash + z, in int arithmetic. */
  function HashCode(p: Punto): (h: int)
    ensures IntMin <= h <= IntMax
  {
    var hash := Wrap32(p.x);
    var hash := Wrap32(31 * hash + Wrap32(p.y));
    Wrap32(31 * hash + Wrap32(p.z))
  }

  /** Equal points hash alike. */
  lemma EqualsHashAlike(p: Punto, q: Punto)
    requires Equals(p, q)
    ensures HashCode(p) == HashCode(q)
  {
  }
}
