/**
 * The celestial bodies of e07/04: CorpoCeleste.java with its two kinds, Pianeta.java and
 * StellaFissa.java.
 *
 * A body has a name, a position and a speed, both points. The abstract class and its two
 * subclasses are one class here whose constant `kind` says which subclass an object belongs to;
 * the overridden `setSpeed` and `interact` branch on it. `Body` is the value of a body's fields,
 * used to state what an operation does to them.
 */
module CorpoCeleste {
  import opened Exceptions
  import opened Punto

  datatype Kind = Pianeta | StellaFissa

  datatype Body = Body(kind: Kind, nome: string, coordinate: Punto, speed: Punto)

  /** A fixed star never has a speed other than zero. */
  predicate BodyOk(b: Body)
  {
    b.kind == StellaFissa ==> b.speed == Origin
  }

  /** simulate: one second of motion, the position moved by the speed. */
  function Simulated(b: Body): (r: Body)
    ensures Minus(r.coordinate, b.coordinate) == b.speed
    ensures r.kind == b.kind && r.nome == b.nome && r.speed == b.speed
    ensures BodyOk(b) && b.kind == StellaFissa ==> r == b
  {
    var c := b.coordinate;
    var s := b.speed;
    b.(coordinate := Punto(c.x + s.x, c.y + s.y, c.z + s.z))
  }

  /** setSpeed, with the override of the fixed star: a star stores the zero speed whatever it is given. */
  function SpeedSet(b: Body, s: Punto): (r: Body)
    ensures BodyOk(r)
    ensures r.kind == b.kind && r.nome == b.nome && r.coordinate == b.coordinate
    ensures r.kind == Pianeta ==> r.speed == s
  {
    b.(speed := if b.kind == StellaFissa then Origin else s)
  }

  /** The step of an interaction on one axis: +1 towards a larger coordinate, -1 otherwise. */
  function AxisStep(mine: int, theirs: int): (r: int)
    ensures r == 1 || r == -1
    ensures r == 1 <==> mine < theirs
  {
    if mine < theirs then 1 else -1
  }

  function Step(a: Punto, b: Punto): Punto
  {
    Punto(AxisStep(a.x, b.x), AxisStep(a.y, b.y), AxisStep(a.z, b.z))
  }

  /** The step between equal coordinates is -1, and between different ones it changes sign with the roles. */
  lemma StepFacts(a: Punto, b: Punto)
    ensures Step(a, a) == Punto(-1, -1, -1)
    ensures a.x != b.x ==> Step(b, a).x == -Step(a, b).x
    ensures a.y != b.y ==> Step(b, a).y == -Step(a, b).y
    ensures a.z != b.z ==> Step(b, a).z == -Step(a, b).z
  {
  }

  /**
   * a.interact(c) for two distinct bodies: c's speed goes down by the step from a's position to
   * c's, and a planet's own speed goes up by it; a fixed star's does not change.
   */
  function Interaction(a: Body, c: Body): (r: (Body, Body))
    ensures r.0.kind == a.kind && r.0.nome == a.nome && r.0.coordinate == a.coordinate
    ensures r.1.kind == c.kind && r.1.nome == c.nome && r.1.coordinate == c.coordinate
    ensures BodyOk(a) ==> BodyOk(r.0)
    ensures BodyOk(r.1)
    ensures a.kind == StellaFissa ==> r.0 == a
  {
    var step := Step(a.coordinate, c.coordinate);
    var other := SpeedSet(c, Punto(c.speed.x - step.x, c.speed.y - step.y, c.speed.z - step.z));
    if a.kind == Pianeta then
      (SpeedSet(a, Punto(a.speed.x + step.x, a.speed.y + step.y, a.speed.z + step.z)), other)
    else
      (a, other)
  }

  /** Between two planets the summed speed does not change. */
  lemma PlanetsKeepSpeedSum(a: Body, c: Body)
    requires a.kind == Pianeta && c.kind == Pianeta
    ensures Plus(Interaction(a, c).0.speed, Interaction(a, c).1.speed) == Plus(a.speed, c.speed)
  {
  }

  /** The other body, when a planet, is pulled towards this one on every axis where they differ. */
  lemma InteractionAttracts(a: Body, c: Body)
    requires c.kind == Pianeta
    ensures var s := Interaction(a, c).1.speed;
      (c.coordinate.x < a.coordinate.x ==> s.x == c.speed.x + 1) &&
      (c.coordinate.x > a.coordinate.x ==> s.x == c.speed.x - 1) &&
      (c.coordinate.y < a.coordinate.y ==> s.y == c.speed.y + 1) &&
      (c.coordinate.y > a.coordinate.y ==> s.y == c.speed.y - 1) &&
      (c.coordinate.z < a.coordinate.z ==> s.z == c.speed.z + 1) &&
      (c.coordinate.z > a.coordinate.z ==> s.z == c.speed.z - 1)
  {
  }

  /**
   * a.interact(a): the step is -1 on each axis; a planet first stores its speed plus one, then
   * overwrites it with the speed it read at the start minus one.
   */
  function SelfInteraction(a: Body): (r: Body)
    ensures r.kind == a.kind && r.nome == a.nome && r.coordinate == a.coordinate
    ensures r.kind == Pianeta ==> r.speed == Minus(a.speed, Punto(1, 1, 1))
    ensures BodyOk(a) ==> r == a || r.kind == Pianeta
  {
    var step := Step(a.coordinate, a.coordinate);
    var first := SpeedSet(a, Punto(a.speed.x - step.x, a.speed.y - step.y, a.speed.z - step.z));
    SpeedSet(first, Punto(a.speed.x + step.x, a.speed.y + step.y, a.speed.z + step.z))
  }

  /** The product of two energies, which is zero exactly when one of them is. */
  function Times(a: nat, b: nat): (r: nat)
    ensures r == 0 <==> a == 0 || b == 0
  {
    if a == 0 || b == 0 then
      ProductWithZero(a, b);
      a * b
    else
      ProductPositive(a, b);
      a * b
  }

  lemma ProductWithZero(a: int, b: int)
    requires a == 0 || b == 0
    ensures a * b == 0
  {
  }

  lemma {:induction false} ProductPositive(a: nat, b: nat)
    requires a > 0 && b > 0
    ensures a * b > 0
    decreases a
  {
    if a > 1 {
      ProductPositive(a - 1, b);
      assert a * b == (a - 1) * b + b;
    }
  }

  /** getEnergia: kinetic energy (the norm of the speed) times potential energy (the norm of the position). */
  function Energy(b: Body): (e: nat)
    ensures e == 0 <==> b.speed == Origin || b.coordinate == Origin
  {
    Times(Norma(b.speed), Norma(b.coordinate))
  }

  class CorpoCeleste {
    const kind: Kind
    const nome: string
    var coordinate: Punto
    var speed: Punto

    ghost function Value(): Body
      reads this
    {
      Body(kind, nome, coordinate, speed)
    }

    ghost predicate Valid()
      reads this
    {
      BodyOk(Value())
    }

    /** new Pianeta(nome, posizione, speed). */
    constructor Pianeta(nome: string, posizione: Punto, speed: Punto)
      ensures Value() == Body(Kind.Pianeta, nome, posizione, speed) && Valid()
    {
      kind := Kind.Pianeta;
      this.nome := nome;
      coordinate := posizione;
      this.speed := speed;
    }

    /** new StellaFissa(nome, posizione): a fixed star starts at speed zero. */
    constructor StellaFissa(nome: string, posizione: Punto)
      ensures Value() == Body(Kind.StellaFissa, nome, posizione, Origin) && Valid()
    {
      kind := Kind.StellaFissa;
      this.nome := nome;
      coordinate := posizione;
      speed := Origin;
    }

    method Simulate()
      modifies this
      ensures Value() == Simulated(old(Value()))
    {
      coordinate := Punto(coordinate.x + speed.x, coordinate.y + speed.y, coordinate.z + speed.z);
    }

    method SetCoordinate(coordinate: Punto)
      modifies this
      ensures Value() == old(Value()).(coordinate := coordinate)
    {
      this.coordinate := coordinate;
    }

    method SetSpeed(speed: Punto)
      modifies this
      ensures Value() == SpeedSet(old(Value()), speed)
    {
      if kind == Kind.StellaFissa {
        this.speed := Origin;
      } else {
        this.speed := speed;
      }
    }

    /** getCoordinate: a copy of the position, equal to it. */
    method GetCoordinate() returns (p: Punto)
      ensures Equals(p, coordinate)
    {
      p := Punto(coordinate.x, coordinate.y, coordinate.z);
    }

    /** getSpeed: a copy of the speed, equal to it. */
    method GetSpeed() returns (p: Punto)
      ensures Equals(p, speed)
    {
      p := Punto(speed.x, speed.y, speed.z);
    }

    method EnergiaCinetica() returns (e: int)
      ensures e == Norma(speed) && e >= 0
      ensures e == 0 <==> speed == Origin
    {
      e := Norma(speed);
    }

    method EnergiaPotenziale() returns (e: int)
      ensures e == Norma(coordinate) && e >= 0
      ensures e == 0 <==> coordinate == Origin
    {
      e := Norma(coordinate);
    }

    method GetEnergia() returns (e: int)
      ensures e == Energy(Value()) && e >= 0
    {
      var kinetic := EnergiaCinetica();
      var potential := EnergiaPotenziale();
      e := Times(kinetic, potential);
    }

    method GetNome() returns (n: string)
      ensures n == nome
    {
      n := nome;
    }

    /**
     * interact(c): null raises NullPointerException; otherwise the speeds change as Interaction
     * says (as SelfInteraction says when c is this object), and no position changes.
     */
    method Interact(c: CorpoCeleste?) returns (s: Status)
      modifies this, c
      ensures c == null ==> s == Raised(NullPointerException) && Value() == old(Value())
      ensures c != null ==> s == Done
      ensures c != null && c != this ==>
        Value() == Interaction(old(Value()), old(c.Value())).0 &&
        c.Value() == Interaction(old(Value()), old(c.Value())).1
      ensures c == this ==> Value() == SelfInteraction(old(Value()))
    {
      if c == null {
        return Raised(NullPointerException);
      }
      var thisCoord := GetCoordinate();
      var p := c.GetCoordinate();
      var xstep := AxisStep(thisCoord.x, p.x);
      var ystep := AxisStep(thisCoord.y, p.y);
      var zstep := AxisStep(thisCoord.z, p.z);
      if kind == Kind.Pianeta {
        var speed := GetSpeed();
        var cSpeed := c.GetSpeed();
        c.SetSpeed(Punto(cSpeed.x - xstep, cSpeed.y - ystep, cSpeed.z - zstep));
        SetSpeed(Punto(speed.x + xstep, speed.y + ystep, speed.z + zstep));
      } else {
        var speed := c.GetSpeed();
        c.SetSpeed(Punto(speed.x - xstep, speed.y - ystep, speed.z - zstep));
      }
      return Done;
    }
  }
}
