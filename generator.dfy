/**
  * The ray field generator: RAYS_NUMBER rays, evenly spaced in angle, all leaving the
  * same origin.
  *
  * Angles are kept as exact fractions of a full turn. The trigonometric functions are
  * parameters `cos` and `sin` taking an angle in turns (cos(t) is the cosine of 2*pi*t
  * radians); the model does not follow floating-point rounding of the angle or of them.
  */
module Generator {
  import opened Constants
  import opened Models
  import opened Marcher

  /** The angle of ray `i`, as a fraction of a full turn. */
  function Turn(i: nat): (t: real)
    requires i < RAYS_NUMBER
    ensures 0.0 <= t < 1.0
    ensures t * RAYS_NUMBER as real == i as real
  {
    i as real / RAYS_NUMBER as real
  }

  /** Ray `i` of the field generated from (xStart, yStart). */
  function RayAt(i: nat, xStart: int, yStart: int, cos: real -> real, sin: real -> real): (r: Ray)
    requires i < RAYS_NUMBER
    ensures r.xStart == xStart && r.yStart == yStart
    ensures r.turn * RAYS_NUMBER as real == i as real
  {
    var t := Turn(i);
    Ray(xStart, yStart, t, cos(t), sin(t))
  }

  /**
    * The whole field: exactly RAYS_NUMBER rays, each with the given origin; ray i points
    * at i / RAYS_NUMBER of a full turn, its direction the cosine and sine of that angle.
    */
  function RayField(xStart: int, yStart: int, cos: real -> real, sin: real -> real): (rs: seq<Ray>)
    ensures |rs| == RAYS_NUMBER
    ensures forall i :: 0 <= i < |rs| ==> rs[i].xStart == xStart && rs[i].yStart == yStart
    ensures forall i :: 0 <= i < |rs| ==>
              rs[i].turn * RAYS_NUMBER as real == i as real &&
              rs[i].dx == cos(rs[i].turn) && rs[i].dy == sin(rs[i].turn)
  {
    seq(RAYS_NUMBER, i requires 0 <= i < RAYS_NUMBER => RayAt(i, xStart, yStart, cos, sin))
  }

  /**
    * The angles of the field partition [0, 1) turn evenly: the first is 0, consecutive
    * angles are 1 / RAYS_NUMBER apart, and they increase strictly with the index.
    */
  lemma RayFieldEvenlySpaced(xStart: int, yStart: int, cos: real -> real, sin: real -> real)
    ensures forall i :: 0 <= i < RAYS_NUMBER ==> 0.0 <= RayField(xStart, yStart, cos, sin)[i].turn < 1.0
    ensures RayField(xStart, yStart, cos, sin)[0].turn == 0.0
    ensures forall i :: 0 <= i < RAYS_NUMBER - 1 ==>
              RayField(xStart, yStart, cos, sin)[i + 1].turn - RayField(xStart, yStart, cos, sin)[i].turn
              == 1.0 / RAYS_NUMBER as real
    ensures forall i, j :: 0 <= i < j < RAYS_NUMBER ==>
              RayField(xStart, yStart, cos, sin)[i].turn < RayField(xStart, yStart, cos, sin)[j].turn
  {
    var rs := RayField(xStart, yStart, cos, sin);
    forall i | 0 <= i < RAYS_NUMBER
      ensures rs[i].turn == i as real / RAYS_NUMBER as real
    {
      assert rs[i].turn * RAYS_NUMBER as real == i as real;
    }
  }

  /** `cos` and `sin` give unit vectors, as the cosine and sine of an angle do. */
  ghost predicate UnitCircle(cos: real -> real, sin: real -> real)
  {
    forall t :: cos(t) * cos(t) + sin(t) * sin(t) == 1.0
  }

  /** A unit direction has a component of magnitude at least one half. */
  lemma UnitDirectionMarches(d: Vec)
    requires d.x * d.x + d.y * d.y == 1.0
    ensures Marches(d)
  {
    if -0.5 < d.x < 0.5 && -0.5 < d.y < 0.5 {
      SquareBelowQuarter(d.x);
      SquareBelowQuarter(d.y);
      assert false;
    }
  }

  lemma SquareBelowQuarter(a: real)
    requires -0.5 < a < 0.5
    ensures a * a < 0.25
  {
    if a >= 0.0 {
      assert a * a <= a * 0.5;
    } else {
      assert a * a <= -a * 0.5;
    }
  }

  /** Every ray of a field built from true cosine and sine can be marched. */
  lemma RayFieldMarches(xStart: int, yStart: int, cos: real -> real, sin: real -> real)
    requires UnitCircle(cos, sin)
    ensures RangeOk(RayField(xStart, yStart, cos, sin), 0, RAYS_NUMBER)
  {
    var rs := RayField(xStart, yStart, cos, sin);
    forall i | 0 <= i < RAYS_NUMBER
      ensures Marches(Direction(rs[i]))
    {
      var t := rs[i].turn;
      assert cos(t) * cos(t) + sin(t) * sin(t) == 1.0;
      UnitDirectionMarches(Direction(rs[i]));
    }
  }

  /** generate_rays: fill every slot of the ray array with the field from (xStart, yStart). */
  method GenerateRays(rays: array<Ray>, xStart: int, yStart: int, cos: real -> real, sin: real -> real)
    requires rays.Length == RAYS_NUMBER
    modifies rays
    ensures rays[..] == RayField(xStart, yStart, cos, sin)
  {
    for i := 0 to RAYS_NUMBER
      invariant forall j :: 0 <= j < i ==> rays[j] == RayAt(j, xStart, yStart, cos, sin)
    {
      var angle := i as real / RAYS_NUMBER as real;
      rays[i] := Ray(xStart, yStart, angle, cos(angle), sin(angle));
    }
  }
}
