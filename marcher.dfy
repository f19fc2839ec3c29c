/**
  * The ray marcher: a ray's position starts at its integer origin and advances by its
  * direction one step at a time while it stays inside the viewport. Every position it
  * visits paints its pixel with the ray colour; the first position strictly inside
  * obstacle 0 or obstacle 1 repaints that pixel with the obstacle colour and ends the ray.
  *
  * Positions are exact reals: the model does not follow the rounding of double arithmetic.
  */
module Marcher {
  import opened Constants
  import opened Models

  /** A point or a direction of the continuous plane. */
  datatype Vec = Vec(x: real, y: real)

  function Origin(ray: Ray): Vec
  {
    Vec(ray.xStart as real, ray.yStart as real)
  }

  function Direction(ray: Ray): Vec
  {
    Vec(ray.dx, ray.dy)
  }

  /** One march step. */
  function Step(p: Vec, d: Vec): Vec
  {
    Vec(p.x + d.x, p.y + d.y)
  }

  /** The position after `k` march steps from `p`. */
  function Position(p: Vec, d: Vec, k: nat): Vec
    decreases k
  {
    if k == 0 then p else Position(Step(p, d), d, k - 1)
  }

  /** The loop condition of the marcher: the position lies in [0, WIDTH) x [0, HEIGHT). */
  predicate InView(p: Vec)
  {
    0.0 <= p.x < SCREEN_WIDTH as real && 0.0 <= p.y < SCREEN_HEIGHT as real
  }

  /**
    * A direction with a component of magnitude at least one half. Every unit direction
    * has one (see Generator.UnitDirectionMarches), and it is what makes the march finite.
    */
  predicate Marches(d: Vec)
  {
    d.x >= 0.5 || d.x <= -0.5 || d.y >= 0.5 || d.y <= -0.5
  }

  /**
    * The frame-buffer index of the pixel under an in-view position: the coordinates are
    * truncated (they are non-negative, so truncation is the floor) and laid out row-major.
    */
  function Cell(p: Vec): (k: nat)
    requires InView(p)
    ensures k < PIXELS
    ensures k % SCREEN_WIDTH == p.x.Floor && k / SCREEN_WIDTH == p.y.Floor
  {
    var px, py := p.x.Floor, p.y.Floor;
    assert 0 <= px < SCREEN_WIDTH && 0 <= py < SCREEN_HEIGHT;
    CellLayout(px, py);
    px + py * SCREEN_WIDTH
  }

  lemma CellLayout(px: int, py: int)
    requires 0 <= px < SCREEN_WIDTH && 0 <= py < SCREEN_HEIGHT
    ensures 0 <= px + py * SCREEN_WIDTH < PIXELS
    ensures (px + py * SCREEN_WIDTH) % SCREEN_WIDTH == px
    ensures (px + py * SCREEN_WIDTH) / SCREEN_WIDTH == py
  {
  }

  function DistSq(p: Vec, c: Circle): real
  {
    (p.x - c.x as real) * (p.x - c.x as real) + (p.y - c.y as real) * (p.y - c.y as real)
  }

  /** Strictly inside the disk: squared distance below the squared radius. */
  predicate Inside(p: Vec, c: Circle)
  {
    DistSq(p, c) < (c.r as real) * (c.r as real)
  }

  /** The hit test of the marcher, which looks at the first two obstacles only. */
  predicate Blocked(p: Vec, obstacles: seq<Circle>)
    requires |obstacles| >= 2
  {
    Inside(p, obstacles[0]) || Inside(p, obstacles[1])
  }

  /** The marcher's hit test, with the squared radii computed ahead of the march. */
  lemma HitTest(p: Vec, obstacles: seq<Circle>, obstacle0R2: real, obstacle1R2: real)
    requires |obstacles| >= 2
    requires obstacle0R2 == (obstacles[0].r as real) * (obstacles[0].r as real)
    requires obstacle1R2 == (obstacles[1].r as real) * (obstacles[1].r as real)
    ensures Blocked(p, obstacles) <==> DistSq(p, obstacles[0]) < obstacle0R2 || DistSq(p, obstacles[1]) < obstacle1R2
  {
  }

  /**
    * A termination measure for the march: twice the distance, along an axis on which the
    * direction moves by at least one half per step, to the viewport edge it heads for.
    */
  function Budget(p: Vec, d: Vec): int
  {
    if d.x >= 0.5 then ((SCREEN_WIDTH as real - p.x) * 2.0).Floor
    else if d.x <= -0.5 then (p.x * 2.0).Floor
    else if d.y >= 0.5 then ((SCREEN_HEIGHT as real - p.y) * 2.0).Floor
    else (p.y * 2.0).Floor
  }

  lemma BudgetDecreases(p: Vec, d: Vec)
    requires InView(p) && Marches(d)
    ensures 0 <= Budget(p, d) <= 2 * SCREEN_WIDTH
    ensures Budget(Step(p, d), d) < Budget(p, d)
  {
  }

  /**
    * The buffer after marching one ray from position `p` in direction `d`: the source's
    * loop body, step by step (paint the ray colour, then on a hit repaint the same pixel
    * with the obstacle colour and stop, otherwise advance).
    */
  function MarchRay(buf: seq<Color>, p: Vec, d: Vec, obstacles: seq<Circle>): (r: seq<Color>)
    requires |buf| == PIXELS && Marches(d) && |obstacles| >= 2
    ensures |r| == PIXELS
    decreases Budget(p, d)
  {
    if !InView(p) then buf
    else
      var lit := buf[Cell(p) := COLOR_RAY];
      if Blocked(p, obstacles) then lit[Cell(p) := COLOR_OBSTACLE]
      else
        BudgetDecreases(p, d);
        MarchRay(lit, Step(p, d), d, obstacles)
  }

  lemma MarchRayHits(buf: seq<Color>, p: Vec, d: Vec, obstacles: seq<Circle>)
    requires |buf| == PIXELS && Marches(d) && |obstacles| >= 2
    requires InView(p) && Blocked(p, obstacles)
    ensures MarchRay(buf, p, d, obstacles) == buf[Cell(p) := COLOR_RAY][Cell(p) := COLOR_OBSTACLE]
  {
  }

  lemma MarchRayContinues(buf: seq<Color>, p: Vec, d: Vec, obstacles: seq<Circle>)
    requires |buf| == PIXELS && Marches(d) && |obstacles| >= 2
    requires InView(p) && !Blocked(p, obstacles)
    ensures MarchRay(buf, p, d, obstacles) == MarchRay(buf[Cell(p) := COLOR_RAY], Step(p, d), d, obstacles)
  {
  }

  /** The set of pixels the march from `p` visits. */
  function Visits(p: Vec, d: Vec, obstacles: seq<Circle>): (cells: set<nat>)
    requires Marches(d) && |obstacles| >= 2
    ensures forall k :: k in cells ==> k < PIXELS
    decreases Budget(p, d)
  {
    if !InView(p) then {}
    else if Blocked(p, obstacles) then {Cell(p)}
    else
      BudgetDecreases(p, d);
      {Cell(p)} + Visits(Step(p, d), d, obstacles)
  }

  /**
    * A march writes nothing outside the pixels it visits, and only the two foreground
    * colours on them; a march that starts outside the viewport writes nothing at all.
    */
  lemma {:induction false} MarchRayFrame(buf: seq<Color>, p: Vec, d: Vec, obstacles: seq<Circle>)
    requires |buf| == PIXELS && Marches(d) && |obstacles| >= 2
    ensures forall k :: 0 <= k < PIXELS && k !in Visits(p, d, obstacles) ==>
              MarchRay(buf, p, d, obstacles)[k] == buf[k]
    ensures forall k :: k in Visits(p, d, obstacles) ==> IsForeground(MarchRay(buf, p, d, obstacles)[k])
    ensures !InView(p) ==> MarchRay(buf, p, d, obstacles) == buf
    decreases Budget(p, d)
  {
    if InView(p) && !Blocked(p, obstacles) {
      BudgetDecreases(p, d);
      MarchRayFrame(buf[Cell(p) := COLOR_RAY], Step(p, d), d, obstacles);
    }
  }

  /** The first `k` positions of the march are in view and hit no obstacle. */
  predicate Clear(p: Vec, d: Vec, obstacles: seq<Circle>, k: nat)
    requires |obstacles| >= 2
    decreases k
  {
    k == 0 || (InView(p) && !Blocked(p, obstacles) && Clear(Step(p, d), d, obstacles, k - 1))
  }

  /** The pixels under the in-view positions among the first `k` of the march. */
  function Trail(p: Vec, d: Vec, k: nat): (cells: set<nat>)
    ensures forall c :: c in cells ==> c < PIXELS
    decreases k
  {
    if k == 0 then {}
    else if InView(p) then {Cell(p)} + Trail(Step(p, d), d, k - 1)
    else Trail(Step(p, d), d, k - 1)
  }

  /** `buf` with every cell of `cells` set to `color`. */
  function Paint(buf: seq<Color>, cells: set<nat>, color: Color): (r: seq<Color>)
    ensures |r| == |buf|
    ensures forall i :: 0 <= i < |buf| ==> r[i] == if i in cells then color else buf[i]
  {
    seq(|buf|, i requires 0 <= i < |buf| => if i in cells then color else buf[i])
  }

  lemma PaintAfterWrite(buf: seq<Color>, c: nat, cells: set<nat>, color: Color)
    requires c < |buf|
    ensures Paint(buf[c := color], cells, color) == Paint(buf, {c} + cells, color)
  {
  }

  /**
    * A ray whose first `k` positions are clear and whose position `k` is in view and
    * strictly inside obstacle 0 or 1 paints exactly the pixels of those `k` positions with
    * the ray colour, the pixel of position `k` with the obstacle colour, and nothing after.
    */
  lemma {:induction false} MarchStopsAtFirstHit(buf: seq<Color>, p: Vec, d: Vec, obstacles: seq<Circle>, k: nat)
    requires |buf| == PIXELS && Marches(d) && |obstacles| >= 2
    requires Clear(p, d, obstacles, k)
    requires InView(Position(p, d, k)) && Blocked(Position(p, d, k), obstacles)
    ensures MarchRay(buf, p, d, obstacles)
         == Paint(buf, Trail(p, d, k), COLOR_RAY)[Cell(Position(p, d, k)) := COLOR_OBSTACLE]
    decreases k
  {
    if k == 0 {
      assert Paint(buf, {}, COLOR_RAY) == buf;
    } else {
      BudgetDecreases(p, d);
      MarchStopsAtFirstHit(buf[Cell(p) := COLOR_RAY], Step(p, d), d, obstacles, k - 1);
      PaintAfterWrite(buf, Cell(p), Trail(Step(p, d), d, k - 1), COLOR_RAY);
    }
  }

  /**
    * A ray whose first `k` positions are clear and whose position `k` has left the
    * viewport paints exactly the pixels of those `k` positions with the ray colour.
    */
  lemma {:induction false} MarchLeavesView(buf: seq<Color>, p: Vec, d: Vec, obstacles: seq<Circle>, k: nat)
    requires |buf| == PIXELS && Marches(d) && |obstacles| >= 2
    requires Clear(p, d, obstacles, k)
    requires !InView(Position(p, d, k))
    ensures MarchRay(buf, p, d, obstacles) == Paint(buf, Trail(p, d, k), COLOR_RAY)
    decreases k
  {
    if k == 0 {
      assert Paint(buf, {}, COLOR_RAY) == buf;
    } else {
      BudgetDecreases(p, d);
      MarchLeavesView(buf[Cell(p) := COLOR_RAY], Step(p, d), d, obstacles, k - 1);
      PaintAfterWrite(buf, Cell(p), Trail(Step(p, d), d, k - 1), COLOR_RAY);
    }
  }

  /**
    * Every march ends, after at most 2 * SCREEN_WIDTH + 1 steps, in one of the two
    * terminal states: blocked by an obstacle, or out of the viewport.
    */
  lemma {:induction false} MarchEnds(p: Vec, d: Vec, obstacles: seq<Circle>) returns (k: nat)
    requires Marches(d) && |obstacles| >= 2
    ensures Clear(p, d, obstacles, k)
    ensures !InView(Position(p, d, k)) || Blocked(Position(p, d, k), obstacles)
    ensures k <= 2 * SCREEN_WIDTH + 1
    ensures InView(p) ==> k <= Budget(p, d) + 1
    decreases Budget(p, d)
  {
    if !InView(p) || Blocked(p, obstacles) {
      k := 0;
    } else {
      BudgetDecreases(p, d);
      var rest := MarchEnds(Step(p, d), d, obstacles);
      k := rest + 1;
    }
  }

  /** Every ray of rays[lo..hi) has a direction the march can follow. */
  predicate RangeOk(rays: seq<Ray>, lo: nat, hi: nat)
  {
    (lo < hi ==> hi <= |rays|) &&
    forall i :: lo <= i < hi ==> Marches(Direction(rays[i]))
  }

  /** The buffer after marching the rays of index lo, lo + 1, ..., hi - 1, in that order. */
  function MarchRange(buf: seq<Color>, rays: seq<Ray>, obstacles: seq<Circle>, lo: nat, hi: nat): (r: seq<Color>)
    requires |buf| == PIXELS && |obstacles| >= 2 && RangeOk(rays, lo, hi)
    ensures |r| == PIXELS
    decreases hi
  {
    if hi <= lo then buf
    else
      var ray := rays[hi - 1];
      MarchRay(MarchRange(buf, rays, obstacles, lo, hi - 1), Origin(ray), Direction(ray), obstacles)
  }

  /** The pixels visited by the rays of rays[lo..hi). */
  function RangeVisits(rays: seq<Ray>, obstacles: seq<Circle>, lo: nat, hi: nat): (cells: set<nat>)
    requires |obstacles| >= 2 && RangeOk(rays, lo, hi)
    ensures forall k :: k in cells ==> k < PIXELS
    decreases hi
  {
    if hi <= lo then {}
    else RangeVisits(rays, obstacles, lo, hi - 1) + Visits(Origin(rays[hi - 1]), Direction(rays[hi - 1]), obstacles)
  }

  /** Marching consecutive index ranges one after the other marches their union. */
  lemma {:induction false} MarchRangeSplit(buf: seq<Color>, rays: seq<Ray>, obstacles: seq<Circle>, lo: nat, mid: nat, hi: nat)
    requires |buf| == PIXELS && |obstacles| >= 2
    requires lo <= mid <= hi && RangeOk(rays, lo, hi)
    ensures RangeOk(rays, lo, mid) && RangeOk(rays, mid, hi)
    ensures MarchRange(MarchRange(buf, rays, obstacles, lo, mid), rays, obstacles, mid, hi)
         == MarchRange(buf, rays, obstacles, lo, hi)
    decreases hi
  {
    if mid < hi {
      MarchRangeSplit(buf, rays, obstacles, lo, mid, hi - 1);
    }
  }

  /** Marching rays[lo..hi) depends on no ray outside that range. */
  lemma {:induction false} MarchRangeReadsOnlyRange(buf: seq<Color>, rays: seq<Ray>, other: seq<Ray>, obstacles: seq<Circle>, lo: nat, hi: nat)
    requires |buf| == PIXELS && |obstacles| >= 2
    requires lo < hi <= |rays| && hi <= |other| && rays[lo..hi] == other[lo..hi]
    requires RangeOk(rays, lo, hi)
    ensures RangeOk(other, lo, hi)
    ensures MarchRange(buf, rays, obstacles, lo, hi) == MarchRange(buf, other, obstacles, lo, hi)
    decreases hi
  {
    assert forall i :: lo <= i < hi ==> rays[i] == rays[lo..hi][i - lo] == other[i];
    if lo < hi - 1 {
      MarchRangeReadsOnlyRange(buf, rays, other, obstacles, lo, hi - 1);
    }
  }

  /**
    * Marching rays[lo..hi) writes nothing outside the pixels those rays visit, and every
    * visited pixel ends with one of the two foreground colours.
    */
  lemma {:induction false} MarchRangeFrame(buf: seq<Color>, rays: seq<Ray>, obstacles: seq<Circle>, lo: nat, hi: nat)
    requires |buf| == PIXELS && |obstacles| >= 2 && RangeOk(rays, lo, hi)
    ensures forall k :: 0 <= k < PIXELS && k !in RangeVisits(rays, obstacles, lo, hi) ==>
              MarchRange(buf, rays, obstacles, lo, hi)[k] == buf[k]
    ensures forall k :: k in RangeVisits(rays, obstacles, lo, hi) ==>
              IsForeground(MarchRange(buf, rays, obstacles, lo, hi)[k])
    decreases hi
  {
    if lo < hi {
      var ray := rays[hi - 1];
      MarchRangeFrame(buf, rays, obstacles, lo, hi - 1);
      MarchRayFrame(MarchRange(buf, rays, obstacles, lo, hi - 1), Origin(ray), Direction(ray), obstacles);
    }
  }

  /**
    * compute_ray: march the rays of index start .. end - 1 into the frame buffer, in
    * index order. The squared radii of the two obstacles are computed once, up front.
    */
  method ComputeRay(pixelBuffer: array<Color>, rays: array<Ray>, obstacles: seq<Circle>, start: nat, end: nat)
    requires pixelBuffer.Length == PIXELS && rays.Length == RAYS_NUMBER && |obstacles| >= 2
    requires RangeOk(rays[..], start, end)
    modifies pixelBuffer
    ensures pixelBuffer[..] == MarchRange(old(pixelBuffer[..]), rays[..], obstacles, start, end)
  {
    var obstacle0R2 := (obstacles[0].r as real) * (obstacles[0].r as real);
    var obstacle1R2 := (obstacles[1].r as real) * (obstacles[1].r as real);

    var i := start;
    while i < end
      invariant start <= i && (i == start || i <= end)
      invariant pixelBuffer[..] == MarchRange(old(pixelBuffer[..]), rays[..], obstacles, start, i)
    {
      TraceRay(pixelBuffer, rays[i], obstacles, obstacle0R2, obstacle1R2);
      i := i + 1;
    }
  }

  /**
    * The body of compute_ray's loop over the rays: the march of one ray, from its origin
    * while the position is in view, with the hit test against obstacles 0 and 1.
    */
  method TraceRay(pixelBuffer: array<Color>, ray: Ray, obstacles: seq<Circle>, obstacle0R2: real, obstacle1R2: real)
    requires pixelBuffer.Length == PIXELS && |obstacles| >= 2 && Marches(Direction(ray))
    requires obstacle0R2 == (obstacles[0].r as real) * (obstacles[0].r as real)
    requires obstacle1R2 == (obstacles[1].r as real) * (obstacles[1].r as real)
    modifies pixelBuffer
    ensures pixelBuffer[..] == MarchRay(old(pixelBuffer[..]), Origin(ray), Direction(ray), obstacles)
  {
    var x := ray.xStart as real;
    var y := ray.yStart as real;

    while x >= 0.0 && x < SCREEN_WIDTH as real && y >= 0.0 && y < SCREEN_HEIGHT as real
      invariant MarchRay(pixelBuffer[..], Vec(x, y), Direction(ray), obstacles)
             == MarchRay(old(pixelBuffer[..]), Origin(ray), Direction(ray), obstacles)
      decreases Budget(Vec(x, y), Direction(ray))
    {
      BudgetDecreases(Vec(x, y), Direction(ray));
      ghost var here := pixelBuffer[..];
      var px := x.Floor;
      var py := y.Floor;
      CellLayout(px, py);
      assert Cell(Vec(x, y)) == px + py * SCREEN_WIDTH;
      pixelBuffer[px + py * SCREEN_WIDTH] := COLOR_RAY;

      var distSquared0 := DistSq(Vec(x, y), obstacles[0]);
      var distSquared1 := DistSq(Vec(x, y), obstacles[1]);
      HitTest(Vec(x, y), obstacles, obstacle0R2, obstacle1R2);

      if distSquared0 < obstacle0R2 || distSquared1 < obstacle1R2 {
        pixelBuffer[px + py * SCREEN_WIDTH] := COLOR_OBSTACLE;
        MarchRayHits(here, Vec(x, y), Direction(ray), obstacles);
        assert pixelBuffer[..] == here[Cell(Vec(x, y)) := COLOR_RAY][Cell(Vec(x, y)) := COLOR_OBSTACLE];
        break;
      }
      MarchRayContinues(here, Vec(x, y), Direction(ray), obstacles);
      assert pixelBuffer[..] == here[Cell(Vec(x, y)) := COLOR_RAY];

      x := x + ray.dx;
      y := y + ray.dy;
    }
  }
}
