/**
  * A worked march: the ray straight down (direction (0, 1)) from the emitter at
  * (200, 200), with obstacle 0 of radius 10 centred at (200, 220) and obstacle 1 at its
  * start position (350, 650) of radius 80.
  *
  * The hit test is strict (squared distance below the squared radius), so the position
  * (200, 210), exactly 10 away from the centre, is not inside: the ray paints the pixels of
  * rows 200 .. 210 with the ray colour, the pixel of row 211 with the obstacle colour, and
  * nothing else.
  */
module Scenario {
  import opened Constants
  import opened Models
  import opened Marcher

  const COLUMN: int := 200

  function Down(): Vec
  {
    Vec(0.0, 1.0)
  }

  function Obstacles(): seq<Circle>
  {
    [Circle(200, 220, 10), Circle(350, 650, 80)]
  }

  /** The position in the column at row `row`. */
  function At(row: int): Vec
  {
    Vec(COLUMN as real, row as real)
  }

  /** The pixel index of the column at row `row`. */
  function Pixel(row: nat): nat
  {
    COLUMN + row * SCREEN_WIDTH
  }

  lemma CellOfColumn(row: nat)
    requires row < SCREEN_HEIGHT
    ensures InView(At(row))
    ensures Cell(At(row)) == Pixel(row)
  {
    var k := Cell(At(row));
    assert k == SCREEN_WIDTH * (k / SCREEN_WIDTH) + k % SCREEN_WIDTH;
  }

  /** Different rows of the column are different pixels. */
  lemma PixelInjective(a: nat, b: nat)
    requires a != b
    ensures Pixel(a) != Pixel(b)
  {
    if a < b {
      assert b * SCREEN_WIDTH == a * SCREEN_WIDTH + (b - a) * SCREEN_WIDTH;
    } else {
      assert a * SCREEN_WIDTH == b * SCREEN_WIDTH + (a - b) * SCREEN_WIDTH;
    }
  }

  lemma {:induction false} DownPosition(row: int, k: nat)
    ensures Position(At(row), Down(), k) == At(row + k)
    decreases k
  {
    if k > 0 {
      DownPosition(row + 1, k - 1);
    }
  }

  /** Rows 200 .. 210 of the column are in view and outside both obstacles. */
  lemma {:induction false} DownClear(row: int, k: nat)
    requires 200 <= row && row + k <= 211
    ensures Clear(At(row), Down(), Obstacles(), k)
    decreases k
  {
    if k > 0 {
      assert DistSq(At(row), Obstacles()[0]) == ((row - 220) * (row - 220)) as real;
      assert (row - 220) * (row - 220) >= 100;
      DownClear(row + 1, k - 1);
    }
  }

  /** The first `k` positions from row `row` cover exactly the pixels of rows row .. row + k - 1. */
  lemma {:induction false} DownTrail(row: nat, k: nat)
    requires row + k <= SCREEN_HEIGHT
    ensures forall j :: row <= j < row + k ==> Pixel(j) in Trail(At(row), Down(), k)
    ensures forall c :: c in Trail(At(row), Down(), k) ==> exists j :: row <= j < row + k && c == Pixel(j)
    decreases k
  {
    if k > 0 {
      CellOfColumn(row);
      DownTrail(row + 1, k - 1);
      assert Trail(At(row), Down(), k) == {Pixel(row)} + Trail(At(row + 1), Down(), k - 1);
    }
  }

  /** Row 211 is 9 away from the centre of obstacle 0: strictly inside it. */
  lemma HitAtRow211()
    ensures InView(At(211)) && Blocked(At(211), Obstacles())
  {
    var p := At(211);
    var o := Obstacles()[0];
    assert p.x - o.x as real == 0.0 && p.y - o.y as real == -9.0;
    assert DistSq(p, o) == 81.0;
  }

  /** The march from row 200 down is the painted trail of rows 200 .. 210, then the hit at 211. */
  lemma StraightDownMarch(buf: seq<Color>)
    requires |buf| == PIXELS
    ensures MarchRay(buf, At(200), Down(), Obstacles())
         == Paint(buf, Trail(At(200), Down(), 11), COLOR_RAY)[Pixel(211) := COLOR_OBSTACLE]
  {
    DownClear(200, 11);
    DownPosition(200, 11);
    CellOfColumn(211);
    HitAtRow211();
    MarchStopsAtFirstHit(buf, At(200), Down(), Obstacles(), 11);
  }

  /**
    * The ray down from (200, 200) paints rows 200 .. 210 with the ray colour and row 211
    * with the obstacle colour, and leaves every other pixel as it was.
    */
  lemma StraightDownHitsAtRow211(buf: seq<Color>)
    requires |buf| == PIXELS
    ensures forall row :: 200 <= row <= 210 ==>
              MarchRay(buf, At(200), Down(), Obstacles())[Pixel(row)] == COLOR_RAY
    ensures MarchRay(buf, At(200), Down(), Obstacles())[Pixel(211)] == COLOR_OBSTACLE
    ensures forall c :: 0 <= c < PIXELS && (forall row :: 200 <= row <= 211 ==> c != Pixel(row)) ==>
              MarchRay(buf, At(200), Down(), Obstacles())[c] == buf[c]
  {
    var trail := Trail(At(200), Down(), 11);
    StraightDownMarch(buf);
    DownTrail(200, 11);
    var painted := Paint(buf, trail, COLOR_RAY);
    forall row | 200 <= row <= 210
      ensures painted[Pixel(211) := COLOR_OBSTACLE][Pixel(row)] == COLOR_RAY
    {
      PixelInjective(row, 211);
    }
  }
}
