/**
  * The circle outline of the emitter and the obstacles: the eight-way symmetric
  * midpoint (Bresenham) circle walk. Each point handed to the renderer is modelled as
  * one element appended to the returned sequence of points.
  */
module Outline {
  import opened Models

  /** A point handed to the renderer. */
  datatype Point = Point(x: int, y: int)

  /** The loop state of the walk: the current octant offsets and the decision value. */
  datatype Walk = Walk(x: int, y: int, direction: int)

  /** The eight points one round draws, in the order the renderer receives them. */
  function Octants(c: Circle, w: Walk): (pts: seq<Point>)
    ensures |pts| == 8
  {
    [Point(c.x + w.x, c.y + w.y), Point(c.x + w.y, c.y + w.x),
     Point(c.x - w.y, c.y + w.x), Point(c.x - w.x, c.y + w.y),
     Point(c.x - w.x, c.y - w.y), Point(c.x - w.y, c.y - w.x),
     Point(c.x + w.y, c.y - w.x), Point(c.x + w.x, c.y - w.y)]
  }

  /** The state update at the end of a round: y rises by one, x falls by at most one. */
  function Advance(w: Walk): (n: Walk)
    ensures n.y == w.y + 1
    ensures n.x == w.x || n.x == w.x - 1
  {
    var y := w.y + 1;
    var direction := if w.direction <= 0 then w.direction + 2 * y + 1 else w.direction;
    if direction > 0 then Walk(w.x - 1, y, direction - (2 * (w.x - 1) + 1))
    else Walk(w.x, y, direction)
  }

  /** The states in which the walk draws, starting from `w`, while x >= y. */
  function Rounds(w: Walk): (ws: seq<Walk>)
    ensures forall i :: 0 <= i < |ws| ==> ws[i].y <= ws[i].x
    decreases w.x - w.y
  {
    if w.x < w.y then [] else [w] + Rounds(Advance(w))
  }

  /** The points drawn by the given rounds, eight per round. */
  function Expand(c: Circle, ws: seq<Walk>): seq<Point>
  {
    if ws == [] then [] else Octants(c, ws[0]) + Expand(c, ws[1..])
  }

  /** The outline of `c`, as drawn: the walk starts at x = r, y = 0, direction = 0. */
  function CircleOutline(c: Circle): seq<Point>
  {
    Expand(c, Rounds(Walk(c.r, 0, 0)))
  }

  /**
    * The rounds of the walk: the first is the start state; each next one is its
    * Advance; y counts the rounds; every round has 0 <= y <= x <= r; and there are no
    * more than x - y + 1 of them (none when x < y).
    */
  lemma {:induction false} RoundsShape(w: Walk, r: int)
    requires 0 <= w.y && w.x <= r
    ensures Rounds(w) == [] <==> w.x < w.y
    ensures Rounds(w) != [] ==> Rounds(w)[0] == w
    ensures forall i :: 0 <= i < |Rounds(w)| - 1 ==> Rounds(w)[i + 1] == Advance(Rounds(w)[i])
    ensures forall i :: 0 <= i < |Rounds(w)| ==> Rounds(w)[i].y == w.y + i
    ensures forall i :: 0 <= i < |Rounds(w)| ==> 0 <= Rounds(w)[i].y <= Rounds(w)[i].x <= r
    ensures |Rounds(w)| <= if w.x < w.y then 0 else w.x - w.y + 1
    decreases w.x - w.y
  {
    if w.x >= w.y {
      RoundsShape(Advance(w), r);
      var rest := Rounds(Advance(w));
      assert Rounds(w) == [w] + rest;
      forall i | 0 <= i < |Rounds(w)| - 1
        ensures Rounds(w)[i + 1] == Advance(Rounds(w)[i])
      {
        if i > 0 {
          assert Rounds(w)[i] == rest[i - 1];
        }
      }
    }
  }

  /** Eight points per round, round `i` at positions 8 * i .. 8 * i + 7. */
  lemma {:induction false} ExpandLayout(c: Circle, ws: seq<Walk>)
    ensures |Expand(c, ws)| == 8 * |ws|
    ensures forall i, j :: 0 <= i < |ws| && 0 <= j < 8 ==> Expand(c, ws)[8 * i + j] == Octants(c, ws[i])[j]
  {
    if ws != [] {
      ExpandLayout(c, ws[1..]);
      forall i, j | 0 <= i < |ws| && 0 <= j < 8
        ensures Expand(c, ws)[8 * i + j] == Octants(c, ws[i])[j]
      {
        if i > 0 {
          assert ws[i] == ws[1..][i - 1];
          assert Expand(c, ws)[8 * i + j] == Expand(c, ws[1..])[8 * (i - 1) + j];
        }
      }
    }
  }

  /**
    * The drawn outline: nothing for a negative radius; otherwise 8 points per round, at
    * most r + 1 rounds, and the first point is (cx + r, cy).
    */
  lemma OutlineShape(c: Circle)
    ensures c.r < 0 <==> CircleOutline(c) == []
    ensures |CircleOutline(c)| == 8 * |Rounds(Walk(c.r, 0, 0))|
    ensures c.r >= 0 ==> |CircleOutline(c)| <= 8 * (c.r + 1)
    ensures c.r >= 0 ==> CircleOutline(c)[0] == Point(c.x + c.r, c.y)
  {
    var ws := Rounds(Walk(c.r, 0, 0));
    RoundsShape(Walk(c.r, 0, 0), c.r);
    ExpandLayout(c, ws);
    if c.r >= 0 {
      assert CircleOutline(c)[8 * 0 + 0] == Octants(c, ws[0])[0];
    }
  }

  /** Every drawn point lies in the square of half-side r around the centre. */
  lemma OutlineInSquare(c: Circle)
    ensures forall k :: 0 <= k < |CircleOutline(c)| ==>
              c.x - c.r <= CircleOutline(c)[k].x <= c.x + c.r && c.y - c.r <= CircleOutline(c)[k].y <= c.y + c.r
  {
    var ws := Rounds(Walk(c.r, 0, 0));
    var pts := CircleOutline(c);
    RoundsShape(Walk(c.r, 0, 0), c.r);
    ExpandLayout(c, ws);
    forall k | 0 <= k < |pts|
      ensures c.x - c.r <= pts[k].x <= c.x + c.r && c.y - c.r <= pts[k].y <= c.y + c.r
    {
      var i, j := k / 8, k % 8;
      assert pts[k] == Octants(c, ws[i])[j];
      OctantsInSquare(c, ws[i], j);
    }
  }

  /** The eight points of a round with 0 <= y <= x <= r lie in the square of half-side r. */
  lemma OctantsInSquare(c: Circle, w: Walk, j: nat)
    requires 0 <= w.y <= w.x <= c.r && j < 8
    ensures c.x - c.r <= Octants(c, w)[j].x <= c.x + c.r && c.y - c.r <= Octants(c, w)[j].y <= c.y + c.r
  {
  }

  /** The three mirror axes through a circle's centre. */
  datatype Axis = Horizontal | Vertical | Diagonal

  function Mirror(c: Circle, axis: Axis, p: Point): Point
  {
    match axis
    case Horizontal => Point(p.x, 2 * c.y - p.y)
    case Vertical => Point(2 * c.x - p.x, p.y)
    case Diagonal => Point(c.x + (p.y - c.y), c.y + (p.x - c.x))
  }

  /**
    * Within one round, the index of the point that mirrors point `j` across `axis`:
    * each axis pairs the eight points up into four swapped pairs.
    */
  function Partner(axis: Axis, j: nat): (k: nat)
    requires j < 8
    ensures k < 8
  {
    match axis
    case Horizontal => [7, 6, 5, 4, 3, 2, 1, 0][j]
    case Vertical => [3, 2, 1, 0, 7, 6, 5, 4][j]
    case Diagonal => [1, 0, 7, 6, 5, 4, 3, 2][j]
  }

  /** The index of the mirror image of drawn point `k`: the partner within the same round. */
  function MirrorIndex(axis: Axis, k: nat): nat
  {
    8 * (k / 8) + Partner(axis, k % 8)
  }

  /** One round's mirrored points are its own points, paired up by Partner, an involution. */
  lemma OctantsSymmetric(c: Circle, axis: Axis, w: Walk, j: nat)
    requires j < 8
    ensures Mirror(c, axis, Octants(c, w)[j]) == Octants(c, w)[Partner(axis, j)]
    ensures Partner(axis, Partner(axis, j)) == j
  {
  }

  /**
    * The drawn outline is symmetric across the centre's horizontal, vertical and diagonal
    * axes: the mirror image of every drawn point is the drawn point at MirrorIndex, and
    * MirrorIndex is an involution on the indices, so mirroring permutes the drawn points.
    */
  lemma OutlineSymmetric(c: Circle, axis: Axis)
    ensures forall k :: 0 <= k < |CircleOutline(c)| ==>
              MirrorIndex(axis, k) < |CircleOutline(c)| &&
              MirrorIndex(axis, MirrorIndex(axis, k)) == k &&
              Mirror(c, axis, CircleOutline(c)[k]) == CircleOutline(c)[MirrorIndex(axis, k)]
  {
    var ws := Rounds(Walk(c.r, 0, 0));
    var pts := CircleOutline(c);
    ExpandLayout(c, ws);
    forall k | 0 <= k < |pts|
      ensures MirrorIndex(axis, k) < |pts|
      ensures MirrorIndex(axis, MirrorIndex(axis, k)) == k
      ensures Mirror(c, axis, pts[k]) == pts[MirrorIndex(axis, k)]
    {
      var i, j := k / 8, k % 8;
      OctantsSymmetric(c, axis, ws[i], j);
      var m := MirrorIndex(axis, k);
      assert m == 8 * i + Partner(axis, j);
      assert m / 8 == i && m % 8 == Partner(axis, j);
      assert pts[k] == Octants(c, ws[i])[j];
      assert pts[m] == Octants(c, ws[i])[Partner(axis, j)];
    }
  }

  lemma ExpandRounds(c: Circle, w: Walk)
    requires w.x >= w.y
    ensures Expand(c, Rounds(w)) == Octants(c, w) + Expand(c, Rounds(Advance(w)))
  {
    var ws := Rounds(w);
    assert ws == [w] + Rounds(Advance(w));
    assert ws[0] == w && ws[1..] == Rounds(Advance(w));
  }

  lemma AppendAssociative(a: seq<Point>, b: seq<Point>, c: seq<Point>)
    ensures (a + b) + c == a + (b + c)
  {
  }

  /** draw_circle: the points the midpoint walk hands to the renderer, in order. */
  method DrawCircle(circle: Circle) returns (points: seq<Point>)
    ensures points == CircleOutline(circle)
  {
    var x := circle.r;
    var y := 0;
    var direction := 0;
    points := [];

    while x >= y
      invariant points + Expand(circle, Rounds(Walk(x, y, direction))) == CircleOutline(circle)
      decreases x - y
    {
      ghost var w := Walk(x, y, direction);
      ghost var rest := Expand(circle, Rounds(Advance(w)));
      ExpandRounds(circle, w);
      AppendAssociative(points, Octants(circle, w), rest);
      points := points + Octants(circle, Walk(x, y, direction));

      y := y + 1;
      if direction <= 0 {
        direction := direction + 2 * y + 1;
      }
      if direction > 0 {
        x := x - 1;
        direction := direction - (2 * x + 1);
      }
      assert Walk(x, y, direction) == Advance(w);
    }
  }
}
