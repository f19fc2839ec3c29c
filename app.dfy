/**
  * The application loop: the scene state kept across frames (the emitter, the two
  * obstacles, the first obstacle's vertical speed and the ray field), the event handling
  * that drags the emitter, and one frame: rays into a fresh black frame buffer, the
  * outlines of the emitter and the obstacles, then one step of the first obstacle's
  * bounce.
  *
  * Window, renderer and texture calls are not modelled: the frame buffer and the outline
  * points are returned instead of being presented, and events arrive as a sequence.
  */
module App {
  import opened Constants
  import opened Models
  import opened Marcher
  import opened Generator
  import opened Dispatch
  import opened Outline

  /** The events the loop reacts to; every other event is `Other`. */
  datatype Event = Quit | MouseMotion(x: int, y: int, state: int) | Other

  /** The number of workers draw_rays asks compute_rays for. */
  const WORKERS: nat := 4

  /** The magnitude of the first obstacle's vertical speed, in pixels per frame. */
  const SPEED: int := 10

  /** The frame buffer draw_rays starts from: every pixel black. */
  function Blank(): (b: seq<Color>)
    ensures |b| == PIXELS
    ensures forall k :: 0 <= k < |b| ==> b[k] == COLOR_BLACK
  {
    seq(PIXELS, _ => COLOR_BLACK)
  }

  /**
    * On a black buffer, the rays of a frame leave a pixel black exactly when no ray
    * visits it, and every pixel ends black, ray-coloured or obstacle-coloured.
    */
  lemma FrameColors(rays: seq<Ray>, obstacles: seq<Circle>)
    requires |obstacles| >= 2 && RangeOk(rays, 0, RAYS_NUMBER)
    ensures forall k :: 0 <= k < PIXELS ==>
              (MarchRange(Blank(), rays, obstacles, 0, RAYS_NUMBER)[k] != COLOR_BLACK <==>
               k in RangeVisits(rays, obstacles, 0, RAYS_NUMBER))
    ensures forall k :: 0 <= k < PIXELS ==>
              MarchRange(Blank(), rays, obstacles, 0, RAYS_NUMBER)[k] in {COLOR_BLACK, COLOR_RAY, COLOR_OBSTACLE}
  {
    MarchRangeFrame(Blank(), rays, obstacles, 0, RAYS_NUMBER);
  }

  /** A mouse motion with a button held: the event that drags the emitter. */
  predicate IsDrag(e: Event)
  {
    e.MouseMotion? && e.state != 0
  }

  /** The emitter after one event: a drag moves its centre to the pointer. */
  function Drag(sun: Circle, e: Event): (s: Circle)
    ensures s.r == sun.r
  {
    if IsDrag(e) then Circle(e.x, e.y, sun.r) else sun
  }

  /** The emitter after the events of one frame, handled in order. */
  function AfterEvents(sun: Circle, events: seq<Event>): (s: Circle)
    ensures s.r == sun.r
    decreases |events|
  {
    if events == [] then sun else Drag(AfterEvents(sun, events[..|events| - 1]), events[|events| - 1])
  }

  /** After a frame's events the emitter sits where the last drag of the frame left it. */
  lemma {:induction false} LastDragWins(sun: Circle, events: seq<Event>, i: nat)
    requires i < |events| && IsDrag(events[i])
    requires forall j :: i < j < |events| ==> !IsDrag(events[j])
    ensures AfterEvents(sun, events) == Circle(events[i].x, events[i].y, sun.r)
    decreases |events|
  {
    var front := events[..|events| - 1];
    if i < |events| - 1 {
      assert front[i] == events[i];
      LastDragWins(sun, front, i);
    }
  }

  /** Without a drag among a frame's events the emitter does not move. */
  lemma {:induction false} NoDragStays(sun: Circle, events: seq<Event>)
    requires forall j :: 0 <= j < |events| ==> !IsDrag(events[j])
    ensures AfterEvents(sun, events) == sun
    decreases |events|
  {
    if events != [] {
      NoDragStays(sun, events[..|events| - 1]);
    }
  }

  /** True when the circle's vertical extent has left the screen at the top or the bottom. */
  predicate OffScreen(o: Circle)
  {
    o.y - o.r <= 0 || o.y + o.r > SCREEN_HEIGHT
  }

  /**
    * The states the first obstacle keeps to while it bounces: moving down, its bottom is
    * on screen and its top at most SPEED - 1 pixels above the screen; moving up, its top
    * is on screen and its bottom at most SPEED pixels below the screen.
    */
  predicate InBand(o: Circle, speed: int)
  {
    (speed == SPEED && o.y + o.r <= SCREEN_HEIGHT && o.y - o.r > -SPEED) ||
    (speed == -SPEED && o.y - o.r > 0 && o.y + o.r <= SCREEN_HEIGHT + SPEED)
  }

  /**
    * One step of the bounce: the obstacle moves by `speed`, and the speed turns round
    * exactly when the moved obstacle has left the screen. The band is kept.
    */
  function Bounce(o: Circle, speed: int): (r: (Circle, int))
    ensures r.0.x == o.x && r.0.r == o.r && r.0.y == o.y + speed
    ensures speed != 0 ==> (r.1 == -speed <==> OffScreen(r.0))
    ensures r.1 == speed || r.1 == -speed
    ensures InBand(o, speed) ==> InBand(r.0, r.1)
  {
    var moved := o.(y := o.y + speed);
    (moved, if OffScreen(moved) then -speed else speed)
  }

  /**
    * Starting in the band, the obstacle never leaves the strip between SPEED pixels
    * above and SPEED pixels below the screen, however many frames pass.
    */
  lemma {:induction false} BounceStaysNearScreen(o: Circle, speed: int, frames: nat)
    requires InBand(o, speed)
    ensures InBand(Bounces(o, speed, frames).0, Bounces(o, speed, frames).1)
    ensures -SPEED < Bounces(o, speed, frames).0.y - o.r
    ensures Bounces(o, speed, frames).0.y + o.r <= SCREEN_HEIGHT + SPEED
    decreases frames
  {
    if frames > 0 {
      BounceStaysNearScreen(o, speed, frames - 1);
    }
  }

  /** The obstacle and speed after `frames` bounce steps. */
  function Bounces(o: Circle, speed: int, frames: nat): (r: (Circle, int))
    ensures r.0.x == o.x && r.0.r == o.r
    decreases frames
  {
    if frames == 0 then (o, speed)
    else var prev := Bounces(o, speed, frames - 1); Bounce(prev.0, prev.1)
  }

  /** The emitter after the events of several frames, frame after frame. */
  function AfterFrames(sun: Circle, frames: seq<seq<Event>>): (s: Circle)
    ensures s.r == sun.r
    decreases |frames|
  {
    if frames == [] then sun else AfterEvents(AfterFrames(sun, frames[..|frames| - 1]), frames[|frames| - 1])
  }

  lemma AfterFramesStep(sun: Circle, frames: seq<seq<Event>>, k: nat)
    requires k < |frames|
    ensures AfterFrames(sun, frames[..k + 1]) == AfterEvents(AfterFrames(sun, frames[..k]), frames[k])
  {
    assert frames[..k + 1][..k] == frames[..k];
  }

  /** The number of frames the loop draws: up to and including the first with a quit event. */
  function FramesShown(frames: seq<seq<Event>>): (n: nat)
    ensures n <= |frames| && (frames != [] ==> n > 0)
    ensures n == |frames| || Quit in frames[n - 1]
    ensures forall i :: 0 <= i < n - 1 ==> Quit !in frames[i]
  {
    if frames == [] then 0
    else if Quit in frames[0] then 1
    else 1 + FramesShown(frames[1..])
  }

  /** No frame before frame `n` holds a quit event. */
  predicate QuitFree(frames: seq<seq<Event>>, n: int)
    requires n <= |frames|
  {
    forall i :: 0 <= i < n ==> Quit !in frames[i]
  }

  lemma QuitFreeExtend(frames: seq<seq<Event>>, n: nat)
    requires n < |frames| && QuitFree(frames, n) && Quit !in frames[n]
    ensures QuitFree(frames, n + 1)
  {
  }

  /**
    * FramesShown is the only count with its properties: a count that stops at the first
    * frame holding a quit event, or at the end of the input, is FramesShown.
    */
  lemma {:induction false} FramesShownUnique(frames: seq<seq<Event>>, n: nat)
    requires n <= |frames| && (frames != [] ==> n > 0)
    requires n == |frames| || Quit in frames[n - 1]
    requires QuitFree(frames, n - 1)
    ensures FramesShown(frames) == n
  {
    if frames != [] && Quit !in frames[0] {
      FramesShownUnique(frames[1..], n - 1);
    }
  }

  /** The points handed to the renderer when drawing the outlines of `cs`, in order. */
  function Outlines(cs: seq<Circle>): seq<Point>
  {
    if cs == [] then [] else Outlines(cs[..|cs| - 1]) + CircleOutline(cs[|cs| - 1])
  }

  /** draw_rays: march the whole field into a fresh black frame buffer with four workers. */
  method DrawRays(rays: array<Ray>, obstacles: seq<Circle>) returns (pixelBuffer: array<Color>)
    requires rays.Length == RAYS_NUMBER && |obstacles| >= 2
    requires RangeOk(rays[..], 0, RAYS_NUMBER)
    ensures fresh(pixelBuffer)
    ensures pixelBuffer[..] == MarchRange(Blank(), rays[..], obstacles, 0, RAYS_NUMBER)
  {
    pixelBuffer := new Color[PIXELS](_ => COLOR_BLACK);
    assert pixelBuffer[..] == Blank();
    ComputeRays(pixelBuffer, rays, obstacles, WORKERS);
  }

  /** The state of the running program between frames. */
  class Scene {
    var sun: Circle
    var obstacles: seq<Circle>
    var speedY: int
    const rays: array<Ray>
    const cos: real -> real
    const sin: real -> real

    /**
      * The rays always form the field of the emitter's current position; there are two
      * obstacles; the first keeps to its bounce band.
      */
    ghost predicate Valid()
      reads this, rays
    {
      rays.Length == RAYS_NUMBER && UnitCircle(cos, sin) &&
      rays[..] == RayField(sun.x, sun.y, cos, sin) && RangeOk(rays[..], 0, RAYS_NUMBER) &&
      |obstacles| == 2 && InBand(obstacles[0], speedY)
    }

    /** The initial scene: emitter at (200, 200), two obstacles, speed 10 downwards. */
    constructor(cos: real -> real, sin: real -> real)
      requires UnitCircle(cos, sin)
      ensures Valid()
      ensures sun == Circle(200, 200, 40)
      ensures obstacles == [Circle(820, 300, 140), Circle(350, 650, 80)]
      ensures speedY == SPEED
      ensures fresh(rays)
    {
      this.cos := cos;
      this.sin := sin;
      var field := new Ray[RAYS_NUMBER](_ => Ray(0, 0, 0.0, 0.0, 0.0));
      rays := field;
      sun := Circle(200, 200, 40);
      obstacles := [Circle(820, 300, 140), Circle(350, 650, 80)];
      new;
      GenerateRays(rays, sun.x, sun.y, cos, sin);
      RayFieldMarches(sun.x, sun.y, cos, sin);
      speedY := SPEED;
    }

    /**
      * The event loop of one frame: a quit event is remembered, a drag moves the emitter
      * to the pointer and regenerates the ray field from there.
      */
    method HandleEvents(events: seq<Event>) returns (quit: bool)
      requires Valid()
      modifies this, rays
      ensures Valid()
      ensures quit <==> Quit in events
      ensures sun == AfterEvents(old(sun), events)
      ensures obstacles == old(obstacles) && speedY == old(speedY)
    {
      quit := false;
      for i := 0 to |events|
        invariant Valid()
        invariant quit <==> Quit in events[..i]
        invariant sun == AfterEvents(old(sun), events[..i])
        invariant obstacles == old(obstacles) && speedY == old(speedY)
      {
        var e := events[i];
        assert events[..i + 1][..i] == events[..i];
        if e == Quit {
          quit := true;
        }
        if e.MouseMotion? && e.state != 0 {
          sun := sun.(x := e.x, y := e.y);
          GenerateRays(rays, sun.x, sun.y, cos, sin);
          RayFieldMarches(sun.x, sun.y, cos, sin);
        }
      }
      assert events[..|events|] == events;
    }

    /** The outlines of the emitter and then of each obstacle, in the order drawn. */
    method DrawOutlines() returns (points: seq<Point>)
      requires Valid()
      ensures points == CircleOutline(sun) + Outlines(obstacles)
    {
      points := DrawCircle(sun);
      for i := 0 to |obstacles|
        invariant points == CircleOutline(sun) + Outlines(obstacles[..i])
      {
        var outline := DrawCircle(obstacles[i]);
        assert obstacles[..i + 1][..i] == obstacles[..i];
        points := points + outline;
      }
      assert obstacles[..|obstacles|] == obstacles;
    }

    /** One step of the first obstacle's bounce; the second obstacle does not move. */
    method AdvanceObstacle()
      requires Valid()
      modifies this
      ensures Valid()
      ensures (obstacles[0], speedY) == Bounce(old(obstacles[0]), old(speedY))
      ensures obstacles[1] == old(obstacles[1])
      ensures sun == old(sun)
    {
      obstacles := obstacles[0 := obstacles[0].(y := obstacles[0].y + speedY)];
      if obstacles[0].y - obstacles[0].r <= 0 || obstacles[0].y + obstacles[0].r > SCREEN_HEIGHT {
        speedY := -speedY;
      }
    }

    /**
      * One pass of the main loop: handle the events, draw the rays with the obstacles where
      * they stand, draw the outlines, then move the first obstacle.
      */
    method Frame(events: seq<Event>) returns (quit: bool, pixelBuffer: array<Color>, points: seq<Point>)
      requires Valid()
      modifies this, rays
      ensures Valid()
      ensures quit <==> Quit in events
      ensures sun == AfterEvents(old(sun), events)
      ensures fresh(pixelBuffer)
      ensures pixelBuffer[..] == MarchRange(Blank(), rays[..], old(obstacles), 0, RAYS_NUMBER)
      ensures points == CircleOutline(sun) + Outlines(old(obstacles))
      ensures (obstacles[0], speedY) == Bounce(old(obstacles[0]), old(speedY))
      ensures obstacles[1] == old(obstacles[1])
    {
      quit := HandleEvents(events);
      pixelBuffer := DrawRays(rays, obstacles);
      points := DrawOutlines();
      AdvanceObstacle();
    }

    /**
      * The main loop over the frames' event batches: frames are drawn until the frame
      * that holds a quit event has been drawn, or the input runs out.
      */
    method Run(frames: seq<seq<Event>>) returns (shown: nat)
      requires Valid()
      modifies this, rays
      ensures Valid()
      ensures shown == FramesShown(frames)
      ensures sun == AfterFrames(old(sun), frames[..shown])
      ensures (obstacles[0], speedY) == Bounces(old(obstacles[0]), old(speedY), shown)
      ensures obstacles[1] == old(obstacles[1])
    {
      var quit := false;
      shown := 0;
      while !quit && shown < |frames|
        invariant Valid()
        invariant shown <= |frames|
        invariant quit <==> shown > 0 && Quit in frames[shown - 1]
        invariant QuitFree(frames, shown - 1)
        invariant sun == AfterFrames(old(sun), frames[..shown])
        invariant (obstacles[0], speedY) == Bounces(old(obstacles[0]), old(speedY), shown)
        invariant obstacles[1] == old(obstacles[1])
        decreases |frames| - shown
      {
        if shown > 0 {
          QuitFreeExtend(frames, shown - 1);
        }
        AfterFramesStep(old(sun), frames, shown);
        var pixelBuffer, points;
        quit, pixelBuffer, points := Frame(frames[shown]);
        shown := shown + 1;
      }
      FramesShownUnique(frames, shown);
    }
  }
}
