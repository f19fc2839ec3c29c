# Ray tracing light source: a Dafny model

This project models the renderer of the `ray_tracing` repository. An emitter sends
`RAYS_NUMBER` (1000) rays, evenly spaced in angle. Each ray is marched one unit step
at a time through a 1200 x 900 frame buffer. The march stops when the ray leaves the
viewport or enters one of two circular obstacles. The emitter can be dragged with the
mouse, and obstacle 0 bounces up and down.

Modules and what they model:

- `Constants` (`constants.dfy`): viewport size, the three colours and the ray count.
  Pixel values are an unsigned 32-bit `Color` newtype.
- `Models` (`models.dfy`): the `Circle` and `Ray` records.
- `Marcher` (`marcher.dfy`): `compute_ray`, as the method `ComputeRay` with the inner loop
  `TraceRay`. They are proved against the functions `MarchRay` (one ray)
  and `MarchRange` (a range of rays), and the lemmas beside them are proved about those
  functions:
  - in-bounds writes;
  - only the two foreground colours are written;
  - pixels off every path keep their value;
  - the march stops at the first hit;
  - every march ends.
- `Generator` (`generator.dfy`): `generate_rays`, proved against the field `RayField`.
- `Dispatch` (`dispatch.dfy`): `compute_rays`. It covers the chunk arithmetic (contiguous,
  disjoint, covering) and runs the chunks one after the other.
- `Outline` (`outline.dfy`): `draw_circle`, proved against `CircleOutline`. Shape and
  symmetry lemmas are proved about `CircleOutline`.
- `App` (`app.dfy`): the main loop's state, as the class `Scene`:
  - the zero-initialised frame buffer of `draw_rays`;
  - the drag that moves the emitter and regenerates the rays;
  - the bounce of obstacle 0;
  - the loop that runs until a quit event.
- `Scenario` (`scenario.dfy`): one worked march, a ray going straight down into a small
  obstacle.

Positions, the angle and the directions are exact reals. The truncation `static_cast<int>`
of a non-negative coordinate is `.Floor`. The angle of ray `i` is kept as the fraction
`i / RAYS_NUMBER` of a full turn. `cos` and `sin` are parameters that take that fraction.
Two facts about the code shape the model:

- The code tests obstacles 0 and 1 only, so the model needs at least two obstacles. It
  does not iterate over an arbitrary obstacle list, and an empty list is not allowed.
- The hit test is strict: squared distance below the squared radius. A ray going straight
  down from (200, 200) towards an obstacle of radius 10 at (200, 220) is exactly 10 away
  at row 210, so it is not inside there.
  - Rows 200 .. 210 get the ray colour, row 211 the obstacle colour, and nothing is
    written after that. This is `Scenario.StraightDownHitsAtRow211`.

## Model

| member | source | states |
|---|---|---|
| Marcher.Cell | sources/ray_tracing.hpp:77-80 | a position that passed the viewport test maps to an index below PIXELS whose column is the truncated x and whose row is the truncated y |
| Marcher.CellLayout | sources/ray_tracing.hpp:78-80 | for 0 <= px < WIDTH and 0 <= py < HEIGHT, px + py * WIDTH lies in [0, PIXELS) and decodes back to (px, py) |
| Marcher.InView | sources/ray_tracing.hpp:77 | the loop condition: 0 <= x < WIDTH and 0 <= y < HEIGHT |
| Marcher.Blocked | sources/ray_tracing.hpp:82-90 | the hit test: the position is strictly inside obstacle 0 or obstacle 1 (squared distance below the squared radius) |
| Marcher.BudgetDecreases | sources/ray_tracing.hpp:77-96 | while in view, each step by a direction with a component of magnitude >= 1/2 lowers a bounded integer measure, so the march loop ends |
| Marcher.MarchRay | sources/ray_tracing.hpp:73-97 | the march of one ray from its origin: paint the ray colour, on a hit repaint the obstacle colour and stop, else step; the buffer keeps PIXELS cells |
| Marcher.Visits | sources/ray_tracing.hpp:77-96 | the pixels a march visits are all below PIXELS |
| Marcher.Trail | sources/ray_tracing.hpp:77-80 | the pixels under the first k in-view positions are all below PIXELS |
| Marcher.MarchRayFrame | sources/ray_tracing.hpp:77-93 | a march changes no pixel off its path, leaves every pixel on it with the ray or obstacle colour, and writes nothing when the origin is outside the viewport |
| Marcher.MarchStopsAtFirstHit | sources/ray_tracing.hpp:82-93 | if positions 0..k-1 are in view and free and position k is inside an obstacle, the result is the ray colour on exactly those pixels, the obstacle colour at position k, and nothing further |
| Marcher.MarchLeavesView | sources/ray_tracing.hpp:77-96 | if positions 0..k-1 are in view and free and position k is out of view, the result is the ray colour on exactly those pixels |
| Marcher.MarchEnds | sources/ray_tracing.hpp:77-96 | every march reaches one of the two terminal states, blocked or out of view, within 2 * WIDTH + 1 steps |
| Marcher.MarchRange | sources/ray_tracing.hpp:72-98 | marching rays start .. end - 1 in index order keeps the buffer at PIXELS cells |
| Marcher.RangeVisits | sources/ray_tracing.hpp:72-98 | the pixels visited by a range of rays are all below PIXELS |
| Marcher.MarchRangeSplit | sources/ray_tracing.hpp:72 | marching [lo, mid) and then [mid, hi) gives the same buffer as marching [lo, hi) |
| Marcher.MarchRangeReadsOnlyRange | sources/ray_tracing.hpp:72-73 | marching [lo, hi) depends on no ray outside that index range |
| Marcher.MarchRangeFrame | sources/ray_tracing.hpp:80-91 | a range of rays changes no pixel outside the pixels they visit and stores only the ray or obstacle colour on those |
| Marcher.ComputeRay | sources/ray_tracing.hpp:64-99 | compute_ray: with at least two obstacles, the buffer ends as MarchRange of the old buffer over rays start .. end - 1 |
| Marcher.TraceRay | sources/ray_tracing.hpp:73-97 | the inner while loop with its break: the buffer ends as MarchRay of the old buffer from the ray's origin in its direction |
| Generator.Turn | sources/ray_tracing.hpp:51-52 | the angle of ray i is the fraction i / RAYS_NUMBER of a full turn, in [0, 1) |
| Generator.RayAt | sources/ray_tracing.hpp:54-60 | ray i carries the given origin and the angle i / RAYS_NUMBER of a turn, with the cosine and sine of that angle as its direction |
| Generator.RayField | sources/ray_tracing.hpp:50-60 | exactly RAYS_NUMBER rays, each with the given origin, ray i at i / RAYS_NUMBER of a turn, its direction the cosine and sine of that angle |
| Generator.RayFieldEvenlySpaced | sources/ray_tracing.hpp:51-52 | the angles start at 0, stay below one turn, are 1 / RAYS_NUMBER apart and strictly increase with the index |
| Generator.UnitDirectionMarches | sources/ray_tracing.hpp:58-59 | a unit direction has a component of magnitude at least 1/2, so its march ends |
| Generator.RayFieldMarches | sources/ray_tracing.hpp:58-59 | every ray of a field built from a true cosine and sine can be marched |
| Generator.GenerateRays | sources/ray_tracing.hpp:47-62 | generate_rays: every slot of the array is written, and the array ends equal to RayField of the origin |
| Dispatch.ChunkSize | sources/ray_tracing.hpp:106 | rays_per_thread is the quotient q: q * n <= RAYS_NUMBER < (q + 1) * n |
| Dispatch.ChunkStart | sources/ray_tracing.hpp:109 | chunk t starts at t * q, and a whole chunk of q rays from there stays within RAYS_NUMBER |
| Dispatch.ChunkEnd | sources/ray_tracing.hpp:110 | chunk t ends at RAYS_NUMBER if it is the last, else q after its start; it never ends before its start or after RAYS_NUMBER |
| Dispatch.ChunksContiguous | sources/ray_tracing.hpp:106-110 | the first chunk starts at 0, each ends where the next starts, and the last ends at RAYS_NUMBER holding q + RAYS_NUMBER % n rays |
| Dispatch.ChunkOf | sources/ray_tracing.hpp:108-110 | every ray index lies in some chunk |
| Dispatch.ChunksDisjoint | sources/ray_tracing.hpp:108-110 | no ray index lies in two chunks |
| Dispatch.ComputeRays | sources/ray_tracing.hpp:101-120 | compute_rays: for n >= 1 workers the buffer ends as if rays 0 .. RAYS_NUMBER - 1 were marched in index order |
| Outline.Advance | sources/main.cpp:54-61 | one round's update: y rises by exactly 1 and x falls by 0 or 1 |
| Outline.Octants | sources/main.cpp:45-52 | the eight points (cx + x, cy + y), (cx + y, cy + x), (cx - y, cy + x), (cx - x, cy + y), (cx - x, cy - y), (cx - y, cy - x), (cx + y, cy - x), (cx + x, cy - y), in the order drawn |
| Outline.Rounds | sources/main.cpp:43-61 | the loop states in which a round is drawn, from the given one while x >= y; every one of them has y <= x |
| Outline.CircleOutline | sources/main.cpp:39-61 | the points drawn for a circle: the walk from x = r, y = 0, direction = 0, eight points per round |
| Outline.RoundsShape | sources/main.cpp:43-61 | the rounds of the walk: none iff x < y, each the Advance of the one before, y counting the rounds, 0 <= y <= x <= r throughout, at most x - y + 1 of them |
| Outline.ExpandLayout | sources/main.cpp:43-52 | each round emits 8 points: round i is at positions 8i .. 8i + 7, in the order drawn |
| Outline.OutlineShape | sources/main.cpp:39-52 | no point for r < 0; 8 points per round; at most 8(r + 1) points; the first is (cx + r, cy) |
| Outline.OutlineInSquare | sources/main.cpp:43-61 | every drawn point lies within r of the centre along both axes |
| Outline.OctantsInSquare | sources/main.cpp:45-52 | the eight points of a round with 0 <= y <= x <= r lie within r of the centre along both axes |
| Outline.OctantsSymmetric | sources/main.cpp:45-52 | within one round, mirroring a point across the horizontal, vertical or diagonal axis gives the round's partner point, and the pairing is an involution |
| Outline.OutlineSymmetric | sources/main.cpp:43-52 | the mirror of every drawn point, across each of the three axes, is the drawn point at an index given by an in-range involution, so mirroring permutes the drawn points |
| Outline.DrawCircle | sources/main.cpp:38-63 | draw_circle: the points handed to the renderer are exactly CircleOutline, in order |
| App.Blank | sources/main.cpp:18 | the fresh frame buffer has PIXELS cells, all black |
| App.FrameColors | sources/main.cpp:18-20 | after marching every ray on the black buffer, a pixel is non-black iff some ray visits it, and each pixel is black, ray-coloured or obstacle-coloured |
| App.DrawRays | sources/main.cpp:15-20 | draw_rays: a fresh buffer, equal to marching the whole field over Blank with four workers |
| App.IsDrag | sources/main.cpp:101 | a mouse motion with a nonzero button state |
| App.Drag | sources/main.cpp:101-103 | a drag moves the emitter's centre to the pointer; any other event leaves it; the radius never changes |
| App.AfterEvents | sources/main.cpp:96-106 | handling a frame's events never changes the emitter's radius |
| App.LastDragWins | sources/main.cpp:101-105 | after a frame's events the emitter sits at the pointer position of the last drag event |
| App.NoDragStays | sources/main.cpp:101-105 | without a drag event the emitter does not move |
| App.AfterFrames | sources/main.cpp:95-106 | the emitter after the events of several frames, handled frame after frame; the radius never changes |
| App.OffScreen | sources/main.cpp:120-121 | the flip condition: y - r <= 0 or y + r > HEIGHT |
| App.Bounce | sources/main.cpp:119-123 | y changes by exactly speed; for a nonzero speed it turns round iff the moved obstacle has y - r <= 0 or y + r > HEIGHT; its magnitude is kept; the bounce band is preserved |
| App.Bounces | sources/main.cpp:119-123 | repeated bounces never change the obstacle's x or radius |
| App.BounceStaysNearScreen | sources/main.cpp:93-123 | starting in the band (as the initial speed 10 does), after any number of frames the obstacle is within 10 pixels of the screen vertically and its speed is +10 or -10 |
| App.FramesShown | sources/main.cpp:95-99 | the loop draws frames up to and including the first that holds a quit event, or all frames if there is none |
| App.FramesShownUnique | sources/main.cpp:95-99 | any count with that stopping property equals FramesShown |
| App.Outlines | sources/main.cpp:115-117 | the points drawn for a list of circles: each circle's outline, in list order |
| App.Scene.constructor | sources/main.cpp:83-93 | the initial state: emitter (200, 200, 40), obstacles (820, 300, 140) and (350, 650, 80), the ray field of the emitter, speed 10 |
| App.Scene.HandleEvents | sources/main.cpp:96-106 | quit is raised iff a quit event came; the emitter ends at AfterEvents of the events, with its ray field regenerated; the obstacles and speed do not change |
| App.Scene.DrawOutlines | sources/main.cpp:112-117 | the outline of the emitter, then of each obstacle, in order |
| App.Scene.AdvanceObstacle | sources/main.cpp:119-123 | obstacle 0 and the speed become the Bounce of the old ones; obstacle 1 and the emitter do not change; the band invariant is kept |
| App.Scene.Frame | sources/main.cpp:95-127 | one loop pass: events, then a fresh buffer with the rays marched with the obstacles where they stood, then the outlines, then the bounce |
| App.Scene.Run | sources/main.cpp:95-128 | the loop draws exactly FramesShown frames; afterwards the emitter is AfterFrames of the shown frames' events, obstacle 0 and the speed are Bounces over the shown frames, obstacle 1 is unchanged, and the scene invariant holds |
| Scenario.HitAtRow211 | sources/ray_tracing.hpp:82-90 | (200, 211) is strictly inside the obstacle of radius 10 at (200, 220) |
| Scenario.StraightDownMarch | sources/ray_tracing.hpp:72-97 | the straight-down ray from (200, 200) is the ray colour over rows 200 .. 210 with the obstacle colour at row 211 |
| Scenario.StraightDownHitsAtRow211 | sources/ray_tracing.hpp:77-97 | rows 200 .. 210 of column 200 get the ray colour, row 211 the obstacle colour, and every other pixel keeps its value |

## Left out

- Presentation is not modelled. This covers window, renderer, texture creation and upload,
  `SDL_RenderClear`, the draw colour, `SDL_RenderPresent` and `SDL_Delay`. The frame
  buffer and the outline points are returned instead of being shown.
- Event polling becomes a sequence of events per frame, and the loop runs over a finite
  sequence of frames.
- Threads are not modelled: `Dispatch.ComputeRays` runs the chunks one after the other, in
  chunk order. Spawning, joining and the concurrent, unsynchronised writes to the shared
  buffer are left out.
  - The sequential order fixes which ray wins a pixel that several rays write. With real
    threads that is left open.
  - The frame properties of `Marcher.MarchRangeFrame` and `App.FrameColors` would also hold
    for any order of the rays' writes, since they only speak of visited pixels and the two
    foreground colours, but they are proved here only for index order.
- Floating point is not modelled: positions and directions are exact reals. IEEE-754
  rounding of `x += ray.dx` and of the angle is not captured.
- The angle is stored as a fraction of a turn, not in radians. `cos` and `sin` are
  parameters, and the model only requires them to satisfy cos² + sin² = 1
  (`Generator.UnitCircle`).
- Marcher.TraceRay: requires a direction with a component of magnitude at least 1/2, which
  makes the march end. Every unit direction has one (`Generator.UnitDirectionMarches`).
  The source would loop forever on a zero direction.
- Dispatch.ComputeRays: requires at least one worker. The source divides by the worker
  count.
- Integer widths are not modelled for circle coordinates, the walk variables of
  `draw_circle` or the bounce arithmetic. These stay far from 32-bit limits for the
  values the program uses. `size_t` versus `int` in the chunk arithmetic is not modelled
  either.
- The symmetry of the outline is stated as an index involution, not as multiset
  equality. The mirror of the point at index k is the point at `MirrorIndex(k)`, and
  `MirrorIndex` is an involution, so mirroring permutes the drawn points.
- App.Scene: keeps exactly two obstacles, as the program does. `Valid` ties the ray array
  to the field of the emitter's current position.
- `sources/rays.hpp`, `sources/constants.hpp` and `sources/models.hpp` are not part of
  this model. They only redeclare the records, constants and signatures of
  `sources/ray_tracing.hpp:10-40`.
