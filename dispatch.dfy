/**
  * The dispatcher: the ray indices [0, RAYS_NUMBER) are split into `numThreads`
  * contiguous chunks of RAYS_NUMBER / numThreads rays, the last chunk taking the
  * remainder, and the marcher runs over each chunk.
  *
  * The workers run one after the other here, in chunk order; thread start and join
  * are not modelled.
  */
module Dispatch {
  import opened Constants
  import opened Models
  import opened Marcher

  /** rays_per_thread: the size of every chunk but the last. */
  function ChunkSize(numThreads: nat): (q: nat)
    requires numThreads >= 1
    ensures q * numThreads <= RAYS_NUMBER < (q + 1) * numThreads
  {
    RAYS_NUMBER / numThreads
  }

  /** The first ray index of chunk `t`. */
  function ChunkStart(t: nat, numThreads: nat): (s: nat)
    requires t < numThreads
    ensures s + ChunkSize(numThreads) <= RAYS_NUMBER
  {
    MultiplyMonotone(t + 1, numThreads, ChunkSize(numThreads));
    t * ChunkSize(numThreads)
  }

  /** One past the last ray index of chunk `t`. */
  function ChunkEnd(t: nat, numThreads: nat): (e: nat)
    requires t < numThreads
    ensures ChunkStart(t, numThreads) <= e <= RAYS_NUMBER
  {
    if t == numThreads - 1 then RAYS_NUMBER else ChunkStart(t, numThreads) + ChunkSize(numThreads)
  }

  lemma ChunkStartMonotone(s: nat, t: nat, numThreads: nat)
    requires s <= t < numThreads
    ensures ChunkStart(s, numThreads) <= ChunkStart(t, numThreads)
  {
    MultiplyMonotone(s, t, ChunkSize(numThreads));
  }

  /**
    * The chunks are well formed and follow each other: the first starts at 0, each ends
    * where the next starts, the last ends at RAYS_NUMBER and holds RAYS_NUMBER / n plus
    * the remainder RAYS_NUMBER % n.
    */
  lemma {:induction false} ChunksContiguous(t: nat, numThreads: nat)
    requires t < numThreads
    ensures ChunkStart(0, numThreads) == 0
    ensures ChunkStart(t, numThreads) <= ChunkEnd(t, numThreads) <= RAYS_NUMBER
    ensures t + 1 < numThreads ==> ChunkEnd(t, numThreads) == ChunkStart(t + 1, numThreads)
    ensures ChunkEnd(numThreads - 1, numThreads) == RAYS_NUMBER
    ensures ChunkEnd(numThreads - 1, numThreads) - ChunkStart(numThreads - 1, numThreads)
         == ChunkSize(numThreads) + RAYS_NUMBER % numThreads
  {
    var q := ChunkSize(numThreads);
    ChunkStartMonotone(t, numThreads - 1, numThreads);
    assert (numThreads - 1) * q == numThreads * q - q;
    assert RAYS_NUMBER % numThreads == RAYS_NUMBER - numThreads * q;
    assert t + 1 < numThreads ==> (t + 1) * q == t * q + q;
  }

  /** The chunk that ray `i` falls in. */
  function ChunkOf(i: nat, numThreads: nat): (t: nat)
    requires i < RAYS_NUMBER && numThreads >= 1
    ensures t < numThreads
    ensures ChunkStart(t, numThreads) <= i < ChunkEnd(t, numThreads)
  {
    var q := ChunkSize(numThreads);
    if q == 0 then
      numThreads - 1
    else
      var t: nat := i / q;
      DivisionBounds(i, q);
      if t >= numThreads - 1 then
        MultiplyMonotone(numThreads - 1, t, q);
        numThreads - 1
      else
        assert ChunkStart(t, numThreads) == t * q && ChunkEnd(t, numThreads) == t * q + q;
        t
  }

  lemma DivisionBounds(i: nat, q: nat)
    requires q > 0
    ensures i / q >= 0
    ensures (i / q) * q <= i < (i / q) * q + q
  {
  }

  lemma MultiplyMonotone(s: nat, t: nat, q: nat)
    requires s <= t
    ensures s * q <= t * q
  {
    assert t * q == s * q + (t - s) * q;
  }

  /** No ray belongs to two chunks: together the chunks cover [0, RAYS_NUMBER) exactly once. */
  lemma ChunksDisjoint(i: nat, s: nat, t: nat, numThreads: nat)
    requires s < numThreads && t < numThreads
    requires ChunkStart(s, numThreads) <= i < ChunkEnd(s, numThreads)
    requires ChunkStart(t, numThreads) <= i < ChunkEnd(t, numThreads)
    ensures s == t
  {
    if s < t {
      ChunksContiguous(s, numThreads);
      ChunkStartMonotone(s + 1, t, numThreads);
    } else if t < s {
      ChunksContiguous(t, numThreads);
      ChunkStartMonotone(t + 1, s, numThreads);
    }
  }

  /**
    * compute_rays: march every chunk, chunk after chunk. The buffer ends as if every ray
    * were marched in index order, whatever the number of workers.
    */
  method ComputeRays(pixelBuffer: array<Color>, rays: array<Ray>, obstacles: seq<Circle>, numThreads: int)
    requires pixelBuffer.Length == PIXELS && rays.Length == RAYS_NUMBER && |obstacles| >= 2
    requires RangeOk(rays[..], 0, RAYS_NUMBER)
    requires numThreads >= 1
    modifies pixelBuffer
    ensures pixelBuffer[..] == MarchRange(old(pixelBuffer[..]), rays[..], obstacles, 0, RAYS_NUMBER)
  {
    var raysPerThread := RAYS_NUMBER / numThreads;
    for t := 0 to numThreads
      invariant pixelBuffer[..] == MarchRange(old(pixelBuffer[..]), rays[..], obstacles, 0,
                                              if t < numThreads then ChunkStart(t, numThreads) else RAYS_NUMBER)
    {
      var start := t * raysPerThread;
      var end := if t == numThreads - 1 then RAYS_NUMBER else start + raysPerThread;
      ChunksContiguous(t, numThreads);
      assert start == ChunkStart(t, numThreads) && end == ChunkEnd(t, numThreads);
      ComputeRay(pixelBuffer, rays, obstacles, start, end);
      MarchRangeSplit(old(pixelBuffer[..]), rays[..], obstacles, 0, start, end);
    }
  }
}
