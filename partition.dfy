/**
 How fib splits the indices still to compute, [prev + 1, target], into one chunk per
 task of the pool (main.cpp, lines 76-86).
 */
module Partition {

  /**
   The ceiling of a / b. The source divides in double precision and rounds up with
   std::ceil; for the small operands involved that is exactly this integer division.
   */
  function CeilDiv(a: int, b: int): (q: int)
    requires b >= 1
    ensures (q - 1) * b < a <= q * b
  {
    var n := a + b - 1;
    assert n == (n / b) * b + n % b;
    n / b
  }

  /** One deferred task: the inclusive index range [lo, hi] that fibLoop walks. */
  datatype Chunk = Chunk(lo: int, hi: int)

  /**
   Chunk k of a pool of `pool` chunks of `size` indices laid out from `start`: the last
   chunk is forced to end at `target`.
   */
  function ChunkAt(start: int, size: int, target: int, pool: int, k: int): (c: Chunk)
  {
    var lo := start + size * k;
    Chunk(lo, if k == pool - 1 then target else lo + (size - 1))
  }

  /**
   The highest index filled once the first k chunks have run in order on a table that
   held 0..prev, capped at target because fibLoop never fills past loopLimit = target + 1.
   */
  function Covered(prev: int, size: int, target: int, pool: int, k: int): (top: int)
  {
    if k == pool then target else Min(prev + size * k, target)
  }

  function Min(a: int, b: int): (m: int) { if a <= b then a else b }

  function Max(a: int, b: int): (m: int) { if a <= b then b else a }

  /** A cache miss, prev < target, split over at least one task gets a positive chunk size. */
  lemma ChunkSizePositive(target: int, prev: int, pool: int)
    requires prev < target
    requires pool >= 1
    ensures CeilDiv(target - prev, pool) >= 1
  {
  }

  /** Every non-last chunk is exactly `size` long and is followed by the next index. */
  lemma ChunksAdjacent(start: int, size: int, target: int, pool: int, k: int)
    requires 0 <= k < pool - 1
    ensures ChunkAt(start, size, target, pool, k).hi - ChunkAt(start, size, target, pool, k).lo + 1 == size
    ensures ChunkAt(start, size, target, pool, k + 1).lo == ChunkAt(start, size, target, pool, k).hi + 1
  {
  }

  /** Chunk k starts `k` chunk sizes after `start`, and the last chunk ends at `target`, for any pool of at least one task. */
  lemma ChunkBounds(start: int, size: int, target: int, pool: int, k: int)
    requires pool >= 1
    requires 0 <= k < pool
    ensures ChunkAt(start, size, target, pool, k).lo == start + size * k
    ensures ChunkAt(start, size, target, pool, pool - 1).hi == target
  {
  }

  /** Earlier chunks end before later chunks start: the chunks are disjoint and increasing. */
  lemma ChunksOrdered(start: int, size: int, target: int, pool: int, j: int, k: int)
    requires size >= 1
    requires 0 <= j < k < pool
    ensures ChunkAt(start, size, target, pool, j).hi < ChunkAt(start, size, target, pool, k).lo
  {
    var d := k - j - 1;
    assert size * k == size * j + size + size * d;
    assert size * d >= 0;
  }

  /** With a positive chunk size, every index in [start, target] lies in some chunk. */
  lemma ChunksCover(start: int, size: int, target: int, pool: int, x: int)
    requires size >= 1
    requires pool >= 1
    requires start <= x <= target
    ensures exists k :: 0 <= k < pool && ChunkAt(start, size, target, pool, k).lo <= x <= ChunkAt(start, size, target, pool, k).hi
  {
    var d := x - start;
    var q := d / size;
    assert d == q * size + d % size;
    var k := if q < pool - 1 then q else pool - 1;
    assert size * k <= size * q;
    assert ChunkAt(start, size, target, pool, k).lo <= x <= ChunkAt(start, size, target, pool, k).hi;
  }

  /**
   Running chunk k after chunks 0..k-1 extends the filled prefix without a gap: chunk k
   starts right after the covered prefix, or lies wholly past loopLimit = target + 1; and
   the prefix then reaches Covered(k + 1).
   */
  lemma CoveredStep(prev: int, size: int, target: int, pool: int, k: int)
    requires prev < target
    requires size >= 1
    requires 0 <= k < pool
    ensures var c, t := ChunkAt(prev + 1, size, target, pool, k), Covered(prev, size, target, pool, k);
      && prev <= t <= target
      && prev + 1 <= c.lo
      && (c.lo <= t + 1 || target + 1 <= c.lo)
      && Covered(prev, size, target, pool, k + 1)
         == if c.lo <= t + 1 then Max(t, Min(c.hi, target)) else t
  {
  }

  /** The example layout of a 19-index miss over three tasks, and a layout whose middle chunks overshoot. */
  lemma LayoutExamples()
    ensures CeilDiv(20 - 1, 3) == 7
    ensures ChunkAt(2, 7, 20, 3, 0) == Chunk(2, 8)
    ensures ChunkAt(2, 7, 20, 3, 1) == Chunk(9, 15)
    ensures ChunkAt(2, 7, 20, 3, 2) == Chunk(16, 20)
    ensures CeilDiv(8 - 1, 6) == 2 && ChunkAt(2, 2, 8, 6, 4) == Chunk(10, 11)
  {
  }
}
