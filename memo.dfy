/**
 The memoised Fibonacci fill of main.cpp: fibLoop fills one chunk of indices of the shared
 memo table, and fib checks the cache, lays out one chunk per task of the pool and runs the
 tasks. The tasks are launched deferred and joined in order, so they run one after another
 in the caller, in increasing index order; the model runs them so.

 The memo table is passed by reference in the source and nothing else aliases it, so it is
 modelled as a map handed to each method and handed back updated.
 */
module Memoization {
  import opened FibSpec
  import opened Partition

  /** The exception fib throws. */
  datatype Error = InvalidArgument

  datatype Result<T> = Success(value: T) | Failure(error: Error)

  /** The table fibLoop works on: indices 0 and 1 are (re)seeded when the chunk starts at or below 1. */
  function Seeded(memo: map<int, int>, start: int): (base: map<int, int>)
    ensures start <= 1 ==> base.Keys == memo.Keys + {0, 1} && base[0] == 0 && base[1] == 1
    ensures start <= 1 ==> forall i :: i in memo && i != 0 && i != 1 ==> base[i] == memo[i]
    ensures 2 <= start ==> base == memo
  {
    if start <= 1 then memo[0 := 0][1 := 1] else memo
  }

  /** The first index fibLoop's loop visits. */
  function FirstIndex(start: int): (lo: int)
  {
    if start <= 1 then 2 else start
  }

  /**
   Every index fibLoop will compute finds its two predecessors either already in the table
   or computed earlier in the same chunk, so no read of a missing entry happens.
   */
  ghost predicate PredecessorsAvailable(memo: map<int, int>, lo: int, hi: int, loopLimit: int)
  {
    forall i :: lo <= i <= hi && i < loopLimit && i !in memo ==>
      (i - 1 in memo || lo < i) && (i - 2 in memo || lo < i - 1)
  }

  /** Entry i of m is the sum of its two predecessors, both present. */
  ghost predicate SumOfPredecessors(m: map<int, int>, i: int)
    requires i in m
  {
    i - 1 in m && i - 2 in m && m[i] == m[i - 1] + m[i - 2]
  }

  /**
   fibLoop: walks the indices start..endChunk, skips the cached ones, stops at the first
   missing index at or past loopLimit, and caches every other missing index as the sum of
   its two predecessors, counting each insertion.
   */
  method FibLoop(memo: map<int, int>, loopLimit: int, start: int, endChunk: int, counter: int)
    returns (memo': map<int, int>, counter': int)
    requires PredecessorsAvailable(Seeded(memo, start), FirstIndex(start), endChunk, loopLimit)
    // the keys added are exactly the chunk's indices below loopLimit
    ensures forall i :: i in memo' <==>
      i in Seeded(memo, start) || (FirstIndex(start) <= i <= endChunk && i < loopLimit)
    // no cached entry is overwritten (besides the reseeding of 0 and 1)
    ensures forall i :: i in Seeded(memo, start) ==> memo'[i] == Seeded(memo, start)[i]
    // every new entry is the sum of its two predecessors
    ensures forall i :: i in memo' && i !in Seeded(memo, start) ==> SumOfPredecessors(memo', i)
    // the counter rises by one per new key
    ensures counter' == counter + |memo'| - |Seeded(memo, start)|
    ensures FibCorrect(Seeded(memo, start)) ==> FibCorrect(memo')
  {
    memo' := Seeded(memo, start);
    counter' := counter;
    ghost var base := memo';
    var i := FirstIndex(start);
    while i <= endChunk
      invariant FirstIndex(start) <= i
      invariant i <= endChunk + 1 || i == FirstIndex(start)
      invariant forall j :: j in memo' <==> j in base || (FirstIndex(start) <= j < i && j < loopLimit)
      invariant forall j :: j in base ==> memo'[j] == base[j]
      invariant forall j :: j in memo' && j !in base ==> SumOfPredecessors(memo', j)
      invariant counter' == counter + |memo'| - |base|
      invariant FibCorrect(base) ==> FibCorrect(memo')
    {
      if i !in memo' {
        if i >= loopLimit {
          break;
        }
        ghost var was := memo';
        memo' := memo'[i := memo'[i - 1] + memo'[i - 2]];
        counter' := counter' + 1;
        InsertKeepsFill(base, was, memo', i);
        KeysStep(base, was, memo', FirstIndex(start), i, loopLimit);
      } else {
        KeysStep(base, memo', memo', FirstIndex(start), i, loopLimit);
      }
      i := i + 1;
    }
  }

  /** Visiting index i, cached before or cached now, extends the filled range by i. */
  lemma KeysStep(base: map<int, int>, m: map<int, int>, m': map<int, int>, lo: int, i: int, loopLimit: int)
    requires lo <= i < loopLimit || i in m
    requires forall j :: j in m <==> j in base || (lo <= j < i && j < loopLimit)
    requires m'.Keys == m.Keys + {i}
    ensures forall j :: j in m' <==> j in base || (lo <= j < i + 1 && j < loopLimit)
  {
  }

  /** Caching index i as the sum of its two cached predecessors keeps the fill invariants. */
  lemma InsertKeepsFill(base: map<int, int>, m: map<int, int>, m': map<int, int>, i: int)
    requires i !in m && i - 1 in m && i - 2 in m && 2 <= i
    requires m' == m[i := m[i - 1] + m[i - 2]]
    requires forall j :: j in base ==> j in m && m[j] == base[j]
    requires forall j :: j in m && j !in base ==> SumOfPredecessors(m, j)
    requires FibCorrect(base) ==> FibCorrect(m)
    ensures forall j :: j in base ==> m'[j] == base[j]
    ensures forall j :: j in m' && j !in base ==> SumOfPredecessors(m', j)
    ensures FibCorrect(base) ==> FibCorrect(m')
    ensures |m'| == |m| + 1
  {
    forall j | j in m' && j !in base
      ensures SumOfPredecessors(m', j)
    {
      if j != i {
        assert SumOfPredecessors(m, j);
      }
    }
  }

  /** A miss: fib has to compute target. */
  predicate Misses(memo: map<int, int>, target: int)
  {
    target >= 2 && target !in memo
  }

  /** The table fib can extend: empty, or a Fibonacci prefix whose last index its size tells. */
  ghost predicate CacheReady(memo: map<int, int>)
  {
    memo == map[] || (|memo| >= 2 && FibPrefix(memo, |memo| - 1))
  }

  /** prev in fib: the last cached index once 0 and 1 are seeded. */
  function LastIndex(memo: map<int, int>): (prev: int)
  {
    if |memo| <= 1 then 1 else |memo| - 1
  }

  /** The seeded table holds Fibonacci(0) and Fibonacci(1) and has two entries. */
  lemma SeedIsPrefix()
    ensures FibPrefix(map[0 := 0, 1 := 1], 1)
    ensures |map[0 := 0, 1 := 1]| == 2
  {
  }

  /** A table holding 0..t, with chunk [lo, hi] at its end or past loopLimit, gives fibLoop what it reads. */
  lemma PrefixGivesPredecessors(m: map<int, int>, t: int, lo: int, hi: int, loopLimit: int)
    requires FibPrefix(m, t)
    requires 1 <= t
    requires 2 <= lo
    requires lo <= t + 1 || loopLimit <= lo
    ensures PredecessorsAvailable(m, lo, hi, loopLimit)
  {
  }

  /**
   Running a chunk that starts at or before t + 1 on a prefix 0..t extends it to
   0..max(t, min(hi, loopLimit - 1)); a chunk wholly past loopLimit leaves 0..t.
   */
  lemma ChunkExtendsPrefix(m: map<int, int>, m': map<int, int>, t: int, lo: int, hi: int, loopLimit: int)
    requires FibPrefix(m, t)
    requires 0 <= lo
    requires lo <= t + 1 || loopLimit <= lo
    requires forall i :: i in m' <==> i in m || (lo <= i <= hi && i < loopLimit)
    requires FibCorrect(m')
    ensures FibPrefix(m', if lo <= t + 1 then Max(t, Min(hi, loopLimit - 1)) else t)
  {
  }

  /** Chunk k of fib's layout, run after chunks 0..k-1, meets fibLoop's precondition and is not reseeded. */
  lemma ChunkReady(prev: int, size: int, target: int, pool: int, k: int, m: map<int, int>)
    requires 1 <= prev < target
    requires size >= 1
    requires 0 <= k < pool
    requires FibPrefix(m, Covered(prev, size, target, pool, k))
    ensures var c := ChunkAt(prev + 1, size, target, pool, k);
      && FirstIndex(c.lo) == c.lo && Seeded(m, c.lo) == m
      && PredecessorsAvailable(m, c.lo, c.hi, target + 1)
  {
    var c := ChunkAt(prev + 1, size, target, pool, k);
    CoveredStep(prev, size, target, pool, k);
    PrefixGivesPredecessors(m, Covered(prev, size, target, pool, k), c.lo, c.hi, target + 1);
  }

  /**
   Running chunk k of fib's layout after chunks 0..k-1 extends the prefix 0..Covered(k)
   to 0..Covered(k + 1), adding one key per index in between.
   */
  lemma ChunkRunExtends(prev: int, size: int, target: int, pool: int, k: int, m: map<int, int>, m': map<int, int>)
    requires 1 <= prev < target
    requires size >= 1
    requires 0 <= k < pool
    requires FibPrefix(m, Covered(prev, size, target, pool, k))
    requires var c := ChunkAt(prev + 1, size, target, pool, k);
      forall i :: i in m' <==> i in m || (c.lo <= i <= c.hi && i < target + 1)
    requires FibCorrect(m')
    ensures FibPrefix(m', Covered(prev, size, target, pool, k + 1))
    ensures |m'| - |m| == Covered(prev, size, target, pool, k + 1) - Covered(prev, size, target, pool, k)
  {
    var c := ChunkAt(prev + 1, size, target, pool, k);
    var t := Covered(prev, size, target, pool, k);
    CoveredStep(prev, size, target, pool, k);
    ChunkExtendsPrefix(m, m', t, c.lo, c.hi, target + 1);
    FibPrefixSize(m, t);
    FibPrefixSize(m', Covered(prev, size, target, pool, k + 1));
  }

  /**
   fib: negative targets throw, 0 and 1 are returned as they are, a cached target is
   returned from the table; otherwise the table is seeded if empty, the missing indices
   prev + 1..target are split into cpuPool chunks, the chunks are filled in order and the
   cached value of target is returned. The counter is the number of values computed.
   */
  method Fib(target: int, cpuPool: int, memo: map<int, int>)
    returns (r: Result<int>, memo': map<int, int>, counter: int)
    requires Misses(memo, target) ==> 1 <= cpuPool && target <= 46 && CacheReady(memo)
    ensures target < 0 ==> r == Failure(InvalidArgument) && memo' == memo && counter == 0
    ensures 0 <= target <= 1 ==> r == Success(target) && memo' == memo && counter == 0
    ensures target >= 2 && target in memo ==> r == Success(memo[target]) && memo' == memo && counter == 0
    ensures Misses(memo, target) ==> r == Success(Fibonacci(target)) && FibPrefix(memo', target)
    ensures Misses(memo, target) ==> counter == target - LastIndex(memo)
    ensures Misses(memo, target) && memo != map[] ==> counter == |memo'| - |memo|
  {
    memo' := memo;
    counter := 0;
    if target < 0 {
      r := Failure(InvalidArgument);
      return;
    }
    if target <= 1 {
      r := Success(target);
      return;
    }
    if target in memo' {
      r := Success(memo'[target]);
      return;
    }
    if memo' == map[] {
      memo' := memo'[0 := 0][1 := 1];
      SeedIsPrefix();
    }
    var prev := |memo'| - 1;
    if prev < 1 {
      prev := 1;
    }
    var start := prev + 1;
    var loopLimit := target + 1;
    var chunkSize := CeilDiv(target - prev, cpuPool);
    ChunkSizePositive(target, prev, cpuPool);

    // lay out the deferred tasks
    var tasks: seq<Chunk> := [];
    for k := 0 to cpuPool
      invariant |tasks| == k
      invariant forall j :: 0 <= j < k ==> tasks[j] == ChunkAt(start, chunkSize, target, cpuPool, j)
    {
      var chunkStart := start + chunkSize * k;
      var chunkEnd := chunkStart + (chunkSize - 1);
      if k == cpuPool - 1 {
        chunkEnd := target;
      }
      tasks := tasks + [Chunk(chunkStart, chunkEnd)];
    }

    // run them in order
    for k := 0 to |tasks|
      invariant FibPrefix(memo', Covered(prev, chunkSize, target, cpuPool, k))
      invariant counter == Covered(prev, chunkSize, target, cpuPool, k) - prev
    {
      ChunkReady(prev, chunkSize, target, cpuPool, k, memo');
      ghost var before := memo';
      memo', counter := FibLoop(memo', loopLimit, tasks[k].lo, tasks[k].hi, counter);
      ChunkRunExtends(prev, chunkSize, target, cpuPool, k, before, memo');
    }
    FibPrefixSize(memo', target);
    r := Success(memo'[target]);
  }
}
