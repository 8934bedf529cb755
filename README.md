# Memoised Fibonacci with chunked cache fill

A Dafny model of the memoisation core of `main.cpp`. It covers two functions.

- `fibLoop` fills one chunk of indices of a shared memo table (`unordered_map<int,int>`).
  It skips cached indices and stops at the first missing index at or past `loopLimit`.
  Every other missing index gets the sum of its two predecessors, and each insertion bumps a counter.
- `fib` handles one request. It rejects a negative target and answers 0 and 1 directly.
  A cached target is answered from the table. On a miss it seeds the table if empty,
  takes the last cached index `prev` from the table's size, and splits `prev + 1..target`
  into `CPUPool` chunks of `ceil((target - prev) / CPUPool)` indices. The last chunk is
  forced to end at `target`. It runs the chunk tasks and returns the cached value.

The tasks are created with `std::launch::deferred` and joined in the order they were created.
So they run one after another in the calling thread, in increasing index order.
The model runs them that way: the first loop of `Fib` builds the task list, and the second
runs each task with `FibLoop`. The memo table is a by-reference parameter that nothing
else aliases, so each method takes it as a `map<int, int>` and returns the updated map.
The counter, an `int&` in the source, is passed in and returned the same way.

Modules:

- `FibSpec` (`fib_spec.dfy`) defines the specification function `Fibonacci`, the table
  shapes `FibCorrect` and `FibPrefix`, and the 32-bit bound.
- `Partition` (`partition.dfy`) covers the ceiling division, the chunk layout and the
  lemmas about that layout.
- `Memoization` (`memo.dfy`) holds `FibLoop`, `Fib` and the lemmas that connect a chunk
  run to the growing prefix.
- `SampleDriver` (`driver.dfy`) replays the driver's requests 8, 21 and 4 on one table.
  It is a client that relies only on the contract of `Fib`.

The main end-state result is the contract of `Fib`. Suppose the table held exactly
Fibonacci(0..prev) (or was empty) and `target` is missing. Then afterwards the table holds
exactly Fibonacci(0..target), the result is Fibonacci(target), and the counter equals
`target - prev`, the number of keys computed after seeding (on a non-empty table, the
number of new keys). This holds for every pool size of at least 1.
It holds even when a middle chunk reaches past `target` or the last chunk is empty.
The reason is that `loopLimit = target + 1` stops those chunks, and each chunk that is
not wholly past `target` starts right after what the earlier chunks filled.

Behaviour of `main.cpp` that the model keeps:

- With `start <= 1`, `fibLoop` writes indices 0 and 1 again on every such call (lines 28-32, `Seeded`).
- `fibLoop` has no error path for a missing predecessor: `operator[]` at line 40 would read 0.
  The model states, as a precondition, the condition under which this cannot happen.
- `fib` does not check the pool size it is given (lines 48-99).

## Model

| member | source | states |
|---|---|---|
| `Memoization.FibLoop` | main.cpp:27-45 | The new keys are exactly the chunk's indices below `loopLimit` (so no key at or past `loopLimit` is added). Every entry present before (after reseeding 0 and 1 when `start <= 1`) keeps its value. Every new entry is the sum of its two predecessors. The counter rises by exactly the number of new keys. A Fibonacci-correct table stays Fibonacci-correct. |
| `Memoization.Seeded` | main.cpp:28-32 | A chunk starting at or below 1 sets index 0 to 0 and index 1 to 1 and keeps every other entry. Any other chunk leaves the table as it is. |
| `Memoization.InsertKeepsFill` | main.cpp:35-42 | Caching index i as the sum of its cached predecessors adds one key, keeps every earlier value and keeps the table Fibonacci-correct. |
| `Memoization.KeysStep` | main.cpp:33-38 | After visiting index i, cached or newly filled, the table's keys are the old keys plus the visited indices below `loopLimit`. |
| `Memoization.Fib` | main.cpp:48-99 | A negative target gives `InvalidArgument` and leaves the table untouched. Targets 0 and 1 return themselves with the table unchanged. A cached target returns its stored value with the table unchanged and no entries computed. On a miss, with the table empty or a Fibonacci prefix 0..size-1, the result is Fibonacci(target), the table becomes exactly Fibonacci(0..target), and the counter is `target - prev`, the number of keys computed after seeding; on a non-empty table that is the number of new keys. |
| `Memoization.SeedIsPrefix` | main.cpp:66-73 | Seeding an empty table gives the prefix 0..1 of two entries, so `prev` is 1. |
| `Memoization.PrefixGivesPredecessors` | main.cpp:40 | In a table holding 0..t with t >= 1, a chunk that starts at index 2 or more and at or before t + 1, or at/after `loopLimit`, finds each missing index's two predecessors cached or computed earlier in the chunk. So no missing entry is read. |
| `Memoization.ChunkExtendsPrefix` | main.cpp:33-44 | Filling a chunk that starts at or before t + 1 on a prefix 0..t leaves the prefix 0..max(t, min(hi, loopLimit-1)). A chunk that starts past `loopLimit` adds nothing and leaves 0..t. |
| `Memoization.ChunkReady` | main.cpp:76-88 | Chunk k of fib's layout, run after chunks 0..k-1, starts at index 2 or more (so it is not reseeded) and meets fibLoop's precondition. |
| `Memoization.ChunkRunExtends` | main.cpp:88-92 | Running chunk k after chunks 0..k-1 turns the prefix 0..Covered(k) into 0..Covered(k+1) and adds exactly Covered(k+1) - Covered(k) keys. |
| `Partition.CeilDiv` | main.cpp:78 | The chunk size q is the ceiling of a / b: (q - 1) * b < a <= q * b. |
| `Partition.ChunkSizePositive` | main.cpp:78 | On a miss (prev < target) with at least one task, the chunk size is at least 1. |
| `Partition.ChunksAdjacent` | main.cpp:81-86 | Every non-last chunk is exactly `chunkSize` long, and the next chunk starts right after it. |
| `Partition.ChunkBounds` | main.cpp:82-86 | For a pool of at least one task, chunk k starts at `start + chunkSize * k` and the last chunk ends at `target`. |
| `Partition.ChunksOrdered` | main.cpp:81-86 | With a positive chunk size, an earlier chunk ends before any later chunk starts: the chunks are disjoint and increasing. |
| `Partition.ChunksCover` | main.cpp:76-86 | With a positive chunk size, every index in [start, target] lies in some chunk. |
| `Partition.CoveredStep` | main.cpp:81-92 | Before chunk k runs, the filled prefix reaches Covered(k) with prev <= Covered(k) <= target. Chunk k starts at or after prev + 1, either right after that prefix or past `loopLimit`. Running it brings the prefix to Covered(k+1). |
| `Partition.LayoutExamples` | main.cpp:76-86 | The 19 missing indices 2..20 over three tasks give the chunks [2,8], [9,15] and [16,20]. Seven missing indices 2..8 over six tasks give chunk size 2, and chunk 4 is [10,11], wholly past target 8. |
| `FibSpec.FibPrefixSize` | main.cpp:70 | A table holding exactly 0..top has top + 1 entries, so `size() - 1` is its last index. |
| `FibSpec.PrefixFitsInt` | main.cpp:40 | Every value of a prefix up to index 46 fits in a 32-bit `int`. Fibonacci(47) does not fit. |
| `FibSpec.FibonacciTable` | main.cpp:109-148 | Fibonacci(4) = 3, Fibonacci(8) = 21, Fibonacci(21) = 10946, Fibonacci(46) = 1836311903 and Fibonacci(47) = 2971215073. |
| `SampleDriver.SampleRun` | main.cpp:109-148 | Requesting 8 on an empty table returns 21 and computes 7 values. Then 21 returns 10946 and computes 13. Then 4 returns 3 from the cache and computes 0. |

## Left out

- Timing (`std::chrono`) and all console output are left out. The counter that the source prints is returned as an out-parameter.
- The mutexes, the `lock_guard`s, the condition variable and `std::async`/`std::future` are left out. With deferred launch and in-order `get()` the tasks run sequentially, and the model runs them so. Concurrent top-level requests on one table are not modelled.
- `std::thread::hardware_concurrency` and the pool size `CPUThread/4` are platform queries. The pool size is a parameter, and `Fib` requires it to be at least 1 on a miss. A pool size of 0 would make line 78 convert an infinite double to `int`.
- `main` is not modelled. That covers its `assert`, the `runtime_error` it throws for a pool of 7 or more, the `try`/`catch` printing, the `condVar.wait` calls and `cin.get()`. `SampleRun` replays only its three requests. `main` also accepts a pool of 0 (lines 108 and 110 only bound it from above), but `fib` then converts an infinite `double` to `int` at line 78, which is undefined behaviour; `SampleRun` therefore requires `1 <= cpuPool < 7`.
- The ceiling at line 78 is computed with `double` and `std::ceil`. It is modelled as exact integer ceiling division, which agrees for the magnitudes involved.
- Fib: values are unbounded integers, not 32-bit `int`s. Signed overflow is undefined behaviour in the source, so a miss requires `target <= 46`. `PrefixFitsInt` shows that every value stored then fits, and that index 47 would not fit.
- FibLoop: `operator[]` silently inserts 0 for a missing predecessor. That is not modelled. Instead, a precondition says every index to compute finds both predecessors, either cached or computed earlier in the chunk.
- Fib: on a miss, the table must be empty or a Fibonacci prefix 0..size-1 with at least two entries. A table holding only index 0 is not modelled (the source would read a default 0 for index 1), and neither is a table with gaps.
- Fib: on the paths that return before the counter exists (a negative target, targets 0 and 1) and on a cache hit, the counter is reported as 0.
