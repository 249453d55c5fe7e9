# Parallel prefix sum and i960 varargs offsets, in Dafny

This project models two pieces of GCC.

**libstdc++ parallel mode, `std::partial_sum`.** This is the prefix sum over an
associative operation `op`. The model covers three routines:

- The base case folds a range left to right from a seed. It writes each
  running value to the output.
- The linear routine first clamps the thread count to `n - 1`. If fewer than
  two threads remain, it scans sequentially. Otherwise it builds a border
  table, either an equal split or a split skewed by a fixed chunk length, and
  runs the worker team in three steps:
  - phase 1: worker 0 scans chunk 0, and every other worker totals its own
    chunk;
  - one worker turns those totals into carries with a scan done in place;
  - phase 3: every worker scans the chunk after its own, seeded with its carry.
- The front-end dispatches on the configured algorithm.

The team is simulated by sequential loops over the worker id, in barrier
order: phase 1 (`LocalPhase`), the single correction (`CorrectionPhase`),
then phase 3 (`FinalPhase`). The central result is the postcondition of
`PartialSumLinear`. For an associative `op`, every `result[i]` is the fold of
`input[0..i]`, and the routine returns `n`. Input and output may be the same
array, as `std::partial_sum` allows.

**The Intel 80960 `<va-i960.h>` macros.** The model covers the stack size
(`__vsiz`), the alignment (`__vali`) and the padded next offset (`__vpad`) of
an argument type. It also covers the update of the consumed-bytes word
`AP[1]` done by `va_start` in its varargs form and by `va_arg`. An argument
that would run past the 48-byte register area, or that is larger than 16
bytes, is taken from the stack part that follows.

Files:

- `folds.dfy`: `Fold`, `Reduce` and the fold algebra.
- `borders.dfy`: border tables, the equal and skewed splits, and chunk coverage.
- `partial_sum.dfy`: the base case, the phases, the linear routine and the
  front-end.
- `va_i960.dfy`: the varargs arithmetic.

## Model

| member | source | states |
|---|---|---|
| `PartialSum.BaseCase` | libstdc++-v3/include/parallel/partial_sum.h:61-76 | Output position `out + k` receives the fold of the seed with `input[lo..lo+k]`, in increasing order. Nothing outside the written range changes. It returns `out + (hi - lo)`, so an empty range writes nothing and returns `out`. |
| `PartialSum.ThreadCount` | libstdc++-v3/include/parallel/partial_sum.h:98-99 | The clamped thread count is at most `n - 1` and at most the request. It equals one of the two (the cast to `thread_index_t` is not modelled). |
| `PartialSum.ScanHead` | libstdc++-v3/include/parallel/partial_sum.h:102-103 | `*result = *begin` followed by the base case seeded with `input[0]` leaves the inclusive prefix sums of `input[0..k)` in `result[0..k)` and returns `k`. |
| `PartialSum.LocalPhase` | libstdc++-v3/include/parallel/partial_sum.h:128-137 | After phase 1, `result[0..borders[1])` holds the prefix sums and `sums[0]` is the total of chunk 0. For `id >= 1`, `sums[id]` is the total of chunk `id`. Output from `borders[1]` on is untouched. |
| `PartialSum.CorrectedTotals` | libstdc++-v3/include/parallel/partial_sum.h:141-142 | For associative `op`, folding the chunk totals 1..k onto `sums[0]` gives the total of the input up to `borders[k+1]`. |
| `PartialSum.CorrectionPhase` | libstdc++-v3/include/parallel/partial_sum.h:141-142 | The in-place scan of `sums[1..w)` seeded with `sums[0]` makes every `sums[id]` the total of `input[0..borders[id+1])`. `sums[0]` is unchanged. |
| `PartialSum.CarryScan` | libstdc++-v3/include/parallel/partial_sum.h:147 | A scan of chunk `[lo, hi)` seeded with the total up to `lo` writes at each index `i` the inclusive prefix sum up to `i`. |
| `PartialSum.FinalPhase` | libstdc++-v3/include/parallel/partial_sum.h:146-147 | Each iteration `id` runs the base case on `[borders[id+1], borders[id+2])`, seeded with `sums[id]`; the loop invariant is that `result[0..borders[id+1])` holds the prefix sums. Afterwards all of `result[0..n)` holds the inclusive prefix sums, and nothing at or past `n` changes. |
| `PartialSum.PartialSumLinear` | libstdc++-v3/include/parallel/partial_sum.h:90-153 | For associative `op` and `n >= 1`: `result[i] == Reduce(op, input[0..i])` for every `i < n`, positions at or past `n` are unchanged, and the routine returns `n`. This holds on the sequential fallback and on both border policies. |
| `PartialSum.ParallelPartialSum` | libstdc++-v3/include/parallel/partial_sum.h:163-186 | Returns exactly when the setting is `Linear`, with `end == n` and the prefix-sum result. Any other setting is the assertion failure and writes nothing. |
| `PartialSum.SkewedEmptyChunk` | libstdc++-v3/include/parallel/partial_sum.h:112-119 | With `n = 3` and 8 threads the clamp leaves 2 workers; a chunk length of 0 gives the table `[0, 3, 3, 3]`, whose chunk 1 starts at index 3, past the input, and which is not usable. |
| `PartialSum.SkewedEmptyHead` | libstdc++-v3/include/parallel/partial_sum.h:112-119 | With `n = 4` and 2 threads, a chunk length of 2 gives the table `[0, 0, 2, 4]`, whose chunk 0 is empty, so worker 0's base-case range `[1, borders[1])` is reversed, and which is not usable. |
| `Folds.FoldConcat` | libstdc++-v3/include/parallel/partial_sum.h:68-75 | Folding `a` and then `b` from a seed equals folding `a + b`. |
| `Folds.FoldAfterPrefix` | libstdc++-v3/include/parallel/partial_sum.h:103 | The fold of `s[j..k)` seeded with the total of `s[0..j)` is the total of `s[0..k)`. |
| `Folds.FoldShift` | libstdc++-v3/include/parallel/partial_sum.h:136 | For associative `op`, `op(x, Fold(y, t)) == Fold(op(x, y), t)`. |
| `Folds.ReduceConcat` | libstdc++-v3/include/parallel/partial_sum.h:136 | For associative `op`, the total of a prefix combined with the total of the next chunk is the total of the longer prefix. |
| `Borders.Owner` | libstdc++-v3/include/parallel/partial_sum.h:147 | Every index in `[b[0], b[last])` lies in some chunk `c`, with `b[c] <= i < b[c+1]`. Phase 1 writes chunk 0, and phase 3 worker `id` writes chunk `id + 1`, so the written ranges cover `[0, n)`. |
| `Borders.ChunksDisjoint` | libstdc++-v3/include/parallel/partial_sum.h:130-131 | In a non-decreasing table, chunk `c` ends no later than any later chunk `d` begins. So the ranges written by phase 1 and by the phase-3 workers are pairwise disjoint. |
| `Borders.StepsUsable` | libstdc++-v3/include/parallel/partial_sum.h:131-136 | If each of chunks `0..w-1` is non-empty, the table runs from 0 to `n` with strictly increasing entries `0..w`. This is what phase 1's reads require. |
| `Borders.UsableIsPartition` | libstdc++-v3/include/parallel/partial_sum.h:147 | A usable table is non-decreasing, and every index of `[0, n)` is owned by one of its `w + 1` chunks. |
| `Borders.EqualSplit` | libstdc++-v3/include/parallel/partial_sum.h:108-109 | `equally_split(n, w + 1, borders)` writes the equal table. |
| `Borders.EqualTableBalanced` | libstdc++-v3/include/parallel/partial_sum.h:109 | The equal table runs from 0 to `n`. Every chunk length is `n / p` or `n / p + 1`, and the first `n % p` chunks are the longer ones. |
| `Borders.EqualTableUsable` | libstdc++-v3/include/parallel/partial_sum.h:98-109 | After the clamp `n >= w + 1`, so the equal split is usable by `w` workers: chunks `0..w-1` are non-empty, and so is the last chunk, since `borders[w] < n`. |
| `Borders.SkewedSplit` | libstdc++-v3/include/parallel/partial_sum.h:112-119 | The border loop writes `borders[0] = 0` and `borders[i] = n - w*L + (i-1)*L` for `i` in `1..w`, then `borders[w+1] = n`. |
| `Borders.SkewedStep` | libstdc++-v3/include/parallel/partial_sum.h:114-118 | Consecutive interior borders are exactly `chunk_length` apart. |
| `Borders.SkewedLast` | libstdc++-v3/include/parallel/partial_sum.h:112-119 | The last interior border is `n - chunk_length`, so the last chunk also has length `chunk_length`. |
| `Borders.SkewedNonDecreasing` | libstdc++-v3/include/parallel/partial_sum.h:112-119 | When `0 <= L` and `w*L <= n`, the skewed table starts at 0, ends at `n` and never decreases. |
| `Borders.SkewedUsable` | libstdc++-v3/include/parallel/partial_sum.h:112-119 | With at least two workers, the skewed table is usable if and only if `1 <= L` and `w*L < n`. |
| `VaI960.VSize` | gcc/ginclude/va-i960.h:26 | `__vsiz(T)` is a multiple of 4 with `sizeof(T) <= __vsiz(T) < sizeof(T) + 4`. |
| `VaI960.VAlign` | gcc/ginclude/va-i960.h:28 | `__vali(T)` is at least 4 and at least `__alignof__(T)`, and it is one of the two: their maximum. |
| `VaI960.RoundUp` | gcc/ginclude/va-i960.h:30 | The rounding in `__vpad` gives a multiple of the alignment `m` with `i <= m < i + a`, which is the least one at or above `i`. |
| `VaI960.VPad` | gcc/ginclude/va-i960.h:30-31 | `__vpad(I, T) - __vsiz(T)` is the least multiple of `__vali(T)` at or above `I`, so `__vpad(I, T) >= I + __vsiz(T)`. |
| `VaI960.NextOffset` | gcc/ginclude/va-i960.h:50-52 | The new offset's slot starts at or after the old offset. The offset grows strictly when `sizeof(T) >= 1`. The slot starts at 48 or at an aligned offset. It never straddles the end of the 48-byte register area. An argument larger than 16 bytes is never read from the register area. |
| `VaI960.VaStart` | gcc/ginclude/va-i960.h:42 | `va_start` sets `AP[1] = 0` and `AP[0]` to the argument block. |
| `VaI960.VaArg` | gcc/ginclude/va-i960.h:47-56 | `va_arg` sets `AP[1]` to the new offset and keeps `AP[0]`. The slot it reads ends at the new offset and starts at or after the old one. |
| `VaI960.OffsetMonotone` | gcc/ginclude/va-i960.h:50-52 | Along any run of `va_arg` calls the offset in `AP[1]` never decreases. |
| `VaI960.SlotsInOrder` | gcc/ginclude/va-i960.h:50-55 | Successive `va_arg` calls read non-overlapping slots in increasing order: argument `i`'s slot ends no later than argument `j`'s slot begins, for `i < j`. |

## Findings

| source | as written | input that shows it | evidently intended | confidence | as-written member | corrected member |
|---|---|---|---|---|---|---|
| libstdc++-v3/include/parallel/partial_sum.h:112-119 | The skewed chunk length `(int)(n / (num_threads + dilatation))` is used unchecked, so it can be 0, or `num_threads * chunk_length` can reach `n`. | `n = 3`, 8 threads, dilatation 1.5: the clamp gives 2 workers, the chunk length is 0 and the borders are `[0, 3, 3, 3]`; worker 1 reads `*(begin + 3)` and accumulates over `[begin + 4, begin + 3)`. Also `n = 4`, 2 threads, dilatation 0: the chunk length is 2 and the borders are `[0, 0, 2, 4]`; at line 131 worker 0 calls the base case on the reversed range `[begin + 1, begin + 0)`, which the `begin == end` test at line 65 does not catch, so the loop at lines 68-74 reads and writes past both ranges. | Chunks 0 .. w-1 of the table are non-empty, i.e. `1 <= chunk_length` and `w * chunk_length < n`, which `Borders.SkewedUsable` shows is exactly what makes the table usable. | not executed | `PartialSum.SkewedEmptyChunk`, `PartialSum.SkewedEmptyHead` | `PartialSum.PartialSumLinear` |

The corrected routine keeps the skewed path only for chunk lengths that satisfy
those bounds: `PartialSumLinear` requires them, and proves the prefix-sum
result on every input they admit.

## Left out

- The size of the OpenMP team: `num_threads(num_threads)` at line 125 is a request, and the model assumes the team has exactly `w` members. With a smaller team, the ids at or above its size never run, their `sums[id]` keep the default values from line 122, the correction at line 142 folds those values in, and their chunks `id + 1` are never written at line 147.
- PartialSum.ThreadCount: does not model the `static_cast<thread_index_t>` of `n - 1` at line 99. The clamp is an exact minimum. When `thread_index_t` is narrower than `n - 1`, a request above `n - 1` gets `n - 1` reduced modulo the type's range: with a 16-bit type, `n = 70000` and 100000 threads give 4463, and `n = 65537` gives 0. The reduced count is still at most `n - 1`. Below 2 it takes the sequential path. Otherwise it is a count `c` with `2 <= c <= n - 1`, and `ThreadCount(n, c) == c`, so `PartialSumLinear` called with `c` threads runs with exactly that count and proves the same prefix-sum result.
- OpenMP: the thread team, `omp_get_thread_num`, the barriers and `single`. The team runs as sequential loops over the worker id, in barrier order. Scheduling, and the absence of data races beyond the proved disjointness of the written ranges, are not modelled.
- `__builtin_alloca`, `new[]` and `delete[]`: the border and sums tables are fresh Dafny arrays. `sums` is filled with `input[0]` at allocation, because Dafny needs initial values.
- The floating-point `chunk_length` computed from the dilatation setting, and the `== 1.0f` test: the choice is an input boolean, and `chunk_length` is an integer parameter.
- `get_max_threads`, `Settings` and `_GLIBCXX_CALL`: the thread count and the algorithm setting are parameters. `parallel/settings.h` is not part of this model, so the algorithm setting is modelled as two values, `Recursive` and `Linear`.
- `_GLIBCXX_PARALLEL_ASSERT`: modelled as the `AssertionFailed` outcome. The `return end` after it, reached only when assertions are compiled out, is not modelled.
- `equally_split` (in `parallel/equally_split.h`, which is not part of this model): modelled by its known algorithm. Chunk length is `n / p`, and the first `n % p` chunks are one longer.
- `std::accumulate`: the pure `Fold` function.
- Iterator types and `difference_type` width: positions are unbounded integers.
- An empty input under the linear setting: the model requires `n >= 1`. With `n == 0` the routine dereferences `*begin` of an empty range, at line 102 or at line 130 depending on the width of `thread_index_t`, so an empty input does not simply give an empty output.
- A non-associative `op`: every routine's documentation demands an associative operation, so the model requires one, stated as `Folds.Associative`.
- gcc/config/i386/win32.h: target configuration macros and code-generation hooks with no algorithmic content.
- The stdarg `va_start` (inline `st g14` and `__builtin_next_arg`), the pointer casts and memory read in `va_arg`, and `va_end`. `VaArg` returns the slot address it would read from.
- VaI960.VPad: does not model the 32-bit unsigned wrap-around of `AP[1]` and `sizeof`, because offsets inside an argument block stay far below 2^32.
- VaI960.NextOffset: does not model the 32-bit unsigned wrap-around, for the same reason.
- VaI960.VaArg: does not model the 32-bit wrap-around of the address `*AP + AP[1] - __vsiz(T)`, for the same reason.
