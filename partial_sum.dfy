/** The parallel prefix sum of libstdc++'s parallel mode: a sequential base
    case, the two-phase linear algorithm (local totals, one correction scan,
    then every worker scans the chunk after its own) and the front-end that
    dispatches on the configured algorithm. The worker team is simulated by
    sequential loops over the worker id, in barrier order. */
module PartialSum {
  import opened Folds
  import opened Borders

  /** The partial-sum algorithms the configuration can name. */
  datatype PartialSumAlgorithm = Recursive | Linear

  /** What the front-end does: return the end of the output, or stop on the
      "not implemented" assertion. */
  datatype Outcome = Returned(end: int) | AssertionFailed

  /** Every position of [0, upTo) of `out` holds the inclusive prefix sum of `src`. */
  ghost predicate ScannedUpTo<T>(op: (T, T) -> T, out: seq<T>, src: seq<T>, upTo: int)
    requires 0 <= upTo <= |out| && upTo <= |src|
  {
    forall i :: 0 <= i < upTo ==> out[i] == Reduce(op, src[..i + 1])
  }

  /** Base case: folds input[lo..hi) left to right from `value`, writing each
      running value to result[out..], and returns the end of the written
      range. Output and input may be the same array when the output does not
      start after the input. */
  method BaseCase<T>(input: array<T>, lo: int, hi: int, result: array<T>, out: int,
                     op: (T, T) -> T, value: T) returns (end: int)
    requires 0 <= lo <= hi <= input.Length
    requires 0 <= out && out + (hi - lo) <= result.Length
    requires input == result ==> out <= lo
    modifies result
    ensures end == out + (hi - lo)
    ensures forall p :: out <= p < end ==> result[p] == Fold(op, value, old(input[lo..hi])[..p - out + 1])
    ensures forall p :: 0 <= p < result.Length && !(out <= p < end) ==> result[p] == old(result[p])
  {
    ghost var src := input[lo..hi];
    if lo == hi {
      return out;
    }
    var acc := value;
    var i, r := lo, out;
    while i != hi
      invariant lo <= i <= hi
      invariant r == out + (i - lo)
      invariant acc == Fold(op, value, src[..i - lo])
      invariant forall p :: out <= p < r ==> result[p] == Fold(op, value, src[..p - out + 1])
      invariant forall p :: 0 <= p < result.Length && !(out <= p < r) ==> result[p] == old(result[p])
      invariant forall q :: i <= q < hi ==> input[q] == src[q - lo]
    {
      assert src[..i - lo + 1][..i - lo] == src[..i - lo];
      acc := op(acc, input[i]);
      result[r] := acc;
      r := r + 1;
      i := i + 1;
    }
    end := r;
  }

  /** The thread count after the clamp: the requested count, but at most n - 1. */
  function ThreadCount(n: int, numThreads: int): (w: int)
    ensures w <= n - 1 && w <= numThreads
    ensures w == numThreads || w == n - 1
  {
    if numThreads > n - 1 then n - 1 else numThreads
  }

  /** A scan of src[lo..hi) seeded with the prefix total up to lo writes, at
      index i, the inclusive prefix sum of src up to i. */
  lemma CarryScan<T>(op: (T, T) -> T, src: seq<T>, lo: int, hi: int, i: int)
    requires 1 <= lo <= i < hi <= |src|
    ensures Fold(op, Reduce(op, src[..lo]), src[lo..hi][..i - lo + 1]) == Reduce(op, src[..i + 1])
  {
    assert src[lo..hi][..i - lo + 1] == src[lo..i + 1];
    FoldAfterPrefix(op, src, lo, i + 1);
  }

  /** Phase 1 as the source states it per worker: worker 0 has scanned chunk 0
      and holds its total in sums[0]; worker id >= 1 holds the total of chunk id. */
  ghost predicate LocalTotals<T>(op: (T, T) -> T, src: seq<T>, b: seq<int>, sums: seq<T>, upTo: int)
    requires Usable(b, |src|, |sums|) && 1 <= upTo <= |sums|
  {
    && sums[0] == Reduce(op, src[..b[1]])
    && forall k :: 1 <= k < upTo ==> sums[k] == Reduce(op, src[b[k]..b[k + 1]])
  }

  /** The correction scan: folding the chunk totals 1 .. k onto the total of
      chunk 0 gives the total of the whole prefix up to the end of chunk k. */
  lemma {:induction false} CorrectedTotals<T(!new)>(op: (T, T) -> T, src: seq<T>, b: seq<int>,
                                                  sums: seq<T>, k: int)
    requires Associative(op)
    requires 0 <= k < |sums|
    requires Usable(b, |src|, |sums|) && LocalTotals(op, src, b, sums, |sums|)
    ensures Fold(op, sums[0], sums[1..][..k]) == Reduce(op, src[..b[k + 1]])
  {
    if k > 0 {
      CorrectedTotals(op, src, b, sums, k - 1);
      assert sums[1..][..k][..k - 1] == sums[1..][..k - 1];
      ReduceConcat(op, src, b[k], b[k + 1]);
    }
  }

  /** `*result = *begin` followed by the base case over the rest of
      input[0..k), seeded with input[0]: writes the inclusive prefix sums of
      input[0..k) to result[0..k) and returns k. */
  method ScanHead<T>(input: array<T>, k: int, result: array<T>, op: (T, T) -> T) returns (end: int)
    requires 1 <= k <= input.Length && k <= result.Length
    modifies result
    ensures end == k
    ensures ScannedUpTo(op, result[..], old(input[..]), k)
    ensures forall p :: k <= p < result.Length ==> result[p] == old(result[p])
  {
    ghost var src := input[..];
    result[0] := input[0];
    assert input[1..k] == src[1..k];
    end := BaseCase(input, 1, k, result, 1, op, input[0]);
    forall i | 0 <= i < k ensures result[i] == Reduce(op, src[..i + 1]) {
      if i >= 1 {
        CarryScan(op, src, 1, k, i);
      }
    }
  }

  /** Phase 1, one iteration per worker id in 0 .. w-1: worker 0 scans chunk 0
      and keeps its last output value in sums[0]; worker id >= 1 stores the
      total of chunk id. */
  method LocalPhase<T>(input: array<T>, result: array<T>, op: (T, T) -> T, borders: array<int>,
                       sums: array<T>, ghost src: seq<T>)
    requires |src| == input.Length <= result.Length
    requires Usable(borders[..], |src|, sums.Length) && sums.Length >= 1
    requires sums != input && sums != result && borders != result && borders != sums
    requires forall q :: 0 <= q < |src| ==> input[q] == src[q]
    modifies result, sums
    ensures ScannedUpTo(op, result[..], src, borders[1])
    ensures LocalTotals(op, src, borders[..], sums[..], sums.Length)
    ensures forall q :: borders[1] <= q < |src| ==> input[q] == src[q]
    ensures forall p :: borders[1] <= p < result.Length ==> result[p] == old(result[p])
  {
    ghost var b := borders[..];
    var w := sums.Length;
    var id := 0;
    while id < w
      invariant 0 <= id <= w
      invariant forall q :: (if id == 0 then 0 else b[1]) <= q < |src| ==> input[q] == src[q]
      invariant forall p :: (if id == 0 then 0 else b[1]) <= p < result.Length ==> result[p] == old(result[p])
      invariant id >= 1 ==> ScannedUpTo(op, result[..], src, b[1]) && LocalTotals(op, src, b, sums[..], id)
    {
      if id == 0 {
        assert input[..] == src;
        var _ := ScanHead(input, borders[1], result, op);
        sums[0] := result[borders[1] - 1];
      } else {
        assert input[borders[id] + 1..borders[id + 1]] == src[b[id]..b[id + 1]][1..];
        sums[id] := Fold(op, input[borders[id]], input[borders[id] + 1..borders[id + 1]]);
      }
      id := id + 1;
    }
  }

  /** The single correction: the base case run in place over sums[1..w),
      seeded with sums[0], turns every slot into the total of the input up to
      the end of that slot's chunk. */
  method CorrectionPhase<T(!new)>(sums: array<T>, op: (T, T) -> T, ghost src: seq<T>, ghost b: seq<int>)
    requires Associative(op)
    requires sums.Length >= 1 && Usable(b, |src|, sums.Length)
    requires LocalTotals(op, src, b, sums[..], sums.Length)
    modifies sums
    ensures sums[0] == old(sums[0])
    ensures forall k :: 0 <= k < sums.Length ==> sums[k] == Reduce(op, src[..b[k + 1]])
  {
    ghost var local := sums[..];
    var w := sums.Length;
    var _ := BaseCase(sums, 1, w, sums, 1, op, sums[0]);
    forall k | 0 <= k < w ensures sums[k] == Reduce(op, src[..b[k + 1]]) {
      CorrectedTotals(op, src, b, local, k);
      if k >= 1 {
        assert local[1..w][..k - 1 + 1] == local[1..][..k];
      }
    }
  }

  /** Phase 3, one iteration per worker id in 0 .. w-1: worker id scans chunk
      id + 1, [borders[id + 1], borders[id + 2]), seeded with sums[id]. */
  method FinalPhase<T>(input: array<T>, result: array<T>, op: (T, T) -> T, borders: array<int>,
                       sums: array<T>, ghost src: seq<T>)
    requires |src| == input.Length <= result.Length
    requires Usable(borders[..], |src|, sums.Length) && sums.Length >= 1
    requires sums != input && sums != result && borders != result
    requires forall k :: 0 <= k < sums.Length ==> sums[k] == Reduce(op, src[..borders[k + 1]])
    requires ScannedUpTo(op, result[..], src, borders[1])
    requires forall q :: borders[1] <= q < |src| ==> input[q] == src[q]
    modifies result
    ensures ScannedUpTo(op, result[..], src, |src|)
    ensures forall p :: |src| <= p < result.Length ==> result[p] == old(result[p])
  {
    var w := sums.Length;
    var id := 0;
    while id < w
      invariant 0 <= id <= w
      invariant forall q :: borders[id + 1] <= q < |src| ==> input[q] == src[q]
      invariant forall p :: |src| <= p < result.Length ==> result[p] == old(result[p])
      invariant ScannedUpTo(op, result[..], src, borders[id + 1])
    {
      var lo, hi := borders[id + 1], borders[id + 2];
      assert input[lo..hi] == src[lo..hi];
      var _ := BaseCase(input, lo, hi, result, lo, op, sums[id]);
      forall i | lo <= i < hi ensures result[i] == Reduce(op, src[..i + 1]) {
        CarryScan(op, src, lo, hi, i);
      }
      id := id + 1;
    }
  }

  /** The two-phase linear prefix sum. Writes the inclusive prefix sums of the
      input to result[0 .. n) and returns n. `equalSplit` stands for the
      dilatation setting being 1; otherwise the skewed table is built from
      `chunkLength`. */
  method PartialSumLinear<T(!new)>(input: array<T>, result: array<T>, op: (T, T) -> T,
                                   n: int, numThreads: int, equalSplit: bool, chunkLength: int)
    returns (end: int)
    requires Associative(op)
    requires 1 <= n == input.Length && n <= result.Length
    requires !equalSplit && ThreadCount(n, numThreads) >= 2 ==>
               1 <= chunkLength && ThreadCount(n, numThreads) * chunkLength < n
    modifies result
    ensures end == n
    ensures forall i :: 0 <= i < n ==> result[i] == Reduce(op, old(input[..])[..i + 1])
    ensures forall p :: n <= p < result.Length ==> result[p] == old(result[p])
  {
    ghost var src := input[..];
    var w := ThreadCount(n, numThreads);
    if w < 2 {
      end := ScanHead(input, n, result, op);
      return;
    }

    var borders := new int[w + 2];
    if equalSplit {
      EqualSplit(n, w + 1, borders);
      EqualTableUsable(n, w);
    } else {
      SkewedSplit(n, w, chunkLength, borders);
      SkewedUsable(n, w, chunkLength);
    }

    var first := input[0];
    var sums := new T[w](_ => first);

    LocalPhase(input, result, op, borders, sums, src);
    // barrier
    CorrectionPhase(sums, op, src, borders[..]);
    // barrier
    FinalPhase(input, result, op, borders, sums, src);
    return n;
  }

  /** The front-end: n is the length of the input; the linear algorithm is the
      only one implemented, any other setting fails the assertion. */
  method ParallelPartialSum<T(!new)>(input: array<T>, result: array<T>, op: (T, T) -> T,
                                     maxThreads: int, algorithm: PartialSumAlgorithm,
                                     equalSplit: bool, chunkLength: int)
    returns (outcome: Outcome)
    requires Associative(op)
    requires algorithm == Linear ==> 1 <= input.Length <= result.Length
    requires algorithm == Linear && !equalSplit && ThreadCount(input.Length, maxThreads) >= 2 ==>
               1 <= chunkLength && ThreadCount(input.Length, maxThreads) * chunkLength < input.Length
    modifies result
    ensures outcome.Returned? <==> algorithm == Linear
    ensures outcome.Returned? ==> outcome.end == input.Length
    ensures outcome.Returned? ==>
              forall i :: 0 <= i < input.Length ==> result[i] == Reduce(op, old(input[..])[..i + 1])
    ensures outcome.Returned? ==>
              forall p :: input.Length <= p < result.Length ==> result[p] == old(result[p])
    ensures outcome.AssertionFailed? ==> unchanged(result)
  {
    var n := input.Length;
    match algorithm
    case Linear =>
      var end := PartialSumLinear(input, result, op, n, maxThreads, equalSplit, chunkLength);
      outcome := Returned(end);
    case Recursive =>
      outcome := AssertionFailed;
  }

  /** The skewed split as written, on three elements with eight threads and a
      dilatation of 1.5: the clamp leaves two workers, 3 / 3.5 truncates to a
      chunk length of 0, and chunk 1 is empty, so worker 1 reads the first
      element of its chunk at index 3, one past the end of the input. */
  lemma SkewedEmptyChunk()
    ensures ThreadCount(3, 8) == 2
    ensures SkewedTable(3, 2, 0) == [0, 3, 3, 3]
    ensures SkewedTable(3, 2, 0)[1] >= 3
    ensures !Usable(SkewedTable(3, 2, 0), 3, 2)
  {
    SkewedUsable(3, 2, 0);
  }

  /** The skewed split as written, on four elements with two threads and a
      dilatation of 0: the chunk length is 4 / 2 = 2, the two skewed chunks
      take the whole input, and chunk 0 is empty. Worker 0 then runs the base
      case on the reversed range [1, borders[1]) = [1, 0): the range is not
      empty by the `begin == end` test, and the scan runs past both ranges. */
  lemma SkewedEmptyHead()
    ensures ThreadCount(4, 2) == 2
    ensures SkewedTable(4, 2, 2) == [0, 0, 2, 4]
    ensures SkewedTable(4, 2, 2)[1] < 1
    ensures !Usable(SkewedTable(4, 2, 2), 4, 2)
  {
    SkewedUsable(4, 2, 2);
  }
}
