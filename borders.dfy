/** Border tables: `w + 2` indices that cut [0, n) into `w + 1` contiguous
    chunks, chunk `c` being [b[c], b[c + 1]). The linear prefix sum builds one
    either by an equal split or by a skewed split. */
module Borders {

  function Min(a: int, b: int): int {
    if a <= b then a else b
  }

  /** Adjacent entries never decrease. */
  ghost predicate NonDecreasing(b: seq<int>) {
    forall k :: 0 <= k < |b| - 1 ==> b[k] <= b[k + 1]
  }

  /** A table the linear prefix sum can run on with `w` workers: it runs from
      0 to n, chunks 0 .. w-1 are non-empty (worker 0 scans chunk 0 from its
      first element, worker id >= 1 reads the first element of chunk id), and
      the last chunk, which is only ever scanned, may be empty. */
  ghost predicate Usable(b: seq<int>, n: int, w: int) {
    && w >= 0
    && |b| == w + 2
    && b[0] == 0
    && b[w + 1] == n
    && b[w] <= n
    && (forall j, k :: 0 <= j < k <= w ==> b[j] < b[k])
  }

  /** It is enough for each of chunks 0 .. w-1 to be non-empty. */
  lemma StepsUsable(b: seq<int>, n: int, w: nat)
    requires |b| == w + 2 && b[0] == 0 && b[w + 1] == n && b[w] <= n
    requires forall k :: 0 <= k < w ==> b[k] < b[k + 1]
    ensures Usable(b, n, w)
  {
    assert NonDecreasing(b);
    forall j, k | 0 <= j < k <= w ensures b[j] < b[k] {
      if j + 1 < k {
        ChunksDisjoint(b, j, k);
      }
    }
  }

  /** The chunk that holds index i. Every index of [b[0], b[last]) has one,
      whatever the table. */
  function Owner(b: seq<int>, i: int): (c: nat)
    requires |b| >= 2 && b[0] <= i < b[|b| - 1]
    ensures c < |b| - 1 && b[c] <= i < b[c + 1]
    decreases |b|
  {
    if i < b[1] then 0 else 1 + Owner(b[1..], i)
  }

  /** In a non-decreasing table two different chunks are disjoint: every
      entry of chunk c lies below the start of any later chunk d. Together
      with Owner this makes the chunks a partition of [b[0], b[last]). */
  lemma {:induction false} ChunksDisjoint(b: seq<int>, c: int, d: int)
    requires NonDecreasing(b)
    requires 0 <= c < d < |b| - 1
    ensures b[c + 1] <= b[d]
    decreases d - c
  {
    if c + 1 < d {
      ChunksDisjoint(b, c + 1, d);
    }
  }

  /** A usable table is non-decreasing, so its chunks partition [0, n). */
  lemma UsableIsPartition(b: seq<int>, n: int, w: int)
    requires Usable(b, n, w)
    ensures NonDecreasing(b)
    ensures forall i :: 0 <= i < n ==> Owner(b, i) <= w
  {
  }

  /** The table `equally_split(n, p, s)` writes: chunk length n / p, and the
      first n % p chunks one element longer. */
  function EqualTable(n: nat, p: nat): seq<int>
    requires p >= 1
  {
    seq(p + 1, i => i * (n / p) + Min(i, n % p))
  }

  /** The equal split runs from 0 to n and any two chunk lengths differ by at
      most one: each is n / p or n / p + 1. */
  lemma EqualTableBalanced(n: nat, p: nat)
    requires p >= 1
    ensures |EqualTable(n, p)| == p + 1
    ensures EqualTable(n, p)[0] == 0 && EqualTable(n, p)[p] == n
    ensures forall i :: 0 <= i < p ==>
      EqualTable(n, p)[i + 1] - EqualTable(n, p)[i] == n / p + (if i < n % p then 1 else 0)
  {
    var t := EqualTable(n, p);
    forall i | 0 <= i < p
      ensures t[i + 1] - t[i] == n / p + (if i < n % p then 1 else 0)
    {
      assert (i + 1) * (n / p) == i * (n / p) + n / p;
    }
  }

  /** With at least one element per part, the equal split of n into w + 1
      parts is usable by w workers, and its last chunk is non-empty too. */
  lemma EqualTableUsable(n: nat, w: nat)
    requires n >= w + 1
    ensures Usable(EqualTable(n, w + 1), n, w)
    ensures EqualTable(n, w + 1)[w] < n
  {
    EqualTableBalanced(n, w + 1);
    assert n / (w + 1) >= 1;
    StepsUsable(EqualTable(n, w + 1), n, w);
  }

  /** `equally_split(n, p, s)`: writes the p + 1 borders of the equal split. */
  method EqualSplit(n: nat, p: nat, s: array<int>)
    requires p >= 1 && s.Length == p + 1
    modifies s
    ensures s[..] == EqualTable(n, p)
  {
    var chunkLength := n / p;
    var numLongerChunks := n % p;
    var pos := 0;
    var i := 0;
    while i < p
      invariant 0 <= i <= p
      invariant pos == i * chunkLength + Min(i, numLongerChunks)
      invariant forall k :: 0 <= k < i ==> s[k] == EqualTable(n, p)[k]
    {
      s[i] := pos;
      assert (i + 1) * chunkLength == i * chunkLength + chunkLength;
      pos := pos + if i < numLongerChunks then chunkLength + 1 else chunkLength;
      i := i + 1;
    }
    s[p] := n;
    assert EqualTable(n, p)[p] == n by { EqualTableBalanced(n, p); }
  }

  /** The skewed table: chunk 0 takes what is left after w chunks of length
      `chunkLength`; borders 1 .. w start at n - w * chunkLength and step by
      `chunkLength`. */
  function SkewedTable(n: int, w: nat, chunkLength: int): seq<int> {
    seq(w + 2, k => if k == 0 then 0 else if k == w + 1 then n else n - w * chunkLength + (k - 1) * chunkLength)
  }

  /** Consecutive interior borders of the skewed table are `chunkLength` apart. */
  lemma SkewedStep(n: int, w: nat, chunkLength: int, k: int)
    requires 1 <= k < w
    ensures SkewedTable(n, w, chunkLength)[k + 1] - SkewedTable(n, w, chunkLength)[k] == chunkLength
  {
    assert k * chunkLength == (k - 1) * chunkLength + chunkLength;
  }

  /** The last interior border of the skewed table is n - chunkLength. */
  lemma SkewedLast(n: int, w: nat, chunkLength: int)
    requires w >= 1
    ensures SkewedTable(n, w, chunkLength)[w] == n - chunkLength
  {
    assert (w - 1) * chunkLength == w * chunkLength - chunkLength;
  }

  /** The skewed table runs from 0 to n and is non-decreasing whenever
      0 <= chunkLength and w * chunkLength <= n. */
  lemma SkewedNonDecreasing(n: int, w: nat, chunkLength: int)
    requires 0 <= chunkLength && w * chunkLength <= n
    ensures SkewedTable(n, w, chunkLength)[0] == 0
    ensures SkewedTable(n, w, chunkLength)[w + 1] == n
    ensures NonDecreasing(SkewedTable(n, w, chunkLength))
  {
    var b := SkewedTable(n, w, chunkLength);
    forall k | 0 <= k < |b| - 1 ensures b[k] <= b[k + 1] {
      if 1 <= k < w {
        SkewedStep(n, w, chunkLength, k);
      } else if k == w && w >= 1 {
        SkewedLast(n, w, chunkLength);
      }
    }
  }

  /** With two workers or more, the skewed table is usable exactly when the
      chunk length is positive and the w skewed chunks leave chunk 0 non-empty. */
  lemma SkewedUsable(n: int, w: nat, chunkLength: int)
    requires w >= 2
    ensures Usable(SkewedTable(n, w, chunkLength), n, w) <==> 1 <= chunkLength && w * chunkLength < n
  {
    var b := SkewedTable(n, w, chunkLength);
    SkewedStep(n, w, chunkLength, 1);
    SkewedLast(n, w, chunkLength);
    if 1 <= chunkLength && w * chunkLength < n {
      forall k | 0 <= k < w ensures b[k] < b[k + 1] {
        if k >= 1 {
          SkewedStep(n, w, chunkLength, k);
        }
      }
      StepsUsable(b, n, w);
    }
  }

  /** The border loop of the skewed split: borders[0] = 0, borders[i] for
      i in 1 .. w from a running start that grows by `chunkLength`, then
      borders[w + 1] = n. */
  method SkewedSplit(n: int, w: nat, chunkLength: int, borders: array<int>)
    requires borders.Length == w + 2
    modifies borders
    ensures borders[..] == SkewedTable(n, w, chunkLength)
  {
    var borderStart := n - w * chunkLength;
    borders[0] := 0;
    for i := 1 to w + 1
      invariant borderStart == n - w * chunkLength + (i - 1) * chunkLength
      invariant borders[0] == 0
      invariant forall k :: 1 <= k < i ==> borders[k] == n - w * chunkLength + (k - 1) * chunkLength
    {
      borders[i] := borderStart;
      assert i * chunkLength == (i - 1) * chunkLength + chunkLength;
      borderStart := borderStart + chunkLength;
    }
    borders[w + 1] := n;
  }
}
