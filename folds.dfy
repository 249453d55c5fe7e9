/** Left folds over sequences: the meaning of a prefix sum under an arbitrary
    binary operation, and the algebra the parallel scan relies on. */
module Folds {

  /** The operation is associative: the only property of `op` the parallel
      scan needs (it is never assumed commutative). */
  ghost predicate Associative<T(!new)>(op: (T, T) -> T) {
    forall a, b, c :: op(op(a, b), c) == op(a, op(b, c))
  }

  /** Left-to-right fold of `s` starting from `seed`:
      op(...op(op(seed, s[0]), s[1])..., s[|s|-1]). */
  function Fold<T>(op: (T, T) -> T, seed: T, s: seq<T>): T
    decreases |s|
  {
    if s == [] then seed else op(Fold(op, seed, s[..|s| - 1]), s[|s| - 1])
  }

  /** Fold of a non-empty range seeded with its own first element: what
      `std::accumulate(first + 1, last, *first, op)` computes, and what the
      prefix sum ending at the last element of `s` must hold. */
  function Reduce<T>(op: (T, T) -> T, s: seq<T>): T
    requires |s| >= 1
  {
    Fold(op, s[0], s[1..])
  }

  /** Folding in two pieces is folding the concatenation (no associativity needed). */
  lemma {:induction false} FoldConcat<T>(op: (T, T) -> T, seed: T, a: seq<T>, b: seq<T>)
    ensures Fold(op, Fold(op, seed, a), b) == Fold(op, seed, a + b)
    decreases |b|
  {
    if b != [] {
      var b' := b[..|b| - 1];
      FoldConcat(op, seed, a, b');
      assert (a + b)[..|a + b| - 1] == a + b';
    } else {
      assert a + b == a;
    }
  }

  /** A running value that holds the fold of the first `j` elements, folded
      on over `s[j..k]`, gives the fold of the first `k` elements. This is the
      step that makes a scan seeded with a carry-in correct. */
  lemma {:induction false} FoldAfterPrefix<T>(op: (T, T) -> T, s: seq<T>, j: int, k: int)
    requires 1 <= j <= k <= |s|
    ensures Fold(op, Reduce(op, s[..j]), s[j..k]) == Reduce(op, s[..k])
  {
    FoldConcat(op, s[0], s[..j][1..], s[j..k]);
    assert s[..j][1..] + s[j..k] == s[..k][1..];
  }

  /** With an associative operation, a value combined on the left can be
      pushed into the seed of a fold. */
  lemma {:induction false} FoldShift<T(!new)>(op: (T, T) -> T, x: T, y: T, t: seq<T>)
    requires Associative(op)
    ensures op(x, Fold(op, y, t)) == Fold(op, op(x, y), t)
    decreases |t|
  {
    if t != [] {
      var t' := t[..|t| - 1];
      FoldShift(op, x, y, t');
      calc {
        op(x, Fold(op, y, t));
        op(x, op(Fold(op, y, t'), t[|t| - 1]));
        op(op(x, Fold(op, y, t')), t[|t| - 1]);
        op(Fold(op, op(x, y), t'), t[|t| - 1]);
      }
    }
  }

  /** With an associative operation, the total of a prefix combined with the
      total of the chunk that follows it is the total of the longer prefix.
      This is what lets independently reduced chunks be stitched together. */
  lemma {:induction false} ReduceConcat<T(!new)>(op: (T, T) -> T, s: seq<T>, i: int, j: int)
    requires Associative(op)
    requires 1 <= i < j <= |s|
    ensures op(Reduce(op, s[..i]), Reduce(op, s[i..j])) == Reduce(op, s[..j])
  {
    var left := Reduce(op, s[..i]);
    assert s[i..j][1..] == s[i + 1..j];
    FoldShift(op, left, s[i], s[i + 1..j]);
    FoldAfterPrefix(op, s, i, i + 1);
    assert s[i..i + 1][..0] == [];
    assert Fold(op, left, s[i..i + 1]) == op(left, s[i]);
    FoldAfterPrefix(op, s, i + 1, j);
  }
}
