/** Variable-argument offsets of the Intel 80960 calling convention. A
    `va_list` is two unsigned words: the address of the argument block and
    the number of bytes of it already consumed. The first 48 bytes of the
    block are the saved argument registers; an argument that does not fit in
    them, or that is larger than 16 bytes, is taken from the stack part that
    follows. */
module VaI960 {

  /** What the macros need to know of an argument type: sizeof and __alignof__. */
  datatype ArgType = ArgType(size: nat, align: nat)

  /** Bytes of saved argument registers at the start of the argument block. */
  const RegisterArea: nat := 48

  /** Largest argument that may still be passed in the register area. */
  const MaxRegisterArg: nat := 16

  /** `__vsiz(T)`: the stack size of the type, its size rounded up to a word. */
  function VSize(t: ArgType): (r: nat)
    ensures r % 4 == 0
    ensures t.size <= r < t.size + 4
  {
    ((t.size + 3) / 4) * 4
  }

  /** `__vali(T)`: the stack alignment of the type, never less than a word. */
  function VAlign(t: ArgType): (r: nat)
    ensures r >= 4 && r >= t.align
    ensures r == t.align || r == 4
  {
    if t.align >= 4 then t.align else 4
  }

  /** The least multiple of a that is at least i. */
  function RoundUp(i: nat, a: nat): (m: nat)
    requires a >= 1
    ensures m % a == 0
    ensures i <= m < i + a
  {
    var q := (i + a - 1) / a;
    assert q * a + (i + a - 1) % a == i + a - 1;
    MultipleMod(q, a);
    q * a
  }

  /** A multiple of a leaves no remainder. */
  lemma MultipleMod(q: nat, a: nat)
    requires a >= 1
    ensures (q * a) % a == 0
  {
    var m := q * a;
    var d := q - m / a;
    assert m == a * (m / a) + m % a;
    assert a * d == a * q - a * (m / a);
    assert a * d == m % a;
    ProductSign(a, d);
  }

  /** A multiple of a positive a by a non-zero factor is at least a away from 0. */
  lemma ProductSign(a: int, d: int)
    requires a >= 1
    ensures d >= 1 ==> a * d >= a
    ensures d <= -1 ==> a * d <= -a
  {
    if d >= 1 {
      assert a * d == a * (d - 1) + a;
    } else if d <= -1 {
      assert a * d == -(a * (-d - 1)) - a;
    }
  }

  /** `__vpad(I, T)`: the offset just past an argument of type T placed at the
      first suitably aligned offset at or after i. The argument's slot starts
      at a multiple of the alignment, and that start is the least one not
      below i. */
  function VPad(i: nat, t: ArgType): (r: nat)
    ensures r >= VSize(t)
    ensures (r - VSize(t)) % VAlign(t) == 0
    ensures i <= r - VSize(t) < i + VAlign(t)
  {
    RoundUp(i, VAlign(t)) + VSize(t)
  }

  /** The byte offset `va_arg(AP, T)` stores in AP[1]: an argument that would
      run past the register area, or that is larger than 16 bytes, while the
      offset is still inside the register area, is taken from the start of
      the stack part instead. */
  function NextOffset(offset: nat, t: ArgType): (r: nat)
    ensures r >= VSize(t)
    // the slot read starts at or after the old offset
    ensures r - VSize(t) >= offset
    ensures t.size >= 1 ==> r > offset
    // the slot starts at the stack part or at an aligned offset
    ensures r - VSize(t) == RegisterArea || (r - VSize(t)) % VAlign(t) == 0
    // no slot straddles the end of the register area
    ensures r <= RegisterArea || r - VSize(t) >= RegisterArea
    // large arguments are never read from the register area
    ensures VSize(t) > MaxRegisterArg ==> r - VSize(t) >= RegisterArea
  {
    if offset <= RegisterArea && (VPad(offset, t) > RegisterArea || VSize(t) > MaxRegisterArg) then
      RegisterArea + VSize(t)
    else
      VPad(offset, t)
  }

  /** `va_start(AP)` in the varargs form: nothing consumed yet, and AP[0]
      set to the address of the argument block. */
  method VaStart(ap: array<nat>, argBlock: nat)
    requires ap.Length == 2
    modifies ap
    ensures ap[0] == argBlock && ap[1] == 0
  {
    ap[1] := 0;
    ap[0] := argBlock;
  }

  /** `va_arg(AP, T)`: advances AP[1] and returns the address of the slot the
      argument is read from, which ends at the new offset. */
  method VaArg(ap: array<nat>, t: ArgType) returns (slot: nat)
    requires ap.Length == 2
    modifies ap
    ensures ap[0] == old(ap[0])
    ensures ap[1] == NextOffset(old(ap[1]), t)
    ensures slot + VSize(t) == ap[0] + ap[1]
    ensures slot >= old(ap[0]) + old(ap[1])
  {
    ap[1] := NextOffset(ap[1], t);
    slot := ap[0] + ap[1] - VSize(t);
  }

  /** The value of AP[1] after `va_arg` has been applied for each type of ts
      in turn, starting from `start`. */
  function OffsetAfter(start: nat, ts: seq<ArgType>): nat
    decreases |ts|
  {
    if ts == [] then start else NextOffset(OffsetAfter(start, ts[..|ts| - 1]), ts[|ts| - 1])
  }

  /** The consumed offset never decreases along a run of `va_arg` calls. */
  lemma {:induction false} OffsetMonotone(start: nat, ts: seq<ArgType>, i: nat, j: nat)
    requires i <= j <= |ts|
    ensures OffsetAfter(start, ts[..i]) <= OffsetAfter(start, ts[..j])
    decreases j - i
  {
    if i < j {
      OffsetMonotone(start, ts, i, j - 1);
      assert ts[..j][..j - 1] == ts[..j - 1];
    }
  }

  /** Successive `va_arg` calls read non-overlapping slots in increasing
      address order: the slot of argument i ends no later than the slot of
      any later argument j begins. */
  lemma SlotsInOrder(start: nat, ts: seq<ArgType>, i: nat, j: nat)
    requires i < j < |ts|
    ensures OffsetAfter(start, ts[..i + 1]) <= OffsetAfter(start, ts[..j + 1]) - VSize(ts[j])
  {
    OffsetMonotone(start, ts, i + 1, j);
    assert ts[..j + 1][..j] == ts[..j];
  }
}
