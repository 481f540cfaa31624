/** What a trace asks for, on values: which ids are live, and with how many bytes. */
module Trace {

  datatype TraceOp =
    | AllocOp(index: int, size: int)
    | ReallocOp(index: int, size: int)
    | FreeOp(index: int)

  /** The bytes requested for each live id. */
  type Sizes = map<int, int>

  /** An allocation of zero bytes does nothing; a reallocation to zero bytes frees. */
  function Apply(m: Sizes, op: TraceOp): Sizes {
    match op
    case AllocOp(i, size) => if size == 0 then m else m[i := size]
    case ReallocOp(i, size) => if size == 0 then m - {i} else m[i := size]
    case FreeOp(i) => m - {i}
  }

  function SizesAfter(ops: seq<TraceOp>): Sizes {
    if ops == [] then map[] else Apply(SizesAfter(ops[..|ops| - 1]), ops[|ops| - 1])
  }

  /** An allocation names a dead id, anything else a live one.  Sizes are ints. */
  predicate Due(m: Sizes, op: TraceOp) {
    match op
    case AllocOp(i, size) => i !in m && 0 <= size < 0x8000_0000
    case ReallocOp(i, size) => i in m && 0 <= size < 0x8000_0000
    case FreeOp(i) => i in m
  }

  predicate OpOk(m: Sizes, op: TraceOp, numIds: int) {
    0 <= op.index < numIds && Due(m, op)
  }

  ghost predicate WellFormed(ops: seq<TraceOp>, numIds: int) {
    forall k :: 0 <= k < |ops| ==> OpOk(SizesAfter(ops[..k]), ops[k], numIds)
  }

  lemma NextSizes(ops: seq<TraceOp>, k: int)
    requires 0 <= k < |ops|
    ensures SizesAfter(ops[..k + 1]) == Apply(SizesAfter(ops[..k]), ops[k])
  {
    assert ops[..k + 1][..k] == ops[..k];
  }

  /** No reallocation to zero bytes. */
  predicate Positive(ops: seq<TraceOp>) {
    forall k :: 0 <= k < |ops| ==> !Drops(ops[k])
  }

  predicate Drops(op: TraceOp) {
    op.ReallocOp? && op.size == 0
  }

  lemma PositivePrefix(ops: seq<TraceOp>, k: int)
    requires 0 <= k < |ops|
    ensures Positive(ops[..k + 1]) ==> Positive(ops[..k])
  {
    assert ops[..k + 1][..k] == ops[..k];
  }

  function DropCount(ops: seq<TraceOp>): (r: nat)
    ensures r == 0 <==> Positive(ops)
  {
    if ops == [] then 0
    else
      var init, last := ops[..|ops| - 1], ops[|ops| - 1];
      assert ops == init + [last];
      DropCount(init) + (if Drops(last) then 1 else 0)
  }

  lemma {:induction false} SizesPositive(ops: seq<TraceOp>, k: int, numIds: int)
    requires WellFormed(ops, numIds) && 0 <= k <= |ops|
    ensures forall i :: i in SizesAfter(ops[..k]) ==> 0 <= i < numIds && SizesAfter(ops[..k])[i] > 0
    decreases k
  {
    if k > 0 {
      SizesPositive(ops, k - 1, numIds);
      NextSizes(ops, k - 1);
      assert OpOk(SizesAfter(ops[..k - 1]), ops[k - 1], numIds);
    }
  }

  /** The bytes requested for the live ids below `n`. */
  function SumBelow(m: Sizes, n: nat): int {
    if n == 0 then 0 else SumBelow(m, n - 1) + (if n - 1 in m then m[n - 1] else 0)
  }

  function SizeOf(m: Sizes, i: int): int {
    if i in m then m[i] else 0
  }

  lemma {:induction false} SumSame(m: Sizes, m': Sizes, n: nat)
    requires forall i :: 0 <= i < n ==> SizeOf(m, i) == SizeOf(m', i)
    ensures SumBelow(m, n) == SumBelow(m', n)
  {
    if n > 0 {
      SumSame(m, m', n - 1);
      assert SizeOf(m, n - 1) == SizeOf(m', n - 1);
    }
  }

  /** Changing one id's size changes the sum by the difference. */
  lemma {:induction false} SumChange(m: Sizes, m': Sizes, i: nat, n: nat)
    requires i < n && forall j :: 0 <= j < n && j != i ==> SizeOf(m, j) == SizeOf(m', j)
    ensures SumBelow(m', n) == SumBelow(m, n) + SizeOf(m', i) - SizeOf(m, i)
  {
    if i == n - 1 {
      SumSame(m, m', n - 1);
    } else {
      SumChange(m, m', i, n - 1);
      assert SizeOf(m, n - 1) == SizeOf(m', n - 1);
    }
  }

  /** The high water mark of the requested bytes: what an allocator with no overhead needs. */
  function HighWater(ops: seq<TraceOp>, numIds: nat): int {
    if ops == [] then 0
    else
      var before, now := HighWater(ops[..|ops| - 1], numIds), SumBelow(SizesAfter(ops), numIds);
      if now > before then now else before
  }

  lemma NextHighWater(ops: seq<TraceOp>, k: int, numIds: nat)
    requires 0 <= k < |ops|
    ensures var before, now := HighWater(ops[..k], numIds), SumBelow(SizesAfter(ops[..k + 1]), numIds);
            HighWater(ops[..k + 1], numIds) == if now > before then now else before
  {
    assert ops[..k + 1][..k] == ops[..k];
  }

  lemma {:induction false} EmptySum(n: nat)
    ensures SumBelow(map[], n) == 0
  {
    if n > 0 {
      EmptySum(n - 1);
    }
  }

  // ---------- the driver's totals ----------

  /** What the utilization measurement adds to its running total.  A reallocation to zero bytes
      does not get as far as the total. */
  function Charge(m: Sizes, op: TraceOp): int {
    match op
    case AllocOp(_, size) => size
    case ReallocOp(i, size) => if size == 0 then 0 else size - SizeOf(m, i)
    case FreeOp(i) => -SizeOf(m, i)
  }

  function Charged(ops: seq<TraceOp>): int {
    if ops == [] then 0
    else
      var init := ops[..|ops| - 1];
      Charged(init) + Charge(SizesAfter(init), ops[|ops| - 1])
  }

  /** The largest total so far. */
  function Peak(ops: seq<TraceOp>): (r: int)
    ensures r >= 0 && r >= Charged(ops)
  {
    if ops == [] then 0
    else
      var before, now := Peak(ops[..|ops| - 1]), Charged(ops);
      if now > before then now else before
  }

  lemma NextCharged(ops: seq<TraceOp>, k: int)
    requires 0 <= k < |ops|
    ensures Charged(ops[..k + 1]) == Charged(ops[..k]) + Charge(SizesAfter(ops[..k]), ops[k])
    ensures var before, now := Peak(ops[..k]), Charged(ops[..k + 1]);
            Peak(ops[..k + 1]) == if now > before then now else before
  {
    assert ops[..k + 1][..k] == ops[..k];
  }

  /** The bytes of ids that were reallocated to zero. */
  function Dropped(ops: seq<TraceOp>): int {
    if ops == [] then 0
    else
      var init, op := ops[..|ops| - 1], ops[|ops| - 1];
      Dropped(init) + (if Drops(op) then SizeOf(SizesAfter(init), op.index) else 0)
  }

  /** The total counts the bytes requested for live ids and those of ids reallocated to zero. */
  lemma {:induction false} ChargedIs(ops: seq<TraceOp>, k: int, numIds: nat)
    requires WellFormed(ops, numIds) && 0 <= k <= |ops|
    ensures Charged(ops[..k]) == SumBelow(SizesAfter(ops[..k]), numIds) + Dropped(ops[..k])
    ensures Dropped(ops[..k]) >= 0 && (Dropped(ops[..k]) == 0 <==> Positive(ops[..k]))
    decreases k
  {
    hide SizesAfter, SumBelow, WellFormed, Apply, Charge, Drops, OpOk;
    if k == 0 {
      assert ops[..0] == [];
      NothingCharged(numIds);
    } else {
      var init, op := ops[..k - 1], ops[k - 1];
      ChargedIs(ops, k - 1, numIds);
      assert ops[..k][..k - 1] == init && ops[..k] == init + [op];
      PositivePrefix(ops, k - 1);
      NextSizes(ops, k - 1);
      NextCharged(ops, k - 1);
      SizesPositive(ops, k - 1, numIds);
      DueAt(ops, k - 1, numIds);
      ChargeStep(SizesAfter(init), op, numIds);
    }
  }

  lemma DroppedGrows(ops: seq<TraceOp>, k: int, numIds: nat)
    requires WellFormed(ops, numIds) && 0 <= k < |ops|
    ensures Dropped(ops[..k]) <= Dropped(ops[..k + 1])
  {
    hide WellFormed, SizesAfter;
    SizesPositive(ops, k, numIds);
    assert ops[..k + 1][..k] == ops[..k];
  }

  lemma NothingCharged(numIds: nat)
    ensures SumBelow(SizesAfter([]), numIds) == 0
  {
    EmptySum(numIds);
  }

  lemma DueAt(ops: seq<TraceOp>, k: int, numIds: int)
    requires WellFormed(ops, numIds) && 0 <= k < |ops|
    ensures OpOk(SizesAfter(ops[..k]), ops[k], numIds)
  {
  }

  lemma ChargeStep(m: Sizes, op: TraceOp, numIds: nat)
    requires OpOk(m, op, numIds) && forall i :: i in m ==> m[i] > 0
    ensures SumBelow(Apply(m, op), numIds) + (if Drops(op) then SizeOf(m, op.index) else 0)
            == SumBelow(m, numIds) + Charge(m, op)
    ensures Drops(op) ==> SizeOf(m, op.index) > 0
  {
    SumChange(m, Apply(m, op), op.index, numIds);
  }

  /** The driver's total is what the live ids asked for exactly if nothing was reallocated to
      zero bytes. */
  lemma TotalExactly(ops: seq<TraceOp>, numIds: nat)
    requires WellFormed(ops, numIds)
    ensures Charged(ops) == SumBelow(SizesAfter(ops), numIds) <==> Positive(ops)
    ensures Charged(ops) >= SumBelow(SizesAfter(ops), numIds)
  {
    assert ops[..|ops|] == ops;
    ChargedIs(ops, |ops|, numIds);
  }

  /** Then its largest total is the high water mark. */
  lemma {:induction false} PeakIs(ops: seq<TraceOp>, k: int, numIds: nat)
    requires WellFormed(ops, numIds) && 0 <= k <= |ops|
    ensures Peak(ops[..k]) >= HighWater(ops[..k], numIds) >= 0
    ensures Positive(ops[..k]) ==> Peak(ops[..k]) == HighWater(ops[..k], numIds)
    decreases k
  {
    hide Positive, Charged, SizesAfter, SumBelow, WellFormed, Dropped;
    if k == 0 {
      assert ops[..0] == [];
    } else {
      PeakIs(ops, k - 1, numIds);
      ChargedIs(ops, k, numIds);
      NextCharged(ops, k - 1);
      NextHighWater(ops, k - 1, numIds);
      PositivePrefix(ops, k - 1);
    }
  }
}
