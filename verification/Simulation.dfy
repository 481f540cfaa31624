/** What replaying a trace comes to, on values: the heap, the block of each live id and the range
    list are functions of the trace.  The driver's loops are proved to compute them. */
module Simulation {
  import opened Layout
  import opened AllocSpec
  import opened Mm
  import opened Trace
  import opened Ranges
  import opened Owners

  /** How a replayed step ends. */
  datatype StepResult = Done | Failed | BadRange(check: Check) | DataLost

  /** The heap, who owns its live blocks, what they asked for, and the range list. */
  datatype Sim = Sim(heap: Heap, owner: Owner, sizes: Sizes, ranges: seq<Range>)

  datatype StepOutcome = Next(sim: Sim) | Stop(why: StepResult)

  /** How far a trace gets. */
  datatype Progress = Running(sim: Sim) | StoppedAt(op: int, why: StepResult)

  const START := Sim(INITIAL, map[], map[], [])

  function OwnedBy(owner: Owner): set<Blk> {
    set i | i in owner :: owner[i]
  }

  /** Every live id owns a block of its own that is large enough, and every live block is owned. */
  ghost predicate GoodSim(s: Sim) {
    && Inv(s.heap) && Holds(s.heap, s.owner, s.sizes)
    && OwnedBy(s.owner) == LiveOf(s.heap.blocks)
  }

  /** The check of a reallocation reads bytes as `char`: signed, they cannot match this id. */
  predicate Unreadable(op: TraceOp, signedChar: bool) {
    op.ReallocOp? && op.size != 0 && signedChar && op.index % 256 >= 128
  }

  /** The address of a block's payload. */
  function Address(base: int, b: Blk): int {
    base + 8 * (b.at + 1)
  }

  /** The verdict of `add_range` on the block granted to id `i`. */
  function Record(s: Sim, o: Outcome, i: int, size: int, ranges: seq<Range>, base: int): StepOutcome
    requires o.block.Some?
  {
    var b, h := o.block.value, o.heap;
    var r := Extent(base, b, size);
    var c := Verify(ranges, r.lo, r.hi, base, base + 8 * Top(h) - 1);
    if c == Accepted then Next(Sim(h, s.owner[i := b], s.sizes[i := size], [r] + ranges)) else Stop(BadRange(c))
  }

  /** One operation.  After a reallocation to zero bytes the driver does not touch the range
      list. */
  ghost function StepSim(s: Sim, op: TraceOp, limit: int, base: int): StepOutcome
    requires GoodSim(s) && Due(s.sizes, op)
  {
    match op
    case AllocOp(i, size) =>
      if size == 0 then Next(s)
      else
        var o := Malloc(s.heap, NeedWords(size), limit);
        if o.block.None? then Stop(Failed) else Record(s, o, i, size, s.ranges, base)
    case ReallocOp(i, size) =>
      var b := s.owner[i];
      if size == 0 then Next(Sim(Free(s.heap, b), s.owner - {i}, s.sizes - {i}, s.ranges))
      else
        var o := Resize(s.heap, b, TaggedSize(size) / 8, limit);
        if o.block.None? then Stop(Failed)
        else Record(s, o, i, size, RemoveFirst(s.ranges, Address(base, b)), base)
    case FreeOp(i) =>
      var b := s.owner[i];
      Next(Sim(Free(s.heap, b), s.owner - {i}, s.sizes - {i}, RemoveFirst(s.ranges, Address(base, b))))
  }

  /** Operation `k`, with the validity check's look at the data. */
  ghost function Continue(s: Sim, op: TraceOp, k: int, limit: int, base: int, signedChar: bool): Progress
    requires GoodSim(s) && Due(s.sizes, op)
  {
    match StepSim(s, op, limit, base)
    case Stop(why) => StoppedAt(k, why)
    case Next(s') => if Unreadable(op, signedChar) then StoppedAt(k, DataLost) else Running(s')
  }

  /** The trace from a fresh heap.  Operations that are not due are left out of account; a
      well-formed trace has none.  Without the check of the data, `signedChar` is false. */
  ghost function Simulate(ops: seq<TraceOp>, limit: int, base: int, signedChar: bool): (r: Progress)
    ensures r.Running? ==> GoodSim(r.sim)
    decreases |ops|
  {
    if ops == [] then
      InitialInv();
      Running(START)
    else
      var k := |ops| - 1;
      var before, op := Simulate(ops[..k], limit, base, signedChar), ops[k];
      if before.StoppedAt? || !Due(before.sim.sizes, op) then before
      else
        StepSimGood(before.sim, op, limit, base);
        Continue(before.sim, op, k, limit, base, signedChar)
  }

  // ---------- one step ----------

  lemma OwnMore(h: Heap, h': Heap, owner: Owner, m: Sizes, i: int, b: Blk, size: int)
    requires Holds(h, owner, m) && i !in owner && OwnedBy(owner) <= LiveOf(h'.blocks)
    requires b in LiveOf(h'.blocks) && b !in OwnedBy(owner) && 0 < size <= 8 * (b.n - TAG_WORDS)
    ensures Holds(h', owner[i := b], m[i := size])
    ensures OwnedBy(owner[i := b]) == OwnedBy(owner) + {b}
  {
    hide LiveOf;
    var o := owner[i := b];
    forall j | j in owner
      ensures o[j] == owner[j] && owner[j] in OwnedBy(owner) && o[j] in OwnedBy(o)
    {
    }
    assert o[i] == b && b in OwnedBy(o);
  }

  lemma OwnLess(h: Heap, h': Heap, owner: Owner, m: Sizes, i: int)
    requires Holds(h, owner, m) && i in owner && OwnedBy(owner) - {owner[i]} <= LiveOf(h'.blocks)
    ensures Holds(h', owner - {i}, m - {i})
    ensures OwnedBy(owner - {i}) == OwnedBy(owner) - {owner[i]}
  {
    hide LiveOf;
    var o := owner - {i};
    forall j | j in o
      ensures owner[j] in OwnedBy(owner) && owner[j] != owner[i] && o[j] == owner[j] && o[j] in OwnedBy(o)
    {
    }
    forall b | b in OwnedBy(owner) && b != owner[i]
      ensures b in OwnedBy(o)
    {
      var j :| j in owner && owner[j] == b;
      assert o[j] == b;
    }
  }

  /** The block granted has room for what was asked for. */
  lemma NeedFits(size: int)
    ensures size <= 8 * (NeedWords(size) - TAG_WORDS) && size <= 8 * (TaggedSize(size) / 8 - TAG_WORDS)
    ensures TaggedSize(size) / 8 <= NeedWords(size)
  {
  }

  /** Handing the block of a request for `need` words to `i`. */
  lemma Given(s: Sim, owner: Owner, m: Sizes, o: Outcome, i: int, size: int, mine: set<Blk>, need: int)
    requires Holds(s.heap, owner, m) && i !in owner && OwnedBy(owner) == LiveOf(s.heap.blocks) - mine
    requires Granted(s.heap, mine, o, need) && 0 < size <= 8 * (need - TAG_WORDS)
    ensures Holds(o.heap, owner[i := o.block.value], m[i := size])
    ensures OwnedBy(owner[i := o.block.value]) == LiveOf(o.heap.blocks)
    ensures o.block.value !in OwnedBy(owner) && o.block.value in LiveOf(o.heap.blocks)
    ensures Holds(o.heap, owner, m) && size <= 8 * (o.block.value.n - TAG_WORDS)
  {
    hide LiveOf, Inv, Holds;
    var b := o.block.value;
    assert b in LiveOf(o.heap.blocks) && OwnedBy(owner) <= LiveOf(o.heap.blocks);
    OwnMore(s.heap, o.heap, owner, m, i, b, size);
    HoldsIn(s.heap, o.heap, owner, m);
  }

  lemma HoldsIn(h: Heap, h': Heap, owner: Owner, m: Sizes)
    requires Holds(h, owner, m) && OwnedBy(owner) <= LiveOf(h'.blocks)
    ensures Holds(h', owner, m)
  {
    hide LiveOf;
    assert forall i :: i in owner ==> owner[i] in OwnedBy(owner);
  }

  lemma FreeStep(s: Sim, i: int)
    requires GoodSim(s) && i in s.owner
    ensures s.owner[i] in LiveOf(s.heap.blocks)
    ensures var h := Free(s.heap, s.owner[i]);
            && Inv(h) && Holds(h, s.owner - {i}, s.sizes - {i})
            && OwnedBy(s.owner - {i}) == LiveOf(h.blocks) == LiveOf(s.heap.blocks) - {s.owner[i]}
            && Top(h) == Top(s.heap)
  {
    hide LiveOf, Inv, Free, Top;
    FreeFacts(s.heap, s.owner[i]);
    OwnLess(s.heap, Free(s.heap, s.owner[i]), s.owner, s.sizes, i);
  }

  /** What a refused or granted allocation amounts to. */
  lemma AllocStep(s: Sim, i: int, size: int, limit: int)
    requires GoodSim(s) && i !in s.owner && size > 0
    ensures var o := Malloc(s.heap, NeedWords(size), limit);
            && (o.block.None? ==> o.heap == s.heap)
            && (o.block.Some? ==>
                  var b := o.block.value;
                  && Granted(s.heap, {}, o, NeedWords(size))
                  && Holds(o.heap, s.owner, s.sizes) && Holds(o.heap, s.owner[i := b], s.sizes[i := size])
                  && OwnedBy(s.owner[i := b]) == LiveOf(o.heap.blocks)
                  && b !in OwnedBy(s.owner) && size <= 8 * (b.n - TAG_WORDS))
  {
    hide LiveOf, Inv, Malloc, Holds, Granted, NeedWords;
    var o := Malloc(s.heap, NeedWords(size), limit);
    MallocFacts(s.heap, NeedWords(size), limit);
    NeedFits(size);
    if o.block.Some? {
      Given(s, s.owner, s.sizes, o, i, size, {}, NeedWords(size));
    }
  }

  lemma ReallocStep(s: Sim, i: int, size: int, limit: int)
    requires GoodSim(s) && i in s.owner && size > 0
    ensures s.owner[i] in LiveOf(s.heap.blocks)
    ensures Holds(s.heap, s.owner - {i}, s.sizes - {i})
    ensures var o := Resize(s.heap, s.owner[i], TaggedSize(size) / 8, limit);
            && (o.block.None? ==> o.heap == s.heap)
            && (o.block.Some? ==>
                  var b := o.block.value;
                  && Granted(s.heap, {s.owner[i]}, o, TaggedSize(size) / 8)
                  && Holds(o.heap, s.owner - {i}, s.sizes - {i})
                  && Holds(o.heap, s.owner[i := b], s.sizes[i := size])
                  && OwnedBy(s.owner[i := b]) == LiveOf(o.heap.blocks)
                  && b !in OwnedBy(s.owner - {i}) && size <= 8 * (b.n - TAG_WORDS))
  {
    hide LiveOf, Inv, Resize, Granted, TaggedSize;
    var was, need := s.owner[i], TaggedSize(size) / 8;
    var o := Resize(s.heap, was, need, limit);
    ResizeFacts(s.heap, was, need, limit);
    NeedFits(size);
    OwnLess(s.heap, s.heap, s.owner, s.sizes, i);
    if o.block.Some? {
      Given(s, s.owner - {i}, s.sizes - {i}, o, i, size, {was}, need);
      assert (s.owner - {i})[i := o.block.value] == s.owner[i := o.block.value];
      assert (s.sizes - {i})[i := size] == s.sizes[i := size];
    }
  }

  /** Every step keeps the account; the heap does not shrink and stays within its limit. */
  lemma StepSimGood(s: Sim, op: TraceOp, limit: int, base: int)
    requires GoodSim(s) && Due(s.sizes, op)
    ensures match StepSim(s, op, limit, base)
            case Next(s') =>
              && GoodSim(s') && s'.sizes == Apply(s.sizes, op)
              && Top(s.heap) <= Top(s'.heap) && (Top(s.heap) <= limit ==> Top(s'.heap) <= limit)
            case Stop(why) => why == Failed || (why.BadRange? && why.check != Accepted)
  {
    hide LiveOf, Inv, Malloc, Resize, Free, Holds, Granted, Top, NeedWords, TaggedSize, Verify, RemoveFirst;
    SameKeys(s);
    match op
    case AllocOp(i, size) =>
      if size != 0 {
        AllocStep(s, i, size, limit);
        MallocFacts(s.heap, NeedWords(size), limit);
        GrantedTop(s.heap, {}, Malloc(s.heap, NeedWords(size), limit), NeedWords(size));
      }
    case ReallocOp(i, size) =>
      FreeStep(s, i);
      if size != 0 {
        ReallocStep(s, i, size, limit);
        ResizeFacts(s.heap, s.owner[i], TaggedSize(size) / 8, limit);
        GrantedTop(s.heap, {s.owner[i]}, Resize(s.heap, s.owner[i], TaggedSize(size) / 8, limit), TaggedSize(size) / 8);
      }
    case FreeOp(i) =>
      FreeStep(s, i);
  }

  lemma SameKeys(s: Sim)
    requires GoodSim(s)
    ensures s.owner.Keys == s.sizes.Keys
  {
  }

  lemma GrantedTop(h: Heap, mine: set<Blk>, o: Outcome, need: int)
    ensures Granted(h, mine, o, need) ==> Inv(o.heap) && Top(h) <= Top(o.heap)
  {
  }

  // ---------- whole traces ----------

  lemma SimNext(ops: seq<TraceOp>, k: int, limit: int, base: int, signedChar: bool)
    requires 0 <= k < |ops|
    ensures var before := Simulate(ops[..k], limit, base, signedChar);
            Simulate(ops[..k + 1], limit, base, signedChar)
            == if before.StoppedAt? || !Due(before.sim.sizes, ops[k]) then before
               else Continue(before.sim, ops[k], k, limit, base, signedChar)
  {
    hide StepSim, GoodSim, Continue;
    assert ops[..k + 1][..k] == ops[..k];
  }

  lemma Advance(ops: seq<TraceOp>, k: int, s: Sim, limit: int, base: int, signedChar: bool)
    requires 0 <= k < |ops| && Simulate(ops[..k], limit, base, signedChar) == Running(s) && GoodSim(s)
    requires Due(s.sizes, ops[k]) && StepSim(s, ops[k], limit, base).Next? && !Unreadable(ops[k], signedChar)
    ensures Simulate(ops[..k + 1], limit, base, signedChar) == Running(StepSim(s, ops[k], limit, base).sim)
  {
    hide Simulate, GoodSim, StepSim, Due, Unreadable;
    SimNext(ops, k, limit, base, signedChar);
  }

  /** Once the replay has stopped, the rest of the trace does not matter. */
  lemma {:induction false} SimStays(ops: seq<TraceOp>, k: int, limit: int, base: int, signedChar: bool)
    requires 0 <= k <= |ops| && Simulate(ops[..k], limit, base, signedChar).StoppedAt?
    ensures Simulate(ops, limit, base, signedChar) == Simulate(ops[..k], limit, base, signedChar)
    decreases |ops| - k
  {
    hide Simulate;
    if k < |ops| {
      SimNext(ops, k, limit, base, signedChar);
      SimStays(ops, k + 1, limit, base, signedChar);
    } else {
      assert ops[..k] == ops;
    }
  }

  /** A replay that stops does so at the first operation that has a reason to. */
  lemma {:induction false} StoppedWhere(ops: seq<TraceOp>, n: int, limit: int, base: int, signedChar: bool)
    requires 0 <= n <= |ops| && Simulate(ops[..n], limit, base, signedChar).StoppedAt?
    ensures var r := Simulate(ops[..n], limit, base, signedChar);
            && 0 <= r.op < n
            && var before := Simulate(ops[..r.op], limit, base, signedChar);
            && before.Running? && Due(before.sim.sizes, ops[r.op])
            && r == Continue(before.sim, ops[r.op], r.op, limit, base, signedChar)
    decreases n
  {
    hide StepSim, GoodSim;
    if n > 0 {
      SimNext(ops, n - 1, limit, base, signedChar);
      if Simulate(ops[..n - 1], limit, base, signedChar).StoppedAt? {
        StoppedWhere(ops, n - 1, limit, base, signedChar);
      }
    }
  }

  /** While the replay of a well-formed trace runs, its sizes are those of the trace. */
  lemma {:induction false} SimSizes(ops: seq<TraceOp>, k: int, numIds: int, limit: int, base: int, signedChar: bool)
    requires WellFormed(ops, numIds) && 0 <= k <= |ops|
    ensures var r := Simulate(ops[..k], limit, base, signedChar);
            r.Running? ==> r.sim.sizes == SizesAfter(ops[..k]) && (k < |ops| ==> OpOk(r.sim.sizes, ops[k], numIds))
    decreases k
  {
    hide StepSim, GoodSim, Apply, Due;
    if k == 0 {
      assert ops[..0] == [];
    } else {
      SimSizes(ops, k - 1, numIds, limit, base, signedChar);
      SimNext(ops, k - 1, limit, base, signedChar);
      NextSizes(ops, k - 1);
      var before := Simulate(ops[..k - 1], limit, base, signedChar);
      if before.Running? {
        StepSimGood(before.sim, ops[k - 1], limit, base);
      }
    }
  }

  /** What was replayed was readable. */
  lemma {:induction false} ReadableSoFar(ops: seq<TraceOp>, k: int, numIds: int,
                                         limit: int, base: int, signedChar: bool)
    requires WellFormed(ops, numIds) && 0 <= k <= |ops| && Simulate(ops[..k], limit, base, signedChar).Running?
    ensures forall j :: 0 <= j < k ==> !Unreadable(ops[j], signedChar)
    decreases k
  {
    hide StepSim, GoodSim, Simulate, Due, WellFormed, Unreadable;
    if k > 0 {
      SimNext(ops, k - 1, limit, base, signedChar);
      SimSizes(ops, k - 1, numIds, limit, base, signedChar);
      ReadableSoFar(ops, k - 1, numIds, limit, base, signedChar);
    }
  }
}
