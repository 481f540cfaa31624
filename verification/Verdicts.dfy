/** What replaying a trace must come to: when it succeeds, what it leaves, and what the utilization
    measurement measures. */
module Verdicts {
  import opened Layout
  import opened AllocSpec
  import opened Mm
  import opened Trace
  import opened Ranges
  import opened Owners
  import opened Runs
  import opened Simulation
  import opened StaleRanges
  import CheckTrace

  // ---------- enough memory ----------

  /** The most words by which an operation makes the heap grow. */
  function Cost(op: TraceOp): (r: int)
    ensures r >= 0
  {
    match op
    case AllocOp(_, size) => if size <= 0 then 0 else NeedWords(size)
    case ReallocOp(_, size) => if size <= 0 then 0 else TaggedSize(size) / 8 + TAG_WORDS
    case FreeOp(_) => 0
  }

  /** A heap of so many words suffices for the trace. */
  function Demand(ops: seq<TraceOp>): (r: int)
    ensures r >= 4
  {
    if ops == [] then 4 else Demand(ops[..|ops| - 1]) + Cost(ops[|ops| - 1])
  }

  lemma ResizeCost(h: Heap, b: Blk, need: int, limit: int)
    requires Inv(h) && b in LiveOf(h.blocks)
    ensures var o := Resize(h, b, need, limit);
            && (o.block.None? ==> 8 * (need + TAG_WORDS) >= 0x8000_0000 || Top(h) + need + TAG_WORDS > limit)
            && (need >= 0 ==> Top(o.heap) <= Top(h) + need + TAG_WORDS)
  {
    hide Inv, LiveOf, Resize, Move, Malloc, JoinAlloc, Top, Joined, Absorbing, Free;
    ResizeBy(h, b, need, limit);
    PositionOf(h, b);
    var k := IndexOf(h.blocks, b);
    match ResizePlan(h.blocks, k, need)
    case Keep =>
    case Absorb(lo, hi) =>
      AbsorbGranted(h, b, k, lo, hi);
    case Relocate =>
      MoveFacts(h, b, need + TAG_WORDS, limit);
      MallocChoice(h, need + TAG_WORDS, limit);
      if Malloc(h, need + TAG_WORDS, limit).block.Some? {
        FreeFacts(Malloc(h, need + TAG_WORDS, limit).heap, b);
      }
  }

  lemma StepCost(s: Sim, op: TraceOp, limit: int, base: int)
    requires GoodSim(s) && Due(s.sizes, op)
    ensures match StepSim(s, op, limit, base)
            case Next(s') => Top(s'.heap) <= Top(s.heap) + Cost(op)
            case Stop(why) => why == Failed ==> 8 * Cost(op) >= 0x8000_0000 || Top(s.heap) + Cost(op) > limit
  {
    hide LiveOf, Inv, Malloc, Resize, Free, Holds, Granted, Top, NeedWords, TaggedSize, Verify, RemoveFirst;
    SameKeys(s);
    match op
    case AllocOp(i, size) =>
      if size != 0 {
        MallocChoice(s.heap, NeedWords(size), limit);
      }
    case ReallocOp(i, size) =>
      FreeStep(s, i);
      if size != 0 {
        NeedFits(size);
        ResizeCost(s.heap, s.owner[i], TaggedSize(size) / 8, limit);
      }
    case FreeOp(i) =>
      FreeStep(s, i);
  }

  /** No request is too large for an int. */
  predicate Modest(ops: seq<TraceOp>) {
    forall k :: 0 <= k < |ops| ==> 8 * Cost(ops[k]) < 0x8000_0000
  }

  lemma {:induction false} DemandGrows(ops: seq<TraceOp>, k: int)
    requires 0 <= k <= |ops|
    ensures Demand(ops[..k]) <= Demand(ops)
    decreases |ops| - k
  {
    if k < |ops| {
      assert ops[..k + 1][..k] == ops[..k];
      DemandGrows(ops, k + 1);
    } else {
      assert ops[..k] == ops;
    }
  }

  /** In a heap that meets the demand no request is ever refused. */
  lemma {:induction false} EnoughMemory(ops: seq<TraceOp>, k: int, limit: int, base: int, signedChar: bool)
    requires Modest(ops) && Demand(ops) <= limit && 0 <= k <= |ops|
    ensures match Simulate(ops[..k], limit, base, signedChar)
            case Running(s) => Top(s.heap) <= Demand(ops[..k])
            case StoppedAt(_, why) => why != Failed
    decreases k
  {
    hide StepSim, GoodSim, Due, Top;
    if k == 0 {
      assert ops[..0] == [];
      InitialInv();
    } else {
      EnoughMemory(ops, k - 1, limit, base, signedChar);
      SimNext(ops, k - 1, limit, base, signedChar);
      assert ops[..k][..k - 1] == ops[..k - 1];
      DemandGrows(ops, k);
      var before := Simulate(ops[..k - 1], limit, base, signedChar);
      if before.Running? && Due(before.sim.sizes, ops[k - 1]) {
        StepCost(before.sim, ops[k - 1], limit, base);
      }
    }
  }

  /** With enough memory and without reallocations to zero bytes, the replay of a well-formed
      trace succeeds exactly if a signed `char` can match the data of all reallocations; otherwise
      the first for which it cannot is reported. */
  lemma VerdictExactly(ops: seq<TraceOp>, numIds: int, limit: int, base: int, signedChar: bool)
    requires WellFormed(ops, numIds) && Positive(ops) && base % 8 == 0
    requires Modest(ops) && Demand(ops) <= limit
    ensures var r := Simulate(ops, limit, base, signedChar);
            && (r.Running? <==> forall k :: 0 <= k < |ops| ==> !Unreadable(ops[k], signedChar))
            && (r.StoppedAt? ==>
                  && r.why == DataLost && 0 <= r.op < |ops| && Unreadable(ops[r.op], signedChar)
                  && forall k :: 0 <= k < r.op ==> !Unreadable(ops[k], signedChar))
  {
    hide Simulate, Demand, Modest;
    var r := Simulate(ops, limit, base, signedChar);
    assert ops[..|ops|] == ops;
    CleanRun(ops, |ops|, limit, base, signedChar);
    EnoughMemory(ops, |ops|, limit, base, signedChar);
    if r.Running? {
      ReadableSoFar(ops, |ops|, numIds, limit, base, signedChar);
    } else {
      StoppedWhere(ops, |ops|, limit, base, signedChar);
      LostOnly(Simulate(ops[..r.op], limit, base, signedChar).sim, ops[r.op], r.op, limit, base, signedChar);
      ReadableSoFar(ops, r.op, numIds, limit, base, signedChar);
    }
  }

  lemma LostOnly(s: Sim, op: TraceOp, k: int, limit: int, base: int, signedChar: bool)
    requires GoodSim(s) && Due(s.sizes, op) && Continue(s, op, k, limit, base, signedChar) == StoppedAt(k, DataLost)
    ensures Unreadable(op, signedChar)
  {
    StepSimGood(s, op, limit, base);
    hide StepSim, GoodSim;
  }

  // ---------- replays are runs of the allocator ----------

  /** The call that an operation makes. */
  ghost function CallOf(s: Sim, op: TraceOp): Call
    requires GoodSim(s) && Due(s.sizes, op)
  {
    SameKeys(s);
    match op
    case AllocOp(_, size) => CallMalloc(size)
    case ReallocOp(i, size) => CallRealloc(s.owner[i], size)
    case FreeOp(i) => CallFree(s.owner[i])
  }

  ghost function CallsOf(ops: seq<TraceOp>, limit: int, base: int, signedChar: bool): seq<Call>
    decreases |ops|
  {
    if ops == [] then []
    else
      var init, op := ops[..|ops| - 1], ops[|ops| - 1];
      var before := Simulate(init, limit, base, signedChar);
      CallsOf(init, limit, base, signedChar)
      + if before.Running? && Due(before.sim.sizes, op) then [CallOf(before.sim, op)] else []
  }

  lemma StepIsCall(s: Sim, op: TraceOp, limit: int, base: int)
    requires GoodSim(s) && Due(s.sizes, op) && StepSim(s, op, limit, base).Next?
    ensures var w, t := World(s.heap, OwnedBy(s.owner), {}), StepSim(s, op, limit, base).sim;
            && Good(w) && Allowed(w, CallOf(s, op), limit)
            && Step(w, CallOf(s, op), limit) == World(t.heap, OwnedBy(t.owner), {})
  {
    hide LiveOf, Inv, Malloc, Resize, Free, Holds, Granted, Top, NeedWords, TaggedSize, Verify, RemoveFirst, Resizable,
         Serviceable;
    SameKeys(s);
    IntsAllowed(World(s.heap, OwnedBy(s.owner), {}), CallOf(s, op), limit);
    match op
    case AllocOp(i, size) =>
      if size != 0 {
        AllocStep(s, i, size, limit);
        GrantedLive(s.heap, {}, Malloc(s.heap, NeedWords(size), limit), NeedWords(size));
      }
    case ReallocOp(i, size) =>
      FreeStep(s, i);
      if size != 0 {
        ReallocStep(s, i, size, limit);
        var need := TaggedSize(size) / 8;
        GrantedLive(s.heap, {s.owner[i]}, Resize(s.heap, s.owner[i], need, limit), need);
      }
    case FreeOp(i) =>
      FreeStep(s, i);
  }

  lemma GrantedLive(h: Heap, mine: set<Blk>, o: Outcome, need: int)
    requires Granted(h, mine, o, need)
    ensures LiveOf(o.heap.blocks) == LiveOf(h.blocks) - mine + Grantee(o)
  {
  }

  /** A replay is the run of the allocator that its operations' calls make: it has the same heap,
      the live ids own exactly the pointers held, and nothing is lost. */
  lemma {:induction false} ReplayIsRun(ops: seq<TraceOp>, k: int, limit: int, base: int, signedChar: bool)
    requires 0 <= k <= |ops| && Simulate(ops[..k], limit, base, signedChar).Running?
    ensures var s := Simulate(ops[..k], limit, base, signedChar).sim;
            After(CallsOf(ops[..k], limit, base, signedChar), limit) == World(s.heap, OwnedBy(s.owner), {})
    decreases k
  {
    hide StepSim, GoodSim, Due, Simulate, Step, Good, Allowed, CallOf, Inv, LiveOf;
    if k == 0 {
      assert ops[..0] == [];
      StartIs(limit, base, signedChar);
      assert OwnedBy(START.owner) == {};
    } else {
      SimNext(ops, k - 1, limit, base, signedChar);
      ReplayIsRun(ops, k - 1, limit, base, signedChar);
      var s, cs := Simulate(ops[..k - 1], limit, base, signedChar).sim, CallsOf(ops[..k - 1], limit, base, signedChar);
      assert ops[..k][..k - 1] == ops[..k - 1];
      if Due(s.sizes, ops[k - 1]) {
        StepIsCall(s, ops[k - 1], limit, base);
        AfterCall(cs, CallOf(s, ops[k - 1]), limit);
      } else {
        assert cs + [] == cs;
      }
    }
  }

  // ---------- what replays come to ----------

  /** The trace "a 128 8, r 128 16" is reported as losing data where `char` is signed. */
  lemma SignedCharMismatch(limit: int, base: int)
    requires limit >= 14 && base > 0 && base % 8 == 0
    ensures var ops := [AllocOp(128, 8), ReallocOp(128, 16)];
            && WellFormed(ops, 129)
            && Simulate(ops, limit, base, true) == StoppedAt(1, DataLost)
            && Simulate(ops, limit, base, false).Running?
  {
    hide Simulate, Demand, Modest, WellFormed;
    var ops := [AllocOp(128, 8), ReallocOp(128, 16)];
    SignedCharTrace(ops);
    VerdictExactly(ops, 129, limit, base, true);
    VerdictExactly(ops, 129, limit, base, false);
    assert Unreadable(ops[1], true);
  }

  lemma SignedCharTrace(ops: seq<TraceOp>)
    requires ops == [AllocOp(128, 8), ReallocOp(128, 16)]
    ensures WellFormed(ops, 129) && Modest(ops) && Demand(ops) == 14
  {
    assert ops[..0] == [] && ops[..1] == [ops[0]];
    NextSizes(ops, 0);
    assert Cost(ops[0]) == 4 && Cost(ops[1]) == 6;
    assert Demand(ops[..1]) == 8;
  }

  /** A trace that leaves no id live leaves at most one free block, of everything between
      prologue and epilogue. */
  lemma NothingLeft(ops: seq<TraceOp>, numIds: int, limit: int, base: int, signedChar: bool)
    requires WellFormed(ops, numIds) && SizesAfter(ops).Keys == {}
    requires Simulate(ops, limit, base, signedChar).Running?
    ensures var h := Simulate(ops, limit, base, signedChar).sim.heap;
            && Inv(h) && |h.free| <= 1
            && (Top(h) > 4 ==> h.free == [Blk(TAG_WORDS, Top(h) - 2 * TAG_WORDS, false)])
  {
    hide Simulate, SizesAfter, WellFormed;
    assert ops[..|ops|] == ops;
    SimSizes(ops, |ops|, numIds, limit, base, signedChar);
    var s := Simulate(ops, limit, base, signedChar).sim;
    SameKeys(s);
    assert OwnedBy(s.owner) == {};
    Reclaimed(s.heap);
    FreeBound(s.heap);
    AtLeastTwo(s.heap);
  }

  /** What the trace checker has balanced can be replayed exactly if the trace had no request of
      zero bytes.  Then, in a heap that meets its demand and without looking at the data, the
      replay gets to the end and leaves at most one free block. */
  lemma BalancedReplay(input: seq<CheckTrace.Line>, ids: seq<string>, num: string -> int, numIds: int,
                       limit: int, base: int)
    requires CheckTrace.OnlyRequests(input) && CheckTrace.Scan(input).Some?
    requires CheckTrace.Lists(ids, CheckTrace.Scan(input).value.Keys)
    requires CheckTrace.Readable(CheckTrace.NonBlank(input) + CheckTrace.Frees(ids), num, numIds)
    requires var ops := CheckTrace.Ops(CheckTrace.NonBlank(input) + CheckTrace.Frees(ids), num);
             Modest(ops) && Demand(ops) <= limit && base % 8 == 0
    ensures var ops := CheckTrace.Ops(CheckTrace.NonBlank(input) + CheckTrace.Frees(ids), num);
            var r := Simulate(ops, limit, base, false);
            && (WellFormed(ops, numIds) <==> CheckTrace.Sized(CheckTrace.NonBlank(input)))
            && (WellFormed(ops, numIds) ==>
                  r.Running? && |r.sim.heap.free| <= 1 && LiveOf(r.sim.heap.blocks) == {})
  {
    hide Simulate, Demand, Modest, CheckTrace.OnlyRequests, CheckTrace.Scan, CheckTrace.Lists, CheckTrace.NonBlank;
    hide CheckTrace.Frees, SizesAfter, WellFormed;
    var lines := CheckTrace.NonBlank(input) + CheckTrace.Frees(ids);
    var ops := CheckTrace.Ops(lines, num);
    CheckTrace.BalancedReplays(input, ids, num, numIds);
    if WellFormed(ops, numIds) {
      SizedPositive(lines, num, numIds);
      VerdictExactly(ops, numIds, limit, base, false);
      NothingLeft(ops, numIds, limit, base, false);
      assert ops[..|ops|] == ops;
      SimSizes(ops, |ops|, numIds, limit, base, false);
      var s := Simulate(ops, limit, base, false).sim;
      SameKeys(s);
      assert OwnedBy(s.owner) == {};
    }
  }

  lemma SizedPositive(lines: seq<CheckTrace.Line>, num: string -> int, numIds: int)
    requires CheckTrace.Readable(lines, num, numIds) && CheckTrace.Sized(lines)
    ensures Positive(CheckTrace.Ops(lines, num))
  {
  }

  /** The largest total of the utilization measurement exceeds the heap by at most the bytes of the
      ids that were reallocated to zero.  Without such it is the high water mark of the requested
      bytes, and fits the heap. */
  lemma {:induction false} PeakFits(ops: seq<TraceOp>, k: int, numIds: nat, limit: int, base: int, signedChar: bool)
    requires WellFormed(ops, numIds) && 0 <= k <= |ops|
    requires Simulate(ops[..k], limit, base, signedChar).Running?
    ensures var h := Simulate(ops[..k], limit, base, signedChar).sim.heap;
            && 0 <= Peak(ops[..k]) <= 8 * Top(h) + Dropped(ops[..k])
            && (Positive(ops[..k]) ==> Peak(ops[..k]) == HighWater(ops[..k], numIds) <= 8 * Top(h))
    decreases k
  {
    hide Simulate, GoodSim, StepSim, Top, HighWater, Peak, SizesAfter, WellFormed, Due, Charged, Dropped, Positive;
    PeakIs(ops, k, numIds);
    ChargedIs(ops, k, numIds);
    if k == 0 {
      StartIs(limit, base, signedChar);
      InitialInv();
      assert ops[..0] == [];
      NoPeak(numIds);
    } else {
      SimNext(ops, k - 1, limit, base, signedChar);
      SimSizes(ops, k - 1, numIds, limit, base, signedChar);
      SimSizes(ops, k, numIds, limit, base, signedChar);
      PeakFits(ops, k - 1, numIds, limit, base, signedChar);
      var before := Simulate(ops[..k - 1], limit, base, signedChar).sim;
      StepSimGood(before, ops[k - 1], limit, base);
      NextCharged(ops, k - 1);
      DroppedGrows(ops, k - 1, numIds);
      SimFits(Simulate(ops[..k], limit, base, signedChar).sim, numIds);
    }
  }

  /** A request from an empty list extends the heap, and nothing is rejected. */
  lemma GrowStep(s: Sim, i: int, size: int, need: int, limit: int, base: int) returns (s': Sim)
    requires GoodSim(s) && Clean(s, base) && Due(s.sizes, AllocOp(i, size)) && base % 8 == 0
    requires size > 0 && need == NeedWords(size) && 8 * need < 0x8000_0000
    requires s.heap.free == [] && Top(s.heap) + need <= limit
    ensures StepSim(s, AllocOp(i, size), limit, base) == Next(s') && GoodSim(s') && Clean(s', base)
    ensures s'.heap.free == [] && Top(s'.heap) == Top(s.heap) + need
    ensures var b := Blk(Top(s.heap) - TAG_WORDS, need, true);
            && s'.owner == s.owner[i := b] && s'.sizes == s.sizes[i := size]
            && s'.ranges == [Extent(base, b, size)] + s.ranges
  {
    hide Inv, LiveOf, Malloc, Holds, Top, NeedWords, Clean, Verify;
    MallocChoice(s.heap, need, limit);
    StepSimGood(s, AllocOp(i, size), limit, base);
    StepClean(s, AllocOp(i, size), limit, base);
    s' := StepSim(s, AllocOp(i, size), limit, base).sim;
  }

  lemma OverSizes(ops: seq<TraceOp>)
    requires ops == [AllocOp(0, 16), AllocOp(1, 125), ReallocOp(1, 0), FreeOp(0), AllocOp(2, 160)]
    ensures SizesAfter(ops[..0]) == map[] && SizesAfter(ops[..1]) == map[0 := 16]
    ensures SizesAfter(ops[..2]) == map[0 := 16, 1 := 125]
    ensures SizesAfter(ops[..3]) == map[0 := 16] && SizesAfter(ops[..4]) == map[]
  {
    NextSizes(ops, 0);
    NextSizes(ops, 1);
    NextSizes(ops, 2);
    NextSizes(ops, 3);
    hide SizesAfter;
    var m: Sizes := map[0 := 16, 1 := 125];
    assert m - {1} == map[0 := 16];
    assert map[0 := 16] - {0} == map[];
  }

  lemma OverTrace(ops: seq<TraceOp>)
    requires ops == [AllocOp(0, 16), AllocOp(1, 125), ReallocOp(1, 0), FreeOp(0), AllocOp(2, 160)]
    ensures WellFormed(ops, 3) && Peak(ops) == 285
  {
    hide Positive, SizesAfter, Charged, Peak;
    OverSizes(ops);
    NoPeak(3);
    assert ops[..0] == [] && ops[..5] == ops;
    NextCharged(ops, 0);
    NextCharged(ops, 1);
    NextCharged(ops, 2);
    NextCharged(ops, 3);
    NextCharged(ops, 4);
  }

  lemma OverNeeds()
    ensures NeedWords(16) == 4 && NeedWords(125) == 18 && NeedWords(160) == 22
  {
  }

  lemma OverGrown(limit: int, base: int) returns (s: Sim)
    requires limit >= 26 && base > 0 && base % 8 == 0
    ensures GoodSim(START) && Due(START.sizes, AllocOp(0, 16))
    ensures var r := StepSim(START, AllocOp(0, 16), limit, base);
            && r.Next? && GoodSim(r.sim) && Due(r.sim.sizes, AllocOp(1, 125))
            && StepSim(r.sim, AllocOp(1, 125), limit, base) == Next(s)
    ensures GoodSim(s) && Top(s.heap) == 26 && s.sizes == map[0 := 16, 1 := 125]
    ensures s.owner == map[0 := Blk(2, 4, true), 1 := Blk(6, 18, true)]
    ensures s.ranges == [Range(base + 56, base + 180), Range(base + 24, base + 39)]
  {
    hide GoodSim, Clean, Top, StepSim, NeedWords;
    InitialInv();
    OverNeeds();
    StartIs(limit, base, false);
    var s1 := GrowStep(START, 0, 16, 4, limit, base);
    s := GrowStep(s1, 1, 125, 18, limit, base);
  }

  lemma OverFreed(s: Sim, limit: int, base: int) returns (t: Sim)
    requires GoodSim(s) && Top(s.heap) == 26 && s.sizes == map[0 := 16, 1 := 125]
    requires s.owner == map[0 := Blk(2, 4, true), 1 := Blk(6, 18, true)]
    requires s.ranges == [Range(base + 56, base + 180), Range(base + 24, base + 39)]
    ensures Due(s.sizes, ReallocOp(1, 0))
    ensures var r := StepSim(s, ReallocOp(1, 0), limit, base);
            && r.Next? && GoodSim(r.sim) && Due(r.sim.sizes, FreeOp(0))
            && StepSim(r.sim, FreeOp(0), limit, base) == Next(t)
    ensures GoodSim(t) && Top(t.heap) == 26 && t.sizes.Keys == {} && t.ranges == [Range(base + 56, base + 180)]
  {
    hide Inv, LiveOf, Free, Holds, Top, GoodSim;
    FreeStep(s, 1);
    StepSimGood(s, ReallocOp(1, 0), limit, base);
    var r := StepSim(s, ReallocOp(1, 0), limit, base).sim;
    FreeStep(r, 0);
    StepSimGood(r, FreeOp(0), limit, base);
    t := StepSim(r, FreeOp(0), limit, base).sim;
    RemoveAt(r.ranges, base + 24, 1);
    assert r.ranges[..1] + r.ranges[2..] == [Range(base + 56, base + 180)];
  }

  /** The last request takes the whole heap, around the stale range. */
  lemma OverLast(s: Sim, limit: int, base: int)
    requires GoodSim(s) && s.sizes.Keys == {} && Top(s.heap) == 26 && base > 0 && base % 8 == 0
    requires s.ranges == [Range(base + 56, base + 180)]
    ensures Due(s.sizes, AllocOp(2, 160))
    ensures var r := StepSim(s, AllocOp(2, 160), limit, base); r.Next? && Top(r.sim.heap) == 26
  {
    hide Inv, LiveOf, Malloc, Top;
    SameKeys(s);
    assert OwnedBy(s.owner) == {};
    Reclaimed(s.heap);
    AtLeastTwo(s.heap);
    assert s.heap.free[0].n == NeedWords(160);
    MallocChoice(s.heap, NeedWords(160), limit);
    AllocStep(s, 2, 160, limit);
    assert Malloc(s.heap, NeedWords(160), limit).block.value.at == 2;
  }

  /** With one it may not fit: on "a 0 16, a 1 125, r 1 0, f 0, a 2 160" the driver counts 285
      bytes in a heap of 208. */
  lemma OverUnity(limit: int, base: int, signedChar: bool)
    requires limit >= 26 && base > 0 && base % 8 == 0
    ensures var ops := [AllocOp(0, 16), AllocOp(1, 125), ReallocOp(1, 0), FreeOp(0), AllocOp(2, 160)];
            var r := Simulate(ops, limit, base, signedChar);
            WellFormed(ops, 3) && r.Running? && 8 * Top(r.sim.heap) == 208 && Peak(ops) == 285
  {
    hide GoodSim, Clean, Top, Simulate, WellFormed, Peak, StepSim, Due;
    var ops := [AllocOp(0, 16), AllocOp(1, 125), ReallocOp(1, 0), FreeOp(0), AllocOp(2, 160)];
    OverTrace(ops);
    StartIs(limit, base, signedChar);
    var s2 := OverGrown(limit, base);
    var s1 := StepSim(START, ops[0], limit, base).sim;
    var s4 := OverFreed(s2, limit, base);
    var s3 := StepSim(s2, ops[2], limit, base).sim;
    OverLast(s4, limit, base);
    assert ops[..0] == [] && ops[..5] == ops;
    Advance(ops, 0, START, limit, base, signedChar);
    Advance(ops, 1, s1, limit, base, signedChar);
    Advance(ops, 2, s2, limit, base, signedChar);
    Advance(ops, 3, s3, limit, base, signedChar);
    Advance(ops, 4, s4, limit, base, signedChar);
  }

  lemma NoPeak(numIds: nat)
    ensures Peak([]) == 0 && Charged([]) == 0 && HighWater([], numIds) == 0
  {
  }

  lemma SimFits(s: Sim, numIds: nat)
    requires GoodSim(s)
    ensures SumBelow(s.sizes, numIds) <= 8 * Top(s.heap)
  {
    SumFits(s.heap, s.owner, s.sizes, numIds);
  }
}
