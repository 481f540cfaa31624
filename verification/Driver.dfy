/** The trace driver: replaying a trace on the allocator, once checking every answer and
    once measuring how much of the heap the trace could make use of. */
module Driver {
  import opened Layout
  import opened AllocSpec
  import opened Words
  import opened MmInline
  import opened Mm
  import opened Bytes
  import opened Trace
  import opened Ranges
  import opened Owners
  import opened Simulation
  import opened StaleRanges
  import opened Verdicts

  /** What the validity check reports: success, or the operation it stopped at and why. */
  datatype Verdict =
    | Valid
    | InitFailed
    | OutOfMemory(op: int)
    | Invalid(op: int, why: StepResult)
    | Mismatch(op: int)

  /** What the utilization measurement comes to: the ratio, an abort at an operation (at -1 if
      the heap cannot be set up), or 0 for a rejected range. */
  datatype UtilResult = Util(ratio: real) | AppError(op: int) | Rejected

  function VerdictOf(p: Progress): Verdict {
    match p
    case Running(_) => Valid
    case StoppedAt(k, why) =>
      if why == Failed then OutOfMemory(k) else if why == DataLost then Mismatch(k) else Invalid(k, why)
  }

  /** What the verdicts mean, and which are possible when. */
  lemma VerdictMeans(ops: seq<TraceOp>, numIds: int, limit: int, base: int, signedChar: bool)
    requires WellFormed(ops, numIds) && base % 8 == 0
    ensures var v := VerdictOf(Simulate(ops, limit, base, signedChar));
            var readable := forall k :: 0 <= k < |ops| ==> !Unreadable(ops[k], signedChar);
            && (!v.Valid? ==> (v.OutOfMemory? || v.Mismatch? || v.Invalid?) && 0 <= v.op < |ops|)
            && (v.Mismatch? ==> Unreadable(ops[v.op], signedChar))
            && (!v.Valid? ==> forall k :: 0 <= k < v.op < |ops| ==> !Unreadable(ops[k], signedChar))
            && (v.Valid? ==> readable)
            && (v.Invalid? ==> v.why == BadRange(Overlaps))
            && (forall k :: 0 <= k < |ops| ==>
                  && (v == OutOfMemory(k) <==> RefusedAt(ops, k, limit, base, signedChar))
                  && (v == Invalid(k, BadRange(Overlaps)) <==> FalselyHit(ops, k, limit, base, signedChar))
                  && (v == Mismatch(k) <==> LostAt(ops, k, limit, base, signedChar)))
            && (Positive(ops) ==> !v.Invalid?)
            && (Positive(ops) && Modest(ops) && Demand(ops) <= limit ==> (v.Valid? <==> readable))
  {
    hide Simulate, Modest, Demand, WellFormed, GoodSim, Due, StepSim, FalselyHit, RefusedAt, LostAt, Unreadable,
         Positive;
    var r := Simulate(ops, limit, base, signedChar);
    assert ops[..|ops|] == ops;
    forall k | 0 <= k < |ops|
      ensures r == StoppedAt(k, Failed) <==> RefusedAt(ops, k, limit, base, signedChar)
      ensures r == StoppedAt(k, BadRange(Overlaps)) <==> FalselyHit(ops, k, limit, base, signedChar)
      ensures r == StoppedAt(k, DataLost) <==> LostAt(ops, k, limit, base, signedChar)
    {
      StopsExactly(ops, k, numIds, limit, base, signedChar);
    }
    if Positive(ops) {
      CleanRun(ops, |ops|, limit, base, signedChar);
      if Modest(ops) && Demand(ops) <= limit {
        VerdictExactly(ops, numIds, limit, base, signedChar);
      }
    }
    if r.Running? {
      ReadableSoFar(ops, |ops|, numIds, limit, base, signedChar);
    } else {
      StoppedWhere(ops, |ops|, limit, base, signedChar);
      ReadableSoFar(ops, r.op, numIds, limit, base, signedChar);
      StopReasons(ops, limit, base, signedChar);
      StopReason(Simulate(ops[..r.op], limit, base, signedChar).sim, ops[r.op], r.op, limit, base, signedChar);
    }
  }

  lemma StopReason(s: Sim, op: TraceOp, k: int, limit: int, base: int, signedChar: bool)
    requires GoodSim(s) && Due(s.sizes, op)
    ensures match Continue(s, op, k, limit, base, signedChar)
            case Running(_) => !Unreadable(op, signedChar)
            case StoppedAt(_, why) =>
              && (why == DataLost ==> Unreadable(op, signedChar))
              && (why != DataLost ==> StepSim(s, op, limit, base) == Stop(why))
  {
    StepSimGood(s, op, limit, base);
    hide StepSim, GoodSim, Due, Unreadable;
  }

  /** Where a replay that does not look at the data stops. */
  lemma AbortsWhen(ops: seq<TraceOp>, numIds: int, limit: int, base: int)
    requires WellFormed(ops, numIds) && base % 8 == 0
    ensures var r := Simulate(ops, limit, base, false);
            && (r.StoppedAt? ==> 0 <= r.op < |ops| && (r.why == Failed || r.why == BadRange(Overlaps)))
            && (forall k :: 0 <= k < |ops| ==>
                  && (r == StoppedAt(k, Failed) <==> RefusedAt(ops, k, limit, base, false))
                  && (r == StoppedAt(k, BadRange(Overlaps)) <==> FalselyHit(ops, k, limit, base, false)))
  {
    hide Simulate, WellFormed, GoodSim, Due, StepSim, FalselyHit, RefusedAt;
    var r := Simulate(ops, limit, base, false);
    assert ops[..|ops|] == ops;
    forall k | 0 <= k < |ops|
      ensures r == StoppedAt(k, Failed) <==> RefusedAt(ops, k, limit, base, false)
      ensures r == StoppedAt(k, BadRange(Overlaps)) <==> FalselyHit(ops, k, limit, base, false)
      ensures r != StoppedAt(k, DataLost)
    {
      StopsExactly(ops, k, numIds, limit, base, false);
    }
    if r.StoppedAt? {
      StoppedWhere(ops, |ops|, limit, base, false);
      StopReasons(ops, limit, base, false);
    }
  }

  /** A trace with the pointers and sizes remembered for its ids, the range list, and the
      allocator it is replayed on. */
  class Replay {
    const a: Allocator
    const rl: RangeList
    const ops: seq<TraceOp>
    const blocks: array<int>
    const blockSizes: array<int>
    /** Whether plain `char` is signed. */
    const signedChar: bool

    constructor (a: Allocator, ops: seq<TraceOp>, numIds: nat, signedChar: bool)
      requires a.lib.Valid() && a.lib.mem == a.il.mem
      ensures this.a == a && this.ops == ops && this.signedChar == signedChar
      ensures fresh(rl) && fresh(blocks) && fresh(blockSizes)
      ensures blocks.Length == numIds && Wired()
    {
      this.a, this.ops, this.signedChar := a, ops, signedChar;
      rl := new RangeList();
      blocks := new int[numIds];
      blockSizes := new int[numIds];
    }

    /** The objects fit together: nothing is shared by accident. */
    ghost predicate Wired()
      reads a.lib
    {
      && a.lib.Valid() && a.lib.mem == a.il.mem
      && blocks != blockSizes && blocks.Length == blockSizes.Length
      && a.il.mem != blocks && a.il.mem != blockSizes
    }

    /** The heap and the range list are those of `s`, and every live id of `s` has its block
        recorded in the trace's arrays and filled. */
    ghost predicate Tracks(s: Sim)
      reads a, a.lib, a.il, a.il.mem, rl, blocks, blockSizes
    {
      && Wired() && a.Valid() && GoodSim(s)
      && a.il.heap == s.heap && rl.ranges == s.ranges
      && Owns(a.il.heap, a.il.mem[..], blocks[..], blockSizes[..], s.owner, s.sizes)
    }

    /** The replay has followed `op` from `s`, ending as `r` says; a refusal changes nothing. */
    ghost predicate Follows(s: Sim, op: TraceOp, signed: bool, r: StepResult)
      requires GoodSim(s) && Due(s.sizes, op)
      reads a, a.lib, a.il, a.il.mem, rl, blocks, blockSizes
    {
      match Continue(s, op, 0, a.il.mem.Length, a.lib.base, signed)
      case Running(s') => r == Done && Tracks(s')
      case StoppedAt(_, why) => r == why != Done && (why == Failed ==> Tracks(s))
    }

    /** `memset` over the requested bytes of a live block that no live id owns, and the entry in
        the trace's arrays. */
    method FillBlock(p: int, index: int, size: int, ghost owner: Owner, ghost m: Sizes, ghost b: Blk)
      requires Wired() && a.Valid()
      requires Owns(a.il.heap, a.il.mem[..], blocks[..], blockSizes[..], owner, m)
      requires 0 <= index < blocks.Length && index !in owner && p == b.at + 1
      requires b in LiveOf(a.il.heap.blocks) && 0 < size <= 8 * (b.n - TAG_WORDS)
      requires b !in OwnedBy(owner)
      modifies a.il.mem, blocks, blockSizes
      ensures a.Valid()
      ensures Owns(a.il.heap, a.il.mem[..], blocks[..], blockSizes[..], owner[index := b], m[index := size])
    {
      hide Inv, Rep, Owns, LiveOf, Filled, Payload, Keeps;
      ghost var h, w := a.il.heap, a.il.mem[..];
      assert forall i :: i in owner ==> owner[i] in OwnedBy(owner);
      BlockInMemory(a.il, b);
      Memset(a.il.mem, p, index % 256, size);
      AfterFill(w, a.il.mem[..], a.il.first, h, b, index % 256, size, a.il.mem[p..]);
      OwnsKept(h, w, h, a.il.mem[..], blocks[..], blockSizes[..], owner, m, {b});
      ghost var bl, sz := blocks[..], blockSizes[..];
      blocks[index] := p;
      blockSizes[index] := size;
      assert blocks[..] == bl[index := p] && blockSizes[..] == sz[index := size];
      OwnsMore(h, a.il.mem[..], bl, sz, blocks[..], blockSizes[..], owner, m, index, b, size);
    }

    /** The ALLOC case, common to both evaluations. */
    method DoAlloc(index: int, size: int, ghost s: Sim) returns (r: StepResult)
      requires Tracks(s) && OpOk(s.sizes, AllocOp(index, size), blocks.Length)
      modifies a, a.lib, a.il, a.il.mem, rl, blocks, blockSizes
      ensures Follows(s, AllocOp(index, size), signedChar, r) && Follows(s, AllocOp(index, size), false, r)
    {
      hide Inv, Rep, Owns, LiveOf, Filled, Payload, Keeps, Malloc, Verify, BlockBytes, Serviceable, Granted, Holds, Top;
      ghost var h, w, limit := a.il.heap, a.il.mem[..], a.il.mem.Length;
      SameKeys(s);
      IntsServiceable(h, size, limit);
      StepSimGood(s, AllocOp(index, size), limit, a.lib.base);
      var p := a.MmMalloc(size);
      if p == NULL && size != 0 {
        Refusal(s, index, size, limit);
        return Failed;
      } else if size == 0 {
        return Done;
      }
      ghost var o := Malloc(h, NeedWords(size), limit);
      ghost var b := o.block.value;
      AllocStep(s, index, size, limit);
      AfterGrant(h, o, NeedWords(size));
      OwnsAfterMalloc(h, w, a.il.mem[..], blocks[..], blockSizes[..], s.owner, s.sizes, o);
      var c := rl.AddRange(a.lib, a.lib.base + 8 * p, size);
      if c != Accepted {
        return BadRange(c);
      }
      FillBlock(p, index, size, s.owner, s.sizes, b);
      return Done;
    }

    /** The FREE case, common to both evaluations. */
    method DoFree(index: int, ghost s: Sim)
      requires Tracks(s) && OpOk(s.sizes, FreeOp(index), blocks.Length)
      modifies a.il, a.il.mem, rl
      ensures Follows(s, FreeOp(index), signedChar, Done) && Follows(s, FreeOp(index), false, Done)
    {
      hide Inv, Rep, Owns, LiveOf, Filled, Payload, Keeps, Free, RemoveFirst, Holds, Top;
      ghost var h, w, bl, sz := a.il.heap, a.il.mem[..], blocks[..], blockSizes[..];
      StepSimGood(s, FreeOp(index), a.il.mem.Length, a.lib.base);
      SameKeys(s);
      OwnsAt(h, w, bl, sz, s.owner, s.sizes, index);
      ghost var b := s.owner[index];
      PositionOf(h, b);
      OwnsLess(h, w, bl, sz, s.owner, s.sizes, index);
      FreeStep(s, index);
      var p := blocks[index];
      rl.RemoveRange(a.lib.base + 8 * p);
      a.MmFree(p, b);
      OwnsAfter(h, w, a.il.heap, a.il.mem[..], bl, sz, s.owner - {index}, s.sizes - {index}, b, {});
    }

    /** What REALLOC leaves to do once the range of the new block `b` has taken the place of the
        old one's: the data is there, the block is not yet filled and recorded. */
    ghost predicate Regranted(s: Sim, s': Sim, index: int, size: int, newp: int, b: Blk)
      reads a, a.lib, a.il, a.il.mem, rl, blocks, blockSizes
    {
      && Wired() && a.Valid() && GoodSim(s')
      && a.il.heap == s'.heap && rl.ranges == s'.ranges
      && 0 <= index < blocks.Length && index in s.sizes && blockSizes[index] == s.sizes[index] > 0
      && s'.owner == (s.owner - {index})[index := b] && s'.sizes == (s.sizes - {index})[index := size]
      && Owns(a.il.heap, a.il.mem[..], blocks[..], blockSizes[..], s.owner - {index}, s.sizes - {index})
      && newp == b.at + 1 && b in LiveOf(a.il.heap.blocks) && b !in OwnedBy(s.owner - {index})
      && 0 < size <= 8 * (b.n - TAG_WORDS)
      && Filled(Payload(a.il.mem[..], b), index % 256, if size < s.sizes[index] then size else s.sizes[index])
    }

    /** What both evaluations do first for REALLOC: the call, and the range of the new block in
        the place of the old one's.  To zero bytes they go no further than the call. */
    method Regrant(index: int, size: int, ghost s: Sim) returns (r: StepResult, newp: int, ghost b: Blk)
      requires Tracks(s) && OpOk(s.sizes, ReallocOp(index, size), blocks.Length)
      modifies a, a.lib, a.il, a.il.mem, rl
      ensures match StepSim(s, ReallocOp(index, size), a.il.mem.Length, a.lib.base)
              case Next(s') => r == Done && if size == 0 then Tracks(s') else Regranted(s, s', index, size, newp, b)
              case Stop(why) => r == why != Done && (why == Failed ==> Tracks(s))
    {
      hide Inv, Rep, Owns, LiveOf, Filled, Payload, Keeps, Resize, Free, RemoveFirst, Copied, Serviceable,
           TaggedSize, Verify, Holds, Top, Granted, Moves, OwnedBy;
      ghost var h, w, bl, sz, limit := a.il.heap, a.il.mem[..], blocks[..], blockSizes[..], a.il.mem.Length;
      StepSimGood(s, ReallocOp(index, size), limit, a.lib.base);
      SameKeys(s);
      ghost var was, owner', m' := s.owner[index], s.owner - {index}, s.sizes - {index};
      OwnsAt(h, w, bl, sz, s.owner, s.sizes, index);
      OwnsLess(h, w, bl, sz, s.owner, s.sizes, index);
      PositionOf(h, was);
      FreeStep(s, index);
      IntsServiceable(h, size, limit);
      var oldp := blocks[index];
      newp := a.MmRealloc(oldp, size, was);
      b := was;
      if newp == NULL && size != 0 {
        RefusedResize(s, index, size, limit);
        return Failed, newp, b;
      } else if size == 0 {
        OwnsAfter(h, w, a.il.heap, a.il.mem[..], bl, sz, owner', m', was, {});
        return Done, newp, b;
      }
      ghost var o := Resize(h, was, TaggedSize(size) / 8, limit);
      ReallocStep(s, index, size, limit);
      b := o.block.value;
      AfterRegrant(h, was, o, TaggedSize(size) / 8);
      BlockInMemory(a.il, b);
      ResizedData(a.il.mem[..], w, was, b, index, s.sizes[index], size);
      OwnsAfter(h, w, a.il.heap, a.il.mem[..], bl, sz, owner', m', was, {b});
      rl.RemoveRange(a.lib.base + 8 * oldp);
      var c := rl.AddRange(a.lib, a.lib.base + 8 * newp, size);
      assert owner'[index := b] == s.owner[index := b] && m'[index := size] == s.sizes[index := size];
      return if c == Accepted then Done else BadRange(c), newp, b;
    }

    /** Comparing the first `n` bytes of a block with the fill byte of its id.  They agree,
        but a signed `char` never equals a fill byte of 128 or more. */
    method CompareData(p: int, index: int, n: int, ghost b: Blk) returns (ok: bool)
      requires 0 <= b.at && TAG_WORDS <= b.n && b.End() <= a.il.mem.Length && p == b.at + 1
      requires 0 < n <= 8 * (b.n - TAG_WORDS) && Filled(Payload(a.il.mem[..], b), index % 256, n)
      ensures ok <==> !(signedChar && index % 256 >= 128)
    {
      ghost var pl := Payload(a.il.mem[..], b);
      var j := 0;
      while j < n
        invariant 0 <= j <= n
        invariant j > 0 ==> !(signedChar && index % 256 >= 128)
      {
        assert a.il.mem[p + j / 8] == pl[j / 8] && Byte(pl, j) == index % 256;
        if CharOf(ByteAt(a.il.mem[p + j / 8], j % 8), signedChar) != index % 256 {
          return false;
        }
        j := j + 1;
      }
      return true;
    }

    /** The REALLOC case of the validity check. */
    method DoReallocChecked(index: int, size: int, ghost s: Sim) returns (r: StepResult)
      requires Tracks(s) && OpOk(s.sizes, ReallocOp(index, size), blocks.Length)
      modifies a, a.lib, a.il, a.il.mem, rl, blocks, blockSizes
      ensures Follows(s, ReallocOp(index, size), signedChar, r)
    {
      hide Inv, Rep, Owns, LiveOf, Filled, Payload, StepSim, GoodSim;
      ghost var b;
      var newp;
      r, newp, b := Regrant(index, size, s);
      if r != Done || size == 0 {
        return;
      }
      var oldSize := blockSizes[index];
      if size < oldSize {
        oldSize := size;
      }
      BlockInMemory(a.il, b);
      var ok := CompareData(newp, index, oldSize, b);
      if !ok {
        return DataLost;
      }
      FillBlock(newp, index, size, s.owner - {index}, s.sizes - {index}, b);
    }

    /** The REALLOC case of the utilization measurement. */
    method DoReallocUnchecked(index: int, size: int, ghost s: Sim) returns (r: StepResult)
      requires Tracks(s) && OpOk(s.sizes, ReallocOp(index, size), blocks.Length)
      modifies a, a.lib, a.il, a.il.mem, rl, blocks, blockSizes
      ensures Follows(s, ReallocOp(index, size), false, r)
    {
      hide Inv, Rep, Owns, LiveOf, Filled, Payload, StepSim, GoodSim;
      ghost var b;
      var newp;
      r, newp, b := Regrant(index, size, s);
      if r != Done || size == 0 {
        return;
      }
      FillBlock(newp, index, size, s.owner - {index}, s.sizes - {index}, b);
    }

    /** `mem_reset_brk`, `clear_ranges` and `mm_init`. */
    method Reset() returns (ok: bool)
      requires Wired()
      modifies a, a.lib, a.il, a.il.mem, rl
      ensures ok <==> a.il.mem.Length >= 4
      ensures ok ==> Tracks(START)
    {
      hide Inv, Rep, Owns, LiveOf;
      a.lib.ResetBrk();
      rl.ClearRanges();
      var r := a.MmInit();
      StartIs(a.il.mem.Length, a.lib.base, signedChar);
      NothingYet(a.il.mem[..], blocks[..], blockSizes[..]);
      return r >= 0;
    }

    /** The replay has reached `p` after the first `i` operations. */
    ghost predicate At(i: int, signed: bool, s: Sim)
      requires 0 <= i <= |ops|
      reads a, a.lib, a.il, a.il.mem, rl, blocks, blockSizes
    {
      Tracks(s) && Simulate(ops[..i], a.il.mem.Length, a.lib.base, signed) == Running(s)
    }

    /** The body of the validity check's loop. */
    method DoChecked(i: int, ghost s: Sim) returns (r: StepResult)
      requires 0 <= i < |ops| && Tracks(s) && OpOk(s.sizes, ops[i], blocks.Length)
      modifies a, a.lib, a.il, a.il.mem, rl, blocks, blockSizes
      ensures Follows(s, ops[i], signedChar, r)
    {
      hide Inv, Rep, Owns, LiveOf, GoodSim, StepSim;
      match ops[i] {
        case AllocOp(index, size) =>
          r := DoAlloc(index, size, s);
        case ReallocOp(index, size) =>
          r := DoReallocChecked(index, size, s);
        case FreeOp(index) =>
          DoFree(index, s);
          r := Done;
      }
    }

    /** `eval_mm_valid`: replays the trace and checks every answer. */
    method EvalMmValid() returns (v: Verdict)
      requires Wired() && WellFormed(ops, blocks.Length)
      modifies a, a.lib, a.il, a.il.mem, rl, blocks, blockSizes
      ensures v == if a.il.mem.Length < 4 then InitFailed
                   else VerdictOf(Simulate(ops, a.il.mem.Length, a.lib.base, signedChar))
      ensures v.Valid? ==> Tracks(Simulate(ops, a.il.mem.Length, a.lib.base, signedChar).sim)
      ensures v.OutOfMemory? ==>
                && 0 <= v.op < |ops|
                && var p := Simulate(ops[..v.op], a.il.mem.Length, a.lib.base, signedChar);
                   p.Running? && Tracks(p.sim)
      ensures v.Mismatch? ==> 0 <= v.op < |ops| && Unreadable(ops[v.op], signedChar)
      ensures v.Valid? ==> forall k :: 0 <= k < |ops| ==> !Unreadable(ops[k], signedChar)
      ensures v.Invalid? ==> v.why == BadRange(Overlaps)
      ensures a.il.mem.Length >= 4 ==>
                forall k :: 0 <= k < |ops| ==>
                  && (v == OutOfMemory(k) <==> RefusedAt(ops, k, a.il.mem.Length, a.lib.base, signedChar))
                  && (v == Invalid(k, BadRange(Overlaps))
                      <==> FalselyHit(ops, k, a.il.mem.Length, a.lib.base, signedChar))
                  && (v == Mismatch(k) <==> LostAt(ops, k, a.il.mem.Length, a.lib.base, signedChar))
      ensures Positive(ops) ==> !v.Invalid?
      ensures Positive(ops) && Modest(ops) && Demand(ops) <= a.il.mem.Length ==>
                (v.Valid? <==> forall k :: 0 <= k < |ops| ==> !Unreadable(ops[k], signedChar))
    {
      hide Inv, Rep, Owns, LiveOf, GoodSim, Simulate, Apply, WellFormed, StepSim, Positive, Modest, Demand,
           Unreadable, Due, Top, SizesAfter, FalselyHit, RefusedAt, LostAt, Tracks;
      VerdictMeans(ops, blocks.Length, a.il.mem.Length, a.lib.base, signedChar);
      var ok := Reset();
      if !ok {
        return InitFailed;
      }
      StartIs(a.il.mem.Length, a.lib.base, signedChar);
      var i := 0;
      ghost var s := START;
      assert ops[..0] == [];
      while i < |ops|
        invariant 0 <= i <= |ops| && At(i, signedChar, s)
        decreases |ops| - i
      {
        SimNext(ops, i, a.il.mem.Length, a.lib.base, signedChar);
        SimSizes(ops, i, blocks.Length, a.il.mem.Length, a.lib.base, signedChar);
        ghost var p := Simulate(ops[..i + 1], a.il.mem.Length, a.lib.base, signedChar);
        var r := DoChecked(i, s);
        if p.StoppedAt? {
          SimStays(ops, i + 1, a.il.mem.Length, a.lib.base, signedChar);
        }
        if r == Failed {
          return OutOfMemory(i);
        } else if r == DataLost {
          return Mismatch(i);
        } else if r != Done {
          return Invalid(i, r);
        }
        s := p.sim;
        i := i + 1;
      }
      assert ops[..i] == ops;
      return Valid;
    }

    /** `eval_mm_util`: replays the trace and relates the most bytes it ever has in use to the
        size of the heap at the end. */
    method EvalMmUtil() returns (r: UtilResult)
      requires Wired() && WellFormed(ops, blocks.Length)
      modifies a, a.lib, a.il, a.il.mem, rl, blocks, blockSizes
      ensures var p := Simulate(ops, a.il.mem.Length, a.lib.base, false);
              && (a.il.mem.Length < 4 ==> r == AppError(-1))
              && (a.il.mem.Length >= 4 ==>
                    match p
                    case StoppedAt(k, why) => r == if why == Failed then AppError(k) else Rejected
                    case Running(s) =>
                      && Tracks(s) && a.lib.HeapSize() == 8 * Top(s.heap) >= 32
                      && r == Util(Peak(ops) as real / a.lib.HeapSize() as real))
      ensures a.il.mem.Length >= 4 ==>
                && (forall k :: 0 <= k < |ops| ==>
                      (r == AppError(k) <==> RefusedAt(ops, k, a.il.mem.Length, a.lib.base, false)))
                && (r == Rejected
                    <==> exists k :: 0 <= k < |ops| && FalselyHit(ops, k, a.il.mem.Length, a.lib.base, false))
      ensures r.Util? ==> 0 <= Peak(ops) <= a.lib.HeapSize() + Dropped(ops)
      ensures r.Util? && Positive(ops) ==>
                Peak(ops) == HighWater(ops, blocks.Length) && 0.0 <= r.ratio <= 1.0
    {
      hide Inv, Rep, Owns, LiveOf, GoodSim, Simulate, Apply, WellFormed, StepSim, Charge, Charged, Peak, HighWater, Top,
           Dropped, RefusedAt, FalselyHit, LostAt;
      AbortsWhen(ops, blocks.Length, a.il.mem.Length, a.lib.base);
      var ok := Reset();
      if !ok {
        return AppError(-1);
      }
      StartIs(a.il.mem.Length, a.lib.base, false);
      NoPeak(blocks.Length);
      var i, total, maxTotal := 0, 0, 0;
      ghost var s := START;
      assert ops[..0] == [];
      while i < |ops|
        invariant 0 <= i <= |ops| && At(i, false, s)
        invariant total == Charged(ops[..i]) && maxTotal == Peak(ops[..i])
        decreases |ops| - i
      {
        SimNext(ops, i, a.il.mem.Length, a.lib.base, false);
        SimSizes(ops, i, blocks.Length, a.il.mem.Length, a.lib.base, false);
        NextCharged(ops, i);
        ChargeOf(i, s);
        ghost var p := Simulate(ops[..i + 1], a.il.mem.Length, a.lib.base, false);
        if p.StoppedAt? {
          SimStays(ops, i + 1, a.il.mem.Length, a.lib.base, false);
        }
        match ops[i] {
          case AllocOp(index, size) =>
            var c := DoAlloc(index, size, s);
            if c == Failed {
              return AppError(i);
            } else if c != Done {
              return Rejected;
            }
            if size != 0 {
              total := total + size;
              maxTotal := if total > maxTotal then total else maxTotal;
            }
          case ReallocOp(index, size) =>
            var oldSize := blockSizes[index];
            var c := DoReallocUnchecked(index, size, s);
            if c == Failed {
              return AppError(i);
            } else if c != Done {
              return Rejected;
            }
            if size != 0 {
              total := total + (size - oldSize);
              maxTotal := if total > maxTotal then total else maxTotal;
            }
          case FreeOp(index) =>
            var oldSize := blockSizes[index];
            DoFree(index, s);
            total := total - oldSize;
        }
        s := p.sim;
        i := i + 1;
      }
      assert ops[..i] == ops;
      HeapNotEmpty(a.il.heap);
      PeakFits(ops, i, blocks.Length, a.il.mem.Length, a.lib.base, false);
      if Positive(ops) {
        Ratio(maxTotal, a.lib.HeapSize());
      }
      return Util(maxTotal as real / a.lib.HeapSize() as real);
    }

    /** What operation `i` adds to the total, as the arrays have it. */
    lemma ChargeOf(i: int, s: Sim)
      requires 0 <= i < |ops| && Tracks(s) && s.sizes == SizesAfter(ops[..i]) && OpOk(s.sizes, ops[i], blocks.Length)
      ensures ops[i].index in s.sizes ==> blockSizes[ops[i].index] == s.sizes[ops[i].index] > 0
      ensures Charge(s.sizes, ops[i])
              == match ops[i]
                 case AllocOp(_, size) => size
                 case ReallocOp(index, size) => if size == 0 then 0 else size - blockSizes[index]
                 case FreeOp(index) => -blockSizes[index]
      ensures Charged(ops[..i]) <= Peak(ops[..i])
    {
      hide Owns, GoodSim, SizesAfter, Inv, Rep;
      if ops[i].index in s.sizes {
        OwnsAt(a.il.heap, a.il.mem[..], blocks[..], blockSizes[..], s.owner, s.sizes, ops[i].index);
      }
    }
  }

  // ---------- three traces ----------

  /** A reallocation to zero bytes makes the validity check report an overlap. */
  method CheckZeroSize(d: Replay) returns (v: Verdict)
    requires d.Wired() && d.ops == [AllocOp(0, 16), ReallocOp(0, 0), AllocOp(1, 16)]
    requires d.blocks.Length >= 2 && d.a.il.mem.Length >= 8
    modifies d.a, d.a.lib, d.a.il, d.a.il.mem, d.rl, d.blocks, d.blockSizes
    ensures v == Invalid(2, BadRange(Overlaps))
  {
    hide Simulate, WellFormed, Peak, HighWater, Positive, Modest, Demand, GoodSim, Inv, Rep, Owns, Unreadable, Top;
    ZeroSizeRealloc(d.a.il.mem.Length, d.a.lib.base, d.signedChar);
    MoreIds(d.ops, 2, d.blocks.Length);
    v := d.EvalMmValid();
  }

  /** Where `char` is signed, id 128 makes it report lost data. */
  method CheckSignedChar(d: Replay) returns (v: Verdict)
    requires d.Wired() && d.ops == [AllocOp(128, 8), ReallocOp(128, 16)]
    requires d.blocks.Length >= 129 && d.a.il.mem.Length >= 14
    modifies d.a, d.a.lib, d.a.il, d.a.il.mem, d.rl, d.blocks, d.blockSizes
    ensures v == if d.signedChar then Mismatch(1) else Valid
  {
    hide Simulate, WellFormed, Peak, HighWater, Positive, Modest, Demand, GoodSim, Inv, Rep, Owns, Unreadable, Top;
    SignedCharMismatch(d.a.il.mem.Length, d.a.lib.base);
    MoreIds(d.ops, 129, d.blocks.Length);
    v := d.EvalMmValid();
  }

  /** A reallocation to zero bytes makes the measurement claim more than the whole heap. */
  method MeasureOverUnity(d: Replay) returns (r: UtilResult)
    requires d.Wired()
    requires d.ops == [AllocOp(0, 16), AllocOp(1, 125), ReallocOp(1, 0), FreeOp(0), AllocOp(2, 160)]
    requires d.blocks.Length >= 3 && d.a.il.mem.Length >= 26
    modifies d.a, d.a.lib, d.a.il, d.a.il.mem, d.rl, d.blocks, d.blockSizes
    ensures r == Util(285.0 / 208.0) && r.ratio > 1.0
  {
    hide Simulate, WellFormed, Peak, HighWater, Positive, Modest, Demand, GoodSim, Inv, Rep, Owns, Unreadable, Top;
    OverUnity(d.a.il.mem.Length, d.a.lib.base, false);
    MoreIds(d.ops, 3, d.blocks.Length);
    r := d.EvalMmUtil();
  }

  lemma MoreIds(ops: seq<TraceOp>, numIds: int, more: int)
    requires WellFormed(ops, numIds) && numIds <= more
    ensures WellFormed(ops, more)
  {
    hide SizesAfter, Due;
    forall k | 0 <= k < |ops|
      ensures OpOk(SizesAfter(ops[..k]), ops[k], more)
    {
      assert OpOk(SizesAfter(ops[..k]), ops[k], numIds);
    }
  }

  // ---------- steps of the class ----------

  lemma BlockInMemory(il: Inline, b: Blk)
    requires il.Represents() && Inv(il.heap) && b in LiveOf(il.heap.blocks)
    ensures 0 <= b.at && b.End() < il.mem.Length && b.n >= MIN_WORDS
  {
    hide Inv, Rep;
    PositionOf(il.heap, b);
    RepTop(il.mem[..], il.first, il.heap);
  }

  /** Filling a payload changes neither the tags nor any other payload. */
  lemma AfterFill(w: seq<int>, w': seq<int>, first: int, h: Heap, b: Blk, v: int, size: int, tail: seq<int>)
    requires Rep(w, first, h) && Inv(h) && b in LiveOf(h.blocks) && |w| == |w'|
    requires 0 <= b.at && b.End() < |w| && 0 < size <= 8 * (b.n - TAG_WORDS)
    requires tail == w'[b.at + 1..] && Filled(tail, v, size)
    requires forall i :: 0 <= i < |w| && (i < b.at + 1 || 8 * i >= 8 * (b.at + 1) + size) ==> w'[i] == w[i]
    ensures Rep(w', first, h)
    ensures Keeps(w, w', LiveOf(h.blocks) - {b})
    ensures Filled(Payload(w', b), v, size)
  {
    hide Inv, Rep, Keeps, LiveOf, Filled;
    PositionOf(h, b);
    assert SameOutside(w, w', b.at + 1, b.End() - 1);
    PayloadRep(w, w', first, h, IndexOf(h.blocks, b));
    FilledPrefix(tail, Payload(w', b), v, size);
  }

  lemma FilledPrefix(tail: seq<int>, pl: seq<int>, v: int, size: int)
    requires Filled(tail, v, size) && size <= 8 * |pl| && |pl| <= |tail| && pl == tail[..|pl|]
    ensures Filled(pl, v, size)
  {
    forall j | 0 <= j < size
      ensures Byte(pl, j) == v
    {
      assert Byte(tail, j) == v;
    }
  }

  /** A granted block has a payload pointer, and the blocks owned before are still there. */
  lemma AfterGrant(h: Heap, o: Outcome, need: int)
    requires Granted(h, {}, o, need)
    ensures var b := o.block.value;
            b.at >= 0 && b in LiveOf(o.heap.blocks) && LiveOf(h.blocks) <= LiveOf(o.heap.blocks)
  {
    hide Inv;
    PositionOf(o.heap, o.block.value);
  }

  lemma AfterRegrant(h: Heap, was: Blk, o: Outcome, need: int)
    requires Granted(h, {was}, o, need)
    ensures var b := o.block.value;
            && b.at >= 0 && b in LiveOf(o.heap.blocks)
            && LiveOf(o.heap.blocks) == LiveOf(h.blocks) - {was} + {b}
  {
    hide Inv;
    PositionOf(o.heap, o.block.value);
  }

  lemma RefusedResize(s: Sim, index: int, size: int, limit: int)
    requires GoodSim(s) && index in s.owner && size > 0 && s.owner[index] in LiveOf(s.heap.blocks)
    requires Pointer(Resize(s.heap, s.owner[index], TaggedSize(size) / 8, limit)) == NULL
    ensures Resize(s.heap, s.owner[index], TaggedSize(size) / 8, limit).block.None?
    ensures Resize(s.heap, s.owner[index], TaggedSize(size) / 8, limit).heap == s.heap
  {
    hide Inv, Resize, Granted, LiveOf;
    ReallocStep(s, index, size, limit);
    var o := Resize(s.heap, s.owner[index], TaggedSize(size) / 8, limit);
    if o.block.Some? {
      AfterRegrant(s.heap, s.owner[index], o, TaggedSize(size) / 8);
    }
  }

  lemma Refusal(s: Sim, index: int, size: int, limit: int)
    requires GoodSim(s) && index !in s.owner && size > 0
    requires Pointer(Malloc(s.heap, NeedWords(size), limit)) == NULL
    ensures Malloc(s.heap, NeedWords(size), limit).block.None?
    ensures Malloc(s.heap, NeedWords(size), limit).heap == s.heap
  {
    hide Inv, Malloc, Granted, LiveOf;
    AllocStep(s, index, size, limit);
    var o := Malloc(s.heap, NeedWords(size), limit);
    if o.block.Some? {
      AfterGrant(s.heap, o, NeedWords(size));
    }
  }

  lemma OwnsAfterMalloc(h: Heap, w: seq<int>, w': seq<int>, blocks: seq<int>, sizes: seq<int>,
                        owner: Owner, m: Sizes, o: Outcome)
    requires Owns(h, w, blocks, sizes, owner, m)
    requires Keeps(w, w', LiveOf(h.blocks)) && LiveOf(h.blocks) <= LiveOf(o.heap.blocks)
    ensures Owns(o.heap, w', blocks, sizes, owner, m)
  {
    hide Filled, Payload, Owns, LiveOf;
    assert LiveOf(h.blocks) - {} == LiveOf(h.blocks);
    OwnsKept(h, w, o.heap, w', blocks, sizes, owner, m, {});
  }

  lemma OwnsAt(h: Heap, w: seq<int>, blocks: seq<int>, sizes: seq<int>, owner: Owner, m: Sizes, i: int)
    requires Owns(h, w, blocks, sizes, owner, m) && i in m
    ensures i in owner && OwnsOne(h, w, blocks, sizes, owner[i], i, m[i])
  {
  }

  /** A call that gave up block `b` and brought the blocks in `gained`. */
  lemma OwnsAfter(h: Heap, w: seq<int>, h': Heap, w': seq<int>, blocks: seq<int>, sizes: seq<int>,
                  owner: Owner, m: Sizes, b: Blk, gained: set<Blk>)
    requires Owns(h, w, blocks, sizes, owner, m) && forall i :: i in owner ==> owner[i] != b
    requires Keeps(w, w', LiveOf(h.blocks) - {b})
    requires LiveOf(h'.blocks) == LiveOf(h.blocks) - {b} + gained
    ensures Owns(h', w', blocks, sizes, owner, m)
  {
    hide Filled, Payload, Owns, LiveOf;
    OwnsKept(h, w, h', w', blocks, sizes, owner, m, {b});
  }

  lemma ResizedData(w': seq<int>, w: seq<int>, was: Blk, b: Blk, index: int, oldSize: int, size: int)
    requires Filled(Payload(w, was), index % 256, oldSize) && Copied(w, was, w', b)
    requires 0 <= oldSize && 0 <= size <= 8 * (b.n - TAG_WORDS) && 0 <= b.at && TAG_WORDS <= b.n && b.End() <= |w'|
    ensures Filled(Payload(w', b), index % 256, if size < oldSize then size else oldSize)
  {
    var kept := if size < oldSize then size else oldSize;
    FilledLess(Payload(w, was), index % 256, oldSize, kept);
    FillCarried(w, was, w', b, index % 256, kept, kept);
  }

  lemma FilledLess(pl: seq<int>, v: int, size: int, less: int)
    requires Filled(pl, v, size) && 0 <= less <= size
    ensures Filled(pl, v, less)
  {
  }

  /** After `mm_init` no id is live. */
  lemma NothingYet(w: seq<int>, blocks: seq<int>, sizes: seq<int>)
    ensures Owns(INITIAL, w, blocks, sizes, map[], map[])
  {
  }

  lemma Ratio(x: int, y: int)
    requires 0 <= x <= y && y > 0
    ensures 0.0 <= x as real / y as real <= 1.0
  {
    var p, q := x as real, y as real;
    assert p / q * q == p;
  }

  lemma HeapNotEmpty(h: Heap)
    requires Inv(h)
    ensures Top(h) >= 4
  {
    TilesOrdered(h.blocks, 0, Top(h));
  }
}
