/** What the driver's range list is worth: it is exact as long as nothing is reallocated to zero
    bytes, and no longer. */
module StaleRanges {
  import opened Layout
  import opened AllocSpec
  import opened Options
  import opened Mm
  import opened Trace
  import opened Ranges
  import opened Owners
  import opened Runs
  import opened Simulation

  // ---------- traces without reallocations to zero bytes ----------

  /** The range list has exactly the extents of the live ids. */
  ghost predicate Clean(s: Sim, base: int) {
    exists ids :: Lists(s.ranges, ids, s.owner, s.sizes, base)
  }

  lemma RecordClean(s: Sim, owner: Owner, m: Sizes, o: Outcome, i: int, size: int, ranges: seq<Range>,
                    ids: seq<int>, base: int)
    requires base % 8 == 0 && Inv(o.heap) && Holds(o.heap, owner, m) && Lists(ranges, ids, owner, m, base)
    requires o.block.Some? && o.block.value in LiveOf(o.heap.blocks) && o.block.value !in OwnedBy(owner)
    requires i !in owner && 0 < size <= 8 * (o.block.value.n - TAG_WORDS)
    requires s.owner[i := o.block.value] == owner[i := o.block.value] && s.sizes[i := size] == m[i := size]
    ensures var r := Record(s, o, i, size, ranges, base);
            r.Next? && Lists(r.sim.ranges, [i] + ids, r.sim.owner, r.sim.sizes, base)
  {
    hide Inv, Holds, Lists, LiveOf, Verify;
    var b := o.block.value;
    assert forall j :: j in owner ==> owner[j] in OwnedBy(owner);
    AddAccepted(o.heap, ranges, ids, owner, m, base, b, size);
    ListsMore(ranges, ids, owner, m, base, i, b, size);
  }

  /** No step but a reallocation to zero bytes leaves a stale range, and none is ever rejected
      before that. */
  lemma StepClean(s: Sim, op: TraceOp, limit: int, base: int)
    requires GoodSim(s) && Clean(s, base) && Due(s.sizes, op) && !Drops(op) && base % 8 == 0
    ensures match StepSim(s, op, limit, base)
            case Next(s') => Clean(s', base)
            case Stop(why) => why == Failed
  {
    hide LiveOf, Inv, Malloc, Resize, Free, Holds, Granted, Top, NeedWords, TaggedSize, Lists, RemoveFirst, Record;
    SameKeys(s);
    var ids :| Lists(s.ranges, ids, s.owner, s.sizes, base);
    match op
    case AllocOp(i, size) =>
      if size != 0 {
        var o := Malloc(s.heap, NeedWords(size), limit);
        AllocStep(s, i, size, limit);
        if o.block.Some? {
          GrantedBlock(s.heap, {}, o, NeedWords(size));
          RecordClean(s, s.owner, s.sizes, o, i, size, s.ranges, ids, base);
        }
      }
    case ReallocOp(i, size) =>
      var o := Resize(s.heap, s.owner[i], TaggedSize(size) / 8, limit);
      ReallocStep(s, i, size, limit);
      var ids' := ListsLess(s.heap, s.ranges, ids, s.owner, s.sizes, base, i);
      if o.block.Some? {
        GrantedBlock(s.heap, {s.owner[i]}, o, TaggedSize(size) / 8);
        RecordClean(s, s.owner - {i}, s.sizes - {i}, o, i, size, RemoveFirst(s.ranges, Address(base, s.owner[i])),
                    ids', base);
      }
    case FreeOp(i) =>
      var ids' := ListsLess(s.heap, s.ranges, ids, s.owner, s.sizes, base, i);
  }

  lemma GrantedBlock(h: Heap, mine: set<Blk>, o: Outcome, need: int)
    requires Granted(h, mine, o, need)
    ensures Inv(o.heap) && o.block.value in LiveOf(o.heap.blocks)
  {
  }

  /** A replay without reallocations to zero bytes stops only where the allocator refuses, or at
      a reallocation whose data a signed `char` cannot match. */
  lemma {:induction false} CleanRun(ops: seq<TraceOp>, k: int, limit: int, base: int, signedChar: bool)
    requires Positive(ops) && base % 8 == 0 && 0 <= k <= |ops|
    ensures match Simulate(ops[..k], limit, base, signedChar)
            case Running(s) => Clean(s, base)
            case StoppedAt(_, why) => why == Failed || why == DataLost
    decreases k
  {
    hide StepSim, GoodSim, Due;
    if k == 0 {
      assert ops[..0] == [];
      assert Lists([], [], map[], map[], base);
    } else {
      CleanRun(ops, k - 1, limit, base, signedChar);
      SimNext(ops, k - 1, limit, base, signedChar);
      var before := Simulate(ops[..k - 1], limit, base, signedChar);
      if before.Running? && Due(before.sim.sizes, ops[k - 1]) {
        StepClean(before.sim, ops[k - 1], limit, base);
      }
    }
  }

  // ---------- when a range is rejected ----------

  /** The operation asks the allocator for memory. */
  predicate Asks(op: TraceOp) {
    !op.FreeOp? && op.size > 0
  }

  /** The allocator's answer. */
  ghost function Answered(s: Sim, op: TraceOp, limit: int): Outcome
    requires GoodSim(s) && Due(s.sizes, op) && Asks(op)
  {
    if op.AllocOp? then Malloc(s.heap, NeedWords(op.size), limit)
    else
      SameKeys(s);
      Resize(s.heap, s.owner[op.index], TaggedSize(op.size) / 8, limit)
  }

  /** The ranges that the answer is checked against. */
  ghost function Remaining(s: Sim, op: TraceOp, base: int): seq<Range>
    requires GoodSim(s) && Due(s.sizes, op) && Asks(op)
  {
    if op.AllocOp? then s.ranges
    else
      SameKeys(s);
      RemoveFirst(s.ranges, Address(base, s.owner[op.index]))
  }

  /** No live id other than `i` has the extent `r`. */
  ghost predicate Stale(s: Sim, i: int, r: Range, base: int) {
    forall j :: j in s.owner && j in s.sizes && j != i ==> r != Extent(base, s.owner[j], s.sizes[j])
  }

  /** An end of the granted extent lies in a stale range. */
  ghost predicate HitsStale(s: Sim, op: TraceOp, limit: int, base: int)
    requires GoodSim(s) && Due(s.sizes, op) && Asks(op)
  {
    && Answered(s, op, limit).block.Some?
    && var e, ranges := Extent(base, Answered(s, op, limit).block.value, op.size), Remaining(s, op, base);
    exists k :: 0 <= k < |ranges| && Stale(s, op.index, ranges[k], base) && Hits(e.lo, e.hi, ranges[k])
  }

  /** Why an operation stops the replay, in every state: the allocator refuses it, or it is
      granted a block whose extent has an end in a stale range.  Nothing else is ever found wrong
      with a range. */
  lemma StepExactly(s: Sim, op: TraceOp, limit: int, base: int)
    requires GoodSim(s) && Due(s.sizes, op) && base % 8 == 0
    ensures var r := StepSim(s, op, limit, base);
            && (r == Stop(Failed) <==> Asks(op) && Answered(s, op, limit).block.None?)
            && (r == Stop(BadRange(Overlaps)) <==> Asks(op) && HitsStale(s, op, limit, base))
            && (r.Stop? ==> r.why == Failed || r.why == BadRange(Overlaps))
  {
    hide LiveOf, Inv, Malloc, Resize, Free, Holds, Granted, Top, NeedWords, TaggedSize, RemoveFirst, Verify, Hits,
         Extent, Stale;
    SameKeys(s);
    if Asks(op) {
      var o, i := Answered(s, op, limit), op.index;
      AnsweredStep(s, op, limit);
      if o.block.Some? {
        var t := Sim(s.heap, s.owner - {i}, s.sizes - {i}, Remaining(s, op, base));
        VerifyExactly(t, o.heap, o.block.value, op.size, base);
        SameStale(s, t, i, base);
      }
    }
  }

  lemma AnsweredStep(s: Sim, op: TraceOp, limit: int)
    requires GoodSim(s) && Due(s.sizes, op) && Asks(op)
    ensures var o := Answered(s, op, limit);
            o.block.Some? ==>
              var b := o.block.value;
              && Inv(o.heap) && b in LiveOf(o.heap.blocks) && op.size <= 8 * (b.n - TAG_WORDS)
              && Holds(o.heap, s.owner - {op.index}, s.sizes - {op.index})
              && b !in OwnedBy(s.owner - {op.index})
  {
    hide LiveOf, Inv, Malloc, Resize, Holds, Granted, NeedWords, TaggedSize;
    SameKeys(s);
    var i, o := op.index, Answered(s, op, limit);
    if op.AllocOp? {
      AllocStep(s, i, op.size, limit);
      assert s.owner - {i} == s.owner && s.sizes - {i} == s.sizes;
      if o.block.Some? {
        GrantedBlock(s.heap, {}, o, NeedWords(op.size));
      }
    } else {
      ReallocStep(s, i, op.size, limit);
      if o.block.Some? {
        GrantedBlock(s.heap, {s.owner[i]}, o, TaggedSize(op.size) / 8);
      }
    }
  }

  lemma SameStale(s: Sim, t: Sim, i: int, base: int)
    requires t.owner == s.owner - {i} && t.sizes == s.sizes - {i}
    ensures forall r :: Stale(t, i, r, base) <==> Stale(s, i, r, base)
  {
    hide Extent;
    forall j | j in t.owner && j in t.sizes
      ensures j in s.owner && j in s.sizes && j != i && t.owner[j] == s.owner[j] && t.sizes[j] == s.sizes[j]
    {
    }
    forall j | j in s.owner && j in s.sizes && j != i
      ensures j in t.owner && j in t.sizes
    {
    }
  }

  /** The verdict on the extent of a live block that none of the live ids of `t` owns. */
  lemma VerifyExactly(t: Sim, h: Heap, b: Blk, size: int, base: int)
    requires Inv(h) && Holds(h, t.owner, t.sizes) && b in LiveOf(h.blocks) && b !in OwnedBy(t.owner)
    requires base % 8 == 0 && 0 < size <= 8 * (b.n - TAG_WORDS)
    ensures var e := Extent(base, b, size);
            && forall i :: i !in t.owner ==>
                 Verify(t.ranges, e.lo, e.hi, base, base + 8 * Top(h) - 1)
                 == if exists k :: 0 <= k < |t.ranges| && Stale(t, i, t.ranges[k], base)
                                   && Hits(e.lo, e.hi, t.ranges[k])
                    then Overlaps else Accepted
  {
    hide Inv, Holds, LiveOf, Top, Hits, Apart;
    var e := Extent(base, b, size);
    PositionOf(h, b);
    forall i, k | i !in t.owner && 0 <= k < |t.ranges| && !Stale(t, i, t.ranges[k], base)
      ensures !Hits(e.lo, e.hi, t.ranges[k])
    {
      var j :| j in t.owner && j in t.sizes && j != i && t.ranges[k] == Extent(base, t.owner[j], t.sizes[j]);
      Missed(t, h, j, b, size, base);
    }
  }

  lemma Missed(s: Sim, h: Heap, j: int, b: Blk, size: int, base: int)
    requires Inv(h) && Holds(h, s.owner, s.sizes) && j in s.owner && b in LiveOf(h.blocks)
    requires b !in OwnedBy(s.owner) && 0 < size <= 8 * (b.n - TAG_WORDS)
    ensures j in s.sizes
    ensures var r := Extent(base, b, size); !Hits(r.lo, r.hi, Extent(base, s.owner[j], s.sizes[j]))
  {
    hide Inv, LiveOf, Hits, Apart;
    LiveApart(h);
    assert s.owner[j] in OwnedBy(s.owner);
    ExtentsApart(base, b, size, s.owner[j], s.sizes[j]);
  }

  // ---------- where stale ranges come from ----------

  ghost predicate Current(s: Sim, r: Range, base: int) {
    exists i :: i in s.owner && i in s.sizes && r == Extent(base, s.owner[i], s.sizes[i])
  }

  /** The listed ranges are the extents of the live ids and those in `stale`, each once, and no two
      of them start at one address. */
  ghost predicate Account(s: Sim, base: int, stale: set<Range>) {
    && s.owner.Keys == s.sizes.Keys && Proper(s.ranges)
    && (forall i :: i in s.owner ==> Extent(base, s.owner[i], s.sizes[i]) in s.ranges)
    && (forall r :: r in stale ==> r in s.ranges)
    && (forall r :: r in s.ranges ==> r in stale || Current(s, r, base))
    && (forall r, i :: r in stale && i in s.owner ==> r.lo != Address(base, s.owner[i]))
    && |s.ranges| == |s.owner.Keys| + |stale|
  }

  predicate Proper(ranges: seq<Range>) {
    && (forall k :: 0 <= k < |ranges| ==> ranges[k].lo <= ranges[k].hi)
    && (forall j, k :: 0 <= j < k < |ranges| ==> ranges[j].lo != ranges[k].lo)
  }

  lemma RemoveListed(ranges: seq<Range>, r: Range)
    requires Proper(ranges) && r in ranges
    ensures var rest := RemoveFirst(ranges, r.lo);
            && Proper(rest) && |rest| == |ranges| - 1
            && forall q :: q in rest <==> q in ranges && q.lo != r.lo
  {
    hide RemoveFirst;
    var k :| 0 <= k < |ranges| && ranges[k] == r;
    RemoveAt(ranges, r.lo, k);
    var rest := ranges[..k] + ranges[k + 1..];
    forall q | q in ranges && q.lo != r.lo
      ensures q in rest
    {
      var j :| 0 <= j < |ranges| && ranges[j] == q;
      assert rest[if j < k then j else j - 1] == q;
    }
  }

  lemma AccountLess(s: Sim, s': Sim, i: int, base: int, stale: set<Range>)
    requires GoodSim(s) && Account(s, base, stale) && i in s.owner
    requires s'.owner == s.owner - {i} && s'.sizes == s.sizes - {i}
    requires s'.ranges == RemoveFirst(s.ranges, Address(base, s.owner[i]))
    ensures Account(s', base, stale)
  {
    hide Inv, LiveOf, RemoveFirst, Proper, Holds, Current;
    StartsDiffer(s.heap, s.owner, s.sizes);
    RemoveListed(s.ranges, Extent(base, s.owner[i], s.sizes[i]));
    assert s'.owner.Keys == s.owner.Keys - {i};
    forall r | r in s'.ranges && r !in stale
      ensures Current(s', r, base)
    {
      CurrentLess(s, s', i, r, base);
    }
  }

  lemma CurrentLess(s: Sim, s': Sim, i: int, r: Range, base: int)
    requires s'.owner == s.owner - {i} && s'.sizes == s.sizes - {i} && i in s.owner && i in s.sizes
    requires Current(s, r, base) && r != Extent(base, s.owner[i], s.sizes[i])
    ensures Current(s', r, base)
  {
    hide Extent;
    var j :| j in s.owner && j in s.sizes && r == Extent(base, s.owner[j], s.sizes[j]);
    assert j in s'.owner && j in s'.sizes && r == Extent(base, s'.owner[j], s'.sizes[j]);
  }

  lemma AccountMore(s: Sim, s': Sim, o: Outcome, i: int, size: int, base: int, stale: set<Range>)
    requires Account(s, base, stale) && i !in s.owner && size > 0 && o.block.Some?
    requires Record(s, o, i, size, s.ranges, base) == Next(s')
    ensures Account(s', base, stale)
  {
    hide Verify, Current;
    assert s'.owner.Keys == s.owner.Keys + {i};
    var r := Extent(base, o.block.value, size);
    Unlisted(s.ranges, r, base, base + 8 * Top(o.heap) - 1);
    forall q | q in s'.ranges && q !in stale
      ensures Current(s', q, base)
    {
      CurrentMore(s, s', i, q, base);
    }
  }

  /** An accepted range starts nowhere where a listed one does. */
  lemma Unlisted(ranges: seq<Range>, r: Range, heapLo: int, heapHi: int)
    requires Proper(ranges) && r.lo <= r.hi && Verify(ranges, r.lo, r.hi, heapLo, heapHi) == Accepted
    ensures Proper([r] + ranges) && forall q :: q in ranges ==> q.lo != r.lo
  {
    forall k | 0 <= k < |ranges|
      ensures ranges[k].lo != r.lo
    {
      assert !Hits(r.lo, r.hi, ranges[k]);
    }
  }

  lemma CurrentMore(s: Sim, s': Sim, i: int, q: Range, base: int)
    requires s.owner.Keys == s.sizes.Keys && s'.owner.Keys == s'.sizes.Keys && i !in s.owner && i in s'.owner
    requires forall j :: j in s.owner ==> j in s'.owner && s'.owner[j] == s.owner[j] && s'.sizes[j] == s.sizes[j]
    requires q == Extent(base, s'.owner[i], s'.sizes[i]) || Current(s, q, base)
    ensures Current(s', q, base)
  {
    hide Extent;
    if q != Extent(base, s'.owner[i], s'.sizes[i]) {
      var j :| j in s.owner && j in s.sizes && q == Extent(base, s.owner[j], s.sizes[j]);
      assert j in s'.owner && j in s'.sizes && q == Extent(base, s'.owner[j], s'.sizes[j]);
    }
  }

  /** A reallocation of `i` to zero bytes makes its extent a stale range. */
  lemma AccountDrop(s: Sim, s': Sim, i: int, base: int, stale: set<Range>)
    requires GoodSim(s) && Account(s, base, stale) && i in s.owner
    requires s'.owner == s.owner - {i} && s'.sizes == s.sizes - {i} && s'.ranges == s.ranges
    ensures Extent(base, s.owner[i], s.sizes[i]) !in stale
    ensures Account(s', base, stale + {Extent(base, s.owner[i], s.sizes[i])})
  {
    hide Proper, Inv, LiveOf, Holds, Current;
    var e := Extent(base, s.owner[i], s.sizes[i]);
    StartsDiffer(s.heap, s.owner, s.sizes);
    assert s'.owner.Keys == s.owner.Keys - {i};
    assert |stale + {e}| == |stale| + 1;
    forall r | r in s'.ranges && r !in stale && r != e
      ensures Current(s', r, base)
    {
      CurrentLess(s, s', i, r, base);
    }
  }

  /** The extent that operation `op` gives up without its range. */
  ghost function Abandoned(s: Sim, op: TraceOp, base: int): set<Range>
    requires GoodSim(s) && Due(s.sizes, op)
  {
    SameKeys(s);
    if Drops(op) then {Extent(base, s.owner[op.index], s.sizes[op.index])} else {}
  }

  lemma StepAccount(s: Sim, op: TraceOp, limit: int, base: int, stale: set<Range>)
    requires GoodSim(s) && Account(s, base, stale) && Due(s.sizes, op) && StepSim(s, op, limit, base).Next?
    ensures Account(StepSim(s, op, limit, base).sim, base, stale + Abandoned(s, op, base))
    ensures stale !! Abandoned(s, op, base)
  {
    hide Inv, LiveOf, Malloc, Resize, Free, Holds, Record, RemoveFirst, Account, Address, NeedWords, TaggedSize, Extent;
    SameKeys(s);
    var s' := StepSim(s, op, limit, base).sim;
    assert stale + {} == stale;
    match op
    case AllocOp(i, size) =>
      if size != 0 {
        AccountMore(s, s', Malloc(s.heap, NeedWords(size), limit), i, size, base, stale);
      }
    case ReallocOp(i, size) =>
      if size == 0 {
        AccountDrop(s, s', i, base, stale);
      } else {
        var t := Sim(s.heap, s.owner - {i}, s.sizes - {i}, RemoveFirst(s.ranges, Address(base, s.owner[i])));
        AccountLess(s, t, i, base, stale);
        ReallocStep(s, i, size, limit);
        var o := Resize(s.heap, s.owner[i], TaggedSize(size) / 8, limit);
        RecordMoved(s, t, o, i, size, base);
        AccountMore(t, s', o, i, size, base, stale);
      }
    case FreeOp(i) =>
      AccountLess(s, s', i, base, stale);
  }

  lemma RecordMoved(s: Sim, t: Sim, o: Outcome, i: int, size: int, base: int)
    requires t.owner == s.owner - {i} && t.sizes == s.sizes - {i} && o.block.Some?
    ensures Record(s, o, i, size, t.ranges, base) == Record(t, o, i, size, t.ranges, base)
  {
    hide Verify, Top;
    var b := o.block.value;
    assert s.owner[i := b] == t.owner[i := b] && s.sizes[i := size] == t.sizes[i := size];
  }

  /** The extents that ids had when they were reallocated to zero bytes. */
  ghost function StaleAfter(ops: seq<TraceOp>, limit: int, base: int, signedChar: bool): set<Range>
    decreases |ops|
  {
    if ops == [] then {}
    else
      var init, op := ops[..|ops| - 1], ops[|ops| - 1];
      var before := Simulate(init, limit, base, signedChar);
      StaleAfter(init, limit, base, signedChar)
      + if before.Running? && Due(before.sim.sizes, op) then Abandoned(before.sim, op, base) else {}
  }

  lemma StaleNext(ops: seq<TraceOp>, k: int, limit: int, base: int, signedChar: bool)
    requires 0 <= k < |ops|
    ensures var before := Simulate(ops[..k], limit, base, signedChar);
            StaleAfter(ops[..k + 1], limit, base, signedChar)
            == StaleAfter(ops[..k], limit, base, signedChar)
               + if before.Running? && Due(before.sim.sizes, ops[k]) then Abandoned(before.sim, ops[k], base) else {}
    ensures DropCount(ops[..k + 1]) == DropCount(ops[..k]) + if Drops(ops[k]) then 1 else 0
  {
    hide Simulate, Abandoned, Due;
    assert ops[..k + 1][..k] == ops[..k];
  }

  /** In every state of a replay the listed ranges are the extents of the live ids and those that
      were given up by reallocations to zero bytes. */
  lemma {:induction false} RunAccount(ops: seq<TraceOp>, k: int, numIds: int, limit: int, base: int, signedChar: bool)
    requires WellFormed(ops, numIds) && 0 <= k <= |ops|
    ensures var r, stale := Simulate(ops[..k], limit, base, signedChar), StaleAfter(ops[..k], limit, base, signedChar);
            r.Running? ==> Account(r.sim, base, stale) && |stale| == DropCount(ops[..k])
    decreases k
  {
    hide StepSim, GoodSim, Due, Account, WellFormed, Simulate, StaleAfter, DropCount, Extent;
    if k == 0 {
      StartAccount(ops, limit, base, signedChar);
    } else {
      RunAccount(ops, k - 1, numIds, limit, base, signedChar);
      SimNext(ops, k - 1, limit, base, signedChar);
      SimSizes(ops, k - 1, numIds, limit, base, signedChar);
      StaleNext(ops, k - 1, limit, base, signedChar);
      var before := Simulate(ops[..k - 1], limit, base, signedChar);
      if before.Running? && StepSim(before.sim, ops[k - 1], limit, base).Next? {
        StepAccount(before.sim, ops[k - 1], limit, base, StaleAfter(ops[..k - 1], limit, base, signedChar));
      }
    }
  }

  lemma StartAccount(ops: seq<TraceOp>, limit: int, base: int, signedChar: bool)
    ensures ops[..0] == [] && Simulate([], limit, base, signedChar) == Running(START)
    ensures StaleAfter([], limit, base, signedChar) == {} && DropCount([]) == 0
    ensures GoodSim(START) && Account(START, base, {})
  {
    InitialInv();
  }

  /** Of the ranges that an answer is checked against, the stale ones are those in `stale`. */
  lemma StaleIs(s: Sim, op: TraceOp, base: int, stale: set<Range>)
    requires GoodSim(s) && Due(s.sizes, op) && Asks(op) && Account(s, base, stale)
    ensures forall r :: r in Remaining(s, op, base) && Stale(s, op.index, r, base) <==> r in stale
  {
    hide Inv, LiveOf, Holds, RemoveFirst, Proper;
    SameKeys(s);
    var i, rest := op.index, Remaining(s, op, base);
    if op.ReallocOp? {
      RemoveListed(s.ranges, Extent(base, s.owner[i], s.sizes[i]));
    }
    forall r | r in rest && r !in stale
      ensures !Stale(s, i, r, base)
    {
      var j :| j in s.owner && j in s.sizes && r == Extent(base, s.owner[j], s.sizes[j]);
      assert j != i;
    }
    forall r | r in stale
      ensures r in rest && Stale(s, i, r, base)
    {
    }
  }

  /** An end of the granted extent lies in one of the ranges of `stale`. */
  ghost predicate HitsAny(s: Sim, op: TraceOp, limit: int, base: int, stale: set<Range>)
    requires GoodSim(s) && Due(s.sizes, op) && Asks(op)
  {
    && Answered(s, op, limit).block.Some?
    && var e := Extent(base, Answered(s, op, limit).block.value, op.size);
    exists r :: r in stale && Hits(e.lo, e.hi, r)
  }

  lemma HitsAnyIs(s: Sim, op: TraceOp, limit: int, base: int, stale: set<Range>)
    requires GoodSim(s) && Due(s.sizes, op) && Asks(op) && Account(s, base, stale)
    ensures HitsStale(s, op, limit, base) <==> HitsAny(s, op, limit, base, stale)
  {
    hide GoodSim, Due, Account, Stale, Remaining, Answered, Hits, Extent;
    StaleIs(s, op, base, stale);
    var ranges := Remaining(s, op, base);
    if HitsAny(s, op, limit, base, stale) {
      var e := Extent(base, Answered(s, op, limit).block.value, op.size);
      var r :| r in stale && Hits(e.lo, e.hi, r);
      assert r in ranges;
      var k :| 0 <= k < |ranges| && ranges[k] == r;
      assert Stale(s, op.index, ranges[k], base) && Hits(e.lo, e.hi, ranges[k]);
    }
  }

  /** The replay gets to operation `k`. */
  ghost predicate Reaches(ops: seq<TraceOp>, k: int, limit: int, base: int, signedChar: bool)
    requires 0 <= k < |ops|
  {
    var before := Simulate(ops[..k], limit, base, signedChar);
    before.Running? && Due(before.sim.sizes, ops[k])
  }

  /** Operation `k` is reached and the allocator refuses it. */
  ghost predicate RefusedAt(ops: seq<TraceOp>, k: int, limit: int, base: int, signedChar: bool)
    requires 0 <= k < |ops|
  {
    && Reaches(ops, k, limit, base, signedChar) && Asks(ops[k])
    && Answered(Simulate(ops[..k], limit, base, signedChar).sim, ops[k], limit).block.None?
  }

  /** Operation `k` is reached and granted an extent with an end in one that an earlier
      reallocation to zero bytes gave up. */
  ghost predicate FalselyHit(ops: seq<TraceOp>, k: int, limit: int, base: int, signedChar: bool)
    requires 0 <= k < |ops|
  {
    && Reaches(ops, k, limit, base, signedChar) && Asks(ops[k])
    && HitsAny(Simulate(ops[..k], limit, base, signedChar).sim, ops[k], limit, base,
               StaleAfter(ops[..k], limit, base, signedChar))
  }

  /** Operation `k` is reached, neither of these, and reallocates an id whose fill byte `char`
      cannot hold. */
  ghost predicate LostAt(ops: seq<TraceOp>, k: int, limit: int, base: int, signedChar: bool)
    requires 0 <= k < |ops|
  {
    && Reaches(ops, k, limit, base, signedChar) && ops[k].ReallocOp? && ops[k].size > 0
    && !RefusedAt(ops, k, limit, base, signedChar) && !FalselyHit(ops, k, limit, base, signedChar)
    && signedChar && ops[k].index % 256 >= 128
  }

  /** How the validity check goes on from any state: a refusal is reported as one whatever the
      data, and a rejected range before the data are looked at. */
  lemma ContinueExactly(s: Sim, op: TraceOp, k: int, limit: int, base: int, signedChar: bool)
    requires GoodSim(s) && Due(s.sizes, op) && base % 8 == 0
    ensures var r := Continue(s, op, k, limit, base, signedChar);
            && (r == StoppedAt(k, Failed) <==> Asks(op) && Answered(s, op, limit).block.None?)
            && (r == StoppedAt(k, BadRange(Overlaps)) <==> Asks(op) && HitsStale(s, op, limit, base))
            && (r == StoppedAt(k, DataLost) <==>
                  && Asks(op) && Answered(s, op, limit).block.Some? && !HitsStale(s, op, limit, base)
                  && op.ReallocOp? && signedChar && op.index % 256 >= 128)
            && (r.StoppedAt? ==> r.op == k && r.why in {Failed, BadRange(Overlaps), DataLost})
  {
    hide GoodSim, StepSim, Answered, HitsStale;
    StepExactly(s, op, limit, base);
  }

  /** Where and why the replay of a trace stops: each of the three reasons is reported exactly at an
      operation that has it. */
  lemma StopsExactly(ops: seq<TraceOp>, k: int, numIds: int, limit: int, base: int, signedChar: bool)
    requires WellFormed(ops, numIds) && base % 8 == 0 && 0 <= k < |ops|
    ensures var r := Simulate(ops, limit, base, signedChar);
            && (r == StoppedAt(k, Failed) <==> RefusedAt(ops, k, limit, base, signedChar))
            && (r == StoppedAt(k, BadRange(Overlaps)) <==> FalselyHit(ops, k, limit, base, signedChar))
            && (r == StoppedAt(k, DataLost) <==> LostAt(ops, k, limit, base, signedChar))
  {
    hide Simulate, StepSim, GoodSim, Due, Account, WellFormed, StaleAfter, HitsStale, HitsAny, Asks, Answered, Continue;
    var r, before := Simulate(ops, limit, base, signedChar), Simulate(ops[..k], limit, base, signedChar);
    if r.StoppedAt? && r.op == k {
      assert ops[..|ops|] == ops;
      StoppedWhere(ops, |ops|, limit, base, signedChar);
    }
    if Reaches(ops, k, limit, base, signedChar) {
      RunAccount(ops, k, numIds, limit, base, signedChar);
      SimNext(ops, k, limit, base, signedChar);
      ContinueExactly(before.sim, ops[k], k, limit, base, signedChar);
      AsksIs(ops[k], before.sim.sizes);
      if Asks(ops[k]) {
        HitsAnyIs(before.sim, ops[k], limit, base, StaleAfter(ops[..k], limit, base, signedChar));
      }
      if Continue(before.sim, ops[k], k, limit, base, signedChar).StoppedAt? {
        SimStays(ops, k + 1, limit, base, signedChar);
      }
    }
  }

  lemma AsksIs(op: TraceOp, m: Sizes)
    requires Due(m, op)
    ensures op.ReallocOp? ==> (Asks(op) <==> op.size > 0)
  {
  }

  /** A replay stops for a refusal, for lost data or for an overlap; its other checks never
      fail. */
  lemma StopReasons(ops: seq<TraceOp>, limit: int, base: int, signedChar: bool)
    requires base % 8 == 0 && Simulate(ops, limit, base, signedChar).StoppedAt?
    ensures var why := Simulate(ops, limit, base, signedChar).why;
            why == Failed || why == DataLost || why == BadRange(Overlaps)
  {
    hide Simulate, StepSim, GoodSim, Due;
    var r := Simulate(ops, limit, base, signedChar);
    assert ops[..|ops|] == ops;
    StoppedWhere(ops, |ops|, limit, base, signedChar);
    StepExactly(Simulate(ops[..r.op], limit, base, signedChar).sim, ops[r.op], limit, base);
  }

  // ---------- what the list is worth ----------

  /** A range that lies in the payload of `b`. */
  predicate Inside(r: Range, base: int, b: Blk) {
    Address(base, b) <= r.lo && r.hi < base + 8 * (b.End() - 1)
  }

  ghost predicate Provided(h: Heap, r: Range, base: int) {
    exists b :: b in LiveOf(h.blocks) && Inside(r, base, b)
  }

  /** Every listed range that was not stale before is memory that a live block provides. */
  ghost predicate Backed(s: Sim, base: int, stale: set<Range>) {
    forall r :: r in s.ranges && r !in stale ==> Provided(s.heap, r, base)
  }

  lemma AccountBacked(s: Sim, base: int, stale: set<Range>)
    requires GoodSim(s) && Account(s, base, stale)
    ensures Backed(s, base, stale)
  {
    hide LiveOf, GoodSim, Inside, Extent, Proper;
    forall r | r in s.ranges && r !in stale
      ensures Provided(s.heap, r, base)
    {
      var i :| i in s.owner && i in s.sizes && r == Extent(base, s.owner[i], s.sizes[i]);
      SizeAt(s, i);
      ExtentInside(base, s.owner[i], s.sizes[i]);
    }
  }

  lemma ExtentInside(base: int, b: Blk, size: int)
    requires 0 < size <= 8 * (b.n - TAG_WORDS)
    ensures Inside(Extent(base, b, size), base, b)
  {
  }

  /** In every state of a replay: after a reallocation that does not stop it, all listed ranges but
      those that were stale before lie in live blocks exactly if the new size is not zero. */
  lemma BackedExactly(s: Sim, i: int, size: int, limit: int, base: int, stale: set<Range>)
    requires GoodSim(s) && Account(s, base, stale) && Due(s.sizes, ReallocOp(i, size))
    requires StepSim(s, ReallocOp(i, size), limit, base).Next?
    ensures Backed(StepSim(s, ReallocOp(i, size), limit, base).sim, base, stale) <==> size > 0
  {
    hide Inv, LiveOf, Free, Holds, Record, Account, Extent;
    var s' := StepSim(s, ReallocOp(i, size), limit, base).sim;
    StepSimGood(s, ReallocOp(i, size), limit, base);
    StepAccount(s, ReallocOp(i, size), limit, base, stale);
    SameKeys(s);
    if size > 0 {
      assert stale + {} == stale;
      AccountBacked(s', base, stale);
    } else {
      FreeStep(s, i);
      var e := Extent(base, s.owner[i], s.sizes[i]);
      AccountDrop(s, s', i, base, stale);
      AccountAt(s, i, base, stale);
      forall c | c in LiveOf(s'.heap.blocks)
        ensures !Inside(e, base, c)
      {
        LiveApart(s.heap);
        SizeAt(s, i);
        OutsideOf(base, s.owner[i], s.sizes[i], c);
      }
    }
  }

  lemma AccountAt(s: Sim, i: int, base: int, stale: set<Range>)
    requires Account(s, base, stale) && i in s.owner
    ensures i in s.sizes && Extent(base, s.owner[i], s.sizes[i]) in s.ranges
  {
  }

  lemma OutsideOf(base: int, b: Blk, size: int, c: Blk)
    requires Apart(b, c) && 0 < size <= 8 * (b.n - TAG_WORDS)
    ensures !Inside(Extent(base, b, size), base, c)
  {
  }

  lemma SizeAt(s: Sim, i: int)
    requires GoodSim(s) && i in s.owner
    ensures i in s.sizes && 0 < s.sizes[i] <= 8 * (s.owner[i].n - TAG_WORDS) && s.owner[i] in LiveOf(s.heap.blocks)
  {
  }

  function IdSet(ids: seq<int>): set<int> {
    set i | i in ids
  }

  lemma {:induction false} DistinctIds(ids: seq<int>)
    requires forall j, k :: 0 <= j < k < |ids| ==> ids[j] != ids[k]
    ensures |IdSet(ids)| == |ids|
  {
    if ids == [] {
    } else {
      var rest := ids[1..];
      DistinctIds(rest);
      assert ids == [ids[0]] + rest && ids[0] !in rest;
      assert IdSet(ids) == {ids[0]} + IdSet(rest);
    }
  }

  lemma KeysAre(owner: Owner, ids: seq<int>)
    requires forall i :: i in owner ==> i in ids
    requires forall i :: i in ids ==> i in owner
    ensures owner.Keys == IdSet(ids)
  {
    forall i | i in owner.Keys
      ensures i in IdSet(ids)
    {
    }
    forall i | i in IdSet(ids)
      ensures i in owner.Keys
    {
    }
    assert owner.Keys <= IdSet(ids);
  }

  lemma CleanCount(s: Sim, base: int)
    requires Clean(s, base)
    ensures |s.ranges| == |s.owner.Keys|
  {
    hide Clean, Lists;
    var ids := Listing(s, base);
    ListingIds(s, ids, base);
    DistinctIds(ids);
    KeysAre(s.owner, ids);
  }

  lemma ListingIds(s: Sim, ids: seq<int>, base: int)
    requires Lists(s.ranges, ids, s.owner, s.sizes, base)
    ensures |ids| == |s.ranges| && forall j, k :: 0 <= j < k < |ids| ==> ids[j] != ids[k]
    ensures (forall i :: i in s.owner ==> i in ids) && forall i :: i in ids ==> i in s.owner
  {
    hide Extent;
  }

  lemma Listing(s: Sim, base: int) returns (ids: seq<int>)
    requires Clean(s, base)
    ensures Lists(s.ranges, ids, s.owner, s.sizes, base)
  {
    ids :| Lists(s.ranges, ids, s.owner, s.sizes, base);
  }

  /** A replay that runs to the end of a trace leaves one stale range for each reallocation to
      zero bytes; so the list has exactly the extents of the live ids exactly if there was none. */
  lemma CleanExactly(ops: seq<TraceOp>, numIds: int, limit: int, base: int, signedChar: bool)
    requires WellFormed(ops, numIds) && base % 8 == 0 && Simulate(ops, limit, base, signedChar).Running?
    ensures var s := Simulate(ops, limit, base, signedChar).sim;
            && |s.ranges| == |SizesAfter(ops).Keys| + DropCount(ops)
            && (Clean(s, base) <==> Positive(ops))
  {
    hide Simulate, Clean, SizesAfter, WellFormed, Proper;
    assert ops[..|ops|] == ops;
    var s := Simulate(ops, limit, base, signedChar).sim;
    SimSizes(ops, |ops|, numIds, limit, base, signedChar);
    RunAccount(ops, |ops|, numIds, limit, base, signedChar);
    if Positive(ops) {
      CleanRun(ops, |ops|, limit, base, signedChar);
    }
    if Clean(s, base) {
      CleanCount(s, base);
    }
  }

  /** The free block that the next request finds first once the block of `i` is freed. */
  ghost function FreedBlock(s: Sim, i: int): Blk
    requires GoodSim(s) && i in s.sizes
  {
    Interior(s.heap, IndexOf(s.heap.blocks, s.owner[i]));
    Union(s.heap.blocks, IndexOf(s.heap.blocks, s.owner[i]))
  }

  lemma UnionStart(h: Heap, b: Blk)
    requires Inv(h) && b in LiveOf(h.blocks)
    ensures var i := IndexOf(h.blocks, b); 0 < i < |h.blocks| - 1 && Union(h.blocks, i).at <= b.at
  {
    PositionOf(h, b);
    Interior(h, IndexOf(h.blocks, b));
    TilesBounds(h.blocks, 0, Top(h));
  }

  /** The state after a reallocation of `i` to zero bytes, which is never refused. */
  ghost function AfterDrop(s: Sim, i: int, limit: int, base: int): (s': Sim)
    requires GoodSim(s) && i in s.sizes
    ensures GoodSim(s') && s'.sizes == s.sizes - {i} && StepSim(s, ReallocOp(i, 0), limit, base) == Next(s')
  {
    StepSimGood(s, ReallocOp(i, 0), limit, base);
    StepSim(s, ReallocOp(i, 0), limit, base).sim
  }

  /** In every state of a replay: a reallocation to zero bytes, and then a request that fits the
      words it freed.  The driver sees an overlap exactly if an end of the new extent lies in the
      range just made stale, or in an older one; so it does whenever the new block starts where
      the old one did. */
  lemma FalseOverlap(s: Sim, i: int, j: int, size: int, limit: int, base: int, stale: set<Range>)
    requires GoodSim(s) && Account(s, base, stale) && base % 8 == 0
    requires i in s.sizes && Due(s.sizes - {i}, AllocOp(j, size))
    requires size > 0 && NeedWords(size) <= FreedBlock(s, i).n
    ensures var m, r := FreedBlock(s, i), StepSim(AfterDrop(s, i, limit, base), AllocOp(j, size), limit, base);
            var asked, own := Extent(base, m, size), Extent(base, s.owner[i], s.sizes[i]);
            && m.at <= s.owner[i].at
            && (r == Stop(BadRange(Overlaps)) <==> exists q :: q in stale + {own} && Hits(asked.lo, asked.hi, q))
            && (r.Stop? ==> r == Stop(BadRange(Overlaps)))
            && (m.at == s.owner[i].at ==> r == Stop(BadRange(Overlaps)))
  {
    hide Inv, LiveOf, Malloc, Free, Union, Gone, Members, Without, Holds, NeedWords, Top, Account, HitsStale;
    SameKeys(s);
    var h, b, m, s' := s.heap, s.owner[i], FreedBlock(s, i), AfterDrop(s, i, limit, base);
    var op, own := AllocOp(j, size), Extent(base, s.owner[i], s.sizes[i]);
    FreeSpan(h, b);
    assert s'.heap.free[0] == m;
    UnionStart(h, b);
    MallocChoice(s'.heap, NeedWords(size), limit);
    var o := Answered(s', op, limit);
    assert o.block.value.at == m.at;
    assert Extent(base, o.block.value, size) == Extent(base, m, size);
    SizeAt(s, i);
    StepExactly(s', op, limit, base);
    AccountDrop(s, s', i, base, stale);
    HitsAnyIs(s', op, limit, base, stale + {own});
    assert own in stale + {own};
  }

  /** The first of the two blocks that a small request yields. */
  lemma FirstBlock(limit: int)
    requires limit >= 8 && Inv(INITIAL)
    ensures var b, o := Blk(2, 4, true), Malloc(INITIAL, 4, limit);
            && NeedWords(16) == 4 && o.block == Some(b) && Inv(o.heap) && Top(o.heap) == 8
            && b in LiveOf(o.heap.blocks)
            && forall s: Sim :: GoodSim(s) && 0 in s.sizes && s.heap == o.heap && s.owner[0] == b ==>
                 FreedBlock(s, 0).at == 2 && FreedBlock(s, 0).n >= 4
  {
    MallocBy(INITIAL, 4, limit);
    GrowGranted(INITIAL, 4);
    assert FirstFit(INITIAL.free, 4) == 0;
    var b, h := Blk(2, 4, true), Grow(INITIAL, 4).heap;
    assert h.blocks == [Blk(0, TAG_WORDS, true), b, Blk(6, TAG_WORDS, true)];
    assert IndexOf(h.blocks, b) == 1;
  }

  /** The trace "a 0 16, r 0 0, a 1 16": the second block is the first one used again, and the
      replay takes it for an overlap, on any heap that is large enough. */
  lemma ZeroSizeRealloc(limit: int, base: int, signedChar: bool)
    requires limit >= 8 && base > 0 && base % 8 == 0
    ensures var ops := [AllocOp(0, 16), ReallocOp(0, 0), AllocOp(1, 16)];
            WellFormed(ops, 2) && Simulate(ops, limit, base, signedChar) == StoppedAt(2, BadRange(Overlaps))
  {
    hide GoodSim, Simulate, StepSim, WellFormed, Due;
    var ops := [AllocOp(0, 16), ReallocOp(0, 0), AllocOp(1, 16)];
    ZeroTrace(ops);
    StartAccount(ops, limit, base, signedChar);
    var s := FirstState(limit, base);
    var t := SecondState(s, limit, base);
    Advance(ops, 0, START, limit, base, signedChar);
    Advance(ops, 1, s, limit, base, signedChar);
    SimNext(ops, 2, limit, base, signedChar);
    assert ops[..3] == ops;
  }

  /** The state after the second, and what the third makes of it. */
  lemma SecondState(s: Sim, limit: int, base: int) returns (t: Sim)
    requires GoodSim(s) && Account(s, base, {}) && base % 8 == 0 && s.sizes == map[0 := 16]
    requires 0 in s.owner && s.owner[0] == Blk(2, 4, true)
    requires FreedBlock(s, 0).at == 2 && FreedBlock(s, 0).n >= 4 && NeedWords(16) == 4
    ensures Due(s.sizes, ReallocOp(0, 0)) && StepSim(s, ReallocOp(0, 0), limit, base) == Next(t)
    ensures GoodSim(t) && Due(t.sizes, AllocOp(1, 16))
    ensures StepSim(t, AllocOp(1, 16), limit, base) == Stop(BadRange(Overlaps))
  {
    hide GoodSim, FreedBlock, StepSim, Account, AfterDrop, Hits, NeedWords;
    t := AfterDrop(s, 0, limit, base);
    FalseOverlap(s, 0, 1, 16, limit, base, {});
  }

  /** The state after the first of those operations. */
  lemma FirstState(limit: int, base: int) returns (s: Sim)
    requires limit >= 8 && base > 0 && base % 8 == 0
    ensures GoodSim(START) && Due(START.sizes, AllocOp(0, 16)) && StepSim(START, AllocOp(0, 16), limit, base) == Next(s)
    ensures GoodSim(s) && Account(s, base, {}) && s.sizes == map[0 := 16]
    ensures 0 in s.owner && s.owner[0] == Blk(2, 4, true)
    ensures Due(s.sizes, ReallocOp(0, 0)) && Due(s.sizes - {0}, AllocOp(1, 16))
    ensures FreedBlock(s, 0).at == 2 && FreedBlock(s, 0).n >= 4 && NeedWords(16) == 4
  {
    hide Inv, LiveOf, Malloc, Holds, GoodSim, Clean, Top, NeedWords, FreedBlock, Account, Simulate;
    InitialInv();
    FirstBlock(limit);
    StartAccount([], limit, base, false);
    StepSimGood(START, AllocOp(0, 16), limit, base);
    StartIs(limit, base, false);
    StepClean(START, AllocOp(0, 16), limit, base);
    StepAccount(START, AllocOp(0, 16), limit, base, {});
    assert {} + Abandoned(START, AllocOp(0, 16), base) == {};
    s := StepSim(START, AllocOp(0, 16), limit, base).sim;
  }

  lemma ZeroTrace(ops: seq<TraceOp>)
    requires ops == [AllocOp(0, 16), ReallocOp(0, 0), AllocOp(1, 16)]
    ensures WellFormed(ops, 2)
  {
    assert ops[..0] == [];
    NextSizes(ops, 0);
    NextSizes(ops, 1);
  }

  lemma StartIs(limit: int, base: int, signedChar: bool)
    ensures GoodSim(START) && Clean(START, base)
    ensures Simulate([], limit, base, signedChar) == Running(START)
  {
    InitialInv();
    assert Lists([], [], map[], map[], base);
  }
}
