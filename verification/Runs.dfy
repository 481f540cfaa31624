/** Whole runs of the allocator: what holds after any sequence of calls. */
module Runs {
  import opened Layout
  import opened AllocSpec
  import opened Options
  import opened Words
  import opened Mm

  // ---------- one request ----------

  /** Which block answers a request: the first listed block that is large enough, wherever it
      lies; failing that the heap grows by exactly the request; and the request is refused
      exactly when neither is possible. */
  lemma MallocChoice(h: Heap, need: int, limit: int)
    requires Inv(h) && need >= MIN_WORDS
    ensures var o := Malloc(h, need, limit);
            var fits := exists k :: 0 <= k < |h.free| && h.free[k].n >= need;
            && (fits ==> exists k :: 0 <= k < |h.free| && h.free[k].n >= need
                           && (forall j :: 0 <= j < k ==> h.free[j].n < need)
                           && o.block.Some? && o.block.value.at == h.free[k].at && Top(o.heap) == Top(h))
            && (!fits && o.block.Some? ==>
                  && o.block.value == Blk(Top(h) - TAG_WORDS, need, true)
                  && Top(o.heap) == Top(h) + need <= limit && o.heap.free == h.free)
            && (o.block.None? <==> !fits && (8 * need >= 0x8000_0000 || Top(h) + need > limit))
            && (o.block.None? ==> o.heap == h)
  {
    MallocBy(h, need, limit);
    GrowGranted(h, need);
    var k := FirstFit(h.free, need);
    if k < |h.free| {
      assert h.free[k].n >= need;
    }
  }

  /** The block granted for `size` bytes is the smallest possible, or exceeds it by less than a
      minimal block; and so exceeds the bytes asked for by at most 47, if those are more than 16. */
  lemma MallocOverhead(h: Heap, size: int, limit: int)
    requires Inv(h)
    ensures var o := Malloc(h, NeedWords(size), limit);
            o.block.Some? ==>
              && 32 <= 8 * o.block.value.n && size + 16 <= 8 * o.block.value.n
              && (forall n :: n % 8 == 0 && n >= 32 && n >= size + 16 ==> 8 * o.block.value.n <= n + 24)
              && 8 * o.block.value.n <= (if size <= 16 then 56 else size + 47)
  {
    MallocBy(h, NeedWords(size), limit);
    BlockBytesLeast(size);
  }

  /** What a request leaves of the block that answers it: a block of exactly the request and the
      free rest, at the head of the list, if the rest is at least a minimal block; otherwise
      nothing.  All other blocks, and the order of the rest of the list, are as before. */
  lemma MallocSpan(h: Heap, need: int, limit: int, k: int)
    requires Inv(h) && need >= MIN_WORDS && 0 <= k < |h.free| && h.free[k].n >= need
    requires forall j :: 0 <= j < k ==> h.free[j].n < need
    ensures var b, o := h.free[k], Malloc(h, need, limit);
            var rest := Blk(b.at + need, b.n - need, false);
            && b in h.blocks && o.block.Some?
            && (b.n - need >= MIN_WORDS ==>
                  && o.block.value == Blk(b.at, need, true)
                  && Members(o.heap.blocks) == Members(h.blocks) - {b} + {o.block.value, rest}
                  && o.heap.free == [rest] + h.free[..k] + h.free[k + 1..])
            && (b.n - need < MIN_WORDS ==>
                  && o.block.value == Blk(b.at, b.n, true)
                  && Members(o.heap.blocks) == Members(h.blocks) - {b} + {o.block.value}
                  && o.heap.free == h.free[..k] + h.free[k + 1..])
  {
    hide Tiles, NoFreeNeighbours, FreeOf, LiveOf, Without, Members, Splice;
    var b := h.free[k];
    FirstFitIs(h.free, need, k);
    MallocBy(h, need, limit);
    var i, c := IndexOf(h.blocks, b), Carved(b, need);
    SpliceMembers(h.blocks, 0, Top(h), i, i + 1, c);
    WithoutAt(h.free, k);
    assert h.blocks[i..i + 1] == [b];
    Single(b);
    CarvedMembers(b, need);
    assert c[1..] + (h.free[..k] + h.free[k + 1..]) == c[1..] + h.free[..k] + h.free[k + 1..];
    assert [] + h.free[..k] == h.free[..k];
  }

  lemma CarvedMembers(b: Blk, need: int)
    ensures var c, rest := Carved(b, need), Blk(b.at + need, b.n - need, false);
            if b.n - need >= MIN_WORDS
            then c[0] == Blk(b.at, need, true) && Members(c) == {c[0], rest} && c[1..] == [rest]
            else c[0] == Blk(b.at, b.n, true) && Members(c) == {c[0]} && c[1..] == []
  {
  }

  /** Reallocating to `size` bytes yields a payload of at least the rounded size. */
  lemma ResizePayload(h: Heap, b: Blk, size: int, limit: int)
    requires Inv(h) && b in LiveOf(h.blocks)
    ensures var o := Resize(h, b, TaggedSize(size) / 8, limit);
            o.block.Some? ==> 8 * (o.block.value.n - TAG_WORDS) >= Align(size) >= size
  {
    ResizeFacts(h, b, TaggedSize(size) / 8, limit);
  }

  /** The blocks that go when `b`, at position `i`, is freed. */
  function Gone(bs: seq<Blk>, i: int): set<Blk>
    requires 0 < i < |bs| - 1
  {
    {bs[i]} + (if bs[i - 1].alloc then {} else {bs[i - 1]}) + (if bs[i + 1].alloc then {} else {bs[i + 1]})
  }

  /** The block that comes. */
  function Union(bs: seq<Blk>, i: int): Blk
    requires 0 < i < |bs| - 1
  {
    var prev, b, next := bs[i - 1], bs[i], bs[i + 1];
    Blk(if prev.alloc then b.at else prev.at,
        b.n + (if prev.alloc then 0 else prev.n) + (if next.alloc then 0 else next.n), false)
  }

  /** Freeing replaces the block and its free neighbours by one free block over exactly their
      words, at the head of the list; every other block, and the order of the rest of the
      list, is as before. */
  lemma FreeSpan(h: Heap, b: Blk)
    requires Inv(h) && b in LiveOf(h.blocks)
    ensures var i := IndexOf(h.blocks, b);
            && 0 < i < |h.blocks| - 1
            && var m, gone := Union(h.blocks, i), Gone(h.blocks, i);
            && Members(Free(h, b).blocks) == Members(h.blocks) - gone + {m}
            && Free(h, b).free == [m] + Without(h.free, gone)
            && m !in h.blocks && m !in h.free
  {
    hide Tiles, Inv, FreeExact, Shape, Members, FreeOf, LiveOf, Without, Gone, Union;
    LiveBlock(h, b);
    var i, c := IndexOf(h.blocks, b), b.(alloc := false);
    UnmarkFacts(h, b);
    UnmarkSteps(h, b);
    UnmarkMembers(h, b);
    var u := Unmark(h, i);
    var lo, hi := if u.blocks[i - 1].alloc then i else i - 1, if u.blocks[i + 1].alloc then i + 1 else i + 2;
    FreeSlice3(h.blocks, u.blocks, i, c, lo, hi);
    UnionIs(h, b, i, lo, hi);
    SpliceMembers(u.blocks, 0, Top(h), lo, hi, [Joined(u.blocks, lo, hi, false)]);
    Single(Joined(u.blocks, lo, hi, false));
    FreeSpanList(h, b, c, Members(u.blocks[lo..hi]), Gone(h.blocks, i));
    NotListed(h, Union(h.blocks, i));
    SetSteps(Members(h.blocks), Gone(h.blocks, i), b, c);
  }

  lemma NotListed(h: Heap, m: Blk)
    requires Inv(h) && m !in h.blocks
    ensures m !in h.free
  {
    forall k | 0 <= k < |h.free|
      ensures h.free[k] != m
    {
      FreeInBlocks(h, k);
    }
  }

  lemma SetSteps(s: set<Blk>, gone: set<Blk>, b: Blk, c: Blk)
    requires c !in s && b in gone
    ensures s - {b} + {c} - (gone - {b} + {c}) == s - gone
  {
  }

  lemma UnmarkMembers(h: Heap, b: Blk)
    requires Inv(h) && b in LiveOf(h.blocks)
    ensures Members(Unmark(h, IndexOf(h.blocks, b)).blocks) == Members(h.blocks) - {b} + {b.(alloc := false)}
    ensures b.(alloc := false) !in h.blocks && b.(alloc := false) !in Members(h.blocks)
  {
    var i, c := IndexOf(h.blocks, b), b.(alloc := false);
    SpliceMembers(h.blocks, 0, Top(h), i, i + 1, [c]);
    assert h.blocks[i..i + 1] == [b];
    Single(b);
    Single(c);
    Overlapping(h.blocks, 0, Top(h), b, c);
  }

  lemma FreeSlice3(bs: seq<Blk>, us: seq<Blk>, i: int, c: Blk, lo: int, hi: int)
    requires 0 < i < |bs| - 1 && us == Splice(bs, i, i + 1, [c])
    requires lo == if us[i - 1].alloc then i else i - 1
    requires hi == if us[i + 1].alloc then i + 1 else i + 2
    ensures us[i - 1] == bs[i - 1] && us[i] == c && us[i + 1] == bs[i + 1]
    ensures bs[i] in Gone(bs, i)
    ensures Members(us[lo..hi]) == Gone(bs, i) - {bs[i]} + {c} || bs[i] == bs[i - 1] || bs[i] == bs[i + 1]
  {
    if lo == i && hi == i + 1 {
      assert us[lo..hi] == [c];
    } else if lo == i {
      assert us[lo..hi] == [c, us[i + 1]];
    } else if hi == i + 1 {
      assert us[lo..hi] == [us[i - 1], c];
    } else {
      assert us[lo..hi] == [us[i - 1], c, us[i + 1]];
    }
  }

  lemma UnionIs(h: Heap, b: Blk, i: int, lo: int, hi: int)
    requires Inv(h) && b in LiveOf(h.blocks) && i == IndexOf(h.blocks, b) && 0 < i < |h.blocks| - 1
    requires lo == if h.blocks[i - 1].alloc then i else i - 1
    requires hi == if h.blocks[i + 1].alloc then i + 1 else i + 2
    ensures var u := Unmark(h, i);
            hi <= |u.blocks| && Joined(u.blocks, lo, hi, false) == Union(h.blocks, i)
    ensures Union(h.blocks, i) !in h.blocks
    ensures b != h.blocks[i - 1] && b != h.blocks[i + 1]
  {
    var bs := h.blocks;
    TilesNeighbours(bs, 0, Top(h), i);
    TilesNeighbours(bs, 0, Top(h), i - 1);
    TilesBounds(bs, 0, Top(h));
    Overlapping(bs, 0, Top(h), b, Union(bs, i));
  }

  lemma FreeSpanList(h: Heap, b: Blk, c: Blk, xs: set<Blk>, gone: set<Blk>)
    requires Inv(h) && b in LiveOf(h.blocks) && c !in h.blocks && xs == gone - {b} + {c}
    ensures Without([c] + h.free, xs) == Without(h.free, gone)
  {
    assert ([c] + h.free)[1..] == h.free;
    forall k | 0 <= k < |h.free|
      ensures h.free[k] in xs <==> h.free[k] in gone
    {
      FreeInBlocks(h, k);
    }
    WithoutSame(h.free, xs, gone);
  }

  /** The words a block could gain from a neighbour. */
  function Room(b: Blk): int {
    if b.alloc then 0 else b.n
  }

  /** A reallocation leaves everything alone exactly if the block is large enough already.  It
      grows in place, within the present heap, exactly if its free neighbours suffice: into the
      one before it if that alone does, else into the one after it if that alone does, else into
      both, always over their whole words.  Only otherwise does it move, to the very block that
      a request for two words more is granted, and then it fails exactly if that request does. */
  lemma ResizeInPlace(h: Heap, b: Blk, need: int, limit: int)
    requires Inv(h) && b in LiveOf(h.blocks)
    ensures var i, o := IndexOf(h.blocks, b), Resize(h, b, need, limit);
            && 0 < i < |h.blocks| - 1
            && var prev, next := h.blocks[i - 1], h.blocks[i + 1];
            && var room := b.n + Room(prev) + Room(next);
            && (b.n >= need <==> o == Outcome(h, Some(b)))
            && (b.n >= need <==> o.block == Some(b))
            && (b.n < need <= b.n + Room(prev) ==>
                  && o.block == Some(Blk(prev.at, prev.n + b.n, true))
                  && o.heap.free == Without(h.free, {prev}))
            && (b.n < need <= b.n + Room(next) && b.n + Room(prev) < need ==>
                  && o.block == Some(Blk(b.at, b.n + next.n, true))
                  && o.heap.free == Without(h.free, {next}))
            && (b.n + Room(prev) < need <= room && b.n + Room(next) < need ==>
                  && o.block == Some(Blk(prev.at, prev.n + b.n + next.n, true))
                  && o.heap.free == Without(h.free, {prev, next}))
            && (need <= room ==> o.block.Some? && Top(o.heap) == Top(h))
            && (need > room <==> Moves(h, b, need))
            && (need > room ==>
                  && var m := Malloc(h, need + TAG_WORDS, limit);
                  && o.block == m.block
                  && (m.block.None? ==> o.heap == h)
                  && (m.block.Some? ==>
                        && m.block.value !in LiveOf(h.blocks)
                        && Inv(m.heap) && b in LiveOf(m.heap.blocks) && o.heap == Free(m.heap, b)))
  {
    hide Tiles, NoFreeNeighbours, FreeExact, Without, Splice, Malloc, LiveOf, FreeOf, Granted, Free, Members;
    ResizeBy(h, b, need, limit);
    PositionOf(h, b);
    var i := IndexOf(h.blocks, b);
    ResizeGrant(h, b, need, limit);
    Interior(h, i);
    match ResizePlan(h.blocks, i, need)
    case Keep =>
    case Absorb(lo, hi) =>
      AbsorbGranted(h, b, i, lo, hi);
      AbsorbJoined(h, b, i, lo, hi);
    case Relocate =>
      MoveFacts(h, b, need + TAG_WORDS, limit);
  }

  lemma AbsorbBetween(h: Heap, b: Blk, k: int, lo: int, hi: int)
    requires Absorbing(h, b, k, lo, hi)
    ensures k - 1 <= lo <= k < hi <= k + 2 && lo + 1 < hi && h.blocks[k] == b
    ensures 0 < k < |h.blocks| - 1 && h.blocks[k - 1].End() == b.at
  {
    AbsorbNeighbours(h, b, k, lo, hi);
    Interior(h, k);
  }

  lemma AbsorbJoined(h: Heap, b: Blk, k: int, lo: int, hi: int)
    requires Absorbing(h, b, k, lo, hi)
    ensures 0 < lo < hi < |h.blocks|
    ensures var o, prev, next := JoinAlloc(h, lo, hi), h.blocks[k - 1], h.blocks[k + 1];
            && (hi == k + 1 ==>
                  && o.block == Some(Blk(prev.at, prev.n + b.n, true))
                  && o.heap.free == Without(h.free, {prev}))
            && (lo == k ==>
                  && o.block == Some(Blk(b.at, b.n + next.n, true))
                  && o.heap.free == Without(h.free, {next}))
            && (lo < k && k + 1 < hi ==>
                  && o.block == Some(Blk(prev.at, prev.n + b.n + next.n, true))
                  && o.heap.free == Without(h.free, {prev, next}))
  {
    hide Absorbing, Inv, LiveOf, Without, Splice, Members;
    AbsorbAt(h, b, k, lo, hi);
    AbsorbBetween(h, b, k, lo, hi);
    AbsorbSlice(h, b, k, lo, hi);
    var pulled := (if lo < k then {h.blocks[k - 1]} else {}) + (if k + 1 < hi then {h.blocks[k + 1]} else {});
    AbsorbFacts(h, b, k, lo, hi, pulled);
    assert lo < k && k + 1 < hi ==> pulled == {h.blocks[k - 1], h.blocks[k + 1]};
    assert lo == k ==> pulled == {h.blocks[k + 1]};
    assert hi == k + 1 ==> pulled == {h.blocks[k - 1]};
  }

  lemma ResizeGrant(h: Heap, b: Blk, need: int, limit: int)
    requires Inv(h) && b in LiveOf(h.blocks)
    ensures var o := Resize(h, b, need, limit); o.block.Some? ==> o.block.value.n >= need
  {
    ResizeFacts(h, b, need, limit);
  }

  // ---------- every reachable heap ----------

  /** Between prologue and epilogue lies everything else that `mem_sbrk` has handed out. */
  lemma Conservation(h: Heap)
    requires Inv(h)
    ensures Total(h.blocks[1..|h.blocks| - 1]) == Top(h) - 2 * TAG_WORDS
    ensures h.blocks[|h.blocks| - 1].at == Top(h) - TAG_WORDS
  {
    var bs, last := h.blocks, |h.blocks| - 1;
    TilesCut(bs, 0, Top(h), last);
    TilesCut(bs[..last], 0, bs[last].at, 1);
    assert bs[..last][1..] == bs[1..last];
    TilesTotal(bs[1..last], TAG_WORDS, bs[last].at);
  }

  /** With no live block left, everything between prologue and epilogue is one free block. */
  lemma Reclaimed(h: Heap)
    requires Inv(h) && LiveOf(h.blocks) == {}
    ensures |h.blocks| <= 3
    ensures |h.blocks| == 2 <==> Top(h) == 4
    ensures |h.blocks| == 3 ==> h.blocks[1] == Blk(TAG_WORDS, Top(h) - 2 * TAG_WORDS, false) && h.free == [h.blocks[1]]
  {
    var bs := h.blocks;
    Conservation(h);
    TilesNeighbours(bs, 0, Top(h), 0);
    forall i | 0 < i < |bs| - 1
      ensures !bs[i].alloc
    {
      assert bs[i] !in LiveOf(bs);
    }
    NotBothFree(bs, 1);
    if |bs| == 3 {
      assert bs[1..2] == [bs[1]];
      assert Total([bs[1]]) == bs[1].n by {
        assert [bs[1]][1..] == [];
      }
      OneFree(h);
    } else {
      assert bs[1..1] == [];
    }
  }

  lemma NotBothFree(bs: seq<Blk>, i: int)
    requires NoFreeNeighbours(bs)
    ensures 0 <= i && i + 1 < |bs| ==> bs[i].alloc || bs[i + 1].alloc
  {
  }

  lemma Differ(bs: seq<Blk>, i: int, j: int)
    requires Distinct(bs)
    ensures 0 <= i < j < |bs| ==> bs[i] != bs[j]
  {
  }

  lemma OneFree(h: Heap)
    requires Inv(h) && |h.blocks| == 3 && !h.blocks[1].alloc
    ensures h.free == [h.blocks[1]]
  {
    ListedFree(h, 1);
    forall k | 0 <= k < |h.free|
      ensures h.free[k] == h.blocks[1]
    {
      FreeInBlocks(h, k);
    }
    Differ(h.free, 0, 1);
  }

  /** The calls a client can make.  A block stands for the pointer to its payload. */
  datatype Call =
    | CallMalloc(size: int)
    | CallFree(b: Blk)
    | CallRealloc(b: Blk, size: int)
    | CallReallocNull(size: int)

  /** The allocator, the pointers its client holds, and the live blocks that no pointer was
      ever returned for. */
  datatype World = World(heap: Heap, held: set<Blk>, leaked: set<Blk>)

  function Grantee(o: Outcome): set<Blk> {
    if o.block.Some? then {o.block.value} else {}
  }

  ghost predicate Good(s: World) {
    && Inv(s.heap)
    && s.held !! s.leaked && s.held + s.leaked == LiveOf(s.heap.blocks)
  }

  /** Pointers passed in must be held; a pointer to a block that is free in the present layout
      may also be passed to `mm_free`, which ignores it. */
  ghost predicate Allowed(s: World, c: Call, limit: int)
    requires Good(s)
  {
    match c
    case CallMalloc(size) => Serviceable(s.heap, BlockBytes(size), limit)
    case CallFree(b) => b in s.held || (b in s.heap.blocks && !b.alloc)
    case CallRealloc(b, size) => b in s.held && Resizable(s.heap, b, size, limit)
    case CallReallocNull(size) => Serviceable(s.heap, BlockBytes(size), limit)
  }

  /** With int sizes and held pointers every call is allowed. */
  lemma IntsAllowed(s: World, c: Call, limit: int)
    requires Good(s) && (c.CallFree? || c.size < 0x8000_0000)
    requires c.CallFree? || c.CallRealloc? ==> c.b in s.held
    ensures Allowed(s, c, limit)
  {
    hide Inv, Serviceable, Moves;
    if !c.CallFree? {
      IntsServiceable(s.heap, c.size, limit);
    }
  }

  /** One call. */
  ghost function Step(s: World, c: Call, limit: int): World
    requires Good(s) && Allowed(s, c, limit)
  {
    var h := s.heap;
    match c
    case CallMalloc(size) =>
      if size == 0 then s
      else
        var o := Malloc(h, NeedWords(size), limit);
        s.(heap := o.heap, held := s.held + Grantee(o))
    case CallFree(b) =>
      if b in s.held then s.(heap := Free(h, b), held := s.held - {b}) else s
    case CallRealloc(b, size) =>
      if size == 0 then s.(heap := Free(h, b), held := s.held - {b})
      else
        var o := Resize(h, b, TaggedSize(size) / 8, limit);
        if o.block.None? then s else s.(heap := o.heap, held := s.held - {b} + Grantee(o))
    case CallReallocNull(size) =>
      if size == 0 then s
      else
        var o := Malloc(h, NeedWords(size), limit);
        s.(heap := o.heap, leaked := s.leaked + Grantee(o))
  }

  /** The block whose pointer call `c` passes in. */
  function Touched(c: Call): set<Blk> {
    if c.CallFree? || c.CallRealloc? then {c.b} else {}
  }

  lemma StepGood(s: World, c: Call, limit: int)
    requires Good(s) && Allowed(s, c, limit)
    ensures Good(Step(s, c, limit))
    ensures LiveOf(s.heap.blocks) - Touched(c) <= LiveOf(Step(s, c, limit).heap.blocks)
    ensures Top(s.heap) <= Top(Step(s, c, limit).heap)
    ensures Top(s.heap) <= limit ==> Top(Step(s, c, limit).heap) <= limit
    ensures s.leaked <= Step(s, c, limit).leaked
  {
    hide Inv, LiveOf, Malloc, Free, Resize, Top;
    var h := s.heap;
    match c
    case CallMalloc(size) =>
      MallocFacts(h, NeedWords(size), limit);
    case CallFree(b) =>
      if b in s.held {
        FreeFacts(h, b);
      }
    case CallRealloc(b, size) =>
      FreeFacts(h, b);
      ResizeFacts(h, b, TaggedSize(size) / 8, limit);
    case CallReallocNull(size) =>
      MallocFacts(h, NeedWords(size), limit);
  }

  /** The world after a sequence of calls from a fresh `mm_init`; calls that are not allowed
      are left out of account. */
  ghost function After(cs: seq<Call>, limit: int): (s: World)
    ensures Good(s)
    ensures Top(s.heap) >= 4 && (limit >= 4 ==> Top(s.heap) <= limit)
    decreases |cs|
  {
    if cs == [] then
      InitialInv();
      World(INITIAL, {}, {})
    else
      var s, c := After(cs[..|cs| - 1], limit), cs[|cs| - 1];
      if Allowed(s, c, limit) then StepGood(s, c, limit); Step(s, c, limit) else s
  }

  /** The heap never shrinks during a run. */
  lemma {:induction false} TopGrows(cs: seq<Call>, more: seq<Call>, limit: int)
    ensures Top(After(cs, limit).heap) <= Top(After(cs + more, limit).heap)
    ensures After(cs, limit).leaked <= After(cs + more, limit).leaked
    decreases |more|
  {
    if more == [] {
      assert cs + more == cs;
    } else {
      var last := |more| - 1;
      assert (cs + more)[..|cs + more| - 1] == cs + more[..last];
      TopGrows(cs, more[..last], limit);
      var s := After(cs + more[..last], limit);
      if Allowed(s, more[last], limit) {
        StepGood(s, more[last], limit);
      }
    }
  }

  lemma AfterCall(cs: seq<Call>, c: Call, limit: int)
    ensures var s := After(cs, limit);
            After(cs + [c], limit) == if Allowed(s, c, limit) then Step(s, c, limit) else s
  {
    assert (cs + [c])[..|cs + [c]| - 1] == cs;
  }

  /** The live block that call `c` allocates without returning it: `mm_realloc(NULL, n)`
      returns NULL whatever it has allocated. */
  ghost function LostBy(s: World, c: Call, limit: int): set<Blk>
    requires Good(s)
  {
    if Allowed(s, c, limit) && c.CallReallocNull? && c.size != 0
    then Grantee(Malloc(s.heap, NeedWords(c.size), limit)) else {}
  }

  lemma StepLost(s: World, c: Call, limit: int)
    requires Good(s) && Allowed(s, c, limit)
    ensures Step(s, c, limit).leaked == s.leaked + LostBy(s, c, limit)
  {
    hide Inv, LiveOf, Malloc, Free, Resize;
  }

  /** `c` reallocates NULL to a nonzero size that the heap can serve, from its list or by
      growing. */
  ghost predicate Loses(h: Heap, c: Call, limit: int) {
    && c.CallReallocNull? && c.size != 0
    && var need := NeedWords(c.size);
    || (exists k :: 0 <= k < |h.free| && h.free[k].n >= need)
    || (8 * need < 0x8000_0000 && Top(h) + need <= limit)
  }

  ghost predicate LosesBlock(cs: seq<Call>, limit: int, i: int)
    requires 0 <= i < |cs|
  {
    Loses(After(cs[..i], limit).heap, cs[i], limit)
  }

  lemma LosesExactly(s: World, c: Call, limit: int)
    requires Good(s)
    ensures LostBy(s, c, limit) != {} <==> Loses(s.heap, c, limit)
  {
    hide Inv, Malloc;
    if c.CallReallocNull? && c.size != 0 {
      var o := Malloc(s.heap, NeedWords(c.size), limit);
      MallocChoice(s.heap, NeedWords(c.size), limit);
      assert o.block.Some? ==> o.block.value in Grantee(o);
    }
  }

  /** Every live block has a holder exactly when no `mm_realloc(NULL, n)` met a heap that could
      serve it. */
  lemma {:induction false} LeakExactly(cs: seq<Call>, limit: int)
    ensures After(cs, limit).leaked == {} <==> forall i :: 0 <= i < |cs| ==> !LosesBlock(cs, limit, i)
    decreases |cs|
  {
    hide Good, LostBy, Allowed, Step, Loses;
    if cs != [] {
      var last := |cs| - 1;
      var before, c := cs[..last], cs[last];
      assert cs == before + [c];
      LeakExactly(before, limit);
      forall i | 0 <= i < last
        ensures LosesBlock(cs, limit, i) == LosesBlock(before, limit, i)
      {
        assert before[..i] == cs[..i];
      }
      LeakStep(before, c, limit);
      LosesExactly(After(before, limit), c, limit);
      assert LosesBlock(cs, limit, last) <==> Loses(After(before, limit).heap, c, limit);
    }
  }

  lemma LeakStep(before: seq<Call>, c: Call, limit: int)
    ensures var s := After(before, limit);
            After(before + [c], limit).leaked == s.leaked + LostBy(s, c, limit)
  {
    hide Good, Step, After;
    var s := After(before, limit);
    AfterCall(before, c, limit);
    if Allowed(s, c, limit) {
      StepLost(s, c, limit);
    } else {
      assert LostBy(s, c, limit) == {};
    }
  }

  /** One call is enough to lose a block for good. */
  lemma ReallocNullLeaks(limit: int, more: seq<Call>)
    requires limit >= 8
    ensures var cs := [CallReallocNull(16)];
            After(cs, limit).held == {} && After(cs + more, limit).leaked != {}
  {
    var cs := [CallReallocNull(16)];
    assert cs[..0] == [];
    InitialInv();
    assert After([], limit) == World(INITIAL, {}, {});
    IntsServiceable(INITIAL, 16, limit);
    assert FirstFit(INITIAL.free, 4) == 0;
    MallocBy(INITIAL, 4, limit);
    assert After(cs, limit).leaked != {} by {
      assert Malloc(INITIAL, 4, limit).block.Some?;
      assert Malloc(INITIAL, 4, limit).block.value in After(cs, limit).leaked;
    }
    TopGrows(cs, more, limit);
  }

  // ---------- runs of the class ----------

  /** The pointer that a call returns. */
  ghost function Answer(s: World, c: Call, limit: int): int
    requires Good(s) && Allowed(s, c, limit)
  {
    match c
    case CallMalloc(size) => if size == 0 then NULL else Pointer(Malloc(s.heap, NeedWords(size), limit))
    case CallRealloc(b, size) =>
      if size == 0 then NULL else Pointer(Resize(s.heap, b, TaggedSize(size) / 8, limit))
    case _ => NULL
  }

  /** The class does what `Step` says, and leaves alone every live payload but the one whose
      pointer is passed in. */
  method Perform(a: Allocator, c: Call, ghost s: World) returns (p: int)
    requires a.Valid() && Good(s) && s.heap == a.il.heap && Allowed(s, c, a.il.mem.Length)
    modifies a, a.lib, a.il, a.il.mem
    ensures a.Valid() && a.il.heap == Step(s, c, a.il.mem.Length).heap
    ensures p == Answer(s, c, a.il.mem.Length)
    ensures Keeps(old(a.il.mem[..]), a.il.mem[..], LiveOf(s.heap.blocks) - Touched(c))
  {
    hide Inv, Rep, Keeps, Malloc, Free, Resize, Serviceable, Top, LiveOf, Copied;
    assert LiveOf(s.heap.blocks) - {} == LiveOf(s.heap.blocks);
    match c {
      case CallMalloc(size) =>
        p := a.MmMalloc(size);
      case CallFree(b) =>
        FreeablePayload(s, b);
        a.MmFree(b.at + 1, b);
        p := NULL;
      case CallRealloc(b, size) =>
        PositionOf(s.heap, b);
        ResizeFacts(s.heap, b, TaggedSize(size) / 8, a.il.mem.Length);
        p := a.MmRealloc(b.at + 1, size, b);
      case CallReallocNull(size) =>
        p := a.MmRealloc(NULL, size, Blk(0, 0, false));
    }
  }

  lemma FreeablePayload(s: World, b: Blk)
    requires Good(s) && (b in s.held || (b in s.heap.blocks && !b.alloc))
    ensures b in s.heap.blocks && b.n >= MIN_WORDS && b.at >= 0
    ensures b in s.held <==> b.alloc
  {
    TilesBounds(s.heap.blocks, 0, Top(s.heap));
    if !b.alloc {
      FreeIsInterior(s.heap.blocks, Top(s.heap), IndexOf(s.heap.blocks, b));
    }
  }

  /** Every call of `more` is allowed when its turn comes, after `cs`. */
  ghost predicate AllAllowed(cs: seq<Call>, more: seq<Call>, limit: int) {
    forall i :: 0 <= i < |more| ==> Allowed(After(cs + more[..i], limit), more[i], limit)
  }

  /** `ps` are the pointers that the first `n` calls of `more` return. */
  ghost predicate Answers(cs: seq<Call>, more: seq<Call>, limit: int, ps: seq<int>, n: int)
    requires 0 <= n <= |more| && AllAllowed(cs, more, limit)
  {
    |ps| == n && forall i :: 0 <= i < n ==> ps[i] == Answer(After(cs + more[..i], limit), more[i], limit)
  }

  /** The live blocks that no call of `more` passes in. */
  ghost function Untouched(h: Heap, more: seq<Call>): set<Blk> {
    set b | b in LiveOf(h.blocks) && forall i :: 0 <= i < |more| ==> b !in Touched(more[i])
  }

  /** A whole run of the class is a run of `After`, with the pointers that it says, and a block
      whose pointer is never passed in keeps its payload throughout. */
  method PerformAll(a: Allocator, more: seq<Call>, ghost cs: seq<Call>) returns (ps: seq<int>)
    requires a.Valid() && a.il.heap == After(cs, a.il.mem.Length).heap
    requires AllAllowed(cs, more, a.il.mem.Length)
    modifies a, a.lib, a.il, a.il.mem
    ensures a.Valid() && a.il.heap == After(cs + more, a.il.mem.Length).heap
    ensures Answers(cs, more, a.il.mem.Length, ps, |more|)
    ensures Untouched(old(a.il.heap), more) <= LiveOf(a.il.heap.blocks)
    ensures Keeps(old(a.il.mem[..]), a.il.mem[..], Untouched(old(a.il.heap), more))
  {
    hide Inv, Rep, Keeps, After, Step, Good, Allowed, LiveOf, Answer;
    ghost var w, limit, kept := a.il.mem[..], a.il.mem.Length, Untouched(a.il.heap, more);
    KeepsSame(w, kept);
    assert cs + more[..0] == cs;
    var i := 0;
    ps := [];
    while i < |more|
      invariant 0 <= i <= |more| && Answers(cs, more, limit, ps, i)
      invariant a.Valid() && a.il.heap == After(cs + more[..i], limit).heap
      invariant kept <= LiveOf(a.il.heap.blocks) && Keeps(w, a.il.mem[..], kept)
    {
      ghost var s, w1 := After(cs + more[..i], limit), a.il.mem[..];
      assert cs + more[..i + 1] == (cs + more[..i]) + [more[i]];
      AfterCall(cs + more[..i], more[i], limit);
      StepGood(s, more[i], limit);
      var p := Perform(a, more[i], s);
      ps := ps + [p];
      KeepsTrans(w, w1, a.il.mem[..], kept, LiveOf(s.heap.blocks) - Touched(more[i]), kept);
      i := i + 1;
    }
    assert more[..i] == more;
  }

  // ---------- total reclamation ----------

  function Frees(order: seq<Blk>): (cs: seq<Call>)
    ensures |cs| == |order| && forall i :: 0 <= i < |cs| ==> cs[i] == CallFree(order[i])
  {
    seq(|order|, i requires 0 <= i < |order| => CallFree(order[i]))
  }

  /** Freeing held blocks one by one, in any order, leaves the others held. */
  lemma {:induction false} FreeEach(cs: seq<Call>, order: seq<Blk>, limit: int)
    requires Distinct(order) && Members(order) <= After(cs, limit).held
    ensures var s, s' := After(cs, limit), After(cs + Frees(order), limit);
            s'.held == s.held - Members(order) && s'.leaked == s.leaked && Top(s'.heap) == Top(s.heap)
    decreases |order|
  {
    hide Good, Step, After, Allowed, Top;
    if order == [] {
      assert cs + Frees(order) == cs;
    } else {
      var last := |order| - 1;
      var init, b := order[..last], order[last];
      assert order == init + [b];
      assert Members(order) == Members(init) + {b};
      assert b !in Members(init);
      FreeEach(cs, init, limit);
      assert cs + Frees(order) == (cs + Frees(init)) + [CallFree(b)];
      FreeOne(cs + Frees(init), b, limit);
    }
  }

  lemma FreeOne(cs: seq<Call>, b: Blk, limit: int)
    requires b in After(cs, limit).held
    ensures var s, s' := After(cs, limit), After(cs + [CallFree(b)], limit);
            s'.held == s.held - {b} && s'.leaked == s.leaked && Top(s'.heap) == Top(s.heap)
  {
    hide Inv, Free, After, LiveOf;
    AfterCall(cs, CallFree(b), limit);
    FreeFacts(After(cs, limit).heap, b);
  }

  lemma Emptied(s: World)
    requires Good(s) && s.held == {} && s.leaked == {}
    ensures LiveOf(s.heap.blocks) == {} && Inv(s.heap)
  {
  }

  /** If no block was lost, freeing every held pointer, in any order, makes the whole heap one
      free block again. */
  lemma TotalReclamation(cs: seq<Call>, order: seq<Blk>, limit: int)
    requires forall i :: 0 <= i < |cs| ==> !LosesBlock(cs, limit, i)
    requires Distinct(order) && Members(order) == After(cs, limit).held
    ensures var h, h' := After(cs, limit).heap, After(cs + Frees(order), limit).heap;
            && Top(h') == Top(h)
            && (Top(h) > 4 ==> |h'.blocks| == 3 && h'.free == [h'.blocks[1]]
                               && h'.blocks[1] == Blk(TAG_WORDS, Top(h) - 2 * TAG_WORDS, false))
            && (Top(h) == 4 ==> |h'.blocks| == 2)
  {
    hide Good, Step, After, Inv, LiveOf, Top, Distinct, Members, LosesBlock;
    LeakExactly(cs, limit);
    FreeEach(cs, order, limit);
    Emptied(After(cs + Frees(order), limit));
    Reclaimed(After(cs + Frees(order), limit).heap);
    AtLeastTwo(After(cs + Frees(order), limit).heap);
  }

  /** However many blocks were lost, freeing every held pointer leaves at most one free block
      more than those. */
  lemma PartialReclamation(cs: seq<Call>, order: seq<Blk>, limit: int)
    requires Distinct(order) && Members(order) == After(cs, limit).held
    ensures var s, s' := After(cs, limit), After(cs + Frees(order), limit);
            && s'.held == {} && s'.leaked == s.leaked && Top(s'.heap) == Top(s.heap)
            && LiveOf(s'.heap.blocks) == s.leaked && |s'.heap.free| <= |s.leaked| + 1
  {
    hide Step, After, Inv, LiveOf, Top, Distinct, Members;
    FreeEach(cs, order, limit);
    FreeBound(After(cs + Frees(order), limit).heap);
  }

  /** Between any two free blocks lies a live one. */
  lemma FreeBound(h: Heap)
    requires Inv(h)
    ensures |h.free| <= |LiveOf(h.blocks)| + 1
  {
    hide Tiles, Top, FreeOf, LiveOf, Members, NoFreeNeighbours, Distinct;
    var bs, last := h.blocks, |h.blocks| - 1;
    TilesDistinct(bs, 0, Top(h));
    SliceNoFreeNeighbours(bs, 1, last);
    FreeBelowLive(bs[1..last]);
    InteriorSets(bs, Top(h));
    DistinctSize(h.free);
  }

  lemma InteriorSets(bs: seq<Blk>, hi: int)
    requires Shape(bs, hi)
    ensures FreeOf(bs) == FreeOf(bs[1..|bs| - 1]) && LiveOf(bs) == LiveOf(bs[1..|bs| - 1])
  {
    hide Tiles;
    var last := |bs| - 1;
    assert bs == [bs[0]] + bs[1..last] + [bs[last]];
  }

  lemma {:induction false} FreeBelowLive(bs: seq<Blk>)
    requires NoFreeNeighbours(bs) && forall i, j :: 0 <= i < j < |bs| ==> bs[i] != bs[j]
    requires forall i :: 0 <= i < |bs| ==> bs[i].n >= MIN_WORDS
    ensures |FreeOf(bs)| <= |LiveOf(bs)| + (if bs == [] || bs[0].alloc then 0 else 1)
  {
    if bs == [] {
    } else {
      hide FreeOf, LiveOf, NoFreeNeighbours;
      SliceNoFreeNeighbours(bs, 1, |bs|);
      FreeBelowLive(bs[1..]);
      NotBothFree(bs, 0);
      assert bs == [bs[0]] + bs[1..] && bs[0] !in bs[1..];
      HeadApart(bs[0], bs[1..]);
    }
  }

  lemma HeadApart(b: Blk, rest: seq<Blk>)
    requires b.n >= MIN_WORDS && b !in rest
    ensures |FreeOf([b] + rest)| == |FreeOf(rest)| + (if b.alloc then 0 else 1)
    ensures |LiveOf([b] + rest)| == |LiveOf(rest)| + (if b.alloc then 1 else 0)
  {
    HeadSets(b, rest);
    hide FreeOf, LiveOf;
  }

  lemma HeadSets(b: Blk, rest: seq<Blk>)
    requires b.n >= MIN_WORDS && b !in rest
    ensures FreeOf([b] + rest) == (if b.alloc then {} else {b}) + FreeOf(rest)
    ensures LiveOf([b] + rest) == (if b.alloc then {b} else {}) + LiveOf(rest)
    ensures b !in FreeOf(rest) && b !in LiveOf(rest)
  {
  }

  lemma {:induction false} DistinctSize(bs: seq<Blk>)
    requires Distinct(bs)
    ensures |Members(bs)| == |bs|
  {
    if bs == [] {
    } else {
      DistinctSize(bs[1..]);
      assert bs == [bs[0]] + bs[1..] && bs[0] !in bs[1..];
      assert Members(bs) == {bs[0]} + Members(bs[1..]);
    }
  }

  lemma AtLeastTwo(h: Heap)
    requires Inv(h)
    ensures 2 <= |h.blocks|
  {
  }
}
