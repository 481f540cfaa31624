/** What the allocator does to its heap, on values: the blocks in address order
    and the free list in list order.  The class in Mm.dfy is proved to do
    exactly this to the words in memory. */
module AllocSpec {
  import opened Layout
  import opened Options

  datatype Heap = Heap(blocks: seq<Blk>, free: seq<Blk>)

  /** The result of a request: the heap afterwards and the block granted, if any. */
  datatype Outcome = Outcome(heap: Heap, block: Option<Blk>)

  /** Sizes in words: the two tags, and the two tags plus a forward and a backward link. */
  const TAG_WORDS := 2
  const MIN_WORDS := 4

  function Top(h: Heap): int {
    if h.blocks == [] then 0 else h.blocks[|h.blocks| - 1].End()
  }

  /** A block whose payload belongs to the user. */
  predicate Live(b: Blk) {
    b.alloc && b.n >= MIN_WORDS
  }

  function LiveOf(bs: seq<Blk>): set<Blk> {
    set b | b in bs && Live(b)
  }

  ghost predicate Distinct(bs: seq<Blk>) {
    forall i, j :: 0 <= i < j < |bs| ==> bs[i] != bs[j]
  }

  /** The blocks between an allocated prologue and an allocated epilogue tile the heap. */
  ghost predicate Shape(bs: seq<Blk>, hi: int) {
    && Tiles(bs, 0, hi)
    && |bs| >= 2
    && bs[0] == Blk(0, TAG_WORDS, true)
    && bs[|bs| - 1] == Blk(hi - TAG_WORDS, TAG_WORDS, true)
    && (forall i :: 0 < i < |bs| - 1 ==> bs[i].n >= MIN_WORDS)
  }

  /** The free list holds exactly the free blocks, each once. */
  ghost predicate FreeExact(h: Heap) {
    && Distinct(h.free)
    && Members(h.free) == FreeOf(h.blocks)
  }

  /** What every reachable heap satisfies. */
  ghost predicate Inv(h: Heap) {
    && Shape(h.blocks, Top(h))
    && FreeExact(h)
    && NoFreeNeighbours(h.blocks)
  }

  // ---------- the free list as a sequence ----------

  function Without(fl: seq<Blk>, xs: set<Blk>): seq<Blk> {
    if fl == [] then []
    else if fl[0] in xs then Without(fl[1..], xs)
    else [fl[0]] + Without(fl[1..], xs)
  }

  lemma {:induction false} WithoutMembers(fl: seq<Blk>, xs: set<Blk>)
    ensures Members(Without(fl, xs)) == Members(fl) - xs
    ensures Distinct(fl) ==> Distinct(Without(fl, xs))
  {
    if fl != [] {
      var r := Without(fl[1..], xs);
      WithoutMembers(fl[1..], xs);
      assert fl == [fl[0]] + fl[1..];
      assert Members(fl) == {fl[0]} + Members(fl[1..]);
      assert Members([fl[0]] + r) == {fl[0]} + Members(r);
      if Distinct(fl) {
        assert forall b :: b in r ==> b in Members(r);
        assert forall b :: b in Members(fl[1..]) ==> b in fl[1..];
        assert fl[0] !in r;
      }
    }
  }

  lemma {:induction false} WithoutNone(fl: seq<Blk>, xs: set<Blk>)
    requires forall i :: 0 <= i < |fl| ==> fl[i] !in xs
    ensures Without(fl, xs) == fl
  {
    if fl != [] {
      WithoutNone(fl[1..], xs);
    }
  }

  lemma {:induction false} WithoutAt(fl: seq<Blk>, k: int)
    requires Distinct(fl) && 0 <= k < |fl|
    ensures Without(fl, {fl[k]}) == fl[..k] + fl[k + 1..]
  {
    if k == 0 {
      WithoutNone(fl[1..], {fl[0]});
    } else {
      WithoutAt(fl[1..], k - 1);
      assert fl[..k] == [fl[0]] + fl[1..][..k - 1];
    }
  }

  /** Only the members of the list matter. */
  lemma {:induction false} WithoutSame(fl: seq<Blk>, xs: set<Blk>, ys: set<Blk>)
    requires forall i :: 0 <= i < |fl| ==> (fl[i] in xs <==> fl[i] in ys)
    ensures Without(fl, xs) == Without(fl, ys)
  {
    if fl != [] {
      WithoutSame(fl[1..], xs, ys);
    }
  }

  lemma {:induction false} WithoutTwice(fl: seq<Blk>, xs: set<Blk>, ys: set<Blk>)
    ensures Without(Without(fl, xs), ys) == Without(fl, xs + ys)
  {
    if fl != [] {
      WithoutTwice(fl[1..], xs, ys);
      var r := Without(fl[1..], xs);
      assert ([fl[0]] + r)[1..] == r;
    }
  }

  // ---------- mm_init ----------

  /** A prologue and an epilogue with nothing between. */
  const INITIAL := Heap([Blk(0, TAG_WORDS, true), Blk(TAG_WORDS, TAG_WORDS, true)], [])

  lemma InitialInv()
    ensures Inv(INITIAL) && Top(INITIAL) == 4 && LiveOf(INITIAL.blocks) == {}
  {
    var p, e := Blk(0, TAG_WORDS, true), Blk(TAG_WORDS, TAG_WORDS, true);
    assert INITIAL.blocks == [p, e] && [p, e][1..] == [e] && [e][1..] == [];
    assert Tiles([e], 2, 4);
    assert Tiles([p, e], 0, 4);
  }

  // ---------- mm_malloc ----------

  /** The position of the first block in list order with at least `need` words. */
  function FirstFit(fl: seq<Blk>, need: int): (k: nat)
    ensures k <= |fl|
    ensures forall i :: 0 <= i < k ==> fl[i].n < need
    ensures k < |fl| ==> fl[k].n >= need
  {
    if fl == [] || fl[0].n >= need then 0 else 1 + FirstFit(fl[1..], need)
  }

  /** The block handed out of free block `b`, and the free remainder when one is worth keeping. */
  function Carved(b: Blk, need: int): seq<Blk> {
    if b.n - need >= MIN_WORDS
    then [Blk(b.at, need, true), Blk(b.at + need, b.n - need, false)]
    else [Blk(b.at, b.n, true)]
  }

  ghost function Carve(h: Heap, b: Blk, need: int): Outcome
    requires b in h.blocks
  {
    var i := IndexOf(h.blocks, b);
    var c := Carved(b, need);
    Outcome(Heap(Splice(h.blocks, i, i + 1, c), c[1..] + Without(h.free, {b})), Some(c[0]))
  }

  function Grow(h: Heap, need: int): Outcome
    requires |h.blocks| > 0
  {
    var last := |h.blocks| - 1;
    var b := Blk(h.blocks[last].at, need, true);
    Outcome(Heap(h.blocks[..last] + [b, Blk(b.End(), TAG_WORDS, true)], h.free), Some(b))
  }

  /** A request for `need` words in a heap that may grow to `limit` words.  `mem_sbrk`
      takes an int, so it refuses a request of 2^31 bytes or more. */
  ghost function Malloc(h: Heap, need: int, limit: int): Outcome
    requires Inv(h)
  {
    var k := FirstFit(h.free, need);
    if k < |h.free| then FreeInBlocks(h, k); Carve(h, h.free[k], need)
    else if 8 * need < 0x8000_0000 && Top(h) + need <= limit then Grow(h, need)
    else Outcome(h, None)
  }

  // ---------- coalescing and mm_free ----------

  /** The block obtained by joining the adjacent blocks `i..j`. */
  function Joined(bs: seq<Blk>, i: int, j: int, alloc: bool): Blk
    requires 0 <= i < j <= |bs|
  {
    Blk(bs[i].at, bs[j - 1].End() - bs[i].at, alloc)
  }

  /** Blocks `i..j` become one free block, at the head of the list. */
  function JoinFree(h: Heap, i: int, j: int): Heap
    requires 0 <= i < j <= |h.blocks|
  {
    var m := Joined(h.blocks, i, j, false);
    Heap(Splice(h.blocks, i, j, [m]), [m] + Without(h.free, Members(h.blocks[i..j])))
  }

  /** Blocks `i..j` become one allocated block. */
  function JoinAlloc(h: Heap, i: int, j: int): Outcome
    requires 0 <= i < j <= |h.blocks|
  {
    var m := Joined(h.blocks, i, j, true);
    Outcome(Heap(Splice(h.blocks, i, j, [m]), Without(h.free, Members(h.blocks[i..j]))), Some(m))
  }

  /** The free block at position `i` absorbs its free neighbours. */
  function Coalesce(h: Heap, i: int): Heap
    requires 0 < i < |h.blocks| - 1
  {
    JoinFree(h, if h.blocks[i - 1].alloc then i else i - 1, if h.blocks[i + 1].alloc then i + 1 else i + 2)
  }

  /** The block at position `i` put on the free list, not yet coalesced. */
  function Unmark(h: Heap, i: int): Heap
    requires 0 <= i < |h.blocks|
  {
    var b := h.blocks[i].(alloc := false);
    Heap(Splice(h.blocks, i, i + 1, [b]), [b] + h.free)
  }

  ghost function Free(h: Heap, b: Blk): Heap
    requires Inv(h) && b in LiveOf(h.blocks)
  {
    var i := IndexOf(h.blocks, b);
    Interior(h, i);
    Coalesce(Unmark(h, i), i)
  }

  // ---------- mm_realloc ----------

  /** Moving live block `b` to a new block of at least `need` words. */
  ghost function Move(h: Heap, b: Blk, need: int, limit: int): Outcome
    requires Inv(h) && b in LiveOf(h.blocks) && need >= MIN_WORDS
  {
    var o := Malloc(h, need, limit);
    MallocFacts(h, need, limit);
    if o.block.None? then o else Outcome(Free(o.heap, b), o.block)
  }

  /** How to give the block at position `i` at least `need` words: leave it, join the
      blocks `lo..hi` around it, or move it. */
  datatype Plan = Keep | Absorb(lo: int, hi: int) | Relocate

  function ResizePlan(bs: seq<Blk>, i: int, need: int): Plan
    requires 0 < i < |bs| - 1
  {
    var prev, b, next := bs[i - 1], bs[i], bs[i + 1];
    if b.n >= need then Keep
    else if !prev.alloc && b.n + prev.n >= need then Absorb(i - 1, i + 1)
    else if !next.alloc && b.n + next.n >= need then Absorb(i, i + 2)
    else if !prev.alloc && !next.alloc && b.n + prev.n + next.n >= need then Absorb(i - 1, i + 2)
    else Relocate
  }

  /** Resizing live block `b` to at least `need` words. */
  ghost function Resize(h: Heap, b: Blk, need: int, limit: int): Outcome
    requires Inv(h) && b in LiveOf(h.blocks)
  {
    var i := IndexOf(h.blocks, b);
    Interior(h, i);
    match ResizePlan(h.blocks, i, need)
    case Keep => Outcome(h, Some(b))
    case Absorb(lo, hi) => JoinAlloc(h, lo, hi)
    case Relocate => Move(h, b, need + TAG_WORDS, limit)
  }

  // ---------- positions ----------

  lemma FreeInBlocks(h: Heap, k: int)
    requires FreeExact(h) && 0 <= k < |h.free|
    ensures h.free[k] in h.blocks && !h.free[k].alloc
  {
    assert h.free[k] in Members(h.free);
  }

  lemma FreeIsInterior(bs: seq<Blk>, hi: int, i: int)
    requires Shape(bs, hi) && 0 <= i < |bs| && !bs[i].alloc
    ensures bs[i].n >= MIN_WORDS
  {
  }

  /** Facts about the position of an interior block. */
  lemma Interior(h: Heap, i: int)
    requires Shape(h.blocks, Top(h)) && 0 <= i < |h.blocks|
    requires h.blocks[i].n >= MIN_WORDS
    ensures 0 < i < |h.blocks| - 1
    ensures h.blocks[i - 1].End() == h.blocks[i].at
    ensures h.blocks[i].End() == h.blocks[i + 1].at
  {
    TilesNeighbours(h.blocks, 0, Top(h), i);
    TilesNeighbours(h.blocks, 0, Top(h), i - 1);
  }

  /** A block that overlaps a block of `bs` without being it is not in `bs`. */
  lemma Overlapping(bs: seq<Blk>, lo: int, hi: int, b: Blk, v: Blk)
    requires Tiles(bs, lo, hi) && b in bs && v != b && !Apart(v, b)
    ensures v !in bs
  {
    TilesApart(bs, lo, hi);
  }

  // ---------- preservation ----------

  /** Replacing interior blocks by a tiling of the same words keeps the shape. */
  lemma SpliceShape(bs: seq<Blk>, hi: int, i: int, j: int, mid: seq<Blk>)
    requires Shape(bs, hi) && 0 < i < j < |bs|
    requires Tiles(mid, bs[i].at, bs[j - 1].End())
    requires mid != [] && forall k :: 0 <= k < |mid| ==> mid[k].n >= MIN_WORDS
    ensures Shape(Splice(bs, i, j, mid), hi)
    ensures forall fl :: Top(Heap(Splice(bs, i, j, mid), fl)) == hi
  {
    hide Tiles;
    SpliceTiles(bs, 0, hi, i, j, mid);
    var r := Splice(bs, i, j, mid);
    forall p | 0 < p < |r| - 1
      ensures r[p].n >= MIN_WORDS
    {
      if i <= p < i + |mid| {
        assert r[p] == mid[p - i];
      } else if p >= i + |mid| {
        assert r[p] == bs[p - |mid| - i + j];
      }
    }
  }

  lemma SpliceLive(bs: seq<Blk>, lo: int, hi: int, i: int, j: int, mid: seq<Blk>)
    requires Tiles(bs, lo, hi) && 0 <= i <= j <= |bs|
    ensures LiveOf(Splice(bs, i, j, mid)) == LiveOf(bs) - LiveOf(bs[i..j]) + LiveOf(mid)
    ensures FreeOf(Splice(bs, i, j, mid)) == FreeOf(bs) - FreeOf(bs[i..j]) + FreeOf(mid)
  {
    SpliceMembers(bs, lo, hi, i, j, mid);
    LiveOfMembers(Splice(bs, i, j, mid));
    LiveOfMembers(bs);
    LiveOfMembers(bs[i..j]);
    LiveOfMembers(mid);
  }

  lemma LiveOfMembers(bs: seq<Blk>)
    ensures LiveOf(bs) == set b | b in Members(bs) && Live(b)
    ensures FreeOf(bs) == set b | b in Members(bs) && !b.alloc
  {
  }

  /** Splicing blocks and the list alike keeps the layout and the list exact. */
  lemma SpliceExact(h: Heap, i: int, j: int, mid: seq<Blk>, add: seq<Blk>)
    requires Shape(h.blocks, Top(h)) && FreeExact(h) && 0 < i < j < |h.blocks|
    requires Tiles(mid, h.blocks[i].at, h.blocks[j - 1].End())
    requires mid != [] && forall k :: 0 <= k < |mid| ==> mid[k].n >= MIN_WORDS
    requires |add| <= 1 && Members(add) == FreeOf(mid)
    requires forall k :: 0 <= k < |add| ==> add[k] !in h.blocks || add[k] in h.blocks[i..j]
    ensures var h' := Heap(Splice(h.blocks, i, j, mid), add + Without(h.free, Members(h.blocks[i..j])));
            && Shape(h'.blocks, Top(h)) && Top(h') == Top(h) && FreeExact(h')
            && LiveOf(h'.blocks) == LiveOf(h.blocks) - LiveOf(h.blocks[i..j]) + LiveOf(mid)
  {
    hide Members, FreeOf, LiveOf, Tiles, Distinct, Without;
    SpliceShape(h.blocks, Top(h), i, j, mid);
    SpliceLive(h.blocks, 0, Top(h), i, j, mid);
    SpliceList(h.blocks, h.blocks[i..j], h.free, add);
  }

  lemma SpliceList(bs: seq<Blk>, slice: seq<Blk>, free: seq<Blk>, add: seq<Blk>)
    requires Members(free) == FreeOf(bs) && Distinct(free)
    requires |add| <= 1
    requires forall k :: 0 <= k < |add| ==> add[k] !in bs || add[k] in slice
    ensures var r := add + Without(free, Members(slice));
            Members(r) == FreeOf(bs) - FreeOf(slice) + Members(add) && Distinct(r)
  {
    WithoutMembers(free, Members(slice));
    ExactList(bs, slice, free, add, Without(free, Members(slice)));
  }

  lemma ExactList(bs: seq<Blk>, slice: seq<Blk>, free: seq<Blk>, add: seq<Blk>, rest: seq<Blk>)
    requires Members(free) == FreeOf(bs)
    requires Members(rest) == Members(free) - Members(slice) && Distinct(rest)
    requires |add| <= 1
    requires forall k :: 0 <= k < |add| ==> add[k] !in bs || add[k] in slice
    ensures Members(add + rest) == FreeOf(bs) - FreeOf(slice) + Members(add)
    ensures Distinct(add + rest)
  {
    assert FreeOf(bs) - Members(slice) == FreeOf(bs) - FreeOf(slice);
    if add != [] {
      assert add == [add[0]];
      assert add[0] !in Members(rest);
    }
  }

  /** What a client relies on when `o` answers a request for `need` words made with
      `mine` given up: one new live block, large enough, and every other live block kept. */
  ghost predicate Granted(h: Heap, mine: set<Blk>, o: Outcome, need: int) {
    && Inv(o.heap)
    && Top(h) <= Top(o.heap)
    && o.block.Some?
    && Live(o.block.value) && o.block.value.n >= need
    && o.block.value !in LiveOf(h.blocks) - mine
    && LiveOf(o.heap.blocks) == LiveOf(h.blocks) - mine + {o.block.value}
  }

  lemma CarvedTiles(b: Blk, need: int)
    requires b.n >= need >= MIN_WORDS
    ensures var c := Carved(b, need);
            && Tiles(c, b.at, b.End()) && LiveOf(c) == {c[0]} && Members(c[1..]) == FreeOf(c)
            && NoFreeNeighbours(c)
  {
    var c := Carved(b, need);
    if b.n - need >= MIN_WORDS {
      assert c[1..] == [c[1]] && c[1..][1..] == [];
    } else {
      assert c[1..] == [];
    }
  }

  lemma CarveGranted(h: Heap, b: Blk, need: int)
    requires Inv(h) && b in h.blocks && !b.alloc && b.n >= need >= MIN_WORDS
    ensures Granted(h, {}, Carve(h, b, need), need)
    ensures Top(Carve(h, b, need).heap) == Top(h)
  {
    var i, c := IndexOf(h.blocks, b), Carved(b, need);
    Interior(h, i);
    CarvedTiles(b, need);
    forall k | 0 <= k < |c|
      ensures c[k] !in h.blocks && c[k].n >= MIN_WORDS
    {
      Overlapping(h.blocks, 0, Top(h), b, c[k]);
    }
    assert h.blocks[i..i + 1] == [b];
    assert Members([b]) == {b} && LiveOf([b]) == {};
    SpliceExact(h, i, i + 1, c, c[1..]);
    assert h.blocks[i].alloc || h.blocks[i + 1].alloc;
    SpliceKeepsNoFreeNeighbours(h.blocks, i, i + 1, c);
  }

  lemma GrowGranted(h: Heap, need: int)
    requires Inv(h) && need >= MIN_WORDS
    ensures Granted(h, {}, Grow(h, need), need)
    ensures Top(Grow(h, need).heap) == Top(h) + need
  {
    var bs, last, o := h.blocks, |h.blocks| - 1, Grow(h, need);
    var b := o.block.value;
    var e := Blk(b.End(), TAG_WORDS, true);
    GrowShape(bs, Top(h), need);
    GrowMembers(bs[..last], bs[last], b, e);
    assert bs == bs[..last] + [bs[last]];
    TilesBounds(bs, 0, Top(h));
  }

  lemma GrowShape(bs: seq<Blk>, hi: int, need: int)
    requires Shape(bs, hi) && NoFreeNeighbours(bs) && need >= MIN_WORDS
    ensures var b := Blk(hi - TAG_WORDS, need, true);
            var r := bs[..|bs| - 1] + [b, Blk(b.End(), TAG_WORDS, true)];
            Shape(r, hi + need) && NoFreeNeighbours(r)
  {
    var last := |bs| - 1;
    var b := Blk(hi - TAG_WORDS, need, true);
    var e := Blk(b.End(), TAG_WORDS, true);
    TilesCut(bs, 0, hi, last);
    assert Tiles([b, e], b.at, e.End()) by {
      assert [b, e][1..] == [e];
    }
    TilesJoin(bs[..last], [b, e], 0, b.at, e.End());
    var r := bs[..last] + [b, e];
    forall p, q | 0 <= p && q == p + 1 && q < |r|
      ensures r[p].alloc || r[q].alloc
    {
      if q < last {
        assert r[p] == bs[p] && r[q] == bs[q];
      }
    }
  }

  lemma GrowMembers(bs: seq<Blk>, was: Blk, b: Blk, e: Blk)
    requires was.alloc && !Live(was) && Live(b) && e.alloc && !Live(e)
    ensures LiveOf(bs + [b, e]) == LiveOf(bs + [was]) + {b}
    ensures FreeOf(bs + [b, e]) == FreeOf(bs + [was])
  {
  }

  lemma MallocFacts(h: Heap, need: int, limit: int)
    requires Inv(h) && need >= MIN_WORDS
    ensures var o := Malloc(h, need, limit);
            && (o.block.Some? ==> Granted(h, {}, o, need))
            && (o.block.None? ==> o.heap == h)
            && (Top(h) <= limit ==> Top(o.heap) <= limit)
  {
    var k := FirstFit(h.free, need);
    if k < |h.free| {
      FreeInBlocks(h, k);
      CarveGranted(h, h.free[k], need);
    } else {
      GrowGranted(h, need);
    }
  }

  /** The block that joins a stretch of interior blocks covers exactly their words. */
  lemma JoinedTiles(bs: seq<Blk>, hi: int, i: int, j: int, alloc: bool)
    requires Shape(bs, hi) && 0 < i < j < |bs|
    ensures var m := Joined(bs, i, j, alloc);
            && Tiles([m], bs[i].at, bs[j - 1].End())
            && bs[i].n <= m.n && m.n == Total(bs[i..j])
            && m.End() == bs[j].at
            && (i + 1 < j ==> bs[i].n < m.n)
  {
    StretchTotal(bs, hi, i, j);
    StretchTotal(bs, hi, i, i + 1);
    TilesBounds(bs, 0, hi);
    if i + 1 < j {
      TilesOrdered(bs, 0, hi);
      assert bs[i].End() <= bs[j - 1].at;
    }
    assert [Joined(bs, i, j, alloc)][1..] == [];
  }

  lemma StretchTotal(bs: seq<Blk>, hi: int, i: int, j: int)
    requires Tiles(bs, 0, hi) && 0 < i < j < |bs|
    ensures bs[j].at == bs[j - 1].End() == bs[i].at + Total(bs[i..j])
  {
    TilesCut(bs, 0, hi, i);
    TilesCut(bs[i..], bs[i].at, hi, j - i);
    assert bs[i..][..j - i] == bs[i..j];
    TilesTotal(bs[i..j], bs[i].at, bs[j].at);
    TilesNeighbours(bs, 0, hi, j - 1);
  }

  /** It is one of the blocks of the heap only if it is the single block it replaces. */
  lemma JoinedNew(bs: seq<Blk>, hi: int, i: int, j: int, alloc: bool)
    requires Shape(bs, hi) && 0 < i < j < |bs|
    ensures var m := Joined(bs, i, j, alloc);
            m !in bs || (i + 1 == j && m in bs[i..j])
  {
    var m := Joined(bs, i, j, alloc);
    JoinedTiles(bs, hi, i, j, alloc);
    if m == bs[i] {
      assert bs[i..j][0] == m;
    } else {
      Overlapping(bs, 0, hi, bs[i], m);
    }
  }

  lemma Single(m: Blk)
    ensures Members([m]) == {m}
    ensures FreeOf([m]) == if m.alloc then {} else {m}
    ensures LiveOf([m]) == if Live(m) then {m} else {}
  {
  }

  /** Joining free blocks keeps the layout and the list exact. */
  lemma JoinFreeExact(h: Heap, i: int, j: int)
    requires Shape(h.blocks, Top(h)) && FreeExact(h) && 0 < i < j < |h.blocks|
    requires LiveOf(h.blocks[i..j]) == {}
    ensures var h' := JoinFree(h, i, j);
            && Shape(h'.blocks, Top(h)) && Top(h') == Top(h) && FreeExact(h')
            && LiveOf(h'.blocks) == LiveOf(h.blocks)
  {
    var m := Joined(h.blocks, i, j, false);
    JoinedTiles(h.blocks, Top(h), i, j, false);
    JoinedNew(h.blocks, Top(h), i, j, false);
    Single(m);
    SpliceExact(h, i, j, [m], [m]);
  }

  /** Coalescing one newly freed block leaves no free neighbours anywhere. */
  lemma CoalesceInv(h: Heap, i: int)
    requires Shape(h.blocks, Top(h)) && FreeExact(h) && 0 < i < |h.blocks| - 1
    requires !h.blocks[i].alloc
    requires NoFreeNeighbours(h.blocks[..i]) && NoFreeNeighbours(h.blocks[i + 1..])
    ensures Inv(Coalesce(h, i)) && Top(Coalesce(h, i)) == Top(h)
    ensures LiveOf(Coalesce(h, i).blocks) == LiveOf(h.blocks)
  {
    hide Tiles, NoFreeNeighbours, FreeExact, LiveOf, FreeOf, Members, Without, Splice, Distinct;
    var bs := h.blocks;
    var lo, hi := if bs[i - 1].alloc then i else i - 1, if bs[i + 1].alloc then i + 1 else i + 2;
    FreeSlice(bs, lo, hi);
    JoinFreeExact(h, lo, hi);
    JoinNoFreeNeighbours(bs, i, lo, hi, Joined(bs, lo, hi, false));
  }

  lemma FreeSlice(bs: seq<Blk>, lo: int, hi: int)
    requires 0 <= lo < hi <= |bs| && forall k :: lo <= k < hi ==> !bs[k].alloc
    ensures LiveOf(bs[lo..hi]) == {}
  {
  }

  lemma UnmarkFacts(h: Heap, b: Blk)
    requires Inv(h) && b in LiveOf(h.blocks)
    ensures var i := IndexOf(h.blocks, b);
            var h' := Unmark(h, i);
            && 0 < i < |h.blocks| - 1 && |h'.blocks| == |h.blocks|
            && Shape(h'.blocks, Top(h)) && Top(h') == Top(h) && FreeExact(h')
            && h'.blocks[i] == b.(alloc := false)
            && LiveOf(h'.blocks) == LiveOf(h.blocks) - {b}
  {
    var i, c := IndexOf(h.blocks, b), b.(alloc := false);
    Interior(h, i);
    assert h.blocks[i..i + 1] == [b];
    Overlapping(h.blocks, 0, Top(h), b, c);
    assert Tiles([c], b.at, b.End()) by {
      assert [c][1..] == [];
    }
    Single(b);
    Single(c);
    WithoutLive(h, b);
    SpliceExact(h, i, i + 1, [c], [c]);
  }

  lemma WithoutLive(h: Heap, b: Blk)
    requires FreeExact(h) && b.alloc
    ensures Without(h.free, {b}) == h.free
  {
    forall k | 0 <= k < |h.free|
      ensures h.free[k] !in {b}
    {
      FreeInBlocks(h, k);
    }
    WithoutNone(h.free, {b});
  }

  lemma UnmarkNeighbours(bs: seq<Blk>, i: int, c: Blk)
    requires NoFreeNeighbours(bs) && 0 <= i < |bs|
    ensures var r := Splice(bs, i, i + 1, [c]);
            NoFreeNeighbours(r[..i]) && NoFreeNeighbours(r[i + 1..])
  {
    var r := Splice(bs, i, i + 1, [c]);
    SliceNoFreeNeighbours(bs, 0, i);
    SliceNoFreeNeighbours(bs, i + 1, |bs|);
    assert r[..i] == bs[0..i] && r[i + 1..] == bs[i + 1..|bs|];
  }

  lemma FreeFacts(h: Heap, b: Blk)
    requires Inv(h) && b in LiveOf(h.blocks)
    ensures Inv(Free(h, b)) && Top(Free(h, b)) == Top(h)
    ensures LiveOf(Free(h, b).blocks) == LiveOf(h.blocks) - {b}
  {
    var i := IndexOf(h.blocks, b);
    UnmarkFacts(h, b);
    UnmarkNeighbours(h.blocks, i, b.(alloc := false));
    CoalesceInv(Unmark(h, i), i);
  }

  /** Absorbing free neighbours into a live block. */
  lemma JoinAllocGranted(h: Heap, b: Blk, i: int, j: int)
    requires Inv(h) && 0 < i < j < |h.blocks|
    requires i + 1 < j && LiveOf(h.blocks[i..j]) == {b}
    ensures Granted(h, {b}, JoinAlloc(h, i, j), Total(h.blocks[i..j]))
    ensures Top(JoinAlloc(h, i, j).heap) == Top(h)
  {
    var m := Joined(h.blocks, i, j, true);
    JoinedTiles(h.blocks, Top(h), i, j, true);
    JoinedNew(h.blocks, Top(h), i, j, true);
    Single(m);
    assert [] + Without(h.free, Members(h.blocks[i..j])) == Without(h.free, Members(h.blocks[i..j]));
    assert Members([]) == {};
    SpliceExact(h, i, j, [m], []);
    SpliceKeepsNoFreeNeighbours(h.blocks, i, j, [m]);
  }

  lemma TotalOf2(a: Blk, b: Blk)
    ensures Total([a, b]) == a.n + b.n
    ensures LiveOf([a, b]) == LiveOf([a]) + LiveOf([b])
  {
    assert [a, b][1..] == [b];
    assert Total([b]) == b.n by {
      assert [b][1..] == [];
    }
  }

  lemma TotalOf3(a: Blk, b: Blk, c: Blk)
    ensures Total([a, b, c]) == a.n + b.n + c.n
    ensures LiveOf([a, b, c]) == LiveOf([a]) + LiveOf([b]) + LiveOf([c])
  {
    assert [a, b, c][1..] == [b, c];
    TotalOf2(b, c);
  }

  /** The plan is to join blocks `lo..hi` around live block `b` at position `k`. */
  ghost predicate Absorbing(h: Heap, b: Blk, k: int, lo: int, hi: int) {
    && Inv(h) && b in LiveOf(h.blocks) && k == IndexOf(h.blocks, b)
    && 0 < k < |h.blocks| - 1 && k - 1 <= lo <= k < hi <= k + 2 && lo + 1 < hi
    && (lo < k ==> !h.blocks[k - 1].alloc) && (k + 1 < hi ==> !h.blocks[k + 1].alloc)
  }

  /** The words that the plan yields. */
  function Gained(bs: seq<Blk>, k: int, lo: int, hi: int): int
    requires 0 < k < |bs| - 1
  {
    bs[k].n + (if lo < k then bs[k - 1].n else 0) + (if k + 1 < hi then bs[k + 1].n else 0)
  }

  lemma AbsorbSlice(h: Heap, b: Blk, k: int, lo: int, hi: int)
    requires Absorbing(h, b, k, lo, hi)
    ensures 0 < lo < hi < |h.blocks|
    ensures LiveOf(h.blocks[lo..hi]) == {b}
    ensures Total(h.blocks[lo..hi]) == Gained(h.blocks, k, lo, hi)
    ensures Members(h.blocks[lo..hi])
            == {b} + (if lo < k then {h.blocks[k - 1]} else {}) + (if k + 1 < hi then {h.blocks[k + 1]} else {})
  {
    var prev, next := h.blocks[k - 1], h.blocks[k + 1];
    Single(prev);
    Single(b);
    Single(next);
    if lo == k {
      assert h.blocks[lo..hi] == [b, next];
      TotalOf2(b, next);
    } else if hi == k + 1 {
      assert h.blocks[lo..hi] == [prev, b];
      TotalOf2(prev, b);
    } else {
      assert h.blocks[lo..hi] == [prev, b, next];
      TotalOf3(prev, b, next);
    }
  }

  /** The three ways of growing in place. */
  lemma AbsorbGranted(h: Heap, b: Blk, k: int, lo: int, hi: int)
    requires Absorbing(h, b, k, lo, hi)
    ensures 0 < lo < hi < |h.blocks|
    ensures Granted(h, {b}, JoinAlloc(h, lo, hi), Gained(h.blocks, k, lo, hi))
    ensures Top(JoinAlloc(h, lo, hi).heap) == Top(h)
  {
    AbsorbSlice(h, b, k, lo, hi);
    JoinAllocGranted(h, b, lo, hi);
  }

  lemma MoveGranted(h: Heap, b: Blk, need: int, limit: int)
    requires Inv(h) && b in LiveOf(h.blocks) && need >= MIN_WORDS
    ensures var o := Move(h, b, need, limit);
            && (o.block.Some? ==> Granted(h, {b}, o, need))
            && (o.block.None? ==> o.heap == h)
            && (Top(h) <= limit ==> Top(o.heap) <= limit)
  {
    var o := Malloc(h, need, limit);
    MallocFacts(h, need, limit);
    if o.block.Some? {
      FreeFacts(o.heap, b);
    }
  }

  lemma KeepGranted(h: Heap, b: Blk, need: int)
    requires Inv(h) && b in LiveOf(h.blocks) && b.n >= need
    ensures Granted(h, {b}, Outcome(h, Some(b)), need)
  {
  }

  lemma GrantedMore(h: Heap, mine: set<Blk>, o: Outcome, more: int, need: int)
    requires Granted(h, mine, o, more) && need <= more
    ensures Granted(h, mine, o, need)
  {
  }

  lemma ResizeFacts(h: Heap, b: Blk, need: int, limit: int)
    requires Inv(h) && b in LiveOf(h.blocks)
    ensures var o := Resize(h, b, need, limit);
            && (o.block.Some? ==> Granted(h, {b}, o, need))
            && (o.block.None? ==> o.heap == h)
            && (Top(h) <= limit ==> Top(o.heap) <= limit)
  {
    hide Granted, Move, Members, FreeOf, Splice, Joined, Without, Tiles;
    var i, o := IndexOf(h.blocks, b), Resize(h, b, need, limit);
    Interior(h, i);
    match ResizePlan(h.blocks, i, need)
    case Keep =>
      KeepGranted(h, b, need);
    case Absorb(lo, hi) =>
      AbsorbGranted(h, b, i, lo, hi);
      GrantedMore(h, {b}, o, Gained(h.blocks, i, lo, hi), need);
    case Relocate =>
      MoveGranted(h, b, need + TAG_WORDS, limit);
      if o.block.Some? {
        GrantedMore(h, {b}, o, need + TAG_WORDS, need);
      }
  }
}
