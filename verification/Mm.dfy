/** The allocator: `mm_init`, `mm_malloc`, `mm_free`, `mm_realloc` and `coalescing`. */
module Mm {
  import opened Layout
  import opened AllocSpec
  import opened Options
  import opened Words
  import opened MemLib
  import opened MmInline

  /** The heap while `coalescing` runs: blocks `lo..hi` have become one free block that is
      not on the list. */
  function Gathered(h: Heap, lo: int, hi: int): Heap
    requires 0 <= lo < hi <= |h.blocks|
  {
    Heap(Splice(h.blocks, lo, hi, [Joined(h.blocks, lo, hi, false)]),
         Without(h.free, Members(h.blocks[lo..hi])))
  }

  lemma GatherStart(h: Heap, i: int)
    requires 0 <= i < |h.blocks| && !h.blocks[i].alloc
    ensures Gathered(h, i, i + 1) == h.(free := Without(h.free, {h.blocks[i]}))
  {
    assert h.blocks[i..i + 1] == [h.blocks[i]];
    Single(h.blocks[i]);
    assert Joined(h.blocks, i, i + 1, false) == h.blocks[i];
    assert Splice(h.blocks, i, i + 1, [h.blocks[i]]) == h.blocks;
  }

  lemma GatherPrev(h: Heap, lo: int, hi: int)
    requires 0 < lo < hi <= |h.blocks|
    ensures var g, g' := Gathered(h, lo, hi), Gathered(h, lo - 1, hi);
            && lo + 1 <= |g.blocks| && g.blocks[lo - 1] == h.blocks[lo - 1]
            && g'.blocks == Splice(g.blocks, lo - 1, lo + 1, [Joined(g.blocks, lo - 1, lo + 1, false)])
            && g'.free == Without(g.free, {h.blocks[lo - 1]})
  {
    WithoutTwice(h.free, Members(h.blocks[lo..hi]), {h.blocks[lo - 1]});
    assert h.blocks[lo - 1..hi] == [h.blocks[lo - 1]] + h.blocks[lo..hi];
    MembersCat([h.blocks[lo - 1]], h.blocks[lo..hi]);
    Single(h.blocks[lo - 1]);
    assert Members(h.blocks[lo - 1..hi]) == Members(h.blocks[lo..hi]) + {h.blocks[lo - 1]};
    GatherPrevBlocks(h.blocks, lo, hi, Joined(h.blocks, lo, hi, false));
  }

  lemma GatherPrevBlocks(bs: seq<Blk>, lo: int, hi: int, m: Blk)
    requires 0 < lo < hi <= |bs| && m.End() == bs[hi - 1].End()
    ensures var g := Splice(bs, lo, hi, [m]);
            Splice(g, lo - 1, lo + 1, [Joined(g, lo - 1, lo + 1, false)])
            == Splice(bs, lo - 1, hi, [Joined(bs, lo - 1, hi, false)])
  {
  }

  lemma GatherNext(h: Heap, lo: int, hi: int)
    requires 0 <= lo < hi < |h.blocks|
    ensures var g, g' := Gathered(h, lo, hi), Gathered(h, lo, hi + 1);
            && lo + 2 <= |g.blocks| && g.blocks[lo + 1] == h.blocks[hi]
            && g'.blocks == Splice(g.blocks, lo, lo + 2, [Joined(g.blocks, lo, lo + 2, false)])
            && g'.free == Without(g.free, {h.blocks[hi]})
  {
    WithoutTwice(h.free, Members(h.blocks[lo..hi]), {h.blocks[hi]});
    assert h.blocks[lo..hi + 1] == h.blocks[lo..hi] + [h.blocks[hi]];
    MembersCat(h.blocks[lo..hi], [h.blocks[hi]]);
    Single(h.blocks[hi]);
    GatherNextBlocks(h.blocks, lo, hi, Joined(h.blocks, lo, hi, false));
  }

  lemma GatherNextBlocks(bs: seq<Blk>, lo: int, hi: int, m: Blk)
    requires 0 <= lo < hi < |bs| && m.at == bs[lo].at
    ensures var g := Splice(bs, lo, hi, [m]);
            && |g| >= lo + 2
            && Splice(g, lo, lo + 2, [Joined(g, lo, lo + 2, false)])
            == Splice(bs, lo, hi + 1, [Joined(bs, lo, hi + 1, false)])
  {
  }

  lemma MembersCat(a: seq<Blk>, b: seq<Blk>)
    ensures Members(a + b) == Members(a) + Members(b)
  {
  }

  /** The gathered block is not on the list, and no live block was touched. */
  lemma GatheredFacts(h: Heap, lo: int, hi: int)
    requires Shape(h.blocks, Top(h)) && FreeExact(h) && 0 < lo < hi < |h.blocks|
    requires forall k :: lo <= k < hi ==> !h.blocks[k].alloc
    ensures var g := Gathered(h, lo, hi);
            && g.blocks[lo] == Joined(h.blocks, lo, hi, false)
            && g.blocks[lo] !in g.free && !g.blocks[lo].alloc
            && |g.blocks| == |h.blocks| - (hi - lo) + 1
            && LiveOf(g.blocks) == LiveOf(h.blocks)
            && Members(g.free) == FreeOf(h.blocks) - Members(h.blocks[lo..hi])
            && JoinFree(h, lo, hi) == g.(free := [g.blocks[lo]] + g.free)
  {
    hide Tiles;
    FreeSlice(h.blocks, lo, hi);
    JoinFreeExact(h, lo, hi);
    JoinedNew(h.blocks, Top(h), lo, hi, false);
    WithoutMembers(h.free, Members(h.blocks[lo..hi]));
    assert forall b :: b in Gathered(h, lo, hi).free <==> b in Members(Gathered(h, lo, hi).free);
  }

  lemma JoinedPair(bs: seq<Blk>, hi: int, i: int, alloc: bool)
    requires Tiles(bs, 0, hi) && 0 <= i && i + 2 <= |bs|
    ensures Joined(bs, i, i + 2, alloc).n == bs[i].n + bs[i + 1].n
  {
    TilesNeighbours(bs, 0, hi, i);
  }

  /** Pulling `drop` leaves neither of a pair of free blocks on the list. */
  lemma PairUnlisted(g: Heap, i: int, drop: Blk)
    requires 0 <= i && i + 2 <= |g.blocks| && !g.blocks[i].alloc && !g.blocks[i + 1].alloc
    requires forall k :: i <= k < i + 2 ==> g.blocks[k] == drop || g.blocks[k] !in g.free
    ensures Members(Without(g.free, {drop})) !! Members(g.blocks[i..i + 2])
    ensures LiveOf(g.blocks[i..i + 2]) == {}
  {
    WithoutMembers(g.free, {drop});
    assert g.blocks[i..i + 2] == [g.blocks[i], g.blocks[i + 1]];
  }

  /** A free block outside the gathered stretch is still listed. */
  lemma StillListed(h: Heap, lo: int, hi: int, k: int)
    requires Shape(h.blocks, Top(h)) && FreeExact(h) && 0 < lo < hi < |h.blocks|
    requires 0 <= k < |h.blocks| && (k < lo || hi <= k) && !h.blocks[k].alloc
    ensures h.blocks[k] in Gathered(h, lo, hi).free
  {
    hide Tiles;
    WithoutMembers(h.free, Members(h.blocks[lo..hi]));
    TilesDistinct(h.blocks, 0, Top(h));
    assert h.blocks[k] !in h.blocks[lo..hi];
    assert h.blocks[k] in Members(Gathered(h, lo, hi).free);
  }

  /** Rounds up to a multiple of 8: `(n + 7) & ~7`. */
  function Align(size: int): (r: int)
    ensures r % 8 == 0 && size <= r < size + 8
  {
    (size + 7) - (size + 7) % 8
  }

  /** The bytes a request for `size` needs with its tags. */
  function TaggedSize(size: int): (r: int)
    ensures r % 8 == 0 && size + 16 <= r < size + 24
  {
    Align(size) + 16
  }

  /** The block size, in bytes, that `mm_malloc` looks for. */
  function BlockBytes(size: int): (r: int)
    ensures r % 8 == 0 && r >= 32
  {
    if TaggedSize(size) < 32 then 32 else TaggedSize(size)
  }

  function NeedWords(size: int): (r: int)
    ensures r >= MIN_WORDS
  {
    BlockBytes(size) / 8
  }

  /** The block size looked for is the least block size there is room in. */
  lemma BlockBytesLeast(size: int)
    ensures BlockBytes(size) >= 32 && BlockBytes(size) >= size + 16 && BlockBytes(size) % 8 == 0
    ensures 8 * NeedWords(size) == BlockBytes(size)
    ensures forall n :: n % 8 == 0 && n >= 32 && n >= size + 16 ==> BlockBytes(size) <= n
  {
    assert TaggedSize(size) < size + 24;
  }

  /** A request for a block of `bytes` bytes is served from the list, or `mem_sbrk` is not going
      to cut it short. */
  predicate Serviceable(h: Heap, bytes: int, limit: int) {
    FirstFit(h.free, bytes / 8) < |h.free| || Faithful(bytes, 8 * Top(h), 8 * limit)
  }

  /** In other words: unless it would be cut short. */
  lemma ServiceableExactly(h: Heap, bytes: int, limit: int)
    requires bytes % 8 == 0
    ensures Serviceable(h, bytes, limit)
            <==> || (exists k :: 0 <= k < |h.free| && 8 * h.free[k].n >= bytes)
                 || bytes < 0x8000_0000
                 || bytes % 0x1_0000_0000 >= 0x8000_0000
                 || 8 * Top(h) + bytes % 0x1_0000_0000 > 8 * limit
  {
    var k := FirstFit(h.free, bytes / 8);
    if k < |h.free| {
      assert 8 * h.free[k].n >= bytes;
    }
  }

  /** Every size that is an int is serviceable in every heap, also when a reallocation moves. */
  lemma IntsServiceable(h: Heap, size: int, limit: int)
    requires size < 0x8000_0000
    ensures Serviceable(h, BlockBytes(size), limit) && Serviceable(h, BlockBytes(TaggedSize(size)), limit)
  {
  }

  /** Giving live block `b` at least `need` words takes a block elsewhere. */
  ghost predicate Moves(h: Heap, b: Blk, need: int)
    requires Inv(h) && b in LiveOf(h.blocks)
  {
    Interior(h, IndexOf(h.blocks, b));
    ResizePlan(h.blocks, IndexOf(h.blocks, b), need).Relocate?
  }

  /** A reallocation of `b` to `size` bytes makes no request, or a serviceable one. */
  ghost predicate Resizable(h: Heap, b: Blk, size: int, limit: int)
    requires Inv(h) && b in LiveOf(h.blocks)
  {
    size != 0 && Moves(h, b, TaggedSize(size) / 8) ==> Serviceable(h, BlockBytes(TaggedSize(size)), limit)
  }

  /** The payload pointer that answers a request. */
  function Pointer(o: Outcome): int {
    if o.block.Some? then o.block.value.at + 1 else NULL
  }

  /** The words that both payloads have are equal. */
  ghost predicate Copied(w: seq<int>, b: Blk, w': seq<int>, m: Blk) {
    forall j :: 0 <= j < |Payload(w, b)| && j < |Payload(w', m)| ==> Payload(w', m)[j] == Payload(w, b)[j]
  }

  /** What happens to the blocks and to the list when free block `b` is taken. */
  lemma CarveSteps(h: Heap, b: Blk, need: int)
    requires Inv(h) && b in h.blocks && !b.alloc && b.n >= need >= MIN_WORDS
    ensures var i, c, rest := IndexOf(h.blocks, b), Carved(b, need), Without(h.free, {b});
            && 0 < i < |h.blocks| - 1
            && b !in rest
            && LiveOf(h.blocks) <= LiveOf(Splice(h.blocks, i, i + 1, c))
            && (|c| == 2 ==> c[1] in FreeOf(Splice(h.blocks, i, i + 1, c)) && c[1] !in rest)
            && Carve(h, b, need).heap
               == Heap(Splice(h.blocks, i, i + 1, c), if |c| == 2 then [c[1]] + rest else rest)
  {
    hide Tiles, NoFreeNeighbours;
    var i, c, rest := IndexOf(h.blocks, b), Carved(b, need), Without(h.free, {b});
    FreeIsInterior(h.blocks, Top(h), i);
    Interior(h, i);
    WithoutMembers(h.free, {b});
    assert forall x :: x in rest <==> x in Members(rest);
    SpliceLive(h.blocks, 0, Top(h), i, i + 1, c);
    assert h.blocks[i..i + 1] == [b];
    Single(b);
    if |c| == 2 {
      assert c[1..] == [c[1]];
      assert c[1] in FreeOf(c);
      Overlapping(h.blocks, 0, Top(h), b, c[1]);
    } else {
      assert [] + rest == rest;
    }
  }

  class Allocator {
    const lib: Memory
    const il: Inline
    var prologue: int
    var epilogue: int

    ghost predicate Valid()
      reads this, lib, il, il.mem
    {
      && lib.Valid() && lib.mem == il.mem
      && Inv(il.heap) && il.Represents()
      && lib.brk == 8 * Top(il.heap)
      && prologue == 0 && epilogue == Top(il.heap) - TAG_WORDS
    }

    constructor (base: int, words: nat)
      requires base > 0 && base % 8 == 0
      ensures lib.Valid() && lib.brk == 0 && lib.base == base
      ensures lib.mem == il.mem && il.mem.Length == words
      ensures fresh(lib) && fresh(il) && fresh(il.mem)
    {
      var m := new Memory(base, words);
      lib := m;
      il := new Inline(m.mem);
      prologue, epilogue := NULL, NULL;
    }

    /** `coalescing` has gathered blocks `lo..hi` of `h`, all of them free. */
    ghost predicate Gathering(h: Heap, lo: int, hi: int, w: seq<int>)
      reads il, il.mem
    {
      && Shape(h.blocks, Top(h)) && FreeExact(h) && 0 < lo < hi < |h.blocks|
      && (forall k :: lo <= k < hi ==> !h.blocks[k].alloc)
      && il.Represents() && il.heap == Gathered(h, lo, hi)
      && Keeps(w, il.mem[..], LiveOf(h.blocks))
    }

    /** The free block before the gathered one joins it. */
    method JoinPrev(prev: int, block: int, ghost h: Heap, ghost lo: int, ghost hi: int, ghost w: seq<int>)
      requires Gathering(h, lo, hi, w) && 1 < lo && !h.blocks[lo - 1].alloc
      requires prev == h.blocks[lo - 1].at && block == h.blocks[lo].at
      modifies il, il.mem
      ensures Gathering(h, lo - 1, hi, w)
    {
      hide Rep, Keeps, LiveOf, FreeOf, Members, Without, Splice, Tag, Tiles, Shape;
      ghost var p, g := h.blocks[lo - 1], il.heap;
      GatherPrev(h, lo, hi);
      GatheredFacts(h, lo, hi);
      StillListed(h, lo, hi, lo - 1);
      PairUnlisted(g, lo - 1, p);
      il.PullFreeBlock(prev, p);
      ghost var w1 := il.mem[..];
      il.BlockAt(lo - 1);
      il.BlockAt(lo);
      RepTiles(w1, il.first, il.heap);
      JoinedPair(g.blocks, Top(il.heap), lo - 1, false);
      var newSize := il.BlockSize(prev) + il.BlockSize(block);
      il.SetBlock(prev, newSize, false, lo - 1, lo + 1);
      ghost var s := LiveOf(h.blocks);
      KeepsTrans(w, old(il.mem[..]), w1, s, LiveOf(g.blocks), s);
      KeepsTrans(w, w1, il.mem[..], s, LiveOf(g.blocks) - LiveOf(g.blocks[lo - 1..lo + 1]), s);
    }

    /** The free block after the gathered one joins it. */
    method JoinNext(next: int, block: int, ghost h: Heap, ghost lo: int, ghost hi: int, ghost w: seq<int>)
      requires Gathering(h, lo, hi, w) && hi < |h.blocks| - 1 && !h.blocks[hi].alloc
      requires next == h.blocks[hi].at && block == h.blocks[lo].at
      modifies il, il.mem
      ensures Gathering(h, lo, hi + 1, w)
    {
      hide Rep, Keeps, LiveOf, FreeOf, Members, Without, Splice, Tag, Tiles, Shape;
      ghost var p, g := h.blocks[hi], il.heap;
      GatherNext(h, lo, hi);
      GatheredFacts(h, lo, hi);
      StillListed(h, lo, hi, hi);
      PairUnlisted(g, lo, p);
      il.PullFreeBlock(next, p);
      ghost var w1 := il.mem[..];
      il.BlockAt(lo);
      il.BlockAt(lo + 1);
      RepTiles(w1, il.first, il.heap);
      JoinedPair(g.blocks, Top(il.heap), lo, false);
      var newSize := il.BlockSize(next) + il.BlockSize(block);
      il.SetBlock(block, newSize, false, lo, lo + 2);
      ghost var s := LiveOf(h.blocks);
      KeepsTrans(w, old(il.mem[..]), w1, s, LiveOf(g.blocks), s);
      KeepsTrans(w, w1, il.mem[..], s, LiveOf(g.blocks) - LiveOf(g.blocks[lo..lo + 2]), s);
    }

    /** The gathered block goes on the list. */
    method Finish(block: int, ghost h: Heap, ghost lo: int, ghost hi: int, ghost w: seq<int>)
      requires Gathering(h, lo, hi, w) && block == h.blocks[lo].at
      modifies il, il.mem
      ensures il.Represents() && il.heap == JoinFree(h, lo, hi)
      ensures Keeps(w, il.mem[..], LiveOf(h.blocks))
    {
      hide Rep, Keeps, LiveOf, Members, Without, Splice, Tag, Tiles, Shape;
      GatheredFacts(h, lo, hi);
      ghost var w1, m := il.mem[..], il.heap.blocks[lo];
      il.InsertFreeBlock(block, m);
      KeepsTrans(w, w1, il.mem[..], LiveOf(h.blocks), LiveOf(h.blocks), LiveOf(h.blocks));
    }

    /** What `coalescing` reads of the gathered block and its neighbours. */
    lemma AroundGathered(h: Heap, lo: int, hi: int, w: seq<int>)
      requires Gathering(h, lo, hi, w)
      ensures forall k :: (k == lo - 1 || k == lo || k == hi) ==>
                && 0 <= h.blocks[k].at < il.mem.Length
                && il.BlockAllocated(h.blocks[k].at) == h.blocks[k].alloc
    {
      hide Rep, Shape, FreeExact, Keeps, LiveOf, Members, FreeOf, Without, Tag;
      assert il.heap.blocks[lo - 1] == h.blocks[lo - 1];
      assert il.heap.blocks[lo] == Joined(h.blocks, lo, hi, false);
      assert il.heap.blocks[lo + 1] == h.blocks[hi];
      il.BlockAt(lo - 1);
      il.BlockAt(lo);
      il.BlockAt(lo + 1);
    }

    method Coalescing(block: int, ghost i: int)
      requires il.Represents() && FreeExact(il.heap)
      requires 0 < i < |il.heap.blocks| - 1 && il.heap.blocks[i].at == block && !il.heap.blocks[i].alloc
      modifies il, il.mem
      ensures il.Represents()
      ensures il.heap == Coalesce(old(il.heap), i)
      ensures Keeps(old(il.mem[..]), il.mem[..], LiveOf(old(il.heap.blocks)))
    {
      ghost var h, w := il.heap, il.mem[..];
      ghost var lo, hi := i, i + 1;
      il.BlockAt(i);
      assert Shape(h.blocks, Top(h)) && h.blocks[0].alloc && h.blocks[|h.blocks| - 1].alloc;
      hide Rep, Shape, FreeExact, Keeps, LiveOf, Members, FreeOf, Without, Splice, Tag, JoinFree;
      var next := il.BlockNext(block);
      var prev := il.BlockPrev(block);
      GatherStart(h, i);
      ListedFree(h, i);
      il.PullFreeBlock(block, h.blocks[i]);
      AroundGathered(h, lo, hi, w);
      if !il.BlockAllocated(prev) {
        JoinPrev(prev, block, h, lo, hi, w);
        lo := i - 1;
        AroundGathered(h, lo, hi, w);
      }
      if !il.BlockAllocated(next) {
        if !il.BlockAllocated(prev) {
          JoinNext(next, prev, h, lo, hi, w);
          Finish(prev, h, lo, hi + 1, w);
          return;
        } else {
          JoinNext(next, block, h, lo, hi, w);
          Finish(block, h, lo, hi + 1, w);
          return;
        }
      }
      if !il.BlockAllocated(prev) {
        Finish(prev, h, lo, hi, w);
      } else {
        Finish(block, h, lo, hi, w);
      }
    }

    method MmInit() returns (r: int)
      requires lib.Valid() && lib.brk == 0 && lib.mem == il.mem
      modifies this, lib, il, il.mem
      ensures r == 0 || r == -1
      ensures r == 0 <==> 32 <= 8 * lib.mem.Length
      ensures r == 0 ==> Valid() && il.heap == INITIAL
    {
      il.first := NULL;
      var p := lib.Sbrk(16);
      if p == -1 {
        return -1;
      }
      prologue := p / 8;
      p := lib.Sbrk(16);
      if p == -1 {
        return -1;
      }
      epilogue := p / 8;
      il.BlockSetSizeAndAllocated(prologue, 16, true);
      il.BlockSetSizeAndAllocated(epilogue, 16, true);
      InitialInv();
      il.heap := INITIAL;
      return 0;
    }

    /** The body of the search loop when `curr` is large enough: take it, and split off the
        rest if that is worth a block. */
    method TakeBlock(curr: int, bSize: int, ghost b: Blk)
      requires il.Represents() && Inv(il.heap) && b in il.heap.free && curr == b.at
      requires bSize % 8 == 0 && bSize >= 32 && 8 * b.n >= bSize
      modifies il, il.mem
      ensures b in old(il.heap.blocks) && !b.alloc
      ensures il.Represents() && il.heap == Carve(old(il.heap), b, bSize / 8).heap
      ensures Keeps(old(il.mem[..]), il.mem[..], LiveOf(old(il.heap.blocks)))
    {
      ghost var h, w, s, need := il.heap, il.mem[..], LiveOf(il.heap.blocks), bSize / 8;
      FreeInBlocks(h, IndexOf(h.free, b));
      ghost var i, c := IndexOf(h.blocks, b), Carved(b, need);
      CarveSteps(h, b, need);
      Single(b);
      hide Inv, Rep, Keeps, LiveOf, Members, FreeOf, Without, Splice, Tag, IndexOf, Carve, Carved;
      il.PullFreeBlock(curr, b);
      ghost var w1 := il.mem[..];
      il.BlockAt(i);
      var freeSize := il.BlockSize(curr) - bSize;
      CarvedLength(b, need);
      if freeSize >= 32 {
        il.SplitBlock(curr, bSize, freeSize, i);
        ghost var w2 := il.mem[..];
        il.InsertFreeBlock(il.BlockNext(curr), c[1]);
        KeepsTrans(w, w1, w2, s, s, s);
        KeepsTrans(w, w2, il.mem[..], s, LiveOf(il.heap.blocks), s);
      } else {
        il.MarkBlock(curr, true, i);
        KeepsTrans(w, w1, il.mem[..], s, s - LiveOf([b]), s);
      }
    }

    /** The heap extension: a new block where the epilogue was. */
    method ExtendHeap(bSize: int) returns (p: int)
      requires Valid() && bSize % 8 == 0 && bSize >= 32 && Faithful(bSize, lib.brk, 8 * il.mem.Length)
      modifies this, lib, il`heap, il.mem
      ensures Valid()
      ensures var fits := bSize < 0x8000_0000 && Top(old(il.heap)) + bSize / 8 <= il.mem.Length;
              var o := if fits then Grow(old(il.heap), bSize / 8) else Outcome(old(il.heap), None);
              il.heap == o.heap && p == Pointer(o)
      ensures p == NULL ==> il.mem[..] == old(il.mem[..]) && lib.brk == old(lib.brk)
      ensures Keeps(old(il.mem[..]), il.mem[..], LiveOf(old(il.heap.blocks)))
    {
      hide Rep, LiveOf, Tag, Keeps;
      ghost var h, w, need := il.heap, il.mem[..], bSize / 8;
      KeepsSame(w, LiveOf(h.blocks));
      RepTop(w, il.first, h);
      var newBlock := lib.SbrkLong(bSize);
      if newBlock == -1 {
        return NULL;
      }
      GrowGranted(h, need);
      GrowRep(w, il.first, h, need);
      newBlock := epilogue;
      il.BlockSetSizeAndAllocated(newBlock, bSize, true);
      TagBits(Blk(newBlock, need, true));
      assert il.mem[newBlock] == il.mem[..][newBlock] == Tag(Blk(newBlock, need, true));
      epilogue := il.BlockNext(newBlock);
      il.BlockSetSizeAndAllocated(epilogue, 16, true);
      il.heap := Grow(h, need).heap;
      return newBlock + 1;
    }

    /** The search loop of `mm_malloc`: once round the list from its head, stopping at the
        first block that is large enough. */
    method FindFit(bSize: int) returns (curr: int)
      requires il.Represents() && bSize % 8 == 0
      ensures var fl, k := il.heap.free, FirstFit(il.heap.free, bSize / 8);
              curr == if k < |fl| then fl[k].at else NULL
    {
      hide Rep, Tag, FirstFit;
      ghost var w, fl, k := il.mem[..], il.heap.free, 0;
      curr := il.first;
      ListEnd(w, curr, il.heap);
      while curr != NULL
        invariant 0 <= k <= |fl|
        invariant curr == if k == |fl| then NULL else fl[k].at
        invariant k < |fl| ==> curr >= 0
        invariant forall j :: 0 <= j < k ==> fl[j].n < bSize / 8
        decreases |fl| - k
      {
        ListStep(w, il.first, il.heap, k);
        TagBits(fl[k]);
        if il.BlockSize(curr) >= bSize {
          FirstFitIs(fl, bSize / 8, k);
          return;
        }
        curr := il.BlockFlink(curr);
        k := k + 1;
        if curr == il.first {
          curr := NULL;
          break;
        }
      }
      FirstFitIs(fl, bSize / 8, k);
    }

    /** `mm_malloc`: the first listed block that is large enough, or a larger heap. */
    method MmMalloc(size: int) returns (p: int)
      requires Valid() && Serviceable(il.heap, BlockBytes(size), il.mem.Length)
      modifies this, lib, il, il.mem
      ensures Valid()
      ensures size == 0 ==> p == NULL && il.heap == old(il.heap)
      ensures size != 0 ==>
                var o := Malloc(old(il.heap), NeedWords(size), il.mem.Length);
                il.heap == o.heap && p == Pointer(o)
      ensures p == NULL ==> il.mem[..] == old(il.mem[..]) && lib.brk == old(lib.brk)
      ensures Keeps(old(il.mem[..]), il.mem[..], LiveOf(old(il.heap.blocks)))
    {
      hide Inv, Rep, LiveOf, Tag, Keeps, Members, FreeOf, Carve, Grow, Malloc;
      ghost var h := il.heap;
      KeepsSame(il.mem[..], LiveOf(h.blocks));
      var bSize := TaggedSize(size);
      if size == 0 {
        return NULL;
      }
      if bSize < 32 {
        bSize := 32;
      }
      MallocBy(h, bSize / 8, il.mem.Length);
      var curr := FindFit(bSize);
      if curr != NULL {
        TakeBlock(curr, bSize, h.free[FirstFit(h.free, bSize / 8)]);
        return curr + 1;
      }
      p := ExtendHeap(bSize);
    }

    /** `mm_free` of the payload of block `b`.  A block that is free already is left alone. */
    method MmFree(ptr: int, ghost b: Blk)
      requires Valid()
      requires ptr == NULL || (ptr == b.at + 1 && b in il.heap.blocks && b.n >= MIN_WORDS)
      modifies il, il.mem
      ensures Valid()
      ensures ptr == NULL || !b.alloc ==> il.heap == old(il.heap) && il.mem[..] == old(il.mem[..])
      ensures ptr != NULL && b.alloc ==> il.heap == Free(old(il.heap), b)
      ensures Keeps(old(il.mem[..]), il.mem[..], LiveOf(old(il.heap.blocks)) - {b})
    {
      ghost var h, w, s := il.heap, il.mem[..], LiveOf(il.heap.blocks);
      KeepsSame(w, s - {b});
      if ptr == NULL {
        return;
      }
      var block := ptr - 1;
      ghost var i, c := IndexOf(h.blocks, b), b.(alloc := false);
      il.BlockAt(i);
      if !il.BlockAllocated(block) {
        return;
      }
      FreeFacts(h, b);
      UnmarkSteps(h, b);
      hide Inv, Rep, Shape, FreeExact, LiveOf, Tag, Keeps, Members, FreeOf, Splice, IndexOf, Coalesce;
      il.MarkBlock(block, false, i);
      ghost var w1 := il.mem[..];
      il.InsertFreeBlock(block, c);
      ghost var w2 := il.mem[..];
      Coalescing(block, i);
      KeepsTrans(w, w1, w2, s - {b}, s - {b}, s - {b});
      KeepsTrans(w, w2, il.mem[..], s - {b}, s - {b}, s - {b});
    }

    /** `memmove` of whole words into the payload of the live block `i`, from anywhere in the
        heap: the words are as if copied through a buffer. */
    method Memmove(dst: int, src: int, bytes: int, ghost i: int)
      requires il.Represents() && 0 < i < |il.heap.blocks| - 1 && Live(il.heap.blocks[i])
      requires bytes % 8 == 0 && 0 <= bytes
      requires il.heap.blocks[i].at + 1 <= dst && dst + bytes / 8 <= il.heap.blocks[i].End() - 1
      requires 0 <= src && src + bytes / 8 <= Top(il.heap)
      modifies il.mem
      ensures il.Represents()
      ensures 0 <= dst && dst + bytes / 8 <= il.mem.Length && Top(il.heap) <= il.mem.Length
      ensures il.mem[..] == Moved(old(il.mem[..]), dst, src, bytes / 8)
      ensures Keeps(old(il.mem[..]), il.mem[..], LiveOf(il.heap.blocks) - {il.heap.blocks[i]})
    {
      hide Rep, Keeps, LiveOf;
      ghost var w := il.mem[..];
      il.BlockAt(i);
      var buffer := il.mem[src..src + bytes / 8];
      forall j | 0 <= j < bytes / 8 {
        il.mem[dst + j] := buffer[j];
      }
      assert il.mem[..] == Moved(w, dst, src, bytes / 8);
      PayloadRep(w, il.mem[..], il.first, il.heap, i);
    }

    /** With its free neighbours pulled, blocks `lo..hi` around `b` become one allocated block. */
    method JoinLive(at: int, size: int, ghost h: Heap, ghost w: seq<int>, ghost b: Blk,
                    ghost pulled: set<Blk>, ghost lo: int, ghost hi: int)
      requires JoinSteps(h, b, pulled, lo, hi)
      requires il.Represents() && il.heap == h.(free := Without(h.free, pulled))
      requires Keeps(w, il.mem[..], LiveOf(h.blocks))
      requires at == h.blocks[lo].at && size == 8 * Joined(h.blocks, lo, hi, true).n
      modifies il`heap, il.mem
      ensures il.Represents() && il.heap == JoinAlloc(h, lo, hi).heap
      ensures var m := Joined(h.blocks, lo, hi, true);
              0 <= m.at && TAG_WORDS <= m.n && m.End() <= il.mem.Length && il.mem[..] == Retagged(old(il.mem[..]), m)
      ensures Keeps(w, il.mem[..], LiveOf(h.blocks) - {b})
    {
      hide Rep, Keeps, LiveOf, Members, Without, Splice;
      ghost var s := LiveOf(h.blocks);
      il.SetBlock(at, size, true, lo, hi);
      KeepsTrans(w, old(il.mem[..]), il.mem[..], s, s - {b}, s - {b});
    }

    /** A reallocation of block `b` of heap `h`, in memory `w`, came out as `o`: the data is at
        the front of the new payload, and no other live payload has changed. */
    ghost predicate Reallocated(h: Heap, w: seq<int>, b: Blk, o: Outcome, p: int)
      reads il, il.mem
    {
      && il.heap == o.heap && p == Pointer(o)
      && (o.block.Some? ==> Copied(w, b, il.mem[..], o.block.value))
      && (o.block.None? ==> il.mem[..] == w)
      && Keeps(w, il.mem[..], LiveOf(h.blocks) - {b})
    }

    /** The data of `b` moves to the front of the block `m` that has absorbed it. */
    method SlideDown(dst: int, ptr: int, bytes: int, ghost h: Heap, ghost w: seq<int>, ghost w1: seq<int>,
                     ghost b: Blk, ghost i: int, ghost m: Blk)
      requires il.Represents() && 0 < i < |il.heap.blocks| - 1 && il.heap.blocks[i] == m && Live(m)
      requires 0 <= m.at && m.End() <= |w1| == il.mem.Length && il.mem[..] == Retagged(w1, m)
      requires b in LiveOf(h.blocks) && b.n >= MIN_WORDS && m !in LiveOf(h.blocks) - {b}
      requires LiveOf(il.heap.blocks) == LiveOf(h.blocks) - {b} + {m}
      requires m.at + MIN_WORDS <= b.at && b.End() <= m.End() && b.End() < Top(il.heap)
      requires dst == m.at + 1 && ptr == b.at + 1 && bytes == 8 * b.n
      requires Keeps(w, w1, LiveOf(h.blocks)) && Keeps(w, il.mem[..], LiveOf(h.blocks) - {b})
      modifies il.mem
      ensures il.Represents()
      ensures Copied(w, b, il.mem[..], m) && Keeps(w, il.mem[..], LiveOf(h.blocks) - {b})
    {
      hide Rep, Keeps, LiveOf, Copied, Payload, Moved, Retagged;
      ghost var live := LiveOf(il.heap.blocks);
      RepTop(il.mem[..], il.first, il.heap);
      Memmove(dst, ptr, bytes, i);
      SlideFacts(h, w, w1, il.mem[..], b, m, live);
    }

    /** The free predecessor of `b` is large enough: take it and slide the data down. */
    method AbsorbPrev(prev: int, ptr: int, oldSize: int, ghost b: Blk, ghost k: int) returns (p: int)
      requires Valid() && Absorbing(il.heap, b, k, k - 1, k + 1)
      requires prev == il.heap.blocks[k - 1].at && ptr == b.at + 1 && oldSize == 8 * b.n
      modifies il, il.mem
      ensures Valid() && Reallocated(old(il.heap), old(il.mem[..]), b, JoinAlloc(old(il.heap), k - 1, k + 1), p)
    {
      hide Inv, Rep, Keeps, LiveOf, Members, FreeOf, Without, Splice, Tag, Copied, JoinSteps, JoinAlloc, Joined,
           Absorbing, Payload, Moved, Retagged;
      AbsorbAt(il.heap, b, k, k - 1, k + 1);
      ghost var h, w, f := il.heap, il.mem[..], il.heap.blocks[k - 1];
      AbsorbFacts(h, b, k, k - 1, k + 1, {f});
      AbsorbNeighbours(h, b, k, k - 1, k + 1);
      il.BlockAt(k);
      il.PullFreeBlock(prev, f);
      ghost var w1 := il.mem[..];
      il.BlockAt(k - 1);
      JoinLive(prev, oldSize + il.BlockSize(prev), h, w, b, {f}, k - 1, k + 1);
      ghost var m := Joined(h.blocks, k - 1, k + 1, true);
      SlideDown(prev + 1, ptr, oldSize, h, w, w1, b, k - 1, m);
      return prev + 1;
    }

    /** The free successor of `b` is large enough: the data stays where it is. */
    method AbsorbNext(original: int, next: int, oldSize: int, ghost b: Blk, ghost k: int) returns (p: int)
      requires Valid() && Absorbing(il.heap, b, k, k, k + 2)
      requires original == b.at && next == il.heap.blocks[k + 1].at && oldSize == 8 * b.n
      modifies il, il.mem
      ensures Valid() && Reallocated(old(il.heap), old(il.mem[..]), b, JoinAlloc(old(il.heap), k, k + 2), p)
    {
      hide Inv, Rep, Keeps, LiveOf, Members, FreeOf, Without, Splice, Tag, Copied, JoinSteps, JoinAlloc, Joined,
           Absorbing, Payload, Moved, Retagged;
      AbsorbAt(il.heap, b, k, k, k + 2);
      ghost var h, w, f := il.heap, il.mem[..], il.heap.blocks[k + 1];
      AbsorbFacts(h, b, k, k, k + 2, {f});
      AbsorbNeighbours(h, b, k, k, k + 2);
      il.PullFreeBlock(next, f);
      ghost var w1 := il.mem[..];
      il.BlockAt(k + 1);
      JoinLive(original, oldSize + il.BlockSize(next), h, w, b, {f}, k, k + 2);
      ghost var w2, m := il.mem[..], Joined(h.blocks, k, k + 2, true);
      CopyInPlace(w1, b, m);
      KeepsSame(w2, LiveOf(il.heap.blocks) - {m});
      AfterMove(h, w, w1, w2, w2, b, m, LiveOf(il.heap.blocks));
      return original + 1;
    }

    method PullBoth(next: int, prev: int, ghost f: Blk, ghost g: Blk)
      requires il.Represents() && f in il.heap.free && g in il.heap.free && f != g
      requires prev == f.at && next == g.at
      modifies il, il.mem
      ensures il.Represents() && il.heap == old(il.heap).(free := Without(old(il.heap.free), {f} + {g}))
      ensures Keeps(old(il.mem[..]), il.mem[..], LiveOf(il.heap.blocks))
    {
      hide Rep, Keeps, LiveOf, Members, Without;
      ghost var w, s := il.mem[..], LiveOf(il.heap.blocks);
      StillFree(il.heap, f, g);
      il.PullFreeBlock(next, g);
      ghost var w0 := il.mem[..];
      il.PullFreeBlock(prev, f);
      KeepsTrans(w, w0, il.mem[..], s, s, s);
    }

    /** Only both free neighbours together are large enough. */
    method AbsorbBoth(prev: int, next: int, ptr: int, oldSize: int, ghost b: Blk, ghost k: int) returns (p: int)
      requires Valid() && Absorbing(il.heap, b, k, k - 1, k + 2)
      requires prev == il.heap.blocks[k - 1].at && next == il.heap.blocks[k + 1].at
      requires ptr == b.at + 1 && oldSize == 8 * b.n
      modifies il, il.mem
      ensures Valid() && Reallocated(old(il.heap), old(il.mem[..]), b, JoinAlloc(old(il.heap), k - 1, k + 2), p)
    {
      hide Inv, Rep, Keeps, LiveOf, Members, FreeOf, Without, Splice, Tag, Copied, JoinSteps, JoinAlloc, Joined,
           Absorbing, Payload, Moved, Retagged;
      AbsorbAt(il.heap, b, k, k - 1, k + 2);
      ghost var h, w, f, g := il.heap, il.mem[..], il.heap.blocks[k - 1], il.heap.blocks[k + 1];
      AbsorbFacts(h, b, k, k - 1, k + 2, {f} + {g});
      AbsorbNeighbours(h, b, k, k - 1, k + 2);
      il.BlockAt(k);
      PullBoth(next, prev, f, g);
      ghost var w1 := il.mem[..];
      il.BlockAt(k - 1);
      il.BlockAt(k + 1);
      JoinLive(prev, oldSize + il.BlockSize(next) + il.BlockSize(prev), h, w, b, {f} + {g}, k - 1, k + 2);
      ghost var m := Joined(h.blocks, k - 1, k + 2, true);
      SlideDown(prev + 1, ptr, oldSize, h, w, w1, b, k - 1, m);
      return prev + 1;
    }

    /** The second half of a move: `oldSize` bytes, tags included, are copied into block `m`,
        and the old block is freed. */
    method CopyAndFree(p: int, ptr: int, oldSize: int, ghost s: set<Blk>, ghost w: seq<int>, ghost b: Blk, ghost m: Blk)
      requires Valid() && b in s && m !in s && LiveOf(il.heap.blocks) == s + {m}
      requires ptr == b.at + 1 && p == m.at + 1 && oldSize == 8 * b.n && m.n >= b.n + TAG_WORDS
      requires Keeps(w, il.mem[..], s)
      modifies il, il.mem
      ensures Valid() && il.heap == Free(old(il.heap), b)
      ensures Copied(w, b, il.mem[..], m) && Keeps(w, il.mem[..], s - {b})
    {
      hide Inv, Rep, Keeps, LiveOf, Copied, Moved, Free, Payload;
      ghost var h, w1 := il.heap, il.mem[..];
      RepTop(w1, il.first, h);
      PositionOf(h, m);
      PositionOf(h, b);
      Memmove(p, ptr, oldSize, IndexOf(h.blocks, m));
      ghost var w2 := il.mem[..];
      MmFree(ptr, b);
      RelocateFacts(s, w, w1, w2, il.mem[..], b, m);
    }

    /** Nothing around `b` is large enough: a new block, a copy, and the old block freed.  The
        request is for `bSize`, which leaves room for the over-long copy. */
    method Relocate(ptr: int, bSize: int, oldSize: int, ghost b: Blk) returns (p: int)
      requires Valid() && b in LiveOf(il.heap.blocks) && ptr == b.at + 1
      requires oldSize == 8 * b.n && bSize > oldSize && bSize % 8 == 0
      requires Serviceable(il.heap, BlockBytes(bSize), il.mem.Length)
      modifies this, lib, il, il.mem
      ensures Valid()
      ensures Reallocated(old(il.heap), old(il.mem[..]), b,
                          Move(old(il.heap), b, bSize / 8 + TAG_WORDS, il.mem.Length), p)
      ensures p == NULL ==> lib.brk == old(lib.brk)
    {
      hide Inv, Rep, Keeps, LiveOf, Copied, Payload, Malloc, Free, Move, Reallocated;
      ghost var h, w, need := il.heap, il.mem[..], bSize / 8 + TAG_WORDS;
      LiveBlock(h, b);
      TaggedNeed(bSize);
      MoveFacts(h, b, need, il.mem.Length);
      ghost var o := Malloc(h, need, il.mem.Length);
      p := MmMalloc(bSize);
      if p == NULL {
        KeepsSame(w, LiveOf(h.blocks) - {b});
        IsReallocated(h, w, b, o, p);
        return;
      }
      CopyAndFree(p, ptr, oldSize, LiveOf(h.blocks), w, b, o.block.value);
      IsReallocated(h, w, b, Outcome(il.heap, o.block), p);
    }

    lemma IsReallocated(h: Heap, w: seq<int>, b: Blk, o: Outcome, p: int)
      requires il.heap == o.heap && p == Pointer(o)
      requires o.block.Some? ==> Copied(w, b, il.mem[..], o.block.value)
      requires o.block.None? ==> il.mem[..] == w
      requires Keeps(w, il.mem[..], LiveOf(h.blocks) - {b})
      ensures Reallocated(h, w, b, o, p)
    {
    }

    /** The part of `mm_realloc` that makes the block of a non-NULL pointer large enough. */
    method Enlarge(ptr: int, size: int, ghost b: Blk) returns (p: int)
      requires Valid() && size != 0
      requires b in LiveOf(il.heap.blocks) && ptr == b.at + 1
      requires Resizable(il.heap, b, size, il.mem.Length)
      modifies this, lib, il, il.mem
      ensures Valid()
      ensures Reallocated(old(il.heap), old(il.mem[..]), b,
                          Resize(old(il.heap), b, TaggedSize(size) / 8, il.mem.Length), p)
      ensures p == NULL ==> lib.brk == old(lib.brk)
    {
      hide Inv, Rep, Keeps, LiveOf, Copied, Payload, Resize, JoinAlloc, Joined, Move, Reallocated, Without, Splice,
           IndexOf, Align, BlockBytes, Serviceable, Top, Absorbing;
      var original := ptr - 1;
      var bSize := TaggedSize(size);
      ghost var h, w := il.heap, il.mem[..];
      PositionOf(h, b);
      ghost var k := IndexOf(h.blocks, b);
      ResizeBy(h, b, bSize / 8, il.mem.Length);
      il.BlockAt(k);
      il.BlockAt(k - 1);
      il.BlockAt(k + 1);
      var oldSize := il.BlockSize(original);
      if oldSize >= bSize {
        Untouched(ptr, b);
        return ptr;
      }
      var next := il.BlockNext(original);
      var prev := il.BlockPrev(original);
      if !il.BlockAllocated(prev) && oldSize + il.BlockSize(prev) >= bSize {
        p := AbsorbPrev(prev, ptr, oldSize, b, k);
        return;
      } else if !il.BlockAllocated(next) && oldSize + il.BlockSize(next) >= bSize {
        p := AbsorbNext(original, next, oldSize, b, k);
        return;
      } else if !il.BlockAllocated(prev) && !il.BlockAllocated(next)
                && oldSize + il.BlockSize(prev) + il.BlockSize(next) >= bSize {
        p := AbsorbBoth(prev, next, ptr, oldSize, b, k);
        return;
      } else {
        p := Relocate(ptr, bSize, oldSize, b);
        return;
      }
    }

    lemma Untouched(ptr: int, b: Blk)
      requires ptr == b.at + 1
      ensures Reallocated(il.heap, il.mem[..], b, Outcome(il.heap, Some(b)), ptr)
    {
    }

    /** `mm_realloc` of the payload of live block `b`, or of NULL. */
    method MmRealloc(ptr: int, size: int, ghost b: Blk) returns (p: int)
      requires Valid()
      requires ptr == NULL ==> Serviceable(il.heap, BlockBytes(size), il.mem.Length)
      requires ptr != NULL ==>
                 b in LiveOf(il.heap.blocks) && ptr == b.at + 1 && Resizable(il.heap, b, size, il.mem.Length)
      modifies this, lib, il, il.mem
      ensures Valid()
      ensures ptr == NULL ==>
                && p == NULL && Keeps(old(il.mem[..]), il.mem[..], LiveOf(old(il.heap.blocks)))
                && il.heap == if size == 0 then old(il.heap)
                              else Malloc(old(il.heap), NeedWords(size), il.mem.Length).heap
      ensures ptr != NULL && size == 0 ==>
                && p == NULL && il.heap == Free(old(il.heap), b)
                && Keeps(old(il.mem[..]), il.mem[..], LiveOf(old(il.heap.blocks)) - {b})
      ensures ptr != NULL && size != 0 ==>
                && Reallocated(old(il.heap), old(il.mem[..]), b,
                               Resize(old(il.heap), b, TaggedSize(size) / 8, il.mem.Length), p)
                && (p == NULL ==> lib.brk == old(lib.brk))
    {
      hide Inv, Rep, Keeps, LiveOf, Copied, Resize, Reallocated, Malloc, Free, Resizable;
      if ptr == NULL {
        var lost := MmMalloc(size);
      } else if size == 0 {
        LiveBlock(il.heap, b);
        MmFree(ptr, b);
        return NULL;
      } else {
        p := Enlarge(ptr, size, b);
        return;
      }
      return NULL;
    }
  }

  function Moved(w: seq<int>, dst: int, src: int, n: int): seq<int>
    requires 0 <= n && 0 <= dst && dst + n <= |w| && 0 <= src && src + n <= |w|
  {
    w[..dst] + w[src..src + n] + w[dst + n..]
  }

  lemma AbsorbAt(h: Heap, b: Blk, k: int, lo: int, hi: int)
    requires Absorbing(h, b, k, lo, hi)
    ensures 0 < k < |h.blocks| - 1 && 0 <= lo < hi <= |h.blocks|
    ensures JoinAlloc(h, lo, hi).block == Some(Joined(h.blocks, lo, hi, true))
  {
  }

  lemma AbsorbNeighbours(h: Heap, b: Blk, k: int, lo: int, hi: int)
    requires Absorbing(h, b, k, lo, hi)
    ensures lo < k ==> h.blocks[k - 1] in h.free && h.blocks[k - 1].n >= MIN_WORDS && h.blocks[k - 1].End() == b.at
    ensures k + 1 < hi ==> h.blocks[k + 1] in h.free && h.blocks[k + 1].n >= MIN_WORDS && b.End() == h.blocks[k + 1].at
    ensures 0 <= h.blocks[k - 1].at && b.End() < Top(h)
    ensures h.blocks[k] == b && b in LiveOf(h.blocks) && b.n >= MIN_WORDS
  {
    Interior(h, k);
    TilesBounds(h.blocks, 0, Top(h));
    if lo < k {
      ListedFree(h, k - 1);
      FreeIsInterior(h.blocks, Top(h), k - 1);
    }
    if k + 1 < hi {
      ListedFree(h, k + 1);
      FreeIsInterior(h.blocks, Top(h), k + 1);
    }
  }

  lemma AbsorbFacts(h: Heap, b: Blk, k: int, lo: int, hi: int, pulled: set<Blk>)
    requires Absorbing(h, b, k, lo, hi)
    requires pulled == (if lo < k then {h.blocks[k - 1]} else {}) + (if k + 1 < hi then {h.blocks[k + 1]} else {})
    ensures JoinSteps(h, b, pulled, lo, hi)
    ensures var m, o := Joined(h.blocks, lo, hi, true), JoinAlloc(h, lo, hi);
            && m.at == h.blocks[lo].at && m.n == Gained(h.blocks, k, lo, hi)
            && Inv(o.heap) && Top(o.heap) == Top(h)
            && 0 < lo < |o.heap.blocks| - 1 && o.heap.blocks[lo] == m && Live(m)
            && m !in LiveOf(h.blocks) - {b}
            && LiveOf(o.heap.blocks) == LiveOf(h.blocks) - {b} + {m}
  {
    hide Tiles, NoFreeNeighbours, Without;
    AbsorbNeighbours(h, b, k, lo, hi);
    AbsorbSlice(h, b, k, lo, hi);
    AbsorbGranted(h, b, k, lo, hi);
    JoinStepsHold(h, b, pulled, lo, hi);
    JoinedTiles(h.blocks, Top(h), lo, hi, true);
  }

  /** Pulling `g` leaves `f` on the list, and the two pulls together drop both. */
  lemma StillFree(h: Heap, f: Blk, g: Blk)
    requires f in h.free && f != g
    ensures f in Without(h.free, {g})
    ensures Without(Without(h.free, {g}), {f}) == Without(h.free, {f} + {g})
  {
    WithoutMembers(h.free, {g});
    assert f in Members(Without(h.free, {g}));
    WithoutTwice(h.free, {g}, {f});
    assert {g} + {f} == {f} + {g};
  }

  lemma SlideFacts(h: Heap, w: seq<int>, w1: seq<int>, w3: seq<int>, b: Blk, m: Blk, live: set<Blk>)
    requires b in LiveOf(h.blocks) && m !in LiveOf(h.blocks) - {b} && live == LiveOf(h.blocks) - {b} + {m}
    requires 0 <= m.at && m.n >= MIN_WORDS && b.n >= MIN_WORDS
    requires m.at + MIN_WORDS <= b.at && b.End() <= m.End() <= |w1| && b.End() < |w1|
    requires w3 == Moved(Retagged(w1, m), m.at + 1, b.at + 1, b.n)
    requires Keeps(w, w1, LiveOf(h.blocks)) && Keeps(w, Retagged(w1, m), LiveOf(h.blocks) - {b})
    requires Keeps(Retagged(w1, m), w3, live - {m})
    ensures Keeps(w, w3, LiveOf(h.blocks) - {b})
    ensures Copied(w, b, w3, m)
  {
    hide Keeps, LiveOf, Copied, Payload, Moved, Retagged;
    CopyMoved(w1, b, m);
    AfterMove(h, w, w1, Retagged(w1, m), w3, b, m, live);
  }

  /** The plan that `mm_realloc` follows. */
  lemma ResizeBy(h: Heap, b: Blk, need: int, limit: int)
    requires Inv(h) && b in LiveOf(h.blocks)
    ensures var k := IndexOf(h.blocks, b);
            && 0 < k < |h.blocks| - 1
            && match ResizePlan(h.blocks, k, need)
               case Keep => Resize(h, b, need, limit) == Outcome(h, Some(b))
               case Absorb(lo, hi) => Absorbing(h, b, k, lo, hi) && 0 <= lo < hi <= |h.blocks|
                                      && Resize(h, b, need, limit) == JoinAlloc(h, lo, hi)
                                      && JoinAlloc(h, lo, hi).block == Some(Joined(h.blocks, lo, hi, true))
                                      && Joined(h.blocks, lo, hi, true).at >= 0
               case Relocate => need > b.n && Resize(h, b, need, limit) == Move(h, b, need + TAG_WORDS, limit)
  {
    PositionOf(h, b);
    TilesBounds(h.blocks, 0, Top(h));
  }

  /** A multiple of 8 asks for exactly its tags more. */
  lemma TaggedNeed(bytes: int)
    requires bytes % 8 == 0 && bytes >= 16
    ensures NeedWords(bytes) == bytes / 8 + TAG_WORDS
  {
  }

  lemma LiveBlock(h: Heap, b: Blk)
    requires b in LiveOf(h.blocks)
    ensures b in h.blocks && Live(b)
  {
  }

  lemma PositionOf(h: Heap, b: Blk)
    requires Inv(h) && b in LiveOf(h.blocks)
    ensures b in h.blocks && Live(b)
    ensures var i := IndexOf(h.blocks, b); 0 < i < |h.blocks| - 1
    ensures 0 <= b.at && b.End() < Top(h)
  {
    Interior(h, IndexOf(h.blocks, b));
    TilesBounds(h.blocks, 0, Top(h));
  }

  lemma MoveFacts(h: Heap, b: Blk, need: int, limit: int)
    requires Inv(h) && b in LiveOf(h.blocks) && need >= b.n + TAG_WORDS
    ensures var o := Malloc(h, need, limit);
            && (o.block.None? ==> o.heap == h && Move(h, b, need, limit) == o)
            && (o.block.Some? ==>
                  var m := o.block.value;
                  && Inv(o.heap) && LiveOf(o.heap.blocks) == LiveOf(h.blocks) + {m}
                  && b in LiveOf(o.heap.blocks) && m in LiveOf(o.heap.blocks) && m !in LiveOf(h.blocks)
                  && m.n >= need && m.at >= 0
                  && Move(h, b, need, limit) == Outcome(Free(o.heap, b), o.block))
  {
    PositionOf(h, b);
    MallocFacts(h, need, limit);
    var o := Malloc(h, need, limit);
    if o.block.Some? {
      assert o.block.value in LiveOf(o.heap.blocks);
      PositionOf(o.heap, o.block.value);
    }
  }

  lemma RelocateFacts(s: set<Blk>, w: seq<int>, w1: seq<int>, w2: seq<int>, w3: seq<int>, b: Blk, m: Blk)
    requires b in s && m !in s && b.n >= MIN_WORDS && m.n >= b.n + TAG_WORDS
    requires 0 <= m.at && 0 <= b.at && m.End() <= |w1| && b.End() < |w1|
    requires w2 == Moved(w1, m.at + 1, b.at + 1, b.n)
    requires Keeps(w, w1, s) && Keeps(w1, w2, s + {m} - {m}) && Keeps(w2, w3, s + {m} - {b})
    ensures Copied(w, b, w3, m)
    ensures Keeps(w, w3, s - {b})
  {
    assert Payload(w1, b) == Payload(w, b) && Payload(w3, m) == Payload(w2, m);
    assert Copied(w1, b, w2, m) by {
      var p, q := Payload(w1, b), Payload(w2, m);
      forall j | 0 <= j < |p| && j < |q|
        ensures q[j] == p[j]
      {
        assert w2[m.at + 1 + j] == w1[b.at + 1 + j];
      }
    }
    KeepsTrans(w, w1, w2, s, s + {m} - {m}, s - {b});
    KeepsTrans(w, w2, w3, s - {b}, s + {m} - {b}, s - {b});
  }

  /** The frame and the copied data, over pulling, joining and moving. */
  lemma AfterMove(h: Heap, w: seq<int>, w1: seq<int>, w2: seq<int>, w3: seq<int>, b: Blk, m: Blk, live: set<Blk>)
    requires b in LiveOf(h.blocks) && m !in LiveOf(h.blocks) - {b} && live == LiveOf(h.blocks) - {b} + {m}
    requires Keeps(w, w1, LiveOf(h.blocks)) && Keeps(w, w2, LiveOf(h.blocks) - {b}) && Keeps(w2, w3, live - {m})
    requires Copied(w1, b, w3, m)
    ensures Keeps(w, w3, LiveOf(h.blocks) - {b})
    ensures Copied(w, b, w3, m)
  {
    assert Payload(w1, b) == Payload(w, b);
    CopyFrom(w, w1, b, w3, m);
    KeepsTrans(w, w2, w3, LiveOf(h.blocks) - {b}, live - {m}, LiveOf(h.blocks) - {b});
  }

  /** Joining `b` with the free blocks around it, once those are `pulled`. */
  ghost predicate JoinSteps(h: Heap, b: Blk, pulled: set<Blk>, lo: int, hi: int) {
    && 0 < lo < hi < |h.blocks|
    && var slice := h.blocks[lo..hi];
    && var rest := Without(h.free, pulled);
    && Without(h.free, Members(slice)) == rest
    && Members(rest) !! Members(slice)
    && LiveOf(slice) == {b}
  }

  lemma JoinStepsHold(h: Heap, b: Blk, pulled: set<Blk>, lo: int, hi: int)
    requires FreeExact(h) && b in LiveOf(h.blocks) && 0 < lo < hi < |h.blocks|
    requires LiveOf(h.blocks[lo..hi]) == {b} && pulled == Members(h.blocks[lo..hi]) - {b}
    ensures JoinSteps(h, b, pulled, lo, hi)
  {
    var s := Members(h.blocks[lo..hi]);
    forall k | 0 <= k < |h.free|
      ensures h.free[k] in s <==> h.free[k] in pulled
    {
      FreeInBlocks(h, k);
    }
    WithoutSame(h.free, s, pulled);
    WithoutMembers(h.free, s);
  }

  /** The words of `b`'s payload, moved to the front of the payload of a block that covers
      `b` and starts at least a minimal block earlier, although `b.n` words are copied. */
  lemma CopyMoved(w: seq<int>, b: Blk, m: Blk)
    requires 0 <= m.at && b.n >= MIN_WORDS && m.at + MIN_WORDS <= b.at && b.End() <= m.End() <= |w| && b.End() < |w|
    ensures m.at + 1 + b.n <= m.End() - 1
    ensures Copied(w, b, Moved(Retagged(w, m), m.at + 1, b.at + 1, b.n), m)
  {
    var w' := Moved(Retagged(w, m), m.at + 1, b.at + 1, b.n);
    forall j | 0 <= j < |Payload(w, b)| && j < |Payload(w', m)|
      ensures Payload(w', m)[j] == Payload(w, b)[j]
    {
      assert w'[m.at + 1 + j] == Retagged(w, m)[b.at + 1 + j];
    }
  }

  lemma CopyInPlace(w: seq<int>, b: Blk, m: Blk)
    requires 0 <= m.at == b.at && MIN_WORDS <= b.n < m.n && m.End() <= |w|
    ensures Copied(w, b, Retagged(w, m), m)
  {
  }

  /** Copying is unaffected by what happened to other words before. */
  lemma CopyFrom(w: seq<int>, w1: seq<int>, b: Blk, w': seq<int>, m: Blk)
    requires Payload(w1, b) == Payload(w, b) && Copied(w1, b, w', m)
    ensures Copied(w, b, w', m)
  {
  }

  /** What `mm_free` does before it coalesces. */
  lemma UnmarkSteps(h: Heap, b: Blk)
    requires Inv(h) && b in LiveOf(h.blocks)
    ensures var i, c := IndexOf(h.blocks, b), b.(alloc := false);
            var h' := Unmark(h, i);
            && 0 < i < |h.blocks| - 1 && h.blocks[i] !in h.free && LiveOf([b]) == {b}
            && |h'.blocks| == |h.blocks| && h'.blocks[i] == c && FreeExact(h') && c in FreeOf(h'.blocks)
            && c !in h.free
            && LiveOf(h'.blocks) == LiveOf(h.blocks) - {b}
            && Free(h, b) == Coalesce(h', i)
  {
    UnmarkFacts(h, b);
    LiveUnlisted(h.blocks, h.free, b);
    Single(b);
    var h' := Unmark(h, IndexOf(h.blocks, b));
    assert h'.free[0] == b.(alloc := false);
    assert h'.free[0] in Members(h'.free);
    forall k | 0 <= k < |h.free|
      ensures h.free[k] != h'.free[0]
    {
      assert h'.free[k + 1] == h.free[k];
    }
  }

  lemma FirstFitIs(fl: seq<Blk>, need: int, k: int)
    requires 0 <= k <= |fl| && (forall j :: 0 <= j < k ==> fl[j].n < need)
    requires k < |fl| ==> fl[k].n >= need
    ensures FirstFit(fl, need) == k
  {
  }

  /** The two ways of serving a request. */
  lemma MallocBy(h: Heap, need: int, limit: int)
    requires Inv(h) && need >= MIN_WORDS
    ensures var k := FirstFit(h.free, need);
            if k < |h.free| then
              var b := h.free[k];
              && b in h.blocks && 0 <= b.at
              && var o := Carve(h, b, need);
              && Malloc(h, need, limit) == o && o.block.Some? && o.block.value.at == b.at
              && Inv(o.heap) && Top(o.heap) == Top(h)
            else
              Malloc(h, need, limit)
              == if 8 * need < 0x8000_0000 && Top(h) + need <= limit then Grow(h, need) else Outcome(h, None)
  {
    var k := FirstFit(h.free, need);
    if k < |h.free| {
      FreeInBlocks(h, k);
      CarveGranted(h, h.free[k], need);
      TilesBounds(h.blocks, 0, Top(h));
    }
  }

  lemma KeepsSame(w: seq<int>, s: set<Blk>)
    ensures Keeps(w, w, s)
  {
  }

  lemma RepTop(w: seq<int>, first: int, h: Heap)
    requires Rep(w, first, h)
    ensures 4 <= Top(h) <= |w|
  {
    TilesBounds(h.blocks, 0, Top(h));
    TilesOrdered(h.blocks, 0, Top(h));
  }

  lemma CarvedLength(b: Blk, need: int)
    ensures b.n - need >= MIN_WORDS ==> |Carved(b, need)| == 2 && Carved(b, need)[1].at == b.at + need
    ensures b.n - need < MIN_WORDS ==> Carved(b, need) == [b.(alloc := true)]
  {
  }

  lemma RepTiles(w: seq<int>, first: int, h: Heap)
    requires Rep(w, first, h)
    ensures Tiles(h.blocks, 0, Top(h))
  {
  }

  lemma ListedFree(h: Heap, i: int)
    requires FreeExact(h) && 0 <= i < |h.blocks| && !h.blocks[i].alloc
    ensures h.blocks[i] in h.free
  {
    assert h.blocks[i] in Members(h.free);
  }
}
