/** The inline layer: block accessors over the words of memory, and the free list
    whose links lie in the free blocks themselves.  A pointer is the index of the
    word it points to.  The `assert`s of the original are preconditions here. */
module MmInline {
  import opened Layout
  import opened AllocSpec
  import opened Words

  /** `x & 1` and `x & -2`. */
  function AllocBit(x: int): int { x % 2 }

  function SizeBits(x: int): int { x - x % 2 }

  /** `x | 1` or `x & -2`. */
  function WithBit(x: int, alloc: bool): int {
    SizeBits(x) + (if alloc then 1 else 0)
  }

  lemma TagBits(b: Blk)
    ensures SizeBits(Tag(b)) == 8 * b.n
    ensures AllocBit(Tag(b)) == if b.alloc then 1 else 0
    ensures Tag(b) / 8 == b.n
    ensures WithBit(Tag(b), true) == 8 * b.n + 1 && WithBit(Tag(b), false) == 8 * b.n
  {
    var half := 4 * b.n;
    assert Tag(b) == 2 * half + (if b.alloc then 1 else 0);
    assert Tag(b) % 2 == if b.alloc then 1 else 0;
  }

  /** A size with any bit in its lowest place still says where the end tag is, and takes any bit. */
  lemma TagSteps(size: int, t: int, alloc: bool)
    requires size % 8 == 0 && (t == size || t == size + 1)
    ensures t / 8 == size / 8 && WithBit(t, alloc) == Tag(Blk(0, size / 8, alloc))
  {
    var n := size / 8;
    assert size == 8 * n;
    TagBits(Blk(0, n, t != size));
  }

  lemma TwiceTagged(w: seq<int>, b: int, e: int, t: int, t': int)
    requires 0 <= b < e < |w|
    ensures w[b := t][e := t][b := t'][e := t'] == w[b := t'][e := t']
  {
  }

  class Inline {
    const mem: array<int>
    var first: int
    /** The heap that the words hold. */
    ghost var heap: Heap

    constructor (mem: array<int>)
      ensures this.mem == mem && first == NULL
    {
      this.mem := mem;
      first := NULL;
      heap := Heap([], []);
    }

    ghost predicate Represents()
      reads this, mem
    {
      Rep(mem[..], first, heap)
    }

    // ---------- reading ----------

    predicate BlockAllocated(b: int)
      reads mem
      requires 0 <= b < mem.Length
    {
      AllocBit(mem[b]) == 1
    }

    function BlockSize(b: int): int
      reads mem
      requires 0 <= b < mem.Length
    {
      SizeBits(mem[b])
    }

    /** `&b->payload[b->size / 8 - 2]` */
    function BlockEndTag(b: int): int
      reads mem
      requires 0 <= b < mem.Length && mem[b] >= 16
    {
      b + 1 + mem[b] / 8 - 2
    }

    function BlockEndSize(b: int): int
      reads mem
      requires 0 <= b < mem.Length && mem[b] >= 16 && BlockEndTag(b) < mem.Length
    {
      SizeBits(mem[BlockEndTag(b)])
    }

    predicate BlockEndAllocated(b: int)
      reads mem
      requires 0 <= b < mem.Length && mem[b] >= 16 && BlockEndTag(b) < mem.Length
    {
      AllocBit(mem[BlockEndTag(b)]) == 1
    }

    /** Pointer arithmetic is in bytes, so a size must be a whole number of words. */
    function BlockNext(b: int): int
      reads mem
      requires 0 <= b < mem.Length && BlockSize(b) % 8 == 0
    {
      b + BlockSize(b) / 8
    }

    function BlockPrevSize(b: int): int
      reads mem
      requires 0 < b <= mem.Length
    {
      SizeBits(mem[b - 1])
    }

    function BlockPrev(b: int): int
      reads mem
      requires 0 < b <= mem.Length && BlockPrevSize(b) % 8 == 0
    {
      b - BlockPrevSize(b) / 8
    }

    function BlockFlink(b: int): int
      reads mem
      requires 0 <= b && b + 1 < mem.Length && !BlockAllocated(b)
    {
      mem[b + 1]
    }

    function BlockBlink(b: int): int
      reads mem
      requires 0 <= b && b + 2 < mem.Length && !BlockAllocated(b)
    {
      mem[b + 2]
    }

    // ---------- writing ----------

    /** The new size goes in with whatever bit the header held. */
    method BlockSetSize(b: int, size: int)
      requires size % 8 == 0 && size >= 16
      requires 0 <= b && b + size / 8 <= mem.Length
      modifies mem
      ensures var t := size + AllocBit(old(mem[b]));
              mem[..] == old(mem[..])[b := t][b + size / 8 - 1 := t]
    {
      var t := size + AllocBit(mem[b]);
      mem[b] := t;
      mem[BlockEndTag(b)] := t;
      assert mem[..] == old(mem[..])[b := t][b + size / 8 - 1 := t];
    }

    method BlockSetAllocated(b: int, alloc: bool)
      requires 0 <= b < mem.Length && mem[b] >= 16 && BlockEndTag(b) < mem.Length
      modifies mem
      ensures mem[..] == old(mem[..])[b := WithBit(old(mem[b]), alloc)]
                                     [old(BlockEndTag(b)) := WithBit(old(mem[BlockEndTag(b)]), alloc)]
    {
      if alloc {
        mem[b] := SizeBits(mem[b]) + 1;
        mem[BlockEndTag(b)] := SizeBits(mem[BlockEndTag(b)]) + 1;
      } else {
        mem[b] := SizeBits(mem[b]);
        mem[BlockEndTag(b)] := SizeBits(mem[BlockEndTag(b)]);
      }
      assert mem[..] == old(mem[..])[b := WithBit(old(mem[b]), alloc)]
                                     [old(BlockEndTag(b)) := WithBit(old(mem[BlockEndTag(b)]), alloc)];
    }

    /** The stale bit does not survive: both tags come out exactly as asked. */
    method BlockSetSizeAndAllocated(b: int, size: int, alloc: bool)
      requires size % 8 == 0 && size >= 16
      requires 0 <= b && b + size / 8 <= mem.Length
      modifies mem
      ensures mem[..] == Retagged(old(mem[..]), Blk(b, size / 8, alloc))
    {
      ghost var w, e, t := mem[..], b + size / 8 - 1, size + AllocBit(mem[b]);
      BlockSetSize(b, size);
      TagSteps(size, t, alloc);
      assert mem[b] == mem[..][b] == t && mem[e] == mem[..][e] == t;
      BlockSetAllocated(b, alloc);
      TwiceTagged(w, b, e, t, Tag(Blk(b, size / 8, alloc)));
    }

    method BlockSetFlink(b: int, newFlink: int)
      requires 0 <= b && b + 1 < mem.Length && 0 <= newFlink < mem.Length
      requires !BlockAllocated(b) && !BlockAllocated(newFlink)
      modifies mem
      ensures mem[..] == old(mem[..])[b + 1 := newFlink]
    {
      mem[b + 1] := newFlink;
    }

    method BlockSetBlink(b: int, newBlink: int)
      requires 0 <= b && b + 2 < mem.Length && 0 <= newBlink < mem.Length
      requires !BlockAllocated(b) && !BlockAllocated(newBlink)
      modifies mem
      ensures mem[..] == old(mem[..])[b + 2 := newBlink]
    {
      mem[b + 2] := newBlink;
    }

    // ---------- the free list ----------

    /** Inserting a free block prepends it. */
    method InsertFreeBlock(fb: int, ghost b: Blk)
      requires Represents()
      requires b in FreeOf(heap.blocks) && b !in heap.free && fb == b.at
      modifies this, mem
      ensures Represents()
      ensures heap == old(heap).(free := [b] + old(heap.free))
      ensures Keeps(old(mem[..]), mem[..], LiveOf(heap.blocks))
    {
      hide Rep, Keeps, LiveOf, FreeOf;
      ghost var w, fl := mem[..], heap.free;
      InsertBounds(w, first, heap, b);
      TagBits(b);
      if first != NULL {
        TagBits(fl[0]);
        TagBits(fl[|fl| - 1]);
        var last := BlockBlink(first);
        BlockSetFlink(fb, first);
        BlockSetBlink(fb, last);
        BlockSetFlink(last, fb);
        BlockSetBlink(first, fb);
      } else {
        BlockSetFlink(fb, fb);
        BlockSetBlink(fb, fb);
      }
      InsertRep(w, mem[..], first, heap, b);
      first := fb;
      heap := heap.(free := [b] + heap.free);
    }

    /** Pulling a listed block removes it and keeps the order of the rest. */
    method PullFreeBlock(fb: int, ghost b: Blk)
      requires Represents()
      requires b in heap.free && fb == b.at
      modifies this, mem
      ensures Represents()
      ensures heap == old(heap).(free := Without(old(heap.free), {b}))
      ensures Keeps(old(mem[..]), mem[..], LiveOf(heap.blocks))
    {
      hide Rep, Keeps, LiveOf, Without;
      ghost var w, fl, f, k := mem[..], heap.free, first, IndexOf(heap.free, b);
      PullBounds(w, first, heap, k);
      TagBits(fl[k]);
      if first == fb {
        first := BlockFlink(fb);
        if first == fb {
          first := NULL;
          PullRep(w, mem[..], f, heap, k);
          heap := heap.(free := Without(heap.free, {b}));
          return;
        }
      }
      TagBits(fl[Around(k, |fl|)]);
      TagBits(fl[if k == 0 then |fl| - 1 else k - 1]);
      BlockSetFlink(BlockBlink(fb), BlockFlink(fb));
      BlockSetBlink(BlockFlink(fb), BlockBlink(fb));
      PullRep(w, mem[..], f, heap, k);
      heap := heap.(free := Without(heap.free, {b}));
    }

    // ---------- tags of a represented heap ----------

    /** What the accessors read at a block of the heap. */
    lemma BlockAt(i: int)
      requires Represents() && 0 <= i < |heap.blocks|
      ensures var b := heap.blocks[i];
              && 0 <= b.at && b.End() <= Top(heap) <= mem.Length && TAG_WORDS <= b.n
              && BlockSize(b.at) == 8 * b.n && BlockAllocated(b.at) == b.alloc
              && mem[b.at] >= 16 && BlockEndTag(b.at) == b.End() - 1
              && BlockEndSize(b.at) == 8 * b.n && BlockEndAllocated(b.at) == b.alloc
              && (i + 1 < |heap.blocks| ==> BlockNext(b.at) == heap.blocks[i + 1].at)
              && (0 < i ==> 0 < b.at && BlockPrevSize(b.at) % 8 == 0 && BlockPrev(b.at) == heap.blocks[i - 1].at)
    {
      hide Tiles, Circular, Tag, Members, FreeOf, Distinct;
      var bs, hi := heap.blocks, Top(heap);
      TilesBounds(bs, 0, hi);
      TilesNeighbours(bs, 0, hi, i);
      TagBits(bs[i]);
      assert mem[..][bs[i].at] == Tag(bs[i]) && mem[..][bs[i].End() - 1] == Tag(bs[i]);
      if 0 < i {
        TilesNeighbours(bs, 0, hi, i - 1);
        TagBits(bs[i - 1]);
        assert mem[..][bs[i - 1].End() - 1] == Tag(bs[i - 1]);
      }
    }

    /** `block_set_size_and_allocated` over the blocks `i..j`, none of them listed, turns
        them into one block. */
    method SetBlock(b: int, size: int, alloc: bool, ghost i: int, ghost j: int)
      requires Represents() && 0 < i < j < |heap.blocks|
      requires Members(heap.free) !! Members(heap.blocks[i..j])
      requires b == heap.blocks[i].at && size == 8 * Joined(heap.blocks, i, j, alloc).n
      modifies this`heap, mem
      ensures Represents()
      ensures heap == old(heap).(blocks := Splice(old(heap.blocks), i, j, [Joined(old(heap.blocks), i, j, alloc)]))
      ensures Keeps(old(mem[..]), mem[..], LiveOf(old(heap.blocks)) - LiveOf(old(heap.blocks)[i..j]))
      ensures var m := Joined(old(heap.blocks), i, j, alloc);
              0 <= m.at && TAG_WORDS <= m.n && m.End() <= mem.Length && mem[..] == Retagged(old(mem[..]), m)
    {
      hide Rep, Keeps, LiveOf, Splice, Members;
      ghost var m := Joined(heap.blocks, i, j, alloc);
      RetagRep(mem[..], first, heap, i, j, m);
      BlockSetSizeAndAllocated(b, size, alloc);
      heap := heap.(blocks := Splice(heap.blocks, i, j, [m]));
    }

    /** `block_set_allocated` on an unlisted block of the heap. */
    method MarkBlock(b: int, alloc: bool, ghost i: int)
      requires Represents() && 0 < i < |heap.blocks| - 1
      requires heap.blocks[i] !in heap.free && b == heap.blocks[i].at
      modifies this`heap, mem
      ensures Represents()
      ensures heap == old(heap).(blocks := Splice(old(heap.blocks), i, i + 1, [old(heap.blocks)[i].(alloc := alloc)]))
      ensures Keeps(old(mem[..]), mem[..], LiveOf(old(heap.blocks)) - LiveOf([old(heap.blocks)[i]]))
    {
      hide Rep, Keeps, LiveOf, Splice;
      ghost var w, c := mem[..], heap.blocks[i];
      ghost var m := c.(alloc := alloc);
      BlockAt(i);
      assert m == Joined(heap.blocks, i, i + 1, alloc);
      assert heap.blocks[i..i + 1] == [c];
      RetagRep(w, first, heap, i, i + 1, m);
      EndTags(i);
      TagBits(c);
      TagBits(m);
      BlockSetAllocated(b, alloc);
      assert mem[..] == Retagged(w, m);
      heap := heap.(blocks := Splice(heap.blocks, i, i + 1, [m]));
    }

    lemma EndTags(i: int)
      requires Represents() && 0 <= i < |heap.blocks|
      ensures var b := heap.blocks[i];
              && 0 <= b.at && b.End() <= mem.Length && TAG_WORDS <= b.n
              && mem[b.at] == Tag(b) && mem[b.End() - 1] == Tag(b)
    {
      assert mem[..][heap.blocks[i].at] == Tag(heap.blocks[i]);
      assert mem[..][heap.blocks[i].End() - 1] == Tag(heap.blocks[i]);
    }

    /** Setting the tags of an allocated block of `size` bytes at the front of the unlisted free
        block `i`, then those of the free remainder behind it. */
    method SplitBlock(b: int, size: int, rest: int, ghost i: int)
      requires Represents() && 0 < i < |heap.blocks| - 1
      requires heap.blocks[i] !in heap.free && !heap.blocks[i].alloc && b == heap.blocks[i].at
      requires size % 8 == 0 && size >= 32 && rest >= 32 && size + rest == 8 * heap.blocks[i].n
      modifies this`heap, mem
      ensures Represents()
      ensures heap == old(heap).(blocks := Splice(old(heap.blocks), i, i + 1, Carved(old(heap.blocks)[i], size / 8)))
      ensures Keeps(old(mem[..]), mem[..], LiveOf(old(heap.blocks)))
      ensures SizeBits(mem[b]) == size
    {
      hide Rep, Keeps, LiveOf, Splice, Tag;
      ghost var w, c := mem[..], Carved(heap.blocks[i], size / 8);
      CarveRep(w, first, heap, i, size / 8);
      BlockSetSizeAndAllocated(b, size, true);
      TagBits(c[0]);
      assert mem[b] == mem[..][b] == Tag(c[0]);
      BlockSetSizeAndAllocated(BlockNext(b), rest, false);
      assert mem[..] == Retagged(Retagged(w, c[0]), c[1]);
      assert mem[b] == mem[..][b] == Tag(c[0]);
      heap := heap.(blocks := Splice(heap.blocks, i, i + 1, c));
    }
  }
}
