/** The heap printout of the driver's REPL: a walk along the boundary tags from the first
    heap byte to the epilogue, which it finds from the last heap byte. */
module HeapWalk {
  import opened Layout
  import opened AllocSpec
  import opened Words
  import opened MmInline
  import opened Mm

  /** What is printed for a block; the links are printed for free blocks only. */
  datatype Line = Line(at: int, size: int, alloc: bool, next: int, prev: int)

  /** The line a block deserves: its free-list neighbours are those of the list itself. */
  ghost function LineOf(h: Heap, b: Blk): Line
    requires !b.alloc ==> b in h.free
  {
    if b.alloc then Line(b.at, 8 * b.n, true, NULL, NULL)
    else
      var k := IndexOf(h.free, b);
      Line(b.at, 8 * b.n, false,
           h.free[Around(k, |h.free|)].at, h.free[if k == 0 then |h.free| - 1 else k - 1].at)
  }

  ghost predicate Prints(h: Heap, line: Line, b: Blk) {
    (!b.alloc ==> b in h.free) && line == LineOf(h, b)
  }

  /** Going to the next block and back, or to the previous one and forth, is going nowhere. */
  lemma ThereAndBack(il: Inline, i: int)
    requires il.Represents() && 0 <= i && i + 1 < |il.heap.blocks|
    ensures var b, c := il.heap.blocks[i].at, il.heap.blocks[i + 1].at;
            && 0 <= b < il.mem.Length && il.BlockSize(b) % 8 == 0 && il.BlockNext(b) == c
            && 0 < c < il.mem.Length && il.BlockPrevSize(c) % 8 == 0 && il.BlockPrev(c) == b
  {
    hide Rep;
    il.BlockAt(i);
    il.BlockAt(i + 1);
  }

  method PrintHeap(a: Allocator) returns (lines: seq<Line>, faults: int)
    requires a.Valid()
    ensures faults == 0
    ensures var h := a.il.heap;
            && |lines| == |h.blocks| - 2
            && (forall i :: 0 <= i < |lines| ==> Prints(h, lines[i], h.blocks[i + 1]))
  {
    hide Inv, Rep, LineOf;
    ghost var h, i := a.il.heap, 1;
    Ends(h);
    a.il.BlockAt(0);
    var b := a.il.BlockNext((a.lib.HeapLo() - a.lib.base) / 8);
    var epilogue := (a.lib.HeapHi() - 16 + 1 - a.lib.base) / 8;
    lines, faults := [], 0;
    while b != epilogue
      invariant 0 < i <= |h.blocks| - 1 && b == h.blocks[i].at
      invariant faults == 0 && |lines| == i - 1
      invariant forall j :: 0 <= j < |lines| ==> Prints(h, lines[j], h.blocks[j + 1])
      decreases |h.blocks| - i
    {
      InTheMiddle(h, i);
      a.il.BlockAt(i);
      a.il.BlockAt(i + 1);
      if a.il.BlockAllocated(b) {
        lines := lines + [Line(b, a.il.BlockSize(b), true, NULL, NULL)];
        AllocatedLine(h, h.blocks[i]);
      } else {
        FreeLine(a.il, i);
        lines := lines + [Line(b, a.il.BlockSize(b), false, a.il.BlockFlink(b), a.il.BlockBlink(b))];
      }
      var s1, s2 := a.il.BlockSize(b), a.il.BlockEndSize(b);
      if s1 != s2 {
        faults := faults + 1;
      }
      if s1 < 32 {
        faults := faults + 1;
      }
      if a.il.BlockNext(b) > epilogue + 32 {
        faults := faults + 1;
      }
      b := a.il.BlockNext(b);
      i := i + 1;
    }
    LastOnly(h, i);
  }

  lemma Ends(h: Heap)
    requires Inv(h)
    ensures |h.blocks| >= 2 && h.blocks[0].at == 0 && h.blocks[|h.blocks| - 1].at == Top(h) - TAG_WORDS
  {
  }

  lemma AllocatedLine(h: Heap, b: Blk)
    requires b.alloc
    ensures LineOf(h, b) == Line(b.at, 8 * b.n, true, NULL, NULL)
  {
  }

  /** A block that does not start where the epilogue does is an interior block. */
  lemma InTheMiddle(h: Heap, i: int)
    requires Inv(h) && 0 < i < |h.blocks| && h.blocks[i].at != Top(h) - TAG_WORDS
    ensures i + 1 < |h.blocks| && h.blocks[i].n >= MIN_WORDS && h.blocks[i + 1].at <= Top(h)
  {
    TilesBounds(h.blocks, 0, Top(h));
  }

  lemma LastOnly(h: Heap, i: int)
    requires Inv(h) && 0 < i < |h.blocks| && h.blocks[i].at == Top(h) - TAG_WORDS
    ensures i == |h.blocks| - 1
  {
    TilesDistinct(h.blocks, 0, Top(h));
  }

  lemma FreeLine(il: Inline, i: int)
    requires il.Represents() && Inv(il.heap) && 0 <= i < |il.heap.blocks| && !il.heap.blocks[i].alloc
    ensures var b := il.heap.blocks[i];
            && b in il.heap.free && 0 <= b.at && b.at + 2 < il.mem.Length && !il.BlockAllocated(b.at)
            && LineOf(il.heap, b) == Line(b.at, 8 * b.n, false, il.BlockFlink(b.at), il.BlockBlink(b.at))
  {
    hide Inv, Rep, Shape, Tag;
    var b := il.heap.blocks[i];
    Listed(il.heap, i);
    il.BlockAt(i);
    PullBounds(il.mem[..], il.first, il.heap, IndexOf(il.heap.free, b));
  }

  lemma Listed(h: Heap, i: int)
    requires Inv(h) && 0 <= i < |h.blocks| && !h.blocks[i].alloc
    ensures h.blocks[i] in h.free
  {
    ListedFree(h, i);
  }
}
