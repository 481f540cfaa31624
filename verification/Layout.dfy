/** The address-ordered view of the heap: a sequence of blocks that tile a
    stretch of words.  Addresses are word indices from the heap's first word;
    a block's length `n` counts its two tag words. */
module Layout {

  datatype Blk = Blk(at: int, n: int, alloc: bool) {
    function End(): int { at + n }
  }

  /** The header and footer word of a block: its size in bytes plus the alloc bit. */
  function Tag(b: Blk): int {
    8 * b.n + (if b.alloc then 1 else 0)
  }

  /** The blocks lie back to back from word `lo` up to word `hi`, each with room for its tags. */
  ghost predicate Tiles(bs: seq<Blk>, lo: int, hi: int) {
    if bs == [] then lo == hi
    else bs[0].at == lo && bs[0].n >= 2 && Tiles(bs[1..], bs[0].End(), hi)
  }

  function Total(bs: seq<Blk>): int {
    if bs == [] then 0 else bs[0].n + Total(bs[1..])
  }

  lemma {:induction false} TilesTotal(bs: seq<Blk>, lo: int, hi: int)
    requires Tiles(bs, lo, hi)
    ensures hi == lo + Total(bs)
    ensures lo <= hi
  {
    if bs != [] {
      TilesTotal(bs[1..], bs[0].End(), hi);
    }
  }

  lemma {:induction false} TilesAppend(a: seq<Blk>, b: seq<Blk>, lo: int, hi: int)
    ensures Tiles(a + b, lo, hi) <==> Tiles(a, lo, lo + Total(a)) && Tiles(b, lo + Total(a), hi)
    ensures Total(a + b) == Total(a) + Total(b)
  {
    if a == [] {
      assert a + b == b;
    } else {
      assert (a + b)[1..] == a[1..] + b;
      TilesAppend(a[1..], b, lo + a[0].n, hi);
    }
  }

  lemma {:induction false} TilesBounds(bs: seq<Blk>, lo: int, hi: int)
    requires Tiles(bs, lo, hi)
    ensures forall b :: b in bs ==> lo <= b.at && 2 <= b.n && b.End() <= hi
  {
    if bs != [] {
      TilesTotal(bs[1..], bs[0].End(), hi);
      TilesBounds(bs[1..], bs[0].End(), hi);
      assert bs == [bs[0]] + bs[1..];
    }
  }

  /** Blocks appear in address order and never overlap. */
  lemma {:induction false} TilesOrdered(bs: seq<Blk>, lo: int, hi: int)
    requires Tiles(bs, lo, hi)
    ensures forall i, j :: 0 <= i < j < |bs| ==> bs[i].End() <= bs[j].at
  {
    if bs != [] {
      TilesOrdered(bs[1..], bs[0].End(), hi);
      TilesBounds(bs[1..], bs[0].End(), hi);
      forall i, j | 0 <= i < j < |bs|
        ensures bs[i].End() <= bs[j].at
      {
        assert bs[j] == bs[1..][j - 1];
        if i > 0 {
          assert bs[i] == bs[1..][i - 1];
        }
      }
    }
  }

  ghost predicate Apart(a: Blk, b: Blk) {
    a.End() <= b.at || b.End() <= a.at
  }

  lemma TilesApart(bs: seq<Blk>, lo: int, hi: int)
    requires Tiles(bs, lo, hi)
    ensures forall a, b :: a in bs && b in bs && a != b ==> Apart(a, b)
  {
    TilesOrdered(bs, lo, hi);
  }

  lemma TilesDistinct(bs: seq<Blk>, lo: int, hi: int)
    requires Tiles(bs, lo, hi)
    ensures forall i, j :: 0 <= i < j < |bs| ==> bs[i].at < bs[j].at
  {
    TilesOrdered(bs, lo, hi);
    TilesBounds(bs, lo, hi);
  }

  /** Each block ends where its successor begins. */
  lemma {:induction false} TilesNeighbours(bs: seq<Blk>, lo: int, hi: int, i: int)
    requires Tiles(bs, lo, hi) && 0 <= i < |bs|
    ensures i == 0 ==> bs[i].at == lo
    ensures i + 1 < |bs| ==> bs[i].End() == bs[i + 1].at
    ensures i + 1 == |bs| ==> bs[i].End() == hi
  {
    if i > 0 {
      TilesNeighbours(bs[1..], bs[0].End(), hi, i - 1);
    }
  }

  /** `bs` with the blocks `i..j` replaced by `mid`. */
  function Splice(bs: seq<Blk>, i: int, j: int, mid: seq<Blk>): seq<Blk>
    requires 0 <= i <= j <= |bs|
  {
    bs[..i] + mid + bs[j..]
  }

  /** A tiling can be cut in front of any of its blocks. */
  lemma TilesCut(bs: seq<Blk>, lo: int, hi: int, i: int)
    requires Tiles(bs, lo, hi) && 0 <= i <= |bs|
    ensures var at := if i < |bs| then bs[i].at else hi;
            Tiles(bs[..i], lo, at) && Tiles(bs[i..], at, hi)
  {
    assert bs == bs[..i] + bs[i..];
    TilesAppend(bs[..i], bs[i..], lo, hi);
  }

  lemma TilesJoin(a: seq<Blk>, b: seq<Blk>, lo: int, at: int, hi: int)
    requires Tiles(a, lo, at) && Tiles(b, at, hi)
    ensures Tiles(a + b, lo, hi)
  {
    TilesTotal(a, lo, at);
    TilesAppend(a, b, lo, hi);
  }

  lemma SpliceTiles(bs: seq<Blk>, lo: int, hi: int, i: int, j: int, mid: seq<Blk>)
    requires Tiles(bs, lo, hi) && 0 <= i < j <= |bs|
    requires Tiles(mid, bs[i].at, bs[j - 1].End())
    ensures Tiles(Splice(bs, i, j, mid), lo, hi)
    ensures Tiles(bs[..i], lo, bs[i].at)
    ensures Tiles(bs[j..], bs[j - 1].End(), hi)
  {
    TilesCut(bs, lo, hi, i);
    TilesCut(bs, lo, hi, j);
    TilesNeighbours(bs, lo, hi, j - 1);
    TilesJoin(bs[..i], mid, lo, bs[i].at, bs[j - 1].End());
    TilesJoin(bs[..i] + mid, bs[j..], lo, bs[j - 1].End(), hi);
  }

  function Members(bs: seq<Blk>): set<Blk> {
    set b | b in bs
  }

  function FreeOf(bs: seq<Blk>): set<Blk> {
    set b | b in bs && !b.alloc
  }

  lemma SpliceMembers(bs: seq<Blk>, lo: int, hi: int, i: int, j: int, mid: seq<Blk>)
    requires Tiles(bs, lo, hi) && 0 <= i <= j <= |bs|
    ensures Members(Splice(bs, i, j, mid)) == Members(bs) - Members(bs[i..j]) + Members(mid)
  {
    TilesDistinct(bs, lo, hi);
    assert bs == bs[..i] + bs[i..j] + bs[j..];
    forall b | b in bs[..i] || b in bs[j..]
      ensures b !in bs[i..j]
    {
    }
  }

  /** No two neighbouring blocks are both free. */
  ghost predicate NoFreeNeighbours(bs: seq<Blk>) {
    forall i, j :: 0 <= i && j == i + 1 && j < |bs| ==> bs[i].alloc || bs[j].alloc
  }

  lemma SpliceNoFreeNeighbours(bs: seq<Blk>, i: int, j: int, mid: seq<Blk>)
    requires 0 < i < j < |bs| && mid != []
    requires NoFreeNeighbours(bs[..i]) && NoFreeNeighbours(mid) && NoFreeNeighbours(bs[j..])
    requires bs[i - 1].alloc || mid[0].alloc
    requires bs[j].alloc || mid[|mid| - 1].alloc
    ensures NoFreeNeighbours(Splice(bs, i, j, mid))
  {
    var r := Splice(bs, i, j, mid);
    forall p, q | 0 <= p && q == p + 1 && q < |r|
      ensures r[p].alloc || r[q].alloc
    {
      if q < i {
        assert r[p] == bs[..i][p] && r[q] == bs[..i][q];
      } else if q == i {
        assert r[p] == bs[i - 1] && r[q] == mid[0];
      } else if q < i + |mid| {
        assert r[p] == mid[p - i] && r[q] == mid[q - i];
      } else if q == i + |mid| {
        assert r[p] == mid[|mid| - 1] && r[q] == bs[j];
      } else {
        var d := i + |mid|;
        assert r[p] == bs[j..][p - d] && r[q] == bs[j..][q - d];
      }
    }
  }

  lemma SliceNoFreeNeighbours(bs: seq<Blk>, i: int, j: int)
    requires NoFreeNeighbours(bs) && 0 <= i <= j <= |bs|
    ensures NoFreeNeighbours(bs[i..j])
  {
    forall p, q | 0 <= p && q == p + 1 && q < j - i
      ensures bs[i..j][p].alloc || bs[i..j][q].alloc
    {
      assert bs[i + p].alloc || bs[i + q].alloc;
    }
  }

  /** Cutting an allocated block out of, or growing one over, interior blocks. */
  lemma SpliceKeepsNoFreeNeighbours(bs: seq<Blk>, i: int, j: int, mid: seq<Blk>)
    requires 0 < i < j < |bs| && mid != []
    requires NoFreeNeighbours(bs) && NoFreeNeighbours(mid) && mid[0].alloc
    requires bs[j].alloc || mid[|mid| - 1].alloc
    ensures NoFreeNeighbours(Splice(bs, i, j, mid))
  {
    SliceNoFreeNeighbours(bs, 0, i);
    SliceNoFreeNeighbours(bs, j, |bs|);
    assert bs[0..i] == bs[..i] && bs[j..|bs|] == bs[j..];
    SpliceNoFreeNeighbours(bs, i, j, mid);
  }

  /** Joining the free block at `i` with its free neighbours. */
  lemma JoinNoFreeNeighbours(bs: seq<Blk>, i: int, lo: int, hi: int, m: Blk)
    requires 0 < lo <= i < hi < |bs|
    requires NoFreeNeighbours(bs[..i]) && NoFreeNeighbours(bs[i + 1..])
    requires bs[0].alloc && bs[|bs| - 1].alloc
    requires lo == if bs[i - 1].alloc then i else i - 1
    requires hi == if bs[i + 1].alloc then i + 1 else i + 2
    ensures NoFreeNeighbours(Splice(bs, lo, hi, [m]))
  {
    assert bs[lo - 1].alloc by {
      if lo < i {
        assert bs[..i][i - 2].alloc || bs[..i][i - 1].alloc;
      }
    }
    assert bs[hi].alloc by {
      if hi > i + 1 {
        assert bs[i + 1..][0].alloc || bs[i + 1..][1].alloc;
      }
    }
    SliceNoFreeNeighbours(bs[..i], 0, lo);
    SliceNoFreeNeighbours(bs[i + 1..], hi - i - 1, |bs| - i - 1);
    assert bs[..i][0..lo] == bs[..lo] && bs[i + 1..][hi - i - 1..|bs| - i - 1] == bs[hi..];
    SpliceNoFreeNeighbours(bs, lo, hi, [m]);
  }

  /** The position of a block of `bs`. */
  ghost function IndexOf(bs: seq<Blk>, b: Blk): (i: nat)
    requires b in bs
    ensures i < |bs| && bs[i] == b
  {
    var i :| 0 <= i < |bs| && bs[i] == b;
    i
  }
}
