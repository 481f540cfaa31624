/** How the words of memory hold a heap: a tag at both ends of every block, and in
    the payload of every free block the links of one circular list. */
module Words {
  import opened Layout
  import opened AllocSpec

  const NULL := -1

  /** Both ends of every block carry its tag. */
  ghost predicate Tagged(w: seq<int>, bs: seq<Blk>) {
    forall i :: 0 <= i < |bs| ==>
      && 0 <= bs[i].at && bs[i].n >= TAG_WORDS && bs[i].End() <= |w|
      && w[bs[i].at] == Tag(bs[i]) && w[bs[i].End() - 1] == Tag(bs[i])
  }

  /** The successor of position `j` around a circle of `n` positions. */
  function Around(j: int, n: int): int {
    if j + 1 == n then 0 else j + 1
  }

  /** Following first links from `first` visits exactly `fl`, in order and round again;
      second links run the other way. */
  ghost predicate Circular(w: seq<int>, first: int, fl: seq<Blk>) {
    && first == (if fl == [] then NULL else fl[0].at)
    && (forall k :: 0 <= k < |fl| ==> 0 <= fl[k].at && fl[k].at + 2 < |w|)
    && (forall j, k :: 0 <= j < |fl| && k == Around(j, |fl|) ==>
          w[fl[j].at + 1] == fl[k].at && w[fl[k].at + 2] == fl[j].at)
  }

  /** The words represent `h`, whose list may still lack some free blocks. */
  ghost predicate Rep(w: seq<int>, first: int, h: Heap) {
    && Shape(h.blocks, Top(h)) && Top(h) <= |w|
    && Tagged(w, h.blocks)
    && Circular(w, first, h.free)
    && Distinct(h.free)
    && Members(h.free) <= FreeOf(h.blocks)
  }

  function Payload(w: seq<int>, b: Blk): seq<int> {
    if 0 <= b.at && TAG_WORDS <= b.n && b.End() <= |w| then w[b.at + 1..b.End() - 1] else []
  }

  /** The payloads of the blocks in `s` are the same in both memories. */
  ghost predicate Keeps(w: seq<int>, w': seq<int>, s: set<Blk>) {
    |w| == |w'| && forall b :: b in s ==> Payload(w', b) == Payload(w, b)
  }

  ghost predicate SameOutside(w: seq<int>, w': seq<int>, lo: int, hi: int) {
    && |w| == |w'|
    && (forall i :: 0 <= i < |w| && !(lo <= i < hi) ==> w'[i] == w[i])
  }

  /** Writing the tags of `b`. */
  function Retagged(w: seq<int>, b: Blk): seq<int>
    requires 0 <= b.at && b.n >= TAG_WORDS && b.End() <= |w|
  {
    w[b.at := Tag(b)][b.End() - 1 := Tag(b)]
  }

  /** A block outside a spliced stretch lies entirely before or after it. */
  lemma OutsideStretch(bs: seq<Blk>, hi: int, i: int, j: int, b: Blk)
    requires Tiles(bs, 0, hi) && 0 <= i < j <= |bs|
    requires b in bs && b !in bs[i..j]
    ensures 0 <= b.at && 2 <= b.n && b.End() <= hi
    ensures b.End() <= bs[i].at || bs[j - 1].End() <= b.at
  {
    TilesOrdered(bs, 0, hi);
    TilesBounds(bs, 0, hi);
    var k := IndexOf(bs, b);
    forall q | i <= q < j
      ensures bs[q] in bs[i..j]
    {
      assert bs[i..j][q - i] == bs[q];
    }
    assert k < i || j <= k;
  }

  lemma SpliceTagged(w: seq<int>, w': seq<int>, bs: seq<Blk>, hi: int, i: int, j: int, mid: seq<Blk>)
    requires Tiles(bs, 0, hi) && hi <= |w| && 0 <= i < j <= |bs|
    requires Tagged(w, bs) && Tagged(w', mid)
    requires SameOutside(w, w', bs[i].at, bs[j - 1].End())
    ensures Tagged(w', Splice(bs, i, j, mid))
  {
    hide Tiles, Tag;
    TilesOrdered(bs, 0, hi);
    TilesBounds(bs, 0, hi);
    var r := Splice(bs, i, j, mid);
    forall p | 0 <= p < |r|
      ensures && 0 <= r[p].at && r[p].n >= TAG_WORDS && r[p].End() <= |w'|
              && w'[r[p].at] == Tag(r[p]) && w'[r[p].End() - 1] == Tag(r[p])
    {
      if p < i {
        assert r[p] == bs[p] && bs[p].End() <= bs[i].at;
      } else if p < i + |mid| {
        assert r[p] == mid[p - i];
      } else {
        var q := p - i - |mid| + j;
        assert r[p] == bs[q] && bs[j - 1].End() <= bs[q].at;
      }
    }
  }

  /** Writes inside blocks that are not on the list do not disturb the list. */
  lemma SpliceCircular(w: seq<int>, w': seq<int>, first: int, fl: seq<Blk>, bs: seq<Blk>, hi: int, i: int, j: int)
    requires Shape(bs, hi) && hi <= |w| && 0 <= i < j <= |bs|
    requires SameOutside(w, w', bs[i].at, bs[j - 1].End())
    requires Circular(w, first, fl)
    requires Members(fl) <= FreeOf(bs) - Members(bs[i..j])
    ensures Circular(w', first, fl)
  {
    forall k | 0 <= k < |fl|
      ensures w'[fl[k].at + 1] == w[fl[k].at + 1] && w'[fl[k].at + 2] == w[fl[k].at + 2]
    {
      assert fl[k] in Members(fl);
      FreeIsInterior(bs, hi, IndexOf(bs, fl[k]));
      OutsideStretch(bs, hi, i, j, fl[k]);
    }
  }

  lemma PayloadOutside(w: seq<int>, w': seq<int>, lo: int, hi: int, b: Blk)
    requires SameOutside(w, w', lo, hi)
    requires b.End() <= lo || hi <= b.at
    ensures Payload(w', b) == Payload(w, b)
  {
  }

  lemma KeepsOutside(w: seq<int>, w': seq<int>, bs: seq<Blk>, hi: int, i: int, j: int)
    requires Tiles(bs, 0, hi) && hi <= |w| && 0 <= i < j <= |bs|
    requires SameOutside(w, w', bs[i].at, bs[j - 1].End())
    ensures Keeps(w, w', LiveOf(bs) - LiveOf(bs[i..j]))
  {
    forall b | b in LiveOf(bs) - LiveOf(bs[i..j])
      ensures Payload(w', b) == Payload(w, b)
    {
      hide Tiles, Payload;
      assert b in bs && b !in bs[i..j];
      OutsideStretch(bs, hi, i, j, b);
      PayloadOutside(w, w', bs[i].at, bs[j - 1].End(), b);
    }
  }

  lemma KeepsTrans(w: seq<int>, w': seq<int>, w'': seq<int>, s: set<Blk>, t: set<Blk>, u: set<Blk>)
    requires Keeps(w, w', s) && Keeps(w', w'', t) && u <= s && u <= t
    ensures Keeps(w, w'', u)
  {
  }

  /** Replacing the blocks `i..j`, none of them listed, by `mid` over the same words:
      writing mid's tags is all it takes. */
  lemma SpliceRep(w: seq<int>, w': seq<int>, first: int, h: Heap, i: int, j: int, mid: seq<Blk>)
    requires Rep(w, first, h) && 0 < i < j < |h.blocks|
    requires Tiles(mid, h.blocks[i].at, h.blocks[j - 1].End())
    requires mid != [] && forall k :: 0 <= k < |mid| ==> mid[k].n >= MIN_WORDS
    requires Members(h.free) !! Members(h.blocks[i..j])
    requires SameOutside(w, w', h.blocks[i].at, h.blocks[j - 1].End()) && Tagged(w', mid)
    ensures Rep(w', first, h.(blocks := Splice(h.blocks, i, j, mid)))
    ensures Top(h.(blocks := Splice(h.blocks, i, j, mid))) == Top(h)
    ensures Keeps(w, w', LiveOf(h.blocks) - LiveOf(h.blocks[i..j]))
  {
    assert |w'| == |w| && Tiles(h.blocks, 0, Top(h));
    hide Shape, Top, Tiles, Circular, Payload, LiveOf, FreeOf, Total, Members, Distinct, Keeps, Tagged, SameOutside;
    var bs, hi := h.blocks, Top(h);
    SpliceShape(bs, hi, i, j, mid);
    SpliceTagged(w, w', bs, hi, i, j, mid);
    SpliceCircular(w, w', first, h.free, bs, hi, i, j);
    KeepsOutside(w, w', bs, hi, i, j);
    SpliceLive(bs, 0, hi, i, j, mid);
    RetagListed(bs, h.free, bs[i..j], FreeOf(mid));
  }

  /** Turning the unlisted blocks `i..j` into the single block `m`. */
  lemma RetagRep(w: seq<int>, first: int, h: Heap, i: int, j: int, m: Blk)
    requires Rep(w, first, h) && 0 < i < j < |h.blocks|
    requires m == Joined(h.blocks, i, j, m.alloc)
    requires Members(h.free) !! Members(h.blocks[i..j])
    ensures m.n >= MIN_WORDS && 0 <= m.at && m.End() <= |w|
    ensures Rep(Retagged(w, m), first, h.(blocks := Splice(h.blocks, i, j, [m])))
    ensures Top(h.(blocks := Splice(h.blocks, i, j, [m]))) == Top(h)
    ensures Keeps(w, Retagged(w, m), LiveOf(h.blocks) - LiveOf(h.blocks[i..j]))
  {
    hide Tiles, Circular, Payload, LiveOf, FreeOf, Total, Splice, Keeps;
    JoinedTiles(h.blocks, Top(h), i, j, m.alloc);
    TilesBounds(h.blocks, 0, Top(h));
    SpliceRep(w, Retagged(w, m), first, h, i, j, [m]);
  }

  /** Cutting the unlisted block `i` in two. */
  lemma CarveRep(w: seq<int>, first: int, h: Heap, i: int, need: int)
    requires Rep(w, first, h) && 0 < i < |h.blocks| - 1
    requires h.blocks[i] !in h.free && !h.blocks[i].alloc
    requires need >= MIN_WORDS && h.blocks[i].n - need >= MIN_WORDS
    ensures var b := h.blocks[i];
            var c := Carved(b, need);
            && 0 <= b.at && b.End() <= |w| && |c| == 2
            && var w' := Retagged(Retagged(w, c[0]), c[1]);
            && Rep(w', first, h.(blocks := Splice(h.blocks, i, i + 1, c)))
            && Keeps(w, w', LiveOf(h.blocks))
  {
    hide Circular, Payload, FreeOf, Splice, Keeps, Distinct;
    var b, c := h.blocks[i], Carved(h.blocks[i], need);
    TilesBounds(h.blocks, 0, Top(h));
    hide Tiles;
    CarvedTiles(b, need);
    assert h.blocks[i..i + 1] == [b];
    Single(b);
    SpliceRep(w, Retagged(Retagged(w, c[0]), c[1]), first, h, i, i + 1, c);
    assert LiveOf(h.blocks) - LiveOf([b]) == LiveOf(h.blocks);
  }

  /** A new block where the epilogue was, and a new epilogue behind it. */
  lemma GrowRep(w: seq<int>, first: int, h: Heap, need: int)
    requires Rep(w, first, h) && Inv(h) && need >= MIN_WORDS && Top(h) + need <= |w|
    ensures var b := Blk(Top(h) - TAG_WORDS, need, true);
            var e := Blk(b.End(), TAG_WORDS, true);
            && b.at >= 0
            && var w' := Retagged(Retagged(w, b), e);
            && Rep(w', first, Grow(h, need).heap)
            && Keeps(w, w', LiveOf(h.blocks))
  {
    hide Tiles, Circular, Payload, Splice, Keeps, Distinct;
    var bs, hi, last := h.blocks, Top(h), |h.blocks| - 1;
    var b := Blk(hi - TAG_WORDS, need, true);
    var e := Blk(b.End(), TAG_WORDS, true);
    var w' := Retagged(Retagged(w, b), e);
    TilesBounds(bs, 0, hi);
    TilesOrdered(bs, 0, hi);
    GrowShape(bs, hi, need);
    GrowMembers(bs[..last], bs[last], b, e);
    assert bs == bs[..last] + [bs[last]];
    GrowTagged(w, w', bs, hi, need);
    GrowFrame(w, w', first, h, need);
  }

  lemma GrowTagged(w: seq<int>, w': seq<int>, bs: seq<Blk>, hi: int, need: int)
    requires Shape(bs, hi) && Tagged(w, bs) && need >= MIN_WORDS && hi + need <= |w|
    requires var b := Blk(hi - TAG_WORDS, need, true);
             b.at >= 0 && w' == Retagged(Retagged(w, b), Blk(b.End(), TAG_WORDS, true))
    ensures var b := Blk(hi - TAG_WORDS, need, true);
            Tagged(w', bs[..|bs| - 1] + [b, Blk(b.End(), TAG_WORDS, true)])
  {
    hide Tiles, Tag;
    TilesOrdered(bs, 0, hi);
  }

  lemma GrowFrame(w: seq<int>, w': seq<int>, first: int, h: Heap, need: int)
    requires Rep(w, first, h) && Inv(h) && |w'| == |w|
    requires SameOutside(w, w', Top(h) - TAG_WORDS, Top(h) + need)
    ensures Circular(w', first, h.free)
    ensures Keeps(w, w', LiveOf(h.blocks))
  {
    hide Tiles, Payload;
    var bs, hi, last := h.blocks, Top(h), |h.blocks| - 1;
    TilesOrdered(bs, 0, hi);
    forall b | b in bs && b.n >= MIN_WORDS
      ensures b.End() <= hi - TAG_WORDS
    {
      var k := IndexOf(bs, b);
      assert bs[k].End() <= bs[last].at;
    }
    forall k | 0 <= k < |h.free|
      ensures w'[h.free[k].at + 1] == w[h.free[k].at + 1] && w'[h.free[k].at + 2] == w[h.free[k].at + 2]
    {
      FreeInBlocks(h, k);
      FreeIsInterior(bs, hi, IndexOf(bs, h.free[k]));
    }
    forall b | b in LiveOf(bs)
      ensures Payload(w', b) == Payload(w, b)
    {
      PayloadOutside(w, w', hi - TAG_WORDS, hi + need, b);
    }
  }

  /** Writes inside the payload of live block `i`. */
  lemma PayloadRep(w: seq<int>, w': seq<int>, first: int, h: Heap, i: int)
    requires Rep(w, first, h) && 0 < i < |h.blocks| - 1 && Live(h.blocks[i])
    requires SameOutside(w, w', h.blocks[i].at + 1, h.blocks[i].End() - 1)
    ensures Rep(w', first, h)
    ensures Keeps(w, w', LiveOf(h.blocks) - {h.blocks[i]})
  {
    var b := h.blocks[i];
    assert h.blocks[i..i + 1] == [b];
    assert Splice(h.blocks, i, i + 1, [b]) == h.blocks;
    assert Tagged(w', [b]);
    JoinedTiles(h.blocks, Top(h), i, i + 1, true);
    assert Joined(h.blocks, i, i + 1, true) == b;
    Single(b);
    LiveUnlisted(h.blocks, h.free, b);
    assert SameOutside(w, w', b.at, b.End());
    hide Tiles, Circular, Payload, FreeOf, Keeps, Members, LiveOf, Splice, Tagged, Distinct;
    SpliceRep(w, w', first, h, i, i + 1, [b]);
  }

  lemma LiveUnlisted(bs: seq<Blk>, free: seq<Blk>, b: Blk)
    requires Members(free) <= FreeOf(bs) && b.alloc
    ensures Members(free) !! {b} && b !in free
  {
    assert b !in FreeOf(bs);
    assert forall x :: x in free ==> x in Members(free);
  }

  lemma RetagListed(bs: seq<Blk>, free: seq<Blk>, slice: seq<Blk>, add: set<Blk>)
    requires Members(free) <= FreeOf(bs) && Members(free) !! Members(slice)
    ensures Members(free) <= FreeOf(bs) - FreeOf(slice) + add
  {
  }

  // ---------- the free list ----------

  /** Only link words of blocks in `s` differ. */
  ghost predicate SameButLinks(w: seq<int>, w': seq<int>, s: set<Blk>) {
    && |w| == |w'|
    && (forall i :: 0 <= i < |w| && (forall b :: b in s ==> i != b.at + 1 && i != b.at + 2) ==> w'[i] == w[i])
  }

  /** Link words are never tags, and never in an allocated payload. */
  lemma LinksFrame(w: seq<int>, w': seq<int>, bs: seq<Blk>, hi: int, s: set<Blk>)
    requires Shape(bs, hi) && hi <= |w| && Tagged(w, bs)
    requires SameButLinks(w, w', s) && s <= FreeOf(bs)
    ensures Tagged(w', bs)
    ensures Keeps(w, w', LiveOf(bs))
  {
    hide Tiles;
    TilesApart(bs, 0, hi);
    forall b | b in s
      ensures b in bs && b.n >= MIN_WORDS
    {
      FreeIsInterior(bs, hi, IndexOf(bs, b));
    }
    forall b | b in bs
      ensures forall c :: c in s ==> c.n >= MIN_WORDS && (c == b || Apart(b, c))
    {
    }
    forall i | 0 <= i < |bs|
      ensures w'[bs[i].at] == Tag(bs[i]) && w'[bs[i].End() - 1] == Tag(bs[i])
    {
      hide Shape;
      LinksElsewhere(bs[i], s);
    }
    forall b | b in LiveOf(bs)
      ensures Payload(w', b) == Payload(w, b)
    {
      PayloadLinks(w, w', b, s);
    }
  }

  lemma PayloadLinks(w: seq<int>, w': seq<int>, b: Blk, s: set<Blk>)
    requires SameButLinks(w, w', s)
    requires forall c :: c in s ==> c.n >= MIN_WORDS && Apart(b, c)
    ensures Payload(w', b) == Payload(w, b)
  {
    if 0 <= b.at && TAG_WORDS <= b.n && b.End() <= |w| {
      forall i | b.at <= i < b.End()
        ensures w'[i] == w[i]
      {
        assert forall c :: c in s ==> i != c.at + 1 && i != c.at + 2;
      }
    }
  }

  lemma LinksElsewhere(b: Blk, s: set<Blk>)
    requires forall c :: c in s ==> c.n >= MIN_WORDS && (c == b || Apart(b, c))
    requires b.n >= TAG_WORDS
    ensures forall c :: c in s ==> b.at != c.at + 1 && b.at != c.at + 2
    ensures forall c :: c in s ==> b.End() - 1 != c.at + 1 && b.End() - 1 != c.at + 2
  {
  }

  ghost predicate Gap(a: Blk, b: Blk) {
    a.at + MIN_WORDS <= b.at || b.at + MIN_WORDS <= a.at
  }

  /** The blocks of the list are far enough apart for their link words to be distinct. */
  ghost predicate Spaced(fl: seq<Blk>) {
    forall i, j :: 0 <= i < |fl| && 0 <= j < |fl| && i != j ==> Gap(fl[i], fl[j])
  }

  lemma ListSpaced(bs: seq<Blk>, hi: int, fl: seq<Blk>)
    requires Shape(bs, hi) && Distinct(fl) && Members(fl) <= FreeOf(bs)
    ensures Spaced(fl)
    ensures forall i :: 0 <= i < |fl| ==> 0 < fl[i].at && fl[i].End() <= hi && fl[i].n >= MIN_WORDS
    ensures forall i :: 0 <= i < |fl| ==> fl[i] in bs && !fl[i].alloc
  {
    hide Tiles;
    TilesApart(bs, 0, hi);
    TilesBounds(bs, 0, hi);
    TilesOrdered(bs, 0, hi);
    forall i | 0 <= i < |fl|
      ensures fl[i] in bs && !fl[i].alloc && fl[i].n >= MIN_WORDS && 0 < fl[i].at && fl[i].End() <= hi
    {
      assert fl[i] in Members(fl);
      FreeIsInterior(bs, hi, IndexOf(bs, fl[i]));
      assert bs[0].End() <= fl[i].at;
    }
    forall i, j | 0 <= i < |fl| && 0 <= j < |fl| && i != j
      ensures Gap(fl[i], fl[j])
    {
      assert Apart(fl[i], fl[j]);
    }
  }

  /** What `insert_free_block` writes: `b` goes between the last and the first of the circle. */
  ghost predicate Inserted(w: seq<int>, w': seq<int>, fl: seq<Blk>, b: Blk)
    requires 0 <= b.at && b.at + 2 < |w| == |w'|
    requires fl != [] ==> 0 <= fl[0].at && fl[0].at + 2 < |w|
    requires fl != [] ==> 0 <= fl[|fl| - 1].at && fl[|fl| - 1].at + 2 < |w|
  {
    var first, last := if fl == [] then b.at else fl[0].at, if fl == [] then b.at else fl[|fl| - 1].at;
    && w'[b.at + 1] == first && w'[b.at + 2] == last
    && w'[last + 1] == b.at && w'[first + 2] == b.at
    && (forall i :: 0 <= i < |w| && i != b.at + 1 && i != b.at + 2 && i != last + 1 && i != first + 2 ==> w'[i] == w[i])
  }

  /** Prepending to the circle. */
  lemma InsertCircular(w: seq<int>, w': seq<int>, first: int, fl: seq<Blk>, b: Blk)
    requires Circular(w, first, fl) && Spaced([b] + fl)
    requires 0 <= b.at && b.at + 2 < |w| == |w'|
    requires Inserted(w, w', fl, b)
    ensures Circular(w', b.at, [b] + fl)
    ensures SameButLinks(w, w', Members([b] + fl))
  {
    hide Spaced, Inserted, SameButLinks;
    var r := [b] + fl;
    forall j, k | 0 <= j < |r| && k == Around(j, |r|)
      ensures w'[r[j].at + 1] == r[k].at && w'[r[k].at + 2] == r[j].at
    {
      InsertPair(w, w', first, fl, b, j);
    }
    InsertFrame(w, w', fl, b);
  }

  lemma InsertFrame(w: seq<int>, w': seq<int>, fl: seq<Blk>, b: Blk)
    requires 0 <= b.at && b.at + 2 < |w| == |w'|
    requires forall k :: 0 <= k < |fl| ==> 0 <= fl[k].at && fl[k].at + 2 < |w|
    requires Inserted(w, w', fl, b)
    ensures SameButLinks(w, w', Members([b] + fl))
  {
    var s := Members([b] + fl);
    assert b in s && (fl != [] ==> fl[0] in s && fl[|fl| - 1] in s);
    forall i | 0 <= i < |w| && (forall c :: c in s ==> i != c.at + 1 && i != c.at + 2)
      ensures w'[i] == w[i]
    {
    }
  }

  lemma InsertPair(w: seq<int>, w': seq<int>, first: int, fl: seq<Blk>, b: Blk, j: int)
    requires Circular(w, first, fl) && Spaced([b] + fl)
    requires 0 <= b.at && b.at + 2 < |w| == |w'|
    requires Inserted(w, w', fl, b)
    requires 0 <= j <= |fl|
    ensures var r := [b] + fl;
            var k := Around(j, |r|);
            && 0 <= r[j].at && r[j].at + 2 < |w| && 0 <= r[k].at && r[k].at + 2 < |w|
            && w'[r[j].at + 1] == r[k].at && w'[r[k].at + 2] == r[j].at
  {
    hide Spaced, Circular;
    var r, n := [b] + fl, |fl|;
    if 0 < j < n {
      var x, y := fl[j - 1], fl[j];
      CircularAt(w, first, fl, j - 1);
      assert r[j] == x && r[j + 1] == y && r[0] == b && r[1] == fl[0] && r[n] == fl[n - 1];
      SpacedAt(r, j, 0);
      SpacedAt(r, j, 1);
      SpacedAt(r, j, n);
      SpacedAt(r, j + 1, 0);
      SpacedAt(r, j + 1, 1);
      SpacedAt(r, j + 1, n);
    } else if n > 0 {
      assert r[1] == fl[0] && r[n] == fl[n - 1];
      CircularAt(w, first, fl, 0);
      CircularAt(w, first, fl, n - 1);
      SpacedAt(r, 0, 1);
      SpacedAt(r, 0, n);
    }
  }

  lemma CircularAt(w: seq<int>, first: int, fl: seq<Blk>, j: int)
    requires Circular(w, first, fl) && 0 <= j < |fl|
    ensures var k := Around(j, |fl|);
            && 0 <= fl[j].at && fl[j].at + 2 < |w| && 0 <= fl[k].at && fl[k].at + 2 < |w|
            && w[fl[j].at + 1] == fl[k].at && w[fl[k].at + 2] == fl[j].at
  {
  }

  lemma SpacedAt(fl: seq<Blk>, i: int, j: int)
    requires Spaced(fl) && 0 <= i < |fl| && 0 <= j < |fl|
    ensures i == j || Gap(fl[i], fl[j])
  {
  }

  /** What `pull_free_block` writes: the neighbours of `fl[k]` are linked to each other. */
  ghost predicate Pulled(w: seq<int>, w': seq<int>, fl: seq<Blk>, k: int)
    requires 0 <= k < |fl| && |w| == |w'|
    requires forall i :: 0 <= i < |fl| ==> 0 <= fl[i].at && fl[i].at + 2 < |w|
  {
    var next := fl[Around(k, |fl|)].at;
    var prev := fl[if k == 0 then |fl| - 1 else k - 1].at;
    && w'[prev + 1] == next && w'[next + 2] == prev
    && (forall i :: 0 <= i < |w| && i != prev + 1 && i != next + 2 ==> w'[i] == w[i])
  }

  /** Removing one element, of several, from the circle. */
  lemma PullCircular(w: seq<int>, w': seq<int>, first: int, fl: seq<Blk>, k: int)
    requires Circular(w, first, fl) && Spaced(fl) && |w| == |w'|
    requires 0 <= k < |fl| && |fl| > 1
    requires Pulled(w, w', fl, k)
    ensures var r := fl[..k] + fl[k + 1..]; Circular(w', r[0].at, r)
    ensures SameButLinks(w, w', Members(fl))
  {
    hide Spaced, Pulled, SameButLinks;
    var r := fl[..k] + fl[k + 1..];
    var n := |r|;
    forall j, m | 0 <= j < n && m == Around(j, n)
      ensures w'[r[j].at + 1] == r[m].at && w'[r[m].at + 2] == r[j].at
    {
      var j', m' := if j < k then j else j + 1, if m < k then m else m + 1;
      PullPair(w, w', first, fl, k, j', m');
      assert r[j] == fl[j'] && r[m] == fl[m'];
    }
    PullFrame(w, w', fl, k);
  }

  lemma PullFrame(w: seq<int>, w': seq<int>, fl: seq<Blk>, k: int)
    requires 0 <= k < |fl| && |w| == |w'|
    requires forall i :: 0 <= i < |fl| ==> 0 <= fl[i].at && fl[i].at + 2 < |w|
    requires Pulled(w, w', fl, k)
    ensures SameButLinks(w, w', Members(fl))
  {
    var s := Members(fl);
    assert fl[Around(k, |fl|)] in s && fl[if k == 0 then |fl| - 1 else k - 1] in s;
    forall i | 0 <= i < |w| && (forall c :: c in s ==> i != c.at + 1 && i != c.at + 2)
      ensures w'[i] == w[i]
    {
    }
  }

  /** `j` and `m` are neighbours once `k` is gone. */
  lemma PullPair(w: seq<int>, w': seq<int>, first: int, fl: seq<Blk>, k: int, j: int, m: int)
    requires Circular(w, first, fl) && Spaced(fl) && |w| == |w'|
    requires 0 <= k < |fl| && |fl| > 1 && 0 <= j < |fl| && 0 <= m < |fl| && j != k && m != k
    requires Pulled(w, w', fl, k)
    requires m == Around(j, |fl|) || (k == Around(j, |fl|) && m == Around(k, |fl|))
    ensures w'[fl[j].at + 1] == fl[m].at && w'[fl[m].at + 2] == fl[j].at
  {
    var prev, next := if k == 0 then |fl| - 1 else k - 1, Around(k, |fl|);
    if m == Around(j, |fl|) {
      CircularAt(w, first, fl, j);
      SpacedAt(fl, j, prev);
      SpacedAt(fl, j, next);
      SpacedAt(fl, m, next);
      SpacedAt(fl, m, prev);
    }
  }

  // ---------- the two list operations on a represented heap ----------

  /** Where `insert_free_block` reads and writes. */
  lemma InsertBounds(w: seq<int>, first: int, h: Heap, b: Blk)
    requires Rep(w, first, h) && b in FreeOf(h.blocks) && b !in h.free
    ensures 0 <= b.at && b.at + 3 < |w| && w[b.at] == Tag(b) && !b.alloc
    ensures h.free == [] <==> first == NULL
    ensures h.free != [] ==> var f, l := h.free[0], h.free[|h.free| - 1];
              && 0 <= f.at == first && f.at + 3 < |w| && w[f.at] == Tag(f) && !f.alloc
              && 0 <= l.at == w[f.at + 2] && l.at + 3 < |w| && w[l.at] == Tag(l) && !l.alloc
              && Gap(b, f) && Gap(b, l) && (f == l || Gap(f, l))
  {
    hide Tiles, Circular, Spaced, Gap;
    var r := [b] + h.free;
    assert Members(r) <= FreeOf(h.blocks);
    ListSpaced(h.blocks, Top(h), r);
    FreeBounds(w, h, b);
    if h.free != [] {
      var last := |h.free| - 1;
      CircularAt(w, first, h.free, last);
      assert h.free[0] in Members(h.free) && h.free[last] in Members(h.free);
      FreeBounds(w, h, h.free[0]);
      FreeBounds(w, h, h.free[last]);
      SpacedAt(r, 0, 1);
      SpacedAt(r, 0, last + 1);
      SpacedAt(r, 1, last + 1);
    }
    CircularFirst(w, first, h.free);
  }

  lemma CircularFirst(w: seq<int>, first: int, fl: seq<Blk>)
    requires Circular(w, first, fl)
    ensures first == if fl == [] then NULL else fl[0].at
  {
  }

  lemma FreeBounds(w: seq<int>, h: Heap, b: Blk)
    requires Shape(h.blocks, Top(h)) && Top(h) <= |w| && Tagged(w, h.blocks) && b in FreeOf(h.blocks)
    ensures 0 <= b.at && b.n >= MIN_WORDS && b.End() <= Top(h) && w[b.at] == Tag(b) && w[b.End() - 1] == Tag(b)
  {
    TilesBounds(h.blocks, 0, Top(h));
    FreeIsInterior(h.blocks, Top(h), IndexOf(h.blocks, b));
  }

  lemma InsertRep(w: seq<int>, w': seq<int>, first: int, h: Heap, b: Blk)
    requires Rep(w, first, h) && b in FreeOf(h.blocks) && b !in h.free && |w| == |w'|
    requires Inserted.requires(w, w', h.free, b) && Inserted(w, w', h.free, b)
    ensures Rep(w', b.at, h.(free := [b] + h.free))
    ensures Keeps(w, w', LiveOf(h.blocks))
  {
    hide Tiles, Circular, Spaced, Inserted, Tagged, LiveOf, SameButLinks;
    var r := [b] + h.free;
    assert Members(r) <= FreeOf(h.blocks);
    ListSpaced(h.blocks, Top(h), r);
    InsertCircular(w, w', first, h.free, b);
    LinksFrame(w, w', h.blocks, Top(h), Members(r));
  }

  lemma PullBounds(w: seq<int>, first: int, h: Heap, k: int)
    requires Rep(w, first, h) && 0 <= k < |h.free|
    ensures var b, next, prev := h.free[k], h.free[Around(k, |h.free|)], h.free[if k == 0 then |h.free| - 1 else k - 1];
            && 0 <= b.at && b.at + 3 < |w| && w[b.at] == Tag(b) && !b.alloc
            && w[b.at + 1] == next.at && 0 <= next.at && next.at + 3 < |w| && w[next.at] == Tag(next) && !next.alloc
            && w[b.at + 2] == prev.at && 0 <= prev.at && prev.at + 3 < |w| && w[prev.at] == Tag(prev) && !prev.alloc
    ensures first == h.free[0].at && (first == h.free[k].at <==> k == 0)
    ensures var b, next, prev := h.free[k], h.free[Around(k, |h.free|)], h.free[if k == 0 then |h.free| - 1 else k - 1];
            if |h.free| == 1 then next == b else Gap(b, next) && Gap(b, prev) && (next == prev || Gap(next, prev))
    ensures forall i :: 0 <= i < |h.free| ==> 0 <= h.free[i].at && h.free[i].at + 2 < |w|
  {
    hide Tiles, Circular, Spaced;
    var fl := h.free;
    var prev := if k == 0 then |fl| - 1 else k - 1;
    CircularAt(w, first, fl, k);
    CircularAt(w, first, fl, prev);
    ListSpaced(h.blocks, Top(h), fl);
    assert fl[k] in FreeOf(h.blocks) && fl[prev] in FreeOf(h.blocks) && fl[Around(k, |fl|)] in FreeOf(h.blocks);
    FreeBounds(w, h, fl[k]);
    FreeBounds(w, h, fl[prev]);
    FreeBounds(w, h, fl[Around(k, |fl|)]);
    CircularFirst(w, first, fl);
    SpacedAt(fl, 0, k);
    SpacedAt(fl, k, prev);
    SpacedAt(fl, k, Around(k, |fl|));
    SpacedAt(fl, prev, Around(k, |fl|));
  }

  lemma PullRep(w: seq<int>, w': seq<int>, first: int, h: Heap, k: int)
    requires Rep(w, first, h) && 0 <= k < |h.free| && |w| == |w'|
    requires |h.free| == 1 ==> w' == w
    requires |h.free| > 1 ==> Pulled.requires(w, w', h.free, k) && Pulled(w, w', h.free, k)
    ensures var r := Without(h.free, {h.free[k]});
            && Rep(w', if r == [] then NULL else r[0].at, h.(free := r))
            && |r| == |h.free| - 1
            && (r != [] ==> r[0] == h.free[if k == 0 then Around(k, |h.free|) else 0])
    ensures Keeps(w, w', LiveOf(h.blocks))
  {
    hide Tiles, Spaced, Pulled, Tagged, LiveOf, SameButLinks, Without;
    var r := Without(h.free, {h.free[k]});
    WithoutAt(h.free, k);
    WithoutMembers(h.free, {h.free[k]});
    ListSpaced(h.blocks, Top(h), h.free);
    if |h.free| > 1 {
      hide Circular;
      PullCircular(w, w', first, h.free, k);
      LinksFrame(w, w', h.blocks, Top(h), Members(h.free));
    }
  }

  // ---------- walking the list ----------

  lemma ListEnd(w: seq<int>, first: int, h: Heap)
    requires Rep(w, first, h)
    ensures first == if h.free == [] then NULL else h.free[0].at
    ensures h.free != [] ==> first >= 0
  {
  }

  /** One step of a walk along the forward links: it meets the first block again exactly
      after the last one. */
  lemma ListStep(w: seq<int>, first: int, h: Heap, k: int)
    requires Rep(w, first, h) && 0 <= k < |h.free|
    ensures var b := h.free[k];
            && 0 <= b.at && b.at + 3 < |w| && w[b.at] == Tag(b) && !b.alloc
            && (k + 1 == |h.free| ==> w[b.at + 1] == first)
            && (k + 1 < |h.free| ==> w[b.at + 1] == h.free[k + 1].at >= 0 && h.free[k + 1].at != first)
            && first != NULL && first == h.free[0].at
  {
    hide Tiles, Circular, Spaced;
    CircularFirst(w, first, h.free);
    CircularAt(w, first, h.free, k);
    assert h.free[k] in Members(h.free);
    FreeBounds(w, h, h.free[k]);
    assert h.free[0] in Members(h.free);
    FreeBounds(w, h, h.free[0]);
    if k + 1 < |h.free| {
      ListSpaced(h.blocks, Top(h), h.free);
      SpacedAt(h.free, 0, k + 1);
      CircularAt(w, first, h.free, k + 1);
    }
  }
}
