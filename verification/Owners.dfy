/** The link between a trace and the heap it runs on: which block belongs to which id, and
    what each step of the driver does to that. */
module Owners {
  import opened Layout
  import opened AllocSpec
  import opened Words
  import opened Bytes
  import opened Trace
  import opened Ranges
  import opened Mm

  type Owner = map<int, Blk>

  /** Every live id has a live block of its own, recorded in the trace's arrays, that is large
      enough and still holds the id's fill byte. */
  ghost predicate Owns(h: Heap, w: seq<int>, blocks: seq<int>, sizes: seq<int>, owner: Owner, m: Sizes) {
    && owner.Keys == m.Keys
    && (forall i :: i in owner ==> OwnsOne(h, w, blocks, sizes, owner[i], i, m[i]))
    && Injective(owner)
  }

  /** The part of that which does not depend on the words. */
  ghost predicate Holds(h: Heap, owner: Owner, m: Sizes) {
    && owner.Keys == m.Keys
    && (forall i :: i in owner ==> owner[i] in LiveOf(h.blocks) && 0 < m[i] <= 8 * (owner[i].n - TAG_WORDS))
    && Injective(owner)
  }

  ghost predicate OwnsOne(h: Heap, w: seq<int>, blocks: seq<int>, sizes: seq<int>, b: Blk, i: int, size: int) {
    && 0 <= i < |blocks| && i < |sizes|
    && b in LiveOf(h.blocks) && blocks[i] == b.at + 1 && sizes[i] == size
    && 0 < size <= 8 * (b.n - TAG_WORDS)
    && Filled(Payload(w, b), i % 256, size)
  }

  ghost predicate Injective(owner: Owner) {
    forall i, j :: i in owner && j in owner && i != j ==> owner[i] != owner[j]
  }

  /** The bytes of a payload that were asked for. */
  function Extent(base: int, b: Blk, size: int): Range {
    Range(base + 8 * (b.at + 1), base + 8 * (b.at + 1) + size - 1)
  }

  /** The range list has exactly one range for each live id. */
  ghost predicate Lists(ranges: seq<Range>, ids: seq<int>, owner: Owner, m: Sizes, base: int) {
    && owner.Keys == m.Keys
    && |ranges| == |ids|
    && (forall j, k :: 0 <= j < k < |ids| ==> ids[j] != ids[k])
    && (forall i :: i in owner <==> i in ids)
    && (forall k :: 0 <= k < |ids| ==> ids[k] in owner && ranges[k] == Extent(base, owner[ids[k]], m[ids[k]]))
  }

  /** A call that leaves alone the live blocks other than those in `mine`. */
  lemma OwnsKept(h: Heap, w: seq<int>, h': Heap, w': seq<int>, blocks: seq<int>, sizes: seq<int>,
                 owner: Owner, m: Sizes, mine: set<Blk>)
    requires Owns(h, w, blocks, sizes, owner, m)
    requires Keeps(w, w', LiveOf(h.blocks) - mine)
    requires LiveOf(h.blocks) - mine <= LiveOf(h'.blocks)
    requires forall i :: i in owner ==> owner[i] !in mine
    ensures Owns(h', w', blocks, sizes, owner, m)
  {
    hide Filled, Payload, LiveOf;
    forall i | i in owner
      ensures OwnsOne(h', w', blocks, sizes, owner[i], i, m[i])
    {
      assert OwnsOne(h, w, blocks, sizes, owner[i], i, m[i]);
    }
  }

  /** Forgetting an id. */
  lemma OwnsLess(h: Heap, w: seq<int>, blocks: seq<int>, sizes: seq<int>, owner: Owner, m: Sizes, index: int)
    requires Owns(h, w, blocks, sizes, owner, m) && index in owner
    ensures Owns(h, w, blocks, sizes, owner - {index}, m - {index})
    ensures forall i :: i in owner - {index} ==> (owner - {index})[i] != owner[index]
  {
    hide Filled, Payload, LiveOf;
    var owner', m' := owner - {index}, m - {index};
    forall i | i in owner'
      ensures OwnsOne(h, w, blocks, sizes, owner'[i], i, m'[i])
    {
      assert OwnsOne(h, w, blocks, sizes, owner[i], i, m[i]);
    }
  }

  /** Recording a filled block, that no other id owns, for an id. */
  lemma OwnsMore(h: Heap, w: seq<int>, blocks: seq<int>, sizes: seq<int>, blocks': seq<int>, sizes': seq<int>,
                 owner: Owner, m: Sizes, index: int, b: Blk, size: int)
    requires Owns(h, w, blocks, sizes, owner, m) && index !in owner
    requires forall i :: i in owner ==> owner[i] != b
    requires 0 <= index < |blocks| && index < |sizes|
    requires blocks' == blocks[index := b.at + 1] && sizes' == sizes[index := size]
    requires b in LiveOf(h.blocks) && 0 < size <= 8 * (b.n - TAG_WORDS)
    requires Filled(Payload(w, b), index % 256, size)
    ensures Owns(h, w, blocks', sizes', owner[index := b], m[index := size])
  {
    hide Filled, Payload, LiveOf;
    var owner', m' := owner[index := b], m[index := size];
    forall i | i in owner'
      ensures OwnsOne(h, w, blocks', sizes', owner'[i], i, m'[i])
    {
      if i != index {
        assert OwnsOne(h, w, blocks, sizes, owner[i], i, m[i]);
      }
    }
  }

  /** Extents within different blocks of a heap do not meet. */
  lemma ExtentsApart(base: int, b: Blk, size: int, c: Blk, size': int)
    requires Apart(b, c)
    requires 0 < size <= 8 * (b.n - TAG_WORDS) && 0 < size' <= 8 * (c.n - TAG_WORDS)
    ensures var r := Extent(base, b, size); !Hits(r.lo, r.hi, Extent(base, c, size'))
  {
  }

  /** `add_range` accepts the extent of a block that no listed id owns. */
  lemma AddAccepted(h: Heap, ranges: seq<Range>, ids: seq<int>, owner: Owner, m: Sizes, base: int, b: Blk, size: int)
    requires Inv(h) && Holds(h, owner, m) && Lists(ranges, ids, owner, m, base)
    requires base % 8 == 0 && b in LiveOf(h.blocks) && 0 < size <= 8 * (b.n - TAG_WORDS)
    requires forall i :: i in owner ==> owner[i] != b
    ensures var r := Extent(base, b, size);
            Verify(ranges, r.lo, r.hi, base, base + 8 * Top(h) - 1) == Accepted
  {
    hide Inv, Hits, Apart, LiveOf;
    var r := Extent(base, b, size);
    PositionOf(h, b);
    LiveApart(h);
    forall k | 0 <= k < |ranges|
      ensures !Hits(r.lo, r.hi, ranges[k])
    {
      var i := ids[k];
      ExtentsApart(base, b, size, owner[i], m[i]);
    }
  }

  lemma LiveApart(h: Heap)
    requires Inv(h)
    ensures forall b, c :: b in LiveOf(h.blocks) && c in LiveOf(h.blocks) && b != c ==> Apart(b, c)
  {
    TilesApart(h.blocks, 0, Top(h));
  }

  lemma ListsMore(ranges: seq<Range>, ids: seq<int>, owner: Owner, m: Sizes, base: int, index: int, b: Blk, size: int)
    requires Lists(ranges, ids, owner, m, base) && index !in owner
    ensures Lists([Extent(base, b, size)] + ranges, [index] + ids, owner[index := b], m[index := size], base)
  {
  }

  /** `remove_range` removes the range of the id whose block starts there. */
  lemma ListsLess(h: Heap, ranges: seq<Range>, ids: seq<int>, owner: Owner, m: Sizes, base: int, index: int)
    returns (ids': seq<int>)
    requires Inv(h) && Holds(h, owner, m) && Lists(ranges, ids, owner, m, base) && index in owner
    ensures Lists(RemoveFirst(ranges, base + 8 * (owner[index].at + 1)), ids', owner - {index}, m - {index}, base)
  {
    hide Inv, Holds, RemoveFirst, Lists;
    var k := PositionIn(ranges, ids, owner, m, base, index);
    var lo := base + 8 * (owner[index].at + 1);
    StartsDiffer(h, owner, m);
    EarlierStarts(ranges, ids, owner, m, base, k);
    RemoveAt(ranges, lo, k);
    ids' := ids[..k] + ids[k + 1..];
    ListsWithout(ranges, ids, owner, m, base, k);
  }

  lemma PositionIn(ranges: seq<Range>, ids: seq<int>, owner: Owner, m: Sizes, base: int, index: int) returns (k: int)
    requires Lists(ranges, ids, owner, m, base) && index in owner
    ensures 0 <= k < |ids| == |ranges| && ids[k] == index
  {
    k :| 0 <= k < |ids| && ids[k] == index;
  }

  lemma EarlierStarts(ranges: seq<Range>, ids: seq<int>, owner: Owner, m: Sizes, base: int, k: int)
    requires Lists(ranges, ids, owner, m, base) && 0 <= k < |ids|
    requires forall i, j :: i in owner && j in owner && i != j ==> owner[i].at != owner[j].at
    ensures ids[k] in owner && k < |ranges| && ranges[k].lo == base + 8 * (owner[ids[k]].at + 1)
    ensures forall j :: 0 <= j < k ==> ranges[j].lo != ranges[k].lo
  {
    forall j | 0 <= j < k
      ensures ranges[j].lo != ranges[k].lo
    {
      assert ids[j] != ids[k] && owner[ids[j]].at != owner[ids[k]].at;
    }
  }

  lemma StartsDiffer(h: Heap, owner: Owner, m: Sizes)
    requires Inv(h) && Holds(h, owner, m)
    ensures forall i, j :: i in owner && j in owner && i != j ==> owner[i].at != owner[j].at
  {
    hide Inv, LiveOf;
    LiveApart(h);
    forall i, j | i in owner && j in owner && i != j
      ensures owner[i].at != owner[j].at
    {
      assert Apart(owner[i], owner[j]);
    }
  }

  lemma ListsWithout(ranges: seq<Range>, ids: seq<int>, owner: Owner, m: Sizes, base: int, k: int)
    requires Lists(ranges, ids, owner, m, base) && 0 <= k < |ids|
    ensures Lists(ranges[..k] + ranges[k + 1..], ids[..k] + ids[k + 1..], owner - {ids[k]}, m - {ids[k]}, base)
  {
    var ids', ranges' := ids[..k] + ids[k + 1..], ranges[..k] + ranges[k + 1..];
    var owner' := owner - {ids[k]};
    IdsWithout(ids, k);
    forall j | 0 <= j < |ids'|
      ensures ids'[j] in owner' && ranges'[j] == Extent(base, owner'[ids'[j]], (m - {ids[k]})[ids'[j]])
    {
      assert ids'[j] in ids';
      RangeKept(ranges, ids, owner, m, base, k, j);
    }
  }

  lemma RangeKept(ranges: seq<Range>, ids: seq<int>, owner: Owner, m: Sizes, base: int, k: int, j: int)
    requires Lists(ranges, ids, owner, m, base) && 0 <= k < |ids| && 0 <= j < |ids| - 1
    ensures var i := (ids[..k] + ids[k + 1..])[j];
            i in owner && i in m && (ranges[..k] + ranges[k + 1..])[j] == Extent(base, owner[i], m[i])
  {
    var j' := if j < k then j else j + 1;
    assert (ids[..k] + ids[k + 1..])[j] == ids[j'] && (ranges[..k] + ranges[k + 1..])[j] == ranges[j'];
  }

  lemma IdsWithout(ids: seq<int>, k: int)
    requires 0 <= k < |ids| && forall i, j :: 0 <= i < j < |ids| ==> ids[i] != ids[j]
    ensures var r := ids[..k] + ids[k + 1..];
            && (forall i, j :: 0 <= i < j < |r| ==> r[i] != r[j])
            && (forall i :: i in r <==> i in ids && i != ids[k])
  {
    var r := ids[..k] + ids[k + 1..];
    forall i | i in ids && i != ids[k]
      ensures i in r
    {
      var j :| 0 <= j < |ids| && ids[j] == i;
      assert r[if j < k then j else j - 1] == i;
    }
  }

  /** What a reallocation carries over. */
  lemma FillCarried(w: seq<int>, b: Blk, w': seq<int>, b': Blk, v: int, oldSize: int, size: int)
    requires Filled(Payload(w, b), v, oldSize) && Copied(w, b, w', b')
    requires 0 <= size <= oldSize && size <= 8 * |Payload(w', b')|
    ensures Filled(Payload(w', b'), v, size)
  {
    hide Payload;
    var p, q := Payload(w, b), Payload(w', b');
    forall j | 0 <= j < size
      ensures Byte(q, j) == v
    {
      assert Byte(p, j) == v;
      assert q[j / 8] == p[j / 8];
    }
  }

  // ---------- requested bytes fit in the heap ----------

  /** The words taken up by those blocks of `bs` that are in `s`. */
  function Weight(bs: seq<Blk>, s: set<Blk>): int {
    if bs == [] then 0 else (if bs[0] in s then bs[0].n else 0) + Weight(bs[1..], s)
  }

  lemma {:induction false} WeightBound(bs: seq<Blk>, s: set<Blk>, lo: int, hi: int)
    requires Tiles(bs, lo, hi)
    ensures Weight(bs, s) <= hi - lo
  {
    if bs != [] {
      WeightBound(bs[1..], s, bs[0].End(), hi);
    }
  }

  lemma {:induction false} WeightSame(bs: seq<Blk>, s: set<Blk>, b: Blk)
    requires b !in bs
    ensures Weight(bs, s + {b}) == Weight(bs, s)
  {
    if bs != [] {
      WeightSame(bs[1..], s, b);
    }
  }

  lemma {:induction false} WeightMore(bs: seq<Blk>, s: set<Blk>, b: Blk, lo: int, hi: int)
    requires Tiles(bs, lo, hi) && b in bs && b !in s
    ensures Weight(bs, s + {b}) == Weight(bs, s) + b.n
  {
    if bs[0] == b {
      TilesDistinct(bs, lo, hi);
      WeightSame(bs[1..], s, b);
    } else {
      WeightMore(bs[1..], s, b, bs[0].End(), hi);
    }
  }

  function OwnedBelow(owner: Owner, n: nat): set<Blk> {
    if n == 0 then {} else OwnedBelow(owner, n - 1) + (if n - 1 in owner then {owner[n - 1]} else {})
  }

  lemma {:induction false} OwnedNew(owner: Owner, n: nat, i: int)
    requires Injective(owner) && i in owner && n <= i
    ensures owner[i] !in OwnedBelow(owner, n)
  {
    if n > 0 {
      OwnedNew(owner, n - 1, i);
    }
  }

  /** The requested bytes never exceed the words of the blocks that hold them. */
  lemma {:induction false} SumWeight(h: Heap, owner: Owner, m: Sizes, n: nat)
    requires Inv(h) && Holds(h, owner, m)
    ensures SumBelow(m, n) <= 8 * Weight(h.blocks, OwnedBelow(owner, n))
  {
    hide Inv, Tiles, LiveOf;
    if n == 0 {
      WeightNone(h.blocks);
    } else {
      SumWeight(h, owner, m, n - 1);
      if n - 1 in owner {
        OwnedNew(owner, n - 1, n - 1);
        WeightLive(h, OwnedBelow(owner, n - 1), owner[n - 1]);
      } else {
        assert OwnedBelow(owner, n) == OwnedBelow(owner, n - 1);
      }
    }
  }

  lemma WeightLive(h: Heap, s: set<Blk>, b: Blk)
    requires Inv(h) && b in LiveOf(h.blocks) && b !in s
    ensures Weight(h.blocks, s + {b}) == Weight(h.blocks, s) + b.n
  {
    WeightMore(h.blocks, s, b, 0, Top(h));
  }

  lemma {:induction false} WeightNone(bs: seq<Blk>)
    ensures Weight(bs, {}) == 0
  {
    if bs != [] {
      WeightNone(bs[1..]);
    }
  }

  lemma SumFits(h: Heap, owner: Owner, m: Sizes, n: nat)
    requires Inv(h) && Holds(h, owner, m)
    ensures SumBelow(m, n) <= 8 * Top(h)
  {
    SumWeight(h, owner, m, n);
    WeightBound(h.blocks, OwnedBelow(owner, n), 0, Top(h));
  }
}
