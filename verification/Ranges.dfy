/** The driver's list of the payload extents of allocated blocks, newest first. */
module Ranges {
  import opened MemLib

  datatype Range = Range(lo: int, hi: int)

  datatype Check = Accepted | Misaligned | OutsideHeap | Overlaps

  /** The driver's overlap test: an end of the new extent falls into the old one. */
  predicate Hits(lo: int, hi: int, p: Range) {
    (p.lo <= lo <= p.hi) || (p.lo <= hi <= p.hi)
  }

  predicate Intersects(lo: int, hi: int, p: Range) {
    lo <= p.hi && p.lo <= hi
  }

  predicate Encloses(lo: int, hi: int, p: Range) {
    lo < p.lo && p.hi < hi
  }

  /** The test never rejects disjoint extents, and misses an overlap exactly when the new
      extent reaches beyond the old one at both ends. */
  lemma HitsExactly(lo: int, hi: int, p: Range)
    requires lo <= hi && p.lo <= p.hi
    ensures Hits(lo, hi, p) <==> Intersects(lo, hi, p) && !Encloses(lo, hi, p)
    ensures Encloses(lo, hi, p) ==> Intersects(lo, hi, p)
  {
  }

  /** In a heap of 16 words from address 8 on, an extent around a listed one is accepted. */
  lemma MissedOverlap()
    ensures Intersects(8, 31, Range(16, 23)) && Verify([Range(16, 23)], 8, 31, 8, 135) == Accepted
  {
  }

  /** What `add_range` decides about a nonempty extent. */
  function Verify(ranges: seq<Range>, lo: int, hi: int, heapLo: int, heapHi: int): Check {
    if lo % 8 != 0 then Misaligned
    else if lo < heapLo || lo > heapHi || hi < heapLo || hi > heapHi then OutsideHeap
    else if exists k :: 0 <= k < |ranges| && Hits(lo, hi, ranges[k]) then Overlaps
    else Accepted
  }

  /** In the words of addresses: an aligned extent within the heap is accepted exactly if each
      listed range that it meets lies strictly inside it. */
  lemma VerifyMeans(ranges: seq<Range>, lo: int, hi: int, heapLo: int, heapHi: int)
    requires lo <= hi && forall k :: 0 <= k < |ranges| ==> ranges[k].lo <= ranges[k].hi
    ensures var c, within := Verify(ranges, lo, hi, heapLo, heapHi), heapLo <= lo && hi <= heapHi;
            && (c == Misaligned <==> lo % 8 != 0)
            && (c == OutsideHeap <==> lo % 8 == 0 && !within)
            && (c == Accepted <==>
                  && lo % 8 == 0 && within
                  && forall r :: r in ranges && lo <= r.hi && r.lo <= hi ==> lo < r.lo && r.hi < hi)
  {
    forall k | 0 <= k < |ranges|
      ensures Hits(lo, hi, ranges[k])
              <==> lo <= ranges[k].hi && ranges[k].lo <= hi && !(lo < ranges[k].lo && ranges[k].hi < hi)
    {
      HitsExactly(lo, hi, ranges[k]);
    }
    assert forall k :: 0 <= k < |ranges| ==> ranges[k] in ranges;
  }

  /** The list without the first range that starts at `lo`. */
  function RemoveFirst(ranges: seq<Range>, lo: int): seq<Range> {
    if ranges == [] then []
    else if ranges[0].lo == lo then ranges[1..]
    else [ranges[0]] + RemoveFirst(ranges[1..], lo)
  }

  lemma {:induction false} RemoveAt(ranges: seq<Range>, lo: int, k: int)
    requires 0 <= k < |ranges| && ranges[k].lo == lo
    requires forall j :: 0 <= j < k ==> ranges[j].lo != lo
    ensures RemoveFirst(ranges, lo) == ranges[..k] + ranges[k + 1..]
  {
    if k > 0 {
      RemoveAt(ranges[1..], lo, k - 1);
      assert ranges[..k] == [ranges[0]] + ranges[1..][..k - 1];
    }
  }

  lemma {:induction false} RemoveMissing(ranges: seq<Range>, lo: int)
    requires forall j :: 0 <= j < |ranges| ==> ranges[j].lo != lo
    ensures RemoveFirst(ranges, lo) == ranges
  {
    if ranges != [] {
      RemoveMissing(ranges[1..], lo);
    }
  }

  class RangeList {
    var ranges: seq<Range>

    constructor ()
      ensures ranges == []
    {
      ranges := [];
    }

    method ClearRanges()
      modifies this
      ensures ranges == []
    {
      ranges := [];
    }

    method AddRange(lib: Memory, lo: int, size: int) returns (c: Check)
      requires size >= 0
      modifies this
      ensures size == 0 ==> c == Accepted && ranges == old(ranges)
      ensures size > 0 ==>
                && c == Verify(old(ranges), lo, lo + size - 1, lib.HeapLo(), lib.HeapHi())
                && ranges == if c == Accepted then [Range(lo, lo + size - 1)] + old(ranges) else old(ranges)
    {
      if size == 0 {
        return Accepted;
      }
      var hi := lo + size - 1;
      if lo % 8 != 0 {
        return Misaligned;
      }
      if lo < lib.HeapLo() || lo > lib.HeapHi() || hi < lib.HeapLo() || hi > lib.HeapHi() {
        return OutsideHeap;
      }
      var p := 0;
      while p < |ranges|
        invariant 0 <= p <= |ranges| && ranges == old(ranges)
        invariant forall k :: 0 <= k < p ==> !Hits(lo, hi, ranges[k])
      {
        if Hits(lo, hi, ranges[p]) {
          return Overlaps;
        }
        p := p + 1;
      }
      ranges := [Range(lo, hi)] + ranges;
      return Accepted;
    }

    method RemoveRange(lo: int)
      modifies this
      ensures ranges == RemoveFirst(old(ranges), lo)
    {
      var p := 0;
      while p < |ranges|
        invariant 0 <= p <= |ranges| && ranges == old(ranges)
        invariant forall k :: 0 <= k < p ==> ranges[k].lo != lo
      {
        if ranges[p].lo == lo {
          RemoveAt(ranges, lo, p);
          ranges := ranges[..p] + ranges[p + 1..];
          return;
        }
        p := p + 1;
      }
      RemoveMissing(ranges, lo);
    }
  }
}
