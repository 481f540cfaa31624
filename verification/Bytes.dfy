/** Bytes within the 8-byte words of memory, lowest first. */
module Bytes {

  function ByteAt(w: int, i: nat): (b: int)
    ensures 0 <= b < 256
    decreases i
  {
    if i == 0 then w % 256 else ByteAt(w / 256, i - 1)
  }

  function WithByte(w: int, i: nat, v: int): int
    decreases i
  {
    if i == 0 then w / 256 * 256 + v else WithByte(w / 256, i - 1, v) * 256 + w % 256
  }

  /** Storing a byte changes that byte only. */
  lemma {:induction false} WithByteAt(w: int, i: nat, v: int, j: nat)
    requires 0 <= v < 256
    ensures ByteAt(WithByte(w, i, v), j) == if j == i then v else ByteAt(w, j)
    decreases i
  {
    var r := WithByte(w, i, v);
    if i == 0 {
      assert r % 256 == v && r / 256 == w / 256;
    } else {
      var q := WithByte(w / 256, i - 1, v);
      assert r % 256 == w % 256 && r / 256 == q;
      if j > 0 {
        WithByteAt(w / 256, i - 1, v, j - 1);
      }
    }
  }

  /** Byte `j` of a payload. */
  function Byte(pl: seq<int>, j: nat): int
    requires j < 8 * |pl|
  {
    ByteAt(pl[j / 8], j % 8)
  }

  /** The first `size` bytes of a payload are all `v`. */
  ghost predicate Filled(pl: seq<int>, v: int, size: int) {
    size <= 8 * |pl| && forall j :: 0 <= j < size ==> Byte(pl, j) == v
  }

  /** The bytes from `j` on are the same. */
  ghost predicate SameFrom(pl: seq<int>, pl': seq<int>, j: int) {
    |pl| == |pl'| && forall k: nat :: j <= k < 8 * |pl| ==> Byte(pl', k) == Byte(pl, k)
  }

  /** A byte read as a plain `char`, which is signed on some targets. */
  function CharOf(b: int, signed: bool): int {
    if signed && b >= 128 then b - 256 else b
  }

  /** `memset(&mem[p], v, size)` */
  method Memset(mem: array<int>, p: int, v: int, size: int)
    requires 0 <= p && 0 <= size && 8 * p + size <= 8 * mem.Length && 0 <= v < 256
    modifies mem
    ensures Filled(mem[p..], v, size)
    ensures forall j :: size <= j < 8 * (mem.Length - p) ==> Byte(mem[p..], j) == Byte(old(mem[p..]), j)
    ensures forall i :: 0 <= i < mem.Length && (i < p || 8 * i >= 8 * p + size) ==> mem[i] == old(mem[i])
  {
    ghost var start := mem[p..];
    var j := 0;
    while j < size
      invariant 0 <= j <= size
      invariant Filled(mem[p..], v, j) && SameFrom(start, mem[p..], j)
      invariant forall i :: 0 <= i < mem.Length && (i < p || 8 * i >= 8 * p + j) ==> mem[i] == old(mem[i])
    {
      ghost var before := mem[p..];
      var x := WithByte(mem[p + j / 8], j % 8, v);
      StoreByte(before, j, v);
      StoreRest(start, before, j, v);
      mem[p + j / 8] := x;
      assert mem[p..] == before[j / 8 := x];
      j := j + 1;
    }
  }

  lemma StoreRest(start: seq<int>, pl: seq<int>, j: nat, v: int)
    requires SameFrom(start, pl, j) && j < 8 * |pl| && 0 <= v < 256
    ensures SameFrom(start, pl[j / 8 := WithByte(pl[j / 8], j % 8, v)], j + 1)
  {
    var pl' := pl[j / 8 := WithByte(pl[j / 8], j % 8, v)];
    forall k: nat | j + 1 <= k < 8 * |pl|
      ensures Byte(pl', k) == Byte(start, k)
    {
      assert Byte(pl, k) == Byte(start, k);
      WithByteAt(pl[j / 8], j % 8, v, k % 8);
      if k / 8 == j / 8 {
        assert k % 8 != j % 8;
      }
    }
  }

  lemma StoreByte(pl: seq<int>, j: nat, v: int)
    requires Filled(pl, v, j) && j < 8 * |pl| && 0 <= v < 256
    ensures Filled(pl[j / 8 := WithByte(pl[j / 8], j % 8, v)], v, j + 1)
  {
    var pl' := pl[j / 8 := WithByte(pl[j / 8], j % 8, v)];
    forall k | 0 <= k < j + 1
      ensures Byte(pl', k) == v
    {
      WithByteAt(pl[j / 8], j % 8, v, k % 8);
      if k < j {
        assert Byte(pl, k) == v;
        if k / 8 == j / 8 {
          assert k % 8 != j % 8;
        }
      }
    }
  }
}
