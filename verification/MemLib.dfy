/** The simulated memory system: a buffer that is handed out from the bottom up. */
module MemLib {

  /** C's conversion of a long to a 32-bit int. */
  function ToInt(n: int): (r: int)
    ensures -0x8000_0000 <= r < 0x8000_0000
    ensures (n - r) % 0x1_0000_0000 == 0
  {
    var m := n % 0x1_0000_0000;
    if m < 0x8000_0000 then m else m - 0x1_0000_0000
  }

  class Memory {
    /** The address of the first byte, as `malloc` aligned it. */
    const base: int
    /** The buffer, in 8-byte words. */
    const mem: array<int>
    /** The number of bytes handed out. */
    var brk: int

    ghost predicate Valid()
      reads this
    {
      base > 0 && base % 8 == 0 && 0 <= brk <= 8 * mem.Length
    }

    constructor (base: int, words: nat)
      requires base > 0 && base % 8 == 0
      ensures Valid() && brk == 0 && this.base == base && mem.Length == words && fresh(mem)
    {
      this.base := base;
      mem := new int[words];
      brk := 0;
    }

    method ResetBrk()
      requires Valid()
      modifies this
      ensures Valid() && brk == 0
    {
      brk := 0;
    }

    /** The offset of the new area, or -1: the heap grows by exactly `incr`, or not at all
        when `incr` is negative or would pass the end of the buffer. */
    method Sbrk(incr: int) returns (r: int)
      requires Valid() && -0x8000_0000 <= incr < 0x8000_0000
      modifies this
      ensures Valid()
      ensures r == -1 <==> incr < 0 || old(brk) + incr > 8 * mem.Length
      ensures r == -1 ==> brk == old(brk)
      ensures r != -1 ==> r == old(brk) && brk == r + incr
    {
      var oldBrk := brk;
      if incr < 0 || brk + incr > 8 * mem.Length {
        return -1;
      }
      brk := brk + incr;
      return oldBrk;
    }

    /** The call as the allocator makes it, with a long: only the low 32 bits arrive.  It gets
        nothing or what it asked for exactly if `Faithful` holds. */
    method SbrkLong(n: int) returns (r: int)
      requires Valid() && n >= 0
      modifies this
      ensures Valid()
      ensures var k := n % 0x1_0000_0000;
              && (r == -1 <==> k >= 0x8000_0000 || old(brk) + k > 8 * mem.Length)
              && (r == -1 ==> brk == old(brk))
              && (r != -1 ==> r == old(brk) && brk == r + k)
      ensures (r == -1 && brk == old(brk)) || (r == old(brk) && brk == r + n)
              <==> Faithful(n, old(brk), 8 * mem.Length)
    {
      r := Sbrk(ToInt(n));
    }

    function HeapLo(): int { base }

    function HeapHi(): int
      reads this
    {
      base + brk - 1
    }

    function HeapSize(): int
      reads this
    {
      brk
    }
  }

  /** What keeps a request for `n` bytes from being served with fewer, in a buffer of `max` bytes
      of which `brk` are handed out: it is an int, or its low 32 bits are a negative int, or even
      those many bytes are not left. */
  predicate Faithful(n: int, brk: int, max: int) {
    n < 0x8000_0000 || n % 0x1_0000_0000 >= 0x8000_0000 || brk + n % 0x1_0000_0000 > max
  }

  /** A request for 4 GB and 32 bytes is served with 32 bytes. */
  method TruncatedRequest(m: Memory) returns (r: int)
    requires m.Valid() && m.brk + 32 <= 8 * m.mem.Length
    modifies m
    ensures r == old(m.brk) && m.brk == r + 32
  {
    r := m.SbrkLong(0x1_0000_0020);
  }
}
