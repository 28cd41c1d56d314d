/** Byte access to a target that only takes aligned chunks of bounded size. */
module Memif {
  import opened Common

  /** `x & (align - 1)` for a power of two. */
  function LowBits(x: nat, align: nat): (r: nat)
    requires align > 0
    ensures r < align && r <= x
  {
    x % align
  }

  predicate MultipleOf(x: int, align: nat) {
    align > 0 && x % align == 0
  }

  lemma MulGap(a: nat, x: int, y: int)
    requires a > 0
    ensures x < y ==> a * x + a <= a * y
  {
    if x < y {
      assert a * (x + 1) <= a * y;
    }
  }

  lemma QuotientIs(x: int, a: nat, q: int, r: nat)
    requires r < a && x == a * q + r
    ensures x / a == q && x % a == r
  {
    var q', r' := x / a, x % a;
    assert x == a * q' + r';
    MulGap(a, q, q');
    MulGap(a, q', q);
  }

  /** Sums and differences of multiples are multiples. */
  lemma MultipleSum(x: int, y: int, align: nat)
    requires MultipleOf(x, align) && MultipleOf(y, align)
    ensures MultipleOf(x + y, align) && MultipleOf(x - y, align)
  {
    var p, q := x / align, y / align;
    assert x == align * p + 0 && y == align * q + 0;
    assert x + y == align * (p + q) && x - y == align * (p - q);
    QuotientIs(x + y, align, p + q, 0);
    QuotientIs(x - y, align, p - q, 0);
  }

  lemma MultipleItself(align: nat)
    requires align > 0
    ensures MultipleOf(align, align) && MultipleOf(0, align)
  {
    QuotientIs(align, align, 1, 0);
    QuotientIs(0, align, 0, 0);
  }

  lemma LowBitsCleared(x: nat, align: nat)
    requires align > 0
    ensures MultipleOf(x - LowBits(x, align), align) && (LowBits(x, align) == 0 <==> MultipleOf(x, align))
  {
    var q, r := x / align, x % align;
    assert x - r == align * q + 0;
    QuotientIs(x - r, align, q, 0);
  }

  lemma PositiveMultiple(x: int, align: nat)
    requires MultipleOf(x, align) && x > 0
    ensures align <= x
  {
    var q := x / align;
    assert x == align * q;
    MulGap(align, 0, q);
    MulGap(align, q, 0);
  }

  /** `after` is `before` with `len` bytes at `at` replaced by those of `src` at `from`. */
  ghost predicate Stored(before: seq<byte>, after: seq<byte>, at: nat, src: seq<byte>, from: nat, len: nat) {
    |after| == |before| && at + len <= |after| && from + len <= |src| &&
    (forall i :: at <= i < at + len ==> after[i] == src[from + i - at]) &&
    (forall i :: 0 <= i < |after| && !(at <= i < at + len) ==> after[i] == before[i])
  }

  /** Reading back what was written, and what was not. */
  lemma ReadBack(mem: seq<byte>, mem': seq<byte>, addr: nat, src: seq<byte>, len: nat,
                 buf: seq<byte>, out: seq<byte>, addr2: nat, len2: nat)
    requires Stored(mem, mem', addr, src, 0, len) && Stored(buf, out, 0, mem', addr2, len2)
    ensures addr2 == addr && len2 == len ==> out[..len] == src[..len]
    ensures addr2 + len2 <= addr || addr + len <= addr2 ==> out[..len2] == mem[addr2..addr2 + len2]
  {
  }

  /** Bytes stored next to the ones before. */
  lemma StoredThen(a: seq<byte>, b: seq<byte>, c: seq<byte>, at: nat, src: seq<byte>, from: nat, m: nat, n: nat)
    requires Stored(a, b, at, src, from, m) && Stored(b, c, at + m, src, from + m, n)
    ensures Stored(a, c, at, src, from, m + n)
  {
  }

  /** Bytes stored in front of the ones before. */
  lemma StoredBefore(a: seq<byte>, b: seq<byte>, c: seq<byte>, at: nat, src: seq<byte>, from: nat, m: nat, n: nat)
    requires Stored(a, b, at + m, src, from + m, n) && Stored(b, c, at, src, from, m)
    ensures Stored(a, c, at, src, from, m + n)
  {
  }

  lemma StoredNothing(a: seq<byte>, at: nat, src: seq<byte>, from: nat)
    requires at <= |a| && from <= |src|
    ensures Stored(a, a, at, src, from, 0)
  {
  }

  lemma StoredZeros(a: seq<byte>, b: seq<byte>, at: nat, src: seq<byte>, from: nat, len: nat)
    requires Stored(a, b, at, seq(len, _ => 0), 0, len) && from + len <= |src|
    requires forall k :: from <= k < from + len ==> src[k] == 0
    ensures Stored(a, b, at, src, from, len)
  {
  }

  /** The target: what it demands of every chunk is the precondition of its operations. */
  class ChunkedMem {
    const data: array<byte>
    const align: nat
    const maxSize: nat

    ghost predicate Config() {
      align > 0 && maxSize > 0 && MultipleOf(maxSize, align) && MultipleOf(data.Length, align)
    }

    /** Aligned, a multiple of the alignment, inside memory. */
    ghost predicate Aligned(taddr: nat, len: nat) {
      MultipleOf(taddr, align) && MultipleOf(len, align) && taddr + len <= data.Length
    }

    lemma ConfigFacts()
      requires Config()
      ensures align > 0 && align <= maxSize && MultipleOf(maxSize, align) && MultipleOf(data.Length, align)
    {
      PositiveMultiple(maxSize, align);
    }

    lemma AlignedFacts(taddr: nat, len: nat)
      ensures Aligned(taddr, len) <==> MultipleOf(taddr, align) && MultipleOf(len, align) && taddr + len <= data.Length
    {
    }

    constructor (d: array<byte>, a: nat, m: nat)
      requires a > 0 && m > 0 && MultipleOf(m, a) && MultipleOf(d.Length, a)
      ensures data == d && align == a && maxSize == m && Config()
    {
      data, align, maxSize := d, a, m;
    }

    method ReadChunk(taddr: nat, len: nat, dst: array<byte>, at: nat)
      requires Config() && Aligned(taddr, len) && len <= maxSize
      requires at + len <= dst.Length && dst != data
      modifies dst
      ensures Stored(old(dst[..]), dst[..], at, data[..], taddr, len)
    {
      forall i | 0 <= i < len {
        dst[at + i] := data[taddr + i];
      }
    }

    method WriteChunk(taddr: nat, len: nat, src: array<byte>, at: nat)
      requires Config() && Aligned(taddr, len) && len <= maxSize
      requires at + len <= src.Length && src != data
      modifies data
      ensures Stored(old(data[..]), data[..], taddr, src[..], at, len)
    {
      forall i | 0 <= i < len {
        data[taddr + i] := src[at + i];
      }
    }

    method ClearChunk(taddr: nat, len: nat)
      requires Config() && Aligned(taddr, len)
      modifies data
      ensures Stored(old(data[..]), data[..], taddr, seq(len, _ => 0), 0, len)
    {
      forall i | 0 <= i < len {
        data[taddr + i] := 0;
      }
    }
  }

  class MemIf {
    const cmem: ChunkedMem

    constructor (c: ChunkedMem)
      ensures cmem == c
    {
      cmem := c;
    }

    /** Part of one chunk is read through a buffer of one chunk. */
    method ReadPart(base: nat, skip: nat, len: nat, dst: array<byte>, at: nat)
      requires cmem.Config() && cmem.align <= cmem.maxSize && cmem.Aligned(base, cmem.align)
      requires skip + len <= cmem.align && at + len <= dst.Length && dst != cmem.data
      modifies dst
      ensures Stored(old(dst[..]), dst[..], at, cmem.data[..], base + skip, len)
    {
      var chunk := new byte[cmem.align];
      cmem.ReadChunk(base, cmem.align, chunk, 0);
      forall i | 0 <= i < len {
        dst[at + i] := chunk[skip + i];
      }
    }

    /** Part of one chunk is written by reading the chunk, changing the part and writing it back. */
    method WritePart(base: nat, skip: nat, len: nat, src: array<byte>, at: nat)
      requires cmem.Config() && cmem.align <= cmem.maxSize && cmem.Aligned(base, cmem.align)
      requires skip + len <= cmem.align && at + len <= src.Length && src != cmem.data
      modifies cmem.data
      ensures Stored(old(cmem.data[..]), cmem.data[..], base + skip, src[..], at, len)
    {
      var chunk := new byte[cmem.align];
      cmem.ReadChunk(base, cmem.align, chunk, 0);
      forall i | 0 <= i < len {
        chunk[skip + i] := src[at + i];
      }
      cmem.WriteChunk(base, cmem.align, chunk, 0);
    }

    /** memif_t::read: the bytes at `addr`, whatever its alignment and length. */
    method Read(addr0: nat, len0: nat, bytes: array<byte>)
      requires cmem.Config() && addr0 + len0 <= cmem.data.Length && len0 <= bytes.Length && bytes != cmem.data
      modifies bytes
      ensures Stored(old(bytes[..]), bytes[..], 0, cmem.data[..], addr0, len0)
    {
      hide *;
      cmem.ConfigFacts();
      var align := cmem.align;
      var addr, len, p := addr0, len0, 0;
      ghost var s0 := bytes[..];
      StoredNothing(s0, 0, cmem.data[..], addr0);
      LowBitsCleared(addr, align);
      if len != 0 && LowBits(addr, align) != 0 {
        var low := LowBits(addr, align);
        var thisLen := if len < align - low then len else align - low;
        HeadChunk(addr, align, cmem.data.Length);
        cmem.AlignedFacts(addr - low, align);
        ReadPart(addr - low, low, thisLen, bytes, p);
        p := p + thisLen;
        addr := addr + thisLen;
        len := len - thisLen;
      }
      ghost var s1 := bytes[..];
      ReadRest(bytes, addr, len, p);
      StoredThen(s0, s1, bytes[..], 0, cmem.data[..], addr0, p, len);
    }

    /** From an aligned address: the odd bytes at the end, then the aligned rest. */
    method ReadRest(bytes: array<byte>, addr: nat, len0: nat, p: nat)
      requires cmem.Config() && bytes != cmem.data && (len0 == 0 || MultipleOf(addr, cmem.align))
      requires addr + len0 <= cmem.data.Length && p + len0 <= bytes.Length
      modifies bytes
      ensures Stored(old(bytes[..]), bytes[..], p, cmem.data[..], addr, len0)
    {
      hide *;
      cmem.ConfigFacts();
      var align := cmem.align;
      var len := len0;
      ghost var s1 := bytes[..];
      LowBitsCleared(len, align);
      if LowBits(len, align) != 0 {
        var thisLen := LowBits(len, align);
        var start := len - thisLen;
        TailChunk(addr, len, align, cmem.data.Length);
        cmem.AlignedFacts(addr + start, align);
        ReadPart(addr + start, 0, thisLen, bytes, p + start);
        len := len - thisLen;
      } else {
        StoredNothing(s1, p + len, cmem.data[..], addr + len);
      }
      ghost var s2 := bytes[..];
      ReadAligned(bytes, addr, len, p);
      StoredBefore(s1, s2, bytes[..], p, cmem.data[..], addr, len, len0 - len);
    }

    /** The aligned rest, in chunks. */
    method ReadAligned(bytes: array<byte>, addr: nat, len: nat, p: nat)
      requires cmem.Config() && bytes != cmem.data && (len == 0 || MultipleOf(addr, cmem.align))
      requires MultipleOf(len, cmem.align) && addr + len <= cmem.data.Length && p + len <= bytes.Length
      modifies bytes
      ensures Stored(old(bytes[..]), bytes[..], p, cmem.data[..], addr, len)
    {
      hide *;
      cmem.ConfigFacts();
      MultipleItself(cmem.align);
      ghost var b0 := bytes[..];
      StoredNothing(b0, p, cmem.data[..], addr);
      var pos := 0;
      while pos < len
        invariant MultipleOf(pos, cmem.align)
        invariant Stored(b0, bytes[..], p, cmem.data[..], addr, if pos < len then pos else len)
        decreases len - pos
      {
        var n := if cmem.maxSize < len - pos then cmem.maxSize else len - pos;
        NextChunk(addr, len, pos, cmem.align, cmem.maxSize);
        cmem.AlignedFacts(addr + pos, n);
        ghost var b1 := bytes[..];
        cmem.ReadChunk(addr + pos, n, bytes, p + pos);
        StoredThen(b0, b1, bytes[..], p, cmem.data[..], addr, pos, n);
        pos := pos + cmem.maxSize;
      }
    }

    /** memif_t::write: exactly the bytes at `addr` change. */
    method Write(addr0: nat, len0: nat, bytes: array<byte>)
      requires cmem.Config() && addr0 + len0 <= cmem.data.Length && len0 <= bytes.Length && bytes != cmem.data
      modifies cmem.data
      ensures Stored(old(cmem.data[..]), cmem.data[..], addr0, bytes[..], 0, len0)
    {
      hide *;
      cmem.ConfigFacts();
      var align := cmem.align;
      var addr, len, p := addr0, len0, 0;
      ghost var s0 := cmem.data[..];
      StoredNothing(s0, addr0, bytes[..], 0);
      LowBitsCleared(addr, align);
      if len != 0 && LowBits(addr, align) != 0 {
        var low := LowBits(addr, align);
        var thisLen := if len < align - low then len else align - low;
        HeadChunk(addr, align, cmem.data.Length);
        cmem.AlignedFacts(addr - low, align);
        WritePart(addr - low, low, thisLen, bytes, p);
        p := p + thisLen;
        addr := addr + thisLen;
        len := len - thisLen;
      }
      ghost var s1 := cmem.data[..];
      WriteRest(bytes, addr, len, p);
      StoredThen(s0, s1, cmem.data[..], addr0, bytes[..], 0, p, len);
    }

    /** From an aligned address: the odd bytes at the end, then the aligned rest. */
    method WriteRest(bytes: array<byte>, addr: nat, len0: nat, p: nat)
      requires cmem.Config() && bytes != cmem.data && (len0 == 0 || MultipleOf(addr, cmem.align))
      requires addr + len0 <= cmem.data.Length && p + len0 <= bytes.Length
      modifies cmem.data
      ensures Stored(old(cmem.data[..]), cmem.data[..], addr, bytes[..], p, len0)
    {
      hide *;
      cmem.ConfigFacts();
      var align := cmem.align;
      var len := len0;
      ghost var s1 := cmem.data[..];
      LowBitsCleared(len, align);
      if LowBits(len, align) != 0 {
        var thisLen := LowBits(len, align);
        var start := len - thisLen;
        TailChunk(addr, len, align, cmem.data.Length);
        cmem.AlignedFacts(addr + start, align);
        WritePart(addr + start, 0, thisLen, bytes, p + start);
        len := len - thisLen;
      } else {
        StoredNothing(s1, addr + len, bytes[..], p + len);
      }
      ghost var s2 := cmem.data[..];
      WriteAligned(bytes, addr, len, p);
      StoredBefore(s1, s2, cmem.data[..], addr, bytes[..], p, len, len0 - len);
    }

    /** The aligned rest: cleared in one go when it is all zero, written in chunks otherwise. */
    method WriteAligned(bytes: array<byte>, addr: nat, len: nat, p: nat)
      requires cmem.Config() && bytes != cmem.data && (len == 0 || MultipleOf(addr, cmem.align))
      requires MultipleOf(len, cmem.align) && addr + len <= cmem.data.Length && p + len <= bytes.Length
      modifies cmem.data
      ensures Stored(old(cmem.data[..]), cmem.data[..], addr, bytes[..], p, len)
    {
      hide *;
      cmem.ConfigFacts();
      MultipleItself(cmem.align);
      var allZero := len != 0;
      var i := 0;
      while i < len
        invariant i <= len
        invariant allZero ==> len != 0 && forall k :: p <= k < p + i ==> bytes[k] == 0
      {
        allZero := allZero && bytes[p + i] == 0;
        i := i + 1;
      }
      if allZero {
        ghost var d0 := cmem.data[..];
        cmem.AlignedFacts(addr, len);
        cmem.ClearChunk(addr, len);
        StoredZeros(d0, cmem.data[..], addr, bytes[..], p, len);
      } else {
        var maxChunk := cmem.maxSize;
        ghost var d0 := cmem.data[..];
        StoredNothing(d0, addr, bytes[..], p);
        var pos := 0;
        while pos < len
          invariant MultipleOf(pos, cmem.align)
          invariant Stored(d0, cmem.data[..], addr, bytes[..], p, if pos < len then pos else len)
          decreases len - pos
        {
          var n := if maxChunk < len - pos then maxChunk else len - pos;
          NextChunk(addr, len, pos, cmem.align, maxChunk);
          cmem.AlignedFacts(addr + pos, n);
          ghost var d1 := cmem.data[..];
          cmem.WriteChunk(addr + pos, n, bytes, p + pos);
          StoredThen(d0, d1, cmem.data[..], addr, bytes[..], p, pos, n);
          pos := pos + maxChunk;
        }
      }
    }
  }

  /** The chunk around an unaligned address lies in memory; what follows it is aligned. */
  lemma HeadChunk(addr: nat, align: nat, size: nat)
    requires align > 0 && addr < size && MultipleOf(size, align)
    ensures var low := LowBits(addr, align);
            MultipleOf(addr - low, align) && MultipleOf(align, align) && addr - low + align <= size &&
            MultipleOf(addr + (align - low), align)
  {
    hide MultipleOf;
    var low := LowBits(addr, align);
    LowBitsCleared(addr, align);
    MultipleItself(align);
    MultipleSum(size, addr - low, align);
    PositiveMultiple(size - (addr - low), align);
    MultipleSum(addr - low, align, align);
    assert addr - low + align == addr + (align - low);
  }

  lemma TailChunk(addr: nat, len: nat, align: nat, size: nat)
    requires align > 0 && LowBits(len, align) != 0 && MultipleOf(addr, align) && addr + len <= size &&
             MultipleOf(size, align)
    ensures var start := len - LowBits(len, align);
            MultipleOf(addr + start, align) && MultipleOf(align, align) && addr + start + align <= size
  {
    hide MultipleOf;
    var start := len - LowBits(len, align);
    LowBitsCleared(len, align);
    MultipleSum(addr, start, align);
    MultipleItself(align);
    MultipleSum(size, addr + start, align);
    PositiveMultiple(size - (addr + start), align);
  }

  lemma NextChunk(addr: nat, len: nat, pos: nat, align: nat, max: nat)
    requires pos < len && MultipleOf(addr, align) && MultipleOf(len, align) && MultipleOf(pos, align) &&
             MultipleOf(max, align)
    ensures var n := if max < len - pos then max else len - pos;
            MultipleOf(addr + pos, align) && MultipleOf(n, align) && MultipleOf(pos + max, align)
  {
    hide MultipleOf;
    MultipleSum(addr, pos, align);
    MultipleSum(len, pos, align);
    MultipleSum(pos, max, align);
  }
}
