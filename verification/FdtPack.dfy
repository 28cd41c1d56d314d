/** fdt_pack: slide the blocks of a blob down in place, so that nothing is left between them. */
module FdtPack {
  import opened FdtBytes
  import opened FdtTree
  import opened FdtView
  import opened FdtDecode
  import opened FdtBlob

  /** Entry `i` of a reserve map ends it: its size, the second 64-bit word, is zero. */
  predicate IsLast(rsv: Bytes, i: nat)
    requires 16 * i + 16 <= |rsv|
  {
    forall k :: 16 * i + 8 <= k < 16 * i + 16 ==> rsv[k] == 0
  }

  /** Number of entries from `i` on before the one that ends the map, as fdt_num_mem_rsv counts them. */
  function CountFrom(rsv: Bytes, i: nat): int
    decreases |rsv| - 16 * i
  {
    if 16 * i + 16 > |rsv| then -FDT_ERR_TRUNCATED
    else if IsLast(rsv, i) then i
    else CountFrom(rsv, i + 1)
  }

  /** A count is the first entry that ends the map. */
  lemma {:induction false} CountIsFirst(rsv: Bytes, i: nat)
    requires CountFrom(rsv, i) >= 0
    ensures var n := CountFrom(rsv, i);
            i <= n && 16 * n + 16 <= |rsv| && IsLast(rsv, n) && forall k :: i <= k < n ==> !IsLast(rsv, k)
    decreases |rsv| - 16 * i
  {
    hide IsLast;
    if !IsLast(rsv, i) {
      CountIsFirst(rsv, i + 1);
    }
  }

  /** Bytes after the end of the map do not matter. */
  lemma {:induction false} CountOfPrefix(rsv: Bytes, more: Bytes, i: nat)
    requires CountFrom(rsv, i) >= 0 && rsv <= more
    ensures CountFrom(more, i) == CountFrom(rsv, i)
    decreases |rsv| - 16 * i
  {
    assert IsLast(more, i) == IsLast(rsv, i);
    hide IsLast;
    if !IsLast(rsv, i) {
      CountOfPrefix(rsv, more, i + 1);
    }
  }

  /** Cut after its last entry, the map has the same entries. */
  lemma CountOfCut(rsv: Bytes)
    requires CountFrom(rsv, 0) >= 0
    ensures 16 * CountFrom(rsv, 0) + 16 <= |rsv|
    ensures CountFrom(rsv[..16 * CountFrom(rsv, 0) + 16], 0) == CountFrom(rsv, 0)
  {
    CountIsFirst(rsv, 0);
    CutFrom(rsv, CountFrom(rsv, 0), 0);
  }

  lemma {:induction false} CutFrom(rsv: Bytes, n: nat, i: nat)
    requires i <= n && CountFrom(rsv, i) == n && 16 * n + 16 <= |rsv|
    ensures CountFrom(rsv[..16 * n + 16], i) == n
    decreases n - i
  {
    assert IsLast(rsv[..16 * n + 16], i) == IsLast(rsv, i);
    hide IsLast;
    if !IsLast(rsv, i) {
      CountIsFirst(rsv, i + 1);
      CutFrom(rsv, n, i + 1);
    }
  }

  /** fdt_num_mem_rsv */
  method NumMemRsv(b: Blob) returns (n: int)
    requires b.Layout()
    ensures n == CountFrom(b.buf[b.offReserve..b.totalSize], 0)
  {
    var rsv := b.buf[b.offReserve..b.totalSize];
    var i := 0;
    while 16 * i + 16 <= |rsv|
      invariant 0 <= i
      invariant CountFrom(rsv, i) == CountFrom(rsv, 0)
      decreases |rsv| - 16 * i
    {
      if IsLast(rsv, i) {
        return i;
      }
      i := i + 1;
    }
    return -FDT_ERR_TRUNCATED;
  }

  /** What the move of a block that starts no earlier than its destination does to it and to what lies behind it. */
  lemma PartMoved(a: Bytes, c: Bytes, dst: nat, src: nat, n: nat)
    requires |a| == |c| && dst <= src && src + n <= |a|
    requires forall i :: 0 <= i < dst || dst + n <= i < |a| ==> c[i] == a[i]
    requires forall i :: dst <= i < dst + n ==> c[i] == a[i - dst + src]
    ensures Part(c, dst, n) == Part(a, src, n)
  {
    var u, v := c[dst..dst + n], a[src..src + n];
    forall k | 0 <= k < n
      ensures u[k] == v[k]
    {
      assert u[k] == c[dst + k] && v[k] == a[src + k];
    }
  }

  lemma PartStays(a: Bytes, c: Bytes, dst: nat, n: nat, off: nat, size: nat)
    requires |a| == |c| && off + size <= |a| && dst + n <= |a| && (off + size <= dst || dst + n <= off)
    requires forall i :: 0 <= i < dst || dst + n <= i < |a| ==> c[i] == a[i]
    ensures Part(c, off, size) == Part(a, off, size)
  {
    var u, v := c[off..off + size], a[off..off + size];
    forall k | 0 <= k < size
      ensures u[k] == v[k]
    {
      assert u[k] == c[off + k] && v[k] == a[off + k];
    }
  }

  /** The bytes from `off` on are not among the `n` from `dst` on. */
  ghost predicate Apart(off: nat, size: nat, dst: nat, n: nat) {
    off + size <= dst || dst + n <= off
  }

  /** Slide `n` bytes down; two other blocks stay. */
  method Slide(b: Blob, dst: nat, src: nat, n: nat, ghost x: nat, ghost nx: nat, ghost y: nat, ghost ny: nat)
    requires dst <= src && src + n <= b.buf.Length && x + nx <= b.buf.Length && y + ny <= b.buf.Length
    requires Apart(x, nx, dst, n) && Apart(y, ny, dst, n)
    modifies b.buf
    ensures Part(b.buf[..], dst, n) == old(Part(b.buf[..], src, n))
    ensures Part(b.buf[..], x, nx) == old(Part(b.buf[..], x, nx))
    ensures Part(b.buf[..], y, ny) == old(Part(b.buf[..], y, ny))
  {
    hide Part;
    ghost var a := b.buf[..];
    b.MemMove(dst, src, n);
    ghost var c := b.buf[..];
    PartMoved(a, c, dst, src, n);
    PartStays(a, c, dst, n, x, nx);
    PartStays(a, c, dst, n, y, ny);
  }

  /** The reserve map ends inside its block. */
  ghost predicate Terminated(b: Blob)
    requires b.Layout()
    reads b, b.buf
  {
    CountFrom(b.Reserve(), 0) >= 0
  }

  lemma ReserveCount(b: Blob)
    requires b.Layout() && Terminated(b)
    ensures CountFrom(b.buf[b.offReserve..b.totalSize], 0) == CountFrom(b.Reserve(), 0) >= 0
    ensures 16 * CountFrom(b.Reserve(), 0) + 16 <= |b.Reserve()| == b.offStruct - b.offReserve
  {
    hide CountFrom;
    CountOfPrefix(b.Reserve(), b.buf[b.offReserve..b.totalSize], 0);
    CountOfCut(b.Reserve());
  }

  /** The reserve map without what follows its last entry. */
  ghost function Entries(rsv: Bytes): (s: Bytes)
    requires CountFrom(rsv, 0) >= 0
    ensures |s| == 16 * CountFrom(rsv, 0) + 16 && CountFrom(s, 0) == CountFrom(rsv, 0)
  {
    CountOfCut(rsv);
    rsv[..16 * CountFrom(rsv, 0) + 16]
  }

  /**
   fdt_pack: the tree, the strings and the reserve entries are what they were; the blocks follow the header
   and one another without a gap, and the blob ends with the last of them.
   */
  method Pack(b: Blob)
    requires b.Valid() && Terminated(b)
    modifies b, b.buf
    ensures b.Valid() && b.root == old(b.root)
    ensures b.Struct() == old(b.Struct()) && b.Strings() == old(b.Strings()) && b.Reserve() == old(Entries(b.Reserve()))
    ensures b.offReserve == HEADER_SIZE && b.offStruct == b.offReserve + |b.Reserve()|
    ensures b.offStrings == b.offStruct + b.sizeStruct && b.totalSize == b.DataSize() <= old(b.totalSize)
  {
    hide *;
    ReserveCount(b);
    PackFacts(b);
    b.BlocksAre();
    ghost var rsv := b.Reserve();
    var n := NumMemRsv(b);
    var reserveSize := 16 * (n + 1);
    var structOff := 40 + reserveSize;
    var stringsOff := structOff + b.sizeStruct;
    CutPart(b.buf[..], b.offReserve, b.offStruct - b.offReserve, reserveSize);
    EntriesAre(rsv);
    Disjoint();
    Slide(b, 40, b.offReserve, reserveSize, b.offStruct, b.sizeStruct, b.offStrings, b.sizeStrings);
    b.offReserve := 40;
    Slide(b, structOff, b.offStruct, b.sizeStruct, 40, reserveSize, b.offStrings, b.sizeStrings);
    b.offStruct := structOff;
    Slide(b, stringsOff, b.offStrings, b.sizeStrings, 40, reserveSize, b.offStruct, b.sizeStruct);
    b.offStrings := stringsOff;
    b.totalSize := b.offStrings + b.sizeStrings;
    PackedFacts(b);
    b.BlocksAre();
    ValidAgain(b);
  }

  /** Blocks in order do not overlap. */
  lemma Disjoint()
    ensures forall x: nat, nx: nat, d: nat, n: nat {:trigger Apart(x, nx, d, n)} ::
              x + nx <= d || d + n <= x ==> Apart(x, nx, d, n)
  {
  }

  lemma PackFacts(b: Blob)
    requires b.Valid()
    ensures b.Layout() && HEADER_SIZE == 40 <= b.offReserve && b.offReserve + 16 <= b.offStruct
    ensures b.offStruct + b.sizeStruct <= b.offStrings && b.offStrings + b.sizeStrings <= b.totalSize <= b.buf.Length
    ensures b.totalSize < FDT_MAX_SIZE && WfNode(b.root) && b.Struct() == Encode(b.root) && Proper(b.root, b.Strings())
  {
    hide WfNode, Encode, Proper;
  }

  lemma PackedFacts(b: Blob)
    requires 40 <= b.offReserve && b.offReserve + 16 <= b.offStruct && b.offStruct + b.sizeStruct <= b.offStrings
    requires b.offStrings + b.sizeStrings == b.totalSize <= b.buf.Length && b.totalSize < FDT_MAX_SIZE
    ensures b.Layout() && b.DataSize() == b.totalSize && HEADER_SIZE == 40
  {
  }

  lemma EntriesAre(rsv: Bytes)
    requires CountFrom(rsv, 0) >= 0 && 16 * CountFrom(rsv, 0) + 16 <= |rsv|
    ensures Entries(rsv) == rsv[..16 * CountFrom(rsv, 0) + 16]
  {
    hide CountFrom;
  }

  lemma CutPart(a: Bytes, off: nat, size: nat, n: nat)
    requires off + size <= |a| && n <= size
    ensures Part(a, off, n) == Part(a, off, size)[..n]
  {
  }
}
