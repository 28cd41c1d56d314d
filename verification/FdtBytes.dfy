/** Bytes, big-endian words and C strings, as libfdt sees them inside a blob. */
module FdtBytes {
  import opened Common

  type Bytes = seq<byte>

  // Tag values of the structure block.
  const FDT_BEGIN_NODE: u32 := 1
  const FDT_END_NODE: u32 := 2
  const FDT_PROP: u32 := 3
  const FDT_NOP: u32 := 4
  const FDT_END: u32 := 9

  const FDT_TAGSIZE := 4
  const FDT_MAX_SIZE := 0x7fff_ffff

  // Error codes; functions return them negated.
  const FDT_ERR_NOTFOUND := 1
  const FDT_ERR_EXISTS := 2
  const FDT_ERR_NOSPACE := 3
  const FDT_ERR_BADOFFSET := 4
  const FDT_ERR_BADPHANDLE := 6
  const FDT_ERR_BADSTATE := 7
  const FDT_ERR_TRUNCATED := 8
  const FDT_ERR_BADSTRUCTURE := 11
  const FDT_ERR_INTERNAL := 13
  const FDT_ERR_BADOVERLAY := 16
  const FDT_ERR_NOPHANDLES := 17

  function Wrap32(x: int): u32 {
    x % 0x1_0000_0000
  }

  lemma WrapFacts(x: int)
    ensures 0 <= x < 0x1_0000_0000 ==> Wrap32(x) == x
    ensures 0x1_0000_0000 <= x < 0x2_0000_0000 ==> Wrap32(x) == x - 0x1_0000_0000
    ensures -0x1_0000_0000 <= x < 0 ==> Wrap32(x) == x + 0x1_0000_0000
  {
  }

  function AlignUp(n: nat): nat {
    n + 3 - (n + 3) % 4
  }

  function PadLen(n: nat): nat {
    AlignUp(n) - n
  }

  lemma ModShift(q: nat, m: nat)
    ensures (4 * q + m) % 4 == m % 4
  {
  }

  lemma AlignFacts(o: nat, n: nat)
    requires o % 4 == 0
    ensures AlignUp(o + n) == o + AlignUp(n) == o + n + PadLen(n)
    ensures n <= AlignUp(n) < n + 4 && AlignUp(n) % 4 == 0
    ensures (o + AlignUp(n)) % 4 == 0
  {
    var q, r := o / 4, (n + 3) / 4;
    ModShift(q, n + 3);
    ModShift(r, 0);
    ModShift(q + r, 0);
    assert AlignUp(n) == 4 * r;
  }

  /** The four bytes of a word, most significant first. */
  function Word(w: u32): (b: Bytes)
    ensures |b| == 4
  {
    [w / 0x100_0000, w / 0x1_0000 % 0x100, w / 0x100 % 0x100, w % 0x100]
  }

  function ReadWord(s: Bytes, off: nat): u32
    requires off + 4 <= |s|
  {
    s[off] as int * 0x100_0000 + s[off + 1] as int * 0x1_0000 + s[off + 2] as int * 0x100 + s[off + 3]
  }

  /** `part` occupies `s` from `off` on. */
  ghost predicate Has<T>(s: seq<T>, off: nat, part: seq<T>) {
    off + |part| <= |s| && s[off..off + |part|] == part
  }

  lemma ConcatAssoc<T>(x: seq<T>, y: seq<T>, z: seq<T>)
    ensures (x + y) + z == x + (y + z)
  {
  }

  lemma ConcatFirst<T>(a: seq<T>, b: seq<T>)
    ensures a == [] ==> a + b == b
    ensures a != [] ==> a + b != [] && (a + b)[0] == a[0] && (a + b)[1..] == a[1..] + b
  {
  }

  lemma HasSplit<T>(s: seq<T>, off: nat, a: seq<T>, b: seq<T>)
    ensures Has(s, off, a + b) <==> Has(s, off, a) && Has(s, off + |a|, b)
  {
    if Has(s, off, a + b) {
      assert s[off..off + |a|] == (a + b)[..|a|] == a;
      assert s[off + |a|..off + |a| + |b|] == (a + b)[|a|..] == b;
    }
    if Has(s, off, a) && Has(s, off + |a|, b) {
      assert s[off..off + |a + b|] == s[off..off + |a|] + s[off + |a|..off + |a| + |b|];
    }
  }

  lemma HasMiddle<T>(a: seq<T>, b: seq<T>, c: seq<T>)
    ensures Has(a + b + c, |a|, b)
  {
  }

  lemma HasAt<T>(s: seq<T>, off: nat, part: seq<T>)
    requires Has(s, off, part)
    ensures forall i :: off <= i < off + |part| ==> s[i] == part[i - off]
  {
    forall i | off <= i < off + |part|
      ensures s[i] == part[i - off]
    {
      assert s[off..off + |part|][i - off] == part[i - off];
    }
  }

  lemma WordParts(w: u32)
    ensures w == w / 0x100_0000 * 0x100_0000 + w / 0x1_0000 % 0x100 * 0x1_0000 + w / 0x100 % 0x100 * 0x100 + w % 0x100
  {
    var a, b := w / 0x100, w / 0x1_0000;
    assert w == a * 0x100 + w % 0x100;
    assert a == b * 0x100 + a % 0x100;
    assert b == w / 0x100_0000 * 0x100 + b % 0x100;
  }

  lemma WordRoundTrip(s: Bytes, off: nat, w: u32)
    requires Has(s, off, Word(w))
    ensures ReadWord(s, off) == w
  {
    var b := Word(w);
    assert s[off] == b[0] && s[off + 1] == b[1] && s[off + 2] == b[2] && s[off + 3] == b[3] by {
      hide Word;
      HasAt(s, off, b);
    }
    WordParts(w);
  }

  lemma ReadWordIsWord(s: Bytes, off: nat)
    requires off + 4 <= |s|
    ensures Has(s, off, Word(ReadWord(s, off)))
  {
    var w := ReadWord(s, off);
    assert w / 0x100 == s[off] as int * 0x1_0000 + s[off + 1] as int * 0x100 + s[off + 2];
    assert w / 0x1_0000 == s[off] as int * 0x100 + s[off + 1];
    assert w / 0x100_0000 == s[off];
    assert s[off..off + 4] == Word(w);
  }

  // ---- C strings ----

  predicate NulFree(name: Bytes) {
    forall i :: 0 <= i < |name| ==> name[i] != 0
  }

  /** Index of the first NUL at or after `off`, or the length when there is none. */
  function FindNul(s: Bytes, off: nat): (r: nat)
    requires off <= |s|
    ensures off <= r <= |s|
    ensures r < |s| ==> s[r] == 0
    ensures forall i :: off <= i < r ==> s[i] != 0
    decreases |s| - off
  {
    if off == |s| || s[off] == 0 then off else FindNul(s, off + 1)
  }

  lemma FindNulIs(s: Bytes, off: nat, name: Bytes)
    requires Has(s, off, name + [0]) && NulFree(name)
    ensures FindNul(s, off) == off + |name|
  {
    HasAt(s, off, name + [0]);
    assert s[off + |name|] == 0;
  }
}
