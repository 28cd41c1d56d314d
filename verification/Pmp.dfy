/**
 Physical memory protection: the address match of one entry, the check of an access against
 all of them, and the homogeneity test that lets a whole page be cached.
 */
module Pmp {
  import opened Common
  import opened Bits

  const PMP_R: bv8 := 0x01
  const PMP_W: bv8 := 0x02
  const PMP_X: bv8 := 0x04
  const PMP_A: bv8 := 0x18
  const PMP_L: bv8 := 0x80
  const PMP_TOR: bv8 := 0x08
  const PMP_NA4: bv8 := 0x10
  const PMP_NAPOT: bv8 := 0x18

  datatype AccessType = LOAD | STORE | FETCH
  datatype Mode = PRV_U | PRV_S | PRV_M

  /** One pmpaddr register with its configuration byte. */
  datatype Entry = Entry(val: u64, cfg: bv8)

  /** The implemented entries, the granularity above four bytes, and the security configuration. */
  datatype Pmp = Pmp(entries: seq<Entry>, grain: nat, mml: bool, mmwp: bool)

  /** Values fit the physical address width, and so does the granularity. */
  predicate WfPmp(p: Pmp) {
    p.grain <= 54 && forall i :: 0 <= i < |p.entries| ==> p.entries[i].val < Pow2(54)
  }

  // ---- one entry ----

  function Mode4(p: Pmp, i: nat): bv8
    requires i < |p.entries|
  {
    p.entries[i].cfg & PMP_A
  }

  /** The mask that clears the low granularity bits of an address register. */
  function TorMask(p: Pmp): u64
    requires WfPmp(p)
  {
    GrainFits(p);
    WORD - Pow2(p.grain)
  }

  lemma GrainFits(p: Pmp)
    requires WfPmp(p)
    ensures Pow2(p.grain) < WORD
  {
    Pow2Is64();
    Pow2Monotone(p.grain, 64);
  }

  function TorPaddr(p: Pmp, i: nat): u64
    requires WfPmp(p) && i < |p.entries|
  {
    TorFits(p, i);
    4 * And(p.entries[i].val, TorMask(p))
  }

  lemma TorFits(p: Pmp, i: nat)
    requires WfPmp(p) && i < |p.entries|
    ensures 4 * And(p.entries[i].val, TorMask(p)) < WORD
  {
    AndBound(p.entries[i].val, TorMask(p));
    Pow2Is64();
    Pow2Monotone(54, 62);
  }

  function TorBasePaddr(p: Pmp, i: nat): u64
    requires WfPmp(p) && i < |p.entries|
  {
    if i == 0 then 0 else TorPaddr(p, i - 1)
  }

  /** The register's value with what sets the size of the entry as trailing ones. */
  function SizeMask(p: Pmp, i: nat): nat
    requires WfPmp(p) && i < |p.entries|
  {
    Or(Or(2 * p.entries[i].val, if Mode4(p, i) == PMP_NA4 then 0 else 1), Not64(TorMask(p)))
  }

  lemma SizeMaskBound(p: Pmp, i: nat)
    requires WfPmp(p) && i < |p.entries|
    ensures SizeMask(p, i) < Pow2(55) && SizeMask(p, i) + 1 < Pow2(64) == WORD
  {
    hide Or;
    Pow2Is64();
    Pow2Monotone(p.grain, 54);
    Pow2Monotone(1, 55);
    var b := if Mode4(p, i) == PMP_NA4 then 0 else 1;
    OrBound(2 * p.entries[i].val, b, 55);
    OrBound(Or(2 * p.entries[i].val, b), Not64(TorMask(p)), 55);
    Pow2Monotone(55, 64);
  }

  function NapotMask(p: Pmp, i: nat): u64
    requires WfPmp(p) && i < |p.entries|
  {
    SizeMaskBound(p, i);
    var mask := SizeMask(p, i);
    AndBound(mask, Not64(mask + 1));
    4 * Not64(And(mask, Not64(mask + 1))) % WORD
  }

  function Match4(p: Pmp, i: nat, addr: u64): bool
    requires WfPmp(p) && i < |p.entries|
  {
    if Mode4(p, i) == 0 then false
    else if Mode4(p, i) == PMP_TOR then TorBasePaddr(p, i) <= addr && addr < TorPaddr(p, i)
    else And(Xor(addr, TorPaddr(p, i)), NapotMask(p, i)) == 0
  }

  /** Whether the entry may match only part of the aligned block of `len` bytes at `addr`. */
  function SubsetMatch(p: Pmp, i: nat, addr: u64, len: u64): bool
    requires WfPmp(p) && i < |p.entries| && len > 0
  {
    var base, tor := TorBasePaddr(p, i), TorPaddr(p, i);
    if Mode4(p, i) == 0 then false
    else
      var beginsAfterLower := addr >= base;
      var beginsAfterUpper := addr >= tor;
      var endsBeforeLower := And(addr, WORD - len) < And(base, WORD - len);
      var endsBeforeUpper := And(addr, WORD - len) < And(tor, WORD - len);
      var torHomogeneous := endsBeforeLower || beginsAfterUpper || (beginsAfterLower && endsBeforeUpper);
      var maskHomogeneous := And(Not64(2 * NapotMask(p, i) % WORD), len) != 0;
      var napotHomogeneous := maskHomogeneous || Xor(addr, tor) / len != 0;
      !(if Mode4(p, i) == PMP_TOR then torHomogeneous else napotHomogeneous)
  }

  function AccessOk(cfg: bv8, mml: bool, typ: AccessType, mode: Mode): bool {
    var cfgx, cfgw, cfgr, cfgl := cfg & PMP_X != 0, cfg & PMP_W != 0, cfg & PMP_R != 0, cfg & PMP_L != 0;
    var prvm := mode == PRV_M;
    var typer, typex, typew := typ == LOAD, typ == FETCH, typ == STORE;
    var normalRwx := (typer && cfgr) || (typew && cfgw) || (typex && cfgx);
    if mml then
      if cfgx && cfgw && cfgr && cfgl then typer
      else
        var mmlSharedRegion := !cfgr && cfgw;
        var mmlChkNormal := prvm == cfgl && normalRwx;
        var mmlChkShared :=
          (!cfgl && cfgx && (typer || typew)) ||
          (!cfgl && !cfgx && (typer || (typew && prvm))) ||
          (cfgl && typex) ||
          (cfgl && typer && cfgx && prvm);
        if mmlSharedRegion then mmlChkShared else mmlChkNormal
    else
      (prvm && !cfgl) || normalRwx
  }

  /** The size of an entry in NAPOT or NA4 mode, as a power of two: two more than its trailing ones. */
  function SizeLog(p: Pmp, i: nat): nat
    requires WfPmp(p) && i < |p.entries|
  {
    Ones(SizeMask(p, i)) + 2
  }

  lemma NapotMaskIs(p: Pmp, i: nat)
    requires WfPmp(p) && i < |p.entries|
    ensures SizeLog(p, i) <= 57 && Pow2(SizeLog(p, i)) <= Pow2(SizeLog(p, i) + 1) < WORD && Pow2(64) == WORD
    ensures NapotMask(p, i) == WORD - Pow2(SizeLog(p, i))
  {
    hide Or, And, Ones, SizeMask;
    var mask, k := SizeMask(p, i), Ones(SizeMask(p, i));
    SizeMaskBound(p, i);
    Pow2Is64();
    OnesBound(mask, 55);
    TrailingOnes(mask, 64);
    Pow2Monotone(k + 3, 64);
  }

  /**
   In NAPOT and NA4 mode the match is membership of the aligned interval around the entry's address
   whose size is set by the trailing ones of its register, widened to the granularity.
   */
  lemma NapotIsInterval(p: Pmp, i: nat, addr: u64)
    requires WfPmp(p) && i < |p.entries| && Mode4(p, i) != 0 && Mode4(p, i) != PMP_TOR
    ensures Match4(p, i, addr) <==> High(addr, SizeLog(p, i)) == High(TorPaddr(p, i), SizeLog(p, i))
    ensures var base := TorPaddr(p, i) - Low(TorPaddr(p, i), SizeLog(p, i));
            Match4(p, i, addr) <==> base <= addr < base + Pow2(SizeLog(p, i))
  {
    hide And, Xor, High, Low, Pow2, SizeLog, NapotMask, TorPaddr, Ones;
    var tor, n := TorPaddr(p, i), SizeLog(p, i);
    NapotMaskIs(p, i);
    AgreeHigh(addr, tor, n);
    SameHigh(addr, tor, n);
  }

  /** Comparing by exclusive or under a mask of high bits. */
  lemma AgreeHigh(a: u64, b: u64, n: nat)
    requires n <= 64 && Pow2(64) == WORD && Pow2(n) < WORD
    ensures And(Xor(a, b), WORD - Pow2(n)) == 0 <==> High(a, n) == High(b, n)
  {
    hide And, Xor, High, Low, Pow2;
    var x := Xor(a, b);
    XorBound(a, b, 64);
    AndHigh(x, 64, n);
    Split(x, n);
    HighNone(x, n);
    XorHigh(a, b, n);
    XorZero(High(a, n), High(b, n));
  }

  lemma HighNone(x: nat, n: nat)
    ensures High(x, n) == 0 <==> x == Low(x, n)
  {
    hide High, Low, Pow2;
    Split(x, n);
    if High(x, n) > 0 {
      MulLe(1, High(x, n), Pow2(n));
    }
  }

  // ---- homogeneity of one entry ----

  /** `a` lies in the aligned block of `Pow2(n)` bytes at `addr`. */
  ghost predicate Inside(addr: u64, n: nat, a: u64) {
    n < 64 && Low(addr, n) == 0 && addr <= a < addr + Pow2(n)
  }

  lemma InsideFacts(addr: u64, n: nat, a: u64)
    requires Inside(addr, n, a)
    ensures High(a, n) == High(addr, n) && Pow2(n) < WORD && Pow2(64) == WORD
  {
    hide High, Low, Pow2;
    SameHigh(a, addr, n);
    Pow2Is64();
    Pow2Monotone(n, 64);
  }

  /** Masking with the negated block size clears the low bits. */
  lemma MaskBlock(x: u64, n: nat)
    requires n < 64 && Pow2(n) < WORD && Pow2(64) == WORD
    ensures And(x, WORD - Pow2(n)) == x - Low(x, n)
  {
    hide And, Low, Pow2;
    AndHigh(x, 64, n);
  }

  /** A block that begins below another block ends below it. */
  lemma BlocksApart(addr: u64, n: nat, bound: u64)
    requires Low(addr, n) == 0 && addr < bound - Low(bound, n)
    ensures addr + Pow2(n) <= bound
  {
    hide High, Low, Pow2;
    Split(addr, n);
    Split(bound, n);
    if High(bound, n) <= High(addr, n) {
      MulLe(High(bound, n), High(addr, n), Pow2(n));
    } else {
      MulLe(High(addr, n) + 1, High(bound, n), Pow2(n));
    }
  }

  lemma TorHomogeneous(p: Pmp, i: nat, addr: u64, n: nat, a: u64)
    requires WfPmp(p) && i < |p.entries| && Mode4(p, i) == PMP_TOR && Inside(addr, n, a) && Pow2(n) < WORD
    requires !SubsetMatch(p, i, addr, Pow2(n))
    ensures Match4(p, i, a) == Match4(p, i, addr)
  {
    hide And, Xor, High, Low, Pow2, NapotMask, TorPaddr, TorBasePaddr;
    var base, tor := TorBasePaddr(p, i), TorPaddr(p, i);
    InsideFacts(addr, n, a);
    MaskBlock(addr, n);
    MaskBlock(base, n);
    MaskBlock(tor, n);
    if addr < base - Low(base, n) {
      BlocksApart(addr, n, base);
    } else if addr < tor - Low(tor, n) {
      BlocksApart(addr, n, tor);
    }
  }

  /** The test of the mask: whether the block is no larger than the entry. */
  lemma MaskTest(k: nat, n: nat)
    requires k <= 57 && n < 64 && Pow2(k + 1) < WORD && Pow2(64) == WORD
    ensures 0 < Pow2(k) && 2 * Pow2(k) < WORD
    ensures And(Not64(2 * (WORD - Pow2(k)) % WORD), Pow2(n)) != 0 <==> n <= k
  {
    hide And;
    assert Pow2(k + 1) == 2 * Pow2(k);
    assert Not64(2 * (WORD - Pow2(k)) % WORD) == Pow2(k + 1) - 1;
    AndBit(Pow2(k + 1) - 1, n);
    OnesBelow(k + 1, n);
  }

  lemma {:induction false} OnesBelow(m: nat, n: nat)
    ensures High(Pow2(m) - 1, n) % 2 == 1 <==> n < m
    decreases n
  {
    if m == 0 {
      HighZero(0, n);
    } else if n > 0 {
      OnesBelow(m - 1, n - 1);
    }
  }

  /** The block lies in one unit of the entry's size, or it is larger and lies elsewhere. */
  lemma NapotSubset(p: Pmp, i: nat, addr: u64, n: nat)
    requires WfPmp(p) && i < |p.entries| && Mode4(p, i) != 0 && Mode4(p, i) != PMP_TOR
    requires n < 64 && Pow2(n) < WORD && !SubsetMatch(p, i, addr, Pow2(n))
    ensures n <= SizeLog(p, i) || High(addr, n) != High(TorPaddr(p, i), n)
  {
    hide And, Xor, High, Low, Pow2, SizeLog, TorPaddr, TorBasePaddr, NapotMask;
    NapotMaskIs(p, i);
    MaskTest(SizeLog(p, i), n);
    var x := Xor(addr, TorPaddr(p, i));
    HighIsDiv(x, n);
    XorHigh(addr, TorPaddr(p, i), n);
    XorZero(High(addr, n), High(TorPaddr(p, i), n));
  }

  lemma NapotHomogeneous(p: Pmp, i: nat, addr: u64, n: nat, a: u64)
    requires WfPmp(p) && i < |p.entries| && Mode4(p, i) != 0 && Mode4(p, i) != PMP_TOR
    requires Inside(addr, n, a) && Pow2(n) < WORD && !SubsetMatch(p, i, addr, Pow2(n))
    ensures Match4(p, i, a) == Match4(p, i, addr)
  {
    hide *;
    InsideFacts(addr, n, a);
    InsideSize(addr, n, a);
    NapotSubset(p, i, addr, n);
    NapotIsInterval(p, i, a);
    NapotIsInterval(p, i, addr);
    var m, tor := SizeLog(p, i), TorPaddr(p, i);
    if n <= m {
      HighHigh(a, n, m - n);
      HighHigh(addr, n, m - n);
    } else {
      HighHigh(a, m, n - m);
      HighHigh(addr, m, n - m);
      HighHigh(tor, m, n - m);
    }
  }

  lemma InsideSize(addr: u64, n: nat, a: u64)
    requires Inside(addr, n, a)
    ensures n < 64
  {
    hide Low, Pow2;
  }

  /** An entry that subset_match passes matches all of the block or none of it. */
  lemma EntryHomogeneous(p: Pmp, i: nat, addr: u64, n: nat, a: u64)
    requires WfPmp(p) && i < |p.entries| && Inside(addr, n, a) && Pow2(n) < WORD && !SubsetMatch(p, i, addr, Pow2(n))
    ensures Match4(p, i, a) == Match4(p, i, addr)
  {
    hide SubsetMatch, Inside, TorPaddr, TorBasePaddr, NapotMask, And, Xor, Pow2, WfPmp;
    if Mode4(p, i) == PMP_TOR {
      TorHomogeneous(p, i, addr, n, a);
    } else if Mode4(p, i) != 0 {
      NapotHomogeneous(p, i, addr, n, a);
    }
  }

  // ---- the check of an access ----

  function Step(addr: u64, off: nat): u64 {
    (addr + off) % WORD
  }

  /** Whether any and whether all of the four-byte steps of an access from `off` on match. */
  function Steps(p: Pmp, i: nat, addr: u64, off: nat, len: nat): (bool, bool)
    requires WfPmp(p) && i < |p.entries|
    decreases if off < len then len - off else 0
  {
    if off >= len then (false, true)
    else
      var m := Match4(p, i, Step(addr, off));
      var (any, all) := Steps(p, i, addr, off + 4, len);
      (m || any, m && all)
  }

  function NoMatchOk(p: Pmp, typ: AccessType, mode: Mode): bool {
    mode == PRV_M && !p.mmwp && (!p.mml || typ == LOAD || typ == STORE)
  }

  /** The answer from entry `i` on: the first entry that matches any step decides. */
  function Decide(p: Pmp, i: nat, addr: u64, len: nat, typ: AccessType, mode: Mode): bool
    requires WfPmp(p) && i <= |p.entries|
    decreases |p.entries| - i
  {
    if i == |p.entries| then NoMatchOk(p, typ, mode)
    else
      var (any, all) := Steps(p, i, addr, 0, len);
      if any then all && AccessOk(p.entries[i].cfg, p.mml, typ, mode) else Decide(p, i + 1, addr, len, typ, mode)
  }

  function PmpOk(p: Pmp, addr: u64, len: nat, typ: AccessType, mode: Mode): bool
    requires WfPmp(p)
  {
    |p.entries| == 0 || Decide(p, 0, addr, len, typ, mode)
  }

  method CheckPmp(p: Pmp, addr: u64, len: nat, typ: AccessType, mode: Mode) returns (ok: bool)
    requires WfPmp(p)
    ensures ok == PmpOk(p, addr, len, typ, mode)
  {
    hide Match4, AccessOk, Step, WfPmp;
    if |p.entries| == 0 {
      return true;
    }
    var i := 0;
    while i < |p.entries|
      invariant i <= |p.entries| && PmpOk(p, addr, len, typ, mode) == Decide(p, i, addr, len, typ, mode)
    {
      var anyMatch, allMatch := false, true;
      var offset := 0;
      while offset < len
        invariant Steps(p, i, addr, 0, len) ==
                  (anyMatch || Steps(p, i, addr, offset, len).0, allMatch && Steps(p, i, addr, offset, len).1)
        decreases len - offset
      {
        var match4 := Match4(p, i, Step(addr, offset));
        anyMatch := anyMatch || match4;
        allMatch := allMatch && match4;
        offset := offset + 4;
      }
      if anyMatch {
        if !allMatch {
          return false;
        }
        return AccessOk(p.entries[i].cfg, p.mml, typ, mode);
      }
      i := i + 1;
    }
    return NoMatchOk(p, typ, mode);
  }

  ghost predicate Homogeneous(p: Pmp, addr: u64, len: u64)
    requires WfPmp(p) && len > 0
  {
    forall i :: 0 <= i < |p.entries| ==> !SubsetMatch(p, i, addr, len)
  }

  method CheckHomogeneous(p: Pmp, addr: u64, len: u64) returns (ok: bool)
    requires WfPmp(p) && len > 0
    ensures ok == Homogeneous(p, addr, len)
  {
    hide SubsetMatch, WfPmp;
    var i := 0;
    while i < |p.entries|
      invariant i <= |p.entries| && forall j :: 0 <= j < i ==> !SubsetMatch(p, j, addr, len)
    {
      if SubsetMatch(p, i, addr, len) {
        return false;
      }
      i := i + 1;
    }
    return true;
  }

  /** The access of `len` bytes at `a` lies in the block of `Pow2(n)` bytes at `addr`. */
  ghost predicate Within(addr: u64, n: nat, a: u64, len: nat) {
    n < 64 && Low(addr, n) == 0 && addr <= a && 0 < len && a + len <= addr + Pow2(n) <= WORD
  }

  lemma StepInside(addr: u64, n: nat, a: u64, len: nat, off: nat)
    requires Within(addr, n, a, len) && off < len
    ensures Inside(addr, n, Step(a, off))
  {
    hide Low, Pow2;
  }

  lemma {:induction false} StepsSame(p: Pmp, i: nat, addr: u64, n: nat, a: u64, off: nat, len: nat)
    requires WfPmp(p) && i < |p.entries| && Within(addr, n, a, len) && Pow2(n) < WORD &&
             !SubsetMatch(p, i, addr, Pow2(n))
    ensures Steps(p, i, a, off, len) == if off >= len then (false, true) else (Match4(p, i, addr), Match4(p, i, addr))
    decreases if off < len then len - off else 0
  {
    hide Match4, SubsetMatch, Inside, Step, WfPmp, Within, Pow2;
    if off < len {
      StepInside(addr, n, a, len, off);
      EntryHomogeneous(p, i, addr, n, Step(a, off));
      StepsSame(p, i, addr, n, a, off + 4, len);
    }
  }

  lemma {:induction false} DecideSame(p: Pmp, i: nat, addr: u64, n: nat, a: u64, len: nat, b: u64, len2: nat,
                                      typ: AccessType, mode: Mode)
    requires WfPmp(p) && i <= |p.entries| && Pow2(n) < WORD && Homogeneous(p, addr, Pow2(n))
    requires Within(addr, n, a, len) && Within(addr, n, b, len2)
    ensures Decide(p, i, a, len, typ, mode) == Decide(p, i, b, len2, typ, mode)
    decreases |p.entries| - i
  {
    hide Match4, SubsetMatch, Inside, Steps, AccessOk, WfPmp, Within, Pow2;
    if i < |p.entries| {
      StepsSame(p, i, addr, n, a, 0, len);
      StepsSame(p, i, addr, n, b, 0, len2);
      NotEmpty(addr, n, a, len);
      NotEmpty(addr, n, b, len2);
      DecideSame(p, i + 1, addr, n, a, len, b, len2, typ, mode);
    }
  }

  lemma NotEmpty(addr: u64, n: nat, a: u64, len: nat)
    requires Within(addr, n, a, len)
    ensures len > 0
  {
    hide Low, Pow2;
  }

  /** In a block that pmp_homogeneous accepts every access gets the same answer, of each type and in each mode. */
  lemma HomogeneousIsSound(p: Pmp, addr: u64, n: nat, a: u64, len: nat, b: u64, len2: nat, typ: AccessType, mode: Mode)
    requires WfPmp(p) && Pow2(n) < WORD && Homogeneous(p, addr, Pow2(n))
    requires Within(addr, n, a, len) && Within(addr, n, b, len2)
    ensures PmpOk(p, a, len, typ, mode) == PmpOk(p, b, len2, typ, mode)
  {
    hide Homogeneous, Within, WfPmp, Decide, Pow2;
    DecideSame(p, 0, addr, n, a, len, b, len2, typ, mode);
  }
}
