/**
 What the PMP check answers: the range of an entry from the fields of its register, the entry that decides, and the
 permissions of the two tables of the Privileged Architecture and of Smepmp.
 */
module PmpRules {
  import opened Common
  import opened Bits
  import opened P = Pmp

  // ---- the range of an entry ----

  /** `x` with its low `n` bits cleared. */
  function ClearLow(x: nat, n: nat): nat {
    x - Low(x, n)
  }

  /** The first address and the end of what a TOR entry matches. */
  function TorRange(p: Pmp, i: nat): (int, int)
    requires i < |p.entries|
  {
    (if i == 0 then 0 else 4 * ClearLow(p.entries[i - 1].val, p.grain), 4 * ClearLow(p.entries[i].val, p.grain))
  }

  /** The logarithm of the size of a NAPOT or NA4 entry: four bytes, doubled for each bit below the first zero. */
  function RangeLog(val: nat, napot: bool, grain: nat): nat {
    2 + grain + Ones(High(2 * val + if napot then 1 else 0, grain))
  }

  /** The first address and the end of what any entry matches. */
  function RangeOf(p: Pmp, i: nat): (int, int)
    requires i < |p.entries|
  {
    var val, cfg := p.entries[i].val, p.entries[i].cfg;
    if cfg & 0x18 == 0 then (0, 0)
    else if cfg & 0x18 == 0x08 then TorRange(p, i)
    else
      var n := RangeLog(val, cfg & 0x18 == 0x18, p.grain);
      (ClearLow(4 * val, n), ClearLow(4 * val, n) + Pow2(n))
  }

  lemma TorPaddrIs(p: Pmp, i: nat)
    requires WfPmp(p) && i < |p.entries|
    ensures TorPaddr(p, i) == 4 * ClearLow(p.entries[i].val, p.grain)
  {
    hide And, Low, Pow2;
    Pow2Is64();
    Pow2Monotone(54, 64);
    AndHigh(p.entries[i].val, 64, p.grain);
  }

  lemma {:induction false} OnesOfOr(x: nat, n: nat)
    ensures Ones(Or(x, Pow2(n) - 1)) == n + Ones(High(x, n))
    decreases n
  {
    hide Or;
    if n == 0 {
      OrNone(x);
    } else {
      OrOnes(x, n);
      OnesOfOr(x / 2, n - 1);
    }
  }

  lemma OrNone(x: nat)
    ensures Or(x, 0) == x
  {
  }

  lemma OrOnes(x: nat, n: nat)
    requires n > 0
    ensures Or(x, Pow2(n) - 1) == 1 + 2 * Or(x / 2, Pow2(n - 1) - 1)
  {
    HalfOnes(Pow2(n - 1));
  }

  lemma HalfOnes(m: nat)
    requires m > 0
    ensures (2 * m - 1) / 2 == m - 1 && (2 * m - 1) % 2 == 1
  {
  }

  lemma OrBit(x: nat, b: nat)
    requires b <= 1
    ensures Or(2 * x, b) == 2 * x + b
  {
    hide Or;
    Pow2Small();
    assert Low(2 * x, 1) == 0 by {
      assert Low(x, 0) == 0;
    }
    OrIsSum(2 * x, b, 1);
  }

  lemma SizeLogIs(p: Pmp, i: nat)
    requires WfPmp(p) && i < |p.entries|
    ensures SizeLog(p, i) == RangeLog(p.entries[i].val, Mode4(p, i) != PMP_NA4, p.grain)
  {
    hide Or, High, Ones, Pow2;
    GrainFits(p);
    var b := if Mode4(p, i) == PMP_NA4 then 0 else 1;
    OrBit(p.entries[i].val, b);
    OnesOfOr(2 * p.entries[i].val + b, p.grain);
  }

  /** Clearing bits of four times a register above its granularity. */
  lemma ClearTwice(val: nat, grain: nat, n: nat)
    requires grain + 2 <= n
    ensures ClearLow(4 * ClearLow(val, grain), n) == ClearLow(4 * val, n)
  {
    hide Low, High, Pow2;
    var a, b := 4 * ClearLow(val, grain), 4 * val;
    Pow2Is64();
    Pow2Add(2, grain);
    Split(val, grain);
    assert 0 <= b - a < Pow2(grain + 2);
    MultipleOfFour(val, grain);
    SameUnit(a, b, grain + 2);
    HighHigh(a, grain + 2, n - grain - 2);
    HighHigh(b, grain + 2, n - grain - 2);
    Split(a, n);
    Split(b, n);
  }

  lemma MultipleOfFour(val: nat, grain: nat)
    ensures Low(4 * ClearLow(val, grain), grain + 2) == 0
  {
    hide Low, High, Pow2;
    var q := High(val, grain);
    Split(val, grain);
    Pow2Is64();
    Pow2Add(2, grain);
    assert 4 * (q * Pow2(grain)) == q * Pow2(grain + 2) by {
      FourTimes(q, Pow2(grain), Pow2(grain + 2));
    }
    LowOfMultiple(q, grain + 2);
  }

  lemma FourTimes(q: nat, a: nat, b: nat)
    requires b == 4 * a
    ensures 4 * (q * a) == q * b
  {
  }

  lemma SameUnit(a: nat, b: nat, n: nat)
    requires Low(a, n) == 0 && a <= b < a + Pow2(n)
    ensures High(b, n) == High(a, n)
  {
    hide Low, High, Pow2;
    SameHigh(b, a, n);
  }

  lemma ModeIs(p: Pmp, i: nat)
    requires i < |p.entries|
    ensures Mode4(p, i) == p.entries[i].cfg & 0x18 && Mode4(p, i) in {0, 0x08, 0x10, 0x18}
    ensures PMP_TOR == 0x08 && PMP_NA4 == 0x10 && PMP_NAPOT == 0x18
  {
  }

  /** An entry matches exactly the addresses of its range. */
  lemma MatchIsRange(p: Pmp, i: nat, addr: u64)
    requires WfPmp(p) && i < |p.entries|
    ensures Match4(p, i, addr) <==> RangeOf(p, i).0 <= addr < RangeOf(p, i).1
  {
    hide And, Xor, High, Low, Pow2, SizeLog, NapotMask, TorPaddr, Ones, ClearLow, Mode4, WfPmp;
    ModeIs(p, i);
    TorPaddrIs(p, i);
    if Mode4(p, i) == PMP_TOR {
      if i > 0 {
        TorPaddrIs(p, i - 1);
      }
    } else if Mode4(p, i) != 0 {
      NapotIsInterval(p, i, addr);
      SizeLogIs(p, i);
      ClearTwice(p.entries[i].val, p.grain, SizeLog(p, i));
      ClearIs(TorPaddr(p, i), SizeLog(p, i));
    }
  }

  lemma ClearIs(x: nat, n: nat)
    ensures ClearLow(x, n) == x - Low(x, n)
  {
    hide Low;
  }

  // ---- homogeneity, exactly ----

  /** The block of `size` bytes at `addr` meets the range and does not lie in it. */
  predicate Straddles(range: (int, int), addr: nat, size: nat) {
    addr < range.1 && range.0 < addr + size && !(range.0 <= addr && addr + size <= range.1)
  }

  lemma EndsBefore(addr: u64, n: nat, bound: u64)
    requires n < 64 && Low(addr, n) == 0
    ensures addr < bound - Low(bound, n) <==> addr + Pow2(n) <= bound
  {
    hide Low, High, Pow2;
    Split(bound, n);
    if addr < bound - Low(bound, n) {
      BlocksApart(addr, n, bound);
    }
  }

  lemma TorSubsetIs(p: Pmp, i: nat, addr: u64, n: nat)
    requires WfPmp(p) && i < |p.entries| && Mode4(p, i) == PMP_TOR
    requires n < 64 && 0 < Pow2(n) < WORD && Low(addr, n) == 0
    ensures SubsetMatch(p, i, addr, Pow2(n)) <==> Straddles(RangeOf(p, i), addr, Pow2(n))
  {
    hide And, Xor, Low, Pow2, TorPaddr, NapotMask, ClearLow, Mode4, WfPmp;
    ModeIs(p, i);
    TorPaddrIs(p, i);
    if i > 0 {
      TorPaddrIs(p, i - 1);
    }
    Pow2Is64();
    MaskBlock(addr, n);
    MaskBlock(TorBasePaddr(p, i), n);
    MaskBlock(TorPaddr(p, i), n);
    EndsBefore(addr, n, TorBasePaddr(p, i));
    EndsBefore(addr, n, TorPaddr(p, i));
  }

  /** The other direction of `NapotSubset`. */
  lemma NapotNoSubset(p: Pmp, i: nat, addr: u64, n: nat)
    requires WfPmp(p) && i < |p.entries| && Mode4(p, i) != 0 && Mode4(p, i) != PMP_TOR
    requires n < 64 && 0 < Pow2(n) < WORD && SubsetMatch(p, i, addr, Pow2(n))
    ensures n > SizeLog(p, i) && High(addr, n) == High(TorPaddr(p, i), n)
  {
    hide And, Xor, High, Low, Pow2, SizeLog, TorPaddr, TorBasePaddr, NapotMask;
    NapotMaskIs(p, i);
    MaskTest(SizeLog(p, i), n);
    var x := Xor(addr, TorPaddr(p, i));
    HighIsDiv(x, n);
    XorHigh(addr, TorPaddr(p, i), n);
    XorZero(High(addr, n), High(TorPaddr(p, i), n));
  }

  lemma NapotStraddles(p: Pmp, i: nat, addr: u64, n: nat)
    requires WfPmp(p) && i < |p.entries| && Mode4(p, i) != 0 && Mode4(p, i) != PMP_TOR
    requires n < 64 && 0 < Pow2(n) < WORD && Low(addr, n) == 0 && SubsetMatch(p, i, addr, Pow2(n))
    ensures Straddles(RangeOf(p, i), addr, Pow2(n))
  {
    hide And, Xor, High, Low, Pow2, SizeLog, TorPaddr, NapotMask, ClearLow, Mode4, WfPmp, SubsetMatch, Match4;
    ModeIs(p, i);
    NapotNoSubset(p, i, addr, n);
    NapotIsInterval(p, i, TorPaddr(p, i));
    MatchIsRange(p, i, TorPaddr(p, i));
    SizeLogIs(p, i);
    Pow2Monotone(SizeLog(p, i), n);
    SameHigh(TorPaddr(p, i), addr, n);
  }

  /** Two addresses of a block that straddles a range that is not empty: one in the range, one not. */
  lemma StraddlingSplits(p: Pmp, i: nat, addr: u64, n: nat) returns (a: u64, b: u64)
    requires WfPmp(p) && i < |p.entries| && n < 64 && Low(addr, n) == 0 && addr + Pow2(n) <= WORD
    requires Straddles(RangeOf(p, i), addr, Pow2(n)) && RangeOf(p, i).0 < RangeOf(p, i).1
    ensures Inside(addr, n, a) && Inside(addr, n, b) && Match4(p, i, a) && !Match4(p, i, b)
  {
    hide Match4, RangeOf, Low, Pow2, WfPmp;
    var (lo, hi) := RangeOf(p, i);
    a := if lo > addr then lo else addr;
    b := if lo > addr then addr else hi;
    MatchIsRange(p, i, a);
    MatchIsRange(p, i, b);
  }

  lemma BlockFits(addr: u64, n: nat)
    requires n < 64 && Low(addr, n) == 0
    ensures 0 < Pow2(n) < WORD && addr + Pow2(n) <= WORD
  {
    hide Low, High, Pow2;
    Pow2Is64();
    Pow2Monotone(n, 64);
    Pow2Add(64 - n, n);
    LowOfMultiple(Pow2(64 - n), n);
    Split(addr, n);
    EndsBefore64(addr, n);
  }

  lemma EndsBefore64(addr: u64, n: nat)
    requires n < 64 && Low(addr, n) == 0 && Pow2(64) == WORD && Pow2(64 - n) * Pow2(n) == WORD
    requires addr == High(addr, n) * Pow2(n)
    ensures addr + Pow2(n) <= WORD
  {
    hide Low, High, Pow2;
    if High(addr, n) >= Pow2(64 - n) {
      MulLe(Pow2(64 - n), High(addr, n), Pow2(n));
    } else {
      MulLe(High(addr, n) + 1, Pow2(64 - n), Pow2(n));
    }
  }

  /** subset_match on an aligned block: whether the block straddles the range of the entry. */
  lemma SubsetIsStraddling(p: Pmp, i: nat, addr: u64, n: nat)
    requires WfPmp(p) && i < |p.entries| && n < 64 && Low(addr, n) == 0
    ensures 0 < Pow2(n) < WORD
    ensures SubsetMatch(p, i, addr, Pow2(n)) <==> Straddles(RangeOf(p, i), addr, Pow2(n))
  {
    hide SubsetMatch, RangeOf, Straddles, Low, Pow2, WfPmp, Inside, Match4;
    BlockFits(addr, n);
    RangeCases(p, i);
    if Mode4(p, i) == PMP_TOR {
      TorSubsetIs(p, i, addr, n);
    } else if Mode4(p, i) != 0 {
      if SubsetMatch(p, i, addr, Pow2(n)) {
        NapotStraddles(p, i, addr, n);
      } else if Straddles(RangeOf(p, i), addr, Pow2(n)) {
        var a, b := StraddlingSplits(p, i, addr, n);
        EntryHomogeneous(p, i, addr, n, a);
        EntryHomogeneous(p, i, addr, n, b);
      }
    } else {
      OffIsNeither(p, i, addr, n);
    }
  }

  lemma RangeCases(p: Pmp, i: nat)
    requires i < |p.entries|
    ensures Mode4(p, i) == 0 ==> RangeOf(p, i) == (0, 0)
    ensures Mode4(p, i) != 0 && Mode4(p, i) != PMP_TOR ==> RangeOf(p, i).0 < RangeOf(p, i).1
  {
    hide Low, Pow2, RangeLog;
    ModeIs(p, i);
  }

  lemma OffIsNeither(p: Pmp, i: nat, addr: u64, n: nat)
    requires WfPmp(p) && i < |p.entries| && Mode4(p, i) == 0 && 0 < Pow2(n) < WORD && RangeOf(p, i) == (0, 0)
    ensures !SubsetMatch(p, i, addr, Pow2(n)) && !Straddles(RangeOf(p, i), addr, Pow2(n))
  {
    hide RangeOf, Pow2, And, Xor, NapotMask;
  }

  /**
   So it accepts a block exactly when the entry matches all of it or none of it, but for a TOR entry whose bounds are in
   the wrong order: such a one matches nothing, and is not accepted when the block begins below both and reaches the
   lower.
   */
  lemma SubsetIsPartial(p: Pmp, i: nat, addr: u64, n: nat)
    requires WfPmp(p) && i < |p.entries| && n < 64 && Low(addr, n) == 0
    ensures 0 < Pow2(n) < WORD
    ensures SubsetMatch(p, i, addr, Pow2(n)) <==>
            (exists a: u64, b: u64 ::
               Inside(addr, n, a) && Inside(addr, n, b) && Match4(p, i, a) && !Match4(p, i, b)) ||
            (RangeOf(p, i).1 <= RangeOf(p, i).0 && addr < RangeOf(p, i).1 && RangeOf(p, i).0 < addr + Pow2(n))
  {
    hide SubsetMatch, RangeOf, Low, Pow2, WfPmp, Inside, Match4;
    BlockFits(addr, n);
    SubsetIsStraddling(p, i, addr, n);
    if SubsetMatch(p, i, addr, Pow2(n)) {
      if RangeOf(p, i).0 < RangeOf(p, i).1 {
        var a, b := StraddlingSplits(p, i, addr, n);
      }
    } else {
      forall a: u64, b: u64 | Inside(addr, n, a) && Inside(addr, n, b)
        ensures Match4(p, i, a) == Match4(p, i, b)
      {
        EntryHomogeneous(p, i, addr, n, a);
        EntryHomogeneous(p, i, addr, n, b);
      }
    }
  }

  // ---- the permissions ----

  /** What the bits R, W and X permit. */
  function Bare(r: bool, w: bool, x: bool): set<AccessType> {
    (if r then {LOAD} else {}) + (if w then {STORE} else {}) + (if x then {FETCH} else {})
  }

  /** The table of Smepmp for a machine-mode access, by L, R, W and X. */
  function MachineTable(l: bool, r: bool, w: bool, x: bool): set<AccessType> {
    match (l, r, w, x)
    case (false, false, false, false) => {}
    case (false, false, false, true) => {}
    case (false, false, true, false) => {LOAD, STORE}
    case (false, false, true, true) => {LOAD, STORE}
    case (false, true, false, false) => {}
    case (false, true, false, true) => {}
    case (false, true, true, false) => {}
    case (false, true, true, true) => {}
    case (true, false, false, false) => {}
    case (true, false, false, true) => {FETCH}
    case (true, false, true, false) => {FETCH}
    case (true, false, true, true) => {LOAD, FETCH}
    case (true, true, false, false) => {LOAD}
    case (true, true, false, true) => {LOAD, FETCH}
    case (true, true, true, false) => {LOAD, STORE}
    case (true, true, true, true) => {LOAD}
  }

  /** The same for a supervisor or user access. */
  function UserTable(l: bool, r: bool, w: bool, x: bool): set<AccessType> {
    match (l, r, w, x)
    case (false, false, false, false) => {}
    case (false, false, false, true) => {FETCH}
    case (false, false, true, false) => {LOAD}
    case (false, false, true, true) => {LOAD, STORE}
    case (false, true, false, false) => {LOAD}
    case (false, true, false, true) => {LOAD, FETCH}
    case (false, true, true, false) => {LOAD, STORE}
    case (false, true, true, true) => {LOAD, STORE, FETCH}
    case (true, false, false, false) => {}
    case (true, false, false, true) => {}
    case (true, false, true, false) => {FETCH}
    case (true, false, true, true) => {FETCH}
    case (true, true, false, false) => {}
    case (true, true, false, true) => {}
    case (true, true, true, false) => {}
    case (true, true, true, true) => {LOAD}
  }

  /** What a configuration byte permits: R is bit 0, W bit 1, X bit 2 and L bit 7. */
  function Permitted(cfg: bv8, mml: bool, mode: Mode): set<AccessType> {
    var l, r, w, x := cfg & 0x80 != 0, cfg & 0x01 != 0, cfg & 0x02 != 0, cfg & 0x04 != 0;
    if mml then (if mode == PRV_M then MachineTable(l, r, w, x) else UserTable(l, r, w, x))
    else if mode == PRV_M && !l then {LOAD, STORE, FETCH}
    else Bare(r, w, x)
  }

  lemma PermittedIs(cfg: bv8, mml: bool, typ: AccessType, mode: Mode)
    ensures AccessOk(cfg, mml, typ, mode) <==> typ in Permitted(cfg, mml, mode)
  {
    if mml {
      if mode == PRV_M {
        MachineRows(cfg, typ);
      } else {
        UserRows(cfg, typ, mode);
      }
    }
  }

  lemma MachineRows(cfg: bv8, typ: AccessType)
    ensures AccessOk(cfg, true, typ, PRV_M) <==>
            typ in MachineTable(cfg & 0x80 != 0, cfg & 0x01 != 0, cfg & 0x02 != 0, cfg & 0x04 != 0)
  {
  }

  lemma UserRows(cfg: bv8, typ: AccessType, mode: Mode)
    requires mode != PRV_M
    ensures AccessOk(cfg, true, typ, mode) <==>
            typ in UserTable(cfg & 0x80 != 0, cfg & 0x01 != 0, cfg & 0x02 != 0, cfg & 0x04 != 0)
  {
  }

  // ---- the answer ----

  /** A four-byte step of the access that entry `i` matches. */
  ghost predicate Hits(p: Pmp, i: nat, addr: u64, len: nat, off: nat)
    requires i < |p.entries|
  {
    off < len && off % 4 == 0 && RangeOf(p, i).0 <= (addr + off) % WORD < RangeOf(p, i).1
  }

  ghost predicate Touches(p: Pmp, i: nat, addr: u64, len: nat)
    requires i < |p.entries|
  {
    TouchesFrom(p, i, addr, 0, len)
  }

  ghost predicate Covers(p: Pmp, i: nat, addr: u64, len: nat)
    requires i < |p.entries|
  {
    CoversFrom(p, i, addr, 0, len)
  }

  ghost predicate TouchesFrom(p: Pmp, i: nat, addr: u64, from: nat, len: nat)
    requires i < |p.entries|
  {
    exists off: nat :: from <= off && Hits(p, i, addr, len, off)
  }

  ghost predicate CoversFrom(p: Pmp, i: nat, addr: u64, from: nat, len: nat)
    requires i < |p.entries|
  {
    forall off: nat :: from <= off < len && off % 4 == 0 ==> Hits(p, i, addr, len, off)
  }

  /** Entry `i` is the first one that matches any of the access. */
  ghost predicate Decides(p: Pmp, i: nat, addr: u64, len: nat) {
    i < |p.entries| && Touches(p, i, addr, len) && forall j :: 0 <= j < i ==> !Touches(p, j, addr, len)
  }

  lemma {:induction false} StepsAre(p: Pmp, i: nat, addr: u64, from: nat, len: nat)
    requires WfPmp(p) && i < |p.entries| && from % 4 == 0
    ensures Steps(p, i, addr, from, len) == (TouchesFrom(p, i, addr, from, len), CoversFrom(p, i, addr, from, len))
    decreases if from < len then len - from else 0
  {
    hide Match4, Hits, TouchesFrom, CoversFrom, RangeOf, WfPmp;
    if from < len {
      HitIs(p, i, addr, from, len);
      NextFour(from);
      StepsAre(p, i, addr, from + 4, len);
      TouchesStep(p, i, addr, from, len);
      CoversStep(p, i, addr, from, len);
    } else {
      NothingLeft(p, i, addr, from, len);
    }
  }

  lemma HitIs(p: Pmp, i: nat, addr: u64, off: nat, len: nat)
    requires WfPmp(p) && i < |p.entries| && off % 4 == 0 && off < len
    ensures Match4(p, i, Step(addr, off)) <==> Hits(p, i, addr, len, off)
  {
    hide Match4, RangeOf, WfPmp;
    MatchIsRange(p, i, Step(addr, off));
  }

  lemma NextFour(from: nat)
    requires from % 4 == 0
    ensures (from + 4) % 4 == 0
  {
  }

  lemma NoneBetween(from: nat, off: nat)
    requires from % 4 == 0 && off % 4 == 0 && from < off
    ensures from + 4 <= off
  {
    assert from == 4 * (from / 4) && off == 4 * (off / 4);
  }

  lemma TouchesStep(p: Pmp, i: nat, addr: u64, from: nat, len: nat)
    requires i < |p.entries| && from % 4 == 0
    ensures TouchesFrom(p, i, addr, from, len) <==>
            Hits(p, i, addr, len, from) || TouchesFrom(p, i, addr, from + 4, len)
  {
    hide RangeOf;
    if TouchesFrom(p, i, addr, from, len) {
      var off: nat :| from <= off && Hits(p, i, addr, len, off);
      if off > from {
        NoneBetween(from, off);
      }
    }
  }

  lemma CoversStep(p: Pmp, i: nat, addr: u64, from: nat, len: nat)
    requires i < |p.entries| && from % 4 == 0 && from < len
    ensures CoversFrom(p, i, addr, from, len) <==>
            Hits(p, i, addr, len, from) && CoversFrom(p, i, addr, from + 4, len)
  {
    hide Hits;
    if Hits(p, i, addr, len, from) && CoversFrom(p, i, addr, from + 4, len) {
      forall off: nat | from <= off < len && off % 4 == 0
        ensures Hits(p, i, addr, len, off)
      {
        if off > from {
          NoneBetween(from, off);
        }
      }
    }
  }

  lemma NothingLeft(p: Pmp, i: nat, addr: u64, from: nat, len: nat)
    requires i < |p.entries| && from >= len
    ensures !TouchesFrom(p, i, addr, from, len) && CoversFrom(p, i, addr, from, len)
  {
  }

  lemma {:induction false} DecideIs(p: Pmp, k: nat, addr: u64, len: nat, typ: AccessType, mode: Mode)
    requires WfPmp(p) && k <= |p.entries| && forall j :: 0 <= j < k ==> !Touches(p, j, addr, len)
    ensures Decide(p, k, addr, len, typ, mode) <==>
            (exists i: nat :: Decides(p, i, addr, len) && Covers(p, i, addr, len) &&
               typ in Permitted(p.entries[i].cfg, p.mml, mode)) ||
            ((forall i :: 0 <= i < |p.entries| ==> !Touches(p, i, addr, len)) && NoMatchOk(p, typ, mode))
    decreases |p.entries| - k
  {
    hide Steps, TouchesFrom, CoversFrom, AccessOk, Permitted, WfPmp, NoMatchOk;
    if k < |p.entries| {
      StepsAre(p, k, addr, 0, len);
      PermittedIs(p.entries[k].cfg, p.mml, typ, mode);
      if Touches(p, k, addr, len) {
        assert Decides(p, k, addr, len);
        assert forall i: nat :: Decides(p, i, addr, len) ==> i == k;
      } else {
        DecideIs(p, k + 1, addr, len, typ, mode);
      }
    }
  }

  /**
   An access is allowed when PMP has no entries, or the first entry that matches any four bytes of it matches them all
   and permits it, or no entry matches any, the access is a machine-mode one, MMWP is clear, and it is no fetch under
   MML.
   */
  ghost predicate Allows(p: Pmp, addr: u64, len: nat, typ: AccessType, mode: Mode) {
    p.entries == [] ||
    (exists i: nat :: Decides(p, i, addr, len) && Covers(p, i, addr, len) &&
       typ in Permitted(p.entries[i].cfg, p.mml, mode)) ||
    ((forall i :: 0 <= i < |p.entries| ==> !Touches(p, i, addr, len)) &&
     mode == PRV_M && !p.mmwp && !(p.mml && typ == FETCH))
  }

  /** That is what the check answers. */
  lemma Answer(p: Pmp, addr: u64, len: nat, typ: AccessType, mode: Mode)
    requires WfPmp(p)
    ensures PmpOk(p, addr, len, typ, mode) <==> Allows(p, addr, len, typ, mode)
  {
    hide Decide, Touches, Covers, Permitted, WfPmp;
    DecideIs(p, 0, addr, len, typ, mode);
  }
}
