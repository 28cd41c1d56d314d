/** Address translation: the page-table walk, its leaf ranges, and what setting accessed and dirty bits changes. */
module Mmu {
  import opened Common
  import opened Bits
  import opened P = Pmp

  const PGSIZE := 0x1000
  const PAGES := 0x10_0000_0000_0000

  datatype SatpMode = Off | Sv32 | Sv39 | Sv48 | Sv57

  /**
   Everything translation depends on besides the page tables; `host` is where a physical page is kept, if it is memory.
   */
  datatype Config = Config(
    xlen: nat, prv: Mode, mprv: bool, mpp: Mode, satpMode: SatpMode, satpPpn: nat,
    sum: bool, mxr: bool, pbmte: bool, hade: bool, svnapot: bool, pmp: Pmp,
    checkFetch: bool, checkLoad: bool, checkStore: bool, host: nat -> Option<nat>)

  datatype VmInfo = VmInfo(levels: nat, idxbits: nat, ptesize: nat, ptbase: nat)

  /** Words of the page tables by address. */
  type Ptes = map<nat, nat>

  predicate WfConfig(c: Config)
    ensures WfConfig(c) ==> WfPmp(c.pmp)
  {
    WfPmp(c.pmp) && c.xlen <= 64
  }

  function DecodeVmInfo(c: Config, prv: Mode): VmInfo {
    if prv == PRV_M then VmInfo(0, 0, 0, 0)
    else
      match c.satpMode
      case Off => VmInfo(0, 0, 0, 0)
      case Sv32 => VmInfo(2, 10, 4, c.satpPpn * PGSIZE)
      case Sv39 => VmInfo(3, 9, 8, c.satpPpn * PGSIZE)
      case Sv48 => VmInfo(4, 9, 8, c.satpPpn * PGSIZE)
      case Sv57 => VmInfo(5, 9, 8, c.satpPpn * PGSIZE)
  }

  // ---- page table entries ----

  datatype Pte = Pte(v: bool, r: bool, w: bool, x: bool, u: bool, a: bool, d: bool, ppn: nat, rsvd: bool, pbmt: nat,
                     n: bool)

  /** The bit of `w` of value `unit`. */
  predicate Bit(w: nat, unit: nat)
    requires unit > 0
  {
    w / unit % 2 == 1
  }

  /** The fields of a page table entry; reserved bits, memory type and N lie above the page number. */
  function DecodePte(w: nat): Pte {
    var h := w / 0x400;
    Pte(Bit(w, 0x01), Bit(w, 0x02), Bit(w, 0x04), Bit(w, 0x08), Bit(w, 0x10), Bit(w, 0x40), Bit(w, 0x80),
        h % 0x1000_0000_0000, h / 0x1000_0000_0000 % 0x80 != 0, h / 0x8_0000_0000_0000 % 4, Bit(h, 0x20_0000_0000_0000))
  }

  /** Where the table that an entry points to lies. */
  function TableBase(p: Pte): nat {
    p.ppn * PGSIZE
  }

  /** `pte | PTE_A` or `pte | PTE_A | PTE_D` */
  function SetAd(w: nat, store: bool): nat {
    Or(w, if store then 0xc0 else 0x40)
  }

  /** PTE_TABLE: a pointer to the next level. */
  predicate IsTable(p: Pte) {
    p.v && !p.r && !p.w && !p.x
  }

  lemma {:induction false} OrHigh(x: nat, y: nat, n: nat)
    ensures High(Or(x, y), n) == Or(High(x, n), High(y, n))
    decreases n
  {
    hide Or;
    if n > 0 {
      OrHalf(x, y);
      OrHigh(x / 2, y / 2, n - 1);
    }
  }

  lemma OrHalf(x: nat, y: nat)
    ensures Or(x, y) / 2 == Or(x / 2, y / 2)
    ensures Or(x, y) % 2 == if x % 2 == 1 || y % 2 == 1 then 1 else 0
  {
  }

  lemma {:induction false} OrLowZero(x: nat, y: nat, n: nat)
    requires Low(y, n) == 0
    ensures Low(Or(x, y), n) == Low(x, n)
    decreases n
  {
    hide Or;
    if n > 0 {
      OrHalf(x, y);
      OrLowZero(x / 2, y / 2, n - 1);
    }
  }

  lemma {:induction false} SmallPowers()
    ensures Pow2(6) == 0x40 && Pow2(7) == 0x80 && Pow2(10) == 0x400
  {
    hide Pow2;
    Pow2Small();
    Pow2Add(2, 2);
    Pow2Add(4, 2);
    Pow2Add(6, 1);
    Pow2Add(8, 2);
  }

  /** The parts of a word that its fields are read from. */
  lemma WordParts(w: nat)
    ensures High(w, 6) == w / 0x40 && Low(w, 6) == w % 0x40 && High(w, 7) == w / 0x80 && High(w, 10) == w / 0x400
  {
    hide High, Low, Pow2;
    SmallPowers();
    HighIsDiv(w, 6);
    HighIsDiv(w, 7);
    HighIsDiv(w, 10);
  }

  /** Two words that agree below bit 6 and from bit 10 on have the same fields but these two. */
  lemma SameFields(w: nat, w': nat)
    requires w' % 0x40 == w % 0x40 && w' / 0x400 == w / 0x400
    ensures DecodePte(w') == DecodePte(w).(a := Bit(w', 0x40), d := Bit(w', 0x80))
  {
    LowBits(w / 0x40, w % 0x40);
    LowBits(w' / 0x40, w' % 0x40);
  }

  lemma LowBits(q: nat, r: nat)
    ensures (0x40 * q + r) % 2 == r % 2 && (0x40 * q + r) / 2 % 2 == r / 2 % 2 && (0x40 * q + r) / 4 % 2 == r / 4 % 2
    ensures (0x40 * q + r) / 8 % 2 == r / 8 % 2 && (0x40 * q + r) / 0x10 % 2 == r / 0x10 % 2
  {
    Halve(0x20 * q, r);
    Halve(0x10 * q, r / 2);
    Halve(0x08 * q, r / 4);
    Halve(0x04 * q, r / 8);
    Halve(0x02 * q, r / 0x10);
    Quarters(0x40 * q + r);
    Quarters(r);
  }

  lemma Halve(q: nat, r: nat)
    ensures (2 * q + r) / 2 == q + r / 2 && (2 * q + r) % 2 == r % 2
  {
  }

  lemma Quarters(x: nat)
    ensures x / 2 / 2 == x / 4 && x / 4 / 2 == x / 8 && x / 8 / 2 == x / 0x10
  {
  }

  /** Setting the accessed and dirty bits changes these two fields and nothing else. */
  lemma DecodeSetAd(w: nat, store: bool)
    ensures DecodePte(SetAd(w, store)) == DecodePte(w).(a := true, d := DecodePte(w).d || store)
  {
    hide Or, High, Low, Pow2;
    var y := if store then 0xc0 else 0x40;
    var w' := SetAd(w, store);
    WordParts(w);
    WordParts(y);
    WordParts(w');
    OrHigh(w, y, 6);
    OrHigh(w, y, 7);
    OrHigh(w, y, 10);
    OrLowZero(w, y, 6);
    OrHalf(w / 0x40, y / 0x40);
    OrHalf(w / 0x80, y / 0x80);
    OrNothing(w / 0x400);
    SameFields(w, w');
    hide DecodePte;
    DecodeD(w);
  }

  lemma DecodeD(w: nat)
    ensures DecodePte(w).d == Bit(w, 0x80)
  {
  }

  lemma OrNothing(x: nat)
    ensures Or(x, 0) == x
  {
  }

  // ---- one level of the walk ----

  datatype Exam = Bad | Table | Leaf

  /** The checks of one entry up to the accessed and dirty bits. */
  function Examine(c: Config, p: Pte, ptshift: nat, typ: AccessType, mode: Mode): Exam {
    if p.rsvd then Bad
    else if !c.svnapot && p.n then Bad
    else if !c.pbmte && p.pbmt != 0 then Bad
    else if p.pbmt == 3 then Bad
    else if IsTable(p) then (if p.d || p.a || p.u || p.n || p.pbmt != 0 then Bad else Table)
    else if (if p.u then mode == PRV_S && (typ == FETCH || !c.sum) else mode != PRV_S) then Bad
    else if !p.v || (!p.r && p.w) then Bad
    else if (match typ
             case FETCH => !p.x
             case LOAD => !p.r && !(c.mxr && p.x)
             case STORE => !(p.r && p.w)) then Bad
    else if Low(p.ppn, ptshift) != 0 then Bad
    else Leaf
  }

  function Ctz(x: nat): nat {
    if x == 0 || x % 2 == 1 then 0 else 1 + Ctz(x / 2)
  }

  function NapotBits(p: Pte): nat {
    if p.n then Ctz(p.ppn) + 1 else 0
  }

  predicate NapotOk(p: Pte, i: nat) {
    !(p.n && (p.ppn == 0 || i != 0)) && (NapotBits(p) == 0 || NapotBits(p) == 4)
  }

  /** The physical page of a leaf: its page number with the low bits of the virtual one or-ed in. */
  function LeafPage(p: Pte, vpn: nat, ptshift: nat): nat {
    Or(Or(p.ppn - Low(p.ppn, NapotBits(p)), Low(vpn, NapotBits(p))), Low(vpn, ptshift))
  }

  /** The accessed or dirty bit that the access needs is not set yet. */
  predicate NeedsAd(p: Pte, typ: AccessType) {
    !p.a || (typ == STORE && !p.d)
  }

  datatype WalkResult = Found(page: nat) | PageFault | AccessFault

  function PteAddr(vm: VmInfo, base: nat, vpn: nat, i: nat): nat {
    base + Low(High(vpn, i * vm.idxbits), vm.idxbits) * vm.ptesize
  }

  /** A load or store of a page table entry: allowed by PMP as a supervisor access, and memory. */
  predicate PteOk(c: Config, pt: Ptes, addr: nat, len: nat, typ: AccessType)
    requires WfPmp(c.pmp)
    ensures PteOk(c, pt, addr, len, typ) ==> addr in pt && addr < WORD
  {
    hide *;
    addr < WORD && PmpOk(c.pmp, addr, len, typ, PRV_S) && addr in pt
  }

  /** The last part of the walk, at a leaf: the accessed and dirty bits, then the page. */
  function AtLeaf(c: Config, vm: VmInfo, pt: Ptes, vpn: nat, typ: AccessType, i: nat, addr: nat): (WalkResult, Ptes)
    requires WfPmp(c.pmp) && addr in pt
  {
    hide *;
    var w := pt[addr];
    var p := DecodePte(w);
    if NeedsAd(p, typ) && !c.hade then (PageFault, pt)
    else if NeedsAd(p, typ) && !PteOk(c, pt, addr, vm.ptesize, STORE) then (AccessFault, pt)
    else
      var pt' := if NeedsAd(p, typ) then pt[addr := SetAd(w, typ == STORE)] else pt;
      if NapotOk(p, i) then (Found(LeafPage(p, vpn, i * vm.idxbits)), pt') else (PageFault, pt')
  }

  /** The walk from level `i` with the table at `base`. */
  function WalkFrom(c: Config, vm: VmInfo, pt: Ptes, vpn: nat, typ: AccessType, mode: Mode,
                    i: nat, base: nat): (WalkResult, Ptes)
    requires WfPmp(c.pmp)
    decreases i
  {
    hide *;
    var addr := PteAddr(vm, base, vpn, i);
    if !PteOk(c, pt, addr, vm.ptesize, LOAD) then (AccessFault, pt)
    else
      match Examine(c, DecodePte(pt[addr]), i * vm.idxbits, typ, mode)
      case Bad => (PageFault, pt)
      case Table =>
        if i == 0 then (PageFault, pt)
        else WalkFrom(c, vm, pt, vpn, typ, mode, i - 1, TableBase(DecodePte(pt[addr])))
      case Leaf => AtLeaf(c, vm, pt, vpn, typ, i, addr)
  }

  /** Bits from the top of the virtual address are all equal; counted in page numbers. */
  predicate Canonical(c: Config, vm: VmInfo, vpn: nat)
    requires vm.levels * vm.idxbits >= 1
  {
    var top := High(vpn, vm.levels * vm.idxbits - 1);
    var width := if c.xlen > 11 + vm.levels * vm.idxbits then c.xlen - 11 - vm.levels * vm.idxbits else 0;
    var msbs := Low(top, width);
    msbs == 0 || msbs == Pow2(width) - 1
  }

  function ModeOf(c: Config, typ: AccessType): Mode {
    if typ != FETCH && c.mprv then c.mpp else c.prv
  }

  /** mmu_t::walk, on virtual page numbers. */
  function Walk(c: Config, pt: Ptes, vpn: nat, typ: AccessType): (WalkResult, Ptes)
    requires WfPmp(c.pmp)
  {
    var mode := ModeOf(c, typ);
    var vm := DecodeVmInfo(c, mode);
    if vm.levels == 0 then (Found(if c.xlen >= 12 then Low(vpn, c.xlen - 12) else 0), pt)
    else if !Canonical(c, vm, vpn) then (PageFault, pt)
    else WalkFrom(c, vm, pt, vpn, typ, mode, vm.levels - 1, vm.ptbase)
  }

  /** The walk as a loop over the levels; it changes at most the accessed and dirty bits of one entry. */
  method WalkLoop(c: Config, pt: Ptes, vpn: nat, typ: AccessType) returns (r: WalkResult, pt': Ptes)
    requires WfPmp(c.pmp)
    ensures (r, pt') == Walk(c, pt, vpn, typ)
  {
    hide Examine, Canonical, PteOk, PteAddr, DecodePte, AtLeaf, Pow2, Low, High, WfPmp;
    var mode := ModeOf(c, typ);
    var vm := DecodeVmInfo(c, mode);
    if vm.levels == 0 {
      return Found(if c.xlen >= 12 then Low(vpn, c.xlen - 12) else 0), pt;
    }
    var levels: nat := if Canonical(c, vm, vpn) then vm.levels else 0;
    var base: nat := vm.ptbase;
    var i: nat := levels;
    while i > 0
      invariant 0 <= i <= levels
      invariant levels > 0 ==>
                  Walk(c, pt, vpn, typ) ==
                  if i > 0 then WalkFrom(c, vm, pt, vpn, typ, mode, i - 1, base) else (PageFault, pt)
    {
      i := i - 1;
      var addr := PteAddr(vm, base, vpn, i);
      if !PteOk(c, pt, addr, vm.ptesize, LOAD) {
        return AccessFault, pt;
      }
      PteThere(c, pt, addr, vm.ptesize, LOAD);
      var pte := DecodePte(pt[addr]);
      match Examine(c, pte, i * vm.idxbits, typ, mode) {
        case Bad => return PageFault, pt;
        case Table => base := TableBase(pte);
        case Leaf =>
          r, pt' := LeafStep(c, vm, pt, vpn, typ, i, addr);
          return;
      }
    }
    return PageFault, pt;
  }

  lemma PteThere(c: Config, pt: Ptes, addr: nat, len: nat, typ: AccessType)
    requires WfPmp(c.pmp) && PteOk(c, pt, addr, len, typ)
    ensures addr in pt && addr < WORD
  {
    hide PmpOk;
  }

  method LeafStep(c: Config, vm: VmInfo, pt: Ptes, vpn: nat, typ: AccessType, i: nat, addr: nat)
    returns (r: WalkResult, pt': Ptes)
    requires WfPmp(c.pmp) && addr in pt
    ensures (r, pt') == AtLeaf(c, vm, pt, vpn, typ, i, addr)
  {
    hide DecodePte, PteOk, SetAd, NapotOk, LeafPage, WfPmp;
    pt' := pt;
    var pte := DecodePte(pt[addr]);
    if NeedsAd(pte, typ) {
      if c.hade {
        if !PteOk(c, pt, addr, vm.ptesize, STORE) {
          return AccessFault, pt;
        }
        pt' := pt[addr := SetAd(pt[addr], typ == STORE)];
      } else {
        return PageFault, pt;
      }
    }
    if !NapotOk(pte, i) {
      return PageFault, pt';
    }
    r := Found(LeafPage(pte, vpn, i * vm.idxbits));
  }

  // ---- setting accessed and dirty bits ----

  /** The same entries, some with more accessed and dirty bits; pointers to tables are untouched. */
  ghost predicate Grown(pt: Ptes, pt': Ptes) {
    pt'.Keys == pt.Keys && forall k :: k in pt ==> GrownWord(pt[k], pt'[k])
  }

  ghost predicate GrownWord(w: nat, w': nat) {
    var p, p' := DecodePte(w), DecodePte(w');
    (w' == w || !IsTable(p)) && p' == p.(a := p'.a, d := p'.d) && (p.a ==> p'.a) && (p.d ==> p'.d)
  }

  lemma GrownSelf(pt: Ptes)
    ensures Grown(pt, pt)
  {
    hide DecodePte;
  }

  lemma GrownTrans(a: Ptes, b: Ptes, c: Ptes)
    requires Grown(a, b) && Grown(b, c)
    ensures Grown(a, c)
  {
    hide DecodePte;
    forall k | k in a
      ensures GrownWord(a[k], c[k])
    {
      assert GrownWord(a[k], b[k]) && GrownWord(b[k], c[k]);
    }
  }

  predicate Mapped(w: nat, i: nat) {
    NapotOk(DecodePte(w), i)
  }

  function PageOf(w: nat, vpn: nat, ptshift: nat): nat {
    LeafPage(DecodePte(w), vpn, ptshift)
  }

  /** No accessed or dirty bit is missing, and the entry is a good leaf. */
  predicate Settled(w: nat, typ: AccessType, i: nat) {
    !NeedsAd(DecodePte(w), typ) && Mapped(w, i)
  }

  /** The word with the bits the access needs. */
  function Touched(w: nat, typ: AccessType): nat {
    if NeedsAd(DecodePte(w), typ) then SetAd(w, typ == STORE) else w
  }

  /** What the end of the walk leaves in the page tables. */
  lemma LeafTables(c: Config, vm: VmInfo, pt: Ptes, vpn: nat, typ: AccessType, i: nat, addr: nat)
    requires WfPmp(c.pmp) && addr in pt
    ensures var (r, pt') := AtLeaf(c, vm, pt, vpn, typ, i, addr);
            (pt' == pt || pt' == pt[addr := SetAd(pt[addr], typ == STORE)]) &&
            (r.Found? ==>
               Mapped(pt[addr], i) && r == Found(PageOf(pt[addr], vpn, i * vm.idxbits)) &&
               pt' == pt[addr := Touched(pt[addr], typ)])
  {
    hide DecodePte, PteOk, SetAd, NapotOk, LeafPage, WfPmp, NeedsAd;
    assert pt[addr := pt[addr]] == pt;
  }

  lemma GrownSet(pt: Ptes, addr: nat, store: bool)
    requires addr in pt && !IsTable(DecodePte(pt[addr]))
    ensures Grown(pt, pt[addr := SetAd(pt[addr], store)])
  {
    DecodeSetAd(pt[addr], store);
    GrownSelf(pt);
    hide DecodePte, SetAd, IsTable;
  }

  lemma LeafGrows(c: Config, vm: VmInfo, pt: Ptes, vpn: nat, typ: AccessType, i: nat, addr: nat)
    requires WfPmp(c.pmp) && addr in pt && !IsTable(DecodePte(pt[addr]))
    ensures Grown(pt, AtLeaf(c, vm, pt, vpn, typ, i, addr).1)
  {
    hide *;
    LeafTables(c, vm, pt, vpn, typ, i, addr);
    GrownSet(pt, addr, typ == STORE);
    GrownSelf(pt);
  }

  lemma LeafNotTable(c: Config, p: Pte, ptshift: nat, typ: AccessType, mode: Mode)
    requires Examine(c, p, ptshift, typ, mode) == Leaf
    ensures !IsTable(p)
  {
    hide Low;
  }

  /** A walk changes the page tables by accessed and dirty bits only. */
  lemma {:induction false} WalkFromGrows(c: Config, vm: VmInfo, pt: Ptes, vpn: nat, typ: AccessType, mode: Mode, i: nat,
                                         base: nat)
    requires WfPmp(c.pmp)
    ensures Grown(pt, WalkFrom(c, vm, pt, vpn, typ, mode, i, base).1)
    decreases i
  {
    hide Examine, PteOk, PteAddr, DecodePte, AtLeaf, Grown, Pow2, WfPmp;
    GrownSelf(pt);
    var addr := PteAddr(vm, base, vpn, i);
    if PteOk(c, pt, addr, vm.ptesize, LOAD) {
      PteThere(c, pt, addr, vm.ptesize, LOAD);
      var p := DecodePte(pt[addr]);
      var e := Examine(c, p, i * vm.idxbits, typ, mode);
      if e == Leaf {
        LeafNotTable(c, p, i * vm.idxbits, typ, mode);
        LeafGrows(c, vm, pt, vpn, typ, i, addr);
      } else if e == Table && i > 0 {
        WalkFromGrows(c, vm, pt, vpn, typ, mode, i - 1, TableBase(p));
      }
    }
  }

  lemma WalkGrows(c: Config, pt: Ptes, vpn: nat, typ: AccessType)
    requires WfPmp(c.pmp)
    ensures Grown(pt, Walk(c, pt, vpn, typ).1)
  {
    hide WalkFrom, Grown, Canonical, Low, Pow2, WfPmp;
    GrownSelf(pt);
    var mode := ModeOf(c, typ);
    var vm := DecodeVmInfo(c, mode);
    if vm.levels > 0 {
      WalkFromGrows(c, vm, pt, vpn, typ, mode, vm.levels - 1, vm.ptbase);
    }
  }

  /** The checks do not look at the accessed and dirty bits of a leaf. */
  lemma ExamineAd(c: Config, p: Pte, p': Pte, ptshift: nat, typ: AccessType, mode: Mode)
    requires p' == p.(a := p'.a, d := p'.d) && (!IsTable(p) || p' == p)
    ensures Examine(c, p', ptshift, typ, mode) == Examine(c, p, ptshift, typ, mode)
  {
    hide Low;
  }

  lemma SameKeys(c: Config, pt: Ptes, pt': Ptes, addr: nat, len: nat, typ: AccessType)
    requires WfPmp(c.pmp) && pt'.Keys == pt.Keys
    ensures PteOk(c, pt', addr, len, typ) == PteOk(c, pt, addr, len, typ)
  {
    hide PmpOk, WfPmp;
    assert addr in pt' <==> addr in pt'.Keys;
    assert addr in pt <==> addr in pt.Keys;
  }

  lemma LeafDone(c: Config, vm: VmInfo, pt: Ptes, vpn: nat, typ: AccessType, i: nat, addr: nat)
    requires WfPmp(c.pmp) && addr in pt && Settled(pt[addr], typ, i)
    ensures AtLeaf(c, vm, pt, vpn, typ, i, addr) == (Found(PageOf(pt[addr], vpn, i * vm.idxbits)), pt)
  {
    hide DecodePte, PteOk, SetAd, NapotOk, LeafPage, WfPmp, NeedsAd;
  }

  /** A word that an access went through needs no more bits, and its page is the same. */
  lemma WordAgain(w: nat, w2: nat, typ: AccessType, vpn: nat, i: nat, ptshift: nat)
    requires GrownWord(Touched(w, typ), w2) && Mapped(w, i)
    ensures Settled(w2, typ, i) && PageOf(w2, vpn, ptshift) == PageOf(w, vpn, ptshift)
  {
    DecodeSetAd(w, typ == STORE);
    hide DecodePte, SetAd, Or, Low, Ctz, IsTable;
  }

  /** A translation found once is found again, without further change, in page tables that only grew. */
  lemma LeafAgain(c: Config, vm: VmInfo, pt: Ptes, pt2: Ptes, vpn: nat, typ: AccessType, i: nat, addr: nat)
    requires WfPmp(c.pmp) && addr in pt && addr in pt2
    requires AtLeaf(c, vm, pt, vpn, typ, i, addr).0.Found?
    requires GrownWord(Touched(pt[addr], typ), pt2[addr])
    ensures AtLeaf(c, vm, pt2, vpn, typ, i, addr) == (AtLeaf(c, vm, pt, vpn, typ, i, addr).0, pt2)
  {
    hide *;
    LeafTables(c, vm, pt, vpn, typ, i, addr);
    WordAgain(pt[addr], pt2[addr], typ, vpn, i, i * vm.idxbits);
    LeafDone(c, vm, pt2, vpn, typ, i, addr);
  }

  lemma {:induction false} WalkFromAgain(c: Config, vm: VmInfo, pt: Ptes, pt2: Ptes, vpn: nat, typ: AccessType,
                                         mode: Mode, i: nat, base: nat)
    requires WfPmp(c.pmp)
    requires WalkFrom(c, vm, pt, vpn, typ, mode, i, base).0.Found?
    requires Grown(WalkFrom(c, vm, pt, vpn, typ, mode, i, base).1, pt2)
    ensures WalkFrom(c, vm, pt2, vpn, typ, mode, i, base) == (WalkFrom(c, vm, pt, vpn, typ, mode, i, base).0, pt2)
    decreases i
  {
    hide Examine, PteOk, PteAddr, DecodePte, AtLeaf, Grown, Pow2, WfPmp, GrownWord;
    var addr := PteAddr(vm, base, vpn, i);
    var pt' := WalkFrom(c, vm, pt, vpn, typ, mode, i, base).1;
    WalkFromGrows(c, vm, pt, vpn, typ, mode, i, base);
    PteThere(c, pt, addr, vm.ptesize, LOAD);
    GrownAt(pt, pt', addr);
    GrownAt(pt', pt2, addr);
    GrownTrans(pt, pt', pt2);
    SameKeys(c, pt, pt2, addr, vm.ptesize, LOAD);
    var p := DecodePte(pt[addr]);
    var e := Examine(c, p, i * vm.idxbits, typ, mode);
    GrownAt(pt, pt2, addr);
    GrownExam(c, pt[addr], pt2[addr], i * vm.idxbits, typ, mode);
    if e == Leaf {
      LeafTables(c, vm, pt, vpn, typ, i, addr);
      LeafAgain(c, vm, pt, pt2, vpn, typ, i, addr);
    } else {
      TableSame(c, pt[addr], pt2[addr], i * vm.idxbits, typ, mode);
      WalkFromAgain(c, vm, pt, pt2, vpn, typ, mode, i - 1, TableBase(p));
    }
  }

  lemma GrownAt(pt: Ptes, pt': Ptes, k: nat)
    requires Grown(pt, pt')
    ensures pt'.Keys == pt.Keys && (k in pt <==> k in pt')
    ensures k in pt ==> GrownWord(pt[k], pt'[k])
  {
    hide GrownWord;
  }

  lemma GrownExam(c: Config, w: nat, w': nat, ptshift: nat, typ: AccessType, mode: Mode)
    requires GrownWord(w, w')
    ensures Examine(c, DecodePte(w'), ptshift, typ, mode) == Examine(c, DecodePte(w), ptshift, typ, mode)
  {
    hide DecodePte, Examine;
    ExamineAd(c, DecodePte(w), DecodePte(w'), ptshift, typ, mode);
  }

  lemma TableSame(c: Config, w: nat, w': nat, ptshift: nat, typ: AccessType, mode: Mode)
    requires GrownWord(w, w') && Examine(c, DecodePte(w), ptshift, typ, mode) == Table
    ensures w' == w
  {
    hide DecodePte, Low;
  }

  lemma WalkAgain(c: Config, pt: Ptes, pt2: Ptes, vpn: nat, typ: AccessType)
    requires WfPmp(c.pmp) && Walk(c, pt, vpn, typ).0.Found? && Grown(Walk(c, pt, vpn, typ).1, pt2)
    ensures Walk(c, pt2, vpn, typ) == (Walk(c, pt, vpn, typ).0, pt2)
  {
    hide WalkFrom, Grown, Canonical, Low, Pow2, WfPmp;
    var mode := ModeOf(c, typ);
    var vm := DecodeVmInfo(c, mode);
    if vm.levels > 0 {
      WalkFromAgain(c, vm, pt, pt2, vpn, typ, mode, vm.levels - 1, vm.ptbase);
    }
  }

  // ---- access types share translations ----

  lemma {:induction false} SamePageFrom(c: Config, vm: VmInfo, pt: Ptes, vpn: nat, typ: AccessType, typ2: AccessType,
                                        mode: Mode, i: nat, base: nat)
    requires WfPmp(c.pmp)
    requires WalkFrom(c, vm, pt, vpn, typ, mode, i, base).0.Found? &&
             WalkFrom(c, vm, pt, vpn, typ2, mode, i, base).0.Found?
    ensures WalkFrom(c, vm, pt, vpn, typ, mode, i, base).0 == WalkFrom(c, vm, pt, vpn, typ2, mode, i, base).0
    decreases i
  {
    hide Examine, PteOk, PteAddr, DecodePte, Pow2, WfPmp, LeafPage, NapotOk, SetAd, NeedsAd;
    var addr := PteAddr(vm, base, vpn, i);
    PteThere(c, pt, addr, vm.ptesize, LOAD);
    var p := DecodePte(pt[addr]);
    TableForAll(c, p, i * vm.idxbits, typ, typ2, mode);
    if Examine(c, p, i * vm.idxbits, typ, mode) == Table {
      SamePageFrom(c, vm, pt, vpn, typ, typ2, mode, i - 1, TableBase(p));
    }
  }

  /** Whether an entry points to a table does not depend on the access. */
  lemma TableForAll(c: Config, p: Pte, ptshift: nat, typ: AccessType, typ2: AccessType, mode: Mode)
    ensures Examine(c, p, ptshift, typ, mode) == Table <==> Examine(c, p, ptshift, typ2, mode) == Table
  {
    hide Low;
  }

  lemma SamePage(c: Config, pt: Ptes, vpn: nat, typ: AccessType, typ2: AccessType)
    requires WfPmp(c.pmp) && ModeOf(c, typ) == ModeOf(c, typ2)
    requires Walk(c, pt, vpn, typ).0.Found? && Walk(c, pt, vpn, typ2).0.Found?
    ensures Walk(c, pt, vpn, typ).0 == Walk(c, pt, vpn, typ2).0
  {
    hide WalkFrom, Canonical, Low, Pow2, WfPmp;
    var mode := ModeOf(c, typ);
    var vm := DecodeVmInfo(c, mode);
    if vm.levels > 0 {
      SamePageFrom(c, vm, pt, vpn, typ, typ2, mode, vm.levels - 1, vm.ptbase);
    }
  }

  // ---- leaf ranges ----

  /** How many low bits of the page number a leaf takes from the virtual one. */
  function RangeBits(p: Pte, ptshift: nat): nat {
    if p.n then 4 else ptshift
  }

  /** The bits or-ed into a leaf's page number are the specified addition. */
  lemma LeafIsSum(p: Pte, vpn: nat, i: nat, idxbits: nat)
    requires NapotOk(p, i) && Low(p.ppn, i * idxbits) == 0
    ensures Low(p.ppn, RangeBits(p, i * idxbits)) <= p.ppn
    ensures LeafPage(p, vpn, i * idxbits) ==
            p.ppn - Low(p.ppn, RangeBits(p, i * idxbits)) + Low(vpn, RangeBits(p, i * idxbits))
  {
    hide Or, Low, Ctz;
    var b, s := NapotBits(p), i * idxbits;
    LowNone(vpn);
    LowNone(p.ppn);
    ClearedLow(p.ppn, b);
    LowSmall(vpn, b);
    OrIsSum(p.ppn - Low(p.ppn, b), Low(vpn, b), b);
    LowSmall(vpn, s);
    if !p.n {
      OrIsSum(p.ppn, Low(vpn, s), s);
    } else {
      OrNothing(p.ppn - Low(p.ppn, b) + Low(vpn, b));
    }
  }

  lemma LowNone(x: nat)
    ensures Low(x, 0) == 0
  {
  }

  lemma LowSmall(x: nat, n: nat)
    ensures Low(x, n) < Pow2(n)
  {
    hide Low, Pow2, High;
    Split(x, n);
  }

  lemma ClearedLow(x: nat, n: nat)
    ensures Low(x - Low(x, n), n) == 0
  {
    hide Low, Pow2, High;
    Split(x, n);
    LowOfMultiple(High(x, n), n);
  }

  /** Two pages of the range of one leaf are as far apart as their virtual pages. */
  lemma LeafDifference(p: Pte, vpn: nat, vpn2: nat, i: nat, idxbits: nat)
    requires NapotOk(p, i) && Low(p.ppn, i * idxbits) == 0
    requires High(vpn2, RangeBits(p, i * idxbits)) == High(vpn, RangeBits(p, i * idxbits))
    ensures LeafPage(p, vpn2, i * idxbits) - LeafPage(p, vpn, i * idxbits) == vpn2 - vpn
  {
    hide Low, Pow2, High, NapotOk, LeafPage, RangeBits;
    LeafIsSum(p, vpn, i, idxbits);
    LeafIsSum(p, vpn2, i, idxbits);
    Split(vpn, RangeBits(p, i * idxbits));
    Split(vpn2, RangeBits(p, i * idxbits));
  }

  /** The entry `p2` of page `vpn2` says what the range that `p` marks gives that page. */
  predicate Agrees(p: Pte, p2: Pte, vpn2: nat) {
    if p2.n then High(p2.ppn, 4) == High(p.ppn, 4) else p2.ppn == p.ppn - Low(p.ppn, 4) + Low(vpn2, 4)
  }

  /**
   The entries of a 64 KiB Svnapot range are sixteen words, each read by its own page: the range is linear exactly when
   another entry either marks a range and holds the same page number above the bits that mark it, or marks none and
   holds the page number that the range gives its page.
   */
  lemma NapotRange(p: Pte, p2: Pte, vpn: nat, vpn2: nat, idxbits: nat)
    requires p.n && NapotOk(p, 0) && NapotOk(p2, 0) && High(vpn2, 4) == High(vpn, 4)
    ensures LeafPage(p2, vpn2, 0) - LeafPage(p, vpn, 0) == vpn2 - vpn <==> Agrees(p, p2, vpn2)
  {
    hide Low, Pow2, High, NapotOk, LeafPage;
    LowNone(p.ppn);
    LowNone(p2.ppn);
    LowNone(vpn2);
    LeafIsSum(p, vpn, 0, idxbits);
    LeafIsSum(p2, vpn2, 0, idxbits);
    Split(vpn, 4);
    Split(vpn2, 4);
    Split(p.ppn, 4);
    Split(p2.ppn, 4);
    SamePart(High(p.ppn, 4), High(p2.ppn, 4), Pow2(4));
  }

  lemma SamePart(a: nat, b: nat, d: nat)
    requires d > 0
    ensures a * d == b * d <==> a == b
  {
    if a < b {
      MulLe(a + 1, b, d);
    } else if b < a {
      MulLe(b + 1, a, d);
    }
  }

  /** The entries a walk reads, in order. */
  ghost function Reads(c: Config, vm: VmInfo, pt: Ptes, vpn: nat, typ: AccessType, mode: Mode,
                       i: nat, base: nat): seq<nat>
    requires WfPmp(c.pmp)
    decreases i
  {
    hide *;
    var addr := PteAddr(vm, base, vpn, i);
    if i > 0 && PteOk(c, pt, addr, vm.ptesize, LOAD) &&
       Examine(c, DecodePte(pt[addr]), i * vm.idxbits, typ, mode) == Table
    then [addr] + Reads(c, vm, pt, vpn, typ, mode, i - 1, TableBase(DecodePte(pt[addr])))
    else [addr]
  }

  /** The level of the leaf a walk found and its entry. */
  ghost function LeafAt(c: Config, vm: VmInfo, pt: Ptes, vpn: nat, typ: AccessType, mode: Mode,
                        i: nat, base: nat): (r: (nat, Pte))
    requires WfPmp(c.pmp)
    ensures r.0 <= i
    decreases i
  {
    hide *;
    var addr := PteAddr(vm, base, vpn, i);
    if !PteOk(c, pt, addr, vm.ptesize, LOAD) then (i, DecodePte(0))
    else if i > 0 && Examine(c, DecodePte(pt[addr]), i * vm.idxbits, typ, mode) == Table
    then LeafAt(c, vm, pt, vpn, typ, mode, i - 1, TableBase(DecodePte(pt[addr])))
    else (i, DecodePte(pt[addr]))
  }

  /** Two virtual pages that one leaf with `ptshift` low bits maps. */
  predicate OneRange(p: Pte, vpn: nat, vpn2: nat, ptshift: nat) {
    !p.n && High(vpn2, ptshift) == High(vpn, ptshift)
  }

  /** Two pages found, `d` apart. */
  predicate Apart(r: WalkResult, r2: WalkResult, d: int) {
    r.Found? && r2.Found? && r2.page - r.page == d
  }

  lemma {:induction false} SameIndex(vpn: nat, vpn2: nat, l: nat, i: nat, idxbits: nat)
    requires l <= i && High(vpn2, l * idxbits) == High(vpn, l * idxbits)
    ensures High(vpn2, i * idxbits) == High(vpn, i * idxbits)
  {
    hide High;
    MulLe(l, i, idxbits);
    HighHigh(vpn, l * idxbits, i * idxbits - l * idxbits);
    HighHigh(vpn2, l * idxbits, i * idxbits - l * idxbits);
  }

  /**
   Any two virtual pages in the range of one leaf (a page, or a superpage at any level) read the same
   entries, set the same accessed and dirty bits, and map to physical pages the same distance apart.
   */
  lemma {:induction false} WalkFromLinear(c: Config, vm: VmInfo, pt: Ptes, vpn: nat, vpn2: nat, typ: AccessType,
                                          mode: Mode, i: nat, base: nat)
    requires WfPmp(c.pmp) && WalkFrom(c, vm, pt, vpn, typ, mode, i, base).0.Found?
    requires var (l, p) := LeafAt(c, vm, pt, vpn, typ, mode, i, base);
             OneRange(p, vpn, vpn2, l * vm.idxbits)
    ensures Reads(c, vm, pt, vpn2, typ, mode, i, base) == Reads(c, vm, pt, vpn, typ, mode, i, base)
    ensures var (r, pt') := WalkFrom(c, vm, pt, vpn, typ, mode, i, base);
            var (r2, pt2) := WalkFrom(c, vm, pt, vpn2, typ, mode, i, base);
            pt2 == pt' && Apart(r, r2, vpn2 - vpn)
    decreases i
  {
    hide Examine, PteOk, DecodePte, AtLeaf, Pow2, WfPmp, High, Low, LeafPage;
    var l := LeafAt(c, vm, pt, vpn, typ, mode, i, base).0;
    SameIndex(vpn, vpn2, l, i, vm.idxbits);
    var addr := PteAddr(vm, base, vpn, i);
    assert PteAddr(vm, base, vpn2, i) == addr;
    hide PteAddr;
    var p := DecodePte(pt[addr]);
    if Examine(c, p, i * vm.idxbits, typ, mode) == Leaf {
      LeafLinearStep(c, vm, pt, vpn, vpn2, typ, mode, i, addr);
    } else {
      WalkFromLinear(c, vm, pt, vpn, vpn2, typ, mode, i - 1, TableBase(p));
    }
  }

  lemma LeafAligned(c: Config, p: Pte, ptshift: nat, typ: AccessType, mode: Mode)
    requires Examine(c, p, ptshift, typ, mode) == Leaf
    ensures Low(p.ppn, ptshift) == 0
  {
    hide Low;
  }

  lemma LeafLinearStep(c: Config, vm: VmInfo, pt: Ptes, vpn: nat, vpn2: nat, typ: AccessType, mode: Mode, i: nat,
                       addr: nat)
    requires WfPmp(c.pmp) && addr in pt && AtLeaf(c, vm, pt, vpn, typ, i, addr).0.Found?
    requires Examine(c, DecodePte(pt[addr]), i * vm.idxbits, typ, mode) == Leaf && !DecodePte(pt[addr]).n
    requires High(vpn2, i * vm.idxbits) == High(vpn, i * vm.idxbits)
    ensures var (r, pt') := AtLeaf(c, vm, pt, vpn, typ, i, addr);
            var (r2, pt2) := AtLeaf(c, vm, pt, vpn2, typ, i, addr);
            pt2 == pt' && Apart(r, r2, vpn2 - vpn)
  {
    hide Examine, PteOk, DecodePte, Pow2, WfPmp, High, Low, LeafPage, SetAd, NeedsAd, NapotOk;
    var p := DecodePte(pt[addr]);
    LeafAligned(c, p, i * vm.idxbits, typ, mode);
    LeafDifference(p, vpn, vpn2, i, vm.idxbits);
  }

  /** The same for whole walks; pages of one range are canonical together. */
  lemma WalkLinear(c: Config, pt: Ptes, vpn: nat, vpn2: nat, typ: AccessType)
    requires WfPmp(c.pmp) && Walk(c, pt, vpn, typ).0.Found?
    requires var vm := DecodeVmInfo(c, ModeOf(c, typ));
             vm.levels > 0 &&
             var (l, p) := LeafAt(c, vm, pt, vpn, typ, ModeOf(c, typ), vm.levels - 1, vm.ptbase);
             OneRange(p, vpn, vpn2, l * vm.idxbits)
    ensures Walk(c, pt, vpn2, typ).1 == Walk(c, pt, vpn, typ).1
    ensures Apart(Walk(c, pt, vpn, typ).0, Walk(c, pt, vpn2, typ).0, vpn2 - vpn)
  {
    hide WalkFrom, LeafAt, Low, High, Pow2, WfPmp;
    var mode := ModeOf(c, typ);
    var vm := DecodeVmInfo(c, mode);
    var l := LeafAt(c, vm, pt, vpn, typ, mode, vm.levels - 1, vm.ptbase).0;
    TopBits(vpn, vpn2, l, vm.levels, vm.idxbits);
    WalkFromLinear(c, vm, pt, vpn, vpn2, typ, mode, vm.levels - 1, vm.ptbase);
  }

  lemma TopBits(vpn: nat, vpn2: nat, l: nat, levels: nat, idxbits: nat)
    requires l < levels && idxbits > 0 && High(vpn2, l * idxbits) == High(vpn, l * idxbits)
    ensures levels * idxbits >= 1 && High(vpn2, levels * idxbits - 1) == High(vpn, levels * idxbits - 1)
  {
    hide High;
    MulLe(l + 1, levels, idxbits);
    var k := levels * idxbits - 1 - l * idxbits;
    HighHigh(vpn, l * idxbits, k);
    HighHigh(vpn2, l * idxbits, k);
  }

  // ---- Svnapot ranges ----

  /** The same reads but for the last, which is `d` further on. */
  ghost predicate LastApart(s: seq<nat>, s2: seq<nat>, d: int) {
    |s| == |s2| > 0 && s2[..|s2| - 1] == s[..|s| - 1] && s2[|s2| - 1] == s[|s| - 1] + d
  }

  /** Pages of a group of sixteen read the same entry above the last level, and at it entries of one group. */
  lemma GroupAddr(vm: VmInfo, base: nat, vpn: nat, vpn2: nat, i: nat)
    requires vm.idxbits >= 4 && High(vpn2, 4) == High(vpn, 4)
    ensures PteAddr(vm, base, vpn2, i) - PteAddr(vm, base, vpn, i) == if i == 0 then (vpn2 - vpn) * vm.ptesize else 0
  {
    hide High, Low, Pow2;
    HighHigh(vpn, 4, vm.idxbits - 4);
    HighHigh(vpn2, 4, vm.idxbits - 4);
    if i == 0 {
      HighNone(vpn);
      HighNone(vpn2);
      Split(vpn, vm.idxbits);
      Split(vpn2, vm.idxbits);
      DiffMul(Low(vpn2, vm.idxbits), Low(vpn, vm.idxbits), vm.ptesize);
    } else {
      SameIndex(vpn, vpn2, 1, i, vm.idxbits);
    }
  }

  lemma HighNone(x: nat)
    ensures High(x, 0) == x
  {
  }

  lemma DiffMul(a: int, b: int, d: int)
    ensures a * d - b * d == (a - b) * d
  {
  }

  /** An Svnapot entry maps at the last level only. */
  lemma NapotAtLast(w: nat, i: nat)
    requires Mapped(w, i) && DecodePte(w).n
    ensures i == 0
  {
    hide DecodePte;
  }

  /** At the last level there are no tables. */
  lemma FoundAtLast(c: Config, vm: VmInfo, pt: Ptes, vpn: nat, typ: AccessType, mode: Mode, base: nat)
    requires WfPmp(c.pmp) && WalkFrom(c, vm, pt, vpn, typ, mode, 0, base).0.Found?
    ensures var a := PteAddr(vm, base, vpn, 0);
            a in pt && Mapped(pt[a], 0) && LeafAt(c, vm, pt, vpn, typ, mode, 0, base) == (0, DecodePte(pt[a])) &&
            WalkFrom(c, vm, pt, vpn, typ, mode, 0, base).0 == Found(PageOf(pt[a], vpn, 0)) &&
            Reads(c, vm, pt, vpn, typ, mode, 0, base) == [a]
  {
    hide Examine, PteOk, PteAddr, DecodePte, AtLeaf, Mapped, PageOf, WfPmp;
    var addr := PteAddr(vm, base, vpn, 0);
    PteThere(c, pt, addr, vm.ptesize, LOAD);
    LeafTables(c, vm, pt, vpn, typ, 0, addr);
  }

  /**
   The walks of two pages in a 64 KiB Svnapot range read the same entries above the last level and there
   two entries of one group of sixteen; the pages found are as far apart as the virtual ones exactly
   when these two agree.
   */
  lemma {:induction false} WalkFromNapot(c: Config, vm: VmInfo, pt: Ptes, vpn: nat, vpn2: nat, typ: AccessType,
                                         mode: Mode, i: nat, base: nat)
    requires WfPmp(c.pmp) && vm.idxbits >= 4 && High(vpn2, 4) == High(vpn, 4)
    requires WalkFrom(c, vm, pt, vpn, typ, mode, i, base).0.Found?
    requires WalkFrom(c, vm, pt, vpn2, typ, mode, i, base).0.Found?
    requires LeafAt(c, vm, pt, vpn, typ, mode, i, base).1.n
    ensures LastApart(Reads(c, vm, pt, vpn, typ, mode, i, base), Reads(c, vm, pt, vpn2, typ, mode, i, base),
                      (vpn2 - vpn) * vm.ptesize)
    ensures var (l, p) := LeafAt(c, vm, pt, vpn, typ, mode, i, base);
            var (l2, p2) := LeafAt(c, vm, pt, vpn2, typ, mode, i, base);
            var r := WalkFrom(c, vm, pt, vpn, typ, mode, i, base).0;
            var r2 := WalkFrom(c, vm, pt, vpn2, typ, mode, i, base).0;
            l == l2 == 0 && (Apart(r, r2, vpn2 - vpn) <==> Agrees(p, p2, vpn2))
    decreases i
  {
    hide Examine, PteOk, PteAddr, DecodePte, AtLeaf, Pow2, WfPmp, High, Low, LeafPage, NapotOk, Agrees;
    GroupAddr(vm, base, vpn, vpn2, i);
    var addr := PteAddr(vm, base, vpn, i);
    PteThere(c, pt, addr, vm.ptesize, LOAD);
    var p := DecodePte(pt[addr]);
    if i == 0 {
      FoundAtLast(c, vm, pt, vpn, typ, mode, base);
      FoundAtLast(c, vm, pt, vpn2, typ, mode, base);
      var p2 := DecodePte(pt[PteAddr(vm, base, vpn2, 0)]);
      NapotRange(p, p2, vpn, vpn2, vm.idxbits);
    } else if Examine(c, p, i * vm.idxbits, typ, mode) == Leaf {
      LeafTables(c, vm, pt, vpn, typ, i, addr);
      NapotAtLast(pt[addr], i);
    } else {
      WalkFromNapot(c, vm, pt, vpn, vpn2, typ, mode, i - 1, TableBase(p));
      OneMore(addr, Reads(c, vm, pt, vpn, typ, mode, i - 1, TableBase(p)),
              Reads(c, vm, pt, vpn2, typ, mode, i - 1, TableBase(p)), (vpn2 - vpn) * vm.ptesize);
    }
  }

  lemma OneMore(a: nat, s: seq<nat>, s2: seq<nat>, d: int)
    requires LastApart(s, s2, d)
    ensures LastApart([a] + s, [a] + s2, d)
  {
    assert ([a] + s)[..|s|] == [a] + s[..|s| - 1] && ([a] + s2)[..|s2|] == [a] + s2[..|s2| - 1];
  }

  /** The same for whole walks. */
  lemma WalkNapot(c: Config, pt: Ptes, vpn: nat, vpn2: nat, typ: AccessType)
    requires WfPmp(c.pmp) && High(vpn2, 4) == High(vpn, 4)
    requires Walk(c, pt, vpn, typ).0.Found? && Walk(c, pt, vpn2, typ).0.Found?
    requires var mode := ModeOf(c, typ);
             var vm := DecodeVmInfo(c, mode);
             vm.levels > 0 && LeafAt(c, vm, pt, vpn, typ, mode, vm.levels - 1, vm.ptbase).1.n
    ensures var mode := ModeOf(c, typ);
            var vm := DecodeVmInfo(c, mode);
            var p := LeafAt(c, vm, pt, vpn, typ, mode, vm.levels - 1, vm.ptbase).1;
            var p2 := LeafAt(c, vm, pt, vpn2, typ, mode, vm.levels - 1, vm.ptbase).1;
            Apart(Walk(c, pt, vpn, typ).0, Walk(c, pt, vpn2, typ).0, vpn2 - vpn) <==> Agrees(p, p2, vpn2)
  {
    hide WalkFrom, LeafAt, Low, High, Pow2, WfPmp, Agrees;
    var mode := ModeOf(c, typ);
    var vm := DecodeVmInfo(c, mode);
    WalkFromNapot(c, vm, pt, vpn, vpn2, typ, mode, vm.levels - 1, vm.ptbase);
  }

  /** A hart in supervisor mode with Sv39 and no PMP entries. */
  function SplitConfig(): Config {
    Config(64, PRV_S, false, PRV_S, Sv39, 1, false, false, false, false, true, Pmp([], 0, false, false),
           false, false, false, _ => None)
  }

  /** Two tables above a last one whose first two entries mark ranges at pages 0x10 and 0x20. */
  function SplitTables(): Ptes {
    map[0x1000 := 0x801, 0x2000 := 0xc01,
        0x3000 := 0x8000_0000_0000_6043, 0x3008 := 0x8000_0000_0000_a043]
  }

  /** Entries of one group may disagree: neighbouring pages of one range found seventeen pages apart. */
  lemma NapotCanDisagree()
    ensures WfConfig(SplitConfig()) && High(1, 4) == High(0, 4)
    ensures Walk(SplitConfig(), SplitTables(), 0, LOAD) == (Found(0x10), SplitTables())
    ensures Walk(SplitConfig(), SplitTables(), 1, LOAD) == (Found(0x21), SplitTables())
  {
    SplitWalk(0);
    SplitWalk(1);
    assert High(1, 4) == 0;
  }

  lemma SplitWalk(v: nat)
    requires v <= 1
    ensures Walk(SplitConfig(), SplitTables(), v, LOAD) == (Found(if v == 0 then 0x10 else 0x21), SplitTables())
  {
    hide WalkFrom, Canonical, Low, High, Pow2, WfPmp;
    var c, pt, vm := SplitConfig(), SplitTables(), VmInfo(3, 9, 8, 0x1000);
    SplitWf();
    SplitCanonical(v);
    SplitTop(v, 2);
    SplitTop(v, 1);
    SplitLast(v);
  }

  lemma SplitWf()
    ensures WfConfig(SplitConfig())
  {
  }

  lemma SmallIndex(v: nat, n: nat)
    requires v <= 1 && n > 0
    ensures High(v, n) == 0 && Low(v, n) == v && Low(0, n) == 0
  {
    Pow2Monotone(1, n);
    HighZero(v, n);
    HighZero(0, n);
  }

  lemma SplitCanonical(v: nat)
    requires v <= 1
    ensures Canonical(SplitConfig(), VmInfo(3, 9, 8, 0x1000), v)
  {
    hide High, Low, Pow2;
    SmallIndex(v, 26);
  }

  /** The entries above the last one point to the next table. */
  lemma SplitPointers(i: nat)
    requires 1 <= i <= 2
    ensures var p := DecodePte(if i == 2 then 0x801 else 0xc01);
            TableBase(p) == (4 - i) * PGSIZE && Examine(SplitConfig(), p, i * 9, LOAD, PRV_S) == Table
  {
    hide Low;
  }

  lemma SplitTop(v: nat, i: nat)
    requires v <= 1 && 1 <= i <= 2
    ensures WfConfig(SplitConfig())
    ensures WalkFrom(SplitConfig(), VmInfo(3, 9, 8, 0x1000), SplitTables(), v, LOAD, PRV_S, i, (3 - i) * PGSIZE) ==
            WalkFrom(SplitConfig(), VmInfo(3, 9, 8, 0x1000), SplitTables(), v, LOAD, PRV_S, i - 1, (4 - i) * PGSIZE)
  {
    hide High, Low, Pow2, Decide, DecodePte, Examine, TableBase;
    SmallIndex(v, i * 9);
    SmallIndex(0, 9);
    SplitPointers(i);
  }

  /** The last entry is a leaf with its accessed bit set. */
  lemma SplitLeaf(v: nat)
    requires v <= 1
    ensures var p := DecodePte(if v == 0 then 0x8000_0000_0000_6043 else 0x8000_0000_0000_a043);
            Examine(SplitConfig(), p, 0, LOAD, PRV_S) == Leaf && !NeedsAd(p, LOAD) && NapotOk(p, 0)
  {
    hide Low, Ctz;
    SplitPage(v);
  }

  lemma SplitLast(v: nat)
    requires v <= 1
    ensures WfConfig(SplitConfig())
    ensures WalkFrom(SplitConfig(), VmInfo(3, 9, 8, 0x1000), SplitTables(), v, LOAD, PRV_S, 0, 3 * PGSIZE) ==
            (Found(if v == 0 then 0x10 else 0x21), SplitTables())
  {
    hide High, Low, Pow2, Decide, Ctz, LeafPage, DecodePte, Examine, NeedsAd, NapotOk;
    HighNone(v);
    SmallIndex(v, 9);
    SplitPage(v);
    SplitLeaf(v);
  }

  lemma SplitPage(v: nat)
    requires v <= 1
    ensures var p := DecodePte(if v == 0 then 0x8000_0000_0000_6043 else 0x8000_0000_0000_a043);
            p.n && p.ppn == (if v == 0 then 0x18 else 0x28) && Ctz(p.ppn) == 3 && Low(p.ppn, 0) == 0 &&
            LeafPage(p, v, 0) == if v == 0 then 0x10 else 0x21
  {
    hide LeafPage, Low, Pow2, Ctz;
    SplitCtz();
    var p := DecodePte(if v == 0 then 0x8000_0000_0000_6043 else 0x8000_0000_0000_a043);
    LowNone(p.ppn);
    LeafIsSum(p, v, 0, 9);
    SplitLow(v);
  }

  lemma SplitCtz()
    ensures Ctz(0x18) == 3 && Ctz(0x28) == 3
  {
    assert Ctz(3) == 0 && Ctz(5) == 0;
    assert Ctz(0x18) == 1 + Ctz(0xc) == 2 + Ctz(6) == 3 + Ctz(3);
    assert Ctz(0x28) == 1 + Ctz(0x14) == 2 + Ctz(10) == 3 + Ctz(5);
  }

  lemma SplitLow(v: nat)
    requires v <= 1
    ensures Low(0x18, 4) == 8 && Low(0x28, 4) == 8 && Low(v, 4) == v
  {
    hide Low, Pow2, High;
    Pow2Small();
    Pow2Add(2, 2);
    SplitIs(0x18, 4, 1, 8);
    SplitIs(0x28, 4, 2, 8);
    SmallIndex(v, 4);
  }

  // ---- the page found fits the address space ----

  lemma PageLimit()
    ensures Pow2(52) == PAGES == 0x10_0000_0000_0000 && Pow2(51) == 0x8_0000_0000_0000
  {
    hide Pow2;
    SmallPowers();
    Pow2Is64();
    Pow2Add(52, 10);
    Pow2Add(51, 1);
  }

  lemma LeafFits(p: Pte, vpn: nat, i: nat, idxbits: nat)
    requires NapotOk(p, i) && Low(p.ppn, i * idxbits) == 0 && p.ppn < 0x1000_0000_0000 && i * idxbits <= 40
    ensures LeafPage(p, vpn, i * idxbits) < PAGES
  {
    hide Low, Pow2, NapotOk, LeafPage;
    PageLimit();
    LeafIsSum(p, vpn, i, idxbits);
    LowSmall(vpn, RangeBits(p, i * idxbits));
    Pow2Monotone(RangeBits(p, i * idxbits), 51);
  }

  lemma PpnFits(w: nat)
    ensures DecodePte(w).ppn < 0x1000_0000_0000
  {
  }

  lemma LevelBits(i: nat, idxbits: nat)
    requires i <= 4 && idxbits <= 10
    ensures i * idxbits <= 40
  {
  }

  lemma {:induction false} WalkFromFits(c: Config, vm: VmInfo, pt: Ptes, vpn: nat, typ: AccessType, mode: Mode, i: nat,
                                        base: nat)
    requires WfPmp(c.pmp) && i <= 4 && vm.idxbits <= 10
    requires WalkFrom(c, vm, pt, vpn, typ, mode, i, base).0.Found?
    ensures WalkFrom(c, vm, pt, vpn, typ, mode, i, base).0.page < PAGES
    decreases i
  {
    hide Examine, PteOk, PteAddr, DecodePte, AtLeaf, Pow2, Low, WfPmp, LeafPage, NapotOk;
    var addr := PteAddr(vm, base, vpn, i);
    PteThere(c, pt, addr, vm.ptesize, LOAD);
    var p := DecodePte(pt[addr]);
    if Examine(c, p, i * vm.idxbits, typ, mode) == Leaf {
      LeafTables(c, vm, pt, vpn, typ, i, addr);
      LeafAligned(c, p, i * vm.idxbits, typ, mode);
      PpnFits(pt[addr]);
      LevelBits(i, vm.idxbits);
      LeafFits(p, vpn, i, vm.idxbits);
    } else {
      WalkFromFits(c, vm, pt, vpn, typ, mode, i - 1, TableBase(p));
    }
  }

  /** No physical address that a walk comes to wraps around. */
  lemma WalkFits(c: Config, pt: Ptes, vpn: nat, typ: AccessType)
    requires WfConfig(c) && Walk(c, pt, vpn, typ).0.Found?
    ensures Walk(c, pt, vpn, typ).0.page < PAGES
  {
    hide WalkFrom, Canonical, Low, Pow2, WfPmp;
    var mode := ModeOf(c, typ);
    var vm := DecodeVmInfo(c, mode);
    if vm.levels > 0 {
      WalkFromFits(c, vm, pt, vpn, typ, mode, vm.levels - 1, vm.ptbase);
    } else {
      PageLimit();
      var n := if c.xlen >= 12 then c.xlen - 12 else 0;
      LowSmall(vpn, n);
      LowNone(vpn);
      Pow2Monotone(n, 52);
    }
  }
}
