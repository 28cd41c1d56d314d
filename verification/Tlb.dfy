/**
 The translation cache: three tag arrays over one data array. Every access gives the result of
 the walk and the PMP check it shortcuts, with the same changes to the page tables.
 */
module Tlb {
  import opened Common
  import opened Bits
  import opened P = Pmp
  import opened Mmu

  const TLB_ENTRIES := 256
  const TLB_CHECK_TRIGGERS := 0x8000_0000_0000_0000
  const INVALID := WORD - 1

  /** What an access comes to: a place in memory, a device access, or a fault. */
  datatype Outcome = Memory(paddr: int, host: int) | Device(paddr: int) | Page | Access

  datatype TlbEntry = TlbEntry(hostOffset: int, targetOffset: int)

  /** `tag & ~TLB_CHECK_TRIGGERS` */
  function TagPage(tag: nat): nat {
    if tag >= TLB_CHECK_TRIGGERS then tag - TLB_CHECK_TRIGGERS else tag
  }

  function Vpn(addr: u64): (r: nat)
    ensures r < PAGES
  {
    addr / PGSIZE
  }

  function Offset(addr: u64): nat {
    addr % PGSIZE
  }

  function Paddr(page: nat, addr: u64): u64
    requires page < PAGES
  {
    page * PGSIZE + Offset(addr)
  }

  // ---- the access without a cache ----

  /** translate, then the choice between memory and a device. */
  function Reference(c: Config, pt: Ptes, addr: u64, len: nat, typ: AccessType): (Outcome, Ptes)
    requires WfConfig(c)
  {
    hide *;
    var (r, pt') := Walk(c, pt, Vpn(addr), typ);
    PageKnown(c, pt, Vpn(addr), typ);
    (OutcomeOf(c, r, addr, len, typ), pt')
  }

  lemma PageKnown(c: Config, pt: Ptes, vpn: nat, typ: AccessType)
    requires WfConfig(c)
    ensures var r := Walk(c, pt, vpn, typ).0; r.Found? ==> r.page < PAGES
  {
    hide *;
    if Walk(c, pt, vpn, typ).0.Found? {
      WalkFits(c, pt, vpn, typ);
    }
  }

  function OutcomeOf(c: Config, r: WalkResult, addr: u64, len: nat, typ: AccessType): Outcome
    requires WfConfig(c) && (r.Found? ==> r.page < PAGES)
  {
    hide *;
    match r
    case PageFault => Page
    case AccessFault => Access
    case Found(page) =>
      if !PmpOk(c.pmp, Paddr(page, addr), len, typ, ModeOf(c, typ)) then Access
      else match c.host(page)
           case None => Device(Paddr(page, addr))
           case Some(h) => Memory(Paddr(page, addr), h + Offset(addr))
  }

  // ---- what a cached page stands for ----

  /**
   Every access of type `typ` to virtual page `vpn` gives memory at the entry's offsets, and changes no page table.
   */
  ghost predicate Cached(c: Config, pt: Ptes, vpn: nat, typ: AccessType, e: TlbEntry)
    requires WfConfig(c)
  {
    exists page: nat, h: nat ::
      Walk(c, pt, vpn, typ) == (Found(page), pt) && c.host(page) == Some(h) &&
      e == TlbEntry(h - vpn * PGSIZE, page * PGSIZE - vpn * PGSIZE) && PageOk(c, page, typ)
  }

  /** PMP allows every access that stays in the page. */
  ghost predicate PageOk(c: Config, page: nat, typ: AccessType)
    requires WfConfig(c)
  {
    page < PAGES &&
    forall a: u64, len: nat ::
      InPage(page, a, len) ==> PmpOk(c.pmp, a, len, typ, ModeOf(c, typ))
  }

  predicate InPage(page: nat, a: u64, len: nat) {
    0 < len && page * PGSIZE <= a && a + len <= (page + 1) * PGSIZE
  }

  /** An access of a power of two that is naturally aligned stays in its page. */
  predicate NaturallyAligned(addr: u64, len: nat) {
    (len == 1 || len == 2 || len == 4 || len == 8) && addr % len == 0
  }

  lemma AlignedStays(addr: u64, len: nat)
    requires NaturallyAligned(addr, len)
    ensures 0 < len && Offset(addr) + len <= PGSIZE
  {
    EightsIn(addr / PGSIZE * 0x200, Offset(addr));
  }

  lemma EightsIn(k: nat, r: nat)
    requires r < 0x1000
    ensures (8 * k + r) % 2 == 0 ==> r + 2 <= 0x1000
    ensures (8 * k + r) % 4 == 0 ==> r + 4 <= 0x1000
    ensures (8 * k + r) % 8 == 0 ==> r + 8 <= 0x1000
  {
    Mod2(4 * k, r);
    Mod4(2 * k, r);
    Mod8(k, r);
    if r % 2 == 0 {
      Even(r);
    }
    if r % 4 == 0 {
      Quad(r);
    }
    if r % 8 == 0 {
      Eight(r);
    }
  }

  lemma Even(r: nat)
    requires r % 2 == 0 && r < 0x1000
    ensures r + 2 <= 0x1000
  {
    assert r == 2 * (r / 2);
  }

  lemma Quad(r: nat)
    requires r % 4 == 0 && r < 0x1000
    ensures r + 4 <= 0x1000
  {
    assert r == 4 * (r / 4);
  }

  lemma Eight(r: nat)
    requires r % 8 == 0 && r < 0x1000
    ensures r + 8 <= 0x1000
  {
    assert r == 8 * (r / 8);
  }

  lemma Mod2(q: nat, m: nat)
    ensures (2 * q + m) % 2 == m % 2
  {
  }

  lemma Mod4(q: nat, m: nat)
    ensures (4 * q + m) % 4 == m % 4
  {
  }

  lemma Mod8(q: nat, m: nat)
    ensures (8 * q + m) % 8 == m % 8
  {
  }

  lemma AddrParts(addr: u64)
    ensures addr == Vpn(addr) * PGSIZE + Offset(addr) && Offset(addr) < PGSIZE && Vpn(addr) < PAGES
  {
  }

  /** A hit on a cached page is the reference access. */
  lemma HitIsReference(c: Config, pt: Ptes, addr: u64, len: nat, typ: AccessType, e: TlbEntry)
    requires WfConfig(c) && Cached(c, pt, Vpn(addr), typ, e) && NaturallyAligned(addr, len)
    ensures Reference(c, pt, addr, len, typ) == (Memory(e.targetOffset + addr, e.hostOffset + addr), pt)
  {
    hide Walk, PmpOk, WfConfig, WfPmp, Vpn, Offset, NaturallyAligned;
    AlignedStays(addr, len);
    AddrParts(addr);
    var page: nat, h: nat :|
      Walk(c, pt, Vpn(addr), typ) == (Found(page), pt) && c.host(page) == Some(h) &&
      e == TlbEntry(h - Vpn(addr) * PGSIZE, page * PGSIZE - Vpn(addr) * PGSIZE) && PageOk(c, page, typ);
    assert InPage(page, Paddr(page, addr), len);
  }

  /** Page tables that only grew keep what is cached. */
  lemma CachedGrows(c: Config, pt: Ptes, pt': Ptes, vpn: nat, typ: AccessType, e: TlbEntry)
    requires WfConfig(c) && Cached(c, pt, vpn, typ, e) && Grown(pt, pt')
    ensures Cached(c, pt', vpn, typ, e)
  {
    hide Walk, PmpOk, WfConfig, WfPmp, Grown, PageOk;
    WalkAgain(c, pt, pt', vpn, typ);
  }

  /** Two access types of one page are cached by the same entry. */
  lemma OneEntry(c: Config, pt: Ptes, vpn: nat, typ: AccessType, e: TlbEntry, typ2: AccessType, e2: TlbEntry)
    requires WfConfig(c) && Cached(c, pt, vpn, typ, e) && Cached(c, pt, vpn, typ2, e2) &&
             ModeOf(c, typ) == ModeOf(c, typ2)
    ensures e2 == e
  {
    hide Walk, PmpOk, WfConfig, WfPmp, Grown, PageOk;
    SamePage(c, pt, vpn, typ, typ2);
  }

  // ---- the invariant ----

  /** There are triggers on accesses of that type. */
  predicate Watched(c: Config, typ: AccessType) {
    match typ
    case FETCH => c.checkFetch
    case LOAD => c.checkLoad
    case STORE => c.checkStore
  }

  /** A tag is marked exactly when there are triggers on its accesses. */
  predicate MarkOk(c: Config, tag: nat, typ: AccessType) {
    tag >= TLB_CHECK_TRIGGERS <==> Watched(c, typ)
  }

  /** A tag that is not invalid names a page of its index that is cached by the data there. */
  ghost predicate TagOk(c: Config, pt: Ptes, tag: nat, idx: nat, typ: AccessType, e: TlbEntry)
    requires WfConfig(c)
  {
    tag == INVALID ||
    (TagPage(tag) < PAGES && TagPage(tag) % TLB_ENTRIES == idx && Cached(c, pt, TagPage(tag), typ, e) &&
     MarkOk(c, tag, typ))
  }

  /** The tags and data agree with the walk and PMP at one index, and the valid tags there name one page. */
  ghost predicate SlotOk(c: Config, pt: Ptes, insn: nat, load: nat, store: nat, idx: nat, e: TlbEntry)
    requires WfConfig(c)
  {
    TagOk(c, pt, insn, idx, FETCH, e) && TagOk(c, pt, load, idx, LOAD, e) && TagOk(c, pt, store, idx, STORE, e) &&
    OnePage(insn, load) && OnePage(insn, store) && OnePage(load, store)
  }

  predicate OnePage(a: nat, b: nat) {
    a != INVALID && b != INVALID ==> TagPage(a) == TagPage(b)
  }

  ghost predicate TlbOk(c: Config, pt: Ptes, insn: seq<nat>, load: seq<nat>, store: seq<nat>, data: seq<TlbEntry>)
    requires WfConfig(c)
  {
    |insn| == |load| == |store| == |data| == TLB_ENTRIES &&
    (forall i :: 0 <= i < TLB_ENTRIES ==> SlotOk(c, pt, insn[i], load[i], store[i], i, data[i])) &&
    (c.mprv ==> forall i :: 0 <= i < TLB_ENTRIES ==> insn[i] == load[i] == store[i] == INVALID)
  }

  lemma SlotGrows(c: Config, pt: Ptes, pt': Ptes, insn: nat, load: nat, store: nat, idx: nat, e: TlbEntry)
    requires WfConfig(c) && SlotOk(c, pt, insn, load, store, idx, e) && Grown(pt, pt')
    ensures SlotOk(c, pt', insn, load, store, idx, e)
  {
    hide Cached, WfConfig, WfPmp, Grown, TagPage;
    if insn != INVALID {
      CachedGrows(c, pt, pt', TagPage(insn), FETCH, e);
    }
    if load != INVALID {
      CachedGrows(c, pt, pt', TagPage(load), LOAD, e);
    }
    if store != INVALID {
      CachedGrows(c, pt, pt', TagPage(store), STORE, e);
    }
  }

  lemma TlbGrows(c: Config, pt: Ptes, pt': Ptes, insn: seq<nat>, load: seq<nat>, store: seq<nat>, data: seq<TlbEntry>)
    requires WfConfig(c) && TlbOk(c, pt, insn, load, store, data) && Grown(pt, pt')
    ensures TlbOk(c, pt', insn, load, store, data)
  {
    hide SlotOk, WfConfig, WfPmp, Grown;
    forall i | 0 <= i < TLB_ENTRIES
      ensures SlotOk(c, pt', insn[i], load[i], store[i], i, data[i])
    {
      SlotGrows(c, pt, pt', insn[i], load[i], store[i], i, data[i]);
    }
  }

  /** What refill_tlb does to a tag that does not name the page. */
  function Kept(tag: nat, vpn: nat): nat {
    if TagPage(tag) != vpn then INVALID else tag
  }

  /** The test of refill_tlb for triggers. */
  predicate Checks(c: Config, typ: AccessType) {
    (c.checkFetch && typ == FETCH) || (c.checkLoad && typ == LOAD) || (c.checkStore && typ == STORE)
  }

  /** The tag it sets: only in a page PMP treats alike, and marked when triggers must be checked. */
  function NewTag(tag: nat, vpn: nat, mine: bool, homogeneous: bool, check: bool): nat {
    if mine && homogeneous then (if check then vpn + TLB_CHECK_TRIGGERS else vpn) else Kept(tag, vpn)
  }

  lemma KeptTag(c: Config, pt: Ptes, tag: nat, idx: nat, typ: AccessType, e: TlbEntry, vpn: nat)
    requires WfConfig(c) && TagOk(c, pt, tag, idx, typ, e) && vpn < PAGES
    ensures Kept(tag, vpn) != INVALID ==> TagPage(tag) == vpn && Cached(c, pt, vpn, typ, e) && MarkOk(c, tag, typ)
  {
    hide Cached, WfConfig, WfPmp;
  }

  /** One tag after a refill. */
  lemma TagRefilled(c: Config, pt: Ptes, tag: nat, typ: AccessType, e: TlbEntry, vpn: nat, filler: AccessType,
                    e': TlbEntry, page: nat, homogeneous: bool)
    requires WfConfig(c) && TagOk(c, pt, tag, vpn % TLB_ENTRIES, typ, e) && vpn < PAGES
    requires Filled(c, pt, vpn, filler, e', page) && ModeOf(c, typ) == ModeOf(c, filler)
    requires homogeneous ==> PageOk(c, page, filler)
    ensures var tag' := NewTag(tag, vpn, typ == filler, homogeneous, Checks(c, filler));
            TagOk(c, pt, tag', vpn % TLB_ENTRIES, typ, e') && (tag' != INVALID ==> TagPage(tag') == vpn)
  {
    hide PageOk, WfConfig, WfPmp, Walk;
    KeptTag(c, pt, tag, vpn % TLB_ENTRIES, typ, e, vpn);
    if Kept(tag, vpn) != INVALID {
      SamePage(c, pt, vpn, typ, filler);
    }
  }

  /** The walk by an access of type `filler` has found the page, and the entry is made for it. */
  ghost predicate Filled(c: Config, pt: Ptes, vpn: nat, filler: AccessType, e: TlbEntry, page: nat)
    requires WfConfig(c)
  {
    Walk(c, pt, vpn, filler) == (Found(page), pt) &&
    exists h: nat :: c.host(page) == Some(h) && e == TlbEntry(h - vpn * PGSIZE, page * PGSIZE - vpn * PGSIZE)
  }

  /** One index after a refill. */
  lemma SlotRefilled(c: Config, pt: Ptes, insn: nat, load: nat, store: nat, e: TlbEntry, vpn: nat, filler: AccessType,
                     e': TlbEntry, page: nat, homogeneous: bool)
    requires WfConfig(c) && SlotOk(c, pt, insn, load, store, vpn % TLB_ENTRIES, e) && vpn < PAGES
    requires Filled(c, pt, vpn, filler, e', page) && !c.mprv && (homogeneous ==> PageOk(c, page, filler))
    ensures var check := Checks(c, filler);
            SlotOk(c, pt, NewTag(insn, vpn, filler == FETCH, homogeneous, check),
                   NewTag(load, vpn, filler == LOAD, homogeneous, check),
                   NewTag(store, vpn, filler == STORE, homogeneous, check), vpn % TLB_ENTRIES, e')
  {
    hide Filled, PageOk, WfConfig, WfPmp, TagOk, NewTag, TagPage;
    TagRefilled(c, pt, insn, FETCH, e, vpn, filler, e', page, homogeneous);
    TagRefilled(c, pt, load, LOAD, e, vpn, filler, e', page, homogeneous);
    TagRefilled(c, pt, store, STORE, e, vpn, filler, e', page, homogeneous);
  }

  lemma TlbRefilled(c: Config, pt: Ptes, insn: seq<nat>, load: seq<nat>, store: seq<nat>, data: seq<TlbEntry>,
                    vpn: nat, filler: AccessType, e: TlbEntry, page: nat, homogeneous: bool)
    requires WfConfig(c) && TlbOk(c, pt, insn, load, store, data) && vpn < PAGES
    requires Filled(c, pt, vpn, filler, e, page) && !c.mprv && (homogeneous ==> PageOk(c, page, filler))
    ensures var i, check := vpn % TLB_ENTRIES, Checks(c, filler);
            |insn| == |load| == |store| == |data| == TLB_ENTRIES &&
            TlbOk(c, pt, insn[i := NewTag(insn[i], vpn, filler == FETCH, homogeneous, check)],
                  load[i := NewTag(load[i], vpn, filler == LOAD, homogeneous, check)],
                  store[i := NewTag(store[i], vpn, filler == STORE, homogeneous, check)], data[i := e])
  {
    hide SlotOk, Filled, PageOk, WfConfig, WfPmp, NewTag;
    var i := vpn % TLB_ENTRIES;
    SlotRefilled(c, pt, insn[i], load[i], store[i], data[i], vpn, filler, e, page, homogeneous);
  }

  /** PMP homogeneity carries the one access that was checked over to the whole page. */
  lemma PageChecked(c: Config, page: nat, typ: AccessType, paddr: u64, len: nat)
    requires WfConfig(c) && page < PAGES && Homogeneous(c.pmp, page * PGSIZE, PGSIZE)
    requires InPage(page, paddr, len) && PmpOk(c.pmp, paddr, len, typ, ModeOf(c, typ))
    ensures PageOk(c, page, typ)
  {
    hide PmpOk, WfConfig, WfPmp, Homogeneous, Pow2, Low, High;
    PageBlock(page);
    forall a: u64, n: nat | InPage(page, a, n)
      ensures PmpOk(c.pmp, a, n, typ, ModeOf(c, typ))
    {
      PageWithin(page, a, n);
      PageWithin(page, paddr, len);
      HomogeneousIsSound(c.pmp, page * PGSIZE, 12, a, n, paddr, len, typ, ModeOf(c, typ));
    }
  }

  lemma PageBlock(page: nat)
    requires page < PAGES
    ensures Pow2(12) == PGSIZE && page * PGSIZE < WORD && (page + 1) * PGSIZE <= WORD && Low(page * PGSIZE, 12) == 0
  {
    hide Low, High, Pow2;
    Pow2Small();
    Pow2Add(8, 2);
    Pow2Add(10, 2);
    LowOfMultiple(page, 12);
  }

  lemma PageWithin(page: nat, a: u64, len: nat)
    requires page < PAGES && InPage(page, a, len)
    ensures Within(page * PGSIZE, 12, a, len)
  {
    hide Low, High, Pow2;
    PageBlock(page);
  }

  /** The tags and data by index. */
  datatype Arrays = Arrays(insn: seq<nat>, load: seq<nat>, store: seq<nat>, data: seq<TlbEntry>)

  /**
   What a refill does: nothing under MPRV; else every tag at the index that names another page is invalid, and the tag
   of the access names the page when PMP treats all of it alike.
   */
  ghost predicate Refilled(c: Config, a: Arrays, a': Arrays, vpn: nat, typ: AccessType, page: nat, e: TlbEntry)
    requires WfConfig(c) && page < PAGES
    requires |a.insn| == |a.load| == |a.store| == |a.data| == TLB_ENTRIES
  {
    var i, h, check := vpn % TLB_ENTRIES, Homogeneous(c.pmp, page * PGSIZE, PGSIZE), Checks(c, typ);
    if c.mprv then a' == a
    else a' == Arrays(a.insn[i := NewTag(a.insn[i], vpn, typ == FETCH, h, check)],
                      a.load[i := NewTag(a.load[i], vpn, typ == LOAD, h, check)],
                      a.store[i := NewTag(a.store[i], vpn, typ == STORE, h, check)], a.data[i := e])
  }

  lemma RefilledIs(c: Config, a: Arrays, a': Arrays, vpn: nat, typ: AccessType, page: nat, e: TlbEntry)
    requires WfConfig(c) && page < PAGES && |a.insn| == |a.load| == |a.store| == |a.data| == TLB_ENTRIES
    requires 0 <= page * PGSIZE < WORD && 0 < PGSIZE < WORD && 0 <= vpn % TLB_ENTRIES < TLB_ENTRIES
    requires var i, h, check := vpn % TLB_ENTRIES, Homogeneous(c.pmp, page * PGSIZE, PGSIZE), Checks(c, typ);
             if c.mprv then a' == a
             else a' == Arrays(a.insn[i := NewTag(a.insn[i], vpn, typ == FETCH, h, check)],
                               a.load[i := NewTag(a.load[i], vpn, typ == LOAD, h, check)],
                               a.store[i := NewTag(a.store[i], vpn, typ == STORE, h, check)], a.data[i := e])
    ensures Refilled(c, a, a', vpn, typ, page, e)
  {
    hide Homogeneous, WfConfig, WfPmp, NewTag;
  }

  // ---- the memory management unit ----

  class MmuState {
    const c: Config
    var pt: Ptes
    const tlbInsnTag: array<nat>
    const tlbLoadTag: array<nat>
    const tlbStoreTag: array<nat>
    const tlbData: array<TlbEntry>

    ghost predicate Valid()
      reads this, tlbInsnTag, tlbLoadTag, tlbStoreTag, tlbData
      ensures Valid() ==> WfConfig(c)
    {
      WfConfig(c) && tlbInsnTag != tlbLoadTag && tlbInsnTag != tlbStoreTag && tlbLoadTag != tlbStoreTag &&
      TlbOk(c, pt, tlbInsnTag[..], tlbLoadTag[..], tlbStoreTag[..], tlbData[..])
    }

    /** A fresh unit, all tags invalid. */
    constructor (config: Config, tables: Ptes)
      requires WfConfig(config)
      ensures Valid() && c == config && pt == tables
      ensures fresh(tlbInsnTag) && fresh(tlbLoadTag) && fresh(tlbStoreTag) && fresh(tlbData)
    {
      c, pt := config, tables;
      tlbInsnTag := new nat[TLB_ENTRIES](_ => INVALID);
      tlbLoadTag := new nat[TLB_ENTRIES](_ => INVALID);
      tlbStoreTag := new nat[TLB_ENTRIES](_ => INVALID);
      tlbData := new TlbEntry[TLB_ENTRIES](_ => TlbEntry(0, 0));
    }

    ghost function View(): Arrays
      reads this, tlbInsnTag, tlbLoadTag, tlbStoreTag, tlbData
    {
      Arrays(tlbInsnTag[..], tlbLoadTag[..], tlbStoreTag[..], tlbData[..])
    }

    lemma ViewIs()
      ensures View() == Arrays(tlbInsnTag[..], tlbLoadTag[..], tlbStoreTag[..], tlbData[..])
    {
    }

    lemma Facts()
      requires Valid()
      ensures WfConfig(c) && TlbOk(c, pt, tlbInsnTag[..], tlbLoadTag[..], tlbStoreTag[..], tlbData[..])
      ensures tlbInsnTag.Length == tlbLoadTag.Length == tlbStoreTag.Length == tlbData.Length == TLB_ENTRIES
      ensures tlbInsnTag != tlbLoadTag && tlbInsnTag != tlbStoreTag && tlbLoadTag != tlbStoreTag
    {
      hide SlotOk, WfConfig, WfPmp;
    }

    /** flush_tlb: right for any page tables. */
    method FlushTlb(tables: Ptes)
      requires Valid()
      modifies `pt, tlbInsnTag, tlbLoadTag, tlbStoreTag
      ensures Valid() && pt == tables
      ensures forall i :: 0 <= i < TLB_ENTRIES ==>
                tlbInsnTag[..][i] == tlbLoadTag[..][i] == tlbStoreTag[..][i] == INVALID
    {
      hide Cached, WfConfig, WfPmp;
      Facts();
      forall i | 0 <= i < TLB_ENTRIES {
        tlbInsnTag[i] := INVALID;
      }
      forall i | 0 <= i < TLB_ENTRIES {
        tlbLoadTag[i] := INVALID;
      }
      forall i | 0 <= i < TLB_ENTRIES {
        tlbStoreTag[i] := INVALID;
      }
      pt := tables;
    }

    /** translate: the walk, then PMP; the page tables may gain accessed and dirty bits. */
    method Translate(addr: u64, len: nat, typ: AccessType) returns (r: WalkResult, ok: bool)
      requires Valid()
      modifies `pt
      ensures Valid() && (r, pt) == Walk(c, old(pt), Vpn(addr), typ)
      ensures r.Found? ==> r.page < PAGES
      ensures ok <==> r.Found? && PmpOk(c.pmp, Paddr(r.page, addr), len, typ, ModeOf(c, typ))
      ensures r.Found? ==> Walk(c, pt, Vpn(addr), typ) == (r, pt)
    {
      hide *;
      ok := false;
      Facts();
      WalkGrows(c, pt, Vpn(addr), typ);
      PageKnown(c, pt, Vpn(addr), typ);
      ghost var pt0 := pt;
      var pt';
      r, pt' := WalkLoop(c, pt, Vpn(addr), typ);
      TlbGrows(c, pt, pt', tlbInsnTag[..], tlbLoadTag[..], tlbStoreTag[..], tlbData[..]);
      pt := pt';
      StillValid();
      if r.Found? {
        GrownSelf(pt);
        WalkAgain(c, pt0, pt, Vpn(addr), typ);
        ok := CheckPmp(c.pmp, Paddr(r.page, addr), len, typ, ModeOf(c, typ));
      }
    }

    lemma StillValid()
      requires WfConfig(c) && tlbInsnTag != tlbLoadTag && tlbInsnTag != tlbStoreTag && tlbLoadTag != tlbStoreTag
      requires TlbOk(c, pt, tlbInsnTag[..], tlbLoadTag[..], tlbStoreTag[..], tlbData[..])
      ensures Valid()
    {
      hide TlbOk, WfConfig, WfPmp;
    }

    /** refill_tlb */
    method RefillTlb(addr: u64, page: nat, host: nat, len: nat, typ: AccessType)
      requires Valid() && Walk(c, pt, Vpn(addr), typ) == (Found(page), pt) && c.host(page) == Some(host)
      requires NaturallyAligned(addr, len) && page < PAGES
      requires PmpOk(c.pmp, Paddr(page, addr), len, typ, ModeOf(c, typ))
      requires |View().insn| == |View().load| == |View().store| == |View().data| == TLB_ENTRIES
      modifies tlbInsnTag, tlbLoadTag, tlbStoreTag, tlbData
      ensures Valid()
      ensures Refilled(c, old(View()), View(), Vpn(addr), typ, page,
                       TlbEntry(host + Offset(addr) - addr, Paddr(page, addr) - addr))
    {
      hide *;
      Facts();
      ViewIs();
      PageBase(page, addr, len);
      AddrParts(addr);
      IndexBound(addr);
      var vpn := Vpn(addr);
      var idx := vpn % TLB_ENTRIES;
      var entry := TlbEntry(host + Offset(addr) - addr, Paddr(page, addr) - addr);
      ghost var before := View();
      if c.mprv {
        RefilledIs(c, before, before, vpn, typ, page, entry);
        return;
      }
      ghost var insn, load, store, data := tlbInsnTag[..], tlbLoadTag[..], tlbStoreTag[..], tlbData[..];
      tlbLoadTag[idx] := Kept(tlbLoadTag[idx], vpn);
      tlbStoreTag[idx] := Kept(tlbStoreTag[idx], vpn);
      tlbInsnTag[idx] := Kept(tlbInsnTag[idx], vpn);
      var check := Checks(c, typ);
      var homogeneous := CheckHomogeneous(c.pmp, page * PGSIZE, PGSIZE);
      NewTags(insn[idx], load[idx], store[idx], vpn, typ, homogeneous, check);
      if homogeneous {
        var tag := if check then vpn + TLB_CHECK_TRIGGERS else vpn;
        if typ == FETCH {
          tlbInsnTag[idx] := tag;
        } else if typ == STORE {
          tlbStoreTag[idx] := tag;
        } else {
          tlbLoadTag[idx] := tag;
        }
        PageChecked(c, page, typ, Paddr(page, addr), len);
      }
      tlbData[idx] := entry;
      FilledIs(c, pt, addr, typ, page, host);
      TlbRefilled(c, pt, insn, load, store, data, vpn, typ, entry, page, homogeneous);
      assert tlbInsnTag[..] == insn[idx := NewTag(insn[idx], vpn, typ == FETCH, homogeneous, check)];
      assert tlbLoadTag[..] == load[idx := NewTag(load[idx], vpn, typ == LOAD, homogeneous, check)];
      assert tlbStoreTag[..] == store[idx := NewTag(store[idx], vpn, typ == STORE, homogeneous, check)];
      assert tlbData[..] == data[idx := entry];
      StillValid();
      ViewIs();
      RefilledIs(c, before, View(), vpn, typ, page, entry);
    }

    /**
     A load: the fast path, the slow path's second look at the tag, or translation and refill. The slow path checks the
     access against triggers.
     */
    method Load(addr: u64, len: nat, special: bool) returns (r: Outcome, checked: bool)
      requires Valid() && NaturallyAligned(addr, len)
      modifies `pt, tlbInsnTag, tlbLoadTag, tlbStoreTag, tlbData
      ensures Valid() && (r, pt) == Reference(c, old(pt), addr, len, LOAD)
      ensures c.checkLoad ==> checked
    {
      hide *;
      Facts();
      AddrParts(addr);
      IndexBound(addr);
      var vpn := Vpn(addr);
      var idx := vpn % TLB_ENTRIES;
      TagsAt(idx);
      if !special && tlbLoadTag[idx] == vpn {
        TagHit(LOAD, addr, len);
        Unmarked(LOAD, addr);
        return Memory(tlbData[idx].targetOffset + addr, tlbData[idx].hostOffset + addr), false;
      }
      checked := true;
      if !special && vpn == TagPage(tlbLoadTag[idx]) {
        TagHit(LOAD, addr, len);
        return Memory(tlbData[idx].targetOffset + addr, tlbData[idx].hostOffset + addr), checked;
      }
      r := SlowPath(addr, len, LOAD, special);
    }

    /** A store. */
    method Store(addr: u64, len: nat, special: bool) returns (r: Outcome, checked: bool)
      requires Valid() && NaturallyAligned(addr, len)
      modifies `pt, tlbInsnTag, tlbLoadTag, tlbStoreTag, tlbData
      ensures Valid() && (r, pt) == Reference(c, old(pt), addr, len, STORE)
      ensures c.checkStore ==> checked
    {
      hide *;
      Facts();
      AddrParts(addr);
      IndexBound(addr);
      var vpn := Vpn(addr);
      var idx := vpn % TLB_ENTRIES;
      TagsAt(idx);
      if !special && tlbStoreTag[idx] == vpn {
        TagHit(STORE, addr, len);
        Unmarked(STORE, addr);
        return Memory(tlbData[idx].targetOffset + addr, tlbData[idx].hostOffset + addr), false;
      }
      checked := true;
      if !special && vpn == TagPage(tlbStoreTag[idx]) {
        TagHit(STORE, addr, len);
        return Memory(tlbData[idx].targetOffset + addr, tlbData[idx].hostOffset + addr), checked;
      }
      r := SlowPath(addr, len, STORE, special);
    }

    /** An instruction fetch of two bytes. */
    method Fetch(addr: u64) returns (r: Outcome, checked: bool)
      requires Valid() && NaturallyAligned(addr, 2)
      modifies `pt, tlbInsnTag, tlbLoadTag, tlbStoreTag, tlbData
      ensures Valid() && (r, pt) == Reference(c, old(pt), addr, 2, FETCH)
      ensures c.checkFetch ==> checked
    {
      hide *;
      Facts();
      AddrParts(addr);
      IndexBound(addr);
      var vpn := Vpn(addr);
      var idx := vpn % TLB_ENTRIES;
      TagsAt(idx);
      if tlbInsnTag[idx] == vpn {
        TagHit(FETCH, addr, 2);
        Unmarked(FETCH, addr);
        return Memory(tlbData[idx].targetOffset + addr, tlbData[idx].hostOffset + addr), false;
      }
      checked := true;
      if tlbInsnTag[idx] == vpn + TLB_CHECK_TRIGGERS {
        TagHit(FETCH, addr, 2);
        return Memory(tlbData[idx].targetOffset + addr, tlbData[idx].hostOffset + addr), checked;
      }
      r := SlowPath(addr, 2, FETCH, false);
    }

    /** What the slow paths share. */
    method SlowPath(addr: u64, len: nat, typ: AccessType, special: bool) returns (r: Outcome)
      requires Valid() && NaturallyAligned(addr, len)
      modifies `pt, tlbInsnTag, tlbLoadTag, tlbStoreTag, tlbData
      ensures Valid() && (r, pt) == Reference(c, old(pt), addr, len, typ)
    {
      hide *;
      Facts();
      ghost var pt0 := pt;
      var w, ok := Translate(addr, len, typ);
      ReferenceIs(c, pt0, addr, len, typ);
      OutcomeIs(c, w, addr, len, typ);
      if !ok {
        return if w.PageFault? then Page else Access;
      }
      match c.host(w.page) {
        case None =>
          r := Device(Paddr(w.page, addr));
        case Some(host) =>
          r := Memory(Paddr(w.page, addr), host + Offset(addr));
          if !special {
            Facts();
            ViewIs();
            RefillTlb(addr, w.page, host, len, typ);
          }
      }
    }

    function TagAt(typ: AccessType, idx: nat): nat
      requires idx < tlbInsnTag.Length && idx < tlbLoadTag.Length && idx < tlbStoreTag.Length
      reads this, tlbInsnTag, tlbLoadTag, tlbStoreTag
    {
      match typ
      case FETCH => tlbInsnTag[idx]
      case LOAD => tlbLoadTag[idx]
      case STORE => tlbStoreTag[idx]
    }

    lemma TagsAt(idx: nat)
      requires idx < tlbInsnTag.Length && idx < tlbLoadTag.Length && idx < tlbStoreTag.Length
      ensures TagAt(FETCH, idx) == tlbInsnTag[idx] && TagAt(LOAD, idx) == tlbLoadTag[idx] &&
              TagAt(STORE, idx) == tlbStoreTag[idx]
    {
    }

    /** A tag that is the page itself is not marked, so that there are no triggers on the access. */
    lemma Unmarked(typ: AccessType, addr: u64)
      requires Valid()
      requires tlbInsnTag.Length == tlbLoadTag.Length == tlbStoreTag.Length == tlbData.Length == TLB_ENTRIES
      requires Vpn(addr) % TLB_ENTRIES < TLB_ENTRIES && TagAt(typ, Vpn(addr) % TLB_ENTRIES) == Vpn(addr)
      ensures !Watched(c, typ)
      ensures typ == FETCH ==> !c.checkFetch
      ensures typ == LOAD ==> !c.checkLoad
      ensures typ == STORE ==> !c.checkStore
    {
      hide Cached, WfConfig, WfPmp;
      AddrParts(addr);
      var idx := Vpn(addr) % TLB_ENTRIES;
      assert SlotOk(c, pt, tlbInsnTag[..][idx], tlbLoadTag[..][idx], tlbStoreTag[..][idx], idx, tlbData[..][idx]);
    }

    /** A tag that matches the page gives the reference access. */
    lemma TagHit(typ: AccessType, addr: u64, len: nat)
      requires Valid() && NaturallyAligned(addr, len)
      requires tlbInsnTag.Length == tlbLoadTag.Length == tlbStoreTag.Length == tlbData.Length == TLB_ENTRIES
      requires Vpn(addr) % TLB_ENTRIES < TLB_ENTRIES
      requires var tag := TagAt(typ, Vpn(addr) % TLB_ENTRIES);
               tag == Vpn(addr) || tag == Vpn(addr) + TLB_CHECK_TRIGGERS || TagPage(tag) == Vpn(addr)
      ensures var e := tlbData[Vpn(addr) % TLB_ENTRIES];
              Reference(c, pt, addr, len, typ) == (Memory(e.targetOffset + addr, e.hostOffset + addr), pt)
    {
      hide Cached, WfConfig, WfPmp, NaturallyAligned, Reference;
      AddrParts(addr);
      var idx := Vpn(addr) % TLB_ENTRIES;
      assert SlotOk(c, pt, tlbInsnTag[..][idx], tlbLoadTag[..][idx], tlbStoreTag[..][idx], idx, tlbData[..][idx]);
      HitIsReference(c, pt, addr, len, typ, tlbData[idx]);
    }
  }

  lemma IndexBound(addr: u64)
    ensures TLB_ENTRIES == 256 && 0 <= Vpn(addr) % TLB_ENTRIES < TLB_ENTRIES
  {
  }

  lemma PageBase(page: nat, addr: u64, len: nat)
    requires NaturallyAligned(addr, len) && page < PAGES
    ensures 0 <= page * PGSIZE < WORD && 0 < PGSIZE < WORD && InPage(page, Paddr(page, addr), len)
  {
    AlignedStays(addr, len);
  }

  lemma NewTags(insn: nat, load: nat, store: nat, vpn: nat, typ: AccessType, homogeneous: bool, check: bool)
    ensures var tag := if check then vpn + TLB_CHECK_TRIGGERS else vpn;
            NewTag(insn, vpn, typ == FETCH, homogeneous, check) ==
              (if typ == FETCH && homogeneous then tag else Kept(insn, vpn)) &&
            NewTag(load, vpn, typ == LOAD, homogeneous, check) ==
              (if typ == LOAD && homogeneous then tag else Kept(load, vpn)) &&
            NewTag(store, vpn, typ == STORE, homogeneous, check) ==
              (if typ == STORE && homogeneous then tag else Kept(store, vpn))
    ensures TLB_CHECK_TRIGGERS >= 0
  {
    hide Kept;
  }

  lemma FilledIs(c: Config, pt: Ptes, addr: u64, typ: AccessType, page: nat, host: nat)
    requires WfConfig(c) && page < PAGES && Walk(c, pt, Vpn(addr), typ) == (Found(page), pt) &&
             c.host(page) == Some(host)
    ensures Filled(c, pt, Vpn(addr), typ, TlbEntry(host + Offset(addr) - addr, Paddr(page, addr) - addr), page)
  {
    hide Walk, WfConfig, WfPmp, Vpn, Offset;
    AddrParts(addr);
  }

  lemma ReferenceIs(c: Config, pt: Ptes, addr: u64, len: nat, typ: AccessType)
    requires WfConfig(c)
    ensures var (r, pt') := Walk(c, pt, Vpn(addr), typ);
            (r.Found? ==> r.page < PAGES) && Reference(c, pt, addr, len, typ) == (OutcomeOf(c, r, addr, len, typ), pt')
  {
    hide Walk, WfConfig, OutcomeOf, Vpn;
    PageKnown(c, pt, Vpn(addr), typ);
  }

  lemma OutcomeIs(c: Config, r: WalkResult, addr: u64, len: nat, typ: AccessType)
    requires WfConfig(c) && (r.Found? ==> r.page < PAGES)
    ensures OutcomeOf(c, r, addr, len, typ) ==
            match r
            case PageFault => Page
            case AccessFault => Access
            case Found(page) =>
              if !PmpOk(c.pmp, Paddr(page, addr), len, typ, ModeOf(c, typ)) then Access
              else match c.host(page)
                   case None => Device(Paddr(page, addr))
                   case Some(h) => Memory(Paddr(page, addr), h + Offset(addr))
  {
    hide WfConfig, Paddr, Offset, PmpOk, ModeOf;
  }
}
