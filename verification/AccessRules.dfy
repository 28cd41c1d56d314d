/** An access from its virtual address to memory: what page tables and PMP together let through. */
module AccessRules {
  import opened Common
  import opened Bits
  import opened P = Pmp
  import opened PmpRules
  import opened Mmu
  import opened MmuRules
  import opened Tlb

  /** The page that the page tables give an address, or without translation the one of the address itself. */
  ghost predicate Maps(c: Config, pt: Ptes, addr: u64, typ: AccessType, page: nat)
    requires WfConfig(c)
  {
    if Translated(c, AccessMode(c, typ)) then
      VirtualBits(c.satpMode) >= 13 && FoundAt(c, pt, addr / 0x1000, typ, page)
    else c.xlen >= 12 && page == addr / 0x1000 % Pow2(c.xlen - 12)
  }

  lemma MapsIs(c: Config, pt: Ptes, addr: u64, typ: AccessType, page: nat)
    requires WfConfig(c) && c.xlen >= 12
    ensures Maps(c, pt, addr, typ, page) <==> Walk(c, pt, Vpn(addr), typ).0 == Found(page)
  {
    hide Walk, FoundAt, Pow2, WfPmp, VirtualBits;
    if Translated(c, AccessMode(c, typ)) {
      WalkIs(c, pt, Vpn(addr), typ, page);
    } else {
      Untranslated(c, pt, Vpn(addr), typ);
    }
  }

  lemma OutcomeIs(c: Config, r: WalkResult, addr: u64, len: nat, typ: AccessType, paddr: int, host: int)
    requires WfConfig(c) && (r.Found? ==> r.page < PAGES)
    ensures OutcomeOf(c, r, addr, len, typ) == Memory(paddr, host) <==>
            r.Found? && paddr == r.page * 0x1000 + addr % 0x1000 && c.host(r.page).Some? &&
            host == c.host(r.page).value + addr % 0x1000 && 0 <= paddr < WORD &&
            Allows(c.pmp, paddr, len, typ, AccessMode(c, typ))
  {
    hide PmpOk, Allows, WfPmp;
    if r.Found? {
      Answer(c.pmp, Paddr(r.page, addr), len, typ, AccessMode(c, typ));
    }
  }

  /**
   An access comes to a place in memory exactly when the page tables give its page and permit it, that page is memory,
   and PMP allows the physical access in the mode of the access.
   */
  lemma AccessIs(c: Config, pt: Ptes, addr: u64, len: nat, typ: AccessType, paddr: int, host: int)
    requires WfConfig(c) && c.xlen >= 12
    ensures Reference(c, pt, addr, len, typ).0 == Memory(paddr, host) <==>
            exists page: nat ::
              Maps(c, pt, addr, typ, page) && paddr == page * 0x1000 + addr % 0x1000 && c.host(page).Some? &&
              host == c.host(page).value + addr % 0x1000 && 0 <= paddr < WORD &&
              Allows(c.pmp, paddr, len, typ, AccessMode(c, typ))
  {
    hide Walk, Maps, OutcomeOf, Allows, WfConfig;
    var r := Walk(c, pt, Vpn(addr), typ).0;
    PageKnown(c, pt, Vpn(addr), typ);
    OutcomeIs(c, r, addr, len, typ, paddr, host);
    MapsIs(c, pt, addr, typ, if r.Found? then r.page else 0);
    forall page: nat | Maps(c, pt, addr, typ, page)
      ensures r == Found(page)
    {
      MapsIs(c, pt, addr, typ, page);
    }
  }

  /**
   Otherwise it ends in a page fault exactly when the page tables give no page and every access of the walk is
   permitted, in an access fault exactly when one of those is not or PMP does not allow the access itself, and else at a
   device.
   */
  lemma FaultsAre(c: Config, pt: Ptes, addr: u64, len: nat, typ: AccessType)
    requires WfConfig(c) && c.xlen >= 12
    ensures Reference(c, pt, addr, len, typ).0 == Page <==>
            !Stopped(c, pt, addr, typ) && forall page: nat :: !Maps(c, pt, addr, typ, page)
    ensures Reference(c, pt, addr, len, typ).0 == Access <==>
            Stopped(c, pt, addr, typ) ||
            exists page: nat ::
              Maps(c, pt, addr, typ, page) && page * 0x1000 + addr % 0x1000 < WORD &&
              !Allows(c.pmp, page * 0x1000 + addr % 0x1000, len, typ, AccessMode(c, typ))
  {
    hide Walk, Maps, Stopped, Allows, WfConfig, PmpOk;
    var r := Walk(c, pt, Vpn(addr), typ).0;
    PageKnown(c, pt, Vpn(addr), typ);
    StoppedIs(c, pt, addr, typ);
    MapsIs(c, pt, addr, typ, if r.Found? then r.page else 0);
    if r.Found? {
      AllowedIs(c, r, addr, len, typ);
    }
    forall page: nat | Maps(c, pt, addr, typ, page)
      ensures r == Found(page)
    {
      MapsIs(c, pt, addr, typ, page);
    }
  }

  lemma AllowedIs(c: Config, r: WalkResult, addr: u64, len: nat, typ: AccessType)
    requires WfConfig(c) && r.Found? && r.page < PAGES
    ensures r.page * 0x1000 + addr % 0x1000 < WORD
    ensures OutcomeOf(c, r, addr, len, typ) != Page
    ensures OutcomeOf(c, r, addr, len, typ) == Access <==>
            !Allows(c.pmp, r.page * 0x1000 + addr % 0x1000, len, typ, AccessMode(c, typ))
  {
    hide PmpOk, Allows, WfPmp;
    Answer(c.pmp, Paddr(r.page, addr), len, typ, AccessMode(c, typ));
  }

  /** An access of the walk for an address is not permitted. */
  ghost predicate Stopped(c: Config, pt: Ptes, addr: u64, typ: AccessType)
    requires WfConfig(c)
  {
    Translated(c, AccessMode(c, typ)) && VirtualBits(c.satpMode) >= 13 && StoppedAt(c, pt, addr / 0x1000, typ)
  }

  lemma StoppedIs(c: Config, pt: Ptes, addr: u64, typ: AccessType)
    requires WfConfig(c) && c.xlen >= 12
    ensures Stopped(c, pt, addr, typ) <==> Walk(c, pt, Vpn(addr), typ).0 == AccessFault
  {
    hide Walk, StoppedAt, Pow2, WfPmp, VirtualBits;
    if Translated(c, AccessMode(c, typ)) {
      WalkIs(c, pt, Vpn(addr), typ, 0);
    } else {
      Untranslated(c, pt, Vpn(addr), typ);
    }
  }
}
