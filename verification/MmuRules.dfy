/**
 When a page-table walk finds a page, and which, in terms of the words it reads: every word above the last is a pointer,
 the last one is a leaf that permits the access, and all of them may be accessed.
 */
module MmuRules {
  import opened Common
  import opened Bits
  import opened P = Pmp
  import opened Mmu

  // ---- words ----

  /** Bit `n` of a word. */
  predicate BitAt(w: nat, n: nat) {
    High(w, n) % 2 == 1
  }

  /** The `len` bits of a word from bit `n` on. */
  function Field(w: nat, n: nat, len: nat): nat {
    Low(High(w, n), len)
  }

  /** The page number in an entry. */
  function Ppn(w: nat): nat {
    Field(w, 10, 44)
  }

  lemma Powers()
    ensures Pow2(0) == 1 && Pow2(1) == 2 && Pow2(2) == 4 && Pow2(3) == 8 && Pow2(4) == 0x10 && Pow2(6) == 0x40
    ensures Pow2(7) == 0x80 && Pow2(10) == 0x400 && Pow2(44) == 0x1000_0000_0000
    ensures Pow2(51) == 0x8_0000_0000_0000 && Pow2(53) == 0x20_0000_0000_0000
  {
    hide Pow2;
    Pow2Small();
    Pow2Half(0);
    Pow2Half(3);
    Pow2Half(4);
    SmallPowers();
    Pow2Add(10, 10);
    Pow2Add(20, 20);
    Pow2Add(40, 4);
    Pow2Add(44, 7);
    Pow2Add(51, 2);
  }

  lemma BitIs(w: nat, n: nat)
    ensures Pow2(n) > 0 && (BitAt(w, n) <==> Mmu.Bit(w, Pow2(n)))
  {
    hide High, Low, Pow2;
    HighIsDiv(w, n);
  }

  /** The fields of an entry are these bits of its word. */
  lemma FieldsAre(w: nat)
    ensures var p := DecodePte(w);
            p.v == BitAt(w, 0) && p.r == BitAt(w, 1) && p.w == BitAt(w, 2) && p.x == BitAt(w, 3) &&
            p.u == BitAt(w, 4) && p.a == BitAt(w, 6) && p.d == BitAt(w, 7)
    ensures var p := DecodePte(w);
            p.ppn == Ppn(w) && (p.rsvd <==> Field(w, 54, 7) != 0) && p.pbmt == Field(w, 61, 2) && p.n == BitAt(w, 63)
  {
    hide BitAt, High, Low, Pow2, Mmu.Bit;
    Powers();
    BitIs(w, 0);
    BitIs(w, 1);
    BitIs(w, 2);
    BitIs(w, 3);
    BitIs(w, 4);
    BitIs(w, 6);
    BitIs(w, 7);
    HighIsDiv(w, 10);
    UpperFields(w);
  }

  lemma UpperFields(w: nat)
    ensures var h := High(w, 10);
            h % 0x1000_0000_0000 == Ppn(w) && h / 0x1000_0000_0000 % 0x80 == Field(w, 54, 7) &&
            h / 0x8_0000_0000_0000 % 4 == Field(w, 61, 2) && Mmu.Bit(h, 0x20_0000_0000_0000) == BitAt(w, 63)
  {
    hide High, Low, Pow2;
    var h := High(w, 10);
    Powers();
    HighIsDiv(h, 44);
    HighIsDiv(h, 51);
    HighIsDiv(h, 53);
    HighHigh(w, 10, 44);
    HighHigh(w, 10, 51);
    HighHigh(w, 10, 53);
    HighIsDiv(High(w, 54), 7);
    HighIsDiv(High(w, 61), 2);
  }

  // ---- pointers and leaves ----

  /** A pointer to the next table: valid, and every other bit clear but its page number, G and the two for software. */
  predicate Pointer(w: nat) {
    BitAt(w, 0) && !BitAt(w, 1) && !BitAt(w, 2) && !BitAt(w, 3) && !BitAt(w, 4) && !BitAt(w, 6) && !BitAt(w, 7) &&
    Field(w, 54, 7) == 0 && Field(w, 61, 2) == 0 && !BitAt(w, 63)
  }

  /** The access needs X to fetch, R, or X with MXR, to load, and R and W to store. */
  predicate PermitsType(c: Config, w: nat, typ: AccessType) {
    match typ
    case FETCH => BitAt(w, 3)
    case LOAD => BitAt(w, 1) || (c.mxr && BitAt(w, 3))
    case STORE => BitAt(w, 1) && BitAt(w, 2)
  }

  /** Pages with U are for user mode, and with SUM for data of supervisor mode; the others for supervisor mode. */
  predicate PermitsMode(c: Config, w: nat, typ: AccessType, mode: Mode) {
    if mode == PRV_S then BitAt(w, 4) ==> c.sum && typ != FETCH else BitAt(w, 4)
  }

  /** A leaf of level `i` that permits the access, but for the form of its page number if it marks a range. */
  predicate GoodLeaf(c: Config, w: nat, ptshift: nat, typ: AccessType, mode: Mode) {
    BitAt(w, 0) && (BitAt(w, 1) || (!BitAt(w, 2) && BitAt(w, 3))) &&
    PermitsType(c, w, typ) && PermitsMode(c, w, typ, mode) &&
    Field(w, 54, 7) == 0 && (BitAt(w, 63) ==> c.svnapot) &&
    (Field(w, 61, 2) != 0 ==> c.pbmte && Field(w, 61, 2) != 3) &&
    Low(Ppn(w), ptshift) == 0
  }

  /** Where N is set: at the last level only, the page number ending in the four bits 1000. */
  predicate GoodRange(w: nat, i: nat) {
    BitAt(w, 63) ==> i == 0 && Low(Ppn(w), 4) == 8
  }

  /** The accessed bit is set, and the dirty bit for a store. */
  predicate AdSet(w: nat, typ: AccessType) {
    BitAt(w, 6) && (typ == STORE ==> BitAt(w, 7))
  }

  lemma ExamineIs(c: Config, w: nat, ptshift: nat, typ: AccessType, mode: Mode)
    ensures Examine(c, DecodePte(w), ptshift, typ, mode) == Table <==> Pointer(w)
    ensures Examine(c, DecodePte(w), ptshift, typ, mode) == Leaf <==> GoodLeaf(c, w, ptshift, typ, mode)
  {
    hide DecodePte, BitAt, Field, Low;
    FieldsAre(w);
  }

  lemma NeedsAdIs(w: nat, typ: AccessType)
    ensures NeedsAd(DecodePte(w), typ) <==> !AdSet(w, typ)
  {
    hide DecodePte, BitAt, Field;
    FieldsAre(w);
  }

  lemma CtzIs(x: nat)
    ensures x != 0 && Ctz(x) == 3 <==> Low(x, 4) == 8
  {
    hide Ctz;
    LowFour(x);
    if x != 0 {
      CtzStep(x);
      if x % 2 == 0 {
        CtzStep(x / 2);
        if x / 2 % 2 == 0 {
          CtzStep(x / 2 / 2);
          if x / 2 / 2 % 2 == 0 {
            CtzStep(x / 2 / 2 / 2);
          }
        }
      }
    }
  }

  lemma CtzStep(x: nat)
    requires x != 0
    ensures Ctz(x) == if x % 2 == 1 then 0 else 1 + Ctz(x / 2)
    ensures x % 2 == 0 ==> x / 2 != 0
  {
  }

  lemma LowFour(x: nat)
    ensures Low(x, 4) == x % 2 + 2 * (x / 2 % 2 + 2 * (x / 2 / 2 % 2 + 2 * (x / 2 / 2 / 2 % 2)))
  {
    hide Low;
    LowHalf(x, 4);
    LowHalf(x / 2, 3);
    LowHalf(x / 2 / 2, 2);
    LowHalf(x / 2 / 2 / 2, 1);
    LowHalf(x / 2 / 2 / 2 / 2, 0);
  }

  lemma RangeFormIs(w: nat, i: nat)
    ensures NapotOk(DecodePte(w), i) <==> GoodRange(w, i)
  {
    hide DecodePte, BitAt, Field, Low, Ctz;
    FieldsAre(w);
    CtzIs(Ppn(w));
    LowZero();
  }

  lemma LowZero()
    ensures Low(0, 4) == 0
  {
    LowFour(0);
  }

  // ---- what a walk reads ----

  /** Where the entry of level `i` for a page lies in the table at `base`. */
  function EntryAt(vm: VmInfo, base: nat, vpn: nat, i: nat): nat {
    base + Field(vpn, i * vm.idxbits, vm.idxbits) * vm.ptesize
  }

  /** An entry that is memory and that PMP lets supervisor mode access. */
  predicate EntryOk(c: Config, pt: Ptes, addr: nat, len: nat, typ: AccessType)
    requires WfPmp(c.pmp)
    ensures EntryOk(c, pt, addr, len, typ) ==> addr in pt
  {
    hide *;
    addr < WORD && addr in pt && PmpOk(c.pmp, addr, len, typ, PRV_S)
  }

  lemma EntryOkIs(c: Config, pt: Ptes, addr: nat, len: nat, typ: AccessType)
    requires WfPmp(c.pmp)
    ensures EntryOk(c, pt, addr, len, typ) <==> PteOk(c, pt, addr, len, typ)
  {
    hide PmpOk, WfPmp;
  }

  /** From the entry at `a`, of level `i`, to the one at `b` in the table it points to. */
  predicate Hop(c: Config, vm: VmInfo, pt: Ptes, vpn: nat, i: nat, a: nat, b: nat)
    requires WfPmp(c.pmp)
  {
    hide *;
    i > 0 && EntryOk(c, pt, a, vm.ptesize, LOAD) && Pointer(pt[a]) && b == EntryAt(vm, Ppn(pt[a]) * 0x1000, vpn, i - 1)
  }

  /** The entries read: from the first in the table at `base`, each one in the table that the one before points to. */
  predicate Descends(c: Config, vm: VmInfo, pt: Ptes, vpn: nat, i: nat, base: nat, path: seq<nat>)
    requires WfPmp(c.pmp)
  {
    hide *;
    0 < |path| <= i + 1 && path[0] == EntryAt(vm, base, vpn, i) &&
    forall k :: 0 <= k < |path| - 1 ==> Hop(c, vm, pt, vpn, i - k, path[k], path[k + 1])
  }

  /** The page that a leaf gives: its page number, the low bits taken from the virtual one. */
  function PageIn(w: nat, vpn: nat, ptshift: nat): int {
    var n := if BitAt(w, 63) then 4 else ptshift;
    Ppn(w) - Low(Ppn(w), n) + Low(vpn, n)
  }

  /** At the entry at `a`, of level `i`, the page is found. */
  predicate Arrives(c: Config, vm: VmInfo, pt: Ptes, vpn: nat, typ: AccessType, mode: Mode, i: nat, a: nat, page: nat)
    requires WfPmp(c.pmp)
  {
    hide *;
    EntryOk(c, pt, a, vm.ptesize, LOAD) && GoodLeaf(c, pt[a], i * vm.idxbits, typ, mode) && GoodRange(pt[a], i) &&
    (AdSet(pt[a], typ) || (c.hade && EntryOk(c, pt, a, vm.ptesize, STORE))) &&
    page == PageIn(pt[a], vpn, i * vm.idxbits)
  }

  /** At the entry at `a` an access of the walk is not permitted. */
  predicate Blocked(c: Config, vm: VmInfo, pt: Ptes, vpn: nat, typ: AccessType, mode: Mode, i: nat, a: nat)
    requires WfPmp(c.pmp)
  {
    hide *;
    !EntryOk(c, pt, a, vm.ptesize, LOAD) ||
    (GoodLeaf(c, pt[a], i * vm.idxbits, typ, mode) && !AdSet(pt[a], typ) && c.hade &&
     !EntryOk(c, pt, a, vm.ptesize, STORE))
  }

  /** The path ends in that way. */
  predicate Finds(c: Config, vm: VmInfo, pt: Ptes, vpn: nat, typ: AccessType, mode: Mode, i: nat, base: nat,
                  path: seq<nat>, page: nat)
    requires WfPmp(c.pmp)
  {
    Descends(c, vm, pt, vpn, i, base, path) &&
    Arrives(c, vm, pt, vpn, typ, mode, i + 1 - |path|, path[|path| - 1], page)
  }

  predicate Stops(c: Config, vm: VmInfo, pt: Ptes, vpn: nat, typ: AccessType, mode: Mode, i: nat, base: nat,
                  path: seq<nat>)
    requires WfPmp(c.pmp)
  {
    Descends(c, vm, pt, vpn, i, base, path) &&
    Blocked(c, vm, pt, vpn, typ, mode, i + 1 - |path|, path[|path| - 1])
  }

  lemma DescendsCons(c: Config, vm: VmInfo, pt: Ptes, vpn: nat, i: nat, base: nat, path: seq<nat>)
    requires WfPmp(c.pmp) && |path| > 1
    ensures Descends(c, vm, pt, vpn, i, base, path) <==>
            i > 0 && path[0] == EntryAt(vm, base, vpn, i) && EntryOk(c, pt, path[0], vm.ptesize, LOAD) &&
            Pointer(pt[path[0]]) && Descends(c, vm, pt, vpn, i - 1, Ppn(pt[path[0]]) * 0x1000, path[1..])
  {
    hide EntryOk, Pointer, EntryAt, Ppn, WfPmp;
    var rest := path[1..];
    if Descends(c, vm, pt, vpn, i, base, path) {
      assert Hop(c, vm, pt, vpn, i - 0, path[0], path[0 + 1]);
      forall k | 0 <= k < |rest| - 1
        ensures Hop(c, vm, pt, vpn, i - 1 - k, rest[k], rest[k + 1])
      {
        assert Hop(c, vm, pt, vpn, i - (k + 1), path[k + 1], path[k + 1 + 1]);
      }
    }
    if i > 0 && path[0] == EntryAt(vm, base, vpn, i) && EntryOk(c, pt, path[0], vm.ptesize, LOAD) &&
       Pointer(pt[path[0]]) && Descends(c, vm, pt, vpn, i - 1, Ppn(pt[path[0]]) * 0x1000, rest)
    {
      forall k | 0 <= k < |path| - 1
        ensures Hop(c, vm, pt, vpn, i - k, path[k], path[k + 1])
      {
        if k > 0 {
          assert Hop(c, vm, pt, vpn, i - 1 - (k - 1), rest[k - 1], rest[k - 1 + 1]);
        }
      }
    }
  }

  lemma DescendsOne(c: Config, vm: VmInfo, pt: Ptes, vpn: nat, i: nat, base: nat, path: seq<nat>)
    requires WfPmp(c.pmp) && |path| == 1
    ensures Descends(c, vm, pt, vpn, i, base, path) <==> path == [EntryAt(vm, base, vpn, i)]
  {
    hide EntryAt, WfPmp;
  }

  lemma EntryAtIs(vm: VmInfo, base: nat, vpn: nat, i: nat)
    ensures PteAddr(vm, base, vpn, i) == EntryAt(vm, base, vpn, i)
  {
    hide High, Low;
  }

  /** The end of a walk. */
  lemma LeafIs(c: Config, vm: VmInfo, pt: Ptes, vpn: nat, typ: AccessType, mode: Mode, i: nat, a: nat, page: nat)
    requires WfPmp(c.pmp) && EntryOk(c, pt, a, vm.ptesize, LOAD) && GoodLeaf(c, pt[a], i * vm.idxbits, typ, mode)
    ensures AtLeaf(c, vm, pt, vpn, typ, i, a).0 == Found(page) <==> Arrives(c, vm, pt, vpn, typ, mode, i, a, page)
    ensures AtLeaf(c, vm, pt, vpn, typ, i, a).0 == AccessFault <==> Blocked(c, vm, pt, vpn, typ, mode, i, a)
  {
    hide DecodePte, PteOk, EntryOk, SetAd, NapotOk, LeafPage, WfPmp, NeedsAd, GoodLeaf, GoodRange, AdSet, PageIn;
    NeedsAdIs(pt[a], typ);
    RangeFormIs(pt[a], i);
    EntryOkIs(c, pt, a, vm.ptesize, STORE);
    if GoodRange(pt[a], i) {
      PageInIs(c, pt[a], vpn, i, vm.idxbits, typ, mode);
    }
  }

  lemma PageInIs(c: Config, w: nat, vpn: nat, i: nat, idxbits: nat, typ: AccessType, mode: Mode)
    requires NapotOk(DecodePte(w), i) && GoodLeaf(c, w, i * idxbits, typ, mode)
    ensures LeafPage(DecodePte(w), vpn, i * idxbits) == PageIn(w, vpn, i * idxbits)
  {
    hide DecodePte, BitAt, Field, Low, LeafPage, NapotOk;
    FieldsAre(w);
    LeafIsSum(DecodePte(w), vpn, i, idxbits);
  }

  /** A walk that finds a page has read such a path. */
  lemma {:induction false} FoundBy(c: Config, vm: VmInfo, pt: Ptes, vpn: nat, typ: AccessType, mode: Mode, i: nat,
                                   base: nat) returns (path: seq<nat>)
    requires WfPmp(c.pmp)
    ensures var r := WalkFrom(c, vm, pt, vpn, typ, mode, i, base).0;
            (r.Found? ==> Finds(c, vm, pt, vpn, typ, mode, i, base, path, r.page)) &&
            (r.AccessFault? ==> Stops(c, vm, pt, vpn, typ, mode, i, base, path))
    ensures path == Reads(c, vm, pt, vpn, typ, mode, i, base)
    decreases i
  {
    hide Examine, PteOk, PteAddr, DecodePte, AtLeaf, WfPmp, EntryOk, Pointer, GoodLeaf, Descends, Arrives, Blocked,
         EntryAt, Ppn;
    var a := PteAddr(vm, base, vpn, i);
    EntryAtIs(vm, base, vpn, i);
    EntryOkIs(c, pt, a, vm.ptesize, LOAD);
    path := [a];
    DescendsOne(c, vm, pt, vpn, i, base, path);
    if !PteOk(c, pt, a, vm.ptesize, LOAD) {
      BlockedAt(c, vm, pt, vpn, typ, mode, i, a);
      return;
    }
    PteThere(c, pt, a, vm.ptesize, LOAD);
    var w := pt[a];
    ExamineIs(c, w, i * vm.idxbits, typ, mode);
    PpnIs(w);
    if Examine(c, DecodePte(w), i * vm.idxbits, typ, mode) == Leaf {
      var r := AtLeaf(c, vm, pt, vpn, typ, i, a).0;
      LeafIs(c, vm, pt, vpn, typ, mode, i, a, if r.Found? then r.page else 0);
    } else if Examine(c, DecodePte(w), i * vm.idxbits, typ, mode) == Table && i > 0 {
      var rest := FoundBy(c, vm, pt, vpn, typ, mode, i - 1, TableBase(DecodePte(w)));
      path := [a] + rest;
      assert path[1..] == rest;
      ReadsSome(c, vm, pt, vpn, typ, mode, i - 1, TableBase(DecodePte(w)));
      DescendsCons(c, vm, pt, vpn, i, base, path);
    }
  }

  lemma ReadsSome(c: Config, vm: VmInfo, pt: Ptes, vpn: nat, typ: AccessType, mode: Mode, i: nat, base: nat)
    requires WfPmp(c.pmp)
    ensures |Reads(c, vm, pt, vpn, typ, mode, i, base)| > 0
  {
    hide PteOk, PteAddr, Examine, DecodePte, WfPmp;
  }

  lemma PpnIs(w: nat)
    ensures TableBase(DecodePte(w)) == Ppn(w) * 0x1000
  {
    hide DecodePte, BitAt, Field;
    FieldsAre(w);
  }

  lemma BlockedAt(c: Config, vm: VmInfo, pt: Ptes, vpn: nat, typ: AccessType, mode: Mode, i: nat, a: nat)
    requires WfPmp(c.pmp) && !EntryOk(c, pt, a, vm.ptesize, LOAD)
    ensures Blocked(c, vm, pt, vpn, typ, mode, i, a)
    ensures forall page: nat :: !Arrives(c, vm, pt, vpn, typ, mode, i, a, page)
  {
    hide EntryOk, GoodLeaf, WfPmp, AdSet;
  }

  /** And a walk that could read such a path does, and ends as it does. */
  lemma {:induction false} FindsIt(c: Config, vm: VmInfo, pt: Ptes, vpn: nat, typ: AccessType, mode: Mode, i: nat,
                                   base: nat, path: seq<nat>, page: nat)
    requires WfPmp(c.pmp) && Descends(c, vm, pt, vpn, i, base, path)
    ensures Finds(c, vm, pt, vpn, typ, mode, i, base, path, page) ==>
              WalkFrom(c, vm, pt, vpn, typ, mode, i, base).0 == Found(page)
    ensures Stops(c, vm, pt, vpn, typ, mode, i, base, path) ==>
              WalkFrom(c, vm, pt, vpn, typ, mode, i, base).0 == AccessFault
    decreases i
  {
    hide Examine, PteOk, PteAddr, DecodePte, AtLeaf, WfPmp, EntryOk, Pointer, GoodLeaf, Descends, Arrives, Blocked,
         EntryAt, Ppn;
    var a := PteAddr(vm, base, vpn, i);
    EntryAtIs(vm, base, vpn, i);
    EntryOkIs(c, pt, a, vm.ptesize, LOAD);
    PathSome(c, vm, pt, vpn, i, base, path);
    if |path| == 1 {
      DescendsOne(c, vm, pt, vpn, i, base, path);
      if PteOk(c, pt, a, vm.ptesize, LOAD) {
        PteThere(c, pt, a, vm.ptesize, LOAD);
        ExamineIs(c, pt[a], i * vm.idxbits, typ, mode);
        if GoodLeaf(c, pt[a], i * vm.idxbits, typ, mode) {
          LeafIs(c, vm, pt, vpn, typ, mode, i, a, page);
        } else {
          NoLeaf(c, vm, pt, vpn, typ, mode, i, a, page);
        }
      } else {
        BlockedAt(c, vm, pt, vpn, typ, mode, i, a);
      }
    } else {
      DescendsCons(c, vm, pt, vpn, i, base, path);
      PteThere(c, pt, a, vm.ptesize, LOAD);
      ExamineIs(c, pt[a], i * vm.idxbits, typ, mode);
      PpnIs(pt[a]);
      FindsIt(c, vm, pt, vpn, typ, mode, i - 1, TableBase(DecodePte(pt[a])), path[1..], page);
    }
  }

  lemma PathSome(c: Config, vm: VmInfo, pt: Ptes, vpn: nat, i: nat, base: nat, path: seq<nat>)
    requires WfPmp(c.pmp) && Descends(c, vm, pt, vpn, i, base, path)
    ensures 0 < |path| <= i + 1 && path[0] == EntryAt(vm, base, vpn, i)
  {
    hide EntryAt, WfPmp;
  }

  lemma NoLeaf(c: Config, vm: VmInfo, pt: Ptes, vpn: nat, typ: AccessType, mode: Mode, i: nat, a: nat, page: nat)
    requires WfPmp(c.pmp) && a in pt && EntryOk(c, pt, a, vm.ptesize, LOAD)
    requires !GoodLeaf(c, pt[a], i * vm.idxbits, typ, mode)
    ensures !Arrives(c, vm, pt, vpn, typ, mode, i, a, page) && !Blocked(c, vm, pt, vpn, typ, mode, i, a)
  {
    hide EntryOk, GoodLeaf, WfPmp;
  }

  // ---- whole walks ----

  /** All bits of a page number from bit `from` up to bit `to` are equal. */
  predicate SameBits(vpn: nat, from: nat, to: int) {
    forall k :: from <= k < to ==> BitAt(vpn, k) == BitAt(vpn, from)
  }

  lemma {:induction false} LowBitsSame(x: nat, n: nat)
    ensures Low(x, n) == 0 <==> forall k :: 0 <= k < n ==> !BitAt(x, k)
    ensures Low(x, n) == Pow2(n) - 1 <==> forall k :: 0 <= k < n ==> BitAt(x, k)
    decreases n
  {
    hide Low, Pow2;
    LowHalf(x, n);
    Pow2Half(n);
    if n > 0 {
      hide BitAt;
      LowBitsSame(x / 2, n - 1);
      forall k | 0 <= k
        ensures BitAt(x, k + 1) == BitAt(x / 2, k)
      {
        BitHalf(x, k);
      }
      BitZero(x);
      assert forall k :: 0 < k < n ==> BitAt(x, k) == BitAt(x / 2, k - 1) by {
        forall k | 0 < k < n
          ensures BitAt(x, k) == BitAt(x / 2, k - 1)
        {
          BitHalf(x, k - 1);
        }
      }
      assert forall k :: 0 <= k < n - 1 ==> BitAt(x / 2, k) == BitAt(x, k + 1);
    }
  }

  lemma BitHalf(x: nat, k: nat)
    ensures BitAt(x, k + 1) == BitAt(x / 2, k)
  {
  }

  lemma BitZero(x: nat)
    ensures BitAt(x, 0) <==> x % 2 == 1
  {
  }

  lemma CanonicalIs(c: Config, vm: VmInfo, vpn: nat)
    requires vm.levels * vm.idxbits >= 1
    ensures Canonical(c, vm, vpn) <==> SameBits(vpn, vm.levels * vm.idxbits - 1, c.xlen - 12)
  {
    hide High, Low, Pow2;
    var from := vm.levels * vm.idxbits - 1;
    var top, width := High(vpn, from), if c.xlen > 12 + from then c.xlen - 12 - from else 0;
    LowBitsSame(top, width);
    forall k | 0 <= k < width
      ensures BitAt(top, k) == BitAt(vpn, from + k)
    {
      HighHigh(vpn, from, k);
    }
    hide BitAt;
    SameBitsShift(vpn, top, from, width);
  }

  lemma SameBitsShift(vpn: nat, top: nat, from: nat, width: nat)
    requires forall k :: 0 <= k < width ==> BitAt(top, k) == BitAt(vpn, from + k)
    ensures SameBits(vpn, from, from + width) <==>
            (forall k :: 0 <= k < width ==> !BitAt(top, k)) || (forall k :: 0 <= k < width ==> BitAt(top, k))
  {
    hide BitAt;
    if SameBits(vpn, from, from + width) && width > 0 {
      assert BitAt(top, 0) == BitAt(vpn, from + 0);
      forall k | 0 <= k < width
        ensures BitAt(top, k) == BitAt(top, 0)
      {
        assert BitAt(vpn, from + k) == BitAt(vpn, from);
      }
    }
    if (forall k :: 0 <= k < width ==> !BitAt(top, k)) || (forall k :: 0 <= k < width ==> BitAt(top, k)) {
      forall k | from <= k < from + width
        ensures BitAt(vpn, k) == BitAt(vpn, from)
      {
        assert BitAt(top, k - from) == BitAt(vpn, from + (k - from));
        assert BitAt(top, 0) == BitAt(vpn, from + 0);
      }
    }
  }

  /** The mode of an access: that of the hart, or for data with MPRV the one it came from. */
  function AccessMode(c: Config, typ: AccessType): Mode {
    if c.mprv && (typ == LOAD || typ == STORE) then c.mpp else c.prv
  }

  /** The width of a virtual address, by the names of the modes. */
  function VirtualBits(m: SatpMode): nat {
    match m
    case Off => 0
    case Sv32 => 32
    case Sv39 => 39
    case Sv48 => 48
    case Sv57 => 57
  }

  predicate Translated(c: Config, mode: Mode) {
    mode != PRV_M && c.satpMode != Off
  }

  /** Levels and indices make up the address above the offset, and a table fills a page. */
  lemma Geometry(c: Config, mode: Mode)
    requires Translated(c, mode)
    ensures var vm := DecodeVmInfo(c, mode);
            vm.levels > 0 && vm.idxbits > 0 && 12 + vm.levels * vm.idxbits == VirtualBits(c.satpMode) &&
            Pow2(vm.idxbits) * vm.ptesize == 0x1000 && vm.ptesize == (if c.satpMode == Sv32 then 4 else 8) &&
            vm.ptbase == c.satpPpn * 0x1000
  {
    hide Pow2;
    Powers();
    Pow2Half(10);
  }

  ghost predicate SomeFinds(c: Config, vm: VmInfo, pt: Ptes, vpn: nat, typ: AccessType, mode: Mode, i: nat, page: nat)
    requires WfPmp(c.pmp)
  {
    exists path :: Finds(c, vm, pt, vpn, typ, mode, i, vm.ptbase, path, page)
  }

  ghost predicate SomeStops(c: Config, vm: VmInfo, pt: Ptes, vpn: nat, typ: AccessType, mode: Mode, i: nat)
    requires WfPmp(c.pmp)
  {
    exists path :: Stops(c, vm, pt, vpn, typ, mode, i, vm.ptbase, path)
  }

  ghost predicate FoundAt(c: Config, pt: Ptes, vpn: nat, typ: AccessType, page: nat)
    requires WfPmp(c.pmp)
  {
    var vm := DecodeVmInfo(c, AccessMode(c, typ));
    vm.levels > 0 && SameBits(vpn, VirtualBits(c.satpMode) - 13, c.xlen - 12) &&
    SomeFinds(c, vm, pt, vpn, typ, AccessMode(c, typ), vm.levels - 1, page)
  }

  ghost predicate StoppedAt(c: Config, pt: Ptes, vpn: nat, typ: AccessType)
    requires WfPmp(c.pmp)
  {
    var vm := DecodeVmInfo(c, AccessMode(c, typ));
    vm.levels > 0 && SameBits(vpn, VirtualBits(c.satpMode) - 13, c.xlen - 12) &&
    SomeStops(c, vm, pt, vpn, typ, AccessMode(c, typ), vm.levels - 1)
  }

  /**
   The walk finds a page exactly when the address is canonical and the entries from the root on are pointers down to a
   leaf that permits the access, all of them memory that PMP lets supervisor mode read, with the accessed and dirty bits
   set or settable; the page is the one in that leaf. It ends in an access fault exactly when one of those accesses is
   not permitted, and otherwise in a page fault.
   */
  lemma WalkIs(c: Config, pt: Ptes, vpn: nat, typ: AccessType, page: nat)
    requires WfPmp(c.pmp) && Translated(c, AccessMode(c, typ))
    ensures VirtualBits(c.satpMode) >= 13
    ensures Walk(c, pt, vpn, typ).0 == Found(page) <==> FoundAt(c, pt, vpn, typ, page)
    ensures Walk(c, pt, vpn, typ).0 == AccessFault <==> StoppedAt(c, pt, vpn, typ)
  {
    hide WalkFrom, Finds, Stops, Canonical, SameBits, WfPmp, Pow2, DecodeVmInfo;
    var mode := AccessMode(c, typ);
    var vm := DecodeVmInfo(c, mode);
    Geometry(c, mode);
    CanonicalIs(c, vm, vpn);
    var i, base := vm.levels - 1, vm.ptbase;
    var path := FoundBy(c, vm, pt, vpn, typ, mode, i, base);
    forall q | Finds(c, vm, pt, vpn, typ, mode, i, base, q, page)
      ensures WalkFrom(c, vm, pt, vpn, typ, mode, i, base).0 == Found(page)
    {
      FindsDescends(c, vm, pt, vpn, typ, mode, i, base, q, page);
      FindsIt(c, vm, pt, vpn, typ, mode, i, base, q, page);
    }
    forall q | Stops(c, vm, pt, vpn, typ, mode, i, base, q)
      ensures WalkFrom(c, vm, pt, vpn, typ, mode, i, base).0 == AccessFault
    {
      FindsDescends(c, vm, pt, vpn, typ, mode, i, base, q, page);
      FindsIt(c, vm, pt, vpn, typ, mode, i, base, q, page);
    }
  }

  lemma FindsDescends(c: Config, vm: VmInfo, pt: Ptes, vpn: nat, typ: AccessType, mode: Mode, i: nat, base: nat,
                      path: seq<nat>, page: nat)
    requires WfPmp(c.pmp)
    ensures Finds(c, vm, pt, vpn, typ, mode, i, base, path, page) || Stops(c, vm, pt, vpn, typ, mode, i, base, path) ==>
              Descends(c, vm, pt, vpn, i, base, path)
  {
    hide Descends, Arrives, Blocked, WfPmp;
  }

  /** Without translation the page is the one of the address, cut to the width of a register. */
  lemma Untranslated(c: Config, pt: Ptes, vpn: nat, typ: AccessType)
    requires WfPmp(c.pmp) && !Translated(c, AccessMode(c, typ)) && c.xlen >= 12
    ensures Walk(c, pt, vpn, typ) == (Found(vpn % Pow2(c.xlen - 12)), pt)
  {
    hide Pow2, High, Low, WfPmp;
    HighIsDiv(vpn, c.xlen - 12);
  }

  // ---- what a walk leaves in the page tables ----

  /** The word with the accessed bit, and for a store the dirty bit, set. */
  function WithAd(w: nat, typ: AccessType): nat {
    w + (if BitAt(w, 6) then 0 else 0x40) + (if typ == STORE && !BitAt(w, 7) then 0x80 else 0)
  }

  lemma {:induction false} OrAt(w: nat, n: nat, m: nat)
    ensures Or(w, Pow2(n) * m) == Low(w, n) + Pow2(n) * Or(High(w, n), m)
    decreases n
  {
    hide Or, High, Low, Pow2;
    LowHalf(w, n);
    Pow2Half(n);
    HighHalf(w, n);
    if n > 0 {
      var y := Pow2(n - 1) * m;
      OrAt(w / 2, n - 1, m);
      Doubled(Pow2(n - 1), m);
      Doubled(Pow2(n - 1), Or(High(w, n), m));
      OrDouble(w, y);
    } else {
      Ones1(m);
      Ones1(Or(w, m));
    }
  }

  lemma Ones1(m: nat)
    ensures 1 * m == m
  {
  }

  lemma HighHalf(w: nat, n: nat)
    ensures High(w, n) == if n == 0 then w else High(w / 2, n - 1)
  {
  }

  lemma OrDouble(w: nat, y: nat)
    ensures Or(w, 2 * y) == w % 2 + 2 * Or(w / 2, y)
  {
    OrHalf(w, 2 * y);
  }

  lemma OrSmall(h: nat)
    ensures Or(h, 1) == h - h % 2 + 1 && Or(h, 3) == h - h % 2 - 2 * (h / 2 % 2) + 3
  {
    OrHalf(h, 1);
    OrHalf(h, 3);
    OrHalf(h / 2, 1);
    OrNothing(h / 2);
    OrNothing(h / 2 / 2);
    assert 3 / 2 == 1 && 1 / 2 == 0;
  }

  lemma SetAdIs(w: nat, store: bool)
    ensures SetAd(w, store) ==
            w + (if BitAt(w, 6) then 0 else 0x40) + (if store && !BitAt(w, 7) then 0x80 else 0)
  {
    hide Or, High, Low, Pow2;
    Powers();
    var h := High(w, 6);
    Split(w, 6);
    HighHigh(w, 6, 1);
    HighHalf(h, 1);
    HighHalf(h / 2, 0);
    OrSmall(h);
    OrAt(w, 6, if store then 3 else 1);
  }

  lemma TouchedIs(w: nat, typ: AccessType)
    ensures Touched(w, typ) == WithAd(w, typ)
  {
    hide DecodePte, SetAd, BitAt, NeedsAd;
    SetAdIs(w, typ == STORE);
    NeedsAdIs(w, typ);
  }

  /** At level `i` a range is marked in the wrong form where an accessed or dirty bit has to be set. */
  predicate BadRange(c: Config, w: nat, i: nat, ptshift: nat, typ: AccessType, mode: Mode) {
    GoodLeaf(c, w, ptshift, typ, mode) && !GoodRange(w, i) && !AdSet(w, typ) && c.hade
  }

  /** The entry at `a` has the bits set, or nothing has changed. */
  ghost predicate Leaves(c: Config, vm: VmInfo, pt: Ptes, typ: AccessType, mode: Mode, i: nat, a: nat, r: WalkResult,
                         pt': Ptes) {
    if r.Found? then a in pt && pt' == pt[a := WithAd(pt[a], typ)]
    else
      pt' == pt ||
      (r == PageFault && a in pt && BadRange(c, pt[a], i, i * vm.idxbits, typ, mode) &&
       pt' == pt[a := WithAd(pt[a], typ)])
  }

  lemma LeafLeaves(c: Config, vm: VmInfo, pt: Ptes, vpn: nat, typ: AccessType, mode: Mode, i: nat, a: nat)
    requires WfPmp(c.pmp) && a in pt && GoodLeaf(c, pt[a], i * vm.idxbits, typ, mode)
    ensures var (r, pt') := AtLeaf(c, vm, pt, vpn, typ, i, a);
            Leaves(c, vm, pt, typ, mode, i, a, r, pt')
  {
    hide DecodePte, PteOk, SetAd, NapotOk, LeafPage, WfPmp, NeedsAd, GoodLeaf, GoodRange, AdSet, WithAd;
    TouchedIs(pt[a], typ);
    NeedsAdIs(pt[a], typ);
    RangeFormIs(pt[a], i);
    assert pt[a := pt[a]] == pt;
  }

  /**
   A walk that finds a page sets the missing accessed and dirty bits of the leaf and changes nothing else. Any other
   walk changes nothing, but for one that comes to a leaf with a badly formed range: it sets the bits before its page
   fault.
   */
  lemma {:induction false} TablesAfter(c: Config, vm: VmInfo, pt: Ptes, vpn: nat, typ: AccessType, mode: Mode, i: nat,
                                       base: nat)
    requires WfPmp(c.pmp)
    ensures var path := Reads(c, vm, pt, vpn, typ, mode, i, base);
            var (r, pt') := WalkFrom(c, vm, pt, vpn, typ, mode, i, base);
            0 < |path| <= i + 1 && Leaves(c, vm, pt, typ, mode, i + 1 - |path|, path[|path| - 1], r, pt')
    decreases i
  {
    hide *;
    var a := PteAddr(vm, base, vpn, i);
    WalkStep(c, vm, pt, vpn, typ, mode, i, base);
    if !PteOk(c, pt, a, vm.ptesize, LOAD) {
      NothingChanged(c, vm, pt, typ, mode, i, a);
    } else {
      ExamineIs(c, pt[a], i * vm.idxbits, typ, mode);
      match Examine(c, DecodePte(pt[a]), i * vm.idxbits, typ, mode) {
        case Leaf =>
          LeafLeaves(c, vm, pt, vpn, typ, mode, i, a);
        case Table =>
          NothingChanged(c, vm, pt, typ, mode, i, a);
          if i > 0 {
            TablesAfter(c, vm, pt, vpn, typ, mode, i - 1, TableBase(DecodePte(pt[a])));
          }
        case Bad =>
          NothingChanged(c, vm, pt, typ, mode, i, a);
      }
    }
  }

  /** One level of a walk and what it reads. */
  lemma WalkStep(c: Config, vm: VmInfo, pt: Ptes, vpn: nat, typ: AccessType, mode: Mode, i: nat, base: nat)
    requires WfPmp(c.pmp)
    ensures var a := PteAddr(vm, base, vpn, i);
            var path := Reads(c, vm, pt, vpn, typ, mode, i, base);
            var r := WalkFrom(c, vm, pt, vpn, typ, mode, i, base);
            if !PteOk(c, pt, a, vm.ptesize, LOAD) then path == [a] && r == (AccessFault, pt)
            else
              a in pt &&
              match Examine(c, DecodePte(pt[a]), i * vm.idxbits, typ, mode)
              case Leaf => path == [a] && r == AtLeaf(c, vm, pt, vpn, typ, i, a)
              case Table =>
                var next := TableBase(DecodePte(pt[a]));
                if i == 0 then path == [a] && r == (PageFault, pt)
                else
                  path == [a] + Reads(c, vm, pt, vpn, typ, mode, i - 1, next) &&
                  r == WalkFrom(c, vm, pt, vpn, typ, mode, i - 1, next)
              case Bad => path == [a] && r == (PageFault, pt)
  {
    hide Examine, PteOk, PteAddr, DecodePte, AtLeaf, WfPmp;
    if PteOk(c, pt, PteAddr(vm, base, vpn, i), vm.ptesize, LOAD) {
      PteThere(c, pt, PteAddr(vm, base, vpn, i), vm.ptesize, LOAD);
    }
  }

  lemma NothingChanged(c: Config, vm: VmInfo, pt: Ptes, typ: AccessType, mode: Mode, i: nat, a: nat)
    ensures Leaves(c, vm, pt, typ, mode, i, a, PageFault, pt) && Leaves(c, vm, pt, typ, mode, i, a, AccessFault, pt)
  {
    hide BadRange, WithAd;
  }
}
