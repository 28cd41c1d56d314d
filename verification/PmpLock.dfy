/**
 Writes to the PMP registers: what a locked entry, the sticky security bits and the rule lock
 bypass allow, over any run of writes.
 */
module PmpLock {
  import opened Common
  import opened Bits
  import opened P = Pmp

  /** The PMP registers; `nPmp` of the entries are implemented. */
  datatype Csrs = Csrs(entries: seq<Entry>, nPmp: nat, grain: nat, zicfilp: bool, rlb: bool, mml: bool, mmwp: bool,
                       mlpe: bool)

  /** A write: an address register, a configuration register given by its bytes, or mseccfg. */
  datatype Write =
    | PmpAddr(idx: nat, val: u64)
    | PmpCfg(first: nat, bytes: seq<bv8>)
    | Mseccfg(rlb: bool, mml: bool, mmwp: bool, mlpe: bool)

  predicate WfCsrs(s: Csrs) {
    s.nPmp <= |s.entries| && s.grain <= 54 && forall i :: 0 <= i < |s.entries| ==> s.entries[i].val < Pow2(54)
  }

  function AsPmp(s: Csrs): (p: Pmp)
    requires WfCsrs(s)
    ensures WfPmp(p) && |p.entries| == s.nPmp
  {
    P.Pmp.Pmp(s.entries[..s.nPmp], s.grain, s.mml, s.mmwp)
  }

  predicate HasLock(cfg: bv8) {
    cfg & PMP_L != 0
  }

  predicate IsTor(cfg: bv8) {
    cfg & PMP_A == PMP_TOR
  }

  // ---- what one write does ----

  /** The bits of a value that an address register keeps. */
  function AddrBits(val: u64): (r: u64)
    ensures r < Pow2(54)
  {
    AndBound(val, Pow2(54) - 1);
    And(val, Pow2(54) - 1)
  }

  predicate NextLockedAndTor(s: Csrs, idx: nat) {
    idx + 1 < |s.entries| && !s.rlb && HasLock(s.entries[idx + 1].cfg) && IsTor(s.entries[idx + 1].cfg)
  }

  function WriteAddr(s: Csrs, idx: nat, val: u64): Csrs
    requires WfCsrs(s) && idx < |s.entries|
  {
    if s.nPmp == 0 then s
    else if idx < s.nPmp && !(!s.rlb && HasLock(s.entries[idx].cfg)) && !NextLockedAndTor(s, idx)
    then s.(entries := s.entries[idx := s.entries[idx].(val := AddrBits(val))])
    else s
  }

  /** The configuration byte as it would be stored. */
  function CleanCfg(s: Csrs, byte: bv8): bv8 {
    var cfg := byte & (PMP_R | PMP_W | PMP_X | PMP_A | PMP_L);
    var cfg' := if s.mml || cfg & PMP_R != 0 then cfg else cfg & !PMP_W;
    if s.grain != 0 && cfg' & PMP_A == PMP_NA4 then cfg' | PMP_NAPOT else cfg'
  }

  /** An entry that would let M-mode execute. */
  predicate MFetch(cfg: bv8) {
    HasLock(cfg) &&
    !(cfg & PMP_X != 0 && cfg & PMP_W != 0 && cfg & PMP_R != 0) &&
    (cfg & PMP_X != 0 || (cfg & PMP_W != 0 && cfg & PMP_R == 0))
  }

  function WriteByte(s: Csrs, i: nat, byte: bv8): Csrs
    requires WfCsrs(s)
  {
    if i < s.nPmp && (s.rlb || !HasLock(s.entries[i].cfg)) && (s.rlb || !(s.mml && MFetch(CleanCfg(s, byte))))
    then s.(entries := s.entries[i := s.entries[i].(cfg := CleanCfg(s, byte))])
    else s
  }

  /** The bytes from `k` on. */
  function WriteCfg(s: Csrs, first: nat, bytes: seq<bv8>, k: nat): Csrs
    requires WfCsrs(s) && k <= |bytes|
    decreases |bytes| - k
  {
    if s.nPmp == 0 || k == |bytes| then s else
    ByteKeepsWf(s, first + k, bytes[k]);
    WriteCfg(WriteByte(s, first + k, bytes[k]), first, bytes, k + 1)
  }

  lemma ByteKeepsWf(s: Csrs, i: nat, byte: bv8)
    requires WfCsrs(s)
    ensures WfCsrs(WriteByte(s, i, byte)) && |WriteByte(s, i, byte).entries| == |s.entries|
  {
    hide CleanCfg, HasLock, MFetch;
  }

  predicate LockRecorded(s: Csrs)
    requires s.nPmp <= |s.entries|
  {
    exists i :: 0 <= i < s.nPmp && HasLock(s.entries[i].cfg)
  }

  function WriteSec(s: Csrs, w: Write): Csrs
    requires WfCsrs(s) && w.Mseccfg?
  {
    if s.nPmp == 0 then s
    else
      s.(rlb := if LockRecorded(s) && !s.rlb then s.rlb else w.rlb,
         mmwp := s.mmwp || w.mmwp,
         mml := s.mml || w.mml,
         mlpe := if s.zicfilp then w.mlpe else s.mlpe)
  }

  predicate Legal(s: Csrs, w: Write) {
    w.PmpAddr? ==> w.idx < |s.entries|
  }

  /** Every write of a run names a register there is. */
  predicate AllLegal(s: Csrs, ws: seq<Write>) {
    forall i :: 0 <= i < |ws| ==> Legal(s, ws[i])
  }

  lemma LegalTail(s: Csrs, t: Csrs, ws: seq<Write>)
    requires AllLegal(s, ws) && |t.entries| == |s.entries| && ws != []
    ensures Legal(s, ws[0]) && AllLegal(t, ws[1..])
  {
    forall i | 0 <= i < |ws[1..]|
      ensures Legal(t, ws[1..][i])
    {
      assert Legal(s, ws[i + 1]);
    }
  }

  function Apply(s: Csrs, w: Write): Csrs
    requires WfCsrs(s) && Legal(s, w)
  {
    match w
    case PmpAddr(idx, val) => WriteAddr(s, idx, val)
    case PmpCfg(first, bytes) => WriteCfg(s, first, bytes, 0)
    case Mseccfg(_, _, _, _) => WriteSec(s, w)
  }

  /** The registers, changed in place. */
  class PmpCsrs {
    var entries: seq<Entry>
    const nPmp: nat
    const grain: nat
    const zicfilp: bool
    var rlb: bool
    var mml: bool
    var mmwp: bool
    var mlpe: bool
    /** Bumped whenever the cached translations are dropped. */
    var flushes: nat

    ghost function Value(): Csrs
      reads this
    {
      Csrs(entries, nPmp, grain, zicfilp, rlb, mml, mmwp, mlpe)
    }

    constructor (n: nat, g: nat, maxPmp: nat, cfi: bool)
      requires n <= maxPmp && g <= 54
      ensures WfCsrs(Value()) && !rlb && !mml && !mmwp && nPmp == n && grain == g && |entries| == maxPmp
    {
      nPmp, grain, zicfilp := n, g, cfi;
      entries := seq(maxPmp, _ => Entry(0, 0));
      rlb, mml, mmwp, mlpe, flushes := false, false, false, false, 0;
    }

    /** pmpaddr_csr_t::unlogged_write */
    method WritePmpAddr(idx: nat, val: u64) returns (ok: bool)
      requires WfCsrs(Value()) && idx < |entries|
      modifies this`entries, this`flushes
      ensures Value() == Apply(old(Value()), PmpAddr(idx, val))
      ensures flushes == old(flushes) + if ok then 1 else 0
      ensures ok <==> idx < nPmp && (rlb || !HasLock(old(entries)[idx].cfg)) && !NextLockedAndTor(old(Value()), idx)
      ensures !ok ==> Value() == old(Value())
    {
      hide HasLock, IsTor, AddrBits, Pow2;
      ok := false;
      if nPmp == 0 {
        return false;
      }
      var lockBypass := rlb;
      var locked := !lockBypass && HasLock(entries[idx].cfg);
      if idx < nPmp && !locked && !NextLocked(idx) {
        entries := entries[idx := entries[idx].(val := AddrBits(val))];
      } else {
        return false;
      }
      flushes := flushes + 1;
      return true;
    }

    predicate NextLocked(idx: nat)
      reads this
      ensures NextLocked(idx) == NextLockedAndTor(Value(), idx)
    {
      idx + 1 < |entries| && !rlb && HasLock(entries[idx + 1].cfg) && IsTor(entries[idx + 1].cfg)
    }

    /** pmpcfg_csr_t::unlogged_write, `bytes` being those of the value written. */
    method WritePmpCfg(first: nat, bytes: seq<bv8>) returns (ok: bool)
      requires WfCsrs(Value())
      modifies this`entries, this`flushes
      ensures Value() == Apply(old(Value()), PmpCfg(first, bytes))
      ensures ok <==> first < nPmp && bytes != []
      ensures flushes == old(flushes) + if nPmp > 0 then 1 else 0
    {
      hide HasLock, MFetch, CleanCfg, Pow2, WfCsrs;
      if nPmp == 0 {
        return false;
      }
      ok := false;
      var k := 0;
      while k < |bytes|
        invariant k <= |bytes| && WfCsrs(Value()) && flushes == old(flushes)
        invariant WriteCfg(old(Value()), first, bytes, 0) == WriteCfg(Value(), first, bytes, k)
        invariant ok <==> first < nPmp && k > 0
      {
        var i := first + k;
        ByteKeepsWf(Value(), i, bytes[k]);
        CfgStep(Value(), first, bytes, k);
        WfIndex(Value());
        if i < nPmp {
          var locked := HasLock(entries[i].cfg);
          if rlb || !locked {
            var cfg := CleanCfg(Csrs([], nPmp, grain, zicfilp, rlb, mml, mmwp, mlpe), bytes[k]);
            SameClean(Value(), Csrs([], nPmp, grain, zicfilp, rlb, mml, mmwp, mlpe), bytes[k]);
            if rlb || !(mml && MFetch(cfg)) {
              entries := entries[i := entries[i].(cfg := cfg)];
            }
          }
          ok := true;
        }
        k := k + 1;
      }
      CfgStep(Value(), first, bytes, k);
      flushes := flushes + 1;
    }

    /** Whether any implemented entry is locked. */
    method AnyLocked() returns (r: bool)
      requires nPmp <= |entries|
      ensures r == LockRecorded(Value())
    {
      hide HasLock;
      r := false;
      var i := 0;
      while i < nPmp
        invariant i <= nPmp && (r <==> exists j :: 0 <= j < i && HasLock(entries[j].cfg))
      {
        r := r || HasLock(entries[i].cfg);
        i := i + 1;
      }
    }

    /** mseccfg_csr_t::unlogged_write */
    method WriteMseccfg(newRlb: bool, newMml: bool, newMmwp: bool, newMlpe: bool) returns (ok: bool)
      requires WfCsrs(Value())
      modifies this`rlb, this`mml, this`mmwp, this`mlpe, this`flushes
      ensures Value() == Apply(old(Value()), Mseccfg(newRlb, newMml, newMmwp, newMlpe))
      ensures ok <==> nPmp > 0
      ensures flushes == old(flushes) + if ok then 1 else 0
    {
      hide HasLock, Pow2, LockRecorded;
      if nPmp == 0 {
        return false;
      }
      var pmplockRecorded := AnyLocked();
      if !(pmplockRecorded && !rlb) {
        rlb := newRlb;
      }
      mmwp := mmwp || newMmwp;
      mml := mml || newMml;
      flushes := flushes + 1;
      if zicfilp {
        mlpe := newMlpe;
      }
      return true;
    }
  }

  lemma SameClean(s: Csrs, s2: Csrs, byte: bv8)
    requires s.mml == s2.mml && s.grain == s2.grain
    ensures CleanCfg(s, byte) == CleanCfg(s2, byte)
  {
  }

  lemma WfIndex(s: Csrs)
    requires WfCsrs(s)
    ensures s.nPmp <= |s.entries|
  {
    hide Pow2;
  }

  lemma CfgStep(s: Csrs, first: nat, bytes: seq<bv8>, k: nat)
    requires WfCsrs(s) && k <= |bytes|
    ensures k < |bytes| ==> WfCsrs(WriteByte(s, first + k, bytes[k]))
    ensures WriteCfg(s, first, bytes, k) ==
            if s.nPmp == 0 || k == |bytes| then s else WriteCfg(WriteByte(s, first + k, bytes[k]), first, bytes, k + 1)
  {
    hide WriteByte, WfCsrs;
    if k < |bytes| {
      ByteKeepsWf(s, first + k, bytes[k]);
    }
  }

  // ---- locks over runs ----

  /** The same implementation. */
  ghost predicate SameShape(s: Csrs, t: Csrs) {
    |t.entries| == |s.entries| && t.nPmp == s.nPmp && t.grain == s.grain && t.zicfilp == s.zicfilp
  }

  /**
   What holds from a state where the bypass is off and an entry is locked: it stays off, a locked
   entry keeps its configuration and its range, the sticky bits stay, and under MML no entry starts
   to let M-mode execute.
   */
  ghost predicate Holds(s: Csrs, t: Csrs)
    requires WfCsrs(s) && WfCsrs(t)
  {
    SameShape(s, t) && !t.rlb && (s.mml ==> t.mml) && (s.mmwp ==> t.mmwp) &&
    (forall i :: 0 <= i < s.nPmp && HasLock(s.entries[i].cfg) ==> Kept(s, t, i)) &&
    (s.mml ==> forall i :: 0 <= i < s.nPmp && MFetch(t.entries[i].cfg) ==>
      MFetch(s.entries[i].cfg) && HasLock(s.entries[i].cfg))
  }

  /** Entry `i` has the same configuration and address, and the same lower bound if it is a TOR entry. */
  ghost predicate Kept(s: Csrs, t: Csrs, i: nat)
    requires i < |s.entries| && i < |t.entries|
  {
    t.entries[i] == s.entries[i] && (IsTor(s.entries[i].cfg) && i > 0 ==> t.entries[i - 1].val == s.entries[i - 1].val)
  }

  lemma HoldsSelf(s: Csrs)
    requires WfCsrs(s) && !s.rlb
    ensures Holds(s, s)
  {
    hide Pow2, IsTor;
    forall i | 0 <= i < s.nPmp && MFetch(s.entries[i].cfg)
      ensures HasLock(s.entries[i].cfg)
    {
    }
  }

  lemma HoldsTrans(s: Csrs, t: Csrs, u: Csrs)
    requires WfCsrs(s) && WfCsrs(t) && WfCsrs(u) && Holds(s, t) && Holds(t, u)
    ensures Holds(s, u)
  {
    hide Pow2, IsTor, HasLock, MFetch;
    forall i | 0 <= i < s.nPmp && HasLock(s.entries[i].cfg)
      ensures Kept(s, u, i)
    {
      assert Kept(s, t, i);
      assert Kept(t, u, i);
    }
  }

  lemma AddrHolds(s: Csrs, idx: nat, val: u64)
    requires WfCsrs(s) && !s.rlb && idx < |s.entries|
    ensures WfCsrs(WriteAddr(s, idx, val)) && Holds(s, WriteAddr(s, idx, val))
  {
    hide Pow2, IsTor, HasLock, MFetch, AddrBits;
    HoldsSelf(s);
  }

  lemma ByteHolds(s: Csrs, i: nat, byte: bv8)
    requires WfCsrs(s) && !s.rlb
    ensures WfCsrs(WriteByte(s, i, byte)) && Holds(s, WriteByte(s, i, byte))
  {
    ByteKeepsWf(s, i, byte);
    HoldsSelf(s);
    hide Pow2, IsTor, HasLock, MFetch, CleanCfg;
  }

  lemma {:induction false} CfgHolds(s: Csrs, first: nat, bytes: seq<bv8>, k: nat)
    requires WfCsrs(s) && !s.rlb && k <= |bytes|
    ensures WfCsrs(WriteCfg(s, first, bytes, k)) && Holds(s, WriteCfg(s, first, bytes, k))
    decreases |bytes| - k
  {
    CfgStep(s, first, bytes, k);
    HoldsSelf(s);
    if s.nPmp > 0 && k < |bytes| {
      var t := WriteByte(s, first + k, bytes[k]);
      ByteHolds(s, first + k, bytes[k]);
      StillOff(s, t);
      hide *;
      CfgHolds(t, first, bytes, k + 1);
      HoldsTrans(s, t, WriteCfg(t, first, bytes, k + 1));
    }
  }

  lemma StillOff(s: Csrs, t: Csrs)
    requires WfCsrs(s) && WfCsrs(t) && Holds(s, t)
    ensures !t.rlb && t.nPmp == s.nPmp && |t.entries| == |s.entries|
    ensures LockRecorded(s) ==> LockRecorded(t)
  {
    hide Pow2, IsTor, HasLock, MFetch;
    if LockRecorded(s) {
      var i :| 0 <= i < s.nPmp && HasLock(s.entries[i].cfg);
      assert Kept(s, t, i);
    }
  }

  lemma SecHolds(s: Csrs, w: Write)
    requires WfCsrs(s) && !s.rlb && LockRecorded(s) && w.Mseccfg?
    ensures WfCsrs(WriteSec(s, w)) && Holds(s, WriteSec(s, w))
  {
    HoldsSelf(s);
    hide Pow2, IsTor, HasLock, MFetch;
  }

  /** The state after a run of writes. */
  function Run(s: Csrs, ws: seq<Write>): Csrs
    requires WfCsrs(s) && AllLegal(s, ws)
    decreases |ws|
  {
    if ws == [] then s
    else
      ApplyKeepsWf(s, ws[0]);
      LegalTail(s, Apply(s, ws[0]), ws);
      Run(Apply(s, ws[0]), ws[1..])
  }

  lemma ApplyKeepsWf(s: Csrs, w: Write)
    requires WfCsrs(s) && Legal(s, w)
    ensures WfCsrs(Apply(s, w)) && |Apply(s, w).entries| == |s.entries|
  {
    hide Pow2, HasLock, IsTor, AddrBits, WriteCfg, NextLockedAndTor;
    match w
    case PmpAddr(idx, val) =>
    case PmpCfg(first, bytes) => CfgKeepsWf(s, first, bytes, 0);
    case Mseccfg(_, _, _, _) =>
  }

  lemma {:induction false} CfgKeepsWf(s: Csrs, first: nat, bytes: seq<bv8>, k: nat)
    requires WfCsrs(s) && k <= |bytes|
    ensures WfCsrs(WriteCfg(s, first, bytes, k)) && |WriteCfg(s, first, bytes, k).entries| == |s.entries|
    decreases |bytes| - k
  {
    hide WfCsrs, CleanCfg, HasLock, MFetch, WriteCfg;
    CfgStep(s, first, bytes, k);
    if s.nPmp > 0 && k < |bytes| {
      ByteKeepsWf(s, first + k, bytes[k]);
      CfgKeepsWf(WriteByte(s, first + k, bytes[k]), first, bytes, k + 1);
    }
  }

  /** Locks hold over every run of writes. */
  lemma {:induction false} LocksHold(s: Csrs, ws: seq<Write>)
    requires WfCsrs(s) && !s.rlb && LockRecorded(s) && AllLegal(s, ws)
    ensures WfCsrs(Run(s, ws)) && Holds(s, Run(s, ws))
    decreases |ws|
  {
    hide WfCsrs, Holds, LockRecorded, AllLegal, WriteAddr, WriteCfg, WriteSec, HasLock, IsTor, MFetch;
    HoldsSelf(s);
    if ws != [] {
      LegalTail(s, s, ws);
      var w, t := ws[0], Apply(s, ws[0]);
      ApplyKeepsWf(s, w);
      LegalTail(s, t, ws);
      match w {
        case PmpAddr(idx, val) => AddrHolds(s, idx, val);
        case PmpCfg(first, bytes) => CfgHolds(s, first, bytes, 0);
        case Mseccfg(_, _, _, _) => SecHolds(s, w);
      }
      StillOff(s, t);
      LocksHold(t, ws[1..]);
      HoldsTrans(s, t, Run(t, ws[1..]));
    }
  }

  /** A kept entry matches the same addresses. */
  lemma KeptRange(s: Csrs, t: Csrs, i: nat, addr: u64)
    requires WfCsrs(s) && WfCsrs(t) && SameShape(s, t) && i < s.nPmp && Kept(s, t, i)
    ensures Match4(AsPmp(t), i, addr) == Match4(AsPmp(s), i, addr)
  {
    hide And, Or, Xor, Pow2, HasLock, SizeMask;
    var p, q := AsPmp(s), AsPmp(t);
    assert q.entries[i] == p.entries[i];
    assert TorPaddr(q, i) == TorPaddr(p, i);
    SameSize(p, q, i);
    if IsTor(s.entries[i].cfg) && i > 0 {
      assert TorPaddr(q, i - 1) == TorPaddr(p, i - 1);
    }
  }

  lemma SameSize(p: Pmp, q: Pmp, i: nat)
    requires WfPmp(p) && WfPmp(q) && i < |p.entries| && i < |q.entries| && p.entries[i] == q.entries[i] &&
             p.grain == q.grain
    ensures SizeMask(p, i) == SizeMask(q, i)
  {
    hide And, Or, Xor, Pow2;
  }

  /** Under MML an entry lets M-mode execute exactly when it is one the configuration write refuses to add. */
  lemma MFetchIs(cfg: bv8)
    ensures AccessOk(cfg, true, FETCH, PRV_M) <==> MFetch(cfg)
  {
  }

  /**
   Once MML is set with the bypass off and an entry locked, an entry that lets M-mode execute after
   any run of writes already did, over the same addresses.
   */
  lemma MFetchNeverGrows(s: Csrs, ws: seq<Write>, i: nat, addr: u64)
    requires WfCsrs(s) && !s.rlb && s.mml && LockRecorded(s) && AllLegal(s, ws)
    requires i < s.nPmp
    ensures WfCsrs(Run(s, ws)) && Run(s, ws).nPmp == s.nPmp && Run(s, ws).mml
    ensures var p, q := AsPmp(s), AsPmp(Run(s, ws));
            AccessOk(q.entries[i].cfg, q.mml, FETCH, PRV_M) ==>
              AccessOk(p.entries[i].cfg, p.mml, FETCH, PRV_M) && Match4(q, i, addr) == Match4(p, i, addr)
  {
    LocksHold(s, ws);
    var t := Run(s, ws);
    MFetchIs(t.entries[i].cfg);
    MFetchIs(s.entries[i].cfg);
    hide AccessOk, Match4, Run, AllLegal, MFetch, HasLock, IsTor, Pow2;
    if MFetch(t.entries[i].cfg) {
      KeptRange(s, t, i, addr);
    }
  }

  /** The range and the configuration of a locked entry after any run of writes. */
  lemma LockedRangeKept(s: Csrs, ws: seq<Write>, i: nat, addr: u64)
    requires WfCsrs(s) && !s.rlb && AllLegal(s, ws)
    requires i < s.nPmp && HasLock(s.entries[i].cfg)
    ensures WfCsrs(Run(s, ws)) && Run(s, ws).nPmp == s.nPmp && !Run(s, ws).rlb
    ensures Run(s, ws).entries[i].cfg == s.entries[i].cfg
    ensures Match4(AsPmp(Run(s, ws)), i, addr) == Match4(AsPmp(s), i, addr)
  {
    hide Match4, Run, AllLegal, MFetch, HasLock, IsTor, Pow2;
    LocksHold(s, ws);
    KeptRange(s, Run(s, ws), i, addr);
  }
}
