/** What a write to the PMP registers puts there, and when the sticky bits end up set. */
module PmpWrites {
  import opened Common
  import opened Bits
  import opened P = Pmp
  import opened PmpRules
  import opened L = PmpLock

  // ---- configuration bytes ----

  /**
   The byte `b` written to an entry is stored as `c`: L, X and R as given; W as given, but clear where R is and MML is
   not; A as given, but NAPOT for NA4 where four bytes are below the granularity; the two reserved bits clear.
   */
  predicate StoredAs(b: bv8, c: bv8, mml: bool, grain: nat) {
    c & 0x80 == b & 0x80 && c & 0x04 == b & 0x04 && c & 0x01 == b & 0x01 && c & 0x60 == 0 &&
    c & 0x02 == (if !mml && b & 0x01 == 0 then 0 else b & 0x02) &&
    c & 0x18 == if b & 0x18 == 0x10 && grain != 0 then 0x18 else b & 0x18
  }

  lemma CleanIs(s: Csrs, b: bv8)
    ensures StoredAs(b, CleanCfg(s, b), s.mml, s.grain)
  {
  }

  /** Nothing else is stored as that byte. */
  lemma StoredOnce(b: bv8, c: bv8, d: bv8, mml: bool, grain: nat)
    requires StoredAs(b, c, mml, grain) && StoredAs(b, d, mml, grain)
    ensures c == d
  {
  }

  /** Machine-mode execution by a byte under MML, from its L, R, W and X. */
  predicate LetsMachineFetch(b: bv8) {
    FETCH in MachineTable(b & 0x80 != 0, b & 0x01 != 0, b & 0x02 != 0, b & 0x04 != 0)
  }

  /** Without the bypass a locked entry takes no byte, and under MML no entry one that lets M-mode execute. */
  predicate Refused(s: Csrs, i: nat, b: bv8)
    requires i < |s.entries|
  {
    !s.rlb && (s.entries[i].cfg & 0x80 != 0 || (s.mml && LetsMachineFetch(b)))
  }

  lemma FetchKept(s: Csrs, b: bv8)
    requires s.mml
    ensures MFetch(CleanCfg(s, b)) <==> LetsMachineFetch(b)
  {
  }

  lemma ByteIs(s: Csrs, i: nat, b: bv8)
    requires WfCsrs(s)
    ensures WfCsrs(WriteByte(s, i, b)) && SameButEntries(s, WriteByte(s, i, b))
    ensures i < s.nPmp ==>
              WriteByte(s, i, b).entries ==
              if Refused(s, i, b) then s.entries else s.entries[i := s.entries[i].(cfg := CleanCfg(s, b))]
    ensures i >= s.nPmp ==> WriteByte(s, i, b) == s
  {
    ByteKeepsWf(s, i, b);
    hide CleanCfg, MFetch, LetsMachineFetch, Pow2;
    if s.mml {
      FetchKept(s, b);
    }
  }

  /** Everything but the entries is the same. */
  predicate SameButEntries(s: Csrs, t: Csrs) {
    t == s.(entries := t.entries) && |t.entries| == |s.entries|
  }

  /** Entry `i` after byte `b` was written to it. */
  ghost predicate Took(s: Csrs, t: Csrs, i: nat, b: bv8)
    requires i < |s.entries| && i < |t.entries|
  {
    t.entries[i].val == s.entries[i].val &&
    if Refused(s, i, b) then t.entries[i].cfg == s.entries[i].cfg
    else StoredAs(b, t.entries[i].cfg, s.mml, s.grain)
  }

  /** Entry `i` after the bytes from `k` on were written to the entries from `first + k` on. */
  ghost predicate Settled(s: Csrs, t: Csrs, first: nat, bytes: seq<bv8>, k: nat, i: nat)
    requires i < |s.entries| && i < |t.entries|
  {
    if first + k <= i < first + |bytes| && i < s.nPmp then Took(s, t, i, bytes[i - first])
    else t.entries[i] == s.entries[i]
  }

  /** So are all the entries, and nothing else has changed. */
  ghost predicate Taken(s: Csrs, t: Csrs, first: nat, bytes: seq<bv8>, k: nat) {
    SameButEntries(s, t) && forall i :: 0 <= i < |s.entries| ==> Settled(s, t, first, bytes, k, i)
  }

  lemma {:induction false} BytesTaken(s: Csrs, first: nat, bytes: seq<bv8>, k: nat)
    requires WfCsrs(s) && k <= |bytes| && s.nPmp > 0
    ensures Taken(s, WriteCfg(s, first, bytes, k), first, bytes, k)
    decreases |bytes| - k
  {
    hide WfCsrs, WriteByte, WriteCfg, Took, StoredAs, Refused;
    CfgStep(s, first, bytes, k);
    WfIndex(s);
    if k < |bytes| {
      var t := WriteByte(s, first + k, bytes[k]);
      ByteIs(s, first + k, bytes[k]);
      BytesTaken(t, first, bytes, k + 1);
      TakenStep(s, t, WriteCfg(t, first, bytes, k + 1), first, bytes, k);
    }
  }

  lemma TakenStep(s: Csrs, t: Csrs, u: Csrs, first: nat, bytes: seq<bv8>, k: nat)
    requires s.nPmp <= |s.entries| && k < |bytes| && SameButEntries(s, t) && Taken(t, u, first, bytes, k + 1)
    requires first + k < s.nPmp ==>
               t.entries ==
               if Refused(s, first + k, bytes[k]) then s.entries
               else s.entries[first + k := s.entries[first + k].(cfg := CleanCfg(s, bytes[k]))]
    requires first + k >= s.nPmp ==> t == s
    ensures Taken(s, u, first, bytes, k)
  {
    hide CleanCfg, StoredAs, LetsMachineFetch;
    CleanIs(s, bytes[k]);
    forall i | 0 <= i < |s.entries|
      ensures Settled(s, u, first, bytes, k, i)
    {
      assert Settled(t, u, first, bytes, k + 1, i);
    }
  }

  /** A write of configuration bytes, entry by entry. */
  lemma CfgWritten(s: Csrs, first: nat, bytes: seq<bv8>)
    requires WfCsrs(s)
    ensures Taken(s, Apply(s, PmpCfg(first, bytes)), first, bytes, 0)
  {
    hide WfCsrs, Took;
    WfIndex(s);
    if s.nPmp > 0 {
      BytesTaken(s, first, bytes, 0);
    } else {
      CfgStep(s, first, bytes, 0);
    }
  }

  // ---- addresses ----

  lemma Low54(x: nat)
    ensures Low(x, 54) == x % 0x40_0000_0000_0000
  {
    hide Low, High, Pow2;
    Pow2Small();
    Pow2Add(8, 8);
    Pow2Add(16, 16);
    Pow2Add(32, 16);
    Pow2Add(48, 2);
    Pow2Add(50, 2);
    Pow2Add(52, 2);
    HighIsDiv(x, 54);
  }

  lemma {:induction false} AndLow(x: nat, n: nat)
    ensures And(x, Pow2(n) - 1) == Low(x, n)
    decreases n
  {
    hide And, Low, Pow2;
    LowHalf(x, n);
    Pow2Half(n);
    if n == 0 {
      AndNone(x);
    } else {
      AndLow(x / 2, n - 1);
      AndHalf(x, Pow2(n) - 1);
      HalfOnes(Pow2(n - 1));
    }
  }

  lemma AndNone(x: nat)
    ensures And(x, 0) == 0
  {
  }

  /**
   An address takes effect, with its low 54 bits, exactly when its entry is implemented and, the bypass being off,
   neither the entry is locked nor the next one a locked TOR entry; nothing else changes.
   */
  lemma AddrWritten(s: Csrs, idx: nat, val: u64)
    requires WfCsrs(s) && idx < |s.entries|
    ensures SameButEntries(s, Apply(s, PmpAddr(idx, val)))
    ensures Apply(s, PmpAddr(idx, val)).entries ==
            if idx < s.nPmp &&
               (s.rlb || (s.entries[idx].cfg & 0x80 == 0 &&
                  !(idx + 1 < |s.entries| && s.entries[idx + 1].cfg & 0x80 != 0 &&
                    s.entries[idx + 1].cfg & 0x18 == 0x08)))
            then s.entries[idx := Entry(val % 0x40_0000_0000_0000, s.entries[idx].cfg)]
            else s.entries
  {
    hide And, Low, Pow2;
    AndLow(val, 54);
    Low54(val);
  }

  // ---- the security bits, over runs ----

  ghost predicate SomeWrite(ws: seq<Write>, mml: bool) {
    exists i :: 0 <= i < |ws| && ws[i].Mseccfg? && (if mml then ws[i].mml else ws[i].mmwp)
  }

  lemma SomeCons(w: Write, ws: seq<Write>, mml: bool)
    ensures SomeWrite([w] + ws, mml) <==> (w.Mseccfg? && (if mml then w.mml else w.mmwp)) || SomeWrite(ws, mml)
  {
    var all := [w] + ws;
    if SomeWrite(ws, mml) {
      var i :| 0 <= i < |ws| && ws[i].Mseccfg? && (if mml then ws[i].mml else ws[i].mmwp);
      assert all[i + 1] == ws[i];
    }
    assert all[0] == w;
  }

  /** After any run MML is set exactly when it was or some write asked for it, and so is MMWP. */
  lemma {:induction false} StickyBits(s: Csrs, ws: seq<Write>)
    requires WfCsrs(s) && AllLegal(s, ws) && s.nPmp > 0
    ensures Run(s, ws).nPmp == s.nPmp
    ensures Run(s, ws).mml <==> s.mml || SomeWrite(ws, true)
    ensures Run(s, ws).mmwp <==> s.mmwp || SomeWrite(ws, false)
    decreases |ws|
  {
    hide WfCsrs, AllLegal, Apply, SomeWrite, Run;
    RunStep(s, ws);
    if ws != [] {
      ApplyKeepsWf(s, ws[0]);
      LegalTail(s, Apply(s, ws[0]), ws);
      OneWrite(s, ws[0]);
      StickyBits(Apply(s, ws[0]), ws[1..]);
      assert [ws[0]] + ws[1..] == ws;
      SomeCons(ws[0], ws[1..], true);
      SomeCons(ws[0], ws[1..], false);
    } else {
      NoWrites();
    }
  }

  lemma NoWrites()
    ensures !SomeWrite([], true) && !SomeWrite([], false)
  {
  }

  lemma RunStep(s: Csrs, ws: seq<Write>)
    requires WfCsrs(s) && AllLegal(s, ws)
    ensures ws == [] ==> Run(s, ws) == s
    ensures ws != [] ==>
              Legal(s, ws[0]) && WfCsrs(Apply(s, ws[0])) && AllLegal(Apply(s, ws[0]), ws[1..]) &&
              Run(s, ws) == Run(Apply(s, ws[0]), ws[1..])
  {
    hide WfCsrs, Apply;
    if ws != [] {
      LegalTail(s, s, ws);
      ApplyKeepsWf(s, ws[0]);
      LegalTail(s, Apply(s, ws[0]), ws);
    }
  }

  /** Any write: what becomes of the security bits, and that the bypass is only turned on while no entry is locked. */
  lemma OneWrite(s: Csrs, w: Write)
    requires WfCsrs(s) && Legal(s, w)
    ensures var t := Apply(s, w);
            t.nPmp == s.nPmp &&
            (s.nPmp > 0 ==>
               (t.mml <==> s.mml || (w.Mseccfg? && w.mml)) && (t.mmwp <==> s.mmwp || (w.Mseccfg? && w.mmwp)))
  {
    hide WfCsrs, WriteCfg, WriteAddr, LockRecorded, Took;
    match w
    case PmpAddr(idx, val) =>
      AddrWritten(s, idx, val);
    case PmpCfg(first, bytes) =>
      CfgWritten(s, first, bytes);
    case Mseccfg(_, _, _, _) =>
  }

  /** The bypass takes the value written unless it is off and an implemented entry is locked. */
  lemma BypassWritten(s: Csrs, w: Write)
    requires WfCsrs(s) && w.Mseccfg? && s.nPmp > 0
    ensures var t := Apply(s, w);
            t.entries == s.entries &&
            (t.rlb <==> w.rlb && (s.rlb || forall i :: 0 <= i < s.nPmp ==> s.entries[i].cfg & 0x80 == 0)) &&
            t.mlpe == (if s.zicfilp then w.mlpe else s.mlpe)
  {
    hide Pow2;
    assert forall i :: 0 <= i < s.nPmp ==> (HasLock(s.entries[i].cfg) <==> s.entries[i].cfg & 0x80 != 0);
  }
}
