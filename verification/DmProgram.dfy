/**
 What the abstract program does to the hart that runs it: a register access command moves the register it names to or
 from the data registers and leaves everything else but the debug scratch registers as it was.
 */
module DmProgram {
  import opened Common
  import opened DmState

  const X32 := 0x1_0000_0000

  /** A hart of 64 bits as the program sees it: registers, CSRs as plain cells, and the two data registers as one. */
  datatype Hart = Hart(x: seq<u64>, f: seq<u64>, csr: seq<u64>, data: u64)

  predicate WfHart(h: Hart) {
    |h.x| == 32 && h.x[0] == 0 && |h.f| == 32 && |h.csr| == 0x1000
  }

  // ---- single instructions ----

  /** The low half of a value, sign extended. */
  function SignExtend(v: u64): u64 {
    var low := v % X32;
    if low >= 0x8000_0000 then low + (WORD - X32) else low
  }

  /** The low half of a value, boxed for a floating-point register. */
  function Boxed(v: u64): u64 {
    v % X32 + (WORD - X32)
  }

  /** The low half of `was` replaced by that of `v`. */
  function LowHalf(was: u64, v: u64): u64 {
    was - was % X32 + v % X32
  }

  /** x0 stays zero. */
  function SetX(h: Hart, reg: nat, v: u64): Hart
    requires WfHart(h) && reg < 32
  {
    if reg == 0 then h else h.(x := h.x[reg := v])
  }

  /** The FS field of mstatus. */
  function WithFs(v: u64): (r: u64)
  {
    v - v / 0x2000 % 4 * 0x2000 + 0x6000
  }

  predicate WfInsn(i: Insn) {
    match i
    case Csrr(reg, csr) => reg < 32 && csr < 0x1000
    case Csrw(reg, csr) => reg < 32 && csr < 0x1000
    case Lw(reg) => reg < 32
    case Ld(reg) => reg < 32
    case Sw(reg) => reg < 32
    case Sd(reg) => reg < 32
    case Flw(reg) => reg < 32
    case Fld(reg) => reg < 32
    case Fsw(reg) => reg < 32
    case Fsd(reg) => reg < 32
    case _ => true
  }

  /** `csrrs zero, s0, mstatus` sets the bits that s0 has, which are those of FS; break and jump end the program. */
  function Exec1(h: Hart, i: Insn): (r: Hart)
    requires WfHart(h) && WfInsn(i)
    ensures WfHart(r)
  {
    match i
    case Csrr(reg, csr) => SetX(h, reg, h.csr[csr])
    case Csrw(reg, csr) => h.(csr := h.csr[csr := h.x[reg]])
    case LuiFs => SetX(h, S0, 0x6000)
    case SetFs => h.(csr := h.csr[CSR_MSTATUS := WithFs(h.csr[CSR_MSTATUS])])
    case Lw(reg) => SetX(h, reg, SignExtend(h.data))
    case Ld(reg) => SetX(h, reg, h.data)
    case Sw(reg) => h.(data := LowHalf(h.data, h.x[reg]))
    case Sd(reg) => h.(data := h.x[reg])
    case Flw(reg) => h.(f := h.f[reg := Boxed(h.data)])
    case Fld(reg) => h.(f := h.f[reg := h.data])
    case Fsw(reg) => h.(data := LowHalf(h.data, h.f[reg]))
    case Fsd(reg) => h.(data := h.f[reg])
    case Unset => h
    case Ebreak => h
    case JumpToProgbuf => h
  }

  predicate WfInsns(s: seq<Insn>) {
    forall k :: 0 <= k < |s| ==> WfInsn(s[k])
  }

  function Exec(h: Hart, s: seq<Insn>): (r: Hart)
    requires WfHart(h) && WfInsns(s)
    ensures WfHart(r)
    decreases |s|
  {
    if s == [] then h else Exec(Exec1(h, s[0]), s[1..])
  }

  lemma ExecOne(h: Hart, i: Insn)
    requires WfHart(h) && WfInsn(i)
    ensures WfInsns([i]) && Exec(h, [i]) == Exec1(h, i)
  {
    hide WfInsn, Exec1;
    assert [i][1..] == [];
  }

  lemma {:induction false} ExecConcat(h: Hart, a: seq<Insn>, b: seq<Insn>)
    requires WfHart(h) && WfInsns(a) && WfInsns(b)
    ensures WfInsns(a + b) && Exec(h, a + b) == Exec(Exec(h, a), b)
    decreases |a|
  {
    hide WfInsn, Exec1, WfHart;
    if a == [] {
      assert a + b == b;
    } else {
      assert (a + b)[0] == a[0] && (a + b)[1..] == a[1..] + b;
      ExecConcat(Exec1(h, a[0]), a[1..], b);
    }
  }

  /** A list of instructions run one after another. */
  lemma ExecCons(h: Hart, i: Insn, s: seq<Insn>)
    requires WfHart(h) && WfInsn(i) && WfInsns(s)
    ensures WfInsns([i] + s) && Exec(h, [i] + s) == Exec(Exec1(h, i), s)
  {
    hide WfInsn, Exec1, WfHart, Exec, WfInsns;
    ExecOne(h, i);
    ExecConcat(h, [i], s);
  }

  // ---- what a command is for ----

  /** The value that a command of this size takes from the data registers into an integer register or a CSR. */
  function FromData(h: Hart, size: nat): u64 {
    if size == 2 then SignExtend(h.data) else h.data
  }

  /** The data registers with a value moved there. */
  function ToData(h: Hart, size: nat, v: u64): u64 {
    if size == 2 then LowHalf(h.data, v) else v
  }

  /** The scratch registers hold what they saved: s0, and for floating point mstatus. */
  function Scratched(h: Hart, fpu: bool): Hart
    requires WfHart(h)
  {
    var saved := h.csr[CSR_DSCRATCH0 := h.x[S0]];
    h.(csr := if fpu then saved[CSR_DSCRATCH1 := h.csr[CSR_MSTATUS]] else saved)
  }

  /** The hart after a read of register `regno`. */
  function AfterRead(h: Hart, size: nat, regno: nat): Hart
    requires WfHart(h) && regno < 0x1040
  {
    if regno < 0x1000 then
      var s := Scratched(h, 1 <= regno <= 3);
      s.(data := ToData(h, size, s.csr[regno]))
    else if regno < 0x1020 then h.(data := ToData(h, size, h.x[regno - 0x1000]))
    else Scratched(h, true).(data := ToData(h, size, h.f[regno - 0x1020]))
  }

  /**
   The hart after a write of register `regno`. A write of the scratch register that holds s0 meanwhile goes to s0 as
   well, and one of s0 to that register.
   */
  function AfterWrite(h: Hart, size: nat, regno: nat): Hart
    requires WfHart(h) && regno < 0x1040
  {
    var v := FromData(h, size);
    if regno < 0x1000 then
      var s := Scratched(h, 1 <= regno <= 3);
      var s' := s.(csr := s.csr[regno := v]);
      if regno == CSR_DSCRATCH0 then s'.(x := h.x[S0 := v]) else s'
    else if regno < 0x1020 then
      var reg := regno - 0x1000;
      var s := SetX(h, reg, v);
      if reg == S0 then s.(csr := h.csr[CSR_DSCRATCH0 := v]) else s
    else
      var s := Scratched(h, true);
      s.(f := h.f[regno - 0x1020 := if size == 2 then Boxed(h.data) else h.data])
  }

  // ---- and what its program does ----

  lemma Numbers()
    ensures S0 == 8 && CSR_MSTATUS == 0x300 && CSR_DSCRATCH0 == 0x7b2 && CSR_DSCRATCH1 == 0x7b3
    ensures CSR_FFLAGS == 1 && CSR_FCSR == 3
  {
  }

  /** The part of the program that moves an integer register. */
  lemma MovesX(h: Hart, cfg: Config, size: nat, write: bool, regno: nat)
    requires WfHart(h) && 0x1000 <= regno < 0x1020 && (size == 2 || size == 3)
    ensures var (move, o) := Transfer(cfg, size, write, regno);
            o == Ready && WfInsns(move) &&
            Exec(h, move) == if write then AfterWrite(h, size, regno) else AfterRead(h, size, regno)
  {
    hide Exec, SignExtend, LowHalf;
    var reg := regno - 0x1000;
    var i := if write then (if size == 2 then Lw(reg) else Ld(reg)) else if size == 2 then Sw(reg) else Sd(reg);
    ExecOne(h, i);
    if write && reg == S0 {
      ExecCons(h, i, [Csrw(S0, CSR_DSCRATCH0)]);
      ExecOne(Exec1(h, i), Csrw(S0, CSR_DSCRATCH0));
    }
  }

  /** The part that moves a CSR through s0. */
  function MovesCsr(h: Hart, size: nat, write: bool, regno: nat): Hart
    requires WfHart(h) && regno < 0x1000
  {
    if write then h.(x := h.x[S0 := FromData(h, size)], csr := h.csr[regno := FromData(h, size)])
    else h.(x := h.x[S0 := h.csr[regno]], data := ToData(h, size, h.csr[regno]))
  }

  lemma MovesCsrIs(h: Hart, size: nat, write: bool, regno: nat)
    requires WfHart(h) && regno < 0x1000 && (size == 2 || size == 3)
    ensures var s := if write then DataOp(size, Lw(S0), Ld(S0)) + [Csrw(S0, regno)]
                     else [Csrr(S0, regno)] + DataOp(size, Sw(S0), Sd(S0));
            WfInsns(s) && Exec(h, s) == MovesCsr(h, size, write, regno) && WfHart(MovesCsr(h, size, write, regno))
  {
    hide Exec, SignExtend, LowHalf;
    if write {
      var i := if size == 2 then Lw(S0) else Ld(S0);
      ExecCons(h, i, [Csrw(S0, regno)]);
      ExecOne(Exec1(h, i), Csrw(S0, regno));
    } else {
      var i := if size == 2 then Sw(S0) else Sd(S0);
      ExecCons(h, Csrr(S0, regno), [i]);
      ExecOne(Exec1(h, Csrr(S0, regno)), i);
    }
  }

  /** A CSR that is no floating-point one: s0 is saved before and restored after. */
  lemma MovesPlain(h: Hart, cfg: Config, size: nat, write: bool, regno: nat)
    requires WfHart(h) && regno < 0x1000 && !IsFpuReg(regno) && cfg.csrAccess && (size == 2 || size == 3)
    ensures var (move, o) := Transfer(cfg, size, write, regno);
            o == Ready && WfInsns(move) &&
            Exec(h, move) == if write then AfterWrite(h, size, regno) else AfterRead(h, size, regno)
  {
    hide Exec, SignExtend, LowHalf, WfInsns;
    var save, restore := Csrw(S0, CSR_DSCRATCH0), Csrr(S0, CSR_DSCRATCH0);
    var s := if write then DataOp(size, Lw(S0), Ld(S0)) + [Csrw(S0, regno)]
             else [Csrr(S0, regno)] + DataOp(size, Sw(S0), Sd(S0));
    var h1 := Exec1(h, save);
    MovesCsrIs(h1, size, write, regno);
    var h2 := MovesCsr(h1, size, write, regno);
    ExecOne(h2, restore);
    ExecConcat(h1, s, [restore]);
    ExecCons(h, save, s + [restore]);
    var move := Transfer(cfg, size, write, regno).0;
    assert move == [save] + (s + [restore]);
    assert Exec1(h2, restore).x == if regno == CSR_DSCRATCH0 && write then h.x[S0 := FromData(h, size)] else h.x;
  }

  /** Before a floating-point access: s0 and mstatus are saved and FS is set. */
  function Prepared(h: Hart): Hart
    requires WfHart(h)
  {
    var s := Scratched(h, true);
    s.(x := h.x[S0 := 0x6000], csr := s.csr[CSR_MSTATUS := WithFs(h.csr[CSR_MSTATUS])])
  }

  lemma PreparedIs(h: Hart)
    requires WfHart(h)
    ensures var s := [Csrw(S0, CSR_DSCRATCH0), Csrr(S0, CSR_MSTATUS), Csrw(S0, CSR_DSCRATCH1), LuiFs, SetFs];
            WfInsns(s) && Exec(h, s) == Prepared(h) && WfHart(Prepared(h))
  {
    hide Exec, WithFs, WfInsns;
    var a, b, c, d, e := Csrw(S0, CSR_DSCRATCH0), Csrr(S0, CSR_MSTATUS), Csrw(S0, CSR_DSCRATCH1), LuiFs, SetFs;
    var h1 := Exec1(h, a);
    var h2 := Exec1(h1, b);
    var h3 := Exec1(h2, c);
    var h4 := Exec1(h3, d);
    ExecOne(h4, e);
    ExecCons(h3, d, [e]);
    ExecCons(h2, c, [d] + [e]);
    ExecCons(h1, b, [c] + ([d] + [e]));
    ExecCons(h, a, [b] + ([c] + ([d] + [e])));
    assert [a, b, c, d, e] == [a] + ([b] + ([c] + ([d] + [e])));
    assert Exec1(h4, e).csr == Prepared(h).csr;
  }

  /** After it: mstatus and s0 are restored. */
  lemma RestoredIs(h: Hart)
    requires WfHart(h)
    ensures var s := [Csrr(S0, CSR_DSCRATCH1), Csrw(S0, CSR_MSTATUS), Csrr(S0, CSR_DSCRATCH0)];
            WfInsns(s) &&
            var csr := h.csr[CSR_MSTATUS := h.csr[CSR_DSCRATCH1]];
            Exec(h, s) == h.(x := h.x[S0 := h.csr[CSR_DSCRATCH0]], csr := csr)
  {
    hide Exec, WfInsns;
    var a, b, c := Csrr(S0, CSR_DSCRATCH1), Csrw(S0, CSR_MSTATUS), Csrr(S0, CSR_DSCRATCH0);
    var h1 := Exec1(h, a);
    var h2 := Exec1(h1, b);
    ExecOne(h2, c);
    ExecCons(h1, b, [c]);
    ExecCons(h, a, [b] + [c]);
    assert [a, b, c] == [a] + ([b] + [c]);
  }

  /** The middle part for a floating-point register or CSR. */
  lemma MovesFpu(h: Hart, cfg: Config, size: nat, write: bool, regno: nat)
    requires WfHart(h) && IsFpuReg(regno) && regno < 0x1040 && (size == 2 || size == 3)
    requires if regno < 0x1000 then cfg.csrAccess else cfg.fprAccess
    ensures var (move, o) := Transfer(cfg, size, write, regno);
            o == Ready && WfInsns(move) &&
            Exec(h, move) ==
            if regno < 0x1000 then MovesCsr(h, size, write, regno)
            else if write then h.(f := h.f[regno - 0x1020 := if size == 2 then Boxed(h.data) else h.data])
            else h.(data := ToData(h, size, h.f[regno - 0x1020]))
  {
    hide Exec, SignExtend, LowHalf, WfInsns, Boxed;
    if regno < 0x1000 {
      MovesCsrIs(h, size, write, regno);
      var s := if write then DataOp(size, Lw(S0), Ld(S0)) + [Csrw(S0, regno)]
               else [Csrr(S0, regno)] + DataOp(size, Sw(S0), Sd(S0));
      assert Transfer(cfg, size, write, regno).0 == s;
    } else {
      var reg := regno - 0x1020;
      ExecOne(h, if write then (if size == 2 then Flw(reg) else Fld(reg))
                 else if size == 2 then Fsw(reg) else Fsd(reg));
    }
  }

  /** The whole of a floating-point access. */
  lemma FpuDone(h: Hart, size: nat, write: bool, regno: nat)
    requires WfHart(h) && IsFpuReg(regno) && regno < 0x1040
    ensures var p := Prepared(h);
            var m := if regno < 0x1000 then MovesCsr(p, size, write, regno)
                     else if write then p.(f := p.f[regno - 0x1020 := if size == 2 then Boxed(p.data) else p.data])
                     else p.(data := ToData(p, size, p.f[regno - 0x1020]));
            m.(x := m.x[S0 := m.csr[CSR_DSCRATCH0]], csr := m.csr[CSR_MSTATUS := m.csr[CSR_DSCRATCH1]]) ==
            if write then AfterWrite(h, size, regno) else AfterRead(h, size, regno)
  {
    hide SignExtend, LowHalf, Boxed, WithFs;
    Numbers();
    var p := Prepared(h);
    var m := if regno < 0x1000 then MovesCsr(p, size, write, regno)
             else if write then p.(f := p.f[regno - 0x1020 := if size == 2 then Boxed(p.data) else p.data])
             else p.(data := ToData(p, size, p.f[regno - 0x1020]));
    var r := if write then AfterWrite(h, size, regno) else AfterRead(h, size, regno);
    assert m.x[S0 := m.csr[CSR_DSCRATCH0]] == r.x;
    assert m.csr[CSR_MSTATUS := m.csr[CSR_DSCRATCH1]] == r.csr;
  }

  /** The command names a register that can be accessed in that size. */
  predicate Accessible(cfg: Config, size: nat, regno: nat) {
    (size == 2 || size == 3) &&
    if regno < 0x1000 then cfg.csrAccess
    else if regno < 0x1020 then true
    else regno < 0x1040 && cfg.fprAccess
  }

  /**
   The program of a register access command, run from its first instruction: it reads or writes exactly the register
   that the command names, with every other register and CSR, s0 and mstatus included, as it was, but for the scratch
   registers; without the transfer bit it changes nothing.
   */
  lemma ProgramMoves(h: Hart, cfg: Config, command: nat)
    requires WfHart(h)
    requires command / 0x2_0000 % 2 == 1 ==> Accessible(cfg, command / 0x10_0000 % 8, command % 0x1_0000)
    ensures var (words, o) := Program(cfg, command);
            o == Ready && WfInsns(words) &&
            Exec(h, words) ==
            if command / 0x2_0000 % 2 == 0 then h
            else if command / 0x1_0000 % 2 == 1
              then AfterWrite(h, command / 0x10_0000 % 8, command % 0x1_0000)
            else AfterRead(h, command / 0x10_0000 % 8, command % 0x1_0000)
  {
    hide Exec, WfInsns, AfterWrite, AfterRead, MovesCsr, Prepared, Transfer, WfHart;
    var size, regno, write := command / 0x10_0000 % 8, command % 0x1_0000, Bit(command, 0x1_0000);
    var end := if Bit(command, 0x4_0000) then JumpToProgbuf else Ebreak;
    if !Bit(command, 0x2_0000) {
      EndsThere(h, end);
    } else {
      var move := Transfer(cfg, size, write, regno).0;
      if IsFpuReg(regno) {
        FpuProgram(h, cfg, size, write, regno, end);
      } else {
        if regno < 0x1000 {
          MovesPlain(h, cfg, size, write, regno);
        } else {
          MovesX(h, cfg, size, write, regno);
        }
        EndsThere(Exec(h, move), end);
        ExecConcat(h, move, [end]);
        assert [] + move + [] + [end] == move + [end];
      }
    }
  }

  lemma EndsThere(h: Hart, end: Insn)
    requires WfHart(h) && end in {Ebreak, JumpToProgbuf}
    ensures WfInsns([end]) && Exec(h, [end]) == h
  {
    hide WfHart;
    ExecOne(h, end);
  }

  lemma FpuProgram(h: Hart, cfg: Config, size: nat, write: bool, regno: nat, end: Insn)
    requires WfHart(h) && IsFpuReg(regno) && Accessible(cfg, size, regno) && end in {Ebreak, JumpToProgbuf}
    ensures var (move, o) := Transfer(cfg, size, write, regno);
            var before := [Csrw(S0, CSR_DSCRATCH0), Csrr(S0, CSR_MSTATUS), Csrw(S0, CSR_DSCRATCH1), LuiFs, SetFs];
            var after := [Csrr(S0, CSR_DSCRATCH1), Csrw(S0, CSR_MSTATUS), Csrr(S0, CSR_DSCRATCH0)];
            o == Ready && WfInsns(before + move + after + [end]) &&
            Exec(h, before + move + after + [end]) ==
            if write then AfterWrite(h, size, regno) else AfterRead(h, size, regno)
  {
    hide Exec, WfInsns, AfterWrite, AfterRead, MovesCsr, Prepared, Transfer, WfHart;
    var move := Transfer(cfg, size, write, regno).0;
    var before := [Csrw(S0, CSR_DSCRATCH0), Csrr(S0, CSR_MSTATUS), Csrw(S0, CSR_DSCRATCH1), LuiFs, SetFs];
    var after := [Csrr(S0, CSR_DSCRATCH1), Csrw(S0, CSR_MSTATUS), Csrr(S0, CSR_DSCRATCH0)];
    PreparedIs(h);
    MovesFpu(Prepared(h), cfg, size, write, regno);
    ExecConcat(h, before, move);
    RestoredIs(Exec(h, before + move));
    ExecConcat(h, before + move, after);
    FpuDone(h, size, write, regno);
    EndsThere(Exec(h, before + move + after), end);
    ExecConcat(h, before + move + after, [end]);
  }

  // ---- and that it does not trap ----

  /** Floating-point registers, and the CSRs 1 to 3, are there only while FS is not zero. */
  predicate Traps(h: Hart, i: Insn)
    requires WfHart(h)
  {
    h.csr[0x300] / 0x2000 % 4 == 0 && UsesFp(i)
  }

  predicate UsesFp(i: Insn) {
    match i
    case Csrr(_, csr) => 1 <= csr <= 3
    case Csrw(_, csr) => 1 <= csr <= 3
    case Flw(_) => true
    case Fld(_) => true
    case Fsw(_) => true
    case Fsd(_) => true
    case _ => false
  }

  /** No instruction of the list traps when they are run one after another. */
  predicate Through(h: Hart, s: seq<Insn>)
    requires WfHart(h) && WfInsns(s)
    decreases |s|
  {
    s == [] || (!Traps(h, s[0]) && Through(Exec1(h, s[0]), s[1..]))
  }

  lemma {:induction false} ThroughConcat(h: Hart, a: seq<Insn>, b: seq<Insn>)
    requires WfHart(h) && WfInsns(a) && WfInsns(b) && Through(h, a) && Through(Exec(h, a), b)
    ensures WfInsns(a + b) && Through(h, a + b)
    decreases |a|
  {
    hide WfInsn, Exec1, WfHart, Traps;
    if a == [] {
      assert a + b == b;
    } else {
      assert (a + b)[0] == a[0] && (a + b)[1..] == a[1..] + b;
      ThroughConcat(Exec1(h, a[0]), a[1..], b);
    }
  }

  lemma {:induction false} NoFpThrough(h: Hart, s: seq<Insn>)
    requires WfHart(h) && WfInsns(s) && forall k :: 0 <= k < |s| ==> !UsesFp(s[k])
    ensures Through(h, s)
    decreases |s|
  {
    hide WfInsn, Exec1, WfHart, UsesFp;
    if s != [] {
      NoFpThrough(Exec1(h, s[0]), s[1..]);
    }
  }

  predicate KeepsFs(i: Insn) {
    match i
    case Csrw(_, csr) => csr != 0x300
    case SetFs => false
    case _ => true
  }

  lemma {:induction false} FsThrough(h: Hart, s: seq<Insn>)
    requires WfHart(h) && WfInsns(s) && h.csr[0x300] / 0x2000 % 4 != 0 && forall k :: 0 <= k < |s| ==> KeepsFs(s[k])
    ensures Through(h, s)
    decreases |s|
  {
    hide UsesFp, SignExtend, LowHalf, Boxed, WithFs;
    if s != [] {
      FsThrough(Exec1(h, s[0]), s[1..]);
    }
  }

  /** Every instruction of the program of a command that is run executes: FS is on wherever it has to be. */
  lemma NeverTraps(h: Hart, cfg: Config, command: nat)
    requires WfHart(h)
    requires command / 0x2_0000 % 2 == 1 ==> Accessible(cfg, command / 0x10_0000 % 8, command % 0x1_0000)
    ensures var words := Program(cfg, command).0;
            WfInsns(words) && Through(h, words)
  {
    hide Exec, WfInsns, Transfer, WfHart, Through;
    var size, regno, write := command / 0x10_0000 % 8, command % 0x1_0000, Bit(command, 0x1_0000);
    var end := if Bit(command, 0x4_0000) then JumpToProgbuf else Ebreak;
    EndsThere(h, end);
    NoFpThrough(h, [end]);
    if Bit(command, 0x2_0000) {
      var move := Transfer(cfg, size, write, regno).0;
      if IsFpuReg(regno) {
        FpuThrough(h, cfg, size, write, regno, end);
      } else {
        PlainThrough(h, cfg, size, write, regno, end);
        assert [] + move + [] + [end] == move + [end];
      }
    }
  }

  lemma PlainThrough(h: Hart, cfg: Config, size: nat, write: bool, regno: nat, end: Insn)
    requires WfHart(h) && !IsFpuReg(regno) && Accessible(cfg, size, regno) && end in {Ebreak, JumpToProgbuf}
    ensures var (move, o) := Transfer(cfg, size, write, regno);
            o == Ready && WfInsns(move + [end]) && Through(h, move + [end])
  {
    hide Exec, Through, WfHart;
    NoFpThrough(h, Transfer(cfg, size, write, regno).0 + [end]);
  }

  lemma FpuThrough(h: Hart, cfg: Config, size: nat, write: bool, regno: nat, end: Insn)
    requires WfHart(h) && IsFpuReg(regno) && Accessible(cfg, size, regno) && end in {Ebreak, JumpToProgbuf}
    ensures var (move, o) := Transfer(cfg, size, write, regno);
            var before := [Csrw(S0, CSR_DSCRATCH0), Csrr(S0, CSR_MSTATUS), Csrw(S0, CSR_DSCRATCH1), LuiFs, SetFs];
            var after := [Csrr(S0, CSR_DSCRATCH1), Csrw(S0, CSR_MSTATUS), Csrr(S0, CSR_DSCRATCH0)];
            o == Ready && WfInsns(before + move + after + [end]) && Through(h, before + move + after + [end])
  {
    hide Exec, Through, WfHart, Prepared, WfInsns, Transfer;
    var move := Transfer(cfg, size, write, regno).0;
    var before := [Csrw(S0, CSR_DSCRATCH0), Csrr(S0, CSR_MSTATUS), Csrw(S0, CSR_DSCRATCH1), LuiFs, SetFs];
    var after := [Csrr(S0, CSR_DSCRATCH1), Csrw(S0, CSR_MSTATUS), Csrr(S0, CSR_DSCRATCH0)];
    PreparedIs(h);
    NoFpThrough(h, before);
    FsOn(h);
    MoveThrough(Prepared(h), cfg, size, write, regno);
    ThroughConcat(h, before, move);
    ExecConcat(h, before, move);
    RestoredIs(Exec(h, before + move));
    NoFpThrough(Exec(h, before + move), after);
    ThroughConcat(h, before + move, after);
    EndsThere(Exec(h, before + move + after), end);
    NoFpThrough(Exec(h, before + move + after), [end]);
    ThroughConcat(h, before + move + after, [end]);
  }

  lemma FsOn(h: Hart)
    requires WfHart(h)
    ensures WfHart(Prepared(h)) && Prepared(h).csr[0x300] / 0x2000 % 4 == 3
  {
    hide WithFs;
    FsIsThree(h.csr[CSR_MSTATUS]);
  }

  lemma FsIsThree(v: u64)
    ensures WithFs(v) / 0x2000 % 4 == 3
  {
    var q := v / 0x2000;
    assert WithFs(v) == (q - q % 4 + 3) * 0x2000 + v % 0x2000;
    assert WithFs(v) / 0x2000 == q - q % 4 + 3;
  }

  lemma MoveThrough(h: Hart, cfg: Config, size: nat, write: bool, regno: nat)
    requires WfHart(h) && IsFpuReg(regno) && Accessible(cfg, size, regno) && h.csr[0x300] / 0x2000 % 4 == 3
    ensures var (move, o) := Transfer(cfg, size, write, regno);
            o == Ready && WfInsns(move) && Through(h, move)
  {
    hide Exec, Through, WfHart;
    FsThrough(h, Transfer(cfg, size, write, regno).0);
  }

  /** An odd register number in the custom space, of any size. */
  predicate IsCustom(regno: nat) {
    regno >= 0xc000 && regno % 2 == 1
  }

  /** Which commands have a program, which are custom accesses, and that the others are not supported. */
  lemma OutcomeIs(cfg: Config, command: nat)
    ensures var o, transfer := Program(cfg, command).1, command / 0x2_0000 % 2 == 1;
            var size, regno := command / 0x10_0000 % 8, command % 0x1_0000;
            (o == Ready <==> !transfer || Accessible(cfg, size, regno)) &&
            (o == Custom <==> transfer && IsCustom(regno))
  {
  }
}
