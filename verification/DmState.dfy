/**
 The debug module's registers and what each access does to them. System bus access, authentication,
 halt groups, hart reset and hart availability are not part of this model.
 */
module DmState {
  import opened Common
  import Bits

  const DM_DATA0 := 0x04
  const DM_DMCONTROL := 0x10
  const DM_ABSTRACTCS := 0x16
  const DM_COMMAND := 0x17
  const DM_ABSTRACTAUTO := 0x18
  const DM_PROGBUF0 := 0x20

  const CMDERR_NONE := 0
  const CMDERR_BUSY := 1
  const CMDERR_NOTSUP := 2
  const CMDERR_EXCEPTION := 3
  const CMDERR_HALTRESUME := 4

  const DEBUG_ROM_HALTED := 0x100
  const DEBUG_ROM_GOING := 0x104
  const DEBUG_ROM_RESUMING := 0x108
  const DEBUG_ROM_EXCEPTION := 0x10c
  const DEBUG_DATA_START := 0x380

  const DATASIZE := 2
  const ABSTRACT_SIZE := 12
  const FLAGS := 1024
  const ONES32 := 0xffff_ffff

  const CSR_FFLAGS := 0x1
  const CSR_FCSR := 0x3
  const CSR_MSTATUS := 0x300
  const CSR_DSCRATCH0 := 0x7b2
  const CSR_DSCRATCH1 := 0x7b3
  const S0 := 8

  /** Instruction words of the abstract program, before encoding; loads and stores are at the data registers. */
  datatype Insn =
    | Unset | Ebreak | JumpToProgbuf
    | Csrr(reg: nat, csr: nat) | Csrw(reg: nat, csr: nat) | SetFs | LuiFs
    | Lw(reg: nat) | Ld(reg: nat) | Sw(reg: nat) | Sd(reg: nat)
    | Flw(reg: nat) | Fld(reg: nat) | Fsw(reg: nat) | Fsd(reg: nat)

  datatype Config = Config(hartids: seq<nat>, progbufsize: nat, impebreak: bool, rti: nat,
                           hasel: bool, csrAccess: bool, fprAccess: bool)

  /** The two bits of a hart's byte in the flag area. */
  datatype Flags = Flags(go: bool, resume: bool)

  datatype HartState = HartState(halted: bool, resumeack: bool, havereset: bool)

  datatype Control = Control(haltreq: bool, resumereq: bool, hasel: bool, hartsel: nat,
                             hartreset: bool, dmactive: bool, ndmreset: bool)

  datatype Dm = Dm(
    control: Control, busy: bool, cmderr: nat, autoProgbuf: nat, autoData: nat, command: nat, customBase: u32,
    chosen: seq<bool>, data: seq<byte>, progbuf: seq<byte>, program: seq<Insn>,
    flags: seq<Flags>, harts: seq<HartState>, haltRequest: seq<bool>, completed: bool, rti: nat)

  function ProgbufBytes(cfg: Config): nat {
    (if cfg.impebreak then 4 else 0) + 4 * cfg.progbufsize
  }

  predicate WfConfig(cfg: Config) {
    0 < |cfg.hartids| && cfg.progbufsize <= 16 && forall k :: 0 <= k < |cfg.hartids| ==> cfg.hartids[k] < FLAGS
  }

  predicate Wf(cfg: Config, dm: Dm) {
    WfConfig(cfg) && dm.control.hartsel < |cfg.hartids| && dm.cmderr < 8 &&
    |dm.data| == 4 * DATASIZE && |dm.progbuf| == ProgbufBytes(cfg) && |dm.program| == ABSTRACT_SIZE &&
    |dm.flags| == FLAGS && |dm.harts| == |dm.chosen| == |dm.haltRequest| <= FLAGS &&
    forall k :: 0 <= k < |cfg.hartids| ==> cfg.hartids[k] < |dm.harts|
  }

  /** selected_hart_id */
  function Sel(cfg: Config, dm: Dm): nat
    requires Wf(cfg, dm)
  {
    cfg.hartids[dm.control.hartsel]
  }

  // ---- words and fields ----

  function Word(v: u32): (r: seq<byte>)
    ensures |r| == 4
  {
    [v % 0x100, v / 0x100 % 0x100, v / 0x1_0000 % 0x100, v / 0x100_0000]
  }

  /** read32 */
  function Read32(mem: seq<byte>, index: nat): u32
    requires 4 * index + 4 <= |mem|
  {
    mem[4 * index] as int + 0x100 * mem[4 * index + 1] as int + 0x1_0000 * mem[4 * index + 2] as int +
      0x100_0000 * mem[4 * index + 3] as int
  }

  /** `bytes` over the memory from `at` on. */
  function Put<T>(mem: seq<T>, at: nat, bytes: seq<T>): (r: seq<T>)
    requires at + |bytes| <= |mem|
    ensures |r| == |mem|
  {
    mem[..at] + bytes + mem[at + |bytes|..]
  }

  /** What write32 stores read32 reads, and no other word changes. */
  lemma WriteThenRead(mem: seq<byte>, i: nat, v: u32, j: nat)
    requires 4 * i + 4 <= |mem| && 4 * j + 4 <= |mem|
    ensures Read32(Put(mem, 4 * i, Word(v)), j) == if i == j then v else Read32(mem, j)
  {
    var w, mem' := Word(v), Put(mem, 4 * i, Word(v));
    assert mem'[4 * i] == w[0] && mem'[4 * i + 1] == w[1] && mem'[4 * i + 2] == w[2] && mem'[4 * i + 3] == w[3];
    assert v / 0x100 / 0x100 == v / 0x1_0000 && v / 0x1_0000 / 0x100 == v / 0x100_0000;
  }

  lemma ReadWord(v: u32)
    ensures Read32(Word(v), 0) == v
  {
    WriteThenRead(Word(v), 0, v, 0);
    assert Put(Word(v), 0, Word(v)) == Word(v);
  }

  predicate Bit(v: nat, unit: nat)
    requires unit > 0
  {
    v / unit % 2 == 1
  }

  // ---- abstract commands ----

  predicate IsFpuReg(regno: nat) {
    0x1020 <= regno <= 0x103f || CSR_FFLAGS <= regno <= CSR_FCSR
  }

  datatype Outcome = Ready | NotSupported | Custom

  function DataOp(size: nat, word: Insn, double: Insn): seq<Insn> {
    if size == 2 then [word] else if size == 3 then [double] else []
  }

  /** The words for one register and whether the transfer is possible; those before a failure are written too. */
  function Transfer(cfg: Config, size: nat, write: bool, regno: nat): (seq<Insn>, Outcome) {
    var sized := size == 2 || size == 3;
    if regno < 0x1000 && cfg.csrAccess then
      var save := if IsFpuReg(regno) then [] else [Csrw(S0, CSR_DSCRATCH0)];
      var restore := if IsFpuReg(regno) then [] else [Csrr(S0, CSR_DSCRATCH0)];
      if write then
        if sized then (save + DataOp(size, Lw(S0), Ld(S0)) + [Csrw(S0, regno)] + restore, Ready)
          else (save, NotSupported)
      else if sized then (save + [Csrr(S0, regno)] + DataOp(size, Sw(S0), Sd(S0)) + restore, Ready)
      else (save + [Csrr(S0, regno)], NotSupported)
    else if 0x1000 <= regno < 0x1020 then
      var reg := regno - 0x1000;
      if !sized then ([], NotSupported)
      else
        var move := if write then DataOp(size, Lw(reg), Ld(reg)) else DataOp(size, Sw(reg), Sd(reg));
        (if reg == S0 && write then move + [Csrw(S0, CSR_DSCRATCH0)] else move, Ready)
    else if 0x1020 <= regno < 0x1040 && cfg.fprAccess then
      var reg := regno - 0x1020;
      if !sized then ([], NotSupported)
      else (if write then DataOp(size, Flw(reg), Fld(reg)) else DataOp(size, Fsw(reg), Fsd(reg)), Ready)
    else if regno >= 0xc000 && regno % 2 == 1 then ([], Custom)
    else ([], NotSupported)
  }

  /** The whole program of a register access command. */
  function Program(cfg: Config, command: nat): (seq<Insn>, Outcome) {
    var size, regno := command / 0x10_0000 % 8, command % 0x1_0000;
    var last := [if Bit(command, 0x4_0000) then JumpToProgbuf else Ebreak];
    if !Bit(command, 0x2_0000) then (last, Ready)
    else
      var (move, o) := Transfer(cfg, size, Bit(command, 0x1_0000), regno);
      var fpu := IsFpuReg(regno);
      var before :=
        if fpu then [Csrw(S0, CSR_DSCRATCH0), Csrr(S0, CSR_MSTATUS), Csrw(S0, CSR_DSCRATCH1), LuiFs, SetFs] else [];
      var after := if fpu then [Csrr(S0, CSR_DSCRATCH1), Csrw(S0, CSR_MSTATUS), Csrr(S0, CSR_DSCRATCH0)] else [];
      if o == Ready then (before + move + after + last, Ready) else (before + move, o)
  }

  /** No command overruns the area of the abstract program, and one that runs leaves it at its end. */
  lemma ProgramFits(cfg: Config, command: nat)
    ensures var (words, o) := Program(cfg, command);
            |words| <= ABSTRACT_SIZE && (o == Ready ==> |words| > 0 && words[|words| - 1] in {Ebreak, JumpToProgbuf})
  {
    hide Bit;
  }

  function CustomF(dm: Dm, write: bool, number: nat): Dm
    requires |dm.data| == 4 * DATASIZE
  {
    if write then dm.(cmderr := CMDERR_NONE, customBase := (Read32(dm.data, 0) - number) % 0x1_0000_0000)
    else
      var low := Word((number + dm.customBase) % 0x1_0000_0000);
      dm.(cmderr := CMDERR_NONE, data := Put(Put(dm.data, 0, low), 4, Word(0)))
  }

  /** Writing V to a custom register makes a read of register n below or above it give V less or more the difference. */
  lemma CustomRegisters(dm: Dm, n: nat, m: nat)
    requires |dm.data| == 4 * DATASIZE
    ensures Read32(CustomF(CustomF(dm, true, n), false, m).data, 0) == (Read32(dm.data, 0) + m - n) % 0x1_0000_0000
  {
    hide Put, Word, Read32;
    var v := (m + CustomF(dm, true, n).customBase) % 0x1_0000_0000;
    WriteThenRead(dm.data, 0, v, 0);
    WriteThenRead(Put(dm.data, 0, Word(v)), 1, 0, 0);
  }

  function PerformF(cfg: Config, dm: Dm): Dm
    requires Wf(cfg, dm)
  {
    if dm.cmderr != CMDERR_NONE then dm
    else if dm.busy then dm.(cmderr := CMDERR_BUSY)
    else if dm.command / 0x100_0000 != 0 then dm.(cmderr := CMDERR_NOTSUP)
    else if !dm.harts[Sel(cfg, dm)].halted then dm.(cmderr := CMDERR_HALTRESUME)
    else
      ProgramFits(cfg, dm.command);
      var (words, o) := Program(cfg, dm.command);
      var dm1 := dm.(program := Put(dm.program, 0, words));
      match o
      case NotSupported => dm1.(cmderr := CMDERR_NOTSUP)
      case Custom => CustomF(dm1, Bit(dm.command, 0x1_0000), CustomNumber(dm.command))
      case Ready =>
        var h := Sel(cfg, dm);
        dm1.(flags := dm.flags[h := dm.flags[h].(go := true)], rti := cfg.rti, completed := false, busy := true)
  }

  function CustomNumber(command: nat): nat {
    if command % 0x1_0000 >= 0xc000 then command % 0x1_0000 - 0xc000 else 0
  }

  // ---- accesses by the debugger ----

  function ResetF(dm: Dm): Dm {
    dm.(control := Control(false, false, false, 0, false, false, false), busy := false, cmderr := CMDERR_NONE,
        autoProgbuf := 0, autoData := 0, haltRequest := seq(|dm.haltRequest|, _ => false))
  }

  function Selected(cfg: Config, dm: Dm, id: nat): bool
    requires Wf(cfg, dm) && id < |dm.harts|
  {
    id == Sel(cfg, dm) || (dm.control.hasel && dm.chosen[id])
  }

  /** What a write of dmcontrol does for one hart. */
  function RequestOne(cfg: Config, dm: Dm, ack: bool, id: nat): (r: Dm)
    requires Wf(cfg, dm) && id < |dm.harts|
    ensures Wf(cfg, r) && r.control == dm.control && r.chosen == dm.chosen
  {
    if !Selected(cfg, dm, id) then dm
    else
      var h := dm.harts[id];
      var h' := HartState(h.halted, h.resumeack && !dm.control.resumereq, h.havereset && !ack);
      dm.(harts := dm.harts[id := h'], haltRequest := dm.haltRequest[id := dm.control.haltreq],
          flags := if dm.control.resumereq then dm.flags[id := dm.flags[id].(resume := true)] else dm.flags)
  }

  /** For the first `n` harts. */
  function RequestAll(cfg: Config, dm: Dm, ack: bool, n: nat): (r: Dm)
    requires Wf(cfg, dm) && n <= |cfg.hartids|
    ensures Wf(cfg, r)
  {
    if n == 0 then dm else RequestOne(cfg, RequestAll(cfg, dm, ack, n - 1), ack, cfg.hartids[n - 1])
  }

  function HartselOf(cfg: Config, value: u32): (r: nat)
    requires |cfg.hartids| > 0
    ensures r < |cfg.hartids|
  {
    var sel := value / 0x40 % 0x400 * 0x400 + value / 0x1_0000 % 0x400;
    if sel < |cfg.hartids| then sel else |cfg.hartids| - 1
  }

  function ControlOf(cfg: Config, value: u32): Control
    requires |cfg.hartids| > 0
  {
    Control(Bit(value, 0x8000_0000), Bit(value, 0x4000_0000),
            cfg.hasel && Bit(value, 0x400_0000), HartselOf(cfg, value),
            Bit(value, 0x2000_0000), true, Bit(value, 2))
  }

  predicate Resets(dm: Dm, value: u32) {
    !dm.control.dmactive && Bit(value, 1)
  }

  function ControlF(cfg: Config, dm: Dm, value: u32): (r: Dm)
    requires Wf(cfg, dm)
    ensures Wf(cfg, r)
  {
    var dm1 := if Resets(dm, value) then ResetF(dm) else dm;
    if !Bit(value, 1) then dm1.(control := dm1.control.(dmactive := false))
    else RequestAll(cfg, dm1.(control := ControlOf(cfg, value)), Bit(value, 0x1000_0000), |cfg.hartids|)
  }

  predicate IsData(address: nat) {
    DM_DATA0 <= address < DM_DATA0 + DATASIZE
  }

  predicate IsProgbuf(cfg: Config, address: nat) {
    DM_PROGBUF0 <= address < DM_PROGBUF0 + cfg.progbufsize
  }

  predicate AutoExec(auto: nat, i: nat) {
    Bits.High(auto, i) % 2 == 1
  }

  /** An access to a data register or program buffer word, after the word itself: an error, the command, or nothing. */
  function AfterAccess(cfg: Config, dm: Dm, auto: nat, i: nat, report: bool): Dm
    requires Wf(cfg, dm)
  {
    if dm.busy then (if report && dm.cmderr == CMDERR_NONE then dm.(cmderr := CMDERR_BUSY) else dm)
    else if AutoExec(auto, i) then PerformF(cfg, dm)
    else dm
  }

  function WriteF(cfg: Config, dm: Dm, address: nat, value: u32): Dm
    requires Wf(cfg, dm)
  {
    if IsData(address) then
      var i := address - DM_DATA0;
      var dm1 := if dm.busy then dm else dm.(data := Put(dm.data, 4 * i, Word(value)));
      AfterAccess(cfg, dm1, dm.autoData, i, true)
    else if IsProgbuf(cfg, address) then
      var i := address - DM_PROGBUF0;
      var dm1 := if dm.busy then dm else dm.(progbuf := Put(dm.progbuf, 4 * i, Word(value)));
      AfterAccess(cfg, dm1, dm.autoProgbuf, i, false)
    else if address == DM_DMCONTROL then ControlF(cfg, dm, value)
    else if address == DM_COMMAND then PerformF(cfg, dm.(command := value))
    else if address == DM_ABSTRACTCS then dm.(cmderr := ClearBits(dm.cmderr, value / 0x100 % 8))
    else if address == DM_ABSTRACTAUTO then dm.(autoProgbuf := value / 0x1_0000, autoData := value % 0x1000)
    else dm
  }

  /** `cmderr & ~bits` */
  function ClearBits(cmderr: nat, bits: nat): (r: nat)
    ensures r <= cmderr
  {
    ClearedLess(cmderr, bits);
    cmderr - Bits.And(cmderr, bits)
  }

  lemma ClearedLess(x: nat, y: nat)
    ensures Bits.And(x, y) <= x
  {
    Bits.AndBound(x, y);
  }

  function ReadF(cfg: Config, dm: Dm, address: nat): Dm
    requires Wf(cfg, dm)
  {
    if IsData(address) then AfterAccess(cfg, dm, dm.autoData, address - DM_DATA0, true)
    else if IsProgbuf(cfg, address) then AfterAccess(cfg, dm, dm.autoProgbuf, address - DM_PROGBUF0, false)
    else dm
  }

  predicate Readable(cfg: Config, address: nat) {
    IsData(address) || IsProgbuf(cfg, address) ||
    address in {DM_DMCONTROL, DM_ABSTRACTCS, DM_COMMAND, DM_ABSTRACTAUTO}
  }

  /** `unit` for a bit that is set. */
  function Flag(b: bool, unit: nat): nat {
    if b then unit else 0
  }

  /** The fields of dmcontrol in their places. */
  function ControlWord(c: Control): u32 {
    Flag(c.haltreq, 0x8000_0000) + Flag(c.resumereq, 0x4000_0000) + Flag(c.hartreset, 0x2000_0000) +
    Flag(c.hasel, 0x400_0000) + c.hartsel % 0x400 * 0x1_0000 + c.hartsel / 0x400 % 0x400 * 0x40 +
    Flag(c.ndmreset, 2) + Flag(c.dmactive, 1)
  }

  function ReadValue(cfg: Config, dm: Dm, address: nat): u32
    requires Wf(cfg, dm) && Readable(cfg, address)
  {
    if IsData(address) then (if dm.busy then ONES32 else Read32(dm.data, address - DM_DATA0))
    else if IsProgbuf(cfg, address) then (if dm.busy then ONES32 else Read32(dm.progbuf, address - DM_PROGBUF0))
    else if address == DM_DMCONTROL then ControlWord(dm.control)
    else if address == DM_COMMAND then 0
    else if address == DM_ABSTRACTAUTO then dm.autoProgbuf % 0x1_0000 * 0x1_0000 + dm.autoData % 0x1000
    else 0x100_0000 * cfg.progbufsize + (if dm.busy then 0x1000 else 0) + 0x100 * dm.cmderr + DATASIZE
  }

  /** run_test_idle */
  function IdleF(dm: Dm): Dm {
    var rti := if dm.rti > 0 then dm.rti - 1 else 0;
    dm.(rti := rti, busy := dm.busy && !(rti == 0 && dm.completed))
  }

  // ---- stores and loads by a hart ----

  predicate InData(addr: nat, len: nat) {
    DEBUG_DATA_START <= addr && addr + len <= DEBUG_DATA_START + 4 * DATASIZE
  }

  function ProgbufStart(cfg: Config): int {
    DEBUG_DATA_START - ProgbufBytes(cfg)
  }

  predicate InProgbuf(cfg: Config, addr: nat, len: nat) {
    ProgbufStart(cfg) <= addr && addr + len <= DEBUG_DATA_START
  }

  function HaltedF(cfg: Config, dm: Dm, id: nat): Dm
    requires Wf(cfg, dm) && id < |dm.harts|
  {
    dm.(harts := dm.harts[id := dm.harts[id].(halted := true)],
        completed := dm.completed || (Sel(cfg, dm) == id && !dm.flags[id].go))
  }

  function GoingF(dm: Dm, id: nat): Dm
    requires id < |dm.flags|
  {
    dm.(flags := dm.flags[id := dm.flags[id].(go := false)])
  }

  function ResumingF(cfg: Config, dm: Dm, id: nat): Dm
    requires Wf(cfg, dm) && id < |dm.harts|
  {
    dm.(harts := dm.harts[id := dm.harts[id].(halted := false, resumeack := true)],
        flags := dm.flags[id := dm.flags[id].(resume := false)])
  }

  function ExceptionF(dm: Dm): Dm {
    if dm.cmderr == CMDERR_NONE then dm.(cmderr := CMDERR_EXCEPTION) else dm
  }

  function MemF(cfg: Config, dm: Dm, addr: nat, bytes: seq<byte>): Dm
    requires Wf(cfg, dm)
  {
    if InData(addr, |bytes|) then dm.(data := Put(dm.data, addr - DEBUG_DATA_START, bytes))
    else if InProgbuf(cfg, addr, |bytes|) then dm.(progbuf := Put(dm.progbuf, addr - ProgbufStart(cfg), bytes))
    else dm
  }

  /** The bytes that a load from the data registers or the program buffer gives. */
  function LoadF(cfg: Config, dm: Dm, addr: nat, len: nat): seq<byte>
    requires Wf(cfg, dm) && (InData(addr, len) || InProgbuf(cfg, addr, len))
  {
    if InData(addr, len) then dm.data[addr - DEBUG_DATA_START..addr - DEBUG_DATA_START + len]
    else dm.progbuf[addr - ProgbufStart(cfg)..addr - ProgbufStart(cfg) + len]
  }

  /** A store to the debug module's memory. */
  function StoreF(cfg: Config, dm: Dm, addr: nat, bytes: seq<byte>): Dm
    requires Wf(cfg, dm)
    requires DEBUG_ROM_HALTED <= addr <= DEBUG_ROM_RESUMING ==> |bytes| == 4 && Read32(bytes, 0) < |dm.harts|
  {
    if InData(addr, |bytes|) || InProgbuf(cfg, addr, |bytes|) then MemF(cfg, dm, addr, bytes)
    else if addr == DEBUG_ROM_HALTED then HaltedF(cfg, dm, Read32(bytes, 0))
    else if addr == DEBUG_ROM_GOING then GoingF(dm, Read32(bytes, 0))
    else if addr == DEBUG_ROM_RESUMING then ResumingF(cfg, dm, Read32(bytes, 0))
    else if addr == DEBUG_ROM_EXCEPTION then ExceptionF(dm)
    else dm
  }
}
