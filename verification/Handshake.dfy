/**
 The debugger and the harts together: every interleaving of the harts' steps through the debug ROM,
 accesses over the debug module interface and idle cycles.
 */
module Handshake {
  import opened Common
  import opened DmState

  /**
   Where a hart is in the debug ROM: about to store HALTED, to read its flags for GO or for RESUME, to store GOING,
   to jump to the abstract program, in the program, about to store EXCEPTION, or about to store RESUMING.
   */
  datatype Pc = Running | Entry | LookGo | LookResume | Going | Jump | InProgram | Trapped | Resuming

  /** The store of a program to the data registers or the program buffer. */
  datatype ProgramStore = ProgramStore(addr: nat, bytes: seq<byte>)

  /** The command in execution as it was issued, and what has come of it since. */
  datatype Log = Log(hart: nat, command: nat, program: seq<Insn>, data: seq<byte>, progbuf: seq<byte>,
                     runs: seq<(nat, seq<Insn>)>, ended: nat, stores: seq<ProgramStore>)

  datatype Sys = Sys(dm: Dm, pcs: seq<Pc>, log: Log)

  /** What a hart inside the abstract program does next; a hart anywhere else just proceeds. */
  datatype Action = Proceed | Store(store: ProgramStore) | Trap

  /**
   An access of the debugger, an idle cycle, a step of a hart, or a running hart entering debug mode by itself,
   at a breakpoint, a trigger or after a single step.
   */
  datatype Event =
    | Write(address: nat, value: u32) | Read(address: nat) | Idle
    | Hart(id: nat, action: Action) | Break(id: nat)

  predicate WfSys(cfg: Config, s: Sys) {
    Wf(cfg, s.dm) && |s.pcs| == |s.dm.harts|
  }

  // ---- steps ----

  /**
   The step of one hart; a running one goes into the ROM when it is asked to halt, and otherwise does its own work.
   */
  function HartStep(cfg: Config, s: Sys, id: nat, action: Action): Sys
    requires WfSys(cfg, s) && id < |s.pcs|
  {
    match s.pcs[id]
    case Running => s.(pcs := s.pcs[id := if s.dm.haltRequest[id] then Entry else Running])
    case Entry => s.(dm := HaltedF(cfg, s.dm, id), pcs := s.pcs[id := LookGo])
    case LookGo => s.(pcs := s.pcs[id := if s.dm.flags[id].go then Going else LookResume])
    case LookResume => s.(pcs := s.pcs[id := if s.dm.flags[id].resume then Resuming else Entry])
    case Going => s.(dm := GoingF(s.dm, id), pcs := s.pcs[id := Jump])
    case Jump => s.(pcs := s.pcs[id := InProgram], log := s.log.(runs := s.log.runs + [(id, s.dm.program)]))
    case InProgram =>
      (match action
       case Proceed => s.(pcs := s.pcs[id := Entry], log := s.log.(ended := s.log.ended + 1))
       case Trap => s.(pcs := s.pcs[id := Trapped])
       case Store(st) =>
         s.(dm := MemF(cfg, s.dm, st.addr, st.bytes), log := s.log.(stores := s.log.stores + [st])))
    case Trapped =>
      s.(dm := ExceptionF(s.dm), pcs := s.pcs[id := Entry], log := s.log.(ended := s.log.ended + 1))
    case Resuming => s.(dm := ResumingF(cfg, s.dm, id), pcs := s.pcs[id := Running])
  }

  /** A debugger access; when it issues a command a new log begins. */
  function Issue(cfg: Config, s: Sys, dm: Dm): Sys
    requires Wf(cfg, s.dm) && Wf(cfg, dm)
  {
    if !s.dm.busy && dm.busy
    then Sys(dm, s.pcs, Log(Sel(cfg, dm), dm.command, dm.program, dm.data, dm.progbuf, [], 0, []))
    else s.(dm := dm)
  }

  function Step(cfg: Config, s: Sys, e: Event): Sys
    requires WfSys(cfg, s)
  {
    match e
    case Write(address, value) => WriteWf(cfg, s.dm, address, value); Issue(cfg, s, WriteF(cfg, s.dm, address, value))
    case Read(address) => ReadWf(cfg, s.dm, address); Issue(cfg, s, ReadF(cfg, s.dm, address))
    case Idle => s.(dm := IdleF(s.dm))
    case Hart(id, action) => if id in cfg.hartids then HartStep(cfg, s, id, action) else s
    case Break(id) => BreakStep(s, id)
  }

  function BreakStep(s: Sys, id: nat): Sys {
    if id < |s.pcs| && s.pcs[id] == Running then s.(pcs := s.pcs[id := Entry]) else s
  }

  /** The state after each of the events, from `s` on. */
  function Run(cfg: Config, s: Sys, es: seq<Event>): (r: Sys)
    requires WfSys(cfg, s)
    ensures WfSys(cfg, r)
    decreases |es|
  {
    hide *;
    if es == [] then s else StepWf(cfg, s, es[0]); Run(cfg, Step(cfg, s, es[0]), es[1..])
  }

  lemma PerformWf(cfg: Config, dm: Dm)
    requires Wf(cfg, dm)
    ensures Wf(cfg, PerformF(cfg, dm)) && |PerformF(cfg, dm).harts| == |dm.harts|
  {
    hide Program, Bit, Put, Word, Read32;
  }

  lemma AfterWf(cfg: Config, dm: Dm, auto: nat, i: nat, report: bool)
    requires Wf(cfg, dm)
    ensures var dm' := AfterAccess(cfg, dm, auto, i, report); Wf(cfg, dm') && |dm'.harts| == |dm.harts|
  {
    hide PerformF, AutoExec;
    PerformWf(cfg, dm);
  }

  lemma WriteWf(cfg: Config, dm: Dm, address: nat, value: u32)
    requires Wf(cfg, dm)
    ensures Wf(cfg, WriteF(cfg, dm, address, value)) && |WriteF(cfg, dm, address, value).harts| == |dm.harts|
  {
    hide PerformF, AutoExec, AfterAccess, ControlF, Put, Word, ClearBits;
    if IsData(address) {
      var i := address - DM_DATA0;
      AfterWf(cfg, if dm.busy then dm else dm.(data := Put(dm.data, 4 * i, Word(value))), dm.autoData, i, true);
    } else if IsProgbuf(cfg, address) {
      var i := address - DM_PROGBUF0;
      var dm1 := if dm.busy then dm else dm.(progbuf := Put(dm.progbuf, 4 * i, Word(value)));
      AfterWf(cfg, dm1, dm.autoProgbuf, i, false);
    } else if address == DM_DMCONTROL {
      ControlFrame(cfg, dm, value);
    } else if address == DM_COMMAND {
      PerformWf(cfg, dm.(command := value));
    }
  }

  lemma ReadWf(cfg: Config, dm: Dm, address: nat)
    requires Wf(cfg, dm)
    ensures Wf(cfg, ReadF(cfg, dm, address)) && |ReadF(cfg, dm, address).harts| == |dm.harts|
  {
    hide AfterAccess;
    if IsData(address) {
      AfterWf(cfg, dm, dm.autoData, address - DM_DATA0, true);
    } else if IsProgbuf(cfg, address) {
      AfterWf(cfg, dm, dm.autoProgbuf, address - DM_PROGBUF0, false);
    }
  }

  lemma StoresWf(cfg: Config, dm: Dm, id: nat, st: ProgramStore)
    requires Wf(cfg, dm) && id < |dm.harts|
    ensures id < |dm.flags| && Wf(cfg, GoingF(dm, id)) && |GoingF(dm, id).harts| == |dm.harts|
    ensures Wf(cfg, HaltedF(cfg, dm, id)) && |HaltedF(cfg, dm, id).harts| == |dm.harts|
    ensures Wf(cfg, ResumingF(cfg, dm, id)) && |ResumingF(cfg, dm, id).harts| == |dm.harts|
    ensures Wf(cfg, MemF(cfg, dm, st.addr, st.bytes)) && |MemF(cfg, dm, st.addr, st.bytes).harts| == |dm.harts|
    ensures Wf(cfg, ExceptionF(dm)) && |ExceptionF(dm).harts| == |dm.harts|
  {
    hide Put;
  }

  lemma HartWf(cfg: Config, s: Sys, id: nat, action: Action)
    requires WfSys(cfg, s) && id < |s.pcs|
    ensures WfSys(cfg, HartStep(cfg, s, id, action))
  {
    hide Wf, GoingF, HaltedF, ResumingF, MemF, ExceptionF;
    StoresWf(cfg, s.dm, id, if s.pcs[id].InProgram? && action.Store? then action.store else ProgramStore(0, []));
  }

  lemma StepWf(cfg: Config, s: Sys, e: Event)
    requires WfSys(cfg, s)
    ensures WfSys(cfg, Step(cfg, s, e))
  {
    hide WriteF, ReadF, Wf, HartStep;
    match e
    case Write(address, value) => WriteWf(cfg, s.dm, address, value);
    case Read(address) => ReadWf(cfg, s.dm, address);
    case Idle => IdleWf(cfg, s.dm);
    case Hart(id, action) =>
      if id in cfg.hartids {
        KnownHart(cfg, s.dm, id);
        HartWf(cfg, s, id, action);
      }
    case Break(id) =>
  }

  lemma IdleWf(cfg: Config, dm: Dm)
    requires Wf(cfg, dm)
    ensures Wf(cfg, IdleF(dm)) && |IdleF(dm).harts| == |dm.harts|
  {
  }

  lemma KnownHart(cfg: Config, dm: Dm, id: nat)
    requires Wf(cfg, dm) && id in cfg.hartids
    ensures id < |dm.harts|
  {
  }

  // ---- what an access leaves alone ----

  /** Everything the handshake is about but busy, the error code and which hart is selected. */
  ghost predicate SameCore(dm: Dm, dm': Dm) {
    dm'.data == dm.data && dm'.progbuf == dm.progbuf && dm'.program == dm.program &&
    dm'.completed == dm.completed && dm'.rti == dm.rti && |dm'.flags| == |dm.flags| && |dm'.harts| == |dm.harts| &&
    forall h :: 0 <= h < |dm.flags| ==> dm'.flags[h].go == dm.flags[h].go
  }

  lemma {:induction false} RequestFrame(cfg: Config, dm: Dm, ack: bool, n: nat)
    requires Wf(cfg, dm) && n <= |cfg.hartids|
    ensures var dm' := RequestAll(cfg, dm, ack, n);
            SameCore(dm, dm') && dm'.busy == dm.busy && dm'.control == dm.control && dm'.cmderr == dm.cmderr
  {
    if n > 0 {
      RequestFrame(cfg, dm, ack, n - 1);
    }
  }

  lemma ControlFrame(cfg: Config, dm: Dm, value: u32)
    requires Wf(cfg, dm)
    ensures var dm' := ControlF(cfg, dm, value);
            SameCore(dm, dm') && dm'.busy == (dm.busy && !Resets(dm, value))
  {
    hide RequestAll, Bit, ControlOf;
    var dm1 := if Resets(dm, value) then ResetF(dm) else dm;
    ControlSelects(cfg, value);
    if Bit(value, 1) {
      RequestFrame(cfg, dm1.(control := ControlOf(cfg, value)), Bit(value, 0x1000_0000), |cfg.hartids|);
    }
  }

  /**
   No access of the debugger changes the data registers, the program buffer, the program or a GO flag while a command is
   executing.
   */
  lemma BusyWrite(cfg: Config, dm: Dm, address: nat, value: u32)
    requires Wf(cfg, dm) && dm.busy
    ensures var dm' := WriteF(cfg, dm, address, value);
            SameCore(dm, dm') && ((address == DM_DMCONTROL && Resets(dm, value)) || dm'.busy) &&
            (address != DM_DMCONTROL ==> dm'.control == dm.control)
  {
    hide AutoExec, ControlF, Bit, ClearBits, Put, Word;
    if address == DM_DMCONTROL {
      ControlFrame(cfg, dm, value);
    }
  }

  /** Neither does a read; one of a word that the command may use gives all ones. */
  lemma BusyRead(cfg: Config, dm: Dm, address: nat)
    requires Wf(cfg, dm) && dm.busy
    ensures var dm' := ReadF(cfg, dm, address); SameCore(dm, dm') && dm'.busy && dm'.control == dm.control
    ensures IsData(address) || IsProgbuf(cfg, address) ==> ReadValue(cfg, dm, address) == ONES32
    ensures IsData(address) ==> ReadF(cfg, dm, address).cmderr != CMDERR_NONE
  {
    hide AutoExec;
  }

  /** The program area begins with the program of the command. */
  predicate ProgramOf(cfg: Config, command: nat, program: seq<Insn>) {
    Program(cfg, command).1 == Ready && Program(cfg, command).0 <= program
  }

  lemma PutStarts<T>(mem: seq<T>, words: seq<T>)
    requires |words| <= |mem|
    ensures words <= Put(mem, 0, words)
  {
  }

  /** An access when no command is executing: it issues one for the selected, halted hart, or changes no GO flag. */
  ghost predicate Issued(cfg: Config, dm: Dm, dm': Dm)
    requires Wf(cfg, dm) && Wf(cfg, dm') && |dm'.harts| == |dm.harts|
  {
    if dm'.busy then
      var h := Sel(cfg, dm);
      dm'.control == dm.control && !dm'.completed && dm.harts[h].halted && dm.cmderr == CMDERR_NONE &&
      dm'.flags == dm.flags[h := dm.flags[h].(go := true)] && ProgramOf(cfg, dm'.command, dm'.program)
    else forall h :: 0 <= h < FLAGS ==> dm'.flags[h].go == dm.flags[h].go
  }

  lemma PerformIssues(cfg: Config, dm: Dm)
    requires Wf(cfg, dm) && !dm.busy
    ensures Wf(cfg, PerformF(cfg, dm)) && |PerformF(cfg, dm).harts| == |dm.harts| && Issued(cfg, dm, PerformF(cfg, dm))
  {
    PerformWf(cfg, dm);
    ProgramFits(cfg, dm.command);
    PutStarts(dm.program, Program(cfg, dm.command).0);
    hide Program, Bit, Put, Word, Read32;
  }

  lemma AfterIssues(cfg: Config, dm: Dm, auto: nat, i: nat, report: bool)
    requires Wf(cfg, dm) && !dm.busy
    ensures var dm' := AfterAccess(cfg, dm, auto, i, report);
            Wf(cfg, dm') && |dm'.harts| == |dm.harts| && Issued(cfg, dm, dm')
  {
    hide PerformF, AutoExec, Program, ProgramOf;
    PerformIssues(cfg, dm);
  }

  lemma FreeDataWrite(cfg: Config, dm: Dm, address: nat, value: u32)
    requires Wf(cfg, dm) && !dm.busy && IsData(address) && WriteOk(cfg, dm, address, value)
    ensures Issued(cfg, dm, WriteF(cfg, dm, address, value))
  {
    hide ProgramOf, PerformF, AutoExec, AfterAccess, ControlF, Put, Word, ClearBits, Bit;
    var i := address - DM_DATA0;
    AfterIssues(cfg, dm.(data := Put(dm.data, 4 * i, Word(value))), dm.autoData, i, true);
  }

  lemma FreeProgbufWrite(cfg: Config, dm: Dm, address: nat, value: u32)
    requires Wf(cfg, dm) && !dm.busy && !IsData(address) && IsProgbuf(cfg, address) && WriteOk(cfg, dm, address, value)
    ensures Issued(cfg, dm, WriteF(cfg, dm, address, value))
  {
    hide ProgramOf, PerformF, AutoExec, AfterAccess, ControlF, Put, Word, ClearBits, Bit;
    var i := address - DM_PROGBUF0;
    AfterIssues(cfg, dm.(progbuf := Put(dm.progbuf, 4 * i, Word(value))), dm.autoProgbuf, i, false);
  }

  lemma FreeOtherWrite(cfg: Config, dm: Dm, address: nat, value: u32)
    requires Wf(cfg, dm) && !dm.busy && !IsData(address) && !IsProgbuf(cfg, address) && WriteOk(cfg, dm, address, value)
    ensures Issued(cfg, dm, WriteF(cfg, dm, address, value))
  {
    hide ProgramOf, PerformF, AutoExec, AfterAccess, ControlF, Put, Word, ClearBits, Bit, Resets;
    if address == DM_DMCONTROL {
      ControlFrame(cfg, dm, value);
    } else if address == DM_COMMAND {
      PerformIssues(cfg, dm.(command := value));
    }
  }

  ghost predicate WriteOk(cfg: Config, dm: Dm, address: nat, value: u32)
    requires Wf(cfg, dm)
  {
    Wf(cfg, WriteF(cfg, dm, address, value)) && |WriteF(cfg, dm, address, value).harts| == |dm.harts|
  }

  lemma FreeWrite(cfg: Config, dm: Dm, address: nat, value: u32)
    requires Wf(cfg, dm) && !dm.busy
    ensures var dm' := WriteF(cfg, dm, address, value);
            Wf(cfg, dm') && |dm'.harts| == |dm.harts| && Issued(cfg, dm, dm')
  {
    hide Wf, WriteF, Issued, IsProgbuf, IsData;
    WriteWf(cfg, dm, address, value);
    if IsData(address) {
      FreeDataWrite(cfg, dm, address, value);
    } else if IsProgbuf(cfg, address) {
      FreeProgbufWrite(cfg, dm, address, value);
    } else {
      FreeOtherWrite(cfg, dm, address, value);
    }
  }

  lemma FreeRead(cfg: Config, dm: Dm, address: nat)
    requires Wf(cfg, dm) && !dm.busy
    ensures var dm' := ReadF(cfg, dm, address);
            Wf(cfg, dm') && |dm'.harts| == |dm.harts| && Issued(cfg, dm, dm')
  {
    ReadWf(cfg, dm, address);
    hide AfterAccess, ProgramOf;
    if IsData(address) {
      AfterIssues(cfg, dm, dm.autoData, address - DM_DATA0, true);
    } else if IsProgbuf(cfg, address) {
      AfterIssues(cfg, dm, dm.autoProgbuf, address - DM_PROGBUF0, false);
    }
  }

  // ---- the invariant ----

  /** The data registers and the program buffer. */
  datatype Buffers = Buffers(data: seq<byte>, progbuf: seq<byte>)

  function BuffersOf(dm: Dm): Buffers {
    Buffers(dm.data, dm.progbuf)
  }

  predicate WfBuffers(cfg: Config, b: Buffers) {
    |b.data| == 4 * DATASIZE && |b.progbuf| == ProgbufBytes(cfg)
  }

  function StoreIn(cfg: Config, b: Buffers, st: ProgramStore): (r: Buffers)
    requires WfBuffers(cfg, b)
    ensures WfBuffers(cfg, r)
  {
    if InData(st.addr, |st.bytes|) then b.(data := Put(b.data, st.addr - DEBUG_DATA_START, st.bytes))
    else if InProgbuf(cfg, st.addr, |st.bytes|)
    then b.(progbuf := Put(b.progbuf, st.addr - ProgbufStart(cfg), st.bytes))
    else b
  }

  /** The buffers with a program's stores made in them. */
  function Applied(cfg: Config, b: Buffers, stores: seq<ProgramStore>): (r: Buffers)
    requires WfBuffers(cfg, b)
    ensures WfBuffers(cfg, r)
  {
    if stores == [] then b
    else StoreIn(cfg, Applied(cfg, b, stores[..|stores| - 1]), stores[|stores| - 1])
  }

  lemma AppliedOne(cfg: Config, b: Buffers, stores: seq<ProgramStore>, st: ProgramStore)
    requires WfBuffers(cfg, b)
    ensures Applied(cfg, b, stores + [st]) == StoreIn(cfg, Applied(cfg, b, stores), st)
  {
    assert (stores + [st])[..|stores|] == stores;
  }

  lemma MemIs(cfg: Config, dm: Dm, st: ProgramStore)
    requires Wf(cfg, dm)
    ensures var b := StoreIn(cfg, BuffersOf(dm), st);
            MemF(cfg, dm, st.addr, st.bytes) == dm.(data := b.data, progbuf := b.progbuf)
  {
    hide Put;
  }

  ghost predicate Held(cfg: Config, s: Sys)
    requires Wf(cfg, s.dm)
  {
    var start := Buffers(s.log.data, s.log.progbuf);
    s.dm.program == s.log.program && s.log.hart == Sel(cfg, s.dm) && ProgramOf(cfg, s.log.command, s.log.program) &&
    WfBuffers(cfg, start) && BuffersOf(s.dm) == Applied(cfg, start, s.log.stores)
  }

  /** How far the selected hart has got with the command. */
  ghost predicate Progress(go: bool, completed: bool, pc: Pc, run: (nat, seq<Insn>), log: Log) {
    if go then log.runs == [] && log.ended == 0
    else if completed then log.runs == [run] && log.ended == 1
    else
      match pc
      case Jump => log.runs == [] && log.ended == 0
      case InProgram => log.runs == [run] && log.ended == 0
      case Trapped => log.runs == [run] && log.ended == 0
      case Entry => log.runs == [run] && log.ended == 1
      case _ => false
  }

  ghost predicate HartOk(go: bool, pc: Pc, mine: bool, completed: bool) {
    (go ==> mine && !completed) && (pc == Going ==> go) &&
    (pc == Jump || pc == InProgram || pc == Trapped ==> mine && !go && !completed)
  }

  ghost predicate AllHarts(cfg: Config, s: Sys)
    requires WfSys(cfg, s)
  {
    (forall h :: 0 <= h < |s.pcs| ==>
       HartOk(s.dm.flags[h].go, s.pcs[h], s.dm.busy && h == Sel(cfg, s.dm), s.dm.completed)) &&
    (forall h :: |s.pcs| <= h < FLAGS ==> !s.dm.flags[h].go)
  }

  ghost predicate CommandOk(cfg: Config, s: Sys)
    requires WfSys(cfg, s)
  {
    var h := Sel(cfg, s.dm);
    s.dm.busy ==> Held(cfg, s) && Progress(s.dm.flags[h].go, s.dm.completed, s.pcs[h], (h, s.log.program), s.log)
  }

  ghost predicate Inv(cfg: Config, s: Sys) {
    WfSys(cfg, s) && AllHarts(cfg, s) && CommandOk(cfg, s)
  }

  /** While a command is executing the module is not reset and the same hart stays selected. */
  predicate Steady(cfg: Config, s: Sys, e: Event)
    requires WfSys(cfg, s)
  {
    e.Write? && e.address == DM_DMCONTROL && s.dm.busy ==>
      !Resets(s.dm, e.value) && (Bit(e.value, 1) ==> HartselOf(cfg, e.value) == s.dm.control.hartsel)
  }

  lemma {:induction false} ReadKeeps(cfg: Config, s: Sys, address: nat)
    requires Inv(cfg, s)
    ensures Inv(cfg, Step(cfg, s, Read(address)))
  {
    hide ReadF, Applied, Wf, ProgramOf;
    ReadWf(cfg, s.dm, address);
    var s' := Step(cfg, s, Read(address));
    if s.dm.busy {
      BusyRead(cfg, s.dm, address);
      SelSame(cfg, s.dm, s'.dm);
      CoreKeeps(cfg, s, s'.dm);
    } else {
      FreeRead(cfg, s.dm, address);
      IssueKeeps(cfg, s, s'.dm);
    }
  }

  lemma WriteKeeps(cfg: Config, s: Sys, address: nat, value: u32)
    requires Inv(cfg, s) && Steady(cfg, s, Write(address, value))
    ensures Inv(cfg, Step(cfg, s, Write(address, value)))
  {
    hide WriteF, Applied, Wf, ProgramOf, Bit, HartselOf;
    WriteWf(cfg, s.dm, address, value);
    var s' := Step(cfg, s, Write(address, value));
    if s.dm.busy {
      BusyWrite(cfg, s.dm, address, value);
      SteadySelects(cfg, s, address, value);
      SelSame(cfg, s.dm, s'.dm);
      CoreKeeps(cfg, s, s'.dm);
    } else {
      FreeWrite(cfg, s.dm, address, value);
      IssueKeeps(cfg, s, s'.dm);
    }
  }

  lemma SelSame(cfg: Config, dm: Dm, dm': Dm)
    requires Wf(cfg, dm) && Wf(cfg, dm') && dm'.control.hartsel == dm.control.hartsel
    ensures Sel(cfg, dm') == Sel(cfg, dm) < |dm.harts|
  {
  }

  lemma SteadySelects(cfg: Config, s: Sys, address: nat, value: u32)
    requires WfSys(cfg, s) && s.dm.busy && Steady(cfg, s, Write(address, value))
    ensures WriteF(cfg, s.dm, address, value).control.hartsel == s.dm.control.hartsel
    ensures address == DM_DMCONTROL ==> !Resets(s.dm, value)
  {
    hide Bit, HartselOf, AutoExec, ClearBits, Put, Word;
    if address == DM_DMCONTROL && Bit(value, 1) {
      hide ControlOf;
      RequestFrame(cfg, s.dm.(control := ControlOf(cfg, value)), Bit(value, 0x1000_0000), |cfg.hartids|);
      ControlSelects(cfg, value);
    }
  }

  lemma ControlSelects(cfg: Config, value: u32)
    requires |cfg.hartids| > 0
    ensures ControlOf(cfg, value).hartsel == HartselOf(cfg, value)
  {
    hide Bit, HartselOf;
  }

  /** An access that touches nothing of the handshake keeps the invariant. */
  lemma CoreKeeps(cfg: Config, s: Sys, dm': Dm)
    requires Inv(cfg, s) && s.dm.busy && dm'.busy && Wf(cfg, dm') && SameCore(s.dm, dm') &&
             Sel(cfg, dm') == Sel(cfg, s.dm)
    ensures Inv(cfg, s.(dm := dm'))
  {
    hide Applied, Progress, HartOk, ProgramOf;
    SelSame(cfg, s.dm, s.dm);
  }

  lemma IssueKeeps(cfg: Config, s: Sys, dm': Dm)
    requires Inv(cfg, s) && !s.dm.busy && Wf(cfg, dm') && |dm'.harts| == |s.dm.harts| && Issued(cfg, s.dm, dm')
    ensures Inv(cfg, Issue(cfg, s, dm'))
  {
    hide ProgramOf;
    SelSame(cfg, s.dm, s.dm);
    var s' := Issue(cfg, s, dm');
    if dm'.busy {
      SelSame(cfg, s.dm, dm');
    }
    forall h | 0 <= h < |s.pcs|
      ensures HartOk(dm'.flags[h].go, s.pcs[h], dm'.busy && h == Sel(cfg, dm'), dm'.completed)
    {
      assert HartOk(s.dm.flags[h].go, s.pcs[h], false, s.dm.completed);
    }
  }

  lemma IdleKeeps(cfg: Config, s: Sys)
    requires Inv(cfg, s)
    ensures Inv(cfg, Step(cfg, s, Idle))
  {
    hide Applied, ProgramOf;
    SelSame(cfg, s.dm, s.dm);
    SelSame(cfg, s.dm, IdleF(s.dm));
  }

  /** A hart that only moves on in the ROM. */
  lemma MoveKeeps(cfg: Config, s: Sys, id: nat, pc: Pc)
    requires Inv(cfg, s) && id < |s.pcs| && s.pcs[id] in {Running, LookGo, LookResume}
    requires pc != Jump && pc != InProgram && pc != Trapped && (pc == Going ==> s.dm.flags[id].go)
    ensures Inv(cfg, s.(pcs := s.pcs[id := pc]))
  {
    hide Applied, Wf, ProgramOf;
    SelSame(cfg, s.dm, s.dm);
  }

  lemma HaltedKeeps(cfg: Config, s: Sys, id: nat)
    requires Inv(cfg, s) && id < |s.pcs| && s.pcs[id] == Entry
    ensures Inv(cfg, HartStep(cfg, s, id, Proceed))
  {
    hide Applied, Wf, ProgramOf;
    SelSame(cfg, s.dm, s.dm);
    StoresWf(cfg, s.dm, id, ProgramStore(0, []));
    SelSame(cfg, s.dm, HaltedF(cfg, s.dm, id));
  }

  lemma GoingKeeps(cfg: Config, s: Sys, id: nat)
    requires Inv(cfg, s) && id < |s.pcs| && s.pcs[id] == Going
    ensures Inv(cfg, HartStep(cfg, s, id, Proceed))
  {
    hide Applied, Wf, ProgramOf;
    SelSame(cfg, s.dm, s.dm);
    StoresWf(cfg, s.dm, id, ProgramStore(0, []));
    SelSame(cfg, s.dm, GoingF(s.dm, id));
    InvWf(cfg, s);
  }

  lemma ResumingKeeps(cfg: Config, s: Sys, id: nat)
    requires Inv(cfg, s) && id < |s.pcs| && s.pcs[id] == Resuming
    ensures Inv(cfg, HartStep(cfg, s, id, Proceed))
  {
    hide Applied, Wf, ProgramOf;
    SelSame(cfg, s.dm, s.dm);
    StoresWf(cfg, s.dm, id, ProgramStore(0, []));
    SelSame(cfg, s.dm, ResumingF(cfg, s.dm, id));
    InvWf(cfg, s);
  }

  /** A hart at the jump, in the program, or reporting its exception. */
  lemma ProgramKeeps(cfg: Config, s: Sys, id: nat, action: Action)
    requires Inv(cfg, s) && id < |s.pcs| && s.pcs[id] in {Jump, InProgram, Trapped}
    ensures Inv(cfg, HartStep(cfg, s, id, action))
  {
    hide Applied, Wf, MemF, StoreIn, ProgramOf;
    SelSame(cfg, s.dm, s.dm);
    var st := if action.Store? then action.store else ProgramStore(0, []);
    StoresWf(cfg, s.dm, id, st);
    SelSame(cfg, s.dm, ExceptionF(s.dm));
    if s.pcs[id] == InProgram && action.Store? {
      MemIs(cfg, s.dm, st);
      SelSame(cfg, s.dm, MemF(cfg, s.dm, st.addr, st.bytes));
      AppliedOne(cfg, Buffers(s.log.data, s.log.progbuf), s.log.stores, st);
    }
  }

  lemma HartKeeps(cfg: Config, s: Sys, id: nat, action: Action)
    requires Inv(cfg, s) && id < |s.pcs|
    ensures Inv(cfg, HartStep(cfg, s, id, action))
  {
    hide Inv, Wf, Sel, HaltedF, GoingF, ResumingF, MemF, ExceptionF;
    InvWf(cfg, s);
    match s.pcs[id]
    case Running => MoveKeeps(cfg, s, id, if s.dm.haltRequest[id] then Entry else Running);
    case Entry => HaltedKeeps(cfg, s, id);
    case LookGo => MoveKeeps(cfg, s, id, if s.dm.flags[id].go then Going else LookResume);
    case LookResume => MoveKeeps(cfg, s, id, if s.dm.flags[id].resume then Resuming else Entry);
    case Going => GoingKeeps(cfg, s, id);
    case Jump => ProgramKeeps(cfg, s, id, action);
    case InProgram => ProgramKeeps(cfg, s, id, action);
    case Trapped => ProgramKeeps(cfg, s, id, action);
    case Resuming => ResumingKeeps(cfg, s, id);
  }

  lemma InvWf(cfg: Config, s: Sys)
    requires Inv(cfg, s)
    ensures WfSys(cfg, s) && |s.dm.flags| == FLAGS && |s.pcs| <= FLAGS && Sel(cfg, s.dm) < |s.pcs|
    ensures |s.dm.haltRequest| == |s.pcs|
    ensures Sel(cfg, s.dm) in cfg.hartids
  {
    hide Applied, ProgramOf;
  }

  lemma StepKeeps(cfg: Config, s: Sys, e: Event)
    requires Inv(cfg, s) && Steady(cfg, s, e)
    ensures Inv(cfg, Step(cfg, s, e))
  {
    hide Inv, Wf, Steady, HartStep, WriteF, ReadF, Issue, IdleF;
    InvWf(cfg, s);
    match e
    case Write(address, value) => WriteKeeps(cfg, s, address, value);
    case Read(address) => ReadKeeps(cfg, s, address);
    case Idle => IdleKeeps(cfg, s);
    case Hart(id, action) =>
      if id in cfg.hartids {
        KnownHart(cfg, s.dm, id);
        HartKeeps(cfg, s, id, action);
      }
    case Break(id) =>
      if id < |s.pcs| && s.pcs[id] == Running {
        MoveKeeps(cfg, s, id, Entry);
      }
  }

  // ---- whole runs ----

  predicate SteadyRun(cfg: Config, s: Sys, es: seq<Event>)
    requires WfSys(cfg, s)
    decreases |es|
  {
    hide *;
    es == [] || (Steady(cfg, s, es[0]) && (StepWf(cfg, s, es[0]); SteadyRun(cfg, Step(cfg, s, es[0]), es[1..])))
  }

  /** No command is executing, no flag is set, and the harts are running. */
  ghost predicate Start(cfg: Config, s: Sys) {
    WfSys(cfg, s) && !s.dm.busy && (forall h :: 0 <= h < FLAGS ==> s.dm.flags[h] == Flags(false, false)) &&
    forall h :: 0 <= h < |s.pcs| ==> s.pcs[h] == Running
  }

  lemma StartOk(cfg: Config, s: Sys)
    requires Start(cfg, s)
    ensures Inv(cfg, s)
  {
  }

  lemma {:induction false} RunKeeps(cfg: Config, s: Sys, es: seq<Event>)
    requires Inv(cfg, s) && SteadyRun(cfg, s, es)
    ensures Inv(cfg, Run(cfg, s, es))
    decreases |es|
  {
    hide Inv, Step, Steady, Wf;
    InvWf(cfg, s);
    if es != [] {
      StepKeeps(cfg, s, es[0]);
      RunKeeps(cfg, Step(cfg, s, es[0]), es[1..]);
    }
  }

  /**
   In every run, busy falls only at an idle cycle, and only after the hart that the command was issued to has gone
   through the program of that command exactly once, to its end or an exception.
   */
  lemma BusyFalls(cfg: Config, s: Sys, es: seq<Event>, e: Event)
    requires Start(cfg, s) && SteadyRun(cfg, s, es) && Steady(cfg, Run(cfg, s, es), e)
    requires Run(cfg, s, es).dm.busy && !Step(cfg, Run(cfg, s, es), e).dm.busy
    ensures var log := Run(cfg, s, es).log;
            e == Idle && log.hart == Sel(cfg, Run(cfg, s, es).dm) && log.runs == [(log.hart, log.program)] &&
              log.ended == 1 &&
            ProgramOf(cfg, log.command, log.program)
  {
    hide Start, Run, SteadyRun, Steady, Applied, ProgramOf;
    StartOk(cfg, s);
    RunKeeps(cfg, s, es);
    var t := Run(cfg, s, es);
    StaysBusy(cfg, t, e);
    InvWf(cfg, t);
    hide Wf;
  }

  /** Only an idle cycle after completion ends a command. */
  lemma StaysBusy(cfg: Config, s: Sys, e: Event)
    requires Inv(cfg, s) && Steady(cfg, s, e) && s.dm.busy && !Step(cfg, s, e).dm.busy
    ensures e == Idle && s.dm.completed
  {
    hide Inv, Wf, WriteF, ReadF, Put, Resets, HartselOf, Bit;
    InvWf(cfg, s);
    match e
    case Write(address, value) => BusyWrite(cfg, s.dm, address, value);
    case Read(address) => BusyRead(cfg, s.dm, address);
    case Idle =>
    case Hart(id, action) =>
    case Break(id) =>
  }

  /** In every run GO is set for the selected hart only, and only while its command is executing. */
  lemma GoIsSelected(cfg: Config, s: Sys, es: seq<Event>, h: nat)
    requires Start(cfg, s) && SteadyRun(cfg, s, es) && h < |Run(cfg, s, es).dm.flags| && Run(cfg, s, es).dm.flags[h].go
    ensures Run(cfg, s, es).dm.busy && h == Sel(cfg, Run(cfg, s, es).dm)
  {
    hide Start, Run, SteadyRun, Steady, Applied, ProgramOf;
    StartOk(cfg, s);
    RunKeeps(cfg, s, es);
    var t := Run(cfg, s, es);
    InvWf(cfg, t);
    hide Wf;
    if h < |t.pcs| {
      assert HartOk(t.dm.flags[h].go, t.pcs[h], t.dm.busy && h == Sel(cfg, t.dm), t.dm.completed);
    }
  }

  /**
   In every run the program area is that of the command, and data and program buffer differ by the program's stores
   only.
   */
  lemma OnlyTheProgramStores(cfg: Config, s: Sys, es: seq<Event>)
    requires Start(cfg, s) && SteadyRun(cfg, s, es) && Run(cfg, s, es).dm.busy
    ensures var t := Run(cfg, s, es);
            t.dm.program == t.log.program && WfBuffers(cfg, Buffers(t.log.data, t.log.progbuf)) &&
            BuffersOf(t.dm) == Applied(cfg, Buffers(t.log.data, t.log.progbuf), t.log.stores)
  {
    hide Start, Run, SteadyRun, Steady, Applied, ProgramOf, AllHarts, Progress, WfBuffers;
    StartOk(cfg, s);
    RunKeeps(cfg, s, es);
    InvWf(cfg, Run(cfg, s, es));
    hide Wf;
  }

  // ---- halting and resuming ----

  /**
   A hart that the module reports as halted is in the debug ROM, and none has acknowledged a resume that is still
   requested.
   */
  ghost predicate Reports(s: Sys) {
    |s.pcs| == |s.dm.harts| <= |s.dm.flags| &&
    forall h :: 0 <= h < |s.pcs| ==> ReportOk(s.dm.harts[h], s.dm.flags[h], s.pcs[h])
  }

  predicate ReportOk(hart: HartState, flags: Flags, pc: Pc) {
    (hart.halted ==> pc != Running) && (flags.resume ==> !hart.resumeack)
  }

  /**
   What an access of the debugger does to the reports: it may request resumes, and takes back their acknowledgement.
   */
  ghost predicate Requests(dm: Dm, dm': Dm) {
    |dm'.harts| == |dm.harts| <= |dm.flags| == |dm'.flags| &&
    forall h :: 0 <= h < |dm.harts| ==>
      dm'.harts[h].halted == dm.harts[h].halted &&
      ((dm'.flags[h].resume == dm.flags[h].resume && dm'.harts[h].resumeack == dm.harts[h].resumeack) ||
        !dm'.harts[h].resumeack)
  }

  lemma RequestsTrans(a: Dm, b: Dm, c: Dm)
    requires Requests(a, b) && Requests(b, c)
    ensures Requests(a, c)
  {
  }

  lemma {:induction false} RequestAllRequests(cfg: Config, dm: Dm, ack: bool, n: nat)
    requires Wf(cfg, dm) && n <= |cfg.hartids|
    ensures Requests(dm, RequestAll(cfg, dm, ack, n))
  {
    hide Wf, Selected;
    if n > 0 {
      var dm1 := RequestAll(cfg, dm, ack, n - 1);
      RequestAllRequests(cfg, dm, ack, n - 1);
      RequestOneRequests(cfg, dm1, ack, n - 1);
      RequestsTrans(dm, dm1, RequestOne(cfg, dm1, ack, cfg.hartids[n - 1]));
    } else {
      WfLengths(cfg, dm);
    }
  }

  lemma WfLengths(cfg: Config, dm: Dm)
    requires Wf(cfg, dm)
    ensures |dm.harts| == |dm.haltRequest| <= |dm.flags| == FLAGS && |cfg.hartids| > 0
  {
  }

  lemma RequestOneRequests(cfg: Config, dm: Dm, ack: bool, k: nat)
    requires Wf(cfg, dm) && k < |cfg.hartids|
    ensures cfg.hartids[k] < |dm.harts| && Requests(dm, RequestOne(cfg, dm, ack, cfg.hartids[k]))
  {
  }

  lemma ControlRequests(cfg: Config, dm: Dm, value: u32)
    requires Wf(cfg, dm)
    ensures Requests(dm, ControlF(cfg, dm, value))
  {
    hide RequestAll, Bit, HartselOf, Wf;
    WfLengths(cfg, dm);
    ControlSelects(cfg, value);
    var dm1 := if Resets(dm, value) then ResetF(dm) else dm;
    ResetWf(cfg, dm, ControlOf(cfg, value));
    if Bit(value, 1) {
      hide ControlOf, Requests;
      RequestAllRequests(cfg, dm1.(control := ControlOf(cfg, value)), Bit(value, 0x1000_0000), |cfg.hartids|);
      SameReports(dm, dm1.(control := ControlOf(cfg, value)), ControlF(cfg, dm, value));
    }
  }

  lemma ResetWf(cfg: Config, dm: Dm, control: Control)
    requires Wf(cfg, dm) && control.hartsel < |cfg.hartids|
    ensures Wf(cfg, ResetF(dm).(control := control)) && Wf(cfg, dm.(control := control))
  {
  }

  lemma SameReports(dm: Dm, dm1: Dm, dm': Dm)
    requires dm1.harts == dm.harts && dm1.flags == dm.flags && Requests(dm1, dm')
    ensures Requests(dm, dm')
  {
  }

  lemma PerformRequests(cfg: Config, dm: Dm)
    requires Wf(cfg, dm)
    ensures Requests(dm, PerformF(cfg, dm))
  {
    hide Program, Bit, Put, Word, Read32;
  }

  lemma AfterRequests(cfg: Config, dm: Dm, auto: nat, i: nat, report: bool)
    requires Wf(cfg, dm)
    ensures Requests(dm, AfterAccess(cfg, dm, auto, i, report))
  {
    hide PerformF, AutoExec;
    PerformRequests(cfg, dm);
  }

  lemma WriteRequests(cfg: Config, dm: Dm, address: nat, value: u32)
    requires Wf(cfg, dm)
    ensures Requests(dm, WriteF(cfg, dm, address, value))
  {
    hide PerformF, AutoExec, AfterAccess, ControlF, Put, Word, ClearBits, Bit;
    if IsData(address) {
      var i := address - DM_DATA0;
      AfterRequests(cfg, if dm.busy then dm else dm.(data := Put(dm.data, 4 * i, Word(value))), dm.autoData, i, true);
    } else if IsProgbuf(cfg, address) {
      var i := address - DM_PROGBUF0;
      var dm1 := if dm.busy then dm else dm.(progbuf := Put(dm.progbuf, 4 * i, Word(value)));
      AfterRequests(cfg, dm1, dm.autoProgbuf, i, false);
    } else if address == DM_DMCONTROL {
      ControlRequests(cfg, dm, value);
    } else if address == DM_COMMAND {
      PerformRequests(cfg, dm.(command := value));
    }
  }

  lemma ReadRequests(cfg: Config, dm: Dm, address: nat)
    requires Wf(cfg, dm)
    ensures Requests(dm, ReadF(cfg, dm, address))
  {
    hide AfterAccess;
    if IsData(address) {
      AfterRequests(cfg, dm, dm.autoData, address - DM_DATA0, true);
    } else if IsProgbuf(cfg, address) {
      AfterRequests(cfg, dm, dm.autoProgbuf, address - DM_PROGBUF0, false);
    }
  }

  lemma IssueReports(cfg: Config, s: Sys, dm: Dm)
    requires Wf(cfg, s.dm) && Wf(cfg, dm) && Reports(s) && Requests(s.dm, dm)
    ensures Reports(Issue(cfg, s, dm))
  {
    hide Wf, Sel;
    forall h | 0 <= h < |s.pcs|
      ensures ReportOk(dm.harts[h], dm.flags[h], s.pcs[h])
    {
      assert ReportOk(s.dm.harts[h], s.dm.flags[h], s.pcs[h]);
    }
  }

  /** A step of hart `id` that leaves the reports of the others. */
  lemma OneReport(s: Sys, s': Sys, id: nat)
    requires Reports(s) && id < |s.pcs| && |s'.dm.harts| == |s.dm.harts| && |s'.dm.flags| == |s.dm.flags|
    requires |s'.pcs| == |s.pcs| && ReportOk(s'.dm.harts[id], s'.dm.flags[id], s'.pcs[id])
    requires forall h :: 0 <= h < |s.pcs| && h != id ==> SameReport(s, s', h)
    ensures Reports(s')
  {
    hide ReportOk;
    forall h | 0 <= h < |s.pcs|
      ensures ReportOk(s'.dm.harts[h], s'.dm.flags[h], s'.pcs[h])
    {
      assert h != id ==> SameReport(s, s', h);
      assert ReportOk(s.dm.harts[h], s.dm.flags[h], s.pcs[h]);
    }
  }

  ghost predicate SameReport(s: Sys, s': Sys, h: nat) {
    h < |s.pcs| && h < |s'.pcs| && h < |s.dm.harts| && h < |s'.dm.harts| && h < |s.dm.flags| && h < |s'.dm.flags| &&
    s'.dm.harts[h] == s.dm.harts[h] && s'.dm.flags[h] == s.dm.flags[h] && s'.pcs[h] == s.pcs[h]
  }

  lemma HartReports(cfg: Config, s: Sys, id: nat, action: Action)
    requires WfSys(cfg, s) && id < |s.pcs| && Reports(s)
    ensures Reports(HartStep(cfg, s, id, action))
  {
    hide Wf, Put, Sel, InData, InProgbuf, Reports;
    ReportHere(s, id);
    hide ReportOk;
    var s' := HartStep(cfg, s, id, action);
    HartOnly(cfg, s, id, action);
    hide HartStep, MemF, HaltedF, GoingF, ResumingF, ExceptionF;
    OneReport(s, s', id);
  }

  lemma ReportHere(s: Sys, id: nat)
    requires Reports(s) && id < |s.pcs|
    ensures |s.pcs| == |s.dm.harts| <= |s.dm.flags| && ReportOk(s.dm.harts[id], s.dm.flags[id], s.pcs[id])
  {
    hide ReportOk;
  }

  /** Only hart `id` is reported differently. */
  ghost predicate OneHart(dm: Dm, dm': Dm, id: nat) {
    |dm'.harts| == |dm.harts| && |dm'.flags| == |dm.flags| &&
    forall h :: h != id ==>
      (0 <= h < |dm.harts| ==> dm'.harts[h] == dm.harts[h]) && (0 <= h < |dm.flags| ==> dm'.flags[h] == dm.flags[h])
  }

  lemma StoresOne(cfg: Config, dm: Dm, id: nat, addr: nat, bytes: seq<byte>)
    requires Wf(cfg, dm) && id < |dm.harts| <= |dm.flags|
    ensures OneHart(dm, dm, id) && OneHart(dm, HaltedF(cfg, dm, id), id) && OneHart(dm, GoingF(dm, id), id)
    ensures OneHart(dm, ResumingF(cfg, dm, id), id) && OneHart(dm, MemF(cfg, dm, addr, bytes), id) &&
            OneHart(dm, ExceptionF(dm), id)
    ensures HaltedF(cfg, dm, id).harts[id].resumeack == dm.harts[id].resumeack && HaltedF(cfg, dm, id).flags == dm.flags
    ensures GoingF(dm, id).harts == dm.harts && GoingF(dm, id).flags[id].resume == dm.flags[id].resume
    ensures !ResumingF(cfg, dm, id).harts[id].halted && !ResumingF(cfg, dm, id).flags[id].resume
    ensures MemF(cfg, dm, addr, bytes).harts == dm.harts && MemF(cfg, dm, addr, bytes).flags == dm.flags
    ensures ExceptionF(dm).harts == dm.harts && ExceptionF(dm).flags == dm.flags
  {
    hide Wf, Put, Sel, InData, InProgbuf;
  }

  lemma HartOnly(cfg: Config, s: Sys, id: nat, action: Action)
    requires WfSys(cfg, s) && id < |s.pcs| == |s.dm.harts| <= |s.dm.flags| &&
             ReportOk(s.dm.harts[id], s.dm.flags[id], s.pcs[id])
    ensures var s' := HartStep(cfg, s, id, action);
            |s'.dm.harts| == |s.dm.harts| && |s'.dm.flags| == |s.dm.flags| && |s'.pcs| == |s.pcs| &&
            ReportOk(s'.dm.harts[id], s'.dm.flags[id], s'.pcs[id]) &&
            forall h :: 0 <= h < |s.pcs| && h != id ==> SameReport(s, s', h)
  {
    hide Wf, HaltedF, GoingF, ResumingF, MemF, ExceptionF, OneHart;
    var st := if s.pcs[id].InProgram? && action.Store? then action.store else ProgramStore(0, []);
    StoresOne(cfg, s.dm, id, st.addr, st.bytes);
    var s' := HartStep(cfg, s, id, action);
    assert s'.pcs == s.pcs[id := s'.pcs[id]];
    hide HartStep;
    OthersSame(s, s', id);
  }

  lemma OthersSame(s: Sys, s': Sys, id: nat)
    requires id < |s.pcs| == |s.dm.harts| <= |s.dm.flags| && OneHart(s.dm, s'.dm, id) && |s'.pcs| == |s.pcs|
    requires s'.pcs == s.pcs[id := s'.pcs[id]]
    ensures |s'.dm.harts| == |s.dm.harts| && |s'.dm.flags| == |s.dm.flags|
    ensures forall h :: 0 <= h < |s.pcs| && h != id ==> SameReport(s, s', h)
  {
  }

  lemma StepReports(cfg: Config, s: Sys, e: Event)
    requires WfSys(cfg, s) && Reports(s)
    ensures WfSys(cfg, Step(cfg, s, e)) && Reports(Step(cfg, s, e))
  {
    hide Wf, Reports, HartStep, WriteF, ReadF, Issue;
    StepWf(cfg, s, e);
    WfLengths(cfg, s.dm);
    match e
    case Write(address, value) =>
      WriteWf(cfg, s.dm, address, value);
      WriteRequests(cfg, s.dm, address, value);
      IssueReports(cfg, s, WriteF(cfg, s.dm, address, value));
    case Read(address) =>
      ReadWf(cfg, s.dm, address);
      ReadRequests(cfg, s.dm, address);
      IssueReports(cfg, s, ReadF(cfg, s.dm, address));
    case Idle => IdleReports(s);
    case Hart(id, action) =>
      if id in cfg.hartids {
        KnownHart(cfg, s.dm, id);
        HartReports(cfg, s, id, action);
      }
    case Break(id) => BreakReports(s, id);
  }

  lemma BreakReports(s: Sys, id: nat)
    requires Reports(s)
    ensures Reports(BreakStep(s, id))
  {
  }

  lemma IdleReports(s: Sys)
    requires Reports(s)
    ensures Reports(s.(dm := IdleF(s.dm)))
  {
  }

  lemma {:induction false} RunReports(cfg: Config, s: Sys, es: seq<Event>)
    requires WfSys(cfg, s) && Reports(s)
    ensures Reports(Run(cfg, s, es))
    decreases |es|
  {
    hide Reports, Step, Wf;
    if es != [] {
      StepReports(cfg, s, es[0]);
      WfLengths(cfg, Step(cfg, s, es[0]).dm);
      RunReports(cfg, Step(cfg, s, es[0]), es[1..]);
    }
  }

  /**
   In every run, whatever the debugger writes, a hart reported as halted has not left the debug ROM, and the
   acknowledgement of a resume is clear from the request until the hart leaves.
   */
  lemma ReportsAreTrue(cfg: Config, s: Sys, es: seq<Event>, h: nat)
    requires Start(cfg, s) && h < |s.pcs| && forall k :: 0 <= k < |s.pcs| ==> !s.dm.harts[k].halted
    ensures var t := Run(cfg, s, es);
            h < |t.pcs| == |t.dm.harts| <= |t.dm.flags| && (t.dm.harts[h].halted ==> t.pcs[h] != Running) &&
            (t.dm.flags[h].resume ==> !t.dm.harts[h].resumeack)
  {
    hide Run, Step;
    WfLengths(cfg, s.dm);
    RunReports(cfg, s, es);
    RunSize(cfg, s, es);
    var t := Run(cfg, s, es);
    hide Wf, Start;
    assert ReportOk(t.dm.harts[h], t.dm.flags[h], t.pcs[h]);
  }

  lemma {:induction false} RunSize(cfg: Config, s: Sys, es: seq<Event>)
    requires WfSys(cfg, s)
    ensures |Run(cfg, s, es).pcs| == |s.pcs|
    decreases |es|
  {
    hide Step, Wf;
    if es != [] {
      StepWf(cfg, s, es[0]);
      StepSize(cfg, s, es[0]);
      RunSize(cfg, Step(cfg, s, es[0]), es[1..]);
    }
  }

  lemma StepSize(cfg: Config, s: Sys, e: Event)
    requires WfSys(cfg, s)
    ensures |Step(cfg, s, e).pcs| == |s.pcs|
  {
    hide Wf, WriteF, ReadF, Put;
    match e
    case Write(address, value) => WriteWf(cfg, s.dm, address, value);
    case Read(address) => ReadWf(cfg, s.dm, address);
    case Idle =>
    case Hart(id, action) =>
      if id in cfg.hartids {
        KnownHart(cfg, s.dm, id);
      }
    case Break(id) =>
  }

  // ---- when a command can finish ----

  /**
   The selected hart has left the ROM, or is about to, before it has seen GO, and is not asked to halt: a command
   can be issued between the hart's look at its resume flag and its store of RESUMING, since it is still reported
   as halted then.
   */
  ghost predicate Gone(cfg: Config, s: Sys)
    requires WfSys(cfg, s)
  {
    var h := Sel(cfg, s.dm);
    !s.dm.completed && !s.dm.haltRequest[h] &&
    (s.pcs[h] == Running || s.pcs[h] == Resuming || (s.pcs[h] == LookResume && s.dm.flags[h].resume))
  }

  function Stage(pc: Pc, go: bool): nat {
    match pc
    case LookResume => 9
    case Resuming => 8
    case Running => 7
    case Entry => if go then 6 else 1
    case LookGo => 5
    case Going => 4
    case Jump => 3
    case InProgram => 2
    case Trapped => 2
  }

  function ToGo(cfg: Config, s: Sys): nat
    requires Wf(cfg, s.dm) && |s.pcs| == |s.dm.harts|
  {
    var h := Sel(cfg, s.dm);
    if s.dm.completed then 0 else Stage(s.pcs[h], s.dm.flags[h].go)
  }

  /** What brings an executing command closer to its end. */
  function Nudge(cfg: Config, s: Sys): Event
    requires Wf(cfg, s.dm)
  {
    if s.dm.completed then Idle else Hart(Sel(cfg, s.dm), Proceed)
  }

  lemma NudgeHelps(cfg: Config, s: Sys)
    requires Inv(cfg, s) && s.dm.busy && !Gone(cfg, s)
    ensures var s' := Step(cfg, s, Nudge(cfg, s));
            Inv(cfg, s') && !Gone(cfg, s') && (s'.dm.busy ==> ToGo(cfg, s') + s'.dm.rti < ToGo(cfg, s) + s.dm.rti)
  {
    hide Applied, ProgramOf;
    InvWf(cfg, s);
    StepKeeps(cfg, s, Nudge(cfg, s));
    InvWf(cfg, Step(cfg, s, Nudge(cfg, s)));
    hide Inv;
    NudgeProgress(cfg, s);
    NudgeStays(cfg, s);
  }

  lemma NudgeStays(cfg: Config, s: Sys)
    requires Inv(cfg, s) && s.dm.busy && !Gone(cfg, s) && WfSys(cfg, Step(cfg, s, Nudge(cfg, s)))
    ensures !Gone(cfg, Step(cfg, s, Nudge(cfg, s)))
  {
    hide Applied, ProgramOf, Held;
    InvWf(cfg, s);
  }

  lemma NudgeProgress(cfg: Config, s: Sys)
    requires Inv(cfg, s) && s.dm.busy && !Gone(cfg, s) && WfSys(cfg, Step(cfg, s, Nudge(cfg, s)))
    ensures var s' := Step(cfg, s, Nudge(cfg, s)); s'.dm.busy ==> ToGo(cfg, s') + s'.dm.rti < ToGo(cfg, s) + s.dm.rti
  {
    hide Applied, ProgramOf, Held;
    InvWf(cfg, s);
    var h := Sel(cfg, s.dm);
    assert HartOk(s.dm.flags[h].go, s.pcs[h], true, s.dm.completed);
  }

  /** Unless the hart is gone, its steps and idle cycles alone end the command, without the debugger. */
  lemma {:induction false} CanFinish(cfg: Config, s: Sys) returns (es: seq<Event>)
    requires Inv(cfg, s) && s.dm.busy && !Gone(cfg, s)
    ensures SteadyRun(cfg, s, es) && !Run(cfg, s, es).dm.busy && |es| <= ToGo(cfg, s) + s.dm.rti + 1
    ensures forall i :: 0 <= i < |es| ==> es[i] in {Idle, Hart(Sel(cfg, s.dm), Proceed)}
    decreases ToGo(cfg, s) + s.dm.rti
  {
    hide Inv, Step, Wf, ToGo, Sel, Gone;
    InvWf(cfg, s);
    var e := Nudge(cfg, s);
    NudgeHelps(cfg, s);
    NudgeSelects(cfg, s);
    var s' := Step(cfg, s, e);
    if s'.dm.busy {
      var rest := CanFinish(cfg, s');
      es := [e] + rest;
    } else {
      es := [e];
    }
    assert es[1..] == if s'.dm.busy then es[1..] else [];
  }

  lemma NudgeSelects(cfg: Config, s: Sys)
    requires Inv(cfg, s)
    ensures WfSys(cfg, Step(cfg, s, Nudge(cfg, s))) && Sel(cfg, Step(cfg, s, Nudge(cfg, s)).dm) == Sel(cfg, s.dm)
  {
    hide Inv, Put;
    InvWf(cfg, s);
    StepWf(cfg, s, Nudge(cfg, s));
  }

  /** The events without the debugger, and without a hart that enters debug mode by itself. */
  predicate Alone(e: Event) {
    e.Idle? || e.Hart?
  }

  /** A command whose hart is gone has GO still set, and no step without the debugger changes either. */
  lemma StaysGone(cfg: Config, s: Sys, e: Event)
    requires Inv(cfg, s) && s.dm.busy && Gone(cfg, s) && Alone(e)
    ensures s.dm.flags[Sel(cfg, s.dm)].go
    ensures Inv(cfg, Step(cfg, s, e)) && Step(cfg, s, e).dm.busy && Gone(cfg, Step(cfg, s, e)) && Steady(cfg, s, e)
  {
    hide Inv, Step;
    StepKeeps(cfg, s, e);
    InvWf(cfg, s);
    GoPending(cfg, s);
    if e.Idle? {
      IdleGone(cfg, s);
    } else if e.id in cfg.hartids {
      KnownHart(cfg, s.dm, e.id);
      HartGone(cfg, s, e.id, e.action);
      StepIsHart(cfg, s, e.id, e.action);
    } else {
      NoHart(cfg, s, e.id, e.action);
    }
  }

  lemma StepIsHart(cfg: Config, s: Sys, id: nat, action: Action)
    requires WfSys(cfg, s) && id in cfg.hartids && id < |s.pcs|
    ensures Step(cfg, s, Hart(id, action)) == HartStep(cfg, s, id, action)
  {
    hide HartStep, Wf;
  }

  lemma NoHart(cfg: Config, s: Sys, id: nat, action: Action)
    requires WfSys(cfg, s) && id !in cfg.hartids
    ensures Step(cfg, s, Hart(id, action)) == s
  {
    hide HartStep, Wf;
  }

  lemma GoPending(cfg: Config, s: Sys)
    requires Inv(cfg, s) && s.dm.busy && Gone(cfg, s)
    ensures |s.dm.flags| == FLAGS && Sel(cfg, s.dm) < |s.pcs| <= FLAGS && s.dm.flags[Sel(cfg, s.dm)].go
  {
    hide Held, AllHarts;
    InvWf(cfg, s);
  }

  lemma IdleGone(cfg: Config, s: Sys)
    requires WfSys(cfg, s) && s.dm.busy && Gone(cfg, s)
    ensures WfSys(cfg, Step(cfg, s, Idle)) && Step(cfg, s, Idle).dm.busy && Gone(cfg, Step(cfg, s, Idle))
  {
  }

  lemma HartGone(cfg: Config, s: Sys, id: nat, action: Action)
    requires WfSys(cfg, s) && s.dm.busy && Gone(cfg, s) && id < |s.pcs| && s.dm.flags[Sel(cfg, s.dm)].go
    ensures var s' := HartStep(cfg, s, id, action); WfSys(cfg, s') && s'.dm.busy && Gone(cfg, s')
  {
    HartWf(cfg, s, id, action);
    WfLengths(cfg, s.dm);
    SelSame(cfg, s.dm, s.dm);
    MemStays(cfg, s.dm, if s.pcs[id].InProgram? && action.Store? then action.store else ProgramStore(0, []));
    hide Wf, MemF, Put, InData, InProgbuf;
  }

  lemma MemStays(cfg: Config, dm: Dm, st: ProgramStore)
    requires Wf(cfg, dm)
    ensures var dm' := MemF(cfg, dm, st.addr, st.bytes);
            Wf(cfg, dm') && dm' == dm.(data := dm'.data, progbuf := dm'.progbuf)
  {
    hide Put;
  }

  /** A command whose hart is gone never ends without the debugger: busy stays whatever the harts do. */
  lemma {:induction false} CannotFinish(cfg: Config, s: Sys, es: seq<Event>)
    requires Inv(cfg, s) && s.dm.busy && Gone(cfg, s) && forall i :: 0 <= i < |es| ==> Alone(es[i])
    ensures Run(cfg, s, es).dm.busy && Gone(cfg, Run(cfg, s, es))
    decreases |es|
  {
    hide Inv, Step, Wf, Gone;
    InvWf(cfg, s);
    if es != [] {
      assert Alone(es[0]);
      StaysGone(cfg, s, es[0]);
      CannotFinish(cfg, Step(cfg, s, es[0]), es[1..]);
    }
  }

  // ---- why the selection must stay ----

  lemma RunThree(cfg: Config, s: Sys, a: Event, b: Event, c: Event)
    requires WfSys(cfg, s)
    ensures WfSys(cfg, Step(cfg, s, a)) && WfSys(cfg, Step(cfg, Step(cfg, s, a), b))
    ensures Run(cfg, s, [a, b, c]) == Step(cfg, Step(cfg, Step(cfg, s, a), b), c)
  {
    hide WfSys, Step;
    StepWf(cfg, s, a);
    var s1 := Step(cfg, s, a);
    StepWf(cfg, s1, b);
    var s2 := Step(cfg, s1, b);
    StepWf(cfg, s2, c);
    assert [a, b, c][1..] == [b, c] && [b, c][1..] == [c] && [c][1..] == [];
    assert Run(cfg, s2, [c]) == Run(cfg, Step(cfg, s2, c), []);
    assert Run(cfg, s1, [b, c]) == Run(cfg, s2, [c]);
  }

  /** Writing dmcontrol while a command is executing moves the selection and nothing else of the handshake. */
  lemma Reselect(cfg: Config, s: Sys, value: u32)
    requires WfSys(cfg, s) && s.dm.busy && s.dm.control.dmactive && Bit(value, 1)
    ensures var s' := Step(cfg, s, Write(DM_DMCONTROL, value));
            WfSys(cfg, s') && SameCore(s.dm, s'.dm) && s'.dm.busy && s'.pcs == s.pcs && s'.log == s.log &&
            s'.dm.control.hartsel == HartselOf(cfg, value)
  {
    StepWf(cfg, s, Write(DM_DMCONTROL, value));
    WriteWf(cfg, s.dm, DM_DMCONTROL, value);
    ControlFrame(cfg, s.dm, value);
    ControlSelects(cfg, value);
    RequestFrame(cfg, s.dm.(control := ControlOf(cfg, value)), Bit(value, 0x1000_0000), |cfg.hartids|);
    hide Bit, HartselOf, ControlOf, RequestAll;
  }

  /** Selecting another halted hart while GO is pending ends the command without its program having run. */
  lemma SelectionMatters(cfg: Config, s: Sys, value: u32)
    requires Inv(cfg, s) && s.dm.busy && s.dm.flags[Sel(cfg, s.dm)].go && s.dm.control.dmactive && s.dm.rti <= 1
    requires Bit(value, 1)
    requires var other := cfg.hartids[HartselOf(cfg, value)]; other != Sel(cfg, s.dm) && s.pcs[other] == Entry
    ensures var t := Run(cfg, s, [Write(DM_DMCONTROL, value), Hart(cfg.hartids[HartselOf(cfg, value)], Proceed), Idle]);
            !t.dm.busy && t.log.runs == [] && |t.dm.flags| == FLAGS && t.dm.flags[Sel(cfg, s.dm)].go
  {
    hide Bit, HartselOf, WriteF, Held, Run;
    InvWf(cfg, s);
    var other := cfg.hartids[HartselOf(cfg, value)];
    assert !s.dm.flags[other].go by {
      assert HartOk(s.dm.flags[other].go, s.pcs[other], false, s.dm.completed);
    }
    Reselect(cfg, s, value);
    RunThree(cfg, s, Write(DM_DMCONTROL, value), Hart(other, Proceed), Idle);
    var s1 := Step(cfg, s, Write(DM_DMCONTROL, value));
    hide Step, Inv;
    AfterHalted(cfg, s1, other);
  }

  lemma AfterHalted(cfg: Config, s: Sys, id: nat)
    requires WfSys(cfg, s) && id == Sel(cfg, s.dm) && s.pcs[id] == Entry && !s.dm.flags[id].go && s.dm.rti <= 1
    requires id in cfg.hartids && WfSys(cfg, Step(cfg, s, Hart(id, Proceed)))
    ensures var t := Step(cfg, Step(cfg, s, Hart(id, Proceed)), Idle);
            !t.dm.busy && t.log == s.log && t.dm.flags == s.dm.flags
  {
  }
}
