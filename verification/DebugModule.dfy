/** The debug module as it runs: registers, flags and buffers changed in place by each access. */
module DebugModule {
  import opened Common
  import opened DmState
  import Handshake

  lemma PutStep<T>(was: seq<T>, at: nat, words: seq<T>, i: nat)
    requires at + |words| <= |was| && i < |words|
    ensures (was[..at] + words[..i] + was[at + i..])[at + i := words[i]] ==
            was[..at] + words[..i + 1] + was[at + i + 1..]
  {
  }

  /** memcpy into a buffer. */
  method CopyIn<T>(a: array<T>, at: nat, words: seq<T>)
    requires at + |words| <= a.Length
    modifies a
    ensures a[..] == Put(old(a[..]), at, words)
  {
    ghost var was := a[..];
    var i := 0;
    while i < |words|
      invariant 0 <= i <= |words|
      invariant a[..] == was[..at] + words[..i] + was[at + i..]
    {
      PutStep(was, at, words, i);
      ghost var before := a[..];
      a[at + i] := words[i];
      assert a[..] == before[at + i := words[i]];
      i := i + 1;
    }
    assert words[..i] == words;
  }

  /** write32 */
  method Write32(mem: array<byte>, index: nat, value: u32)
    requires 4 * index + 4 <= mem.Length
    modifies mem
    ensures mem[..] == Put(old(mem[..]), 4 * index, Word(value))
  {
    ghost var was := mem[..];
    mem[4 * index] := value % 0x100;
    mem[4 * index + 1] := value / 0x100 % 0x100;
    mem[4 * index + 2] := value / 0x1_0000 % 0x100;
    mem[4 * index + 3] := value / 0x100_0000;
    assert mem[..] == was[..4 * index] + Word(value) + was[4 * index + 4..];
  }

  class Module {
    const cfg: Config
    var control: Control
    var busy: bool
    var cmderr: nat
    var autoProgbuf: nat
    var autoData: nat
    var command: nat
    var customBase: u32
    var chosen: seq<bool>
    const data: array<byte>
    const progbuf: array<byte>
    const program: array<Insn>
    const flags: array<Flags>
    var harts: seq<HartState>
    var haltRequest: seq<bool>
    var completed: bool
    var rti: nat

    ghost function View(): Dm
      reads this, data, progbuf, program, flags
    {
      Dm(control, busy, cmderr, autoProgbuf, autoData, command, customBase, chosen, data[..], progbuf[..], program[..],
         flags[..], harts, haltRequest, completed, rti)
    }

    ghost predicate Valid()
      reads this, data, progbuf, program, flags
    {
      data != progbuf && Wf(cfg, View())
    }

    /** A module for harts numbered below `count`: nothing selected but the first hart, no flag set. */
    constructor (config: Config, count: nat)
      requires WfConfig(config) && count <= FLAGS
      requires forall k :: 0 <= k < |config.hartids| ==> config.hartids[k] < count
      ensures Valid() && cfg == config && |harts| == count && !busy
      ensures forall h :: 0 <= h < FLAGS ==> flags[..][h] == Flags(false, false)
      ensures fresh(data) && fresh(progbuf) && fresh(program) && fresh(flags)
    {
      cfg := config;
      control := Control(false, false, false, 0, false, false, false);
      busy, cmderr, autoProgbuf, autoData, command, customBase := false, CMDERR_NONE, 0, 0, 0, 0;
      chosen := seq(count, _ => false);
      data := new byte[4 * DATASIZE](_ => 0);
      progbuf := new byte[ProgbufBytes(config)](_ => 0);
      program := new Insn[ABSTRACT_SIZE](_ => Unset);
      flags := new Flags[FLAGS](_ => Flags(false, false));
      harts := seq(count, _ => HartState(false, false, false));
      haltRequest := seq(count, _ => false);
      completed, rti := false, 0;
    }

    lemma Facts()
      requires Valid()
      ensures Wf(cfg, View()) && data != progbuf && |cfg.hartids| > 0 && control.hartsel < |cfg.hartids|
      ensures data.Length == 4 * DATASIZE && progbuf.Length == ProgbufBytes(cfg) && program.Length == ABSTRACT_SIZE
      ensures flags.Length == FLAGS && |harts| == |chosen| == |haltRequest| <= FLAGS
      ensures cfg.hartids[control.hartsel] == Sel(cfg, View()) < |harts|
    {
    }

    method Reset()
      requires Valid()
      modifies this
      ensures Valid() && View() == ResetF(old(View()))
    {
      hide Wf;
      Facts();
      ResetWf(cfg, View());
      control := Control(false, false, false, 0, false, false, false);
      busy, cmderr, autoProgbuf, autoData := false, CMDERR_NONE, 0, 0;
      haltRequest := seq(|haltRequest|, _ => false);
    }

    /** A hart stores its number to HALTED. */
    method Halted(id: nat)
      requires Valid() && id < |harts|
      modifies this
      ensures Valid() && View() == HaltedF(cfg, old(View()), id)
    {
      hide Wf;
      Facts();
      Handshake.StoresWf(cfg, View(), id, Handshake.ProgramStore(0, []));
      if !harts[id].halted {
        harts := harts[id := harts[id].(halted := true)];
      }
      assert harts == old(harts[id := harts[id].(halted := true)]);
      if cfg.hartids[control.hartsel] == id && !flags[id].go {
        completed := true;
      }
    }

    /** A hart stores its number to GOING. */
    method Going(id: nat)
      requires Valid() && id < |harts|
      modifies flags
      ensures Valid() && View() == GoingF(old(View()), id)
    {
      hide Wf;
      Facts();
      Handshake.StoresWf(cfg, View(), id, Handshake.ProgramStore(0, []));
      flags[id] := flags[id].(go := false);
    }

    /** A hart stores its number to RESUMING. */
    method Resuming(id: nat)
      requires Valid() && id < |harts|
      modifies this, flags
      ensures Valid() && View() == ResumingF(cfg, old(View()), id)
    {
      hide Wf;
      Facts();
      Handshake.StoresWf(cfg, View(), id, Handshake.ProgramStore(0, []));
      harts := harts[id := harts[id].(halted := false, resumeack := true)];
      flags[id] := flags[id].(resume := false);
    }

    /** A store into the data registers or the program buffer. */
    method StoreBuffer(addr: nat, bytes: seq<byte>)
      requires Valid() && (InData(addr, |bytes|) || InProgbuf(cfg, addr, |bytes|))
      modifies data, progbuf
      ensures Valid() && View() == MemF(cfg, old(View()), addr, bytes)
    {
      hide Wf, Put;
      Facts();
      Handshake.StoresWf(cfg, View(), cfg.hartids[control.hartsel], Handshake.ProgramStore(addr, bytes));
      if InData(addr, |bytes|) {
        CopyIn(data, addr - DEBUG_DATA_START, bytes);
      } else {
        CopyIn(progbuf, addr - ProgbufStart(cfg), bytes);
      }
    }

    /** store: the harts' side. */
    method Store(addr: nat, bytes: seq<byte>)
      requires Valid()
      requires DEBUG_ROM_HALTED <= addr <= DEBUG_ROM_RESUMING ==> |bytes| == 4 && Read32(bytes, 0) < |harts|
      modifies this, data, progbuf, flags
      ensures Valid() && View() == StoreF(cfg, old(View()), addr, bytes)
    {
      hide Valid, Wf, Put, Read32, MemF, HaltedF, GoingF, ResumingF;
      Facts();
      if InData(addr, |bytes|) || InProgbuf(cfg, addr, |bytes|) {
        StoreBuffer(addr, bytes);
      } else if addr == DEBUG_ROM_HALTED {
        Halted(Read32(bytes, 0));
      } else if addr == DEBUG_ROM_GOING {
        Going(Read32(bytes, 0));
      } else if addr == DEBUG_ROM_RESUMING {
        Resuming(Read32(bytes, 0));
      } else if addr == DEBUG_ROM_EXCEPTION {
        Exception();
      }
    }

    /** load: a hart's load from the data registers or the program buffer. */
    method Load(addr: nat, len: nat) returns (bytes: seq<byte>)
      requires Valid() && (InData(addr, len) || InProgbuf(cfg, addr, len))
      ensures bytes == LoadF(cfg, View(), addr, len)
    {
      hide Wf;
      Facts();
      if InData(addr, len) {
        bytes := data[addr - DEBUG_DATA_START..addr - DEBUG_DATA_START + len];
      } else {
        bytes := progbuf[addr - ProgbufStart(cfg)..addr - ProgbufStart(cfg) + len];
      }
    }

    /** A hart stores to EXCEPTION. */
    method Exception()
      requires Valid()
      modifies this
      ensures Valid() && View() == ExceptionF(old(View()))
    {
      hide Wf;
      Facts();
      Handshake.StoresWf(cfg, View(), cfg.hartids[control.hartsel], Handshake.ProgramStore(0, []));
      if cmderr == CMDERR_NONE {
        cmderr := CMDERR_EXCEPTION;
      }
    }

    method RunTestIdle()
      requires Valid()
      modifies this
      ensures Valid() && View() == IdleF(old(View()))
    {
      hide Wf;
      Facts();
      Handshake.IdleWf(cfg, View());
      if rti > 0 {
        rti := rti - 1;
      }
      if rti == 0 && busy && completed {
        busy := false;
      }
    }

    /** A command for an odd custom register. */
    method CustomRegister(write: bool, number: nat)
      requires Valid()
      modifies this, data
      ensures Valid() && View() == CustomF(old(View()), write, number)
    {
      hide Wf, Put, Word, Read32;
      Facts();
      CustomWf(cfg, View(), write, number);
      cmderr := CMDERR_NONE;
      if write {
        customBase := (Read32(data[..], 0) - number) % 0x1_0000_0000;
      } else {
        Write32(data, 0, (number + customBase) % 0x1_0000_0000);
        Write32(data, 1, 0);
      }
    }

    method PerformAbstractCommand()
      requires Valid()
      modifies this, data, program, flags
      ensures Valid() && View() == PerformF(cfg, old(View()))
    {
      hide Wf, Put, Word, Read32, Program, Bit, CustomNumber, CustomF, Sel;
      Facts();
      ghost var dm := View();
      Handshake.PerformWf(cfg, dm);
      if cmderr != CMDERR_NONE {
        return;
      }
      if busy {
        cmderr := CMDERR_BUSY;
        return;
      }
      if command / 0x100_0000 != 0 {
        cmderr := CMDERR_NOTSUP;
        return;
      }
      var h := cfg.hartids[control.hartsel];
      if !harts[h].halted {
        cmderr := CMDERR_HALTRESUME;
        return;
      }
      ProgramFits(cfg, command);
      var (words, outcome) := Program(cfg, command);
      CopyIn(program, 0, words);
      ProgramWf(cfg, dm, program[..]);
      match outcome {
        case NotSupported =>
          cmderr := CMDERR_NOTSUP;
        case Custom =>
          CustomRegister(Bit(command, 0x1_0000), CustomNumber(command));
        case Ready =>
          flags[h] := flags[h].(go := true);
          rti := cfg.rti;
          completed := false;
          busy := true;
      }
    }

    /** A write of dmcontrol. */
    method WriteControl(value: u32)
      requires Valid()
      modifies this, flags
      ensures Valid() && View() == ControlF(cfg, old(View()), value)
    {
      hide Bit, Put, Wf, RequestAll, HartselOf, ResetF;
      ghost var dm := View();
      Facts();
      ControlWf(cfg, dm, value);
      ResetKeeps(cfg, dm);
      if !control.dmactive && Bit(value, 1) {
        Reset();
      }
      ghost var dm1 := View();
      FieldsWf(cfg, dm1, dm1.data, dm1.progbuf, dm1.command, ControlOf(cfg, value));
      control := control.(dmactive := Bit(value, 1));
      if !control.dmactive {
        return;
      }
      control := control.(haltreq := Bit(value, 0x8000_0000), resumereq := Bit(value, 0x4000_0000),
                          hartreset := Bit(value, 0x2000_0000), ndmreset := Bit(value, 2),
                          hasel := cfg.hasel && Bit(value, 0x400_0000), hartsel := HartselOf(cfg, value));
      assert View() == dm1.(control := ControlOf(cfg, value));
      Request(Bit(value, 0x1000_0000));
    }

    lemma KnownHart(k: nat)
      requires Valid() && k < |cfg.hartids|
      ensures cfg.hartids[k] < |harts|
    {
    }

    /** The loop over the harts in a write of dmcontrol. */
    method Request(ack: bool)
      requires Valid()
      modifies this, flags
      ensures Valid() && View() == RequestAll(cfg, old(View()), ack, |cfg.hartids|)
    {
      hide Wf, RequestOne;
      ghost var dm := View();
      Facts();
      var k := 0;
      while k < |cfg.hartids|
        invariant 0 <= k <= |cfg.hartids|
        invariant Valid() && Wf(cfg, dm) && View() == RequestAll(cfg, dm, ack, k)
      {
        Facts();
        KnownHart(k);
        RequestHart(ack, cfg.hartids[k]);
        k := k + 1;
      }
    }

    method RequestHart(ack: bool, id: nat)
      requires Valid() && id < |harts|
      modifies this, flags
      ensures Valid() && View() == RequestOne(cfg, old(View()), ack, id)
    {
      hide Wf, Sel;
      Facts();
      ghost var dm := View();
      ghost var r := RequestOne(cfg, dm, ack, id);
      if id == cfg.hartids[control.hartsel] || (control.hasel && chosen[id]) {
        var h := harts[id];
        if ack {
          h := h.(havereset := false);
        }
        haltRequest := haltRequest[id := control.haltreq];
        if control.resumereq {
          flags[id] := flags[id].(resume := true);
          h := h.(resumeack := false);
        }
        harts := harts[id := h];
      }
    }

    method DmiWrite(address: nat, value: u32)
      requires Valid()
      modifies this, data, progbuf, program, flags
      ensures Valid() && View() == WriteF(cfg, old(View()), address, value)
    {
      hide Wf, Put, Word, AutoExec, PerformF, ControlF, ClearBits;
      Facts();
      ghost var dm := View();
      Handshake.WriteWf(cfg, dm, address, value);
      if IsData(address) {
        var i := address - DM_DATA0;
        if !busy {
          Write32(data, i, value);
          FieldsWf(cfg, dm, data[..], dm.progbuf, dm.command, dm.control);
        }
        if busy && cmderr == CMDERR_NONE {
          cmderr := CMDERR_BUSY;
        }
        if !busy && AutoExec(autoData, i) {
          PerformAbstractCommand();
        }
      } else if IsProgbuf(cfg, address) {
        var i := address - DM_PROGBUF0;
        if !busy {
          Write32(progbuf, i, value);
          FieldsWf(cfg, dm, dm.data, progbuf[..], dm.command, dm.control);
        }
        if !busy && AutoExec(autoProgbuf, i) {
          PerformAbstractCommand();
        }
      } else if address == DM_DMCONTROL {
        WriteControl(value);
      } else if address == DM_COMMAND {
        command := value;
        FieldsWf(cfg, dm, dm.data, dm.progbuf, value, dm.control);
        PerformAbstractCommand();
      } else if address == DM_ABSTRACTCS {
        cmderr := ClearBits(cmderr, value / 0x100 % 8);
      } else if address == DM_ABSTRACTAUTO {
        autoProgbuf, autoData := value / 0x1_0000, value % 0x1000;
      }
    }

    /** A read; what the registers outside the handshake hold is left open. */
    method DmiRead(address: nat) returns (value: u32)
      requires Valid()
      modifies this, data, program, flags
      ensures Valid() && View() == ReadF(cfg, old(View()), address)
      ensures Readable(cfg, address) ==> value == ReadValue(cfg, old(View()), address)
    {
      hide Wf, Put, Word, Read32, AutoExec, PerformF;
      Facts();
      Handshake.ReadWf(cfg, View(), address);
      value := 0;
      if IsData(address) {
        var i := address - DM_DATA0;
        value := Read32(data[..], i);
        if busy {
          value := ONES32;
        }
        if busy && cmderr == CMDERR_NONE {
          cmderr := CMDERR_BUSY;
        }
        if !busy && AutoExec(autoData, i) {
          PerformAbstractCommand();
        }
      } else if IsProgbuf(cfg, address) {
        var i := address - DM_PROGBUF0;
        value := Read32(progbuf[..], i);
        if busy {
          value := ONES32;
        }
        if !busy && AutoExec(autoProgbuf, i) {
          PerformAbstractCommand();
        }
      } else if address == DM_DMCONTROL {
        value := ControlWord(control);
      } else if address == DM_ABSTRACTAUTO {
        value := autoProgbuf % 0x1_0000 * 0x1_0000 + autoData % 0x1000;
      } else if address == DM_ABSTRACTCS {
        CsFits();
        value := 0x100_0000 * cfg.progbufsize + (if busy then 0x1000 else 0) + 0x100 * cmderr + DATASIZE;
      }
    }

    lemma CsFits()
      requires Valid()
      ensures cfg.progbufsize <= 16 && cmderr < 8
    {
    }
  }

  lemma ResetWf(cfg: Config, dm: Dm)
    requires Wf(cfg, dm)
    ensures Wf(cfg, ResetF(dm))
  {
  }

  /** A reset leaves all but the registers that it names. */
  lemma ResetKeeps(cfg: Config, dm: Dm)
    requires Wf(cfg, dm)
    ensures Wf(cfg, ResetF(dm)) && ResetF(dm).data == dm.data && ResetF(dm).progbuf == dm.progbuf
  {
  }

  lemma FieldsWf(cfg: Config, dm: Dm, data: seq<byte>, progbuf: seq<byte>, command: nat, control: Control)
    requires Wf(cfg, dm) && |data| == |dm.data| && |progbuf| == |dm.progbuf| && control.hartsel < |cfg.hartids|
    ensures Wf(cfg, dm.(data := data)) && Wf(cfg, dm.(progbuf := progbuf)) && Wf(cfg, dm.(command := command)) &&
            Wf(cfg, dm.(control := control)) && Wf(cfg, dm.(control := dm.control.(dmactive := false)))
  {
  }

  lemma CustomWf(cfg: Config, dm: Dm, write: bool, number: nat)
    requires Wf(cfg, dm)
    ensures Wf(cfg, CustomF(dm, write, number))
  {
    hide Put, Word, Read32;
  }

  lemma ProgramWf(cfg: Config, dm: Dm, program: seq<Insn>)
    requires Wf(cfg, dm) && |program| == |dm.program|
    ensures Wf(cfg, dm.(program := program))
  {
  }

  lemma ControlWf(cfg: Config, dm: Dm, value: u32)
    requires Wf(cfg, dm)
    ensures Wf(cfg, ControlF(cfg, dm, value))
  {
    hide *;
  }
}
