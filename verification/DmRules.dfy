/**
 What the debugger and the harts see of the debug module: words written over one side are read on the other, an access
 while busy is reported once, and a command is refused for exactly one reason.
 */
module DmRules {
  import opened Common
  import Bits
  import opened DmState
  import opened DmProgram
  import Handshake

  // ---- words ----

  /** The bytes of a word, least significant first. */
  function Value(b: seq<byte>): nat
    requires |b| == 4
  {
    b[0] as int + 0x100 * b[1] as int + 0x1_0000 * b[2] as int + 0x100_0000 * b[3] as int
  }

  lemma PutSame<T>(mem: seq<T>, at: nat, b: seq<T>)
    requires at + |b| <= |mem|
    ensures Put(mem, at, b)[at..at + |b|] == b
    ensures forall i, j :: 0 <= i <= j <= |mem| && (j <= at || at + |b| <= i) ==> Put(mem, at, b)[i..j] == mem[i..j]
  {
  }

  lemma ReadIs(mem: seq<byte>, i: nat)
    requires 4 * i + 4 <= |mem|
    ensures Read32(mem, i) == Value(mem[4 * i..4 * i + 4])
  {
  }

  lemma WordIs(v: u32)
    ensures Value(Word(v)) == v
  {
    ReadWord(v);
  }

  /** A word put at place `i` is the one read at place `j` when these are the same. */
  lemma PutRead(mem: seq<byte>, i: nat, b: seq<byte>, j: nat)
    requires 4 * i + 4 <= |mem| && 4 * j + 4 <= |mem| && |b| == 4
    ensures Read32(Put(mem, 4 * i, b), j) == if i == j then Value(b) else Read32(mem, j)
  {
    hide Put, Value, Read32;
    PutSame(mem, 4 * i, b);
    ReadIs(Put(mem, 4 * i, b), j);
    ReadIs(mem, j);
    if j < i {
      assert 4 * j + 4 <= 4 * i;
    } else if i < j {
      assert 4 * i + 4 <= 4 * j;
    }
  }

  // ---- the data registers and the program buffer ----

  /** Bit `i` of an autoexec field. */
  predicate Auto(auto: nat, i: nat) {
    auto / Bits.Pow2(i) % 2 == 1
  }

  lemma AutoIs(auto: nat, i: nat)
    ensures AutoExec(auto, i) <==> Auto(auto, i)
  {
    hide Bits.High, Bits.Low, Bits.Pow2;
    Bits.HighIsDiv(auto, i);
  }

  /** What the debugger reads of the data registers and the program buffer. */
  ghost predicate Reads(cfg: Config, dm: Dm, dm': Dm, address: nat, v: nat)
    requires Wf(cfg, dm) && Wf(cfg, dm')
  {
    forall a: nat :: (0x04 <= a < 0x06 || 0x20 <= a < 0x20 + cfg.progbufsize) ==>
      Readable(cfg, a) && ReadValue(cfg, dm', a) == if a == address then v else ReadValue(cfg, dm, a)
  }

  lemma Places(cfg: Config, dm: Dm, a: nat)
    requires Wf(cfg, dm)
    ensures IsData(a) <==> 0x04 <= a < 0x06
    ensures IsProgbuf(cfg, a) <==> 0x20 <= a < 0x20 + cfg.progbufsize
    ensures |dm.data| == 8 && |dm.progbuf| >= 4 * cfg.progbufsize && cfg.progbufsize <= 16
    ensures DM_DATA0 == 0x04 && DM_PROGBUF0 == 0x20 && DEBUG_DATA_START == 0x380
  {
  }

  lemma NotBusyValue(cfg: Config, dm: Dm, a: nat)
    requires Wf(cfg, dm) && !dm.busy && (0x04 <= a < 0x06 || 0x20 <= a < 0x20 + cfg.progbufsize)
    ensures |dm.data| == 8 && |dm.progbuf| >= 4 * cfg.progbufsize && Readable(cfg, a)
    ensures a < 0x06 ==> ReadValue(cfg, dm, a) == Read32(dm.data, a - 0x04)
    ensures a >= 0x20 ==> ReadValue(cfg, dm, a) == Read32(dm.progbuf, a - 0x20)
  {
    hide Read32;
  }

  lemma DataReads(cfg: Config, dm: Dm, i: nat, b: seq<byte>)
    requires Wf(cfg, dm) && !dm.busy && i < 2 && |b| == 4
    ensures |dm.data| == 8 && Wf(cfg, dm.(data := Put(dm.data, 4 * i, b)))
    ensures Reads(cfg, dm, dm.(data := Put(dm.data, 4 * i, b)), 0x04 + i, Value(b))
  {
    hide Put, Read32, Value, ReadValue;
    Places(cfg, dm, 0x04);
    var dm' := dm.(data := Put(dm.data, 4 * i, b));
    assert Wf(cfg, dm');
    hide Wf;
    forall a: nat | 0x04 <= a < 0x06 || 0x20 <= a < 0x20 + cfg.progbufsize
      ensures Readable(cfg, a) && ReadValue(cfg, dm', a) == if a == 0x04 + i then Value(b) else ReadValue(cfg, dm, a)
    {
      NotBusyValue(cfg, dm, a);
      NotBusyValue(cfg, dm', a);
      if a < 0x06 {
        PutRead(dm.data, i, b, a - 0x04);
      }
    }
  }

  lemma ProgbufReads(cfg: Config, dm: Dm, i: nat, b: seq<byte>)
    requires Wf(cfg, dm) && !dm.busy && i < cfg.progbufsize && |b| == 4
    ensures 4 * i + 4 <= |dm.progbuf| && Wf(cfg, dm.(progbuf := Put(dm.progbuf, 4 * i, b)))
    ensures Reads(cfg, dm, dm.(progbuf := Put(dm.progbuf, 4 * i, b)), 0x20 + i, Value(b))
  {
    hide Put, Read32, Value, ReadValue;
    Places(cfg, dm, 0x04);
    var dm' := dm.(progbuf := Put(dm.progbuf, 4 * i, b));
    assert Wf(cfg, dm');
    hide Wf;
    forall a: nat | 0x04 <= a < 0x06 || 0x20 <= a < 0x20 + cfg.progbufsize
      ensures Readable(cfg, a) && ReadValue(cfg, dm', a) == if a == 0x20 + i then Value(b) else ReadValue(cfg, dm, a)
    {
      NotBusyValue(cfg, dm, a);
      NotBusyValue(cfg, dm', a);
      if a >= 0x20 {
        PutRead(dm.progbuf, i, b, a - 0x20);
      }
    }
  }

  /** The register of an address with an autoexec bit, and that bit. */
  predicate Triggers(dm: Dm, address: nat) {
    if address < 0x20 then address >= 0x04 && Auto(dm.autoData, address - 0x04)
    else Auto(dm.autoProgbuf, address - 0x20)
  }

  /** The debugger's write of a word, before the command it may start. */
  function Written(cfg: Config, dm: Dm, address: nat, v: u32): Dm
    requires Wf(cfg, dm) && (IsData(address) || IsProgbuf(cfg, address))
  {
    Places(cfg, dm, address);
    if address < 0x20 then dm.(data := Put(dm.data, 4 * (address - 0x04), Word(v)))
    else dm.(progbuf := Put(dm.progbuf, 4 * (address - 0x20), Word(v)))
  }

  /**
   While no command executes, what the debugger writes to a data register or a word of the program buffer is what it
   then reads there, and every other one reads as before; nothing else changes.
   */
  lemma WrittenReads(cfg: Config, dm: Dm, address: nat, v: u32)
    requires Wf(cfg, dm) && !dm.busy && (0x04 <= address < 0x06 || 0x20 <= address < 0x20 + cfg.progbufsize)
    ensures IsData(address) || IsProgbuf(cfg, address)
    ensures var w := Written(cfg, dm, address, v);
            Wf(cfg, w) && Reads(cfg, dm, w, address, v) && w == dm.(data := w.data, progbuf := w.progbuf)
  {
    hide Put, Word, Value, ReadValue, Wf, Reads;
    Places(cfg, dm, address);
    WordIs(v);
    if address < 0x20 {
      DataReads(cfg, dm, address - 0x04, Word(v));
    } else {
      ProgbufReads(cfg, dm, address - 0x20, Word(v));
    }
  }

  /** The write itself: the word, and then the command again if the autoexec bit of the register is set. */
  lemma WriteIs(cfg: Config, dm: Dm, address: nat, v: u32)
    requires Wf(cfg, dm) && !dm.busy && (0x04 <= address < 0x06 || 0x20 <= address < 0x20 + cfg.progbufsize)
    ensures IsData(address) || IsProgbuf(cfg, address)
    ensures var w := Written(cfg, dm, address, v);
            Wf(cfg, w) && WriteF(cfg, dm, address, v) == if Triggers(dm, address) then PerformF(cfg, w) else w
  {
    hide Put, Word, PerformF, AutoExec, Auto, Wf, Reads;
    Places(cfg, dm, address);
    WrittenReads(cfg, dm, address, v);
    if address < 0x20 {
      AutoIs(dm.autoData, address - 0x04);
    } else {
      AutoIs(dm.autoProgbuf, address - 0x20);
    }
  }

  /** A read changes nothing, or starts the command again if the autoexec bit of the register is set. */
  lemma ReadStarts(cfg: Config, dm: Dm, address: nat)
    requires Wf(cfg, dm) && !dm.busy && (0x04 <= address < 0x06 || 0x20 <= address < 0x20 + cfg.progbufsize)
    ensures ReadF(cfg, dm, address) == if Triggers(dm, address) then PerformF(cfg, dm) else dm
  {
    hide PerformF, AutoExec, Auto;
    Places(cfg, dm, address);
    if address < 0x20 {
      AutoIs(dm.autoData, address - 0x04);
    } else {
      AutoIs(dm.autoProgbuf, address - 0x20);
    }
  }

  /**
   While a command executes an access to a data register reports busy, if nothing was reported yet, and an access to the
   program buffer does not even that; neither changes anything else.
   */
  lemma BusyAccess(cfg: Config, dm: Dm, address: nat, v: u32)
    requires Wf(cfg, dm) && dm.busy && (0x04 <= address < 0x06 || 0x20 <= address < 0x20 + cfg.progbufsize)
    ensures var cmderr := if address < 0x20 && dm.cmderr == 0 then 1 else dm.cmderr;
            WriteF(cfg, dm, address, v) == ReadF(cfg, dm, address) == dm.(cmderr := cmderr)
  {
    hide PerformF, AutoExec, Put, Word;
    Places(cfg, dm, address);
  }

  // ---- the harts' side ----

  /** Where a hart finds data register `i`, or word `i` of the program buffer. */
  function Home(cfg: Config, address: nat): int {
    if address < 0x20 then 0x380 + 4 * (address - 0x04)
    else 0x380 - 4 * cfg.progbufsize - (if cfg.impebreak then 4 else 0) + 4 * (address - 0x20)
  }

  lemma HomeIs(cfg: Config, dm: Dm, address: nat)
    requires Wf(cfg, dm) && (0x04 <= address < 0x06 || 0x20 <= address < 0x20 + cfg.progbufsize)
    ensures Home(cfg, address) >= 0x100
    ensures address < 0x20 ==> InData(Home(cfg, address), 4)
    ensures address >= 0x20 ==> InProgbuf(cfg, Home(cfg, address), 4) && !InData(Home(cfg, address), 4)
    ensures address >= 0x20 ==> Home(cfg, address) - ProgbufStart(cfg) == 4 * (address - 0x20)
  {
  }

  /** Four bytes that a hart stores there are the word that the debugger then reads; every other one reads as before. */
  lemma StoredReads(cfg: Config, dm: Dm, address: nat, b: seq<byte>)
    requires Wf(cfg, dm) && !dm.busy && |b| == 4
    requires 0x04 <= address < 0x06 || 0x20 <= address < 0x20 + cfg.progbufsize
    ensures Home(cfg, address) >= 0x380 - 4 * 17
    ensures var dm' := StoreF(cfg, dm, Home(cfg, address), b);
            Wf(cfg, dm') && Reads(cfg, dm, dm', address, Value(b))
  {
    hide Put, Value, ReadValue, Wf, Reads;
    Places(cfg, dm, address);
    HomeIs(cfg, dm, address);
    if address < 0x20 {
      DataReads(cfg, dm, address - 0x04, b);
    } else {
      ProgbufReads(cfg, dm, address - 0x20, b);
    }
  }

  /** What a hart loads from there are the bytes of the word that the debugger reads. */
  lemma LoadedReads(cfg: Config, dm: Dm, address: nat)
    requires Wf(cfg, dm) && !dm.busy && (0x04 <= address < 0x06 || 0x20 <= address < 0x20 + cfg.progbufsize)
    ensures Home(cfg, address) >= 0 && Readable(cfg, address)
    ensures InData(Home(cfg, address), 4) || InProgbuf(cfg, Home(cfg, address), 4)
    ensures var b := LoadF(cfg, dm, Home(cfg, address), 4);
            |b| == 4 && Value(b) == ReadValue(cfg, dm, address)
  {
    hide Value, ReadValue, Wf, Read32;
    Places(cfg, dm, address);
    HomeIs(cfg, dm, address);
    NotBusyValue(cfg, dm, address);
    if address < 0x20 {
      ReadIs(dm.data, address - 0x04);
    } else {
      ReadIs(dm.progbuf, address - 0x20);
    }
  }

  // ---- commands ----

  /** The refusals of a command in the order they are found, as error codes; 0 if there is none. */
  function Refusal(cfg: Config, dm: Dm): nat
    requires Wf(cfg, dm)
  {
    var size, regno := dm.command / 0x10_0000 % 8, dm.command % 0x1_0000;
    if dm.cmderr != 0 then dm.cmderr
    else if dm.busy then 1
    else if dm.command >= 0x100_0000 then 2
    else if !dm.harts[Sel(cfg, dm)].halted then 4
    else if dm.command / 0x2_0000 % 2 == 1 && !Accessible(cfg, size, regno) && !IsCustom(regno) then 2
    else 0
  }

  predicate IsCustomAccess(dm: Dm) {
    dm.command / 0x2_0000 % 2 == 1 && IsCustom(dm.command % 0x1_0000)
  }

  /**
   A command is refused for the first of these reasons, and then neither a GO flag, nor busy, nor a data register
   changes. Otherwise it is issued: busy, its program in place, and GO set for the selected hart and no other. (A custom
   access is done at once instead.)
   */
  lemma CommandAnswer(cfg: Config, dm: Dm)
    requires Wf(cfg, dm)
    ensures var r, e := PerformF(cfg, dm), Refusal(cfg, dm);
            r.cmderr == e &&
            (e != 0 ==> r.busy == dm.busy && r.flags == dm.flags && r.data == dm.data && r.progbuf == dm.progbuf) &&
            (e == 0 && !IsCustomAccess(dm) ==>
               r.busy && !r.completed && r.rti == cfg.rti && r.data == dm.data && r.progbuf == dm.progbuf &&
               Program(cfg, dm.command).0 <= r.program &&
               r.flags == dm.flags[Sel(cfg, dm) := dm.flags[Sel(cfg, dm)].(go := true)]) &&
            (e == 0 && IsCustomAccess(dm) ==> !r.busy && r.flags == dm.flags)
  {
    hide Program, Accessible, Word, Read32;
    OutcomeIs(cfg, dm.command);
    ProgramFits(cfg, dm.command);
    Handshake.PutStarts(dm.program, Program(cfg, dm.command).0);
  }

  /**
   A custom access not refused: a read gives the number of the register, counted from 0xc000, plus the base, in data
   register 0, and zero in the other; a write makes that register read as what data register 0 holds.
   */
  lemma CustomAnswer(cfg: Config, dm: Dm)
    requires Wf(cfg, dm) && Refusal(cfg, dm) == 0 && IsCustomAccess(dm)
    ensures var r, number := PerformF(cfg, dm), dm.command % 0x1_0000 - 0xc000;
            Wf(cfg, r) && Readable(cfg, 0x04) && Readable(cfg, 0x05) &&
            if dm.command / 0x1_0000 % 2 == 1 then
              r.data == dm.data && (number + r.customBase) % 0x1_0000_0000 == ReadValue(cfg, dm, 0x04)
            else
              r.customBase == dm.customBase && ReadValue(cfg, r, 0x05) == 0 &&
              ReadValue(cfg, r, 0x04) == (number + dm.customBase) % 0x1_0000_0000
  {
    hide Program, Accessible, Word, Read32, Put, Wf, ReadValue, PerformF, IsCustom;
    Places(cfg, dm, 0x04);
    NotBusyValue(cfg, dm, 0x04);
    PerformIsCustom(cfg, dm);
    var r, number := PerformF(cfg, dm), dm.command % 0x1_0000 - 0xc000;
    NotBusyValue(cfg, r, 0x04);
    NotBusyValue(cfg, r, 0x05);
    if dm.command / 0x1_0000 % 2 == 1 {
      BaseUndone(Read32(dm.data, 0), number);
    } else {
      TwoWords(dm.data, (number + dm.customBase) % 0x1_0000_0000);
    }
  }

  lemma BaseUndone(v: u32, number: int)
    ensures (number + (v - number) % 0x1_0000_0000) % 0x1_0000_0000 == v
  {
    var q := (v - number) / 0x1_0000_0000;
    assert number + (v - number) % 0x1_0000_0000 == v - q * 0x1_0000_0000;
  }

  lemma TwoWords(data: seq<byte>, v: u32)
    requires |data| == 8
    ensures var d := Put(Put(data, 0, Word(v)), 4, Word(0));
            |d| == 8 && Read32(d, 0) == v && Read32(d, 1) == 0
  {
    hide Put, Word, Read32;
    WriteThenRead(data, 0, v, 0);
    WriteThenRead(Put(data, 0, Word(v)), 1, 0, 0);
    WriteThenRead(Put(data, 0, Word(v)), 1, 0, 1);
  }

  lemma PerformIsCustom(cfg: Config, dm: Dm)
    requires Wf(cfg, dm) && Refusal(cfg, dm) == 0 && IsCustomAccess(dm) && |dm.data| == 8
    ensures var r, number := PerformF(cfg, dm), dm.command % 0x1_0000 - 0xc000;
            Wf(cfg, r) && !r.busy &&
            if dm.command / 0x1_0000 % 2 == 1 then
              r.data == dm.data && r.customBase == (Read32(dm.data, 0) - number) % 0x1_0000_0000
            else
              r.customBase == dm.customBase &&
              r.data == Put(Put(dm.data, 0, Word((number + dm.customBase) % 0x1_0000_0000)), 4, Word(0))
  {
    hide Program, Accessible, Word, Read32, Put;
    OutcomeIs(cfg, dm.command);
    ProgramFits(cfg, dm.command);
    Handshake.PutStarts(dm.program, Program(cfg, dm.command).0);
  }

  /** Bit `n` of a value. */
  predicate BitAt(v: nat, n: nat) {
    Bits.High(v, n) % 2 == 1
  }

  lemma {:induction false} AndNotBit(x: nat, y: nat, n: nat)
    ensures Bits.And(x, y) <= x && (BitAt(x - Bits.And(x, y), n) <==> BitAt(x, n) && !BitAt(y, n))
    decreases n
  {
    hide Bits.And;
    Bits.AndBound(x, y);
    Bits.AndBound(x / 2, y / 2);
    Bits.AndHalf(x, y);
    if n > 0 {
      AndNotBit(x / 2, y / 2, n - 1);
    }
  }

  lemma {:induction false} LowBit(x: nat, k: nat, n: nat)
    requires n < k
    ensures BitAt(Bits.Low(x, k), n) == BitAt(x, n)
    decreases n
  {
    hide Bits.Low;
    Bits.LowHalf(x, k);
    if n > 0 {
      LowBit(x / 2, k - 1, n - 1);
    }
  }

  lemma ErrorField(v: u32, n: nat)
    requires n < 3
    ensures BitAt(v / 0x100 % 8, n) == BitAt(v, 8 + n)
  {
    hide Bits.High, Bits.Low, Bits.Pow2;
    Bits.Pow2Small();
    Bits.Pow2Half(3);
    Bits.HighIsDiv(v, 8);
    Bits.HighIsDiv(v / 0x100, 3);
    LowBit(v / 0x100, 3, n);
    Bits.HighHigh(v, 8, n);
  }

  /** Writing the error field clears the bits written as one. */
  lemma ErrorCleared(cfg: Config, dm: Dm, v: u32, n: nat)
    requires Wf(cfg, dm) && n < 3
    ensures var dm' := WriteF(cfg, dm, 0x16, v);
            dm' == dm.(cmderr := dm'.cmderr) && dm'.cmderr <= dm.cmderr &&
            (BitAt(dm'.cmderr, n) <==> BitAt(dm.cmderr, n) && !BitAt(v, 8 + n))
  {
    hide Bits.And, BitAt;
    ErrorField(v, n);
    AndNotBit(dm.cmderr, v / 0x100 % 8, n);
  }

  // ---- dmcontrol ----

  /** The field of a word with place value `unit` and `base` values. */
  function Field(v: nat, unit: nat, base: nat): (r: nat)
    requires unit > 0 && base > 0
    ensures r < base
  {
    v / unit % base
  }

  /** The value read back after a write of dmcontrol: the bits for acknowledgements and the reserved ones are zero. */
  function ReadBack(cfg: Config, v: u32): int {
    v - Field(v, 0x1000_0000, 2) * 0x1000_0000 - Field(v, 0x800_0000, 2) * 0x800_0000 -
    (if cfg.hasel then 0 else Field(v, 0x400_0000, 2) * 0x400_0000) - Field(v, 4, 0x10) * 4
  }

  /** The hart number in a value of dmcontrol: its upper ten bits are the lower field. */
  function HartNumber(v: u32): nat {
    Field(v, 0x40, 0x400) * 0x400 + Field(v, 0x1_0000, 0x400)
  }

  /** dmcontrol reads back as it was written, if the module is switched on and the hart named is there. */
  lemma ControlReads(cfg: Config, dm: Dm, v: u32)
    requires Wf(cfg, dm) && v % 2 == 1 && HartNumber(v) < |cfg.hartids|
    ensures var dm' := WriteF(cfg, dm, 0x10, v);
            Wf(cfg, dm') && ReadValue(cfg, dm', 0x10) == ReadBack(cfg, v)
  {
    hide RequestAll, Bit, ControlWord, ReadBack, HartNumber, ControlOf;
    Handshake.WriteWf(cfg, dm, 0x10, v);
    BitZero(v);
    ControlFits(cfg, dm, v);
    RequestsKeepControl(cfg, (if Resets(dm, v) then ResetF(dm) else dm).(control := ControlOf(cfg, v)),
      Bit(v, 0x1000_0000), |cfg.hartids|);
    ControlWordIs(cfg, v);
  }

  lemma ControlFits(cfg: Config, dm: Dm, v: u32)
    requires Wf(cfg, dm)
    ensures Wf(cfg, (if Resets(dm, v) then ResetF(dm) else dm).(control := ControlOf(cfg, v)))
  {
    hide Bit;
  }

  lemma BitZero(v: u32)
    ensures Bit(v, 1) <==> v % 2 == 1
  {
  }

  lemma {:induction false} RequestsKeepControl(cfg: Config, dm: Dm, ack: bool, n: nat)
    requires Wf(cfg, dm) && n <= |cfg.hartids|
    ensures RequestAll(cfg, dm, ack, n).control == dm.control
    decreases n
  {
    hide RequestOne;
    if n > 0 {
      RequestsKeepControl(cfg, dm, ack, n - 1);
    }
  }

  lemma ControlWordIs(cfg: Config, v: u32)
    requires v % 2 == 1 && HartNumber(v) < |cfg.hartids|
    ensures ControlWord(ControlOf(cfg, v)) == ReadBack(cfg, v)
  {
    hide Bit, Field, Flag, HartselOf;
    FieldsOf(v);
    FlagIs(v, 0x8000_0000);
    FlagIs(v, 0x4000_0000);
    FlagIs(v, 0x2000_0000);
    FlagIs(v, 0x400_0000);
    FlagIs(v, 2);
    HartselIs(cfg, v);
    HartParts(Field(v, 0x40, 0x400), Field(v, 0x1_0000, 0x400));
    FlagCases();
    LastField(v);
  }

  lemma FlagCases()
    ensures Flag(true, 1) == 1 && forall u: nat :: Flag(false, u) == 0
  {
  }

  lemma LastField(v: u32)
    ensures Field(v, 1, 2) == v % 2
  {
  }

  lemma FlagIs(v: nat, unit: nat)
    requires unit > 0
    ensures Flag(Bit(v, unit), unit) == Field(v, unit, 2) * unit
  {
    if Bit(v, unit) {
      assert Field(v, unit, 2) == 1;
    } else {
      assert Field(v, unit, 2) == 0;
    }
  }

  lemma HartselIs(cfg: Config, v: u32)
    requires HartNumber(v) < |cfg.hartids|
    ensures HartselOf(cfg, v) == HartNumber(v)
  {
  }

  lemma HartParts(hi: nat, lo: nat)
    requires hi < 0x400 && lo < 0x400
    ensures (hi * 0x400 + lo) % 0x400 == lo && (hi * 0x400 + lo) / 0x400 % 0x400 == hi
  {
  }

  /** What is left of a word from a place on. */
  function Rest(v: nat, unit: nat): nat
    requires unit > 0
  {
    v / unit
  }

  /** A field is what the rest has more than the next rest. */
  lemma RestStep(v: nat, k: nat, len: nat, unit: nat, base: nat, next: nat)
    requires unit == Bits.Pow2(k) && base == Bits.Pow2(len) && next == Bits.Pow2(k + len)
    ensures Rest(v, unit) == Rest(v, next) * base + Field(v, unit, base)
  {
    hide Bits.High, Bits.Low, Bits.Pow2;
    Bits.HighIsDiv(v, k);
    Bits.HighIsDiv(v, k + len);
    Bits.HighIsDiv(Bits.High(v, k), len);
    Bits.HighHigh(v, k, len);
    Bits.Split(Bits.High(v, k), len);
  }

  lemma Units()
    ensures Bits.Pow2(0) == 1 && Bits.Pow2(1) == 2 && Bits.Pow2(2) == 4 && Bits.Pow2(4) == 0x10
    ensures Bits.Pow2(6) == 0x40 && Bits.Pow2(10) == 0x400 && Bits.Pow2(16) == 0x1_0000
    ensures Bits.Pow2(26) == 0x400_0000 && Bits.Pow2(27) == 0x800_0000 && Bits.Pow2(28) == 0x1000_0000
    ensures Bits.Pow2(29) == 0x2000_0000 && Bits.Pow2(30) == 0x4000_0000 && Bits.Pow2(31) == 0x8000_0000
    ensures Bits.Pow2(32) == 0x1_0000_0000
  {
    hide Bits.Pow2;
    Bits.Pow2Small();
    Bits.Pow2Half(0);
    Bits.Pow2Add(2, 2);
    Bits.Pow2Add(4, 2);
    Bits.Pow2Add(6, 4);
    Bits.Pow2Add(10, 6);
    Bits.Pow2Add(16, 10);
    Bits.Pow2Add(26, 1);
    Bits.Pow2Add(27, 1);
    Bits.Pow2Add(28, 1);
    Bits.Pow2Add(29, 1);
    Bits.Pow2Add(30, 1);
    Bits.Pow2Add(31, 1);
  }

  /** A word as the sum of the fields of dmcontrol. */
  lemma FieldsOf(v: u32)
    ensures v == Field(v, 0x8000_0000, 2) * 0x8000_0000 + Field(v, 0x4000_0000, 2) * 0x4000_0000 +
                 Field(v, 0x2000_0000, 2) * 0x2000_0000 + Field(v, 0x1000_0000, 2) * 0x1000_0000 +
                 Field(v, 0x800_0000, 2) * 0x800_0000 + Field(v, 0x400_0000, 2) * 0x400_0000 +
                 Field(v, 0x1_0000, 0x400) * 0x1_0000 + Field(v, 0x40, 0x400) * 0x40 + Field(v, 4, 0x10) * 4 +
                 Field(v, 2, 2) * 2 + Field(v, 1, 2)
  {
    hide Field, Rest, Bits.Pow2;
    Units();
    RestStep(v, 0, 1, 1, 2, 2);
    RestStep(v, 1, 1, 2, 2, 4);
    RestStep(v, 2, 4, 4, 0x10, 0x40);
    RestStep(v, 6, 10, 0x40, 0x400, 0x1_0000);
    RestStep(v, 16, 10, 0x1_0000, 0x400, 0x400_0000);
    RestStep(v, 26, 1, 0x400_0000, 2, 0x800_0000);
    RestStep(v, 27, 1, 0x800_0000, 2, 0x1000_0000);
    RestStep(v, 28, 1, 0x1000_0000, 2, 0x2000_0000);
    RestStep(v, 29, 1, 0x2000_0000, 2, 0x4000_0000);
    RestStep(v, 30, 1, 0x4000_0000, 2, 0x8000_0000);
    RestStep(v, 31, 1, 0x8000_0000, 2, 0x1_0000_0000);
    Ends(v);
  }

  lemma Ends(v: u32)
    ensures Rest(v, 1) == v && Rest(v, 0x1_0000_0000) == 0
  {
  }

  // ---- requests ----

  /** Hart `id` is one of the first `n` of the configuration. */
  ghost predicate Named(cfg: Config, id: nat, n: nat)
    requires n <= |cfg.hartids|
  {
    exists k :: 0 <= k < n && cfg.hartids[k] == id
  }

  lemma NamedStep(cfg: Config, id: nat, n: nat)
    requires 0 < n <= |cfg.hartids|
    ensures Named(cfg, id, n) <==> cfg.hartids[n - 1] == id || Named(cfg, id, n - 1)
  {
  }

  /** What dmcontrol, with the acknowledgement `ack`, makes of one hart. */
  ghost predicate Asked(dm: Dm, dm': Dm, id: nat, selected: bool, ack: bool)
    requires id < |dm.harts| == |dm'.harts| && id < |dm.flags| == |dm'.flags|
    requires id < |dm.haltRequest| == |dm'.haltRequest|
  {
    var c, h := dm.control, dm.harts[id];
    if selected then
      dm'.haltRequest[id] == c.haltreq &&
      dm'.flags[id] == Flags(dm.flags[id].go, dm.flags[id].resume || c.resumereq) &&
      dm'.harts[id] == HartState(h.halted, h.resumeack && !c.resumereq, h.havereset && !ack)
    else
      dm'.haltRequest[id] == dm.haltRequest[id] && dm'.flags[id] == dm.flags[id] && dm'.harts[id] == h
  }

  lemma {:induction false} AllAsked(cfg: Config, dm: Dm, ack: bool, n: nat, id: nat)
    requires Wf(cfg, dm) && n <= |cfg.hartids| && id < |dm.harts|
    ensures var dm' := RequestAll(cfg, dm, ack, n);
            |dm'.harts| == |dm.harts| && dm'.control == dm.control && dm'.chosen == dm.chosen &&
            |dm'.flags| == |dm.flags| && |dm'.haltRequest| == |dm.haltRequest| &&
            Asked(dm, dm', id, Named(cfg, id, n) && Selected(cfg, dm, id), ack)
    decreases n
  {
    hide Named, Wf, RequestOne, DmState.Selected, Asked;
    SizesOf(cfg, dm);
    if n > 0 {
      AllAsked(cfg, dm, ack, n - 1, id);
      NamedStep(cfg, id, n);
      OneAsked(cfg, dm, RequestAll(cfg, dm, ack, n - 1), ack, n - 1, id, Named(cfg, id, n - 1));
    } else {
      NoneNamed(cfg, id);
      NothingAsked(dm, id, ack);
    }
  }

  lemma SizesOf(cfg: Config, dm: Dm)
    requires Wf(cfg, dm)
    ensures |dm.harts| == |dm.haltRequest| <= |dm.flags|
  {
  }

  lemma NothingAsked(dm: Dm, id: nat, ack: bool)
    requires id < |dm.harts| == |dm.haltRequest| <= |dm.flags|
    ensures Asked(dm, dm, id, false, ack)
  {
  }

  /** What a request to hart `j` changes at hart `id`. */
  lemma RequestAt(cfg: Config, r: Dm, ack: bool, j: nat, id: nat)
    requires Wf(cfg, r) && j < |r.harts| && id < |r.harts| == |r.haltRequest| <= |r.flags|
    ensures var r' := RequestOne(cfg, r, ack, j);
            |r'.harts| == |r.harts| && |r'.flags| == |r.flags| && |r'.haltRequest| == |r.haltRequest| &&
            Asked(r, r', id, j == id && Selected(cfg, r, id), ack)
  {
    hide Wf, DmState.Selected;
  }

  /** One more hart of the configuration. */
  lemma OneAsked(cfg: Config, dm: Dm, r: Dm, ack: bool, k: nat, id: nat, before: bool)
    requires Wf(cfg, dm) && Wf(cfg, r) && k < |cfg.hartids| && r.control == dm.control && r.chosen == dm.chosen
    requires id < |dm.harts| == |r.harts| == |dm.haltRequest| == |r.haltRequest| <= |dm.flags| == |r.flags|
    requires Asked(dm, r, id, before && Selected(cfg, dm, id), ack)
    ensures var r' := RequestOne(cfg, r, ack, cfg.hartids[k]);
            |r'.harts| == |r.harts| && |r'.flags| == |r.flags| && |r'.haltRequest| == |r.haltRequest| &&
            Asked(dm, r', id, (cfg.hartids[k] == id || before) && Selected(cfg, dm, id), ack)
  {
    hide Wf, DmState.Selected, RequestOne;
    KnownHart(cfg, r, k);
    SelectedSame(cfg, dm, r, id);
    RequestAt(cfg, r, ack, cfg.hartids[k], id);
  }

  lemma KnownHart(cfg: Config, dm: Dm, k: nat)
    requires Wf(cfg, dm) && k < |cfg.hartids|
    ensures cfg.hartids[k] < |dm.harts| == |dm.haltRequest| <= |dm.flags|
  {
  }

  lemma NoneNamed(cfg: Config, id: nat)
    ensures !Named(cfg, id, 0)
  {
  }

  lemma SelectedSame(cfg: Config, dm: Dm, dm': Dm, id: nat)
    requires Wf(cfg, dm) && Wf(cfg, dm') && dm'.control == dm.control && dm'.chosen == dm.chosen
    requires id < |dm.harts| == |dm'.harts|
    ensures Selected(cfg, dm', id) == Selected(cfg, dm, id)
  {
  }

  /**
   A write of dmcontrol that leaves the module on asks exactly the harts it selects to halt or not, and to resume, and
   acknowledges their reset; the others are asked nothing.
   */
  lemma ControlAsks(cfg: Config, dm: Dm, v: u32, id: nat)
    requires Wf(cfg, dm) && v % 2 == 1 && id < |dm.harts|
    ensures var off := !dm.control.dmactive;
            var dm' := WriteF(cfg, dm, 0x10, v);
            var dm1 := (if off then ResetF(dm) else dm).(control := dm'.control);
            |dm'.harts| == |dm1.harts| && |dm'.flags| == |dm1.flags| == FLAGS && |dm1.harts| == |dm.harts| <= FLAGS &&
            |dm'.haltRequest| == |dm1.haltRequest| == |dm.harts| && Wf(cfg, dm') &&
            dm'.control.haltreq == BitAt(v, 31) && dm'.control.resumereq == BitAt(v, 30) &&
            Asked(dm1, dm', id, Named(cfg, id, |cfg.hartids|) && Selected(cfg, dm', id), BitAt(v, 28))
  {
    hide RequestAll, Bit, BitAt, Named;
    Handshake.WriteWf(cfg, dm, 0x10, v);
    BitZero(v);
    ControlFits(cfg, dm, v);
    var dm1 := (if Resets(dm, v) then ResetF(dm) else dm).(control := ControlOf(cfg, v));
    AllAsked(cfg, dm1, Bit(v, 0x1000_0000), |cfg.hartids|, id);
    BitIs(v, 31, 0x8000_0000);
    BitIs(v, 30, 0x4000_0000);
    BitIs(v, 28, 0x1000_0000);
    SelectedSame(cfg, dm1, WriteF(cfg, dm, 0x10, v), id);
  }

  lemma BitIs(v: u32, n: nat, unit: nat)
    requires n in {28, 30, 31}
    requires unit == if n == 31 then 0x8000_0000 else if n == 30 then 0x4000_0000 else 0x1000_0000
    ensures Bit(v, unit) <==> BitAt(v, n)
  {
    hide Bits.High, Bits.Low, Bits.Pow2;
    Units();
    Bits.HighIsDiv(v, n);
  }

  /** Switching the module on leaves no error, no command and no autoexec bit. */
  lemma ResetReads(cfg: Config, dm: Dm, v: u32)
    requires Wf(cfg, dm) && !dm.control.dmactive && v % 2 == 1
    ensures var dm' := WriteF(cfg, dm, 0x10, v);
            Wf(cfg, dm') && ReadValue(cfg, dm', 0x16) == 0x100_0000 * cfg.progbufsize + 2 &&
            ReadValue(cfg, dm', 0x18) == 0
  {
    hide RequestAll, Bit, ControlOf;
    Handshake.WriteWf(cfg, dm, 0x10, v);
    BitZero(v);
    ControlFits(cfg, dm, v);
    var dm1 := (if Resets(dm, v) then ResetF(dm) else dm).(control := ControlOf(cfg, v));
    RequestsKeepRest(cfg, dm1, Bit(v, 0x1000_0000), |cfg.hartids|);
  }

  lemma {:induction false} RequestsKeepRest(cfg: Config, dm: Dm, ack: bool, n: nat)
    requires Wf(cfg, dm) && n <= |cfg.hartids|
    ensures var r := RequestAll(cfg, dm, ack, n);
            r.busy == dm.busy && r.cmderr == dm.cmderr && r.autoProgbuf == dm.autoProgbuf && r.autoData == dm.autoData
    decreases n
  {
    if n > 0 {
      RequestsKeepRest(cfg, dm, ack, n - 1);
    }
  }

  /** The autoexec fields read back as they were written. */
  lemma AutoReads(cfg: Config, dm: Dm, v: u32)
    requires Wf(cfg, dm)
    ensures var dm' := WriteF(cfg, dm, 0x18, v);
            Wf(cfg, dm') && ReadValue(cfg, dm', 0x18) == v - v / 0x1000 % 0x10 * 0x1000
  {
    hide Put, Word;
    AutoFields(v);
  }

  lemma AutoFields(v: u32)
    ensures v / 0x1_0000 % 0x1_0000 * 0x1_0000 + v % 0x1000 % 0x1000 == v - v / 0x1000 % 0x10 * 0x1000
  {
  }

  // ---- what a hart reports ----

  /** Only hart `id` and its flags may differ. */
  ghost predicate OnlyHart(dm: Dm, dm': Dm, id: nat)
    requires id < |dm.harts| && id < |dm.flags|
  {
    |dm'.harts| == |dm.harts| && |dm'.flags| == |dm.flags| &&
    dm'.harts == dm.harts[id := dm'.harts[id]] && dm'.flags == dm.flags[id := dm'.flags[id]] &&
    dm' == dm.(harts := dm'.harts, flags := dm'.flags, completed := dm'.completed)
  }

  /**
   A hart stores its number to report that it is in the ROM, that it goes to the program, or that it leaves. The first
   also completes the command when the hart is the selected one and has no GO pending; the last acknowledges the resume.
   */
  lemma HartReports(cfg: Config, dm: Dm, addr: nat, id: nat)
    requires Wf(cfg, dm) && addr in {0x100, 0x104, 0x108} && id < |dm.harts|
    ensures id < |dm.flags| && id < 0x1_0000_0000 && Read32(Word(id), 0) == id
    ensures var dm' := StoreF(cfg, dm, addr, Word(id));
            var h, f, h', f' := dm.harts[id], dm.flags[id], dm'.harts[id], dm'.flags[id];
            OnlyHart(dm, dm', id) && h'.havereset == h.havereset &&
            h'.halted == (if addr == 0x100 then true else if addr == 0x108 then false else h.halted) &&
            h'.resumeack == (h.resumeack || addr == 0x108) &&
            f'.go == (f.go && addr != 0x104) && f'.resume == (f.resume && addr != 0x108) &&
            dm'.completed == (dm.completed || (addr == 0x100 && id == Sel(cfg, dm) && !f.go))
  {
    ReadWord(id);
    ReportAddr(cfg, addr);
    hide Word, Read32;
  }

  lemma ReportAddr(cfg: Config, addr: nat)
    requires WfConfig(cfg) && addr in {0x100, 0x104, 0x108, 0x10c}
    ensures !InData(addr, 4) && !InProgbuf(cfg, addr, 4)
  {
  }

  /** A store to report an exception counts only if no error was reported yet. */
  lemma ExceptionReports(cfg: Config, dm: Dm, b: seq<byte>)
    requires Wf(cfg, dm) && |b| == 4
    ensures StoreF(cfg, dm, 0x10c, b) == dm.(cmderr := if dm.cmderr == 0 then 3 else dm.cmderr)
  {
    hide Read32;
    ReportAddr(cfg, 0x10c);
  }
}
