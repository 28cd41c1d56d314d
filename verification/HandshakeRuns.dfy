/**
 Runs from the start: the states in which a command never ends, or ends without its program having run, are reached
 by ordinary writes of the debugger and steps of the harts.
 */
module HandshakeRuns {
  import opened Common
  import opened DmState
  import opened Handshake

  const HALTREQ := 0x8000_0000
  const RESUMEREQ := 0x4000_0000

  /** The value of dmcontrol that selects the first or the second hart, with some requests. */
  predicate Selects(cfg: Config, value: u32, k: nat)
    requires |cfg.hartids| > 0
  {
    Bit(value, 1) && !Bit(value, 0x400_0000) && HartselOf(cfg, value) == k
  }

  /** One more event. */
  lemma {:induction false} RunSnoc(cfg: Config, s: Sys, es: seq<Event>, e: Event)
    requires WfSys(cfg, s) && SteadyRun(cfg, s, es) && Steady(cfg, Run(cfg, s, es), e)
    ensures WfSys(cfg, Step(cfg, Run(cfg, s, es), e))
    ensures SteadyRun(cfg, s, es + [e]) && Run(cfg, s, es + [e]) == Step(cfg, Run(cfg, s, es), e)
    decreases |es|
  {
    hide WfSys, Step, Steady;
    StepWf(cfg, Run(cfg, s, es), e);
    if es == [] {
      assert [] + [e] == [e] && [e][1..] == [];
    } else {
      StepWf(cfg, s, es[0]);
      assert (es + [e])[1..] == es[1..] + [e];
      RunSnoc(cfg, Step(cfg, s, es[0]), es[1..], e);
    }
  }

  // ---- what a write of dmcontrol does ----

  /** The requests to hart `h`, and nothing to another. */
  ghost predicate Requested(dm: Dm, dm': Dm, h: nat) {
    h < |dm.haltRequest| && h < |dm.flags| && |dm'.harts| == |dm.harts| &&
    dm'.control == dm.control && dm'.busy == dm.busy && dm'.cmderr == dm.cmderr &&
    dm'.haltRequest == dm.haltRequest[h := dm.control.haltreq] &&
    dm'.flags == (if dm.control.resumereq then dm.flags[h := dm.flags[h].(resume := true)] else dm.flags) &&
    forall k :: 0 <= k < |dm.harts| ==> dm'.harts[k].halted == dm.harts[k].halted
  }

  lemma RequestTwice(a: Dm, b: Dm, c: Dm, h: nat)
    requires Requested(a, b, h) && Requested(b, c, h)
    ensures Requested(a, c, h)
  {
  }

  lemma RequestHere(cfg: Config, dm: Dm, ack: bool, h: nat)
    requires Wf(cfg, dm) && !dm.control.hasel && h == Sel(cfg, dm)
    ensures h < |dm.harts| && Requested(dm, RequestOne(cfg, dm, ack, h), h)
  {
  }

  lemma RequestElsewhere(cfg: Config, dm: Dm, ack: bool, id: nat)
    requires Wf(cfg, dm) && !dm.control.hasel && id < |dm.harts| && id != Sel(cfg, dm)
    ensures RequestOne(cfg, dm, ack, id) == dm
  {
  }

  lemma {:induction false} RequestOnly(cfg: Config, dm: Dm, ack: bool, n: nat)
    requires Wf(cfg, dm) && !dm.control.hasel && n <= |cfg.hartids|
    ensures var dm' := RequestAll(cfg, dm, ack, n);
            dm'.control == dm.control && (dm.control.hartsel < n ==> Requested(dm, dm', Sel(cfg, dm))) &&
            (Requested(dm, dm', Sel(cfg, dm)) || dm' == dm)
  {
    hide Requested, Wf, RequestOne;
    if n > 0 {
      RequestOnly(cfg, dm, ack, n - 1);
      var dm1, h, id := RequestAll(cfg, dm, ack, n - 1), Sel(cfg, dm), cfg.hartids[n - 1];
      SelIs(cfg, dm, dm1);
      HartAt(cfg, dm1, n - 1);
      if id == h {
        RequestHere(cfg, dm1, ack, h);
        if dm1 != dm {
          RequestTwice(dm, dm1, RequestOne(cfg, dm1, ack, h), h);
        }
      } else {
        RequestElsewhere(cfg, dm1, ack, id);
      }
    }
  }

  lemma SelIs(cfg: Config, dm: Dm, dm': Dm)
    requires Wf(cfg, dm) && Wf(cfg, dm') && dm'.control == dm.control
    ensures Sel(cfg, dm') == Sel(cfg, dm) == cfg.hartids[dm.control.hartsel]
  {
  }

  lemma HartAt(cfg: Config, dm: Dm, k: nat)
    requires Wf(cfg, dm) && k < |cfg.hartids|
    ensures cfg.hartids[k] < |dm.harts|
  {
  }

  /** A write of dmcontrol that selects hart number `k` while the module is active and no command is executing. */
  ghost predicate Wrote(cfg: Config, s: Sys, s': Sys, value: u32, k: nat)
    requires WfSys(cfg, s) && WfSys(cfg, s') && k < |cfg.hartids|
  {
    var h := cfg.hartids[k];
    s'.pcs == s.pcs && |s'.dm.harts| == |s.dm.harts| && !s'.dm.busy && s'.dm.cmderr == s.dm.cmderr &&
    s'.dm.control.dmactive && s'.dm.control.hartsel == k &&
    s'.dm.haltRequest == s.dm.haltRequest[h := Bit(value, HALTREQ)] &&
    s'.dm.flags == (if Bit(value, RESUMEREQ) then s.dm.flags[h := s.dm.flags[h].(resume := true)] else s.dm.flags) &&
    forall i :: 0 <= i < |s.dm.harts| ==> s'.dm.harts[i].halted == s.dm.harts[i].halted
  }

  lemma WriteControl(cfg: Config, s: Sys, value: u32, k: nat)
    requires WfSys(cfg, s) && !s.dm.busy && s.dm.control.dmactive && Selects(cfg, value, k)
    ensures var s' := Step(cfg, s, Write(DM_DMCONTROL, value));
            WfSys(cfg, s') && k < |cfg.hartids| && Wrote(cfg, s, s', value, k)
  {
    StepWf(cfg, s, Write(DM_DMCONTROL, value));
    WriteWf(cfg, s.dm, DM_DMCONTROL, value);
    hide Bit, HartselOf, RequestAll;
    ControlSelects(cfg, value);
    var dm1 := s.dm.(control := ControlOf(cfg, value));
    RequestOnly(cfg, dm1, Bit(value, 0x1000_0000), |cfg.hartids|);
  }

  /** Switching the module off and on again resets it. */
  ghost predicate Off(cfg: Config, s: Sys, s': Sys)
    requires WfSys(cfg, s)
  {
    WfSys(cfg, s') && s'.pcs == s.pcs && s'.dm == s.dm.(control := s.dm.control.(dmactive := false)) && s'.log == s.log
  }

  lemma WriteOff(cfg: Config, s: Sys)
    requires WfSys(cfg, s)
    ensures Off(cfg, s, Step(cfg, s, Write(DM_DMCONTROL, 0))) && Steady(cfg, s, Write(DM_DMCONTROL, 0))
  {
    StepWf(cfg, s, Write(DM_DMCONTROL, 0));
  }

  ghost predicate Fresh(cfg: Config, s: Sys, s': Sys)
    requires WfSys(cfg, s)
  {
    WfSys(cfg, s') && s'.pcs == s.pcs && s'.log == s.log && |s'.dm.harts| == |s.dm.harts| &&
    !s'.dm.busy && s'.dm.cmderr == CMDERR_NONE && s'.dm.control.dmactive && s'.dm.control.hartsel == 0 &&
    s'.dm.flags == s.dm.flags && (forall i :: 0 <= i < |s'.dm.haltRequest| ==> !s'.dm.haltRequest[i]) &&
    forall i :: 0 <= i < |s.dm.harts| ==> s'.dm.harts[i].halted == s.dm.harts[i].halted
  }

  lemma WriteOn(cfg: Config, s: Sys)
    requires WfSys(cfg, s) && !s.dm.control.dmactive
    ensures Fresh(cfg, s, Step(cfg, s, Write(DM_DMCONTROL, 1)))
  {
    hide RequestAll, Put, Word, PerformF, AfterAccess;
    StepWf(cfg, s, Write(DM_DMCONTROL, 1));
    WriteWf(cfg, s.dm, DM_DMCONTROL, 1);
    ControlSelects(cfg, 1);
    SelectsFirst(cfg);
    ResetWf(cfg, s.dm, ControlOf(cfg, 1));
    var dm1 := ResetF(s.dm).(control := ControlOf(cfg, 1));
    RequestOnly(cfg, dm1, false, |cfg.hartids|);
  }

  lemma SelectsFirst(cfg: Config)
    requires |cfg.hartids| > 0
    ensures Selects(cfg, 1, 0) && Selects(cfg, 0x8000_0001, 0) && Selects(cfg, 0x4000_0001, 0)
    ensures !Bit(1, HALTREQ) && !Bit(1, RESUMEREQ) && Bit(0x8000_0001, HALTREQ) && !Bit(0x8000_0001, RESUMEREQ)
    ensures !Bit(0x4000_0001, HALTREQ) && Bit(0x4000_0001, RESUMEREQ)
  {
  }

  lemma SelectsSecond(cfg: Config)
    requires |cfg.hartids| > 1
    ensures Selects(cfg, 0x8001_0001, 1) && Bit(0x8001_0001, HALTREQ) && !Bit(0x8001_0001, RESUMEREQ)
  {
    assert 0x8001_0001 / 0x40 % 0x400 == 0 && 0x8001_0001 / 0x1_0000 % 0x400 == 1;
    assert 0x8001_0001 / 0x400_0000 % 2 == 0 && 0x8001_0001 % 2 == 1;
    assert 0x8001_0001 / 0x8000_0000 == 1 && 0x8001_0001 / 0x4000_0000 == 2;
  }

  /** Resetting the module while GO is pending ends the command without its program having run. */
  lemma ResetMatters(cfg: Config, s: Sys)
    requires Inv(cfg, s) && s.dm.busy && s.dm.flags[Sel(cfg, s.dm)].go
    ensures var t := Run(cfg, s, [Write(DM_DMCONTROL, 0), Write(DM_DMCONTROL, 1)]);
            !t.dm.busy && t.log.runs == [] && |t.dm.flags| == FLAGS && t.dm.flags[Sel(cfg, s.dm)].go
  {
    hide Run, WriteF, Step, Held, Bit;
    InvWf(cfg, s);
    WriteOff(cfg, s);
    var s1 := Step(cfg, s, Write(DM_DMCONTROL, 0));
    WriteOn(cfg, s1);
    RunTwo(cfg, s, Write(DM_DMCONTROL, 0), Write(DM_DMCONTROL, 1));
  }

  lemma RunTwo(cfg: Config, s: Sys, a: Event, b: Event)
    requires WfSys(cfg, s)
    ensures WfSys(cfg, Step(cfg, s, a)) && Run(cfg, s, [a, b]) == Step(cfg, Step(cfg, s, a), b)
  {
    hide WfSys, Step;
    StepWf(cfg, s, a);
    var s1 := Step(cfg, s, a);
    StepWf(cfg, s1, b);
    assert [a, b][1..] == [b] && [b][1..] == [];
    assert Run(cfg, s1, [b]) == Run(cfg, Step(cfg, s1, b), []);
  }

  // ---- steps on the way ----

  /** Hart `k` has moved to `pc`; of the module only what it reports of that hart may have changed. */
  ghost predicate Moved(cfg: Config, s: Sys, s': Sys, k: nat, pc: Pc)
    requires WfSys(cfg, s)
  {
    WfSys(cfg, s') && k < |s.pcs| && s'.pcs == s.pcs[k := pc] && s'.dm.control == s.dm.control &&
      s'.dm.busy == s.dm.busy &&
    s'.dm.cmderr == s.dm.cmderr && s'.dm.flags == s.dm.flags && s'.dm.haltRequest == s.dm.haltRequest &&
    |s'.dm.harts| == |s.dm.harts| &&
    forall i :: 0 <= i < |s.dm.harts| ==>
      s'.dm.harts[i].halted == (s.dm.harts[i].halted || (i == k && s.pcs[k] == Entry))
  }

  /** Where a hart goes next that is asked to halt, or finds GO clear. */
  function NextPc(s: Sys, k: nat): Pc
    requires k < |s.pcs| && k < |s.dm.flags|
  {
    match s.pcs[k]
    case Running => Entry
    case Entry => LookGo
    case LookGo => LookResume
    case LookResume => if s.dm.flags[k].resume then Resuming else Entry
    case pc => pc
  }

  lemma HartMoves(cfg: Config, s: Sys, k: nat)
    requires WfSys(cfg, s) && k in cfg.hartids && k < |s.pcs| && s.pcs[k] in {Running, Entry, LookGo, LookResume}
    requires |s.dm.haltRequest| == |s.pcs| && (s.pcs[k] == Running ==> s.dm.haltRequest[k])
    requires k < |s.dm.flags| && !s.dm.flags[k].go
    ensures Moved(cfg, s, Step(cfg, s, Hart(k, Proceed)), k, NextPc(s, k)) && Steady(cfg, s, Hart(k, Proceed))
  {
    HartWf(cfg, s, k, Proceed);
  }

  lemma Calm(cfg: Config, s: Sys, e: Event)
    requires WfSys(cfg, s) && !s.dm.busy
    ensures Steady(cfg, s, e)
  {
    hide Resets, Bit, HartselOf;
  }

  /** A command without a transfer, for a halted hart: GO is set. */
  lemma WriteCommand(cfg: Config, s: Sys)
    requires WfSys(cfg, s) && !s.dm.busy && s.dm.cmderr == CMDERR_NONE && s.dm.harts[Sel(cfg, s.dm)].halted
    ensures var s' := Step(cfg, s, Write(DM_COMMAND, 0));
            WfSys(cfg, s') && s'.pcs == s.pcs && s'.dm.busy && !s'.dm.completed && s'.dm.rti == cfg.rti &&
            s'.dm.control == s.dm.control && s'.dm.haltRequest == s.dm.haltRequest &&
            Sel(cfg, s.dm) < |s'.dm.flags| && s'.dm.flags[Sel(cfg, s.dm)].go
  {
    StepWf(cfg, s, Write(DM_COMMAND, 0));
    WriteWf(cfg, s.dm, DM_COMMAND, 0);
    EmptyProgram(cfg);
    ProgramFits(cfg, 0);
    hide Program, Put;
  }

  lemma EmptyProgram(cfg: Config)
    ensures Program(cfg, 0) == ([Ebreak], Ready) && !Bit(0, 0x1_0000)
  {
  }

  // ---- runs ----

  lemma Lengths(cfg: Config, s: Sys)
    requires WfSys(cfg, s)
    ensures |s.dm.flags| == FLAGS && |s.pcs| == |s.dm.harts| == |s.dm.haltRequest| <= FLAGS && |cfg.hartids| > 0
    ensures forall k :: 0 <= k < |cfg.hartids| ==> cfg.hartids[k] < |s.pcs| && cfg.hartids[k] in cfg.hartids
    ensures s.dm.control.hartsel < |cfg.hartids| && Sel(cfg, s.dm) == cfg.hartids[s.dm.control.hartsel]
  {
  }

  /** The run made longer by an event while no command is executing. */
  lemma More(cfg: Config, s: Sys, es: seq<Event>, e: Event) returns (es': seq<Event>)
    requires WfSys(cfg, s) && SteadyRun(cfg, s, es) && !Run(cfg, s, es).dm.busy
    ensures es' == es + [e] && SteadyRun(cfg, s, es') && Run(cfg, s, es') == Step(cfg, Run(cfg, s, es), e)
  {
    hide *;
    Calm(cfg, Run(cfg, s, es), e);
    RunSnoc(cfg, s, es, e);
    es' := es + [e];
  }

  /** The module is active without an error and no command is executing; no flag is set; hart number `k` is selected. */
  ghost predicate Clear(cfg: Config, s: Sys, k: nat) {
    WfSys(cfg, s) && !s.dm.busy && s.dm.cmderr == CMDERR_NONE && s.dm.control.dmactive && s.dm.control.hartsel == k &&
    forall i :: 0 <= i < FLAGS ==> s.dm.flags[i] == Flags(false, false)
  }

  lemma ResetRun(cfg: Config, s: Sys) returns (es: seq<Event>)
    requires Start(cfg, s)
    ensures WfSys(cfg, s) && SteadyRun(cfg, s, es) && Clear(cfg, Run(cfg, s, es), 0) && Run(cfg, s, es).pcs == s.pcs
  {
    hide Run, Step, SteadyRun, Wf, Steady;
    Lengths(cfg, s);
    RunNone(cfg, s);
    WriteOff(cfg, s);
    es := More(cfg, s, [], Write(DM_DMCONTROL, 0));
    WriteOn(cfg, Run(cfg, s, es));
    es := More(cfg, s, es, Write(DM_DMCONTROL, 1));
  }

  lemma RunNone(cfg: Config, s: Sys)
    requires WfSys(cfg, s)
    ensures SteadyRun(cfg, s, []) && Run(cfg, s, []) == s
  {
    hide Step, Wf, Steady;
  }

  /** Asked to halt, hart number `k` goes into the ROM. */
  lemma HaltRun(cfg: Config, s: Sys, es: seq<Event>, value: u32, k: nat) returns (es': seq<Event>)
    requires WfSys(cfg, s) && SteadyRun(cfg, s, es) && Clear(cfg, Run(cfg, s, es), Run(cfg, s, es).dm.control.hartsel)
    requires k < |cfg.hartids| && Selects(cfg, value, k) && Bit(value, HALTREQ) && !Bit(value, RESUMEREQ)
    requires cfg.hartids[k] < |Run(cfg, s, es).pcs| && Run(cfg, s, es).pcs[cfg.hartids[k]] == Running
    ensures SteadyRun(cfg, s, es')
    ensures var t, t', h := Run(cfg, s, es), Run(cfg, s, es'), cfg.hartids[k];
            Clear(cfg, t', k) && t'.pcs == t.pcs[h := Entry] && |t'.dm.harts| == |t.dm.harts| &&
            forall i :: 0 <= i < |t.dm.harts| ==> t'.dm.harts[i].halted == t.dm.harts[i].halted
  {
    hide Run, Step, SteadyRun, Wf, Steady, Bit, Selects;
    var t, h := Run(cfg, s, es), cfg.hartids[k];
    Lengths(cfg, t);
    WriteControl(cfg, t, value, k);
    es' := More(cfg, s, es, Write(DM_DMCONTROL, value));
    var t1 := Run(cfg, s, es');
    Lengths(cfg, t1);
    HartMoves(cfg, t1, h);
    es' := More(cfg, s, es', Hart(h, Proceed));
  }

  /** A hart at the entry of the ROM reports itself halted, and looks for GO. */
  lemma ReportRun(cfg: Config, s: Sys, es: seq<Event>, h: nat) returns (es': seq<Event>)
    requires WfSys(cfg, s) && SteadyRun(cfg, s, es) && Clear(cfg, Run(cfg, s, es), Run(cfg, s, es).dm.control.hartsel)
    requires h in cfg.hartids && h < |Run(cfg, s, es).pcs| && Run(cfg, s, es).pcs[h] == Entry
    ensures SteadyRun(cfg, s, es')
    ensures var t, t' := Run(cfg, s, es), Run(cfg, s, es');
            Clear(cfg, t', t.dm.control.hartsel) && t'.pcs == t.pcs[h := LookGo] && h < |t'.dm.harts| &&
              t'.dm.harts[h].halted
  {
    hide Run, Step, SteadyRun, Wf, Steady;
    var t := Run(cfg, s, es);
    Lengths(cfg, t);
    HartMoves(cfg, t, h);
    es' := More(cfg, s, es, Hart(h, Proceed));
  }

  /** The first hart halted, and looking for GO; the others are running. */
  lemma FirstHalted(cfg: Config, s: Sys) returns (es: seq<Event>)
    requires Start(cfg, s)
    ensures WfSys(cfg, s) && SteadyRun(cfg, s, es) && |cfg.hartids| > 0
    ensures var t, h := Run(cfg, s, es), cfg.hartids[0];
            Clear(cfg, t, 0) && h < |t.pcs| == |t.dm.harts| && t.pcs == s.pcs[h := LookGo] && t.dm.harts[h].halted
  {
    hide Run, Step, SteadyRun, Wf, Steady, Clear, Bit, Selects;
    Lengths(cfg, s);
    SelectsFirst(cfg);
    var h := cfg.hartids[0];
    es := ResetRun(cfg, s);
    ClearIs(cfg, Run(cfg, s, es), 0);
    es := HaltRun(cfg, s, es, 0x8000_0001, 0);
    ClearIs(cfg, Run(cfg, s, es), 0);
    es := ReportRun(cfg, s, es, h);
    ClearIs(cfg, Run(cfg, s, es), 0);
    Lengths(cfg, Run(cfg, s, es));
  }

  lemma ClearIs(cfg: Config, s: Sys, k: nat)
    requires Clear(cfg, s, k)
    ensures WfSys(cfg, s) && !s.dm.busy && s.dm.control.hartsel == k && s.dm.control.dmactive
  {
    hide Wf;
  }

  /**
   A hart that has looked at its resume flag is still reported as halted: a command issued to it then finds it gone,
   and by CannotFinish never ends unless the hart is halted again.
   */
  lemma GoneIsReachable(cfg: Config, s: Sys) returns (es: seq<Event>)
    requires Start(cfg, s)
    ensures WfSys(cfg, s) && SteadyRun(cfg, s, es) && Inv(cfg, Run(cfg, s, es))
    ensures Run(cfg, s, es).dm.busy && Gone(cfg, Run(cfg, s, es))
  {
    hide Run, Step, SteadyRun, Wf, Steady, Bit, Selects, Inv, Start;
    es := FirstHalted(cfg, s);
    SelectsFirst(cfg);
    Lengths(cfg, s);
    var t, h := Run(cfg, s, es), cfg.hartids[0];
    Lengths(cfg, t);
    HartMoves(cfg, t, h);
    es := More(cfg, s, es, Hart(h, Proceed));
    var t1 := Run(cfg, s, es);
    WriteControl(cfg, t1, 0x4000_0001, 0);
    es := More(cfg, s, es, Write(DM_DMCONTROL, 0x4000_0001));
    var t2 := Run(cfg, s, es);
    Lengths(cfg, t2);
    HartMoves(cfg, t2, h);
    es := More(cfg, s, es, Hart(h, Proceed));
    var t3 := Run(cfg, s, es);
    WriteCommand(cfg, t3);
    es := More(cfg, s, es, Write(DM_COMMAND, 0));
    Lengths(cfg, Run(cfg, s, es));
    StartOk(cfg, s);
    RunKeeps(cfg, s, es);
  }

  /** With two harts a command can be pending while the other one is about to report itself halted. */
  lemma SelectionIsReachable(cfg: Config, s: Sys) returns (es: seq<Event>)
    requires Start(cfg, s) && |cfg.hartids| > 1 && cfg.hartids[0] != cfg.hartids[1]
    ensures WfSys(cfg, s) && SteadyRun(cfg, s, es)
    ensures var t := Run(cfg, s, es);
            Inv(cfg, t) && t.dm.busy && t.dm.control.dmactive && t.dm.rti == cfg.rti &&
            Sel(cfg, t.dm) == cfg.hartids[0] < |t.dm.flags| && t.dm.flags[Sel(cfg, t.dm)].go &&
            cfg.hartids[1] < |t.pcs| && t.pcs[cfg.hartids[1]] == Entry
  {
    hide Run, Step, SteadyRun, Wf, Steady, Bit, Selects, Inv;
    es := FirstHalted(cfg, s);
    SelectsFirst(cfg);
    SelectsSecond(cfg);
    Lengths(cfg, s);
    Lengths(cfg, Run(cfg, s, es));
    es := HaltRun(cfg, s, es, 0x8001_0001, 1);
    var t := Run(cfg, s, es);
    Lengths(cfg, t);
    WriteControl(cfg, t, 1, 0);
    es := More(cfg, s, es, Write(DM_DMCONTROL, 1));
    var t1 := Run(cfg, s, es);
    Lengths(cfg, t1);
    WriteCommand(cfg, t1);
    es := More(cfg, s, es, Write(DM_COMMAND, 0));
    Lengths(cfg, Run(cfg, s, es));
    StartOk(cfg, s);
    RunKeeps(cfg, s, es);
  }
}
