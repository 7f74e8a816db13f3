/**
  Whole-run properties of the firmware: what holds after any number of passes through the main
  loop, with any switch presses, any received bytes and any interrupts in between, up to a reset.
 */
module FirmwareRuns {
  import opened Bytes
  import opened Checksum
  import opened CommandParser
  import opened Duration
  import opened Firmware
  import opened FrameDefs
  import opened TimeSeries

  // ----- The invariant -----

  /** The tables among the packets sent. */
  function Tables(sent: seq<Packet>): seq<Packet>
  {
    if sent == [] then []
    else
      var init, last := sent[..|sent| - 1], sent[|sent| - 1];
      if last.Table? then Tables(init) + [last] else Tables(init)
  }

  lemma TablesSnoc(sent: seq<Packet>, p: Packet)
    ensures Tables(sent + [p]) == if p.Table? then Tables(sent) + [p] else Tables(sent)
  {
    assert (sent + [p])[..|sent|] == sent;
  }

  lemma {:induction false} TablesAreTables(sent: seq<Packet>)
    ensures forall t | t in Tables(sent) :: t.Table?
  {
    if sent != [] {
      TablesAreTables(sent[..|sent| - 1]);
    }
  }

  predicate HasReason(t: Packet, reason: byte) { t.Table? && t.reason == reason }

  /** How much of a block lies inside the parameter buffer. */
  function Inside(block: Room): nat { if ValidLength(block) then block.length else MAX_PARAM_LENGTH }

  /** A table that sends the parameter buffer back, followed by what lies behind it if the length says so. */
  predicate Echoes(d: Device, t: Packet)
  {
    t.Table? && |t.echo| == d.param.length && t.echo[..Inside(d.param)] == d.param.params[..Inside(d.param)]
  }

  /** A table that shows exactly what the device holds. */
  predicate Shows(capacity: nat, d: Device, t: Packet)
  {
    && Echoes(d, t) && t.duration == Elapsed(capacity, d.series)
    && t.data == CellBytes(d.series, TableSize(capacity, d.series) / 2)
    && t.declared == 6 + |t.echo| + |t.data|
  }

  /**
    Intermediate tables, then at `n` the one that closed the measurement, then resends of what the
    device still holds.
   */
  predicate ClosedAt(capacity: nat, d: Device, ts: seq<Packet>, n: nat)
  {
    && n < |ts|
    && (forall i | 0 <= i < n :: HasReason(ts[i], REASON_INTERMEDIATE))
    && (HasReason(ts[n], REASON_DONE) || HasReason(ts[n], REASON_ABORTED))
    && (forall i | n < i < |ts| :: HasReason(ts[i], REASON_RESEND))
    && (forall i | n <= i < |ts| :: Shows(capacity, d, ts[i]))
  }

  ghost predicate TablesFit(capacity: nat, d: Device)
  {
    var ts := Tables(d.sent);
    && (forall i | 0 <= i < |ts| :: Echoes(d, ts[i]))
    && match d.pstate
       case Ready => ts == []
       case Measuring => forall i | 0 <= i < |ts| :: HasReason(ts[i], REASON_INTERMEDIATE)
       case Done => exists n: nat :: ClosedAt(capacity, d, ts, n)
  }

  /** The clockwork in each state. */
  predicate Clockwork(capacity: nat, d: Device)
  {
    match d.pstate
    case Ready => d.interrupts && d.series.Idle? && !d.finished && !d.switchLocked
    case Measuring =>
      && d.interrupts && d.series.Counting? && d.switchLocked && d.series.orig == Value(d.param.params[..2])
      && Feasible(d.series.events, d.series.orig, capacity)
          && d.finished == Full(d.series.events, d.series.orig, capacity)
    case Done =>
      && !d.interrupts && d.series.Counting? && d.switchLocked && d.series.orig == Value(d.param.params[..2])
      && Feasible(d.series.events, d.series.orig, capacity)
  }

  ghost predicate Inv(capacity: nat, d: Device)
  {
    TablesFit(capacity, d) && (!d.reset ==> Clockwork(capacity, d)) && (d.pstate == Done ==> !d.interrupts)
  }

  // ----- Interrupts keep it -----

  lemma InterruptKeeps(capacity: nat, d: Device, irq: Irq)
    requires Clockwork(capacity, d)
    ensures var e := Interrupt(capacity, d, irq);
      && Clockwork(capacity, e) && e == d.(series := e.series, finished := e.finished)
      && (d.pstate != Measuring ==> e == d)
      && (d.finished ==> e.finished) && (d.series.Counting? ==> e.series.orig == d.series.orig)
  {
    hide Ticks, Pending, PerTick;
    if d.pstate == Measuring {
      TicksSnoc(d.series.events, irq);
    }
  }

  lemma {:induction false} InterruptsKeep(capacity: nat, d: Device, irqs: seq<Irq>)
    requires Clockwork(capacity, d)
    ensures var e := Interrupts(capacity, d, irqs);
      && Clockwork(capacity, e) && e == d.(series := e.series, finished := e.finished)
      && (d.pstate != Measuring ==> e == d)
      && (d.finished ==> e.finished) && (d.series.Counting? ==> e.series.orig == d.series.orig)
  {
    if irqs != [] {
      var n := |irqs| - 1;
      InterruptsKeep(capacity, d, irqs[..n]);
      InterruptKeeps(capacity, Interrupts(capacity, d, irqs[..n]), irqs[n]);
    }
  }

  lemma {:induction false} NoInterrupts(capacity: nat, d: Device, irqs: seq<Irq>)
    requires !d.interrupts
    ensures Interrupts(capacity, d, irqs) == d
  {
    if irqs != [] {
      NoInterrupts(capacity, d, irqs[..|irqs| - 1]);
    }
  }

  // ----- Sending keeps it -----

  /** With interrupts off a table shows what the device holds. */
  lemma QuietTable(capacity: nat, d: Device, reason: byte, p: Input) returns (t: Packet)
    requires !d.interrupts && d.series.Counting?
    ensures SendTable(capacity, d, reason, p) == Send(d, t) && Shows(capacity, d, t) && HasReason(t, reason)
  {
    NoInterrupts(capacity, d, p.untilSize);
    NoInterrupts(capacity, d, p.inSize);
    NoInterrupts(capacity, d, p.afterSize);
    NoInterrupts(capacity, d, p.inSecond);
    QuietReading(capacity, d, p.untilSize, p.bytesAt);
    t := SendTable(capacity, d, reason, p).sent[|d.sent|];
    EchoOfValid(d, p);
    TableSizeIsEven(capacity, d.series);
  }

  /** With interrupts off the first two reads agree on the register. */
  lemma QuietReading(capacity: nat, d: Device, irqs: seq<Irq>, bytesAt: seq<nat>)
    requires !d.interrupts
    ensures ReadElapsed(capacity, d, irqs, bytesAt) == Elapsed(capacity, d.series)
  {
    hide Interrupts, Register, Elapsed, U16, ReadRegister;
    forall n: nat | n <= |irqs|
      ensures RegisterAt(capacity, d, irqs, n) == Register(capacity, d.series)
    {
      NoInterrupts(capacity, d, irqs[..n]);
    }
    ConstantRegister(capacity, d, irqs, bytesAt, Register(capacity, d.series));
    ElapsedFromRegister(capacity, d.series);
  }

  lemma ElapsedFromRegister(capacity: nat, s: Clock)
    ensures Elapsed(capacity, s) == if s.Idle? then 0 else U16(s.orig - Register(capacity, s))
  {
    if s.Counting? {
      var c := Countdown(Ticks(s.events), s.orig, capacity);
      assert Register(capacity, s) == U16(c);
      hide Countdown, Ticks;
      SubtractModulo(s.orig, c);
    }
  }

  lemma SubtractModulo(x: nat, c: nat)
    ensures U16(x - U16(c)) == U16(x - c)
  {
    var q := c / 0x1_0000;
    assert x - U16(c) == x - c + q * 0x1_0000;
  }

  lemma EchoOfValid(d: Device, p: Input)
    ensures Echo(d.param, p.beyond)[..Inside(d.param)] == d.param.params[..Inside(d.param)]
  {
  }

  lemma TableSizeIsEven(capacity: nat, s: Clock)
    ensures TableSize(capacity, s) / 2 * 2 == TableSize(capacity, s)
  {
  }

  /** A table sent while measuring lets interrupts in. */
  lemma BusyTable(capacity: nat, d: Device, reason: byte, p: Input) returns (t: Packet)
    requires Clockwork(capacity, d)
    ensures var e := SendTable(capacity, d, reason, p);
      && Clockwork(capacity, e) && HasReason(t, reason) && Echoes(d, t)
      && e == d.(series := e.series, finished := e.finished, sent := d.sent + [t])
  {
    hide Interrupts, Clockwork, TableBytes, SizeRead, ReadElapsed;
    InterruptsKeep(capacity, d, p.untilSize);
    var d1 := Interrupts(capacity, d, p.untilSize);
    InterruptsKeep(capacity, d1, p.inSize);
    var d2 := Interrupts(capacity, d1, p.inSize);
    InterruptsKeep(capacity, d2, p.afterSize);
    var d3 := Interrupts(capacity, d2, p.afterSize);
    InterruptsKeep(capacity, d3, p.inSecond);
    var d4 := Interrupts(capacity, d3, p.inSecond);
    t := SendTable(capacity, d, reason, p).sent[|d.sent|];
    EchoOfValid(d, p);
    ClockworkIgnoresSent(capacity, d4, SendTable(capacity, d, reason, p));
  }

  lemma ClockworkIgnoresSent(capacity: nat, d: Device, e: Device)
    requires Clockwork(capacity, d) && e == d.(sent := e.sent)
    ensures Clockwork(capacity, e)
  {
  }

  /** A message that is no table changes nothing the tables depend on. */
  lemma MessageKeeps(capacity: nat, d: Device, p: Packet)
    requires TablesFit(capacity, d) && !p.Table?
    ensures TablesFit(capacity, Send(d, p))
  {
    TablesSnoc(d.sent, p);
    SameTablesFit(capacity, d, Send(d, p));
  }

  /** Only the state, the tables, the buffer and the measurement matter. */
  lemma SameTablesFit(capacity: nat, d: Device, e: Device)
    requires TablesFit(capacity, d)
    requires e.pstate == d.pstate && Tables(e.sent) == Tables(d.sent)
    requires d.pstate != Ready ==> e.param == d.param
    requires d.pstate == Done ==> e.series == d.series
    ensures TablesFit(capacity, e)
  {
    forall i | 0 <= i < |Tables(e.sent)|
      ensures Echoes(e, Tables(e.sent)[i])
    {
      assert Echoes(d, Tables(d.sent)[i]);
    }
    if d.pstate == Done {
      var n: nat :| ClosedAt(capacity, d, Tables(d.sent), n);
      forall i | n <= i < |Tables(e.sent)|
        ensures Shows(capacity, e, Tables(e.sent)[i])
      {
        assert Shows(capacity, d, Tables(d.sent)[i]);
      }
      assert ClosedAt(capacity, e, Tables(e.sent), n);
    }
  }

  lemma OneMoreEcho(capacity: nat, d: Device, e: Device, t: Packet)
    requires TablesFit(capacity, d) && Echoes(d, t) && e.sent == d.sent + [t] && e.param == d.param
    ensures Tables(e.sent) == Tables(d.sent) + [t]
    ensures forall i | 0 <= i < |Tables(e.sent)| :: Echoes(e, Tables(e.sent)[i])
  {
    TablesSnoc(d.sent, t);
    var ts := Tables(d.sent);
    forall i | 0 <= i < |ts| + 1
      ensures Echoes(e, (ts + [t])[i])
    {
      assert Echoes(d, (ts + [t])[i]);
    }
  }

  /** The table that ends a measurement. */
  lemma ClosingTable(capacity: nat, d: Device, t: Packet)
    requires d.pstate == Measuring && TablesFit(capacity, d)
    requires Shows(capacity, d, t) && (HasReason(t, REASON_DONE) || HasReason(t, REASON_ABORTED))
    ensures TablesFit(capacity, Send(d, t).(pstate := Done))
  {
    var e := Send(d, t).(pstate := Done);
    OneMoreEcho(capacity, d, e, t);
    var n := |Tables(d.sent)|;
    assert Shows(capacity, e, t);
    assert ClosedAt(capacity, e, Tables(e.sent), n);
  }

  lemma ResentTable(capacity: nat, d: Device, t: Packet)
    requires d.pstate == Done && TablesFit(capacity, d) && Shows(capacity, d, t) && HasReason(t, REASON_RESEND)
    ensures TablesFit(capacity, Send(d, t))
  {
    var e := Send(d, t);
    OneMoreEcho(capacity, d, e, t);
    var ts := Tables(d.sent);
    var n: nat :| ClosedAt(capacity, d, ts, n);
    forall i | n <= i < |ts| + 1
      ensures Shows(capacity, e, (ts + [t])[i])
    {
      assert Shows(capacity, d, (ts + [t])[i]);
    }
    assert ClosedAt(capacity, e, Tables(e.sent), n);
  }

  lemma IntermediateTable(capacity: nat, d: Device, e: Device, t: Packet)
    requires d.pstate == Measuring && TablesFit(capacity, d) && HasReason(t, REASON_INTERMEDIATE) && Echoes(d, t)
    requires e.pstate == Measuring && e.sent == d.sent + [t] && e.param == d.param
    ensures TablesFit(capacity, e)
  {
    OneMoreEcho(capacity, d, e, t);
  }

  // ----- Every handler keeps it -----

  lemma FinishedKeeps(capacity: nat, d: Device, p: Input)
    requires Inv(capacity, d) && !d.reset
    ensures var e := HandleFinished(capacity, d, p); Inv(capacity, if e.reset then e else e.(finished := false))
  {
    hide Tables, CellBytes, Interrupts, TablesFit;
    var h := HandleFinished(capacity, d, p);
    var e := if h.reset then h else h.(finished := false);
    if d.pstate == Measuring {
      var q := d.(interrupts := false);
      SameTablesFit(capacity, d, q);
      var t := QuietTable(capacity, q, REASON_DONE, p);
      ClosingTable(capacity, q, t);
      SameTablesFit(capacity, Send(q, t).(pstate := Done), e);
    } else {
      MessageKeeps(capacity, d, Text(MsgInvalidTransition));
      SameTablesFit(capacity, Send(d, Text(MsgInvalidTransition)), e);
    }
  }

  lemma StartKeeps(capacity: nat, d: Device)
    requires Inv(capacity, d) && !d.reset && d.pstate == Ready && capacity > 0
    ensures Inv(capacity, StartMeasurement(d))
  {
    TablesSnoc(d.sent, Text(MsgTimerValue));
    TablesSnoc(d.sent, State(MsgMeasuring));
    var value := Value(d.param.params[..2]);
    if value > 1 {
      FreshTable(value, capacity);
    }
    hide Value, Full, Feasible;
  }

  lemma FreshTable(orig: nat, capacity: nat)
    requires orig > 0 && capacity > 0
    ensures !Full([], orig, capacity) && Feasible([], orig, capacity)
  {
    MulAtLeast(capacity, orig);
    assert orig * capacity == capacity * orig;
  }

  lemma SwitchKeeps(capacity: nat, d: Device)
    requires Inv(capacity, d) && !d.reset && capacity > 0
    ensures Inv(capacity, HandleSwitch(d))
  {
    if d.pstate == Ready {
      var copied := d.(param := d.eeprom);
      if ValidLength(d.eeprom) {
        StartKeeps(capacity, copied);
      } else {
        TablesSnoc(copied.sent, Text(MsgInvalidEeprom));
        TablesSnoc(copied.sent + [Text(MsgInvalidEeprom)], State(MsgReady));
      }
    }
  }

  lemma TwoMessages(sent: seq<Packet>, p: Packet, q: Packet)
    requires !p.Table? && !q.Table?
    ensures Tables(sent + [p]) == Tables(sent) && Tables(sent + [p] + [q]) == Tables(sent)
  {
    TablesSnoc(sent, p);
    TablesSnoc(sent + [p], q);
  }

  lemma ReadyKeeps(capacity: nat, d: Device, cmd: byte)
    requires Inv(capacity, d) && !d.reset && d.pstate == Ready && capacity > 0
    ensures Inv(capacity, HandleReady(d, cmd))
  {
    hide Tables, StartMeasurement;
    StartKeeps(capacity, d);
    TwoMessages(d.sent, Info, State(MsgReady));
    TwoMessages(d.sent, State(MsgReady), State(MsgReady));
    TwoMessages(d.sent, State(MsgParamsToEeprom), State(MsgReady));
    TwoMessages(d.sent, Text(MsgInvalidEeprom), State(MsgReady));
    if ValidLength(d.eeprom) {
      TwoMessages(d.sent, EepromParams(d.eeprom.params[..d.eeprom.length]), State(MsgReady));
    }
    TwoMessages(d.sent, State(MsgReset), State(MsgReset));
    TwoMessages(d.sent, Text(MsgError), State(MsgReady));
  }

  lemma MeasuringKeeps(capacity: nat, d: Device, cmd: byte, p: Input)
    requires Inv(capacity, d) && !d.reset && d.pstate == Measuring
    ensures Inv(capacity, HandleMeasuring(capacity, d, cmd, p))
  {
    hide Tables, CellBytes, Interrupts, TablesFit, SendTable;
    var e := HandleMeasuring(capacity, d, cmd, p);
    if cmd == CMD_INTERMEDIATE {
      var t := BusyTable(capacity, d, REASON_INTERMEDIATE, p);
      var f := SendTable(capacity, d, REASON_INTERMEDIATE, p);
      IntermediateTable(capacity, d, f, t);
      MessageKeeps(capacity, f, State(MsgMeasuring));
    } else if cmd == CMD_ABORT {
      AbortKeeps(capacity, d, p);
    } else {
      TwoMessages(d.sent, Info, State(MsgMeasuring));
      TwoMessages(d.sent, State(MsgMeasuring), State(MsgMeasuring));
      TwoMessages(d.sent, Text(MsgError), State(MsgMeasuring));
      SameTablesFit(capacity, d, e);
    }
  }

  lemma AbortKeeps(capacity: nat, d: Device, p: Input)
    requires Inv(capacity, d) && !d.reset && d.pstate == Measuring
    ensures Inv(capacity, HandleMeasuring(capacity, d, CMD_ABORT, p))
  {
    hide Tables, CellBytes, Interrupts, TablesFit, SendTable;
    var q := Send(d, State(MsgDone)).(interrupts := false);
    TwoMessages(d.sent, State(MsgDone), State(MsgDone));
    SameTablesFit(capacity, d, q);
    var t := QuietTable(capacity, q, REASON_ABORTED, p);
    ClosingTable(capacity, q, t);
    MessageKeeps(capacity, Send(q, t).(pstate := Done), State(MsgDone));
  }

  lemma DoneKeeps(capacity: nat, d: Device, cmd: byte, p: Input)
    requires Inv(capacity, d) && !d.reset && d.pstate == Done
    ensures Inv(capacity, HandleDone(capacity, d, cmd, p))
  {
    hide Tables, CellBytes, Interrupts, TablesFit, SendTable;
    var e := HandleDone(capacity, d, cmd, p);
    if cmd == CMD_PERSONALITY_INFO || cmd == CMD_STATE || cmd == CMD_RESET {
      TwoMessages(d.sent, Info, State(MsgDone));
      TwoMessages(d.sent, State(MsgDone), State(MsgDone));
      TwoMessages(d.sent, State(MsgReset), State(MsgDone));
      SameTablesFit(capacity, d, e);
    } else {
      var t := QuietTable(capacity, d, REASON_RESEND, p);
      ResentTable(capacity, d, t);
      MessageKeeps(capacity, Send(d, t), State(MsgDone));
    }
  }

  lemma CommandKeeps(capacity: nat, d: Device, cmd: byte, p: Input)
    requires Inv(capacity, d) && !d.reset && capacity > 0
    ensures Inv(capacity, HandleCommand(capacity, d, cmd, p))
  {
    match d.pstate
    case Ready => ReadyKeeps(capacity, d, cmd);
    case Measuring => MeasuringKeeps(capacity, d, cmd, p);
    case Done => DoneKeeps(capacity, d, cmd, p);
  }

  lemma TakeGrows(r: Receiver, u: byte)
    ensures var t := Take(PARAM_SIZE, r, u);
            t.calls == r.calls || (t.raw == [] && |t.calls| == |r.calls| + 1 && t.calls[..|r.calls|] == r.calls)
  {
  }

  lemma ByteKeeps(capacity: nat, d: Device, u: byte, p: Input)
    requires Inv(capacity, d) && !d.reset && capacity > 0
    ensures Inv(capacity, HandleByte(capacity, d, u, p))
  {
    TakeGrows(Parser(d), u);
    hide Tables, TablesFit, Take, HandleCommand;
    var t := Take(PARAM_SIZE, Parser(d), u);
    var stored := d.(param := StoreParam(d, u), raw := t.raw, calls := t.calls);
    SameTablesFit(capacity, d, stored);
    if t.calls != d.calls {
      CommandKeeps(capacity, stored, t.calls[|t.calls| - 1].cmd, p);
    } else {
      MessageKeeps(capacity, stored, Text(MsgLength));
      MessageKeeps(capacity, stored, Text(MsgChecksum));
    }
  }

  lemma StepKeeps(capacity: nat, d: Device, p: Input)
    requires Inv(capacity, d) && capacity > 0
    ensures Inv(capacity, Step(capacity, d, p))
  {
    hide TablesFit, Clockwork, Interrupts, HandleFinished, HandleSwitch, HandleByte;
    if !d.reset {
      InterruptsKeep(capacity, d, p.early);
      var d0 := Interrupts(capacity, d, p.early);
      InterruptsKeep(capacity, d0, p.middle);
      var d1 := Interrupts(capacity, d0, p.middle);
      SameTablesFit(capacity, d, d1);
      FinishedKeeps(capacity, d1, p);
      SwitchKeeps(capacity, d1);
      if p.rx != [] {
        ByteKeeps(capacity, d1, p.rx[0], p);
      }
    }
  }

  lemma BootFits(capacity: nat, eeprom: Room)
    ensures Inv(capacity, Boot(eeprom))
  {
    TablesSnoc([], Info);
    TablesSnoc([Info], State(MsgReady));
    assert [] + [Info] == [Info] && [Info] + [State(MsgReady)] == [Info, State(MsgReady)];
  }

  lemma {:induction false} RunKeeps(capacity: nat, d: Device, passes: seq<Input>)
    requires Inv(capacity, d) && capacity > 0
    ensures Inv(capacity, Run(capacity, d, passes))
  {
    hide Inv, Step;
    if passes != [] {
      var n := |passes| - 1;
      RunKeeps(capacity, d, passes[..n]);
      StepKeeps(capacity, Run(capacity, d, passes[..n]), passes[n]);
    }
  }

  // ----- Reasons of the tables sent -----

  /** A resend carries the first table's payload again, with the reason changed. */
  predicate Repeats(first: Packet, again: Packet)
  {
    && first.Table? && again.Table?
    && again == first.(reason := REASON_RESEND, echo := again.echo)
    && |again.echo| == |first.echo| && (|first.echo| <= MAX_PARAM_LENGTH ==> again.echo == first.echo)
  }

  /** I* and, once the measurement is over, exactly one of D and A followed by R*. */
  predicate Grammar(ts: seq<Packet>, over: bool, n: nat)
  {
    && n <= |ts| && (over <==> n < |ts|)
    && (forall i | 0 <= i < n :: HasReason(ts[i], REASON_INTERMEDIATE))
    && (over ==> HasReason(ts[n], REASON_DONE) || HasReason(ts[n], REASON_ABORTED))
    && (forall i | n < i < |ts| :: Repeats(ts[n], ts[i]))
    && (over ==> ts[n].declared == 6 + |ts[n].echo| + |ts[n].data|)
  }

  /**
    Between two resets, in every interleaving of interrupts, switch and commands: the tables sent
    are intermediate ones, then at most one that ends the measurement, then repetitions of it;
    and once it is over interrupts stay off.
   */
  lemma ReasonGrammar(capacity: nat, eeprom: Room, passes: seq<Input>) returns (n: nat)
    requires capacity > 0
    ensures var d := Run(capacity, Boot(eeprom), passes);
      && Grammar(Tables(d.sent), d.pstate == Done, n)
      && (d.pstate == Ready ==> Tables(d.sent) == [])
      && (d.pstate == Done ==> !d.interrupts)
  {
    hide Run, Tables, Boot, Clockwork;
    BootFits(capacity, eeprom);
    RunKeeps(capacity, Boot(eeprom), passes);
    var d := Run(capacity, Boot(eeprom), passes);
    var ts := Tables(d.sent);
    if d.pstate == Done {
      n :| ClosedAt(capacity, d, ts, n);
      forall i | n < i < |ts|
        ensures Repeats(ts[n], ts[i])
      {
        assert Shows(capacity, d, ts[n]) && Shows(capacity, d, ts[i]) && HasReason(ts[i], REASON_RESEND);
      }
      assert Shows(capacity, d, ts[n]);
    } else {
      n := |ts|;
    }
  }

  // ----- The finish flag -----

  /**
    A measurement that the timer finishes while it is being aborted: the device still answers the
    abort, and resets itself in the next pass; without that race it waits for the next command.
   */
  lemma AbortRace(capacity: nat, d: Device, p: Input, next: Input)
    requires Inv(capacity, d) && !d.reset && d.pstate == Measuring
    ensures var e := HandleMeasuring(capacity, d, CMD_ABORT, p);
      && e.pstate == Done && !e.reset && !e.interrupts
      && (d.finished ==>
          && Step(capacity, e, next).reset
          && Step(capacity, e, next).sent == e.sent + [Text(MsgInvalidTransition)])
      && (!d.finished && next.rx == [] ==> Step(capacity, e, next) == e)
  {
    hide SendTable, Interrupts, TablesFit;
    AbortKeeps(capacity, d, p);
    var q := Send(d, State(MsgDone)).(interrupts := false);
    var t := QuietTable(capacity, q, REASON_ABORTED, p);
    var e := HandleMeasuring(capacity, d, CMD_ABORT, p);
    NoInterrupts(capacity, e, next.early);
    NoInterrupts(capacity, e, next.middle);
  }

  /** In Done the device resets exactly on a pending finish flag or on the reset command. */
  lemma DoneResets(capacity: nat, d: Device, p: Input)
    requires Inv(capacity, d) && !d.reset && d.pstate == Done
    ensures Step(capacity, d, p).reset <==>
              d.finished || (p.rx != [] && Take(PARAM_SIZE, Receiver(d.raw, []), p.rx[0]).calls != []
                             && d.raw[4] == CMD_RESET)
  {
    hide Interrupts, TablesFit, SendTable, Sum;
    NoInterrupts(capacity, d, p.early);
    NoInterrupts(capacity, d, p.middle);
    if !d.finished && p.rx != [] {
      TakeIgnoresCalls(Parser(d), p.rx[0]);
      var t := Take(PARAM_SIZE, Parser(d), p.rx[0]);
      var stored := d.(param := StoreParam(d, p.rx[0]), raw := t.raw, calls := t.calls);
      var table := QuietTable(capacity, stored, REASON_RESEND, p);
    }
  }

  lemma TakeIgnoresCalls(r: Receiver, u: byte)
    ensures var t, s := Take(PARAM_SIZE, r, u), Take(PARAM_SIZE, Receiver(r.raw, []), u);
      && t.raw == s.raw && t.calls == r.calls + s.calls
      && (s.calls != [] ==> |r.raw| >= 6 && |s.calls| == 1 && s.calls[0].cmd == r.raw[4])
  {
  }

  function Parser(d: Device): Receiver { Receiver(d.raw, d.calls) }

  /** What no table changes. */
  function Kept(d: Device): (Receiver, Room) { (Parser(d), d.param) }

  /** No command handler touches the parser; after Ready none touches the parameter buffer. */
  lemma CommandFrame(capacity: nat, d: Device, cmd: byte, p: Input)
    ensures var e := HandleCommand(capacity, d, cmd, p);
      Parser(e) == Parser(d) && (d.pstate != Ready ==> e.param == d.param && e.pstate != Ready)
  {
    hide HandleReady, HandleMeasuring, HandleDone;
    ReadyFrame(d, cmd);
    MeasuringFrame(capacity, d, cmd, p);
    DoneFrame(capacity, d, cmd, p);
  }

  lemma ReadyFrame(d: Device, cmd: byte)
    ensures Parser(HandleReady(d, cmd)) == Parser(d)
  {
    hide Value;
    if cmd == CMD_MEASURE {
      assert Parser(StartMeasurement(d)) == Parser(d);
    }
  }

  lemma MeasuringFrame(capacity: nat, d: Device, cmd: byte, p: Input)
    ensures var e := HandleMeasuring(capacity, d, cmd, p);
      Kept(e) == Kept(d) && (d.pstate != Ready ==> e.pstate != Ready)
  {
    hide SendTable;
    if cmd == CMD_INTERMEDIATE {
      SendTableFrame(capacity, d, REASON_INTERMEDIATE, p);
    } else if cmd == CMD_ABORT {
      SendTableFrame(capacity, Send(d, State(MsgDone)).(interrupts := false), REASON_ABORTED, p);
    }
  }

  lemma DoneFrame(capacity: nat, d: Device, cmd: byte, p: Input)
    ensures var e := HandleDone(capacity, d, cmd, p);
      Kept(e) == Kept(d) && e.pstate == d.pstate
  {
    hide SendTable;
    if cmd != CMD_PERSONALITY_INFO && cmd != CMD_STATE && cmd != CMD_RESET {
      SendTableFrame(capacity, d, REASON_RESEND, p);
    }
  }

  lemma FinishedFrame(capacity: nat, d: Device, p: Input)
    ensures var e := HandleFinished(capacity, d, p);
      Parser(e) == Parser(d) && (d.pstate != Ready ==> e.param == d.param && e.pstate != Ready)
  {
    hide SendTable;
    SendTableFrame(capacity, d.(interrupts := false), REASON_DONE, p);
  }

  /** A byte moves the parser exactly as the reference does, whatever the handler does. */
  lemma ByteFrame(capacity: nat, d: Device, u: byte, p: Input)
    ensures var e := HandleByte(capacity, d, u, p);
      Parser(e) == Take(PARAM_SIZE, Parser(d), u)
      && (d.pstate != Ready ==> e.param == d.param && e.pstate != Ready)
  {
    TakeGrows(Parser(d), u);
    hide Take, HandleCommand;
    var t := Take(PARAM_SIZE, Parser(d), u);
    var stored := d.(param := StoreParam(d, u), raw := t.raw, calls := t.calls);
    if t.calls != d.calls {
      CommandFrame(capacity, stored, t.calls[|t.calls| - 1].cmd, p);
    }
  }

  lemma StepFreezesParams(capacity: nat, d: Device, p: Input)
    requires d.pstate != Ready
    ensures var e := Step(capacity, d, p); e.param == d.param && e.pstate != Ready
  {
    hide Interrupts, HandleByte, HandleFinished;
    InterruptsFrame(capacity, d, p.early);
    var d0 := Interrupts(capacity, d, p.early);
    InterruptsFrame(capacity, d0, p.middle);
    var d1 := Interrupts(capacity, d0, p.middle);
    FinishedFrame(capacity, d1, p);
    if p.rx != [] {
      ByteFrame(capacity, d1, p.rx[0], p);
    }
  }

  // ----- The parser inside the loop -----

  /** Finish events, switch presses and interrupts never disturb the parser. */
  lemma StepParses(capacity: nat, d: Device, p: Input)
    ensures var e := Step(capacity, d, p);
      Parser(e) == TakeAll(PARAM_SIZE, Parser(d), Consumed(capacity, d, p))
  {
    hide Interrupts, HandleByte, HandleFinished, Take;
    var r := Parser(d);
    InterruptsFrame(capacity, d, p.early);
    var d0 := Interrupts(capacity, d, p.early);
    InterruptsFrame(capacity, d0, p.middle);
    var d1 := Interrupts(capacity, d0, p.middle);
    FinishedFrame(capacity, d1, p);
    if p.rx != [] {
      ByteFrame(capacity, d1, p.rx[0], p);
      TakeSnoc(PARAM_SIZE, r, [], p.rx[0]);
      assert [] + [p.rx[0]] == p.rx;
    }
  }

  /** Over any run the loop parses exactly the bytes it takes from the UART, as the reference parser does. */
  lemma {:induction false} RunParses(capacity: nat, d: Device, passes: seq<Input>)
    ensures var e := Run(capacity, d, passes);
      Parser(e) == TakeAll(PARAM_SIZE, Parser(d), AllConsumed(capacity, d, passes))
  {
    hide Step, Consumed, Take;
    if passes != [] {
      var n := |passes| - 1;
      RunParses(capacity, d, passes[..n]);
      var m := Run(capacity, d, passes[..n]);
      StepParses(capacity, m, passes[n]);
      TakeConcat(PARAM_SIZE, Parser(d), AllConsumed(capacity, d, passes[..n]), Consumed(capacity, m, passes[n]));
    }
  }

  /**
    Host-to-device round trip: when the bytes a run takes are the encodings of commands without
    parameters or with two to fifteen bytes of them, the handler is called once per command, in order,
    wherever finish events, switch presses and interrupts fall between the bytes.
   */
  lemma CommandsReachHandler(capacity: nat, eeprom: Room, passes: seq<Input>, cs: seq<Command>)
    requires (forall c | c in cs :: |c.params| == 0 || 2 <= |c.params| <= 15)
        && AllConsumed(capacity, Boot(eeprom), passes) == EncodeCommands(cs)
    ensures var d := Run(capacity, Boot(eeprom), passes); d.calls == cs && d.raw == []
  {
    hide Run, Take, TakeAll;
    RunParses(capacity, Boot(eeprom), passes);
    CommandsArrive(PARAM_SIZE, Receiver([], []), cs);
  }

  // ----- The parameter buffer -----

  /** Sending a table moves only the measurement, the finish flag and the packets sent. */
  lemma SendTableFrame(capacity: nat, d: Device, reason: byte, p: Input)
    ensures var e := SendTable(capacity, d, reason, p);
      Kept(e) == Kept(d) && e.pstate == d.pstate
  {
    hide Interrupt, Interrupts, TableBytes, SizeRead;
    var d1 := Interrupts(capacity, d, p.untilSize);
    var d2 := Interrupts(capacity, d1, p.inSize);
    var d3 := Interrupts(capacity, d2, p.afterSize);
    InterruptsFrame(capacity, d, p.untilSize);
    InterruptsFrame(capacity, d1, p.inSize);
    InterruptsFrame(capacity, d2, p.afterSize);
    InterruptsFrame(capacity, d3, p.inSecond);
  }

  lemma {:induction false} InterruptsFrame(capacity: nat, d: Device, irqs: seq<Irq>)
    ensures var e := Interrupts(capacity, d, irqs); e == d.(series := e.series, finished := e.finished)
  {
    if irqs != [] {
      InterruptsFrame(capacity, d, irqs[..|irqs| - 1]);
    }
  }

  /** From the pass that leaves Ready until the reset the parameter buffer never changes. */
  lemma {:induction false} ParamsFrozen(capacity: nat, d: Device, passes: seq<Input>)
    requires d.pstate != Ready
    ensures var e := Run(capacity, d, passes); e.param == d.param && e.pstate != Ready
  {
    hide Step;
    if passes != [] {
      var n := |passes| - 1;
      ParamsFrozen(capacity, d, passes[..n]);
      StepFreezesParams(capacity, Run(capacity, d, passes[..n]), passes[n]);
    }
  }

  // ----- The size an intermediate table declares -----

  function TimerCount(irqs: seq<Irq>): nat
  {
    if irqs == [] then 0 else TimerCount(irqs[..|irqs| - 1]) + (if irqs[|irqs| - 1] == Timer then 1 else 0)
  }

  /** While measuring, every timer interrupt is a tick until the table is full. */
  lemma {:induction false} InterruptsTick(capacity: nat, d: Device, irqs: seq<Irq>)
    requires Clockwork(capacity, d) && d.pstate == Measuring
    ensures var e := Interrupts(capacity, d, irqs);
      var all := Ticks(d.series.events) + TimerCount(irqs);
      e.series.Counting? && e.series.orig == d.series.orig
      && Ticks(e.series.events) == if all <= d.series.orig * capacity then all else d.series.orig * capacity
  {
    if irqs != [] {
      var n := |irqs| - 1;
      InterruptsTick(capacity, d, irqs[..n]);
      InterruptsKeep(capacity, d, irqs[..n]);
      var m := Interrupts(capacity, d, irqs[..n]);
      hide Interrupts, Ticks;
      TicksSnoc(m.series.events, irqs[n]);
    }
  }

  /** While measuring, every count event is recorded, even those that come after the table is full. */
  lemma {:induction false} InterruptsCount(capacity: nat, d: Device, irqs: seq<Irq>)
    requires Clockwork(capacity, d) && d.pstate == Measuring
    ensures var e := Interrupts(capacity, d, irqs);
      && e.series.Counting? && TimerCount(irqs) <= |irqs|
      && CountEvents(e.series.events) == CountEvents(d.series.events) + |irqs| - TimerCount(irqs)
  {
    if irqs != [] {
      var n := |irqs| - 1;
      InterruptsCount(capacity, d, irqs[..n]);
      InterruptsKeep(capacity, d, irqs[..n]);
      var m := Interrupts(capacity, d, irqs[..n]);
      CountEventsSnoc(m.series.events, irqs[n]);
      hide Interrupts, CountEvents, Full;
    }
  }

  lemma CountEventsSnoc(events: seq<Irq>, e: Irq)
    ensures CountEvents(events + [e]) == CountEvents(events) + (if e == Int0 then 1 else 0)
  {
    assert (events + [e])[..|events|] == events;
  }

  lemma {:induction false} TimerCountConcat(a: seq<Irq>, b: seq<Irq>)
    ensures TimerCount(a + b) == TimerCount(a) + TimerCount(b)
  {
    if b == [] {
      assert a + b == a;
    } else {
      TimerCountConcat(a, b[..|b| - 1]);
      assert (a + b)[..|a + b| - 1] == a + b[..|b| - 1];
    }
  }

  /** Both reads that agree, the first byte of the earlier and the last of the later as the reading says. */
  predicate Agreeing(capacity: nat, d: Device, irqs: seq<Irq>, r: Reading, h: nat, l: nat)
  {
    && r.first <= h <= l <= r.last <= |irqs|
    && r.value == Torn(RegisterAt(capacity, d, irqs, r.first), RegisterAt(capacity, d, irqs, h))
    && r.value == Torn(RegisterAt(capacity, d, irqs, l), RegisterAt(capacity, d, irqs, r.last))
  }

  lemma {:induction false} SettleAgrees(capacity: nat, d: Device, irqs: seq<Irq>, bytesAt: seq<nat>, i: nat,
      first: nat, b: u16, pos: nat)
    returns (h: nat, l: nat)
    requires first <= pos <= |irqs|
    requires b == Torn(RegisterAt(capacity, d, irqs, first), RegisterAt(capacity, d, irqs, pos))
    ensures Agreeing(capacity, d, irqs, Settle(capacity, d, irqs, bytesAt, i, first, b, pos), h, l)
    decreases if i < |bytesAt| then |bytesAt| - i else 0
  {
    hide RegisterAt, Torn;
    var low := Place(irqs, bytesAt, i, pos);
    var high := Place(irqs, bytesAt, i + 1, low);
    var a := Torn(RegisterAt(capacity, d, irqs, low), RegisterAt(capacity, d, irqs, high));
    if a == b {
      h, l := pos, low;
    } else if i >= |bytesAt| {
      h, l := high, low;
    } else {
      h, l := SettleAgrees(capacity, d, irqs, bytesAt, i + 2, low, a, high);
    }
  }

  /** While measuring, the register after any of the interrupts is the countdown at that tick. */
  lemma RegisterAtTick(capacity: nat, d: Device, irqs: seq<Irq>, n: nat) returns (t: nat)
    requires Clockwork(capacity, d) && d.pstate == Measuring && n <= |irqs|
    ensures d.series.Counting? && 2 <= d.series.orig < 0x1_0000
    ensures t == TickAt(capacity, d, irqs[..n]) <= d.series.orig * capacity
    ensures RegisterAt(capacity, d, irqs, n) == Left(t, d.series.orig, capacity)
    ensures Elapsed(capacity, Interrupts(capacity, d, irqs[..n]).series)
        == U16(d.series.orig - Left(t, d.series.orig, capacity))
  {
    StartBelow(d);
    InterruptsTick(capacity, d, irqs[..n]);
    InterruptsKeep(capacity, d, irqs[..n]);
    hide Interrupts, Ticks, Clockwork, TimerCount, Register, Elapsed, Left;
    t := TickAt(capacity, d, irqs[..n]);
    RegisterIsCountdown(capacity, Interrupts(capacity, d, irqs[..n]).series);
  }

  lemma RegisterIsCountdown(capacity: nat, s: Clock)
    requires s.Counting? && s.orig < 0x1_0000
    ensures Register(capacity, s) == Left(Ticks(s.events), s.orig, capacity)
    ensures Elapsed(capacity, s) == U16(s.orig - Left(Ticks(s.events), s.orig, capacity))
  {
    hide Ticks, Countdown;
    var c := Left(Ticks(s.events), s.orig, capacity);
    U16Small(c);
  }

  lemma U16Small(c: u16)
    ensures U16(c) == c
  {
  }

  /** Ticks after the interrupts, which the full table stops. */
  function TickAt(capacity: nat, d: Device, irqs: seq<Irq>): nat
    requires d.series.Counting?
  {
    var all := Ticks(d.series.events) + TimerCount(irqs);
    if all <= d.series.orig * capacity then all else d.series.orig * capacity
  }

  lemma StartBelow(d: Device)
    requires d.series.Counting? && d.series.orig == Value(d.param.params[..2])
    ensures d.series.orig < 0x1_0000
  {
    ValueOfTwo(d.param.params[0], d.param.params[1]);
    assert d.param.params[..2] == [d.param.params[0], d.param.params[1]];
  }

  lemma TickAtMonotone(capacity: nat, d: Device, irqs: seq<Irq>, a: nat, b: nat)
    requires d.series.Counting? && a <= b <= |irqs|
    ensures TickAt(capacity, d, irqs[..a]) <= TickAt(capacity, d, irqs[..b])
    ensures TickAt(capacity, d, irqs[..b]) - TickAt(capacity, d, irqs[..a]) <= TimerCount(irqs[a..b])
  {
    hide TimerCount, Ticks;
    TimerCountConcat(irqs[..a], irqs[a..b]);
    assert irqs[..a] + irqs[a..b] == irqs[..b];
  }

  /**
    The elapsed time of an intermediate table is the one held at some moment `n` during the loop
    that reads it, if at most a full turn of the countdown falls between the first and the last
    byte of the two reads that agreed, or the start value fits one byte.
   */
  lemma DurationWasHeld(capacity: nat, d: Device, p: Input) returns (n: nat)
    requires Clockwork(capacity, d) && d.pstate == Measuring
    requires var r := ReadRegister(capacity, d, p.untilSize, p.bytesAt);
      TimerCount(p.untilSize[r.first..r.last]) <= d.series.orig || d.series.orig < 0x100
    ensures var r := ReadRegister(capacity, d, p.untilSize, p.bytesAt);
      r.first <= n <= r.last
      && ReadElapsed(capacity, d, p.untilSize, p.bytesAt)
          == Elapsed(capacity, Interrupts(capacity, d, p.untilSize[..n]).series)
  {
    var irqs, r := p.untilSize, ReadRegister(capacity, d, p.untilSize, p.bytesAt);
    var h, l := ReadingAgrees(capacity, d, irqs, p.bytesAt);
    hide RegisterAt, ReadRegister, Torn, TickAt, TimerCount, Left, Clockwork, Elapsed, Interrupts;
    var t1 := RegisterAtTick(capacity, d, irqs, r.first);
    var t2 := RegisterAtTick(capacity, d, irqs, h);
    var t3 := RegisterAtTick(capacity, d, irqs, l);
    var t4 := RegisterAtTick(capacity, d, irqs, r.last);
    TickAtMonotone(capacity, d, irqs, r.first, h);
    TickAtMonotone(capacity, d, irqs, h, l);
    TickAtMonotone(capacity, d, irqs, l, r.last);
    TickAtMonotone(capacity, d, irqs, r.first, r.last);
    var t := ReloadingReads(t1, t2, t3, t4, d.series.orig, capacity);
    n := if t == t3 then l else r.first;
  }

  lemma ReadingAgrees(capacity: nat, d: Device, irqs: seq<Irq>, bytesAt: seq<nat>) returns (h: nat, l: nat)
    ensures Agreeing(capacity, d, irqs, ReadRegister(capacity, d, irqs, bytesAt), h, l)
  {
    hide RegisterAt, Torn, Settle;
    var low := Place(irqs, bytesAt, 0, 0);
    var high := Place(irqs, bytesAt, 1, low);
    var b := Torn(RegisterAt(capacity, d, irqs, low), RegisterAt(capacity, d, irqs, high));
    h, l := SettleAgrees(capacity, d, irqs, bytesAt, 2, low, b, high);
  }

  /** A later tick count lies in the same slot exactly when fewer ticks have passed than were left of it. */
  lemma SameSlot(ticks: nat, later: nat, orig: nat)
    requires orig >= 2 && ticks <= later
    ensures later / orig == ticks / orig <==> later - ticks < orig - ticks % orig
    ensures ticks / orig <= later / orig
  {
    var i, r := ticks / orig, ticks % orig;
    assert ticks == i * orig + r;
    assert (i + 1) * orig == i * orig + orig;
    DivMonotone(ticks, later, orig);
    if later - ticks < orig - r {
      DivLess(later, orig, i + 1);
    } else {
      DivModUnique((i + 1) * orig, orig, i + 1, 0);
      DivMonotone((i + 1) * orig, later, orig);
    }
  }

  /** Ticks that stay within the slot, or come in the last slot, open no new one. */
  lemma NoNewSlot(ticks: nat, later: nat, orig: nat, capacity: nat, k: nat)
    requires orig >= 2 && ticks <= orig * capacity
        && later == if ticks + k <= orig * capacity then ticks + k else orig * capacity
    ensures var i, j := ticks / orig, later / orig;
      (if i < capacity then i + 1 else capacity) == (if j < capacity then j + 1 else capacity)
      <==> k < Countdown(ticks, orig, capacity) || i + 1 >= capacity
  {
    var i := ticks / orig;
    SameSlot(ticks, later, orig);
    DivModUnique(orig * capacity, orig, capacity, 0);
    DivMonotone(later, orig * capacity, orig);
    if i + 1 < capacity {
      RoomForTheSlot(ticks, orig, capacity);
    }
  }

  lemma RoomForTheSlot(ticks: nat, orig: nat, capacity: nat)
    requires orig >= 2 && ticks / orig + 1 < capacity
    ensures ticks - ticks % orig + orig < orig * capacity
  {
    var i := ticks / orig;
    MulMonotone(i + 2, capacity, orig);
    assert (i + 2) * orig == i * orig + orig + orig;
  }

  lemma TornSizesAgree(s1: nat, s2: nat, s3: nat, s4: nat)
    ensures TornSize(s1, s2) == TornSize(s3, s4) <==> s1 % 0x100 == s3 % 0x100 && s2 / 0x100 == s4 / 0x100
  {
  }

  /** The two reads of the size as they are made, byte by byte. */
  lemma AnnouncedAndSent(capacity: nat, d: Device, p: Input) returns (t: Packet)
    requires Clockwork(capacity, d) && d.pstate == Measuring
    ensures t.Table? && SendTable(capacity, d, REASON_INTERMEDIATE, p).sent == d.sent + [t]
    ensures HasReason(t, REASON_INTERMEDIATE) && |t.echo| == d.param.length
    ensures var d1 := Interrupts(capacity, d, p.untilSize);
      var d2 := Interrupts(capacity, d1, p.inSize);
      var d3 := Interrupts(capacity, d2, p.afterSize);
      var d4 := Interrupts(capacity, d3, p.inSecond);
      && Clockwork(capacity, d1) && Clockwork(capacity, d2) && Clockwork(capacity, d3) && Clockwork(capacity, d4)
      && d1.pstate == d2.pstate == d3.pstate == d4.pstate == Measuring
      && t.declared == 6 + |t.echo| + SizeRead(capacity, d1.series, d2.series)
      && t.data == TableBytes(capacity, d3.series, d4.series, p.behind)
      && |t.data| == SizeRead(capacity, d3.series, d4.series)
      && d4.series.Counting? && d4.series.orig == d.series.orig && Echoes(d, t)
  {
    var d1 := Interrupts(capacity, d, p.untilSize);
    var d2 := Interrupts(capacity, d1, p.inSize);
    var d3 := Interrupts(capacity, d2, p.afterSize);
    var d4 := Interrupts(capacity, d3, p.inSecond);
    hide Interrupts, Clockwork, TableBytes, SizeRead;
    InterruptsKeep(capacity, d, p.untilSize);
    InterruptsKeep(capacity, d1, p.inSize);
    InterruptsKeep(capacity, d2, p.afterSize);
    InterruptsKeep(capacity, d3, p.inSecond);
    EchoOfValid(d, p);
    assert d.series.Counting? && d4.series.Counting? by { MeasuringCounts(capacity, d); MeasuringCounts(capacity, d4); }
    t := SendTable(capacity, d, REASON_INTERMEDIATE, p).sent[|d.sent|];
  }

  lemma MeasuringCounts(capacity: nat, d: Device)
    requires Clockwork(capacity, d) && d.pstate != Ready
    ensures d.series.Counting?
  {
  }

  /** Slots begin as ticks say: the size at a later moment of a measurement. */
  lemma SizeGrows(capacity: nat, d: Device, irqs: seq<Irq>)
    requires Clockwork(capacity, d) && d.pstate == Measuring
    ensures var s, s' := TableSize(capacity, d.series), TableSize(capacity, Interrupts(capacity, d, irqs).series);
      && s <= s'
      && (s == s' <==> TimerCount(irqs) < Countdown(Ticks(d.series.events), d.series.orig, capacity)
                       || Index(d.series.events, d.series.orig) + 1 >= capacity)
      && (TimerCount(irqs) < 0x7f * d.series.orig ==> s' < s + 0x100)
  {
    hide Interrupts, Ticks, Countdown;
    InterruptsTick(capacity, d, irqs);
    InterruptsKeep(capacity, d, irqs);
    var e := Interrupts(capacity, d, irqs);
    var ticks, later, orig := Ticks(d.series.events), Ticks(e.series.events), d.series.orig;
    NoNewSlot(ticks, later, orig, capacity, TimerCount(irqs));
    DivMonotone(ticks, later, orig);
    if TimerCount(irqs) < 0x7f * orig {
      FewSlots(ticks, later, orig, 0x7f);
    }
  }

  /** Fewer than `k` turns of ticks begin at most `k` slots. */
  lemma FewSlots(ticks: nat, later: nat, orig: nat, k: nat)
    requires orig > 0 && ticks <= later < ticks + k * orig
    ensures later / orig <= ticks / orig + k
  {
    var q, r := DivModParts(ticks, orig);
    assert (q + k + 1) * orig == q * orig + k * orig + orig;
    DivLess(later, orig, q + k + 1);
  }

  /**
    The size an intermediate table announces is the size it sends, with both sizes read byte by
    byte, if and only if low bytes and high bytes agree. While fewer than 127 turns of ticks fall
    between the low bytes, that is so exactly when no slot begins between these, fewer ticks coming
    than are left of the slot or it being the last, and none that carries before the last high byte.
   */
  lemma DeclaredSizeHolds(capacity: nat, d: Device, p: Input) returns (t: Packet)
    requires Clockwork(capacity, d) && d.pstate == Measuring
    ensures t.Table? && SendTable(capacity, d, REASON_INTERMEDIATE, p).sent == d.sent + [t]
    ensures var d1 := Interrupts(capacity, d, p.untilSize);
      var d2 := Interrupts(capacity, d1, p.inSize);
      var d3 := Interrupts(capacity, d2, p.afterSize);
      var d4 := Interrupts(capacity, d3, p.inSecond);
      var s1, s2 := TableSize(capacity, d1.series), TableSize(capacity, d2.series);
      var s3, s4 := TableSize(capacity, d3.series), TableSize(capacity, d4.series);
      var holds := t.declared == 6 + |t.echo| + |t.data|;
      && d1.series.Counting?
      && (holds <==> s1 % 0x100 == s3 % 0x100 && s2 / 0x100 == s4 / 0x100)
      && var s, ticks := d1.series, TimerCount(p.inSize + p.afterSize);
         var noSlot := ticks < Countdown(Ticks(s.events), s.orig, capacity) || Index(s.events, s.orig) + 1 >= capacity;
         && (ticks < 0x7f * s.orig ==> (holds <==> noSlot && s3 / 0x100 == s4 / 0x100))
         && (p.inSize == [] == p.inSecond ==> (holds <==> noSlot))
  {
    t := AnnouncedAndSent(capacity, d, p);
    var d1 := Interrupts(capacity, d, p.untilSize);
    var d2 := Interrupts(capacity, d1, p.inSize);
    var d3 := Interrupts(capacity, d2, p.afterSize);
    var d4 := Interrupts(capacity, d3, p.inSecond);
    var s1, s2 := TableSize(capacity, d1.series), TableSize(capacity, d2.series);
    var s3, s4 := TableSize(capacity, d3.series), TableSize(capacity, d4.series);
    assert p.inSize == [] ==> d2 == d1;
    assert p.inSecond == [] ==> d4 == d3;
    assert d1.series.Counting?;
    InterruptsConcat(capacity, d1, p.inSize, p.afterSize);
    hide Interrupts, Clockwork, TornSize, TableSize, Countdown, Ticks, TimerCount, Index, SendTable;
    SizeGrows(capacity, d1, p.inSize);
    SizeGrows(capacity, d2, p.afterSize);
    SizeGrows(capacity, d1, p.inSize + p.afterSize);
    TornSizesAgree(s1, s2, s3, s4);
    CloseBytes(s1, s3);
  }

  lemma CloseBytes(s: nat, s': nat)
    ensures s <= s' < s + 0x100 ==> (s % 0x100 == s' % 0x100 <==> s == s')
    ensures s % 0x100 == s' % 0x100 && s / 0x100 == s' / 0x100 <==> s == s'
  {
  }

  /** The new slot of one turn. */
  lemma AtMostOneSlot(ticks: nat, later: nat, orig: nat)
    requires orig > 0 && ticks <= later <= ticks + orig
    ensures ticks / orig <= later / orig <= ticks / orig + 1
  {
    DivMonotone(ticks, later, orig);
    DivMonotone(later, ticks + orig, orig);
    assert ticks + orig == (ticks / orig + 1) * orig + ticks % orig;
    DivModUnique(ticks + orig, orig, ticks / orig + 1, ticks % orig);
  }

  lemma CarriedSize(s: nat, s': nat)
    requires s % 2 == 0 && (s' == s || s' == s + 2)
    ensures TornSize(s, s') == if s' != s && s % 0x100 == 0xfe then s + 0x100 else s
  {
    var q, r := DivModParts(s, 0x100);
    assert r == 2 * (s / 2 - 0x80 * q);
    if r == 0xfe {
      DivModUnique(s + 2, 0x100, q + 1, 0);
    } else {
      DivModUnique(s + 2, 0x100, q, r + 2);
    }
  }

  lemma SizeAfterATurn(capacity: nat, s: Clock, s': Clock)
    requires s.Counting? && s'.Counting? && s.orig == s'.orig
    requires Ticks(s.events) <= Ticks(s'.events) <= Ticks(s.events) + s.orig
    ensures TableSize(capacity, s) % 2 == 0
    ensures TableSize(capacity, s') == TableSize(capacity, s) || TableSize(capacity, s') == TableSize(capacity, s) + 2
  {
    hide Ticks;
    AtMostOneSlot(Ticks(s.events), Ticks(s'.events), s.orig);
  }

  /**
    The table size read low byte first, with up to a turn of ticks between its two bytes: it is
    the old size, unless a slot begins just then and carries into the high byte; then it is 256 too
    much.
   */
  lemma SizeReadTorn(capacity: nat, d: Device, irqs: seq<Irq>)
    requires Clockwork(capacity, d) && d.pstate == Measuring
    requires TimerCount(irqs) <= d.series.orig
    ensures var s, s' := TableSize(capacity, d.series), TableSize(capacity, Interrupts(capacity, d, irqs).series);
      && s <= s'
      && TornSize(s, s') == if s' != s && s % 0x100 == 0xfe then s + 0x100 else s
  {
    InterruptsTick(capacity, d, irqs);
    var e := Interrupts(capacity, d, irqs);
    hide Interrupts, Ticks, TornSize, TimerCount, TableSize;
    SizeAfterATurn(capacity, d.series, e.series);
    CarriedSize(TableSize(capacity, d.series), TableSize(capacity, e.series));
  }
}
