/**
  What one pass through the main loop of firmware/main.c does, as the host sees it, in every state a
  run can reach; and what follows once a measurement is over. Command bytes are the letters of
  include/frame-defs.h.
 */
module PassOutcomes {
  import opened Bytes
  import opened Checksum
  import opened CommandParser
  import opened Firmware
  import opened FirmwareRuns
  import opened FrameDefs
  import opened ParameterEcho
  import opened TimeSeries

  /** The device when the pass's handler begins. */
  function AtHandler(capacity: nat, d: Device, p: Input): Device
  {
    Interrupts(capacity, Interrupts(capacity, d, p.early), p.middle)
  }

  lemma HandlerFinds(capacity: nat, d: Device, p: Input)
    requires Clockwork(capacity, d)
    ensures var d0, d1 := Interrupts(capacity, d, p.early), AtHandler(capacity, d, p);
      && Clockwork(capacity, d1) && d1 == d.(series := d1.series, finished := d1.finished)
      && d0.switchLocked == d.switchLocked
      && (d0.finished ==> d1.finished) && (d.pstate != Measuring ==> d0 == d && d1 == d)
  {
    InterruptsKeep(capacity, d, p.early);
    InterruptsKeep(capacity, Interrupts(capacity, d, p.early), p.middle);
    hide Interrupts, Clockwork;
  }

  // ----- A pass that finds the finish flag -----

  /**
    A measurement that has ended by itself: the pass sends one table, of the full size, that shows
    what the device holds; it takes no byte, clears the flag and leaves the device in Done.
   */
  lemma FinishedPass(capacity: nat, d: Device, p: Input) returns (t: Packet)
    requires Inv(capacity, d) && !d.reset && d.pstate == Measuring && Interrupts(capacity, d, p.early).finished
    ensures var e := Step(capacity, d, p);
      && e.sent == d.sent + [t] && HasReason(t, REASON_DONE) && Shows(capacity, e, t) && |t.data| == 2 * capacity
      && e.pstate == Done && !e.reset && !e.finished && !e.interrupts
      && Parser(e) == Parser(d) && e.param == d.param && Consumed(capacity, d, p) == []
  {
    hide TablesFit, Interrupts, HandleFinished, HandleSwitch, HandleByte, Shows;
    HandlerFinds(capacity, d, p);
    var d1 := AtHandler(capacity, d, p);
    t := DoneTable(capacity, d1, p);
    hide Clockwork;
    ShowsAlike(capacity, d1, Step(capacity, d, p), t);
  }

  lemma DoneTable(capacity: nat, d: Device, p: Input) returns (t: Packet)
    requires Clockwork(capacity, d) && d.pstate == Measuring && d.finished
    ensures HandleFinished(capacity, d, p) == d.(interrupts := false, pstate := Done, sent := d.sent + [t])
    ensures HasReason(t, REASON_DONE) && Shows(capacity, d, t) && |t.data| == 2 * capacity
  {
    assert d.series.Counting? && Full(d.series.events, d.series.orig, capacity);
    hide Interrupts, SendTable, Clockwork, Shows, Full;
    var q := d.(interrupts := false);
    t := QuietTable(capacity, q, REASON_DONE, p);
    ShowsAlike(capacity, q, d, t);
    FullSize(capacity, d, t);
  }

  lemma FullSize(capacity: nat, d: Device, t: Packet)
    requires d.series.Counting? && Full(d.series.events, d.series.orig, capacity) && Shows(capacity, d, t)
    ensures |t.data| == 2 * capacity
  {
    IndexInRange(d.series.events, d.series.orig, capacity);
    hide Ticks, Echoes;
  }

  /** What a table shows depends on the buffer and the measurement only. */
  lemma ShowsAlike(capacity: nat, d: Device, e: Device, t: Packet)
    requires Shows(capacity, d, t) && e.param == d.param && e.series == d.series
    ensures Shows(capacity, e, t)
  {
  }

  // ----- A pass that completes a command -----

  /** The message that names a state. */
  function StateMessage(state: PState): Packet
  {
    State(match state case Ready => MsgReady case Measuring => MsgMeasuring case Done => MsgDone)
  }

  /** The letters the firmware knows. */
  predicate Known(cmd: byte)
  {
    || cmd == 'm' as int || cmd == 'e' as int || cmd == 'E' as int || cmd == 'f' as int
    || cmd == 'i' as int || cmd == 'a' as int || cmd == 's' as int || cmd == 'r' as int
  }

  function Number(low: int, high: int): int { low + 256 * high }

  /** The timer value in a block's first two bytes. */
  function TimerValue(block: Room): nat { Number(block.params[0], block.params[1]) }

  /** How a command is answered by a device that does not reset: `tables` are the tables among the `answer`. */
  predicate Answers(d: Device, cmd: byte, e: Device, answer: seq<Packet>, tables: seq<Packet>)
  {
    && e.sent == d.sent + answer && Tables(e.sent) == Tables(d.sent) + tables
    && answer != [] && (!e.reset ==> answer[|answer| - 1] == StateMessage(e.pstate))
    && (Info in answer <==> cmd == 'f' as int)
    && |tables| <= 1 && forall t | t in tables :: t in answer
  }

  /** Starting from the buffer, with the timer value as a number: slots of as many ticks, or a reset. */
  lemma StartInNumbers(d: Device)
    ensures StartMeasurement(d) == if TimerValue(d.param) < 2
      then Send(d, Text(MsgTimerValue)).(switchLocked := true, reset := true)
      else Send(d, State(MsgMeasuring)).(switchLocked := true, series := Counting(TimerValue(d.param), []),
          pstate := Measuring)
  {
    ValueOfTwo(d.param.params[0], d.param.params[1]);
    assert d.param.params[..2] == [d.param.params[0], d.param.params[1]];
    hide Value;
  }

  lemma OneReply(d: Device, cmd: byte, e: Device, a: Packet)
    requires e.sent == d.sent + [a] && !a.Table? && a != Info && cmd != 'f' as int
    requires !e.reset ==> a == StateMessage(e.pstate)
    ensures Answers(d, cmd, e, [a], [])
  {
    TwoMessages(d.sent, a, a);
  }

  lemma TwoReplies(d: Device, cmd: byte, e: Device, a: Packet, b: Packet)
    requires e.sent == d.sent + [a] + [b] && !a.Table? && b == StateMessage(e.pstate)
    requires a == Info <==> cmd == 'f' as int
    ensures Answers(d, cmd, e, [a, b], [])
  {
    TwoMessages(d.sent, a, b);
    assert d.sent + [a] + [b] == d.sent + [a, b];
  }

  lemma ReadyAnswer(d: Device, cmd: byte) returns (answer: seq<Packet>)
    requires d.pstate == Ready && !d.reset
    ensures var e := HandleReady(d, cmd);
      var measure := cmd == 'm' as int;
      && Answers(d, cmd, e, answer, [])
      && (e.reset <==> cmd == 'r' as int || !Known(cmd) || (measure && TimerValue(d.param) < 2))
      && e.pstate == (if measure && TimerValue(d.param) >= 2 then Measuring else Ready)
      && (e.pstate == Measuring ==> e.series == Counting(TimerValue(d.param), []))
  {
    if cmd == CMD_MEASURE {
      answer := StartAnswer(d);
    } else {
      answer := OtherReadyAnswer(d, cmd);
    }
    hide StartMeasurement, Answers;
  }

  lemma StartAnswer(d: Device) returns (answer: seq<Packet>)
    requires d.pstate == Ready && !d.reset
    ensures var e := StartMeasurement(d);
      && Answers(d, 'm' as int, e, answer, [])
      && (e.reset <==> TimerValue(d.param) < 2)
      && e.pstate == (if TimerValue(d.param) >= 2 then Measuring else Ready)
      && (e.pstate == Measuring ==> e.series == Counting(TimerValue(d.param), []))
  {
    StartInNumbers(d);
    hide Tables, StartMeasurement, TimerValue, Answers;
    var e := StartMeasurement(d);
    var a := if TimerValue(d.param) < 2 then Text(MsgTimerValue) else State(MsgMeasuring);
    answer := [a];
    OneReply(d, 'm' as int, e, a);
  }

  lemma OtherReadyAnswer(d: Device, cmd: byte) returns (answer: seq<Packet>)
    requires d.pstate == Ready && !d.reset && cmd != CMD_MEASURE
    ensures var e := HandleReady(d, cmd);
      && Answers(d, cmd, e, answer, [])
      && (e.reset <==> cmd == 'r' as int || !Known(cmd)) && e.pstate == Ready
  {
    hide Tables, StartMeasurement, Answers;
    var e, n := HandleReady(d, cmd), |d.sent|;
    if cmd == CMD_PERSONALITY_INFO || cmd == CMD_PARAMS_TO_EEPROM || cmd == CMD_PARAMS_FROM_EEPROM {
      answer := [e.sent[n], State(MsgReady)];
      TwoReplies(d, cmd, e, e.sent[n], State(MsgReady));
    } else {
      answer := [e.sent[n]];
      OneReply(d, cmd, e, e.sent[n]);
    }
  }

  lemma MeasuringAnswer(capacity: nat, d: Device, cmd: byte, p: Input)
      returns (answer: seq<Packet>, tables: seq<Packet>)
    requires Clockwork(capacity, d) && d.pstate == Measuring && !d.reset
    ensures var e := HandleMeasuring(capacity, d, cmd, p);
      var intermediate, abort := cmd == 'i' as int, cmd == 'a' as int;
      && Answers(d, cmd, e, answer, tables)
      && (e.reset <==> !Known(cmd))
      && e.pstate == (if abort then Done else Measuring)
      && (|tables| == 1 <==> intermediate || abort)
      && (intermediate ==> HasReason(tables[0], REASON_INTERMEDIATE))
      && (abort ==> HasReason(tables[0], REASON_ABORTED) && Shows(capacity, e, tables[0]) && e.finished == d.finished)
  {
    hide Tables, SendTable, Clockwork, Answers, Shows, HandleMeasuring;
    if cmd == CMD_ABORT {
      answer, tables := AbortAnswer(capacity, d, p);
    } else if cmd == CMD_INTERMEDIATE {
      answer, tables := IntermediateAnswer(capacity, d, p);
    } else {
      answer := OtherMeasuringAnswer(capacity, d, cmd, p);
      tables := [];
    }
  }

  lemma AbortAnswer(capacity: nat, d: Device, p: Input) returns (answer: seq<Packet>, tables: seq<Packet>)
    requires Clockwork(capacity, d) && d.pstate == Measuring && !d.reset
    ensures var e := HandleMeasuring(capacity, d, CMD_ABORT, p);
      && Answers(d, CMD_ABORT, e, answer, tables) && !e.reset && e.pstate == Done && e.finished == d.finished
      && |tables| == 1 && HasReason(tables[0], REASON_ABORTED) && Shows(capacity, e, tables[0])
  {
    hide Tables, SendTable, Clockwork, Answers, Shows;
    var e := HandleMeasuring(capacity, d, CMD_ABORT, p);
    var q := Send(d, State(MsgDone)).(interrupts := false);
    MeasuringCounts(capacity, d);
    var t := QuietTable(capacity, q, REASON_ABORTED, p);
    answer, tables := [State(MsgDone)] + [t, State(MsgDone)], [t];
    TableReply(d, CMD_ABORT, e, [State(MsgDone)], t);
    ShowsAlike(capacity, q, e, t);
  }

  lemma IntermediateAnswer(capacity: nat, d: Device, p: Input) returns (answer: seq<Packet>, tables: seq<Packet>)
    requires Clockwork(capacity, d) && d.pstate == Measuring && !d.reset
    ensures var e := HandleMeasuring(capacity, d, CMD_INTERMEDIATE, p);
      && Answers(d, CMD_INTERMEDIATE, e, answer, tables) && !e.reset && e.pstate == Measuring
      && |tables| == 1 && HasReason(tables[0], REASON_INTERMEDIATE)
  {
    hide Tables, SendTable, Clockwork, Answers, Shows;
    var e := HandleMeasuring(capacity, d, CMD_INTERMEDIATE, p);
    var t := BusyTable(capacity, d, REASON_INTERMEDIATE, p);
    answer, tables := [] + [t, State(MsgMeasuring)], [t];
    TableReply(d, CMD_INTERMEDIATE, e, [], t);
  }

  lemma OtherMeasuringAnswer(capacity: nat, d: Device, cmd: byte, p: Input) returns (answer: seq<Packet>)
    requires d.pstate == Measuring && !d.reset && cmd != CMD_ABORT && cmd != CMD_INTERMEDIATE
    ensures var e := HandleMeasuring(capacity, d, cmd, p);
      Answers(d, cmd, e, answer, []) && (e.reset <==> !Known(cmd)) && e.pstate == Measuring
  {
    hide Tables, SendTable, Answers;
    var e, n := HandleMeasuring(capacity, d, cmd, p), |d.sent|;
    if cmd == CMD_PERSONALITY_INFO {
      answer := [Info, State(MsgMeasuring)];
      TwoReplies(d, cmd, e, Info, State(MsgMeasuring));
    } else {
      answer := [e.sent[n]];
      OneReply(d, cmd, e, e.sent[n]);
    }
  }

  lemma TableReply(d: Device, cmd: byte, e: Device, head: seq<Packet>, t: Packet)
    requires head == [] || head == [State(MsgDone)]
    requires e.sent == d.sent + head + [t] + [StateMessage(e.pstate)] && t.Table? && cmd != 'f' as int
    ensures Answers(d, cmd, e, head + [t, StateMessage(e.pstate)], [t])
  {
    if head != [] {
      TablesSnoc(d.sent, head[0]);
    } else {
      assert d.sent + head == d.sent;
    }
    TablesSnoc(d.sent + head, t);
    TablesSnoc(d.sent + head + [t], StateMessage(e.pstate));
    assert d.sent + head + [t] + [StateMessage(e.pstate)] == d.sent + (head + [t, StateMessage(e.pstate)]);
  }

  lemma DoneAnswer(capacity: nat, d: Device, cmd: byte, p: Input) returns (answer: seq<Packet>, tables: seq<Packet>)
    requires Clockwork(capacity, d) && d.pstate == Done && !d.reset
    ensures var e := HandleDone(capacity, d, cmd, p);
      && Answers(d, cmd, e, answer, tables)
      && (e.reset <==> cmd == 'r' as int)
      && e == d.(sent := e.sent, reset := e.reset)
      && (|tables| == 1 <==> cmd != 'f' as int && cmd != 's' as int && cmd != 'r' as int)
      && forall t | t in tables :: HasReason(t, REASON_RESEND) && Shows(capacity, d, t)
  {
    hide Tables, SendTable, Clockwork, Answers, Shows;
    var e, n := HandleDone(capacity, d, cmd, p), |d.sent|;
    tables := [];
    if cmd != CMD_PERSONALITY_INFO && cmd != CMD_STATE && cmd != CMD_RESET {
      assert d.series.Counting? && !d.interrupts by { DoneIsQuiet(capacity, d); }
      var t := QuietTable(capacity, d, REASON_RESEND, p);
      answer, tables := [] + [t, State(MsgDone)], [t];
      TableReply(d, cmd, e, [], t);
    } else if |e.sent| == n + 1 {
      answer := [e.sent[n]];
      OneReply(d, cmd, e, e.sent[n]);
    } else {
      answer := [e.sent[n], e.sent[n + 1]];
      TwoReplies(d, cmd, e, e.sent[n], e.sent[n + 1]);
    }
  }

  lemma DoneIsQuiet(capacity: nat, d: Device)
    requires Clockwork(capacity, d) && d.pstate == Done
    ensures d.series.Counting? && !d.interrupts
  {
  }

  /** A pass that completes a command calls its handler once, with the buffer and the measurement as they are then. */
  lemma CallPass(capacity: nat, d: Device, p: Input) returns (c: Command)
    requires Clockwork(capacity, d) && !d.reset && PlausibleCommand(PARAM_SIZE, d.raw)
    requires Step(capacity, d, p).calls != d.calls
    ensures |d.raw| >= 6 && c == Command(d.raw[4], d.raw[6..]) && !Interrupts(capacity, d, p.early).finished
    ensures Step(capacity, d, p).calls == d.calls + [c]
    ensures var m := AtHandler(capacity, d, p).(raw := [], calls := d.calls + [c]);
      Step(capacity, d, p) == HandleCommand(capacity, m, c.cmd, p)
  {
    HandlerFinds(capacity, d, p);
    var d1 := AtHandler(capacity, d, p);
    FinishedFrame(capacity, d1, p);
    SwitchCallsNothing(d1);
    hide Clockwork, Interrupts, HandleFinished, HandleSwitch, HandleByte, HandleCommand, PlausibleCommand, Take;
    c := Command(0, []);
    if p.rx != [] {
      ByteFrame(capacity, d1, p.rx[0], p);
      CompletingByte(capacity, d1, p.rx[0], p);
      c := Command(d.raw[4], d.raw[6..]);
    }
  }

  /** In Done a pass is its byte, if no finish flag is pending. */
  lemma DoneStep(capacity: nat, d: Device, p: Input)
    requires Clockwork(capacity, d) && !d.reset && d.pstate == Done && !d.finished
    ensures Step(capacity, d, p) == if p.rx == [] then d else HandleByte(capacity, d, p.rx[0], p)
  {
    HandlerFinds(capacity, d, p);
    assert d.switchLocked;
    hide Clockwork, Interrupts, HandleByte;
  }

  /** A byte that completes no command: at most a complaint. */
  lemma UncalledByte(capacity: nat, d: Device, u: byte, p: Input)
    requires HandleByte(capacity, d, u, p).calls == d.calls
    ensures var e := HandleByte(capacity, d, u, p);
      && e == d.(raw := e.raw, param := e.param, sent := e.sent) && Tables(e.sent) == Tables(d.sent)
      && (d.pstate != Ready ==> e.param == d.param)
      && (e.sent == d.sent || e.sent == d.sent + [Text(MsgLength)] || e.sent == d.sent + [Text(MsgChecksum)])
  {
    ByteFrame(capacity, d, u, p);
    TwoMessages(d.sent, Text(MsgLength), Text(MsgLength));
    TwoMessages(d.sent, Text(MsgChecksum), Text(MsgChecksum));
    hide Take, HandleCommand, Tables;
  }

  /** A pass in Done: nothing, a complaint about a frame, or the answer to a command. */
  lemma DonePass(capacity: nat, d: Device, p: Input) returns (calls: seq<Command>, tables: seq<Packet>)
    requires Clockwork(capacity, d) && !d.reset && d.pstate == Done && !d.finished
        && PlausibleCommand(PARAM_SIZE, d.raw)
    ensures var e := Step(capacity, d, p);
      && e.pstate == Done && !e.finished && e.series == d.series && e.param == d.param
      && e.calls == d.calls + calls && |calls| <= 1
      && (e.reset <==> calls != [] && calls[0].cmd == 'r' as int)
      && Tables(e.sent) == Tables(d.sent) + tables
      && |tables| == (if calls == [] || Ignored(calls[0].cmd) then 0 else 1)
      && forall t | t in tables :: HasReason(t, REASON_RESEND) && Shows(capacity, d, t)
  {
    DoneStep(capacity, d, p);
    hide Clockwork, HandleByte, HandleCommand, Tables, Shows, PlausibleCommand, Step;
    calls, tables := [], [];
    if Step(capacity, d, p).calls != d.calls {
      var c := CallPass(capacity, d, p);
      HandlerFinds(capacity, d, p);
      calls := [c];
      tables := DoneCall(capacity, d, c, p);
    } else if p.rx != [] {
      UncalledByte(capacity, d, p.rx[0], p);
    }
  }

  lemma DoneCall(capacity: nat, d: Device, c: Command, p: Input) returns (tables: seq<Packet>)
    requires Clockwork(capacity, d) && d.pstate == Done && !d.reset
    ensures var e := HandleCommand(capacity, d.(raw := [], calls := d.calls + [c]), c.cmd, p);
      && e.pstate == Done && e.finished == d.finished && e.series == d.series && e.param == d.param
      && (e.reset <==> c.cmd == 'r' as int)
      && Tables(e.sent) == Tables(d.sent) + tables && |tables| == (if Ignored(c.cmd) then 0 else 1)
      && forall t | t in tables :: HasReason(t, REASON_RESEND) && Shows(capacity, d, t)
  {
    var m := d.(raw := [], calls := d.calls + [c]);
    assert Clockwork(capacity, m);
    hide Clockwork, Tables, Shows, HandleDone;
    var answer: seq<Packet>;
    answer, tables := DoneAnswer(capacity, m, c.cmd, p);
    forall t | t in tables
      ensures Shows(capacity, d, t)
    {
      ShowsAlike(capacity, m, d, t);
    }
  }

  /** Commands that ask for no table, in Done. */
  predicate Ignored(cmd: byte) { cmd == 'f' as int || cmd == 's' as int || cmd == 'r' as int }

  /** How many commands ask for the table, in Done. */
  function Resends(calls: seq<Command>): nat
  {
    if calls == [] then 0
    else Resends(calls[..|calls| - 1]) + (if Ignored(calls[|calls| - 1].cmd) then 0 else 1)
  }

  lemma ResendsSnoc(calls: seq<Command>, more: seq<Command>)
    requires |more| <= 1
    ensures Resends(calls + more) == Resends(calls) + (if more == [] || Ignored(more[0].cmd) then 0 else 1)
  {
    if more == [] {
      assert calls + more == calls;
    } else {
      assert (calls + more)[..|calls|] == calls;
    }
  }

  // ----- A pass that takes a byte -----

  /** What a byte does to a frame that is coming in, and whether the device complains. */
  predicate Received(d: Device, u: byte, e: Device)
  {
    var raw, n := d.raw, |d.raw|;
    if n <= 4 then e.raw == (if n == 4 || u == MAGIC[n] then raw + [u] else []) && Silent(d, e)
    else if n == 5 then
      if u == 0 || 2 <= u <= 15 then e.raw == raw + [u] && Silent(d, e)
      else e.raw == [] && e.calls == d.calls && e.sent == d.sent + [Text(MsgLength)]
    else if n < 6 + ParamLength(raw) then e.raw == raw + [u] && Silent(d, e)
    else if u == Final(raw) then e.raw == [] && e.calls == d.calls + [Command(raw[4], raw[6..])]
    else e.raw == [] && e.calls == d.calls && e.sent == d.sent + [Text(MsgChecksum)]
  }

  predicate Silent(d: Device, e: Device) { e.calls == d.calls && e.sent == d.sent && e.pstate == d.pstate && !e.reset }

  /**
    In every run, a pass takes the byte that is waiting unless it finds the finish flag or, in Ready,
    the switch down. The byte goes on with the frame, completes its command, or makes the device
    complain of a length that is neither zero nor two to fifteen, or of a checksum that is wrong.
   */
  lemma EveryByteTaken(capacity: nat, eeprom: Room, before: seq<Input>, p: Input)
    requires capacity > 0
    requires var d := Run(capacity, Boot(eeprom), before);
      !d.reset && p.rx != [] && !Interrupts(capacity, d, p.early).finished && !(d.pstate == Ready && p.switchDown)
    ensures var d := Run(capacity, Boot(eeprom), before);
      Consumed(capacity, d, p) == p.rx && Received(d, p.rx[0], Step(capacity, d, p))
  {
    BootFits(capacity, eeprom);
    BootPlausible(eeprom);
    RunKeeps(capacity, Boot(eeprom), before);
    RunPlausible(capacity, Boot(eeprom), before);
    var d := Run(capacity, Boot(eeprom), before);
    hide Run, TablesFit, PlausibleCommand, Interrupts, Boot, HandleByte, HandleSwitch, Received;
    HandlerFinds(capacity, d, p);
    assert d.pstate != Ready ==> d.switchLocked;
    hide Clockwork;
    var d1 := AtHandler(capacity, d, p);
    ByteReceived(capacity, d1, p.rx[0], p);
    ReceivedAlike(d, d1, p.rx[0], Step(capacity, d, p));
  }

  lemma ReceivedAlike(d: Device, d1: Device, u: byte, e: Device)
    requires d1 == d.(series := d1.series, finished := d1.finished) && Received(d1, u, e)
    ensures Received(d, u, e)
  {
    hide Final;
  }

  lemma ByteReceived(capacity: nat, d: Device, u: byte, p: Input)
    requires PlausibleCommand(PARAM_SIZE, d.raw) && !d.reset
    ensures Received(d, u, HandleByte(capacity, d, u, p))
  {
    hide HandleByte, HandleCommand, Final;
    var n := |d.raw|;
    if n <= 4 {
      EarlyByte(capacity, d, u, p);
    } else if n == 5 {
      LengthByte(capacity, d, u, p);
    } else if n < 6 + ParamLength(d.raw) {
      ParamByte(capacity, d, u, p);
    } else {
      FinalByte(capacity, d, u, p);
      var c := Command(d.raw[4], d.raw[6..]);
      CommandFrame(capacity, d.(raw := [], calls := d.calls + [c]), c.cmd, p);
    }
  }

  /** The letter decides, with the state and the timer value, where a command leads. */
  predicate Leads(d: Device, cmd: byte, e: Device, tables: seq<Packet>)
  {
    match d.pstate
    case Ready =>
      var measure := cmd == 'm' as int;
      && (e.reset <==> cmd == 'r' as int || !Known(cmd) || (measure && TimerValue(d.param) < 2))
      && e.pstate == (if measure && TimerValue(d.param) >= 2 then Measuring else Ready)
      && (e.pstate == Measuring ==> e.series == Counting(TimerValue(d.param), []))
      && tables == []
    case Measuring =>
      var intermediate, abort := cmd == 'i' as int, cmd == 'a' as int;
      && (e.reset <==> !Known(cmd))
      && e.pstate == (if abort then Done else Measuring)
      && (|tables| == 1 <==> intermediate || abort)
      && (intermediate ==> HasReason(tables[0], REASON_INTERMEDIATE))
      && (abort ==> HasReason(tables[0], REASON_ABORTED))
    case Done =>
      && (e.reset <==> cmd == 'r' as int)
      && e.pstate == Done
      && (|tables| == 1 <==> cmd != 'f' as int && cmd != 's' as int && cmd != 'r' as int)
      && forall t | t in tables :: HasReason(t, REASON_RESEND)
  }

  /**
    Every command completed in any run is answered in the same pass: unless the device resets itself,
    the last thing it sends names the state it is then in. The personality is announced exactly when
    asked for, and a table is sent exactly where the state calls for one.
   */
  lemma EveryCommandAnswered(capacity: nat, eeprom: Room, before: seq<Input>, p: Input)
    returns (c: Command, answer: seq<Packet>, tables: seq<Packet>)
    requires capacity > 0
    requires var d := Run(capacity, Boot(eeprom), before); !d.reset && Step(capacity, d, p).calls != d.calls
    ensures var d := Run(capacity, Boot(eeprom), before);
      var e := Step(capacity, d, p);
      && e.calls == d.calls + [c] && Answers(d, c.cmd, e, answer, tables) && Leads(d, c.cmd, e, tables)
  {
    BootFits(capacity, eeprom);
    BootPlausible(eeprom);
    RunKeeps(capacity, Boot(eeprom), before);
    RunPlausible(capacity, Boot(eeprom), before);
    var d := Run(capacity, Boot(eeprom), before);
    hide Run, Step, Tables, TablesFit, PlausibleCommand, Interrupts, AtHandler, Boot, HandleCommand, Clockwork;
    c := CallPass(capacity, d, p);
    HandlerFinds(capacity, d, p);
    answer, tables := CallAnswered(capacity, d, AtHandler(capacity, d, p), c, p);
  }

  lemma CallAnswered(capacity: nat, d: Device, d1: Device, c: Command, p: Input)
    returns (answer: seq<Packet>, tables: seq<Packet>)
    requires Clockwork(capacity, d1) && !d.reset && d1 == d.(series := d1.series, finished := d1.finished)
    ensures var e := HandleCommand(capacity, d1.(raw := [], calls := d.calls + [c]), c.cmd, p);
      Answers(d, c.cmd, e, answer, tables) && Leads(d, c.cmd, e, tables)
  {
    var m := d1.(raw := [], calls := d.calls + [c]);
    assert Clockwork(capacity, m);
    hide Clockwork, Tables, Shows, HandleReady, HandleMeasuring, HandleDone;
    match d.pstate {
      case Ready =>
        answer := ReadyAnswer(m, c.cmd);
        tables := [];
      case Measuring =>
        answer, tables := MeasuringAnswer(capacity, m, c.cmd, p);
      case Done =>
        answer, tables := DoneAnswer(capacity, m, c.cmd, p);
    }
  }

  // ----- After the end of a measurement -----

  /** What a device that held `d` when it came to Done has done since: nothing but answer commands. */
  predicate OnlyAnswers(capacity: nat, d: Device, f: Device, calls: seq<Command>, tables: seq<Packet>)
  {
    && f.pstate == Done && !f.finished && f.series == d.series && f.param == d.param
    && f.calls == d.calls + calls
    && (f.reset <==> exists c | c in calls :: c.cmd == 'r' as int)
    && Tables(f.sent) == Tables(d.sent) + tables && |tables| == Resends(calls)
    && forall t | t in tables :: HasReason(t, REASON_RESEND) && Shows(capacity, d, t)
  }

  /**
    No run of a device in Done without a pending finish flag resets it unless a reset command has been
    completed, and every command that asks for the table gets it.
   */
  lemma {:induction false} DoneRun(capacity: nat, d: Device, passes: seq<Input>)
    returns (calls: seq<Command>, tables: seq<Packet>)
    requires capacity > 0 && Inv(capacity, d) && PlausibleCommand(PARAM_SIZE, d.raw)
    requires !d.reset && d.pstate == Done && !d.finished
    ensures OnlyAnswers(capacity, d, Run(capacity, d, passes), calls, tables)
    decreases |passes|
  {
    hide Step, Tables, Shows, PlausibleCommand, TablesFit, Clockwork;
    if passes == [] {
      calls, tables := [], [];
      assert Run(capacity, d, passes) == d;
    } else {
      hide OnlyAnswers, Run;
      var n := |passes| - 1;
      calls, tables := DoneRun(capacity, d, passes[..n]);
      RunKeeps(capacity, d, passes[..n]);
      RunPlausible(capacity, d, passes[..n]);
      assert passes[..n] + [passes[n]] == passes;
      RunSnoc(capacity, d, passes[..n], passes[n]);
      calls, tables := OnePassMore(capacity, d, Run(capacity, d, passes[..n]), calls, tables, passes[n]);
    }
  }

  lemma OnePassMore(capacity: nat, d: Device, f: Device, calls: seq<Command>, tables: seq<Packet>, p: Input)
    returns (calls': seq<Command>, tables': seq<Packet>)
    requires OnlyAnswers(capacity, d, f, calls, tables)
    requires Inv(capacity, f) && PlausibleCommand(PARAM_SIZE, f.raw)
    ensures OnlyAnswers(capacity, d, Step(capacity, f, p), calls', tables')
  {
    hide Tables, Shows, PlausibleCommand, TablesFit, Clockwork, Step;
    if f.reset {
      ResetStays(capacity, f, p);
      calls', tables' := calls, tables;
    } else {
      var more, resent := DonePass(capacity, f, p);
      calls', tables' := calls + more, tables + resent;
      ResendsSnoc(calls, more);
      forall t | t in tables'
        ensures HasReason(t, REASON_RESEND) && Shows(capacity, d, t)
      {
        if t in resent {
          ShowsAlike(capacity, f, d, t);
        }
      }
      assert d.calls + calls' == d.calls + calls + more;
      assert Tables(d.sent) + tables' == Tables(d.sent) + tables + resent;
    }
  }

  /** The pass from `d` to `e` completes a command with this letter. */
  predicate Completes(d: Device, e: Device, cmd: int)
  {
    e.calls != d.calls && e.calls != [] && e.calls[|e.calls| - 1].cmd == cmd
  }

  /** Nothing that has been sent is taken back. */
  lemma SentGrows(capacity: nat, d: Device, p: Input)
    requires Inv(capacity, d) && PlausibleCommand(PARAM_SIZE, d.raw)
    ensures d.sent <= Step(capacity, d, p).sent
  {
    hide Clockwork, Interrupts, HandleByte, HandleCommand, HandleFinished, Tables, TablesFit, PlausibleCommand;
    if !d.reset {
      HandlerFinds(capacity, d, p);
      var d1 := AtHandler(capacity, d, p);
      if Step(capacity, d, p).calls != d.calls {
        hide Step;
        var c := CallPass(capacity, d, p);
        var answer, tables := CallAnswered(capacity, d, d1, c, p);
      } else {
        FinishedSends(capacity, d1, p);
        SwitchSends(d1);
        if p.rx != [] {
          if HandleByte(capacity, d1, p.rx[0], p).calls == d.calls {
            UncalledByte(capacity, d1, p.rx[0], p);
          }
        }
      }
    }
  }

  lemma FinishedSends(capacity: nat, d: Device, p: Input)
    requires Clockwork(capacity, d)
    ensures d.sent <= HandleFinished(capacity, d, p).sent
  {
    hide SendTable, Shows;
    if d.pstate == Measuring {
      var t := QuietTable(capacity, d.(interrupts := false), REASON_DONE, p);
    }
  }

  lemma SwitchSends(d: Device)
    ensures d.sent <= HandleSwitch(d).sent
  {
    hide Value;
  }

  /** Whatever happens after a reset, the personality and READY have been sent first. */
  lemma {:induction false} GreetingFirst(capacity: nat, eeprom: Room, passes: seq<Input>)
    requires capacity > 0
    ensures [Info, State(MsgReady)] <= Run(capacity, Boot(eeprom), passes).sent
  {
    hide Step, Clockwork, TablesFit, PlausibleCommand;
    if passes != [] {
      var n := |passes| - 1;
      GreetingFirst(capacity, eeprom, passes[..n]);
      BootFits(capacity, eeprom);
      BootPlausible(eeprom);
      RunKeeps(capacity, Boot(eeprom), passes[..n]);
      RunPlausible(capacity, Boot(eeprom), passes[..n]);
      SentGrows(capacity, Run(capacity, Boot(eeprom), passes[..n]), passes[n]);
    }
  }

  /** A pass ends a measurement if and only if it finds the finish flag or completes an abort command. */
  lemma EndsExactly(capacity: nat, d: Device, p: Input) returns (t: Packet)
    requires Inv(capacity, d) && !d.reset && d.pstate == Measuring && PlausibleCommand(PARAM_SIZE, d.raw)
    ensures var e := Step(capacity, d, p);
      var flag := Interrupts(capacity, d, p.early).finished;
      && (e.pstate == Done <==> flag || Completes(d, e, 'a' as int))
      && (e.pstate == Done ==>
          && !e.reset && Tables(e.sent) == Tables(d.sent) + [t] && Shows(capacity, e, t)
          && HasReason(t, if flag then REASON_DONE else REASON_ABORTED)
          && (flag ==> |t.data| == 2 * capacity)
          && (e.finished <==> !flag && AtHandler(capacity, d, p).finished))
  {
    t := Info;
    hide Clockwork, Interrupts, HandleByte, HandleCommand, Tables, TablesFit, Shows, PlausibleCommand, Step;
    var e := Step(capacity, d, p);
    if Interrupts(capacity, d, p.early).finished {
      t := FinishedPass(capacity, d, p);
      TablesSnoc(d.sent, t);
    } else if e.calls != d.calls {
      var c := CallPass(capacity, d, p);
      HandlerFinds(capacity, d, p);
      t := MeasuringCall(capacity, AtHandler(capacity, d, p), c, p);
    } else {
      UncalledPass(capacity, d, p);
    }
  }

  lemma MeasuringCall(capacity: nat, d: Device, c: Command, p: Input) returns (t: Packet)
    requires Clockwork(capacity, d) && d.pstate == Measuring && !d.reset
    ensures var e := HandleCommand(capacity, d.(raw := [], calls := d.calls + [c]), c.cmd, p);
      && (e.pstate == Done <==> c.cmd == 'a' as int)
      && (e.pstate == Done ==>
          && !e.reset && Tables(e.sent) == Tables(d.sent) + [t] && Shows(capacity, e, t)
          && HasReason(t, REASON_ABORTED) && e.finished == d.finished)
  {
    var m := d.(raw := [], calls := d.calls + [c]);
    assert Clockwork(capacity, m);
    hide Clockwork, Tables, Shows, HandleMeasuring;
    var answer, tables := MeasuringAnswer(capacity, m, c.cmd, p);
    t := if tables == [] then Info else tables[0];
    assert c.cmd == 'a' as int ==> tables == [t];
  }

  /** A pass without a command or a finish flag, once the switch is locked. */
  lemma UncalledPass(capacity: nat, d: Device, p: Input)
    requires Clockwork(capacity, d) && !d.reset && d.pstate != Ready
    requires !Interrupts(capacity, d, p.early).finished && Step(capacity, d, p).calls == d.calls
    ensures var e := Step(capacity, d, p);
      && e.pstate == d.pstate && !e.reset && e.param == d.param && e.eeprom == d.eeprom
      && Tables(e.sent) == Tables(d.sent)
  {
    HandlerFinds(capacity, d, p);
    assert d.switchLocked;
    hide Clockwork, Interrupts, HandleByte, Tables;
    if p.rx != [] {
      UncalledByte(capacity, AtHandler(capacity, d, p), p.rx[0], p);
    }
  }

  /**
    Over every run: a measurement ends when a pass finds the finish flag or completes an abort. The
    table sent then shows what the device holds and, with the reason 'D', all slots of the table.
    If the timer has raced with the abort, the next pass resets the device. Otherwise it waits for
    commands: no later run resets it unless a reset command is completed, and every command that asks
    for the table gets one that repeats it.
   */
  lemma MeasurementEnds(capacity: nat, eeprom: Room, before: seq<Input>, p: Input, after: seq<Input>)
    returns (t: Packet, calls: seq<Command>, resent: seq<Packet>)
    requires capacity > 0
    requires var d := Run(capacity, Boot(eeprom), before);
      !d.reset && d.pstate == Measuring && Step(capacity, d, p).pstate == Done
    ensures var d := Run(capacity, Boot(eeprom), before);
      var flag := Interrupts(capacity, d, p.early).finished;
      var e := Step(capacity, d, p);
      var f := Run(capacity, e, after);
      && (flag || Completes(d, e, 'a' as int)) && !e.reset
      && Tables(e.sent) == Tables(d.sent) + [t] && HasReason(t, if flag then REASON_DONE else REASON_ABORTED)
      && Shows(capacity, e, t) && (flag ==> |t.data| == 2 * capacity)
      && (e.finished <==> !flag && AtHandler(capacity, d, p).finished)
      && (e.finished && after != [] ==> f.reset)
      && (!e.finished ==>
          && f.pstate == Done && f.calls == e.calls + calls
          && (f.reset <==> exists c | c in calls :: c.cmd == 'r' as int)
          && Tables(f.sent) == Tables(e.sent) + resent && |resent| == Resends(calls)
          && forall r | r in resent :: Repeats(t, r))
  {
    BootFits(capacity, eeprom);
    BootPlausible(eeprom);
    RunKeeps(capacity, Boot(eeprom), before);
    RunPlausible(capacity, Boot(eeprom), before);
    var d := Run(capacity, Boot(eeprom), before);
    hide Run, Step, Tables, Clockwork, TablesFit, PlausibleCommand, Interrupts, AtHandler, Boot, Completes, Shows;
    t := EndsExactly(capacity, d, p);
    var e := Step(capacity, d, p);
    calls, resent := [], [];
    StepKeeps(capacity, d, p);
    StepPlausible(capacity, d, p);
    if e.finished {
      if after != [] {
        PendingFlagResets(capacity, e, after);
      }
    } else {
      calls, resent := DoneRun(capacity, e, after);
      forall r | r in resent
        ensures Repeats(t, r)
      {
        ShownTwice(capacity, e, t, r);
      }
    }
  }

  lemma {:induction false} PendingFlagResets(capacity: nat, d: Device, passes: seq<Input>)
    requires capacity > 0 && Inv(capacity, d) && !d.reset && d.pstate == Done && d.finished && passes != []
    ensures Run(capacity, d, passes).reset
    decreases |passes|
  {
    hide Step, TablesFit, Clockwork;
    var n := |passes| - 1;
    if n == 0 {
      assert passes[..0] == [];
      DoneResets(capacity, d, passes[0]);
    } else {
      PendingFlagResets(capacity, d, passes[..n]);
      ResetStays(capacity, Run(capacity, d, passes[..n]), passes[n]);
    }
  }

  lemma ShownTwice(capacity: nat, d: Device, t: Packet, r: Packet)
    requires Shows(capacity, d, t) && Shows(capacity, d, r) && HasReason(r, REASON_RESEND)
    ensures Repeats(t, r)
  {
    hide Elapsed, CellBytes, TableSize;
  }
}
