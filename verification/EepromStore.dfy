/**
  The stored parameters of firmware/main.c: what a device holds in its EEPROM, when that changes, and
  what is made of it later, in the same run or after any number of resets.
 */
module EepromStore {
  import opened Bytes
  import opened Checksum
  import opened CommandParser
  import opened Firmware
  import opened FirmwareRuns
  import opened FrameDefs
  import opened ParameterEcho
  import opened PassOutcomes
  import opened TimeSeries

  // ----- Storing -----

  /** The handler of a store command in Ready. */
  lemma StoreCall(d: Device)
    requires d.pstate == Ready
    ensures var e := HandleReady(d, 'e' as int);
      e.eeprom == d.param && e.param == d.param && e.pstate == Ready && e.reset == d.reset
  {
    hide StartMeasurement;
  }

  /**
    A store command completed in Ready, in any run: the EEPROM then holds exactly the command's
    parameters and their number if and only if no switch press was rejected during its frame.
   */
  lemma StoredExactly(capacity: nat, eeprom: Room, before: seq<Input>, frame: seq<Input>, last: Input)
    returns (c: Command)
    requires capacity > 0 && FrameRun(capacity, Run(capacity, Boot(eeprom), before), frame)
    requires var f := Run(capacity, Run(capacity, Boot(eeprom), before), frame);
      Completes(f, Step(capacity, f, last), 'e' as int)
    ensures var d := Run(capacity, Boot(eeprom), before);
      var f := Run(capacity, d, frame);
      var e := Step(capacity, f, last);
      && e.calls == f.calls + [c] && e.pstate == Ready && !e.reset
      && (Holds(e.eeprom, c.params) <==> Untorn(capacity, d, frame))
  {
    hide Step, HandleCommand, Clockwork, TablesFit, PlausibleCommand, Untorn, Holds, Boot;
    HandlerFindsTheFrame(capacity, eeprom, before, frame, last);
    var d := Run(capacity, Boot(eeprom), before);
    var f := Run(capacity, d, frame);
    BootFits(capacity, eeprom);
    BootPlausible(eeprom);
    RunKeeps(capacity, Boot(eeprom), before);
    RunPlausible(capacity, Boot(eeprom), before);
    FrameOutcome(capacity, d, frame);
    c := CallPass(capacity, f, last);
    StoreHandler(capacity, f.(raw := [], calls := f.calls + [c]), last);
  }

  lemma StoreHandler(capacity: nat, d: Device, p: Input)
    requires d.pstate == Ready
    ensures var e := HandleCommand(capacity, d, 'e' as int, p);
      e.eeprom == d.param && e.pstate == Ready && e.reset == d.reset
  {
    StoreCall(d);
    hide HandleReady;
  }

  // ----- Keeping -----

  lemma CommandKeepsEeprom(capacity: nat, d: Device, cmd: byte, p: Input)
    requires cmd != 'e' as int || d.pstate != Ready
    ensures HandleCommand(capacity, d, cmd, p).eeprom == d.eeprom
  {
    hide HandleReady, HandleMeasuring, HandleDone;
    match d.pstate
    case Ready => ReadyKeepsEeprom(d, cmd);
    case Measuring => MeasuringKeepsEeprom(capacity, d, cmd, p);
    case Done => DoneKeepsEeprom(capacity, d, cmd, p);
  }

  lemma ReadyKeepsEeprom(d: Device, cmd: byte)
    requires cmd != 'e' as int
    ensures HandleReady(d, cmd).eeprom == d.eeprom
  {
    hide Value, StartMeasurement;
    if cmd == CMD_MEASURE {
      StartKeepsEeprom(d);
    }
  }

  lemma StartKeepsEeprom(d: Device)
    ensures StartMeasurement(d).eeprom == d.eeprom
  {
    hide Value;
  }

  lemma MeasuringKeepsEeprom(capacity: nat, d: Device, cmd: byte, p: Input)
    ensures HandleMeasuring(capacity, d, cmd, p).eeprom == d.eeprom
  {
    hide SendTable;
    if cmd == CMD_INTERMEDIATE {
      SendTableKeepsEeprom(capacity, d, REASON_INTERMEDIATE, p);
    } else if cmd == CMD_ABORT {
      SendTableKeepsEeprom(capacity, Send(d, State(MsgDone)).(interrupts := false), REASON_ABORTED, p);
    }
  }

  lemma DoneKeepsEeprom(capacity: nat, d: Device, cmd: byte, p: Input)
    ensures HandleDone(capacity, d, cmd, p).eeprom == d.eeprom
  {
    hide SendTable;
    if !Ignored(cmd) {
      SendTableKeepsEeprom(capacity, d, REASON_RESEND, p);
    }
  }

  lemma SendTableKeepsEeprom(capacity: nat, d: Device, reason: byte, p: Input)
    ensures SendTable(capacity, d, reason, p).eeprom == d.eeprom
  {
    var d1 := Interrupts(capacity, d, p.untilSize);
    var d2 := Interrupts(capacity, d1, p.inSize);
    var d3 := Interrupts(capacity, d2, p.afterSize);
    InterruptsFrame(capacity, d, p.untilSize);
    InterruptsFrame(capacity, d1, p.inSize);
    InterruptsFrame(capacity, d2, p.afterSize);
    InterruptsFrame(capacity, d3, p.inSecond);
    hide Interrupts, TableBytes, SizeRead, ReadElapsed;
  }

  /** A pass changes the EEPROM only by completing a store command in Ready. */
  lemma EepromStep(capacity: nat, d: Device, p: Input)
    requires Inv(capacity, d) && PlausibleCommand(PARAM_SIZE, d.raw)
    ensures var e := Step(capacity, d, p);
      e.eeprom != d.eeprom ==> d.pstate == Ready && Completes(d, e, 'e' as int)
  {
    hide Clockwork, TablesFit, Interrupts, HandleByte, HandleCommand, HandleFinished, Value;
    if !d.reset {
      if Step(capacity, d, p).calls != d.calls {
        hide Step;
        var c := CallPass(capacity, d, p);
        HandlerFinds(capacity, d, p);
        var m := AtHandler(capacity, d, p).(raw := [], calls := d.calls + [c]);
        if c.cmd != 'e' as int || d.pstate != Ready {
          CommandKeepsEeprom(capacity, m, c.cmd, p);
        }
      } else {
        HandlerFinds(capacity, d, p);
        var d1 := AtHandler(capacity, d, p);
        FinishedKeepsEeprom(capacity, d1, p);
        if p.rx != [] {
          if HandleByte(capacity, d1, p.rx[0], p).calls == d.calls {
            UncalledByte(capacity, d1, p.rx[0], p);
          }
        }
      }
    }
  }

  lemma FinishedKeepsEeprom(capacity: nat, d: Device, p: Input)
    ensures HandleFinished(capacity, d, p).eeprom == d.eeprom
  {
    SendTableKeepsEeprom(capacity, d.(interrupts := false), REASON_DONE, p);
    hide SendTable;
  }

  lemma CallsGrow(capacity: nat, d: Device, p: Input)
    requires Inv(capacity, d) && PlausibleCommand(PARAM_SIZE, d.raw)
    ensures var e := Step(capacity, d, p);
      |d.calls| <= |e.calls| <= |d.calls| + 1 && e.calls[..|d.calls|] == d.calls
  {
    hide Clockwork, TablesFit, Step, HandleCommand, Interrupts;
    if !d.reset && Step(capacity, d, p).calls != d.calls {
      var c := CallPass(capacity, d, p);
    } else {
      ResetStays(capacity, d, p);
    }
  }

  /** No run without a completed store command changes the EEPROM. */
  lemma {:induction false} StoredStays(capacity: nat, d: Device, passes: seq<Input>)
    requires capacity > 0 && Inv(capacity, d) && PlausibleCommand(PARAM_SIZE, d.raw)
    ensures var e := Run(capacity, d, passes);
      && |d.calls| <= |e.calls| && e.calls[..|d.calls|] == d.calls
      && ((forall c | c in e.calls[|d.calls|..] :: c.cmd != 'e' as int) ==> e.eeprom == d.eeprom)
    decreases |passes|
  {
    hide Clockwork, TablesFit, Step, PlausibleCommand;
    if passes != [] {
      var n := |passes| - 1;
      StoredStays(capacity, d, passes[..n]);
      RunKeeps(capacity, d, passes[..n]);
      RunPlausible(capacity, d, passes[..n]);
      var m := Run(capacity, d, passes[..n]);
      EepromStep(capacity, m, passes[n]);
      CallsGrow(capacity, m, passes[n]);
      var e := Step(capacity, m, passes[n]);
      assert Run(capacity, d, passes) == e;
      assert e.calls[..|d.calls|] == m.calls[..|d.calls|];
      assert m.calls[|d.calls|..] == e.calls[|d.calls|..|m.calls|];
      assert forall c | c in m.calls[|d.calls|..] :: c in e.calls[|d.calls|..];
      if e.calls != m.calls {
        assert e.calls[|e.calls| - 1] in e.calls[|d.calls|..];
      }
    }
  }

  // ----- Using -----

  /**
    A switch press in Ready: a stored block of at most sixteen bytes is copied and starts a
    measurement if its timer value is at least two, and resets the device otherwise; a longer one is
    turned down. The bytes of a command that is coming in stay where they are.
   */
  lemma PressOutcome(capacity: nat, d: Device, p: Input)
    requires Inv(capacity, d) && !d.reset && d.pstate == Ready && p.switchDown
    ensures var e := Step(capacity, d, p);
      var valid, value := d.eeprom.length <= 16, TimerValue(d.eeprom);
      && e.param == d.eeprom == e.eeprom && Parser(e) == Parser(d)
      && (e.pstate == Measuring <==> valid && value >= 2) && (e.reset <==> valid && value < 2)
      && (!valid ==> e.pstate == Ready && e.sent == d.sent + [Text(MsgInvalidEeprom), State(MsgReady)])
      && (valid && value < 2 ==> e.pstate == Ready && e.sent == d.sent + [Text(MsgTimerValue)])
      && (valid && value >= 2 ==> e.series == Counting(value, []) && e.sent == d.sent + [State(MsgMeasuring)])
  {
    ReadyStep(capacity, d, p);
    StartInNumbers(d.(param := d.eeprom));
    hide Clockwork, TablesFit, StartMeasurement, Step;
  }

  /** A command that reads the EEPROM, in Ready. */
  lemma ReadCall(capacity: nat, d: Device, p: Input)
    requires d.pstate == Ready
    ensures var e := HandleCommand(capacity, d, 'E' as int, p);
      var valid := d.eeprom.length <= 16;
      && e.param == d.eeprom == e.eeprom && e.pstate == Ready && e.reset == d.reset
      && |e.sent| == |d.sent| + 2 && e.sent[..|d.sent|] == d.sent && e.sent[|d.sent| + 1] == State(MsgReady)
      && e.sent[|d.sent|] == if valid then EepromParams(d.eeprom.params[..d.eeprom.length]) else Text(MsgInvalidEeprom)
  {
    hide StartMeasurement;
  }

  lemma TwoMore(a: seq<Packet>, b: seq<Packet>)
    requires |b| == |a| + 2 && b[..|a|] == a
    ensures b == a + [b[|a|], b[|a| + 1]]
  {
  }

  /**
    What stored parameters are good for, in any run that is ready and has them: a command that reads
    them back gets exactly them and leaves them in the parameter buffer; a switch press starts slots
    of as many ticks as their first two bytes say and puts exactly them into every table.
   */
  lemma StoredAreUsed(capacity: nat, eeprom: Room, before: seq<Input>, p: Input, after: seq<Input>, params: seq<byte>)
    requires capacity > 0
    requires var d := Run(capacity, Boot(eeprom), before); !d.reset && d.pstate == Ready && Holds(d.eeprom, params)
    ensures var d := Run(capacity, Boot(eeprom), before);
      var e := Step(capacity, d, p);
      && (Completes(d, e, 'E' as int) ==>
          e.sent == d.sent + [EepromParams(params), State(MsgReady)] && Holds(e.param, params))
      && (|params| >= 2 ==> TimerValue(d.eeprom) == Number(params[0], params[1]))
      && (p.switchDown && TimerValue(d.eeprom) >= 2 ==>
          && e.pstate == Measuring && e.series == Counting(TimerValue(d.eeprom), [])
          && forall t | t in Tables(Run(capacity, e, after).sent) :: t.Table? && t.echo == params)
  {
    BootFits(capacity, eeprom);
    BootPlausible(eeprom);
    RunKeeps(capacity, Boot(eeprom), before);
    RunPlausible(capacity, Boot(eeprom), before);
    var d := Run(capacity, Boot(eeprom), before);
    hide Run, Step, Tables, TablesFit, PlausibleCommand, Boot, HandleCommand, FrameRun, Untorn;
    var e := Step(capacity, d, p);
    if Completes(d, e, 'E' as int) {
      var c := CallPass(capacity, d, p);
      HandlerFinds(capacity, d, p);
      ReadCall(capacity, AtHandler(capacity, d, p).(raw := [], calls := d.calls + [c]), p);
      TwoMore(d.sent, e.sent);
    }
    if p.switchDown && TimerValue(d.eeprom) >= 2 {
      PressOutcome(capacity, d, p);
      var n, c := TablesEchoTheStart(capacity, eeprom, before, p, after);
    }
    if |params| >= 2 {
      assert d.eeprom.params[..|params|][0] == params[0] && d.eeprom.params[..|params|][1] == params[1];
    }
  }

  /** What the EEPROM holds after several runs, each from boot to its reset. */
  function Stored(capacity: nat, eeprom: Room, runs: seq<seq<Input>>): Room
  {
    if runs == [] then eeprom
    else
      var n := |runs| - 1;
      Run(capacity, Boot(Stored(capacity, eeprom, runs[..n])), runs[n]).eeprom
  }

  /** No reset changes the EEPROM, and no run in which no store command is completed. */
  lemma {:induction false} StoredSurvives(capacity: nat, eeprom: Room, runs: seq<seq<Input>>)
    requires capacity > 0
    requires forall n, c | 0 <= n < |runs|
               && c in Run(capacity, Boot(Stored(capacity, eeprom, runs[..n])), runs[n]).calls :: c.cmd != 'e' as int
    ensures Stored(capacity, eeprom, runs) == eeprom
  {
    hide Run, Clockwork, TablesFit, PlausibleCommand;
    if runs != [] {
      var n := |runs| - 1;
      var init := runs[..n];
      assert forall k | 0 <= k <= n :: init[..k] == runs[..k];
      StoredSurvives(capacity, eeprom, init);
      BootFits(capacity, eeprom);
      BootPlausible(eeprom);
      StoredStays(capacity, Boot(eeprom), runs[n]);
      assert Boot(eeprom).calls == [];
    }
  }
}
