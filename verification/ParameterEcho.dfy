/**
  The parameter buffer of firmware/main.c, frame by frame: when the handler of a command finds the
  bytes that were sent in it, and what every table of a measurement echoes.
 */
module ParameterEcho {
  import opened Bytes
  import opened Checksum
  import opened CommandParser
  import opened Firmware
  import opened FirmwareRuns
  import opened FrameDefs
  import opened TimeSeries

  /** The buffer holds exactly these parameters and their number. */
  predicate Holds(block: Room, params: seq<byte>)
  {
    |params| <= MAX_PARAM_LENGTH && block.length == |params| && block.params[..|params|] == params
  }

  /** Ready, with a frame coming in whose length byte has been accepted. */
  predicate Collecting(d: Device) { !d.reset && d.pstate == Ready && |d.raw| >= 6 }

  /** The buffer has followed the frame so far. */
  predicate Following(d: Device)
  {
    && 6 <= |d.raw| <= 6 + MAX_PARAM_LENGTH
    && d.param.length == d.raw[5] && d.param.params[..|d.raw| - 6] == d.raw[6..]
  }

  /** The buffer's length is the one a rejected switch press has put there. */
  predicate Torn(d: Device) { !ValidLength(d.param) && !ValidLength(d.eeprom) }

  /** The pass rejects a switch press between a frame's length and checksum bytes. */
  predicate Tears(d: Device, p: Input)
  {
    p.switchDown && !d.switchLocked && d.pstate == Ready && |d.raw| >= 6 && !ValidLength(d.eeprom)
  }

  predicate Untorn(capacity: nat, d: Device, passes: seq<Input>)
  {
    forall n | 0 <= n < |passes| :: !Tears(Run(capacity, d, passes[..n]), passes[n])
  }

  /** The first pass takes a frame's length byte, and no later one ends the frame or leaves Ready. */
  predicate FrameRun(capacity: nat, d: Device, passes: seq<Input>)
  {
    && passes != [] && !d.reset && d.pstate == Ready && |d.raw| == 5
    && forall n | 1 <= n <= |passes| :: Collecting(Run(capacity, d, passes[..n]))
  }

  // ----- One pass -----

  /** Ready, no interrupt changes anything, and a pass is the switch, a byte, or nothing. */
  lemma ReadyStep(capacity: nat, d: Device, p: Input)
    requires Clockwork(capacity, d) && d.pstate == Ready && !d.reset
    ensures Step(capacity, d, p) ==
              if p.switchDown then HandleSwitch(d)
              else if p.rx != [] then HandleByte(capacity, d, p.rx[0], p)
              else d
  {
    hide Interrupt, HandleSwitch, HandleByte;
    InterruptsKeep(capacity, d, p.early);
    InterruptsKeep(capacity, d, p.middle);
  }

  /** The length byte of a frame that is accepted goes to the buffer. */
  lemma LengthStored(capacity: nat, d: Device, p: Input)
    requires Clockwork(capacity, d) && d.pstate == Ready && !d.reset && |d.raw| == 5
    requires Collecting(Step(capacity, d, p))
    ensures Following(Step(capacity, d, p))
  {
    hide Clockwork, HandleByte, Value;
    ReadyStep(capacity, d, p);
    if !p.switchDown && p.rx != [] {
      LengthByte(capacity, d, p.rx[0], p);
    }
  }

  /** While a frame comes in, only a rejected switch press parts the buffer from it, and for good. */
  lemma CollectingStep(capacity: nat, d: Device, p: Input)
    requires Clockwork(capacity, d) && PlausibleCommand(PARAM_SIZE, d.raw)
    requires Collecting(d) && Collecting(Step(capacity, d, p))
    ensures var e := Step(capacity, d, p);
      && (Following(d) && !Tears(d, p) ==> Following(e))
      && (Following(d) && Tears(d, p) ==> Torn(e))
      && (Torn(d) ==> Torn(e))
  {
    assert !d.switchLocked;
    hide Clockwork, HandleByte, Value, Take;
    ReadyStep(capacity, d, p);
    if !p.switchDown && p.rx != [] {
      CollectingByte(capacity, d, p.rx[0], p);
    }
  }

  lemma CollectingByte(capacity: nat, d: Device, u: byte, p: Input)
    requires PlausibleCommand(PARAM_SIZE, d.raw) && Collecting(d) && Collecting(HandleByte(capacity, d, u, p))
    ensures var e := HandleByte(capacity, d, u, p);
      (Following(d) ==> Following(e)) && (Torn(d) ==> Torn(e))
  {
    var n := |d.raw| - 6;
    if n < ParamLength(d.raw) {
      ParamByte(capacity, d, u, p);
      hide HandleByte;
      assert (d.raw + [u])[6..] == d.raw[6..] + [u];
      assert d.param.params[n := u][..n + 1] == d.param.params[..n] + [u];
    } else {
      TakeChecksum(PARAM_SIZE, Parser(d), u);
      ByteFrame(capacity, d, u, p);
    }
  }

  /** A command is handed on by its checksum byte, and the handler works on the buffer as it is. */
  lemma Completion(capacity: nat, d: Device, p: Input)
    requires Clockwork(capacity, d) && PlausibleCommand(PARAM_SIZE, d.raw) && d.pstate == Ready && !d.reset
    requires Step(capacity, d, p).calls != d.calls
    ensures |d.raw| >= 6 && |d.raw| == 6 + ParamLength(d.raw)
    ensures var c := Command(d.raw[4], d.raw[6..]);
      && Step(capacity, d, p) == HandleCommand(capacity, d.(raw := [], calls := d.calls + [c]), c.cmd, p)
      && Step(capacity, d, p).calls == d.calls + [c] && Wellformed(PARAM_SIZE, c)
  {
    ReadyStep(capacity, d, p);
    SwitchCallsNothing(d);
    if !p.switchDown {
      hide Clockwork;
      ByteFrame(capacity, d, p.rx[0], p);
      CompletingByte(capacity, d, p.rx[0], p);
    }
  }

  lemma SwitchCallsNothing(d: Device)
    ensures HandleSwitch(d).calls == d.calls
  {
    hide Value;
  }

  lemma CompletingByte(capacity: nat, d: Device, u: byte, p: Input)
    requires PlausibleCommand(PARAM_SIZE, d.raw) && Take(PARAM_SIZE, Parser(d), u).calls != d.calls
    ensures |d.raw| >= 6 && |d.raw| == 6 + ParamLength(d.raw)
    ensures var c := Command(d.raw[4], d.raw[6..]);
      && HandleByte(capacity, d, u, p) == HandleCommand(capacity, d.(raw := [], calls := d.calls + [c]), c.cmd, p)
      && HandleByte(capacity, d, u, p).calls == d.calls + [c] && Wellformed(PARAM_SIZE, c)
  {
    TakeChecksum(PARAM_SIZE, Parser(d), u);
    FinalByte(capacity, d, u, p);
    hide HandleCommand, HandleByte;
    var c := Command(d.raw[4], d.raw[6..]);
    CommandFrame(capacity, d.(raw := [], calls := d.calls + [c]), c.cmd, p);
  }

  // ----- One frame -----

  lemma {:induction false} RunPlausible(capacity: nat, d: Device, passes: seq<Input>)
    requires PlausibleCommand(PARAM_SIZE, d.raw)
    ensures PlausibleCommand(PARAM_SIZE, Run(capacity, d, passes).raw)
  {
    hide Step, PlausibleCommand;
    if passes != [] {
      var n := |passes| - 1;
      RunPlausible(capacity, d, passes[..n]);
      StepPlausible(capacity, Run(capacity, d, passes[..n]), passes[n]);
    }
  }

  lemma StepPlausible(capacity: nat, d: Device, p: Input)
    requires PlausibleCommand(PARAM_SIZE, d.raw)
    ensures PlausibleCommand(PARAM_SIZE, Step(capacity, d, p).raw)
  {
    hide Step, Take, PlausibleCommand, Interrupts;
    StepParses(capacity, d, p);
    var r := Parser(d);
    if Consumed(capacity, d, p) != [] {
      TakeOutcome(PARAM_SIZE, r, p.rx[0]);
      TakeSnoc(PARAM_SIZE, r, [], p.rx[0]);
      assert [] + [p.rx[0]] == p.rx;
    }
  }

  /**
    The buffer at any point of a frame: it has followed the frame if no pass since the length byte
    has torn it, and otherwise its length is out of range until the frame ends.
   */
  lemma {:induction false} FrameOutcome(capacity: nat, d: Device, passes: seq<Input>)
    requires capacity > 0 && Inv(capacity, d) && PlausibleCommand(PARAM_SIZE, d.raw) && FrameRun(capacity, d, passes)
    ensures var f := Run(capacity, d, passes);
      && Inv(capacity, f) && PlausibleCommand(PARAM_SIZE, f.raw) && Collecting(f)
      && (if Untorn(capacity, d, passes) then Following(f) else Torn(f))
    decreases |passes|
  {
    hide Step, PlausibleCommand, TablesFit, Clockwork, Following, Torn;
    var n := |passes| - 1;
    RunKeeps(capacity, d, passes);
    RunPlausible(capacity, d, passes);
    assert passes[..|passes|] == passes;
    if n == 0 {
      assert passes[..0] == [];
      LengthStored(capacity, d, passes[0]);
    } else {
      var init := passes[..n];
      assert forall k | 0 <= k <= n :: init[..k] == passes[..k];
      FrameOutcome(capacity, d, init);
      CollectingStep(capacity, Run(capacity, d, init), passes[n]);
      UntornSnoc(capacity, d, passes);
    }
  }

  lemma UntornSnoc(capacity: nat, d: Device, passes: seq<Input>)
    requires passes != []
    ensures var n := |passes| - 1;
      Untorn(capacity, d, passes) <==>
        Untorn(capacity, d, passes[..n]) && !Tears(Run(capacity, d, passes[..n]), passes[n])
  {
    hide Run, Tears;
    var n := |passes| - 1;
    assert forall k | 0 <= k <= n :: passes[..n][..k] == passes[..k];
    assert forall k | 0 <= k < n :: passes[..n][k] == passes[k];
  }

  /**
    For every command completed in Ready, in every run: the handler finds exactly its parameters
    and their number in the buffer if and only if no pass of that frame, after the one that takes
    the length byte, rejects a switch press.
   */
  lemma HandlerFindsTheFrame(capacity: nat, eeprom: Room, before: seq<Input>, frame: seq<Input>, last: Input)
    requires capacity > 0 && FrameRun(capacity, Run(capacity, Boot(eeprom), before), frame)
    requires var f := Run(capacity, Run(capacity, Boot(eeprom), before), frame);
      Step(capacity, f, last).calls != f.calls
    ensures var d := Run(capacity, Boot(eeprom), before);
      var f := Run(capacity, d, frame);
      |f.raw| >= 6 &&
      var c := Command(f.raw[4], f.raw[6..]);
      var handed := f.(raw := [], calls := f.calls + [c]);
      && Step(capacity, f, last) == HandleCommand(capacity, handed, c.cmd, last)
      && (Holds(handed.param, c.params) <==> Untorn(capacity, d, frame))
  {
    hide Run, Step, HandleCommand, Clockwork, TablesFit, PlausibleCommand, Untorn, FrameRun;
    BootFits(capacity, eeprom);
    BootPlausible(eeprom);
    RunKeeps(capacity, Boot(eeprom), before);
    RunPlausible(capacity, Boot(eeprom), before);
    var d := Run(capacity, Boot(eeprom), before);
    FrameOutcome(capacity, d, frame);
    Completion(capacity, Run(capacity, d, frame), last);
  }

  lemma BootPlausible(eeprom: Room)
    ensures PlausibleCommand(PARAM_SIZE, Boot(eeprom).raw)
  {
  }

  lemma {:induction false} RunConcat(capacity: nat, d: Device, a: seq<Input>, b: seq<Input>)
    ensures Run(capacity, d, a + b) == Run(capacity, Run(capacity, d, a), b)
  {
    hide Step;
    if b == [] {
      assert a + b == a;
    } else {
      var b0 := b[..|b| - 1];
      RunConcat(capacity, d, a, b0);
      assert (a + b)[..|a + b| - 1] == a + b0;
    }
  }

  /** A pass adds at most one byte to a frame, and a frame beyond its length byte has begun in Ready. */
  lemma FrameStep(capacity: nat, d: Device, p: Input)
    requires Collecting(Step(capacity, d, p))
    ensures !d.reset && d.pstate == Ready && |d.raw| >= 5
  {
    hide Take, Step, Consumed;
    StepParses(capacity, d, p);
    if d.pstate != Ready {
      StepFreezesParams(capacity, d, p);
    }
    ResetStays(capacity, d, p);
    var bytes := Consumed(capacity, d, p);
    ConsumedBound(capacity, d, p);
    if bytes != [] {
      TakeSnoc(PARAM_SIZE, Parser(d), [], bytes[0]);
      assert [] + [bytes[0]] == bytes;
      TakeLength(Parser(d), bytes[0]);
    }
  }

  lemma ConsumedBound(capacity: nat, d: Device, p: Input)
    ensures |Consumed(capacity, d, p)| <= 1
  {
  }

  lemma TakeLength(r: Receiver, u: byte)
    ensures |Take(PARAM_SIZE, r, u).raw| <= |r.raw| + 1
  {
  }

  lemma ResetStays(capacity: nat, d: Device, p: Input)
    ensures d.reset ==> Step(capacity, d, p) == d
  {
  }

  /** Every frame in a run has the pass that took its length byte. */
  lemma {:induction false} FrameBegins(capacity: nat, eeprom: Room, passes: seq<Input>) returns (n: nat)
    requires Collecting(Run(capacity, Boot(eeprom), passes))
    ensures n < |passes| && FrameRun(capacity, Run(capacity, Boot(eeprom), passes[..n]), passes[n..])
    decreases |passes|
  {
    hide Step;
    var m := |passes| - 1;
    var init := passes[..m];
    var g := Run(capacity, Boot(eeprom), init);
    FrameStep(capacity, g, passes[m]);
    if |g.raw| == 5 {
      n := m;
      FrameOfOne(capacity, g, passes[m..]);
    } else {
      n := FrameBegins(capacity, eeprom, init);
      assert init[..n] == passes[..n] && passes[n..] == init[n..] + [passes[m]];
      RunConcat(capacity, Boot(eeprom), passes[..n], init[n..]);
      assert passes[..n] + init[n..] == init;
      FrameGrows(capacity, Run(capacity, Boot(eeprom), passes[..n]), init[n..], passes[m]);
    }
  }

  lemma FrameOfOne(capacity: nat, d: Device, one: seq<Input>)
    requires |one| == 1 && !d.reset && d.pstate == Ready && |d.raw| == 5 && Collecting(Step(capacity, d, one[0]))
    ensures FrameRun(capacity, d, one)
  {
    hide Step;
    assert one[..1] == one && one[..0] == [];
    assert Run(capacity, d, one) == Step(capacity, Run(capacity, d, one[..0]), one[0]);
  }

  lemma FrameGrows(capacity: nat, d: Device, passes: seq<Input>, p: Input)
    requires FrameRun(capacity, d, passes) && Collecting(Step(capacity, Run(capacity, d, passes), p))
    ensures FrameRun(capacity, d, passes + [p])
  {
    hide Step;
    var all := passes + [p];
    forall n | 1 <= n <= |all|
      ensures Collecting(Run(capacity, d, all[..n]))
    {
      if n <= |passes| {
        assert all[..n] == passes[..n];
      } else {
        assert all[..n] == all && all[..|passes|] == passes;
      }
    }
  }

  // ----- Measurements -----

  /**
    A measurement begins with a valid stored block, or with what the buffer holds when a measure
    command is complete.
   */
  lemma StartOrigin(capacity: nat, d: Device, p: Input)
    requires Inv(capacity, d) && PlausibleCommand(PARAM_SIZE, d.raw) && !d.reset && d.pstate == Ready
    requires Step(capacity, d, p).pstate == Measuring
    ensures var e := Step(capacity, d, p);
      && e.series == Counting(Value(e.param.params[..2]), [])
      && (e.calls == d.calls ==> ValidLength(d.eeprom) && e.param == d.eeprom)
      && (e.calls != d.calls ==>
          && Collecting(d) && e.param == d.param
          && e.calls == d.calls + [Command(CMD_MEASURE, d.raw[6..])] && |d.raw| <= 6 + MAX_PARAM_LENGTH)
  {
    hide TablesFit, Value, PlausibleCommand, HandleReady, HandleByte;
    ReadyStep(capacity, d, p);
    if Step(capacity, d, p).calls != d.calls {
      Completion(capacity, d, p);
      var c := Command(d.raw[4], d.raw[6..]);
      ReadyStart(d.(raw := [], calls := d.calls + [c]), c.cmd);
    } else if !p.switchDown {
      ByteWithoutCall(capacity, d, p.rx[0], p);
    }
  }

  lemma ByteWithoutCall(capacity: nat, d: Device, u: byte, p: Input)
    requires HandleByte(capacity, d, u, p).calls == d.calls
    ensures HandleByte(capacity, d, u, p).pstate == d.pstate
  {
    ByteFrame(capacity, d, u, p);
    TakeGrows(Parser(d), u);
    hide Take, HandleCommand;
  }

  lemma ReadyStart(d: Device, cmd: byte)
    requires d.pstate == Ready
    ensures var e := HandleReady(d, cmd);
      e.pstate == Measuring ==>
        cmd == CMD_MEASURE && e.param == d.param && e.series == Counting(Value(d.param.params[..2]), [])
  {
    hide Value;
    if cmd == CMD_MEASURE {
    } else {
      hide StartMeasurement;
    }
  }

  /** Every table of a run that has left Ready sends back the buffer it was left with. */
  lemma TablesEcho(capacity: nat, e: Device, after: seq<Input>, t: Packet)
    requires capacity > 0 && Inv(capacity, e) && e.pstate != Ready && t in Tables(Run(capacity, e, after).sent)
    ensures Echoes(e, t)
  {
    hide Run, Tables, Clockwork;
    ParamsFrozen(capacity, e, after);
    RunKeeps(capacity, e, after);
    assert Echoes(Run(capacity, e, after), t);
  }

  /**
    The parameter echo over a whole run. A measurement the switch started echoes the stored block
    in every table. One that a command started echoes exactly the command's parameters if and only
    if no switch press was rejected during that command's frame, which began with pass `n`.
   */
  lemma TablesEchoTheStart(capacity: nat, eeprom: Room, before: seq<Input>, p: Input, after: seq<Input>)
      returns (n: nat, c: Command)
    requires capacity > 0
    requires var d := Run(capacity, Boot(eeprom), before);
      !d.reset && d.pstate == Ready && Step(capacity, d, p).pstate == Measuring
    ensures var d := Run(capacity, Boot(eeprom), before);
      var e := Step(capacity, d, p);
      var tables := Tables(Run(capacity, e, after).sent);
      && (e.calls == d.calls ==>
          ValidLength(d.eeprom) && forall t | t in tables :: t.Table? && t.echo == d.eeprom.params[..d.eeprom.length])
      && (e.calls != d.calls ==>
          && n < |before| && FrameRun(capacity, Run(capacity, Boot(eeprom), before[..n]), before[n..])
          && c.cmd == CMD_MEASURE && e.calls == d.calls + [c]
          && forall t | t in tables ::
               t.Table? && (t.echo == c.params
                   <==> Untorn(capacity, Run(capacity, Boot(eeprom), before[..n]), before[n..])))
  {
    hide Run, Step, Tables, Boot, PlausibleCommand, TablesFit, Clockwork, FrameRun, Untorn, Following, Torn;
    BootFits(capacity, eeprom);
    BootPlausible(eeprom);
    RunKeeps(capacity, Boot(eeprom), before);
    RunPlausible(capacity, Boot(eeprom), before);
    var d := Run(capacity, Boot(eeprom), before);
    StartOrigin(capacity, d, p);
    StepKeeps(capacity, d, p);
    var e := Step(capacity, d, p);
    n, c := 0, Command(CMD_MEASURE, if |d.raw| >= 6 then d.raw[6..] else []);
    if e.calls != d.calls {
      n := FrameBegins(capacity, eeprom, before);
      CommandStart(capacity, eeprom, before, n, p);
    }
    forall t | t in Tables(Run(capacity, e, after).sent)
      ensures Echoes(e, t)
    {
      TablesEcho(capacity, e, after, t);
    }
  }

  /** The buffer a command starts a measurement from. */
  lemma CommandStart(capacity: nat, eeprom: Room, before: seq<Input>, n: nat, p: Input)
    requires capacity > 0 && n < |before| && FrameRun(capacity, Run(capacity, Boot(eeprom), before[..n]), before[n..])
    requires var d := Run(capacity, Boot(eeprom), before); Step(capacity, d, p).calls != d.calls
    ensures var d := Run(capacity, Boot(eeprom), before);
      |d.raw| >= 6 &&
      if Untorn(capacity, Run(capacity, Boot(eeprom), before[..n]), before[n..]) then Holds(d.param, d.raw[6..])
      else !ValidLength(d.param) && |d.raw| <= 6 + MAX_PARAM_LENGTH
  {
    hide Run, Step, Boot, PlausibleCommand, TablesFit, Clockwork, FrameRun, Untorn, HandleCommand;
    BootFits(capacity, eeprom);
    BootPlausible(eeprom);
    RunKeeps(capacity, Boot(eeprom), before[..n]);
    RunPlausible(capacity, Boot(eeprom), before[..n]);
    RunConcat(capacity, Boot(eeprom), before[..n], before[n..]);
    assert before[..n] + before[n..] == before;
    FrameOutcome(capacity, Run(capacity, Boot(eeprom), before[..n]), before[n..]);
    Completion(capacity, Run(capacity, Boot(eeprom), before), p);
  }

  // ----- A torn frame -----

  /** An EEPROM that has never been written. */
  function Erased(): Room { ParamBlock(0xff, seq(MAX_PARAM_LENGTH, _ => 0xff)) }

  /** Measure with slots of two ticks and an empty token. */
  const MEASURE := Command(CMD_MEASURE, [2, 0])

  function Quiet(): Input { Pass(false, [], [], [], [], [], [], [], [], seq(0x100, _ => 0), seq(0x100, _ => 0)) }

  function Press(): Input { Quiet().(switchDown := true) }

  function Typing(u: byte): Input { Quiet().(rx := [u]) }

  function Typed(bytes: seq<byte>): seq<Input>
  {
    if bytes == [] then [] else Typed(bytes[..|bytes| - 1]) + [Typing(bytes[|bytes| - 1])]
  }

  predicate AtRest(capacity: nat, d: Device) { Clockwork(capacity, d) && d.pstate == Ready && !d.reset }

  /** Without interrupts and with the switch up, a pass is its byte. */
  lemma TypedStep(capacity: nat, d: Device, p: Input, u: byte)
    requires !d.reset && !d.finished && !p.switchDown && p.rx == [u] && p.early == p.middle == []
    ensures Step(capacity, d, p) == HandleByte(capacity, d, u, p)
  {
    hide HandleByte;
  }

  /** Magic and command byte of a command. */
  lemma {:induction false} TypeHead(capacity: nat, d: Device, c: Command, n: nat)
    requires !d.reset && !d.finished && d.raw == [] && n <= 5
    ensures Run(capacity, d, Typed(Body(c)[..n])) == d.(raw := Body(c)[..n])
  {
    hide HandleByte, Step;
    var b := Body(c);
    if n == 0 {
      assert b[..0] == [];
    } else {
      TypeHead(capacity, d, c, n - 1);
      assert b[..n][..n - 1] == b[..n - 1];
      TypeEarly(capacity, d.(raw := b[..n - 1]), c, n - 1);
      assert Typed(b[..n]) == Typed(b[..n - 1]) + [Typing(b[n - 1])];
      hide *;
      RunSnoc(capacity, d, Typed(b[..n - 1]), Typing(b[n - 1]));
    }
  }

  lemma TypeEarly(capacity: nat, d: Device, c: Command, n: nat)
    requires !d.reset && !d.finished && n <= 4 && d.raw == Body(c)[..n]
    ensures Step(capacity, d, Typing(Body(c)[n])) == d.(raw := Body(c)[..n + 1])
  {
    hide HandleByte, Step;
    var b := Body(c);
    assert b[..n + 1] == b[..n] + [b[n]];
    assert n <= 3 ==> b[..n] == MAGIC[..n] && b[n] == MAGIC[n];
    TypedStep(capacity, d, Typing(b[n]), b[n]);
    EarlyByte(capacity, d, b[n], Typing(b[n]));
  }

  lemma RunSnoc(capacity: nat, d: Device, passes: seq<Input>, p: Input)
    ensures Run(capacity, d, passes + [p]) == Step(capacity, Run(capacity, d, passes), p)
  {
    hide Step;
    assert (passes + [p])[..|passes|] == passes;
  }

  /** The switch between the length byte and the first parameter byte, with nothing valid stored. */
  lemma PressAfterLength(capacity: nat, d: Device)
    requires AtRest(capacity, d) && d.raw == Body(MEASURE)[..5] && d.eeprom == Erased()
    ensures var e := Step(capacity, Step(capacity, d, Typing(2)), Press());
      AtRest(capacity, e) && e.raw == Body(MEASURE)[..6] && e.param == Erased() && e.calls == d.calls
  {
    hide HandleByte, Step, Value;
    var b := Body(MEASURE);
    assert b[..6] == b[..5] + [2];
    ReadyStep(capacity, d, Typing(2));
    LengthByte(capacity, d, 2, Typing(2));
    var f := Step(capacity, d, Typing(2));
    ReadyStep(capacity, f, Press());
  }

  lemma TypeParam(capacity: nat, d: Device, n: nat)
    requires AtRest(capacity, d) && n < 2 && d.raw == Body(MEASURE)[..6 + n]
    ensures Step(capacity, d, Typing(Body(MEASURE)[6 + n]))
         == d.(raw := Body(MEASURE)[..7 + n], param := d.param.(params := d.param.params[n := Body(MEASURE)[6 + n]]))
  {
    hide HandleByte, Step;
    var b := Body(MEASURE);
    assert b[..7 + n] == b[..6 + n] + [b[6 + n]];
    ReadyStep(capacity, d, Typing(b[6 + n]));
    ParamByte(capacity, d, b[6 + n], Typing(b[6 + n]));
  }

  lemma TypeChecksum(capacity: nat, d: Device)
    requires AtRest(capacity, d) && d.raw == Body(MEASURE) && d.param.params[..2] == MEASURE.params
    ensures var e := Step(capacity, d, Typing(Final(Body(MEASURE))));
      e.pstate == Measuring && !e.reset && e.param == d.param && e.calls == d.calls + [MEASURE]
  {
    var b := Body(MEASURE);
    assert b[6..] == MEASURE.params;
    ReadyStep(capacity, d, Typing(Final(b)));
    FinalByte(capacity, d, Final(b), Typing(Final(b)));
    hide HandleByte, Step, Sum;
    ValueOfTwo(2, 0);
  }

  /** Magic, command and length byte, and the switch. */
  function TornHead(): seq<Input> { Typed(Body(MEASURE)[..5]) + [Typing(2)] + [Press()] }

  /** The passes of `MEASURE` with the switch pressed after the length byte. */
  function TornFrame(): seq<Input> { TornHead() + [Typing(2)] + [Typing(0)] + [Typing(Final(Body(MEASURE)))] }

  lemma TornHeadOutcome(capacity: nat)
    requires capacity > 0
    ensures var d := Run(capacity, Boot(Erased()), TornHead());
      AtRest(capacity, d) && d.raw == Body(MEASURE)[..6] && d.param == Erased() && d.calls == []
  {
    var d, passes := Boot(Erased()), Typed(Body(MEASURE)[..5]);
    TypeHead(capacity, d, MEASURE, 5);
    PressAfterLength(capacity, d.(raw := Body(MEASURE)[..5]));
    hide *;
    RunSnoc(capacity, d, passes, Typing(2));
    RunSnoc(capacity, d, passes + [Typing(2)], Press());
    assert TornHead() == passes + [Typing(2)] + [Press()] by { HeadParts(); }
  }

  lemma HeadParts()
    ensures TornHead() == Typed(Body(MEASURE)[..5]) + [Typing(2)] + [Press()]
  {
  }

  /** The passes of `MEASURE` up to its last parameter byte. */
  lemma TornParams(capacity: nat)
    requires capacity > 0
    ensures var d := Run(capacity, Boot(Erased()), TornHead() + [Typing(2)] + [Typing(0)]);
      AtRest(capacity, d) && d.raw == Body(MEASURE) && d.calls == []
      && d.param.length == 0xff && d.param.params[..2] == MEASURE.params
  {
    TornHeadOutcome(capacity);
    hide Step, Typing, Run, Final, TornHead, Boot, Erased;
    var d, passes, b := Boot(Erased()), TornHead(), Body(MEASURE);
    TypeParam(capacity, Run(capacity, d, passes), 0);
    RunSnoc(capacity, d, passes, Typing(2));
    passes := passes + [Typing(2)];
    TypeParam(capacity, Run(capacity, d, passes), 1);
    RunSnoc(capacity, d, passes, Typing(0));
    assert b[..8] == b;
  }

  /**
    A run with a torn frame: on a device that has never stored parameters, a switch press after the
    length byte of a measure command with two parameter bytes starts a measurement whose tables
    echo 255 bytes.
   */
  lemma TornFrameEchoesTooMuch(capacity: nat, after: seq<Input>)
    requires capacity > 0
    ensures var e := Run(capacity, Boot(Erased()), TornFrame());
      && e.pstate == Measuring && !e.reset && e.calls == [MEASURE]
      && forall t | t in Tables(Run(capacity, e, after).sent) :: t.Table? && |t.echo| == 255
  {
    var d, passes := Boot(Erased()), TornHead() + [Typing(2)] + [Typing(0)];
    TornParams(capacity);
    assert TornFrame() == passes + [Typing(Final(Body(MEASURE)))];
    hide Step, Typing, Run, Tables, Final, Boot, Erased, TornFrame, TornHead, AtRest, Body;
    TypeChecksum(capacity, Run(capacity, d, passes));
    RunSnoc(capacity, d, passes, Typing(Final(Body(MEASURE))));
    BootFits(capacity, Erased());
    RunKeeps(capacity, d, TornFrame());
    var e := Run(capacity, d, TornFrame());
    forall t | t in Tables(Run(capacity, e, after).sent)
      ensures t.Table? && |t.echo| == 255
    {
      TablesEcho(capacity, e, after, t);
    }
  }
}
