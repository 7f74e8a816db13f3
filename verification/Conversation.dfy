/**
  The device's whole output as the host hears it: every packet sent between two resets is a frame
  the host delivers, with exactly two exceptions the code has, an empty parameter block and an
  intermediate table that grew while it was being sent.
 */
module Conversation {
  import opened Bytes
  import opened Checksum
  import opened CommandParser
  import opened Firmware
  import opened FirmwareRuns
  import opened FrameDefs
  import opened Packets
  import opened ParameterEcho
  import opened TimeSeries
  import FP = FrameProtocol
  import Host = FrameParser
  import TableTransport

  function FramesOf(tableBytes: u16, sent: seq<Packet>): seq<Frame>
  {
    if sent == [] then []
    else FramesOf(tableBytes, sent[..|sent| - 1]) + [FrameOf(tableBytes, sent[|sent| - 1])]
  }

  function FrameOf(tableBytes: u16, p: Packet): Frame { Frame(TypeOf(p), PayloadOf(tableBytes, p)) }

  lemma {:induction false} EncodeSnoc(fs: seq<Frame>, f: Frame)
    requires Sendable(fs) && |f.payload| < 0x1_0000
    ensures Sendable(fs + [f]) && EncodeFrames(fs + [f]) == EncodeFrames(fs) + EncodeFrame(f)
  {
    hide EncodeFrame;
    if fs == [] {
      assert [f][1..] == [] && EncodeFrames([]) == [];
    } else {
      assert (fs + [f])[1..] == fs[1..] + [f];
      EncodeSnoc(fs[1..], f);
    }
  }

  /** What goes over the line is the encoding of the packets' frames, one after the other. */
  lemma {:induction false} WireIsFrames(tableBytes: u16, sent: seq<Packet>)
    requires forall p | p in sent :: Announces(tableBytes, p)
    ensures var fs := FramesOf(tableBytes, sent);
      |fs| == |sent| && Sendable(fs) && WireAll(tableBytes, sent) == EncodeFrames(fs)
    ensures forall i | 0 <= i < |sent| :: FramesOf(tableBytes, sent)[i] == FrameOf(tableBytes, sent[i])
  {
    hide EncodeFrame, PayloadOf, DeclaredOf, Wire;
    if sent != [] {
      var n := |sent| - 1;
      WireIsFrames(tableBytes, sent[..n]);
      assert Announces(tableBytes, sent[n]);
      WireIsFrame(tableBytes, sent[n]);
      EncodeSnoc(FramesOf(tableBytes, sent[..n]), FrameOf(tableBytes, sent[n]));
    }
  }

  /** The only packet without payload. */
  lemma OnlyAnEmptyBlockIsEmpty(tableBytes: u16, p: Packet)
    ensures PayloadOf(tableBytes, p) == [] <==> p == EepromParams([])
  {
    hide LittleEndian;
  }

  /** If all packets announce their sizes, an empty parameter block is what ends the host. */
  lemma AnnouncedHeard(tableBytes: u16, sent: seq<Packet>, h: Host.Host)
    requires FP.Synchronised(h) && forall p | p in sent :: Announces(tableBytes, p)
    ensures EepromParams([]) !in sent <==>
              Host.Run(h, WireAll(tableBytes, sent)) == h.(handled := h.handled + FramesOf(tableBytes, sent))
    ensures EepromParams([]) in sent <==> Host.Run(h, WireAll(tableBytes, sent)).aborted
  {
    hide PayloadOf, Announces, EncodeFrames, FramesOf, WireAll, Host.Run;
    var fs := FramesOf(tableBytes, sent);
    WireIsFrames(tableBytes, sent);
    FP.RoundTrip(h, fs);
    forall i | 0 <= i < |sent|
      ensures fs[i].payload == [] <==> sent[i] == EepromParams([])
    {
      OnlyAnEmptyBlockIsEmpty(tableBytes, sent[i]);
    }
    if EepromParams([]) in sent {
      var i :| 0 <= i < |sent| && sent[i] == EepromParams([]);
      assert fs[i] in fs && fs[i].payload == [];
    }
  }

  lemma {:induction false} FramesOfSent(tableBytes: u16, sent: seq<Packet>, i: nat)
    requires i < |sent|
    ensures |FramesOf(tableBytes, sent)| == |sent| && FramesOf(tableBytes, sent)[i] == FrameOf(tableBytes, sent[i])
    ensures FramesOf(tableBytes, sent)[..i] == FramesOf(tableBytes, sent[..i])
    decreases |sent|
  {
    hide PayloadOf;
    var n := |sent| - 1;
    if n > 0 {
      FramesOfSent(tableBytes, sent[..n], if i < n then i else 0);
    }
    if i < n {
      assert sent[..n][..i] == sent[..i];
      assert FramesOf(tableBytes, sent)[..i] == FramesOf(tableBytes, sent[..n])[..i];
    }
  }

  /** Disjoint stretches in order leave room for all packets before them. */
  lemma {:induction false} RoomBefore(tableBytes: u16, sent: seq<Packet>, stream: seq<byte>, starts: seq<nat>,
      end: nat, i: nat)
    requires FP.Located(stream, starts, FramesOf(tableBytes, sent), end) && i < |sent| == |starts|
    ensures starts[i] >= |WireAll(tableBytes, sent[..i])|
  {
    hide PayloadOf, Wire, EncodeFrame, FramesOf;
    if i > 0 {
      RoomBefore(tableBytes, sent, stream, starts, end, i - 1);
      FramesOfSent(tableBytes, sent, i - 1);
      WireLength(tableBytes, sent[i - 1]);
      assert sent[..i][..i - 1] == sent[..i - 1];
    } else {
      assert sent[..0] == [];
    }
  }

  /** If the stretches of all packets' frames fill the wire, each of them is that packet's wire. */
  lemma {:induction false} StretchesAreWires(tableBytes: u16, sent: seq<Packet>, starts: seq<nat>)
    requires var wire := WireAll(tableBytes, sent); FP.Located(wire, starts, FramesOf(tableBytes, sent), |wire|)
    ensures forall p | p in sent :: Announces(tableBytes, p)
    decreases |sent|
  {
    hide PayloadOf, Wire, EncodeFrame, FramesOf, Announces, FP.Located;
    if sent != [] {
      var n := |sent| - 1;
      var init, last := sent[..n], sent[n];
      LastStretch(tableBytes, sent, starts);
      FrameAnnounces(tableBytes, last);
      StretchesAreWires(tableBytes, init, starts[..n]);
      assert sent == init + [last];
    }
  }

  lemma LastStretch(tableBytes: u16, sent: seq<Packet>, starts: seq<nat>)
    requires sent != []
    requires var wire := WireAll(tableBytes, sent); FP.Located(wire, starts, FramesOf(tableBytes, sent), |wire|)
    ensures var n := |sent| - 1;
      && |starts| == n + 1 && |PayloadOf(tableBytes, sent[n])| < 0x1_0000
      && Wire(tableBytes, sent[n]) == EncodeFrame(FrameOf(tableBytes, sent[n]))
      && var init := WireAll(tableBytes, sent[..n]);
         FP.Located(init, starts[..n], FramesOf(tableBytes, sent[..n]), |init|)
  {
    hide PayloadOf, Wire, EncodeFrame, FramesOf;
    var n := |sent| - 1;
    var wire, init := WireAll(tableBytes, sent), WireAll(tableBytes, sent[..n]);
    FramesOfSent(tableBytes, sent, n);
    RoomBefore(tableBytes, sent, wire, starts, |wire|, n);
    WireLength(tableBytes, sent[n]);
    assert starts[n] == |init|;
    assert wire[|init|..|wire|] == Wire(tableBytes, sent[n]);
    var fs := FramesOf(tableBytes, sent);
    forall i | 0 <= i < n
      ensures init[starts[i]..starts[i] + 8 + |fs[i].payload|] == EncodeFrame(fs[i])
    {
      assert wire[starts[i]..starts[i] + 8 + |fs[i].payload|] == init[starts[i]..starts[i] + 8 + |fs[i].payload|];
    }
  }

  /**
    The host delivers every packet of a conversation, in order, if and only if no empty parameter
    block is among them and every packet announces, modulo 2^16, the size it has. If all do, the
    host ends at an empty parameter block.
   */
  lemma HostHears(tableBytes: u16, sent: seq<Packet>, h: Host.Host)
    requires FP.Synchronised(h)
    ensures EepromParams([]) !in sent && (forall p | p in sent :: Announces(tableBytes, p))
       <==> Host.Run(h, WireAll(tableBytes, sent)) == h.(handled := h.handled + FramesOf(tableBytes, sent))
    ensures (forall p | p in sent :: Announces(tableBytes, p)) ==>
              (EepromParams([]) in sent <==> Host.Run(h, WireAll(tableBytes, sent)).aborted)
  {
    hide Announces, FramesOf, WireAll, Host.Run, FP.Located, FP.Plausible;
    var wire, fs := WireAll(tableBytes, sent), FramesOf(tableBytes, sent);
    if Host.Run(h, wire) == h.(handled := h.handled + fs) {
      var starts, frames := FP.Sound(h, wire);
      FP.AppendCancels(h.handled, frames, fs);
      StretchesAreWires(tableBytes, sent, starts);
    }
    if forall p | p in sent :: Announces(tableBytes, p) {
      AnnouncedHeard(tableBytes, sent, h);
    }
  }

  // ----- What a run sends -----

  /** Parameter blocks are no longer than the room for them. */
  predicate SmallBlocks(sent: seq<Packet>)
  {
    forall p | p in sent :: p.EepromParams? ==> |p.params| <= MAX_PARAM_LENGTH
  }

  lemma TableKeepsSmall(capacity: nat, d: Device, reason: byte, p: Input)
    requires SmallBlocks(d.sent)
    ensures SmallBlocks(SendTable(capacity, d, reason, p).sent)
  {
    hide Interrupts, TableBytes, SizeRead;
    var d1 := Interrupts(capacity, d, p.untilSize);
    var d2 := Interrupts(capacity, d1, p.inSize);
    var d3 := Interrupts(capacity, d2, p.afterSize);
    InterruptsFrame(capacity, d, p.untilSize);
    InterruptsFrame(capacity, d1, p.inSize);
    InterruptsFrame(capacity, d2, p.afterSize);
    InterruptsFrame(capacity, d3, p.inSecond);
  }

  lemma OneMoreSmall(sent: seq<Packet>, p: Packet)
    requires SmallBlocks(sent) && (p.EepromParams? ==> |p.params| <= MAX_PARAM_LENGTH)
    ensures SmallBlocks(sent + [p])
  {
  }

  lemma StartKeepsSmall(d: Device)
    requires SmallBlocks(d.sent)
    ensures SmallBlocks(StartMeasurement(d).sent)
  {
    hide Value;
  }

  lemma ReadyKeepsSmall(d: Device, cmd: byte)
    requires SmallBlocks(d.sent)
    ensures SmallBlocks(HandleReady(d, cmd).sent)
  {
    hide SmallBlocks, StartMeasurement;
    var last := State(MsgReady);
    if cmd == CMD_MEASURE {
      StartKeepsSmall(d);
    } else if cmd == CMD_PARAMS_FROM_EEPROM {
      var p := if ValidLength(d.eeprom)
          then EepromParams(d.eeprom.params[..d.eeprom.length]) else Text(MsgInvalidEeprom);
      OneMoreSmall(d.sent, p);
      OneMoreSmall(d.sent + [p], last);
    } else {
      OneMoreSmall(d.sent, last);
      OneMoreSmall(d.sent, State(MsgReset));
      OneMoreSmall(d.sent, Text(MsgError));
      OneMoreSmall(d.sent, Info);
      OneMoreSmall(d.sent + [Info], last);
      OneMoreSmall(d.sent, State(MsgParamsToEeprom));
      OneMoreSmall(d.sent + [State(MsgParamsToEeprom)], last);
    }
  }

  lemma MeasuringKeepsSmall(capacity: nat, d: Device, cmd: byte, p: Input)
    requires SmallBlocks(d.sent)
    ensures SmallBlocks(HandleMeasuring(capacity, d, cmd, p).sent)
  {
    hide SendTable;
    if cmd == CMD_INTERMEDIATE {
      TableKeepsSmall(capacity, d, REASON_INTERMEDIATE, p);
    } else if cmd == CMD_ABORT {
      TableKeepsSmall(capacity, Send(d, State(MsgDone)).(interrupts := false), REASON_ABORTED, p);
    }
  }

  lemma DoneKeepsSmall(capacity: nat, d: Device, cmd: byte, p: Input)
    requires SmallBlocks(d.sent)
    ensures SmallBlocks(HandleDone(capacity, d, cmd, p).sent)
  {
    hide SendTable;
    TableKeepsSmall(capacity, d, REASON_RESEND, p);
  }

  lemma CommandKeepsSmall(capacity: nat, d: Device, cmd: byte, p: Input)
    requires SmallBlocks(d.sent)
    ensures SmallBlocks(HandleCommand(capacity, d, cmd, p).sent)
  {
    hide SmallBlocks, HandleReady, HandleMeasuring, HandleDone;
    ReadyKeepsSmall(d, cmd);
    MeasuringKeepsSmall(capacity, d, cmd, p);
    DoneKeepsSmall(capacity, d, cmd, p);
  }

  lemma ByteKeepsSmall(capacity: nat, d: Device, u: byte, p: Input)
    requires SmallBlocks(d.sent)
    ensures SmallBlocks(HandleByte(capacity, d, u, p).sent)
  {
    TakeGrows(Parser(d), u);
    hide HandleCommand, Take, StoreParam;
    var t := Take(PARAM_SIZE, Parser(d), u);
    var stored := d.(param := StoreParam(d, u), raw := t.raw, calls := t.calls);
    if t.calls != d.calls {
      CommandKeepsSmall(capacity, stored, t.calls[|t.calls| - 1].cmd, p);
    }
  }

  lemma StepKeepsSmall(capacity: nat, d: Device, p: Input)
    requires SmallBlocks(d.sent)
    ensures SmallBlocks(Step(capacity, d, p).sent)
  {
    hide Interrupts, SendTable, HandleByte, Value;
    InterruptsFrame(capacity, d, p.early);
    var d0 := Interrupts(capacity, d, p.early);
    InterruptsFrame(capacity, d0, p.middle);
    var d1 := Interrupts(capacity, d0, p.middle);
    TableKeepsSmall(capacity, d1.(interrupts := false), REASON_DONE, p);
    if p.rx != [] {
      ByteKeepsSmall(capacity, d1, p.rx[0], p);
    }
  }

  lemma {:induction false} RunKeepsSmall(capacity: nat, eeprom: Room, passes: seq<Input>)
    ensures SmallBlocks(Run(capacity, Boot(eeprom), passes).sent)
  {
    hide Step;
    if passes != [] {
      var n := |passes| - 1;
      RunKeepsSmall(capacity, eeprom, passes[..n]);
      StepKeepsSmall(capacity, Run(capacity, Boot(eeprom), passes[..n]), passes[n]);
    }
  }

  lemma {:induction false} TablesListAllTables(sent: seq<Packet>, t: Packet)
    requires t in sent && t.Table?
    ensures t in Tables(sent)
  {
    var n := |sent| - 1;
    if t in sent[..n] {
      TablesListAllTables(sent[..n], t);
    }
  }

  /** A message or a parameter block announces its own size. */
  lemma MessageAnnounces(tableBytes: u16, p: Packet)
    requires !p.Table? && (p.EepromParams? ==> |p.params| <= MAX_PARAM_LENGTH)
    ensures Announces(tableBytes, p)
  {
    hide LittleEndian;
  }

  lemma ShownTableAnnounces(capacity: nat, d: Device, t: Packet, tableBytes: u16)
    requires Shows(capacity, d, t) && 0 < capacity < 0x7f00
    ensures Announces(tableBytes, t)
  {
    hide CellBytes, LittleEndian, Elapsed, TableSize;
    TableTransport.TableFits(capacity, d.series);
    assert |t.data| <= 2 * capacity && |t.echo| < 0x100;
    assert |PayloadOf(tableBytes, t)| == 6 + |t.echo| + |t.data|;
  }

  /** In every run all packets announce the size they have, except perhaps intermediate tables. */
  lemma SentAnnounces(capacity: nat, eeprom: Room, passes: seq<Input>, tableBytes: u16, p: Packet)
    requires 0 < capacity < 0x7f00 && p in Run(capacity, Boot(eeprom), passes).sent
    ensures Announces(tableBytes, p) || HasReason(p, REASON_INTERMEDIATE)
  {
    hide Run, Boot, Tables, Announces, Shows, Clockwork;
    var d := Run(capacity, Boot(eeprom), passes);
    RunKeepsSmall(capacity, eeprom, passes);
    if p.Table? {
      BootFits(capacity, eeprom);
      RunKeeps(capacity, Boot(eeprom), passes);
      TablesListAllTables(d.sent, p);
      if d.pstate == Done && !HasReason(p, REASON_INTERMEDIATE) {
        var n: nat :| ClosedAt(capacity, d, Tables(d.sent), n);
        ShownTableAnnounces(capacity, d, p, tableBytes);
      }
    } else {
      MessageAnnounces(tableBytes, p);
    }
  }

  /**
    Everything a device says between two resets, whatever switch, commands and interrupts do: the
    host delivers it packet by packet if and only if no empty parameter block is among it and every
    intermediate table announces the size it has.
   */
  lemma RunReachesHost(capacity: nat, eeprom: Room, passes: seq<Input>, tableBytes: u16)
    requires 0 < capacity < 0x7f00
    ensures var sent := Run(capacity, Boot(eeprom), passes).sent;
      var host := Host.Run(Host.FRESH_HOST, WireAll(tableBytes, sent));
      var announced := forall t | t in sent && HasReason(t, REASON_INTERMEDIATE) :: Announces(tableBytes, t);
      && (EepromParams([]) !in sent && announced <==> host == Host.FRESH_HOST.(handled := FramesOf(tableBytes, sent)))
      && (announced ==> (EepromParams([]) in sent <==> host.aborted))
  {
    hide Run, Boot, Announces, HasReason, Host.Run, WireAll, FramesOf;
    var sent := Run(capacity, Boot(eeprom), passes).sent;
    forall p | p in sent
      ensures Announces(tableBytes, p) || HasReason(p, REASON_INTERMEDIATE)
    {
      SentAnnounces(capacity, eeprom, passes, tableBytes, p);
    }
    HostHears(tableBytes, sent, Host.FRESH_HOST);
    assert [] + FramesOf(tableBytes, sent) == FramesOf(tableBytes, sent);
  }

  // ----- A table that grows -----

  /** A stored block with slots of two ticks. */
  function Stored(): Room { ParamBlock(2, [2] + seq(MAX_PARAM_LENGTH - 1, _ => 0)) }

  const INTERMEDIATE := Command(CMD_INTERMEDIATE, [])

  /** The last byte of the request, with a slot's two ticks between the two reads of the table size. */
  function LastByte(): Input { Typing(Final(Body(INTERMEDIATE))).(afterSize := [Timer, Timer]) }

  /** The switch starts a measurement, and an intermediate table is asked for. */
  function GrowingTable(): seq<Input>
  {
    [Press()] + Typed(Body(INTERMEDIATE)[..5]) + [Typing(0)] + [LastByte()]
  }

  lemma SwitchStarts(capacity: nat)
    ensures var d := Step(capacity, Boot(Stored()), Press());
      && d.pstate == Measuring && !d.reset && !d.finished && d.raw == [] && d.interrupts && d.switchLocked
      && d.series == Counting(2, []) && d.param == Stored()
  {
    ReadyStep(capacity, Boot(Stored()), Press());
    ValueOfTwo(2, 0);
    assert Stored().params[..2] == [2, 0];
  }

  lemma RequestTyped(capacity: nat, d: Device)
    requires d.pstate == Measuring && !d.reset && !d.finished && d.raw == []
    ensures Run(capacity, d, Typed(Body(INTERMEDIATE)[..5]) + [Typing(0)]) == d.(raw := Body(INTERMEDIATE))
  {
    var b := Body(INTERMEDIATE);
    assert b[..6] == b && b[..5] + [0] == b;
    TypeHead(capacity, d, INTERMEDIATE, 5);
    var f := d.(raw := b[..5]);
    TypedStep(capacity, f, Typing(0), 0);
    LengthByte(capacity, f, 0, Typing(0));
    hide HandleByte, Step, Typing, Typed;
    RunSnoc(capacity, d, Typed(b[..5]), Typing(0));
  }

  /** The table that is sent announces ten bytes of payload and has twelve. */
  lemma TableGrows(capacity: nat, d: Device, tableBytes: u16) returns (t: Packet)
    requires capacity >= 2 && d.pstate == Measuring && d.interrupts && d.switchLocked && !d.finished
    requires d.series == Counting(2, []) && d.param == Stored()
    ensures SendTable(capacity, d, REASON_INTERMEDIATE, LastByte()).sent == d.sent + [t]
    ensures HasReason(t, REASON_INTERMEDIATE) && !Announces(tableBytes, t)
  {
    hide SendTable, SizeRead, TornSize, Countdown, Ticks, Index, TimerCount, Interrupts, Clockwork, TableSize,
        HasReason, Final;
    var p := LastByte();
    StartsEmpty(capacity, d);
    TwoTicks();
    EmptyTableSize(capacity);
    t := DeclaredSizeHolds(capacity, d, p);
    var again := AnnouncedAndSent(capacity, d, p);
    assert (d.sent + [t])[|d.sent|] == (d.sent + [again])[|d.sent|];
    NotAnnounced(tableBytes, t);
  }

  lemma NotAnnounced(tableBytes: u16, t: Packet)
    requires t.Table? && t.declared < 0x1_0000 && t.declared != 6 + |t.echo| + |t.data|
    ensures !Announces(tableBytes, t)
  {
  }

  lemma RequestAnswered(capacity: nat, d: Device, tableBytes: u16) returns (t: Packet)
    requires capacity >= 2 && d.pstate == Measuring && !d.reset && !d.finished && d.interrupts && d.switchLocked
    requires d.raw == Body(INTERMEDIATE) && d.series == Counting(2, []) && d.param == Stored()
    ensures Step(capacity, d, LastByte()).sent == d.sent + [t] + [State(MsgMeasuring)]
    ensures HasReason(t, REASON_INTERMEDIATE) && !Announces(tableBytes, t)
  {
    hide HandleByte, Step, HandleCommand, Final, Stored;
    var p, check := LastByte(), Final(Body(INTERMEDIATE));
    TypedStep(capacity, d, p, check);
    FinalByte(capacity, d, check, p);
    var c := Command(d.raw[4], d.raw[6..]);
    assert c == INTERMEDIATE;
    var f := d.(raw := [], calls := d.calls + [c]);
    hide *;
    RequestHandled(capacity, f, p);
    t := TableGrows(capacity, f, tableBytes);
  }

  lemma RequestHandled(capacity: nat, d: Device, p: Input)
    requires d.pstate == Measuring
    ensures HandleCommand(capacity, d, CMD_INTERMEDIATE, p).sent
         == SendTable(capacity, d, REASON_INTERMEDIATE, p).sent + [State(MsgMeasuring)]
  {
    hide SendTable;
  }

  lemma StartsEmpty(capacity: nat, d: Device)
    requires capacity >= 2 && d.pstate == Measuring && d.interrupts && d.switchLocked && !d.finished
    requires d.series == Counting(2, []) && d.param == Stored()
    ensures Clockwork(capacity, d) && Interrupts(capacity, d, []) == d && d.param.length == 2
  {
    ValueOfTwo(2, 0);
    assert Stored().params[..2] == [2, 0];
  }

  lemma TwoTicks()
    ensures TimerCount([] + [Timer, Timer]) == 2
  {
    var two := [Timer, Timer];
    assert [] + two == two && two[..1] == [Timer] && [Timer][..0] == [];
    assert TimerCount([Timer]) == TimerCount([Timer][..0]) + 1;
  }

  lemma EmptyTableSize(capacity: nat)
    requires capacity >= 2
    ensures SizeRead(capacity, Counting(2, []), Counting(2, [])) == 2
    ensures Countdown(Ticks([]), 2, capacity) == 2 && Index([], 2) == 0
  {
    FirstSlot(capacity);
    assert Ticks([]) == 0 && Index([], 2) == 0;
    hide *;
    assert Elements([], 2, capacity) == 1 by { OneElement(capacity); }
    SizeOfOne(capacity, Counting(2, []));
  }

  lemma OneElement(capacity: nat)
    requires capacity >= 2
    ensures Elements([], 2, capacity) == 1
  {
  }

  lemma SizeOfOne(capacity: nat, s: Clock)
    requires s.Counting? && Elements(s.events, s.orig, capacity) == 1
    ensures SizeRead(capacity, s, s) == 2
  {
    hide Elements, TornSize;
    FirstTorn();
  }

  lemma FirstTorn()
    ensures TornSize(2, 2) == 2
  {
  }

  lemma FirstSlot(capacity: nat)
    requires capacity >= 2
    ensures Countdown(0, 2, capacity) == 2
  {
    DivModUnique(0, 2, 0, 0);
  }

  lemma GrowingTableSends(capacity: nat, tableBytes: u16) returns (t: Packet)
    requires capacity >= 2
    ensures t in Run(capacity, Boot(Stored()), GrowingTable()).sent
    ensures HasReason(t, REASON_INTERMEDIATE) && !Announces(tableBytes, t)
  {
    var d, request := Boot(Stored()), Typed(Body(INTERMEDIATE)[..5]) + [Typing(0)];
    SwitchStarts(capacity);
    var e := Step(capacity, d, Press());
    RequestTyped(capacity, e);
    GrowingParts(capacity, d);
    hide *;
    RunConcat(capacity, d, [Press()], request);
    RunSnoc(capacity, d, [Press()] + request, LastByte());
    t := RequestAnswered(capacity, e.(raw := Body(INTERMEDIATE)), tableBytes);
    assert t in e.sent + [t] + [State(MsgMeasuring)];
  }

  lemma GrowingParts(capacity: nat, d: Device)
    ensures GrowingTable() == [Press()] + (Typed(Body(INTERMEDIATE)[..5]) + [Typing(0)]) + [LastByte()]
    ensures Run(capacity, d, [Press()]) == Step(capacity, d, Press())
  {
    hide Step, Typed, Typing, LastByte, Press;
    assert [Press()] + Typed(Body(INTERMEDIATE)[..5]) + [Typing(0)]
        == [Press()] + (Typed(Body(INTERMEDIATE)[..5]) + [Typing(0)]);
    RunSnoc(capacity, d, [], Press());
    assert [] + [Press()] == [Press()];
  }

  /** A run whose host misses something: the table that grew is not delivered as it was sent. */
  lemma GrownTableIsLost(capacity: nat, tableBytes: u16)
    requires 2 <= capacity < 0x7f00
    ensures var sent := Run(capacity, Boot(Stored()), GrowingTable()).sent;
      && (exists t :: t in sent && HasReason(t, REASON_INTERMEDIATE) && !Announces(tableBytes, t))
      && Host.Run(Host.FRESH_HOST, WireAll(tableBytes, sent))
         != Host.FRESH_HOST.(handled := FramesOf(tableBytes, sent))
  {
    hide *;
    var t := GrowingTableSends(capacity, tableBytes);
    RunReachesHost(capacity, Stored(), GrowingTable(), tableBytes);
  }
}
