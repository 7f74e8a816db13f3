/**
  The firmware's main loop as it runs: frame parser variables, parameter buffer, UART and
  interrupt state updated in place. Every method is proved against the transition system of
  module Firmware, and the bytes on the wire against the packets of module Packets.
 */
module MainLoop {
  import opened Bytes
  import opened Checksum
  import opened CommandParser
  import opened Duration
  import opened Firmware
  import opened FrameDefs
  import opened Packets
  import opened TimeSeries
  import opened UartComm

  datatype FState = StfMagic | StfCommand | StfLength | StfParam | StfChecksum

  /** The parser variables against the raw bytes of the command being collected. */
  predicate Tracks(fstate: FState, idx: byte, cmd: byte, len: byte, raw: seq<byte>)
  {
    match fstate
    case StfMagic => idx <= 3 && raw == MAGIC[..idx]
    case StfCommand => raw == MAGIC
    case StfLength => |raw| == 5 && raw[..4] == MAGIC && cmd == raw[4]
    case StfParam =>
      |raw| >= 6 && raw[..4] == MAGIC && cmd == raw[4] && len == raw[5] && |raw| - 6 == idx && idx < len
          && AcceptedLength(PARAM_SIZE, len)
    case StfChecksum =>
      |raw| >= 6 && raw[..4] == MAGIC && cmd == raw[4] && len == raw[5] && |raw| - 6 == len
          && AcceptedLength(PARAM_SIZE, len)
  }

  /** What the variables say about the raw bytes. */
  lemma TrackedBytes(fstate: FState, idx: byte, cmd: byte, len: byte, raw: seq<byte>)
    requires Tracks(fstate, idx, cmd, len, raw)
    ensures fstate == StfMagic ==> idx <= 3 && |raw| == idx && raw == MAGIC[..idx]
    ensures fstate == StfCommand ==> |raw| == 4
    ensures fstate == StfLength ==> |raw| == 5
    ensures fstate == StfParam
        ==> idx < len && 6 <= |raw| < 6 + ParamLength(raw) && ParamLength(raw) < MAX_PARAM_LENGTH && idx == |raw| - 6
    ensures fstate == StfChecksum ==> |raw| >= 6 && |raw| == 6 + ParamLength(raw) && cmd == raw[4]
  {
  }

  /** One more accepted byte moves variables and raw bytes together. */
  lemma TrackedStep(fstate: FState, idx: byte, cmd: byte, len: byte, raw: seq<byte>, u: byte)
    requires Tracks(fstate, idx, cmd, len, raw)
    ensures fstate == StfMagic && u == MAGIC[idx] ==>
              Tracks(if idx + 1 < 4 then StfMagic else StfCommand, idx + 1, cmd, len, raw + [u])
    ensures fstate == StfCommand ==> Tracks(StfLength, idx, u, len, raw + [u])
    ensures fstate == StfLength && u == 0 ==> Tracks(StfChecksum, idx, cmd, u, raw + [u])
    ensures fstate == StfLength && u != 0 && AcceptedLength(PARAM_SIZE, u) ==> Tracks(StfParam, 0, cmd, u, raw + [u])
    ensures fstate == StfParam ==>
              Tracks(if idx + 1 < len then StfParam else StfChecksum, idx + 1, cmd, len, raw + [u])
  {
    if fstate == StfMagic && u == MAGIC[idx] {
      assert MAGIC[..idx] + [u] == MAGIC[..idx + 1];
    }
    assert |raw| >= 4 ==> (raw + [u])[..4] == raw[..4];
  }

  class Loop {
    const uart: Uart
    const series: GeigerSeries
    const params: array<byte>
    var paramLength: byte
    var eeprom: Room
    var fstate: FState
    var idx: byte
    var cmd: byte
    var len: byte
    var pstate: PState
    var interrupts: bool
    var switchLocked: bool
    var reset: bool

    ghost var raw: seq<byte>
    ghost var calls: seq<Command>
    ghost var sent: seq<Packet>

    function Capacity(): nat { series.Capacity() }

    ghost function Measurement(): Clock
      reads series
    {
      if series.Started() then Counting(series.origTimer1Count, series.events) else Idle
    }

    ghost function Buffer(): Room
      requires params.Length == MAX_PARAM_LENGTH
      reads this, params
    {
      ParamBlock(paramLength, params[..])
    }

    ghost function Abs(): Device
      requires params.Length == MAX_PARAM_LENGTH
      reads this, params, series
    {
      Device(pstate, series.finished, interrupts, switchLocked, Buffer(), eeprom, Measurement(),
             raw, calls, sent, reset)
    }

    ghost function Repr(): set<object>
    {
      {this, uart, series, series.table, series.ring, series.ring.rbuf, params}
    }

    ghost predicate Separate()
    {
      && params.Length == MAX_PARAM_LENGTH
      && (params as object) !in {series.table as object, series.ring.rbuf}
    }

    ghost predicate Parsing()
      reads this, uart
    {
      uart.recvAccu == Sum(SEED, raw) && Tracks(fstate, idx, cmd, len, raw)
    }

    ghost predicate Sound()
      reads this, uart, series, series.table, series.ring, series.ring.rbuf
    {
      && Separate() && series.Valid() && (interrupts ==> !series.cleared) && (pstate == Ready ==> !series.Started())
      && uart.wire == WireAll(series.tableBytes, sent)
    }

    ghost predicate Valid()
      reads this, uart, series, series.table, series.ring, series.ring.rbuf
    {
      Sound() && Parsing()
    }

    /** The state a reset leaves; the EEPROM keeps what it held. */
    constructor (tableBytes: u16, eeprom: Room)
      requires 1024 <= tableBytes < 0xff00
      ensures Valid() && fresh(Repr()) && series.tableBytes == tableBytes
      ensures Abs() == Boot(eeprom).(sent := [])
    {
      uart := new Uart();
      series := new GeigerSeries(tableBytes);
      params := new byte[MAX_PARAM_LENGTH](_ => 0);
      paramLength, this.eeprom := 0, eeprom;
      fstate, idx, cmd, len := StfMagic, 0, 0, 0;
      pstate, interrupts, switchLocked, reset := Ready, true, false, false;
      raw, calls, sent := [], [], [];
      new;
      assert params[..] == seq(MAX_PARAM_LENGTH, _ => 0);
    }

    // ----- Interrupts and packets -----

    method OneInterrupt(irq: Irq)
      requires Separate() && series.Valid() && (interrupts ==> !series.cleared)
      modifies series, series.table, series.ring, series.ring.rbuf
      ensures series.Valid() && series.cleared == old(series.cleared)
          && series.origTimer1Count == old(series.origTimer1Count)
      ensures Abs() == Interrupt(Capacity(), old(Abs()), irq)
    {
      hide GeigerSeries.Valid, Full;
      FlagIsFull();
      if interrupts && series.origTimer1Count >= 2 {
        match irq
        case Int0 => series.OnInt0();
        case Timer => series.OnTimer();
        FlagIsFull();
      }
    }

    lemma FlagIsFull()
      requires Separate() && series.Valid()
      ensures series.Started() && !series.cleared ==>
                series.finished == Full(series.events, series.origTimer1Count, Capacity())
    {
    }

    method RunInterrupts(irqs: seq<Irq>)
      requires Separate() && series.Valid() && (interrupts ==> !series.cleared)
      modifies series, series.table, series.ring, series.ring.rbuf
      ensures series.Valid() && series.cleared == old(series.cleared)
          && series.origTimer1Count == old(series.origTimer1Count)
      ensures Abs() == Interrupts(Capacity(), old(Abs()), irqs)
    {
      hide Interrupt, GeigerSeries.Valid, Abs;
      var i := 0;
      ghost var d := Abs();
      while i < |irqs|
        invariant 0 <= i <= |irqs|
        invariant series.Valid() && series.cleared == old(series.cleared)
            && series.origTimer1Count == old(series.origTimer1Count)
        invariant Abs() == Interrupts(Capacity(), d, irqs[..i])
      {
        assert irqs[..i + 1][..i] == irqs[..i];
        OneInterrupt(irqs[i]);
        i := i + 1;
      }
      assert irqs[..i] == irqs;
    }

    /** Sends a packet whose payload is ready. */
    method Emit(p: Packet)
      requires Sound() && |PayloadOf(series.tableBytes, p)| == DeclaredOf(series.tableBytes, p) < 0x1_0000
      modifies this`sent, uart`wire, uart`sendAccu
      ensures Sound() && sent == old(sent) + [p]
    {
      WireIsFrame(series.tableBytes, p);
      WireSnoc(series.tableBytes, sent, p);
      hide Wire, WireAll, EncodeFrame, PayloadOf, GeigerSeries.Valid;
      var payload := PayloadOf(series.tableBytes, p);
      uart.FrameSend(TypeOf(p), payload);
      sent := sent + [p];
    }

    /**
      Starts the frame with the size read first, and sends as many bytes as the size read last
      says, with interrupts between the bytes of both reads.
     */
    method SendTable(reason: byte, p: Input)
      requires Sound()
      modifies this`sent, uart`wire, uart`sendAccu, series, series.table, series.ring, series.ring.rbuf
      ensures Sound() && series.cleared == old(series.cleared)
      ensures Abs() == Firmware.SendTable(Capacity(), old(Abs()), reason, p)
    {
      hide WireAll, Interrupts, Flatten, Cells, GeigerSeries.Valid, TableStart, Sum, TableMemory, SizeRead, ReadElapsed;
      var duration, declared, echo := OpenTable(reason, p);
      RunInterrupts(p.afterSize);
      var size := ReadSize(p.inSecond);
      var data := ReadCells(size, p.behind);
      EndTable(reason, duration, declared, echo, data);
    }

    /** Elapsed time, table size, and the frame up to the echoed parameters. */
    method OpenTable(reason: byte, p: Input) returns (duration: u16, declared: nat, echo: seq<byte>)
      requires Sound()
      modifies uart`wire, uart`sendAccu, series, series.table, series.ring, series.ring.rbuf
      ensures series.Valid() && series.cleared == old(series.cleared)
          && series.origTimer1Count == old(series.origTimer1Count)
      ensures Abs() == Interrupts(Capacity(), Interrupts(Capacity(), old(Abs()), p.untilSize), p.inSize)
      ensures duration == ReadElapsed(Capacity(), old(Abs()), p.untilSize, p.bytesAt)
          && echo == Echo(old(Buffer()), p.beyond)
      ensures declared == 6 + paramLength
                + SizeRead(Capacity(), Interrupts(Capacity(), old(Abs()), p.untilSize).series, Measurement())
      ensures uart.wire == WireAll(series.tableBytes, sent) + TableStart(reason, duration, declared, echo)
      ensures uart.sendAccu == Sum(SEED, TableStart(reason, duration, declared, echo))
    {
      hide WireAll, Interrupts, GeigerSeries.Valid, TableStart, Sum, SizeRead, ReadElapsed;
      duration := GetDuration(p);
      var size := ReadSize(p.inSize);
      declared := 6 + paramLength + size;
      echo := Echo(ParamBlock(paramLength, params[..]), p.beyond);
      BeginTable(reason, duration, declared, echo);
    }

    /** A table frame up to its data. */
    function TableStart(reason: byte, duration: u16, declared: nat, echo: seq<byte>): seq<byte>
    {
      Header(TYPE_VALUE_TABLE, U16(declared)) + TableHeader(reason, duration, U8(|echo|)) + echo
    }

    method BeginTable(reason: byte, duration: u16, declared: nat, echo: seq<byte>)
      requires |echo| < 0x100
      modifies uart`wire, uart`sendAccu
      ensures uart.wire == old(uart.wire) + TableStart(reason, duration, declared, echo)
      ensures uart.sendAccu == Sum(SEED, TableStart(reason, duration, declared, echo))
    {
      var start := Header(TYPE_VALUE_TABLE, U16(declared));
      var head := TableHeader(reason, duration, |echo|);
      uart.FrameStart(TYPE_VALUE_TABLE, U16(declared));
      uart.PutBuffer(head);
      uart.PutBuffer(echo);
      SumConcat(SEED, start, head);
      SumConcat(SEED, start + head, echo);
    }

    /** The data, the checksum, and the packet in the log. */
    method EndTable(reason: byte, duration: u16, declared: nat, echo: seq<byte>, data: seq<byte>)
      requires uart.wire == WireAll(series.tableBytes, sent) + TableStart(reason, duration, declared, echo)
      requires uart.sendAccu == Sum(SEED, TableStart(reason, duration, declared, echo))
      modifies this`sent, uart`wire, uart`sendAccu
      ensures sent == old(sent) + [Table(reason, duration, echo, declared, data)]
      ensures uart.wire == WireAll(series.tableBytes, sent)
    {
      hide Wire, WireAll, TableStart, Sum;
      ghost var t := Table(reason, duration, echo, declared, data);
      SumConcat(SEED, TableStart(reason, duration, declared, echo), data);
      TableWire(series.tableBytes, t);
      WireSnoc(series.tableBytes, sent, t);
      uart.PutBuffer(data);
      uart.FrameEnd();
      sent := sent + [t];
    }

    lemma TableWire(tableBytes: u16, t: Packet)
      requires t.Table?
      ensures Wire(tableBytes, t) == Sealed(TableStart(t.reason, t.duration, t.declared, t.echo) + t.data)
    {
      hide Header, TableHeader, Sealed;
      var start, head := Header(TYPE_VALUE_TABLE, U16(t.declared)), TableHeader(t.reason, t.duration, U8(|t.echo|));
      assert start + (head + t.echo + t.data) == start + head + t.echo + t.data;
    }

    /** Interrupts fire until byte `i` of the countdown is read. */
    method Await(irqs: seq<Irq>, bytesAt: seq<nat>, i: nat, pos: nat, ghost d: Device) returns (next: nat)
      requires Separate() && series.Valid() && (interrupts ==> !series.cleared)
      requires pos <= |irqs| && Abs() == Interrupts(Capacity(), d, irqs[..pos])
      modifies series, series.table, series.ring, series.ring.rbuf
      ensures series.Valid() && series.cleared == old(series.cleared)
          && series.origTimer1Count == old(series.origTimer1Count)
      ensures next == Place(irqs, bytesAt, i, pos) && Abs() == Interrupts(Capacity(), d, irqs[..next])
      ensures series.timer1Count == RegisterAt(Capacity(), d, irqs, next)
    {
      hide Interrupts, GeigerSeries.Valid;
      next := Place(irqs, bytesAt, i, pos);
      RunInterrupts(irqs[pos..next]);
      InterruptsConcat(Capacity(), d, irqs[..pos], irqs[pos..next]);
      assert irqs[..pos] + irqs[pos..next] == irqs[..next];
      CountIsRegister();
    }

    lemma CountIsRegister()
      requires Separate() && series.Valid()
      ensures series.timer1Count == Register(Capacity(), Abs().series)
    {
    }

    /** One 16-bit read, low byte first. */
    method ReadCount(irqs: seq<Irq>, bytesAt: seq<nat>, i: nat, pos: nat, ghost d: Device)
        returns (v: u16, ghost low: nat, high: nat)
      requires Separate() && series.Valid() && (interrupts ==> !series.cleared)
      requires pos <= |irqs| && Abs() == Interrupts(Capacity(), d, irqs[..pos])
      modifies series, series.table, series.ring, series.ring.rbuf
      ensures series.Valid() && series.cleared == old(series.cleared)
          && series.origTimer1Count == old(series.origTimer1Count)
      ensures low == Place(irqs, bytesAt, i, pos) && high == Place(irqs, bytesAt, i + 1, low)
      ensures Abs() == Interrupts(Capacity(), d, irqs[..high])
      ensures v == Torn(RegisterAt(Capacity(), d, irqs, low), RegisterAt(Capacity(), d, irqs, high))
    {
      hide Interrupts, GeigerSeries.Valid, RegisterAt, Place, Abs;
      var first := Await(irqs, bytesAt, i, pos, d);
      var lo := series.timer1Count % 0x100;
      high := Await(irqs, bytesAt, i + 1, first, d);
      var hi := series.timer1Count / 0x100;
      low := first;
      v := lo + 0x100 * hi;
    }

    /** Reads the countdown until two reads agree, with interrupts between any two bytes. */
    method ReadSettled(irqs: seq<Irq>, bytesAt: seq<nat>) returns (a: u16, pos: nat)
      requires Separate() && series.Valid() && (interrupts ==> !series.cleared)
      modifies series, series.table, series.ring, series.ring.rbuf
      ensures series.Valid() && series.cleared == old(series.cleared)
          && series.origTimer1Count == old(series.origTimer1Count)
      ensures pos <= |irqs| && Abs() == Interrupts(Capacity(), old(Abs()), irqs[..pos])
      ensures a == ReadRegister(Capacity(), old(Abs()), irqs, bytesAt).value
    {
      hide Interrupts, GeigerSeries.Valid, RegisterAt, Abs, Torn;
      ghost var d := Abs();
      ghost var low: nat;
      assert irqs[..0] == [] && Interrupts(Capacity(), d, []) == d by { NoIrqs(Capacity(), d); }
      a, low, pos := ReadCount(irqs, bytesAt, 0, 0, d);
      var b := a;
      a, low, pos := ReadCount(irqs, bytesAt, 2, pos, d);
      var i := 2;
      StillRead(Capacity(), d, irqs, pos);
      while a != b
        invariant series.Valid() && series.cleared == old(series.cleared)
            && series.origTimer1Count == old(series.origTimer1Count)
        invariant low <= pos <= |irqs| && Abs() == Interrupts(Capacity(), d, irqs[..pos])
        invariant ReadRegister(Capacity(), d, irqs, bytesAt).value ==
                    if a == b || i >= |bytesAt| then a
                    else Settle(Capacity(), d, irqs, bytesAt, i + 2, low, a, pos).value
        invariant i >= |bytesAt| ==> a == RegisterAt(Capacity(), d, irqs, pos)
        invariant a != b ==> i <= |bytesAt| + 1
        decreases |bytesAt| + 2 - i
      {
        b := a;
        a, low, pos := ReadCount(irqs, bytesAt, i + 2, pos, d);
        i := i + 2;
        StillRead(Capacity(), d, irqs, pos);
      }
    }

    lemma NoIrqs(capacity: nat, d: Device)
      ensures Interrupts(capacity, d, []) == d
    {
    }

    lemma StillRead(capacity: nat, d: Device, irqs: seq<Irq>, pos: nat)
      requires pos <= |irqs|
      ensures var c := RegisterAt(capacity, d, irqs, pos); Torn(c, c) == c
    {
      var c := RegisterAt(capacity, d, irqs, pos);
      UntornRead(c, c);
    }

    /** The elapsed time, and the interrupts up to the read of the table size. */
    method GetDuration(p: Input) returns (duration: u16)
      requires Separate() && series.Valid() && (interrupts ==> !series.cleared)
      modifies series, series.table, series.ring, series.ring.rbuf
      ensures series.Valid() && series.cleared == old(series.cleared)
          && series.origTimer1Count == old(series.origTimer1Count)
      ensures Abs() == Interrupts(Capacity(), old(Abs()), p.untilSize)
      ensures duration == ReadElapsed(Capacity(), old(Abs()), p.untilSize, p.bytesAt)
    {
      hide Interrupts, ReadRegister, Register, RegisterAt;
      IdleReads(Capacity(), Abs(), p.untilSize, p.bytesAt);
      var a, pos := ReadSettled(p.untilSize, p.bytesAt);
      duration := U16(series.origTimer1Count - a);
      RunInterrupts(p.untilSize[pos..]);
      InterruptsConcat(Capacity(), old(Abs()), p.untilSize[..pos], p.untilSize[pos..]);
      assert p.untilSize[..pos] + p.untilSize[pos..] == p.untilSize;
    }

    /** One 16-bit read of the table size, low byte first. */
    method ReadSize(irqs: seq<Irq>) returns (size: nat)
      requires Separate() && series.Valid() && (interrupts ==> !series.cleared)
      modifies series, series.table, series.ring, series.ring.rbuf
      ensures series.Valid() && series.cleared == old(series.cleared)
          && series.origTimer1Count == old(series.origTimer1Count)
      ensures Abs() == Interrupts(Capacity(), old(Abs()), irqs)
      ensures size == SizeRead(Capacity(), old(Measurement()), Measurement())
    {
      hide Interrupts, GeigerSeries.Valid, TableSize, Abs, Measurement;
      SizeIsTableSize();
      var low := series.size % 0x100;
      RunInterrupts(irqs);
      SizeIsTableSize();
      var high := series.size / 0x100;
      size := low + 0x100 * high;
    }

    lemma SizeIsTableSize()
      requires Separate() && series.Valid()
      ensures series.size == TableSize(Capacity(), Measurement())
    {
    }

    /** The bytes the size covers, from the start of the table. */
    method ReadCells(size: nat, behind: seq<byte>) returns (data: seq<byte>)
      requires series.Valid() && size <= 2 * Capacity() + 0x100 && size % 2 == 0 && |behind| == 0x100
      ensures data == TableMemory(Capacity(), Measurement(), size, behind)
    {
      hide Flatten, Counts;
      var n := if size <= 2 * Capacity() then size / 2 else Capacity();
      assert n <= series.table.Length;
      data := series.TableData(n);
      assert series.table[..n] == Cells(Measurement(), n);
      if size > 2 * Capacity() {
        data := data + behind[..size - 2 * Capacity()];
      }
    }

    method EmitState(m: Message)
      requires Sound()
      modifies this`sent, uart`wire, uart`sendAccu
      ensures Sound() && Abs() == Send(old(Abs()), State(m))
    {
      assert |MessageText(m)| < 0x100;
      hide MessageText, WireAll, GeigerSeries.Valid;
      Emit(State(m));
    }

    method EmitText(m: Message)
      requires Sound()
      modifies this`sent, uart`wire, uart`sendAccu
      ensures Sound() && Abs() == Send(old(Abs()), Text(m))
    {
      assert |MessageText(m)| < 0x100;
      hide MessageText, WireAll, GeigerSeries.Valid;
      Emit(Text(m));
    }

    // ----- Event handlers -----

    method HandleFinished(p: Input)
      requires Sound()
      modifies this`sent, this`pstate, this`interrupts, this`reset
      modifies uart`wire, uart`sendAccu, series, series.table, series.ring, series.ring.rbuf
      ensures Sound() && series.cleared == old(series.cleared) && (!reset && !old(reset) ==> !interrupts)
      ensures Abs() == Firmware.HandleFinished(Capacity(), old(Abs()), p)
    {
      hide Firmware.SendTable, Interrupts, WireAll, Sum, GeigerSeries.Valid;
      if pstate == Measuring {
        interrupts := false;
        SendTable(REASON_DONE, p);
        pstate := Done;
      } else {
        EmitText(MsgInvalidTransition);
        reset := true;
      }
    }

    method StartMeasurement()
      requires Sound() && pstate == Ready
      modifies this`sent, this`pstate, this`switchLocked, this`reset
      modifies uart`wire, uart`sendAccu, series`timer1Count, series`origTimer1Count
      ensures Sound() && series.cleared == old(series.cleared)
      ensures Abs() == Firmware.StartMeasurement(old(Abs()))
    {
      hide WireAll, Sum;
      switchLocked := true;
      ValueOfTwo(params[0], params[1]);
      assert params[..][..2] == [params[0], params[1]];
      var low: int, high: int := params[0], params[1];
      var value: u16 := low + 0x100 * high;
      if value <= 1 {
        hide GeigerSeries.Valid;
        EmitText(MsgTimerValue);
        reset := true;
      } else {
        StartTimer(value);
        hide GeigerSeries.Valid;
        EmitState(MsgMeasuring);
      }
    }

    method StartTimer(value: u16)
      requires Sound() && pstate == Ready && value >= 2
      modifies this`pstate, series`timer1Count, series`origTimer1Count
      ensures Sound() && series.cleared == old(series.cleared)
      ensures Abs() == old(Abs()).(series := Counting(value, []), pstate := Measuring)
    {
      hide WireAll, Sum;
      series.Start(value);
      pstate := Measuring;
    }

    /** Copies the stored block over the buffer, then starts if its length is plausible. */
    method HandleSwitch()
      requires Sound()
      modifies this`sent, this`pstate, this`switchLocked, this`reset, this`paramLength, params
      modifies uart`wire, uart`sendAccu, series`timer1Count, series`origTimer1Count
      ensures Sound() && series.cleared == old(series.cleared)
      ensures Abs() == Firmware.HandleSwitch(old(Abs()))
    {
      hide WireAll, Sum, GeigerSeries.Valid, Firmware.StartMeasurement;
      if pstate == Ready {
        CopyFromEeprom();
        if paramLength == 0xff || paramLength > MAX_PARAM_LENGTH {
          EmitText(MsgInvalidEeprom);
          EmitState(MsgReady);
        } else {
          StartMeasurement();
        }
      }
    }

    method CopyFromEeprom()
      requires Sound()
      modifies this`paramLength, params
      ensures Sound() && Abs() == old(Abs()).(param := eeprom)
    {
      paramLength := eeprom.length;
      forall i | 0 <= i < MAX_PARAM_LENGTH {
        params[i] := eeprom.params[i];
      }
      assert params[..] == eeprom.params;
    }

    method HandleReady(c: byte)
      requires Sound() && pstate == Ready
      modifies this`sent, this`pstate, this`switchLocked, this`reset, this`paramLength, this`eeprom, params
      modifies uart`wire, uart`sendAccu, series`timer1Count, series`origTimer1Count
      ensures Sound() && series.cleared == old(series.cleared)
      ensures Abs() == Firmware.HandleReady(old(Abs()), c)
    {
      hide WireAll, Sum, GeigerSeries.Valid, Firmware.StartMeasurement;
      if c == CMD_PERSONALITY_INFO {
        EmitInfo();
        EmitState(MsgReady);
      } else if c == CMD_ABORT || c == CMD_INTERMEDIATE || c == CMD_STATE {
        EmitState(MsgReady);
      } else if c == CMD_PARAMS_TO_EEPROM {
        EmitState(MsgParamsToEeprom);
        eeprom := ParamBlock(paramLength, params[..]);
        EmitState(MsgReady);
      } else if c == CMD_PARAMS_FROM_EEPROM {
        CopyFromEeprom();
        SendEepromParams();
        EmitState(MsgReady);
      } else if c == CMD_MEASURE {
        StartMeasurement();
      } else if c == CMD_RESET {
        EmitState(MsgReset);
        reset := true;
      } else {
        EmitText(MsgError);
        reset := true;
      }
    }

    method EmitInfo()
      requires Sound()
      modifies this`sent, uart`wire, uart`sendAccu
      ensures Sound() && Abs() == Send(old(Abs()), Info)
    {
      hide WireAll, GeigerSeries.Valid;
      assert |InfoPayload(series.tableBytes)| == 24;
      Emit(Info);
    }

    /** The block has been copied to the buffer before. */
    method SendEepromParams()
      requires Sound() && Buffer() == eeprom
      modifies this`sent, uart`wire, uart`sendAccu
      ensures Sound()
      ensures Abs() == Send(old(Abs()),
          if ValidLength(eeprom) then EepromParams(eeprom.params[..eeprom.length]) else Text(MsgInvalidEeprom))
    {
      hide WireAll, GeigerSeries.Valid;
      var length := paramLength;
      if length == 0xff || length > MAX_PARAM_LENGTH {
        EmitText(MsgInvalidEeprom);
      } else {
        Emit(EepromParams(params[..length]));
      }
    }

    method Abort(p: Input)
      requires Sound() && pstate == Measuring
      modifies this`sent, this`pstate, this`interrupts
      modifies uart`wire, uart`sendAccu, series, series.table, series.ring, series.ring.rbuf
      ensures Sound() && series.cleared == old(series.cleared)
      ensures Abs() == Firmware.HandleMeasuring(Capacity(), old(Abs()), CMD_ABORT, p)
    {
      hide WireAll, Sum, GeigerSeries.Valid, Firmware.SendTable;
      EmitState(MsgDone);
      interrupts := false;
      SendTable(REASON_ABORTED, p);
      EmitState(MsgDone);
      pstate := Done;
    }

    method HandleMeasuring(c: byte, p: Input)
      requires Sound() && pstate == Measuring
      modifies this`sent, this`pstate, this`interrupts, this`reset
      modifies uart`wire, uart`sendAccu, series, series.table, series.ring, series.ring.rbuf
      ensures Sound() && series.cleared == old(series.cleared)
      ensures Abs() == Firmware.HandleMeasuring(Capacity(), old(Abs()), c, p)
    {
      hide WireAll, Sum, GeigerSeries.Valid, Firmware.SendTable;
      if c == CMD_INTERMEDIATE {
        SendTable(REASON_INTERMEDIATE, p);
        EmitState(MsgMeasuring);
      } else if c == CMD_PERSONALITY_INFO {
        EmitInfo();
        EmitState(MsgMeasuring);
      } else if c == CMD_PARAMS_TO_EEPROM || c == CMD_PARAMS_FROM_EEPROM || c == CMD_MEASURE || c == CMD_RESET
          || c == CMD_STATE {
        EmitState(MsgMeasuring);
      } else if c == CMD_ABORT {
        Abort(p);
      } else {
        EmitText(MsgError);
        reset := true;
      }
    }

    method HandleDone(c: byte, p: Input)
      requires Sound() && pstate == Done
      modifies this`sent, this`reset
      modifies uart`wire, uart`sendAccu, series, series.table, series.ring, series.ring.rbuf
      ensures Sound() && series.cleared == old(series.cleared)
      ensures Abs() == Firmware.HandleDone(Capacity(), old(Abs()), c, p)
    {
      hide WireAll, Sum, GeigerSeries.Valid, Firmware.SendTable;
      if c == CMD_PERSONALITY_INFO {
        EmitInfo();
        EmitState(MsgDone);
      } else if c == CMD_STATE {
        EmitState(MsgDone);
      } else if c == CMD_RESET {
        EmitState(MsgReset);
        reset := true;
      } else {
        SendTable(REASON_RESEND, p);
        EmitState(MsgDone);
      }
    }

    method HandleCommand(c: byte, p: Input)
      requires Sound()
      modifies this`sent, this`pstate, this`interrupts, this`switchLocked, this`reset, this`paramLength, this`eeprom,
          params
      modifies uart`wire, uart`sendAccu, series, series.table, series.ring, series.ring.rbuf
      ensures Sound() && series.cleared == old(series.cleared)
      ensures Abs() == Firmware.HandleCommand(Capacity(), old(Abs()), c, p)
    {
      match pstate
      case Ready => HandleReady(c);
      case Measuring => HandleMeasuring(c, p);
      case Done => HandleDone(c, p);
    }

    // ----- The frame parser -----

    /** Back to looking for the magic. */
    method Restart()
      modifies this`fstate, this`idx, this`raw, uart`recvAccu
      ensures Parsing() && raw == []
    {
      fstate := StfMagic;
      idx := 0;
      uart.RecvReset();
      raw := [];
    }

    /** Runs the checksum over a byte and keeps it. */
    method Collect(u: byte)
      requires uart.recvAccu == Sum(SEED, raw)
      modifies this`raw, uart`recvAccu
      ensures raw == old(raw) + [u] && uart.recvAccu == Sum(SEED, raw)
    {
      uart.RecvUpdate(u);
      SumSnoc(SEED, raw, u);
      raw := raw + [u];
    }

    method ByteMagic(u: byte, p: Input)
      requires Valid() && fstate == StfMagic
      modifies this`fstate, this`idx, this`raw, uart`recvAccu
      ensures Valid() && Abs() == HandleByte(Capacity(), old(Abs()), u, p)
    {
      hide WireAll, Sum, GeigerSeries.Valid, HandleByte, Tracks;
      TrackedBytes(fstate, idx, cmd, len, raw);
      EarlyByte(Capacity(), Abs(), u, p);
      if u == MAGIC[idx] {
        MatchMagic(u);
      } else {
        Restart();
      }
    }

    method MatchMagic(u: byte)
      requires Parsing() && fstate == StfMagic && idx <= 3 && u == MAGIC[idx]
      modifies this`fstate, this`idx, this`raw, uart`recvAccu
      ensures Parsing() && raw == old(raw) + [u]
    {
      hide Sum, Tracks;
      TrackedStep(fstate, idx, cmd, len, raw, u);
      Collect(u);
      idx := idx + 1;
      fstate := if idx < 4 then StfMagic else StfCommand;
    }

    method ByteCommand(u: byte, p: Input)
      requires Valid() && fstate == StfCommand
      modifies this`fstate, this`cmd, this`raw, uart`recvAccu
      ensures Valid() && Abs() == HandleByte(Capacity(), old(Abs()), u, p)
    {
      hide WireAll, Sum, GeigerSeries.Valid, HandleByte, Tracks;
      TrackedBytes(fstate, idx, cmd, len, raw);
      TrackedStep(fstate, idx, cmd, len, raw, u);
      EarlyByte(Capacity(), Abs(), u, p);
      Collect(u);
      cmd := u;
      fstate := StfLength;
    }

    method ByteLength(u: byte, p: Input)
      requires Valid() && fstate == StfLength
      modifies this`fstate, this`idx, this`len, this`raw, this`paramLength, this`sent, uart`recvAccu, uart`wire,
          uart`sendAccu
      ensures Valid() && Abs() == HandleByte(Capacity(), old(Abs()), u, p)
    {
      hide WireAll, Sum, GeigerSeries.Valid, HandleByte, Tracks;
      TrackedBytes(fstate, idx, cmd, len, raw);
      LengthByte(Capacity(), Abs(), u, p);
      if u == 0 || (u >= PARAM_SIZE && u < MAX_PARAM_LENGTH) {
        AcceptLength(u);
      } else {
        RejectLength(u);
      }
    }

    /** While ready the length goes to the parameter buffer before it is judged. */
    method StoreLength(u: byte)
      requires Sound()
      modifies this`paramLength, this`len
      ensures Sound() && len == u
      ensures Abs() == old(Abs()).(param := if pstate == Ready then old(Buffer()).(length := u) else old(Buffer()))
    {
      len := u;
      if pstate == Ready {
        paramLength := len;
      }
    }

    method AcceptLength(u: byte)
      requires Valid() && fstate == StfLength && AcceptedLength(PARAM_SIZE, u)
      modifies this`fstate, this`idx, this`len, this`raw, this`paramLength, uart`recvAccu
      ensures Valid()
      ensures Abs() == old(Abs()).(param := if pstate
          == Ready then old(Buffer()).(length := u) else old(Buffer()), raw := old(raw) + [u])
    {
      hide WireAll, Sum, GeigerSeries.Valid, Tracks;
      TrackedStep(fstate, idx, cmd, len, raw, u);
      StoreLength(u);
      Collect(u);
      if len == 0 {
        fstate := StfChecksum;
      } else {
        idx := 0;
        fstate := StfParam;
      }
    }

    method RejectLength(u: byte)
      requires Sound()
      modifies this`fstate, this`idx, this`len, this`raw, this`paramLength, this`sent, uart`recvAccu, uart`wire,
          uart`sendAccu
      ensures Valid()
      ensures Abs() == Send(old(Abs()).(param := if pstate
          == Ready then old(Buffer()).(length := u) else old(Buffer()), raw := []), Text(MsgLength))
    {
      hide WireAll, GeigerSeries.Valid, Tracks;
      StoreLength(u);
      EmitText(MsgLength);
      Restart();
    }

    method ByteParam(u: byte, p: Input)
      requires Valid() && fstate == StfParam
      modifies this`fstate, this`idx, this`raw, params, uart`recvAccu
      ensures Valid() && Abs() == HandleByte(Capacity(), old(Abs()), u, p)
    {
      hide WireAll, Sum, GeigerSeries.Valid, HandleByte, Tracks;
      TrackedBytes(fstate, idx, cmd, len, raw);
      ParamByte(Capacity(), Abs(), u, p);
      StoreByte(u);
      NextParam(u);
    }

    method NextParam(u: byte)
      requires Parsing() && fstate == StfParam && idx < len
      modifies this`fstate, this`idx, this`raw, uart`recvAccu
      ensures Parsing() && raw == old(raw) + [u]
    {
      hide Sum, Tracks;
      TrackedStep(fstate, idx, cmd, len, raw, u);
      Collect(u);
      idx := idx + 1;
      fstate := if idx < len then StfParam else StfChecksum;
    }

    /** Only while ready may the buffer be overwritten. */
    method StoreByte(u: byte)
      requires Sound() && idx < MAX_PARAM_LENGTH
      modifies params
      ensures Sound()
      ensures Buffer() == if pstate
          == Ready then old(Buffer()).(params := old(Buffer()).params[idx := u]) else old(Buffer())
    {
      if pstate == Ready {
        ghost var before := params[..];
        params[idx] := u;
        assert params[..] == before[idx := u];
      }
    }

    method ByteChecksum(u: byte, p: Input)
      requires Valid() && fstate == StfChecksum
      modifies this, params
      modifies uart, series, series.table, series.ring, series.ring.rbuf
      ensures Valid() && series.cleared == old(series.cleared) && Abs() == HandleByte(Capacity(), old(Abs()), u, p)
    {
      hide WireAll, Sum, GeigerSeries.Valid, HandleByte, Tracks, Firmware.HandleCommand;
      TrackedBytes(fstate, idx, cmd, len, raw);
      FinalByte(Capacity(), Abs(), u, p);
      var matched := uart.RecvMatches(u);
      if matched {
        Dispatch(p);
      } else {
        RejectChecksum();
      }
    }

    /** A complete command goes to the handler with the buffer as it is. */
    method Dispatch(p: Input)
      requires Sound() && |raw| >= 6 && cmd == raw[4]
      modifies this, params
      modifies uart, series, series.table, series.ring, series.ring.rbuf
      ensures Valid() && series.cleared == old(series.cleared)
      ensures Abs() == Firmware.HandleCommand(Capacity(),
                         old(Abs()).(raw := [], calls := old(calls) + [Command(old(raw)[4], old(raw)[6..])]),
                             old(cmd), p)
    {
      hide WireAll, Sum, GeigerSeries.Valid, Tracks, Firmware.HandleCommand;
      calls := calls + [Command(raw[4], raw[6..])];
      raw := [];
      HandleCommand(cmd, p);
      Restart();
    }

    method RejectChecksum()
      requires Sound()
      modifies this`fstate, this`idx, this`raw, this`sent, uart`recvAccu, uart`wire, uart`sendAccu
      ensures Valid() && Abs() == Send(old(Abs()).(raw := []), Text(MsgChecksum))
    {
      hide WireAll, GeigerSeries.Valid, Tracks;
      EmitText(MsgChecksum);
      Restart();
    }

    method HandleByteFromUart(u: byte, p: Input)
      requires Valid()
      modifies this, params
      modifies uart, series, series.table, series.ring, series.ring.rbuf
      ensures Valid() && series.cleared == old(series.cleared) && Abs() == HandleByte(Capacity(), old(Abs()), u, p)
    {
      match fstate
      case StfMagic => ByteMagic(u, p);
      case StfCommand => ByteCommand(u, p);
      case StfLength => ByteLength(u, p);
      case StfParam => ByteParam(u, p);
      case StfChecksum => ByteChecksum(u, p);
    }

    /** The finish event; the flag is cleared unless the handler has reset the device. */
    method FinishPass(p: Input)
      requires Valid() && !reset
      modifies this`sent, this`pstate, this`interrupts, this`reset
      modifies uart`wire, uart`sendAccu, series, series.table, series.ring, series.ring.rbuf
      ensures Valid()
      ensures var e := Firmware.HandleFinished(Capacity(), old(Abs()), p);
        Abs() == if e.reset then e else e.(finished := false)
    {
      hide WireAll, Sum, Tracks, GeigerSeries.Valid, Firmware.HandleFinished;
      HandleFinished(p);
      if !reset {
        series.ClearFinished();
      }
    }

    /** One pass through the loop, up to a reset. */
    method LoopPass(p: Input)
      requires Valid() && !reset
      modifies this, params
      modifies uart, series, series.table, series.ring, series.ring.rbuf
      ensures Valid() && Abs() == Step(Capacity(), old(Abs()), p)
    {
      hide WireAll, Sum, GeigerSeries.Valid, Interrupts, Firmware.HandleFinished, Firmware.HandleSwitch, HandleByte;
      RunInterrupts(p.early);
      var finished := series.finished;
      var pressed := p.switchDown && !switchLocked;
      RunInterrupts(p.middle);
      if finished {
        FinishPass(p);
      } else if pressed {
        HandleSwitch();
      } else if p.rx != [] {
        HandleByteFromUart(p.rx[0], p);
      }
    }

    /** The messages after a reset, before the loop. */
    method StartUp()
      requires Valid()
      modifies this`sent, uart`wire, uart`sendAccu
      ensures Valid() && Abs() == Send(Send(old(Abs()), Info), State(MsgReady))
    {
      hide WireAll, GeigerSeries.Valid;
      EmitInfo();
      EmitState(MsgReady);
    }

    /** Pass after pass until a reset. */
    method MainEventLoop(passes: seq<Input>)
      requires Valid()
      modifies this, params
      modifies uart, series, series.table, series.ring, series.ring.rbuf
      ensures Valid() && Abs() == Run(Capacity(), old(Abs()), passes)
    {
      assert params.Length == MAX_PARAM_LENGTH;
      hide Step, Loop.Valid;
      var i := 0;
      ghost var d := Abs();
      while i < |passes| && !reset
        invariant 0 <= i <= |passes|
        invariant Valid() && Abs() == Run(Capacity(), d, passes[..i])
      {
        assert passes[..i + 1][..i] == passes[..i];
        LoopPass(passes[i]);
        i := i + 1;
      }
      if i < |passes| {
        ResetIsFinal(Capacity(), d, passes, i);
      } else {
        assert passes[..i] == passes;
      }
    }
  }

  /** Before a measurement the register is zero, whatever fires. */
  lemma IdleReads(capacity: nat, d: Device, irqs: seq<Irq>, bytesAt: seq<nat>)
    ensures d.series.Idle? ==> ReadRegister(capacity, d, irqs, bytesAt).value == 0
  {
    hide Interrupts, ReadRegister;
    if d.series.Idle? {
      forall n: nat | n <= |irqs|
        ensures RegisterAt(capacity, d, irqs, n) == 0
      {
        IdleStays(capacity, d, irqs[..n]);
      }
      ConstantRegister(capacity, d, irqs, bytesAt, 0);
    }
  }

  lemma {:induction false} IdleStays(capacity: nat, d: Device, irqs: seq<Irq>)
    requires d.series.Idle?
    ensures Interrupts(capacity, d, irqs) == d
  {
    if irqs != [] {
      IdleStays(capacity, d, irqs[..|irqs| - 1]);
    }
  }

  lemma StepAfterReset(capacity: nat, d: Device, p: Input)
    requires d.reset
    ensures Step(capacity, d, p) == d
  {
  }

  /** Nothing happens between a reset and the next start. */
  lemma {:induction false} ResetIsFinal(capacity: nat, d: Device, passes: seq<Input>, i: nat)
    requires i <= |passes| && Run(capacity, d, passes[..i]).reset
    ensures Run(capacity, d, passes) == Run(capacity, d, passes[..i])
    decreases |passes|
  {
    hide Step;
    if i < |passes| {
      var n := |passes| - 1;
      assert passes[..n][..i] == passes[..i];
      ResetIsFinal(capacity, d, passes[..n], i);
      StepAfterReset(capacity, Run(capacity, d, passes[..n]), passes[n]);
    } else {
      assert passes[..i] == passes;
    }
  }
}
