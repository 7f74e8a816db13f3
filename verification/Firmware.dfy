/**
  The firmware between two resets, firmware/main.c with the Geiger time series personality, as a
  transition system on values: one function per event handler, one `Pass` through the main loop
  as a step, and timer and count interrupts allowed wherever the code lets them in.
 */
module Firmware {
  import opened Bytes
  import opened Checksum
  import opened CommandParser
  import opened Duration
  import opened FrameDefs
  import opened TimeSeries

  /** Bytes of the timer parameter, the personality's whole parameter block. */
  const PARAM_SIZE := 2

  const CMD_MEASURE: byte := 0x6d
  const CMD_PARAMS_TO_EEPROM: byte := 0x65
  const CMD_PARAMS_FROM_EEPROM: byte := 0x45
  const CMD_PERSONALITY_INFO: byte := 0x66
  const CMD_INTERMEDIATE: byte := 0x69
  const CMD_ABORT: byte := 0x61
  const CMD_STATE: byte := 0x73
  const CMD_RESET: byte := 0x72

  datatype PState = Ready | Measuring | Done

  /** The buffer a personality keeps its parameters in: a length byte and sixteen bytes of room. */
  datatype ParamBlock = ParamBlock(length: byte, params: seq<byte>)

  predicate ValidLength(block: ParamBlock) { block.length <= MAX_PARAM_LENGTH }

  type Room = b: ParamBlock | |b.params|
      == MAX_PARAM_LENGTH witness ParamBlock(0, [0, 0, 0, 0, 0, 0, 0, 0, 0, 0, 0, 0, 0, 0, 0, 0])

  /** The measurement: not started, or counting since it was with slots of `orig` ticks. */
  datatype Series = Idle | Counting(orig: nat, events: seq<Irq>)

  type Clock = s: Series | s.Counting? ==> s.orig >= 2 witness Idle

  datatype Message = MsgReady | MsgMeasuring | MsgDone | MsgReset | MsgParamsToEeprom
                   | MsgInvalidEeprom | MsgInvalidTransition | MsgError | MsgTimerValue | MsgLength | MsgChecksum

  /** What the device sends. A table declares its size before it sends its data. */
  datatype Packet =
    | Table(reason: byte, duration: u16, echo: seq<byte>, declared: nat, data: seq<byte>)
    | State(state: Message)
    | Text(text: Message)
    | Info
    | EepromParams(params: seq<byte>)

  datatype Device = Device(
    pstate: PState, finished: bool, interrupts: bool, switchLocked: bool,
    param: Room, eeprom: Room, series: Clock,
    raw: seq<byte>, calls: seq<Command>, sent: seq<Packet>, reset: bool)

  /**
    One pass through the main loop: whether the switch is down, the byte waiting in the UART if
    any, and the interrupts that fire before the finish flag is tested, from there to the handler,
    then until the table size is read, between the two bytes of that read, until it is read again,
    and between the bytes of the second read. `bytesAt` says between which of the interrupts
    `untilSize` the bytes of the elapsed time are read: read `i` when `bytesAt[i]` of them have
    fired, where that is possible. `beyond` and `behind` are what lies in memory behind the
    parameter buffer and behind the table.
   */
  datatype Pass = Pass(switchDown: bool, rx: seq<byte>, early: seq<Irq>, middle: seq<Irq>,
                       untilSize: seq<Irq>, bytesAt: seq<nat>,
                       inSize: seq<Irq>, afterSize: seq<Irq>, inSecond: seq<Irq>,
                       beyond: seq<byte>, behind: seq<byte>)

  type Input = p: Pass | |p.beyond| == 0x100 && |p.behind| == 0x100 && |p.rx| <= 1
    witness Pass(false, [], [], [], [], [], [], [], [], seq(0x100, _ => 0), seq(0x100, _ => 0))

  /** The state a reset leaves, with the start messages sent. */
  function Boot(eeprom: Room): Device
  {
    var block := ParamBlock(0, seq(MAX_PARAM_LENGTH, _ => 0));
    Device(Ready, false, true, false, block, eeprom, Idle, [], [], [Info, State(MsgReady)], false)
  }

  // ----- Interrupts -----

  function Interrupt(capacity: nat, d: Device, irq: Irq): Device
  {
    if !d.interrupts || d.series.Idle? then d
    else match irq
      case Int0 => d.(series := Counting(d.series.orig, d.series.events + [Int0]))
      case Timer =>
        if d.finished then d
        else
          var later := d.series.events + [Timer];
          d.(series := Counting(d.series.orig, later), finished := Full(later, d.series.orig, capacity))
  }

  function Interrupts(capacity: nat, d: Device, irqs: seq<Irq>): Device
  {
    if irqs == [] then d else Interrupt(capacity, Interrupts(capacity, d, irqs[..|irqs| - 1]), irqs[|irqs| - 1])
  }

  lemma {:induction false} InterruptsConcat(capacity: nat, d: Device, a: seq<Irq>, b: seq<Irq>)
    ensures Interrupts(capacity, d, a + b) == Interrupts(capacity, Interrupts(capacity, d, a), b)
  {
    hide Interrupt;
    if b == [] {
      assert a + b == a;
    } else {
      var b0 := b[..|b| - 1];
      InterruptsConcat(capacity, d, a, b0);
      assert (a + b)[..|a + b| - 1] == a + b0;
    }
  }

  // ----- Tables -----

  /** Elapsed ticks of the current slot. */
  function Elapsed(capacity: nat, s: Clock): u16
  {
    if s.Idle? then 0 else U16(s.orig - Countdown(Ticks(s.events), s.orig, capacity))
  }

  // The loop that reads the countdown until two reads agree, with interrupts between its bytes.

  function Register(capacity: nat, s: Clock): u16
  {
    if s.Idle? then 0 else U16(Countdown(Ticks(s.events), s.orig, capacity))
  }

  /** The register when `n` of the interrupts have fired. */
  function RegisterAt(capacity: nat, d: Device, irqs: seq<Irq>, n: nat): u16
    requires n <= |irqs|
  {
    Register(capacity, Interrupts(capacity, d, irqs[..n]).series)
  }

  /** How many interrupts have fired when byte `i` is read, `pos` having fired at the byte before. */
  function Place(irqs: seq<Irq>, bytesAt: seq<nat>, i: nat, pos: nat): (n: nat)
    requires pos <= |irqs|
    ensures pos <= n <= |irqs|
  {
    if i < |bytesAt| && pos <= bytesAt[i] <= |irqs| then bytesAt[i] else pos
  }

  /** The value of two reads that agree, and the interrupts that had fired at their first and last byte. */
  datatype Reading = Reading(value: u16, first: nat, last: nat)

  /** From a read with value `b` whose bytes were read after `first` and `pos` interrupts. */
  function Settle(capacity: nat, d: Device, irqs: seq<Irq>, bytesAt: seq<nat>, i: nat, first: nat, b: u16,
      pos: nat): (r: Reading)
    requires first <= pos <= |irqs|
    ensures r.first <= r.last <= |irqs|
    decreases if i < |bytesAt| then |bytesAt| - i else 0
  {
    var low := Place(irqs, bytesAt, i, pos);
    var high := Place(irqs, bytesAt, i + 1, low);
    var a := Torn(RegisterAt(capacity, d, irqs, low), RegisterAt(capacity, d, irqs, high));
    if a == b then Reading(a, first, high)
    else if i >= |bytesAt| then Reading(a, low, high)
    else Settle(capacity, d, irqs, bytesAt, i + 2, low, a, high)
  }

  function ReadRegister(capacity: nat, d: Device, irqs: seq<Irq>, bytesAt: seq<nat>): (r: Reading)
    ensures r.first <= r.last <= |irqs|
  {
    var low := Place(irqs, bytesAt, 0, 0);
    var high := Place(irqs, bytesAt, 1, low);
    var b := Torn(RegisterAt(capacity, d, irqs, low), RegisterAt(capacity, d, irqs, high));
    Settle(capacity, d, irqs, bytesAt, 2, low, b, high)
  }

  /** A register that does not move is read at once. */
  lemma ConstantRegister(capacity: nat, d: Device, irqs: seq<Irq>, bytesAt: seq<nat>, c: u16)
    requires forall n: nat | n <= |irqs| :: RegisterAt(capacity, d, irqs, n) == c
    ensures ReadRegister(capacity, d, irqs, bytesAt).value == c
  {
    UntornRead(c, c);
    hide Torn, RegisterAt, Place;
  }

  /** The start value minus what the loop has read. */
  function ReadElapsed(capacity: nat, d: Device, irqs: seq<Irq>, bytesAt: seq<nat>): u16
  {
    if d.series.Idle? then 0 else U16(d.series.orig - ReadRegister(capacity, d, irqs, bytesAt).value)
  }

  function TableSize(capacity: nat, s: Clock): nat
  {
    if s.Idle? then 2 else 2 * Elements(s.events, s.orig, capacity)
  }

  /** The first `n` cells of the table: the counts of each slot, as 16 bits keep them. */
  function Cells(s: Clock, n: nat): (cells: seq<u16>)
    ensures |cells| == n
  {
    seq(n, k requires 0 <= k => if s.Idle? then 0 else U16(Counts(s.events, s.orig, k)))
  }

  function CellBytes(s: Clock, n: nat): (bs: seq<byte>)
    ensures |bs| == 2 * n
  {
    Flatten(Cells(s, n), 2)
  }

  /** `length` bytes from the start of the parameter buffer. */
  function Echo(block: Room, beyond: seq<byte>): (bs: seq<byte>)
    requires |beyond| == 0x100
    ensures |bs| == block.length
  {
    (block.params + beyond)[..block.length]
  }

  /** A size whose low byte is read before its high byte. */
  function TornSize(low: nat, high: nat): nat { low % 0x100 + 0x100 * (high / 0x100) }

  /** The size as two byte reads find it, the table being `s` at the first and `s'` at the second. */
  function SizeRead(capacity: nat, s: Clock, s': Clock): (size: nat)
    ensures size % 2 == 0 && size <= 2 * capacity + 0x100
  {
    EvenTorn(TableSize(capacity, s), TableSize(capacity, s'));
    TornSize(TableSize(capacity, s), TableSize(capacity, s'))
  }

  lemma EvenTorn(low: nat, high: nat)
    requires low % 2 == 0
    ensures TornSize(low, high) % 2 == 0 && TornSize(low, high) <= high + 0xfe
  {
    var q, r := DivModParts(low, 0x100);
    var h, t := DivModParts(high, 0x100);
    assert r == 2 * (low / 2 - 0x80 * q);
    assert TornSize(low, high) == 2 * (low / 2 - 0x80 * q + 0x80 * h);
  }

  /** `size` bytes from the start of the table. */
  function TableMemory(capacity: nat, s: Clock, size: nat, behind: seq<byte>): (bs: seq<byte>)
    requires |behind| == 0x100 && size <= 2 * capacity + 0x100 && size % 2 == 0
    ensures |bs| == size
  {
    if size <= 2 * capacity then CellBytes(s, size / 2) else CellBytes(s, capacity) + behind[..size - 2 * capacity]
  }

  /** The bytes a table sends: as many as its size read says, the table being `s` and then `s'`. */
  function TableBytes(capacity: nat, s: Clock, s': Clock, behind: seq<byte>): (bs: seq<byte>)
    requires |behind| == 0x100
    ensures |bs| == SizeRead(capacity, s, s')
  {
    hide SizeRead;
    TableMemory(capacity, s', SizeRead(capacity, s, s'), behind)
  }

  /** Sends a table: elapsed time, then the size that is declared, then the size that is sent. */
  function SendTable(capacity: nat, d: Device, reason: byte, p: Input): Device
  {
    var duration := ReadElapsed(capacity, d, p.untilSize, p.bytesAt);
    var d1 := Interrupts(capacity, d, p.untilSize);
    var d2 := Interrupts(capacity, d1, p.inSize);
    var declared := 6 + d.param.length + SizeRead(capacity, d1.series, d2.series);
    var d3 := Interrupts(capacity, d2, p.afterSize);
    var d4 := Interrupts(capacity, d3, p.inSecond);
    var data := TableBytes(capacity, d3.series, d4.series, p.behind);
    d4.(sent := d4.sent + [Table(reason, duration, Echo(d.param, p.beyond), declared, data)])
  }

  function Send(d: Device, p: Packet): Device { d.(sent := d.sent + [p]) }

  // ----- Event handlers -----

  function HandleFinished(capacity: nat, d: Device, p: Input): Device
  {
    if d.pstate == Measuring then SendTable(capacity, d.(interrupts := false), REASON_DONE, p).(pstate := Done)
    else Send(d, Text(MsgInvalidTransition)).(reset := true)
  }

  /** Locks the switch, then starts the timer with the first two parameter bytes unless they are below two. */
  function StartMeasurement(d: Device): Device
  {
    var value := Value(d.param.params[..2]);
    if value <= 1 then Send(d, Text(MsgTimerValue)).(switchLocked := true, reset := true)
    else Send(d, State(MsgMeasuring)).(switchLocked := true, series := Counting(value, []), pstate := Measuring)
  }

  function HandleSwitch(d: Device): Device
  {
    if d.pstate != Ready then d
    else
      var copied := d.(param := d.eeprom);
      if ValidLength(d.eeprom) then StartMeasurement(copied)
      else Send(Send(copied, Text(MsgInvalidEeprom)), State(MsgReady))
  }

  function HandleReady(d: Device, cmd: byte): Device
  {
    if cmd == CMD_PERSONALITY_INFO then Send(Send(d, Info), State(MsgReady))
    else if cmd == CMD_ABORT || cmd == CMD_INTERMEDIATE || cmd == CMD_STATE then Send(d, State(MsgReady))
    else if cmd == CMD_PARAMS_TO_EEPROM then Send(Send(d, State(MsgParamsToEeprom)),
        State(MsgReady)).(eeprom := d.param)
    else if cmd == CMD_PARAMS_FROM_EEPROM then
      Send(Send(d, if ValidLength(d.eeprom)
          then EepromParams(d.eeprom.params[..d.eeprom.length]) else Text(MsgInvalidEeprom)),
           State(MsgReady)).(param := d.eeprom)
    else if cmd == CMD_MEASURE then StartMeasurement(d)
    else Send(d, if cmd == CMD_RESET then State(MsgReset) else Text(MsgError)).(reset := true)
  }

  function HandleMeasuring(capacity: nat, d: Device, cmd: byte, p: Input): Device
  {
    if cmd == CMD_INTERMEDIATE then Send(SendTable(capacity, d, REASON_INTERMEDIATE, p), State(MsgMeasuring))
    else if cmd == CMD_PERSONALITY_INFO then Send(Send(d, Info), State(MsgMeasuring))
    else if cmd == CMD_PARAMS_TO_EEPROM || cmd == CMD_PARAMS_FROM_EEPROM || cmd == CMD_MEASURE || cmd == CMD_RESET
        || cmd == CMD_STATE
    then Send(d, State(MsgMeasuring))
    else if cmd == CMD_ABORT then
      var quiet := Send(d, State(MsgDone)).(interrupts := false);
      Send(SendTable(capacity, quiet, REASON_ABORTED, p), State(MsgDone)).(pstate := Done)
    else Send(d, Text(MsgError)).(reset := true)
  }

  function HandleDone(capacity: nat, d: Device, cmd: byte, p: Input): Device
  {
    if cmd == CMD_PERSONALITY_INFO then Send(Send(d, Info), State(MsgDone))
    else if cmd == CMD_STATE then Send(d, State(MsgDone))
    else if cmd == CMD_RESET then Send(d, State(MsgReset)).(reset := true)
    else Send(SendTable(capacity, d, REASON_RESEND, p), State(MsgDone))
  }

  function HandleCommand(capacity: nat, d: Device, cmd: byte, p: Input): Device
  {
    match d.pstate
    case Ready => HandleReady(d, cmd)
    case Measuring => HandleMeasuring(capacity, d, cmd, p)
    case Done => HandleDone(capacity, d, cmd, p)
  }

  // ----- The command parser inside the loop -----

  /** While ready, length and parameter bytes go straight into the buffer. */
  function StoreParam(d: Device, u: byte): Room
  {
    if d.pstate == Ready && |d.raw| == 5 then d.param.(length := u)
    else if d.pstate == Ready && 6 <= |d.raw| < 6 + MAX_PARAM_LENGTH && |d.raw| < 6 + ParamLength(d.raw)
    then d.param.(params := d.param.params[|d.raw| - 6 := u])
    else d.param
  }

  function HandleByte(capacity: nat, d: Device, u: byte, p: Input): Device
  {
    var t := Take(PARAM_SIZE, Receiver(d.raw, d.calls), u);
    var stored := d.(param := StoreParam(d, u), raw := t.raw, calls := t.calls);
    if t.calls != d.calls then HandleCommand(capacity, stored, t.calls[|t.calls| - 1].cmd, p)
    else if t.raw == [] && |d.raw| == 5 then Send(stored, Text(MsgLength))
    else if t.raw == [] && |d.raw| >= 6 then Send(stored, Text(MsgChecksum))
    else stored
  }

  /** Magic and command bytes touch nothing but the bytes collected. */
  lemma EarlyByte(capacity: nat, d: Device, u: byte, p: Input)
    requires |d.raw| <= 4 && (|d.raw| <= 3 ==> d.raw == MAGIC[..|d.raw|])
    ensures HandleByte(capacity, d, u, p) ==
              d.(raw := if |d.raw| == 4 || u == MAGIC[|d.raw|] then d.raw + [u] else [])
  {
    if |d.raw| <= 3 {
      TakeMagic(PARAM_SIZE, Receiver(d.raw, d.calls), u);
    } else {
      TakeHead(PARAM_SIZE, Receiver(d.raw, d.calls), u);
    }
    hide Take, HandleCommand;
  }

  lemma LengthByte(capacity: nat, d: Device, u: byte, p: Input)
    requires |d.raw| == 5
    ensures var e := d.(param := if d.pstate == Ready then d.param.(length := u) else d.param);
      HandleByte(capacity, d, u, p) ==
        if u == 0 || 2 <= u <= 15 then e.(raw := d.raw + [u]) else Send(e.(raw := []), Text(MsgLength))
  {
    TakeHead(PARAM_SIZE, Receiver(d.raw, d.calls), u);
    hide Take, HandleCommand;
  }

  lemma ParamByte(capacity: nat, d: Device, u: byte, p: Input)
    requires 6 <= |d.raw| < 6 + ParamLength(d.raw) && ParamLength(d.raw) < MAX_PARAM_LENGTH
    ensures HandleByte(capacity, d, u, p) ==
              d.(raw := d.raw + [u],
                 param := if d.pstate == Ready then d.param.(params := d.param.params[|d.raw| - 6 := u]) else d.param)
  {
    TakeParam(PARAM_SIZE, Receiver(d.raw, d.calls), u);
    hide Take, HandleCommand;
  }

  /** The checksum byte: a command for the handler, or a complaint. */
  lemma FinalByte(capacity: nat, d: Device, u: byte, p: Input)
    requires |d.raw| >= 6 && |d.raw| == 6 + ParamLength(d.raw)
    ensures var c := Command(d.raw[4], d.raw[6..]);
      HandleByte(capacity, d, u, p) ==
        if u == Final(d.raw) then HandleCommand(capacity, d.(raw := [], calls := d.calls + [c]), c.cmd, p)
        else Send(d.(raw := []), Text(MsgChecksum))
  {
    TakeChecksum(PARAM_SIZE, Receiver(d.raw, d.calls), u);
    hide Take, HandleCommand;
  }

  /** One pass: the finish flag first, then the switch, then the UART. */
  function Step(capacity: nat, d: Device, p: Input): Device
  {
    if d.reset then d
    else
      var d0 := Interrupts(capacity, d, p.early);
      var d1 := Interrupts(capacity, d0, p.middle);
      if d0.finished then
        var e := HandleFinished(capacity, d1, p);
        if e.reset then e else e.(finished := false)
      else if p.switchDown && !d0.switchLocked then HandleSwitch(d1)
      else if p.rx != [] then HandleByte(capacity, d1, p.rx[0], p)
      else d1
  }

  /** The byte a pass takes from the UART. */
  function Consumed(capacity: nat, d: Device, p: Input): seq<byte>
  {
    var d0 := Interrupts(capacity, d, p.early);
    if d.reset || d0.finished || (p.switchDown && !d0.switchLocked) then [] else p.rx
  }

  function Run(capacity: nat, d: Device, passes: seq<Input>): Device
  {
    if passes == [] then d else Step(capacity, Run(capacity, d, passes[..|passes| - 1]), passes[|passes| - 1])
  }

  function AllConsumed(capacity: nat, d: Device, passes: seq<Input>): seq<byte>
  {
    if passes == [] then []
    else
      var n := |passes| - 1;
      AllConsumed(capacity, d, passes[..n]) + Consumed(capacity, Run(capacity, d, passes[..n]), passes[n])
  }
}
