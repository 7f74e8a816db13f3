/** The frames the firmware's packets become, firmware/packet-comm.c and the senders of firmware/main.c. */
module Packets {
  import opened Bytes
  import opened Checksum
  import opened Firmware
  import opened FrameDefs

  function Ascii(s: string): (bs: seq<byte>)
    ensures |bs| == |s|
  {
    seq(|s|, i requires 0 <= i < |s| => U8(s[i] as int))
  }

  function MessageText(m: Message): string
  {
    match m
    case MsgReady => "READY"
    case MsgMeasuring => "MEASURING"
    case MsgDone => "DONE"
    case MsgReset => "RESET"
    case MsgParamsToEeprom => "PARAMS_TO_EEPROM"
    case MsgInvalidEeprom => "Invalid EEPROM data"
    case MsgInvalidTransition => "invalid state transition"
    case MsgError => "STP_ERROR"
    case MsgTimerValue => "Unsupported timer value <= 1"
    case MsgLength => "param length mismatch"
    case MsgChecksum => "checksum fail"
  }

  /** Table size, bits per value, units per second, sizes of the two parameters, and the name. */
  function InfoPayload(tableBytes: u16): seq<byte>
  {
    LittleEndian(tableBytes, 2) + [16, 1, 2, 0] + Ascii("geiger-time-series")
  }

  /** Bits per value, reason, the type letter 'T', elapsed time, and the length of the echoed parameters. */
  function TableHeader(reason: byte, duration: u16, echoLength: byte): (h: seq<byte>)
    ensures |h| == 6
  {
    [16, reason, 0x54] + LittleEndian(duration, 2) + [echoLength]
  }

  function TypeOf(p: Packet): byte
  {
    match p
    case Table(_, _, _, _, _) => TYPE_VALUE_TABLE
    case State(_) => TYPE_STATE
    case Text(_) => TYPE_TEXT
    case Info => TYPE_PERSONALITY_INFO
    case EepromParams(_) => TYPE_PARAMS_FROM_EEPROM
  }

  function PayloadOf(tableBytes: u16, p: Packet): seq<byte>
  {
    match p
    case Table(reason, duration, echo, _, data) => TableHeader(reason, duration, U8(|echo|)) + echo + data
    case State(m) => Ascii(MessageText(m))
    case Text(m) => Ascii(MessageText(m))
    case Info => InfoPayload(tableBytes)
    case EepromParams(params) => params
  }

  /** A table declares its size before its data is sent; every other packet declares what it sends. */
  function DeclaredOf(tableBytes: u16, p: Packet): nat
  {
    if p.Table? then p.declared else |PayloadOf(tableBytes, p)|
  }

  function Wire(tableBytes: u16, p: Packet): seq<byte>
  {
    Sealed(Header(TypeOf(p), U16(DeclaredOf(tableBytes, p))) + PayloadOf(tableBytes, p))
  }

  function WireAll(tableBytes: u16, sent: seq<Packet>): seq<byte>
  {
    if sent == [] then [] else WireAll(tableBytes, sent[..|sent| - 1]) + Wire(tableBytes, sent[|sent| - 1])
  }

  lemma WireSnoc(tableBytes: u16, sent: seq<Packet>, p: Packet)
    ensures WireAll(tableBytes, sent + [p]) == WireAll(tableBytes, sent) + Wire(tableBytes, p)
  {
    assert (sent + [p])[..|sent|] == sent;
  }

  /** The packet's frame announces the size it has; the size field holds 16 bits. */
  predicate Announces(tableBytes: u16, p: Packet)
  {
    U16(DeclaredOf(tableBytes, p)) == |PayloadOf(tableBytes, p)|
  }

  /** A packet that announces what it sends is an ordinary frame. */
  lemma WireIsFrame(tableBytes: u16, p: Packet)
    requires Announces(tableBytes, p)
    ensures Wire(tableBytes, p) == EncodeFrame(Frame(TypeOf(p), PayloadOf(tableBytes, p)))
  {
    hide PayloadOf, Header, Sum, TypeOf;
  }

  /** And the other way round: a packet that looks like its frame announces what it sends. */
  lemma FrameAnnounces(tableBytes: u16, p: Packet)
    requires |PayloadOf(tableBytes, p)| < 0x1_0000
    requires Wire(tableBytes, p) == EncodeFrame(Frame(TypeOf(p), PayloadOf(tableBytes, p)))
    ensures Announces(tableBytes, p)
  {
    hide PayloadOf, Sum, TypeOf, LittleEndian, DeclaredOf;
    var size, length := U16(DeclaredOf(tableBytes, p)), |PayloadOf(tableBytes, p)|;
    var wire := Wire(tableBytes, p);
    assert wire[4..6] == LittleEndian(size, 2) && wire[4..6] == LittleEndian(length, 2);
    Word16(size);
    Word16(length);
  }

  lemma WireLength(tableBytes: u16, p: Packet)
    ensures |Wire(tableBytes, p)| == 8 + |PayloadOf(tableBytes, p)|
  {
    hide PayloadOf, Sum, TypeOf, LittleEndian, DeclaredOf;
  }
}
