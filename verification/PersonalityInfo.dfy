/** What the host learns about the device's personality, hostware/packet-parser.c and hostware/personality-info.c. */
module PersonalityInfo {
  import opened Bytes
  import opened Checksum
  import opened Firmware
  import opened FrameDefs
  import opened Packets
  import opened PassOutcomes
  import opened ValueTable
  import FP = FrameProtocol
  import Host = FrameParser
  import TableTransport

  /** The host's object: table size in bytes, bits per value, units per second, parameter sizes and name. */
  datatype Description = Description(sizeofTable: u16, bits: byte, units: byte, parameters: Personality,
      name: seq<byte>)

  /** The bytes up to the first zero. */
  function UpToZero(s: seq<byte>): seq<byte>
  {
    if s == [] || s[0] == 0 then [] else [s[0]] + UpToZero(s[1..])
  }

  const INFO_SIZE := 6

  /** The host stops on a packet without a name. */
  function Describe(payload: seq<byte>): Option<Description>
    requires |payload| >= INFO_SIZE
  {
    if |payload| == INFO_SIZE then None
    else Some(Description(Word(payload[..2]), payload[2], payload[3], Personality(payload[4], payload[5]),
                          UpToZero(payload[INFO_SIZE..])))
  }

  lemma {:induction false} NoZero(s: seq<byte>)
    requires 0 !in s
    ensures UpToZero(s) == s
  {
    if s != [] {
      NoZero(s[1..]);
    }
  }

  /**
    The device introduces itself: a synchronised host delivers the personality packet and reads from
    it the table's size, 16-bit values, one tick a second, a two-byte timer parameter and no skip
    count, which is what its decoding of this device's tables rests on, and the name.
   */
  lemma InfoReachesHost(tableBytes: u16, h: Host.Host)
    requires FP.Synchronised(h)
    ensures var f := Frame(TYPE_PERSONALITY_INFO, InfoPayload(tableBytes));
      && Host.Run(h, Wire(tableBytes, Info)) == h.(handled := h.handled + [f])
      && |f.payload| >= INFO_SIZE
      && Describe(f.payload)
         == Some(Description(tableBytes, 16, 1, TableTransport.GEIGER, Ascii("geiger-time-series")))
  {
    var payload := InfoPayload(tableBytes);
    var f := Frame(TYPE_PERSONALITY_INFO, payload);
    InfoDescribes(tableBytes);
    hide Host.Run, Header, Sum, LittleEndian, Ascii, InfoPayload, Describe, Wire;
    WireIsFrame(tableBytes, Info);
    FP.ConsumedToItsEnd(h, f.ftype, f.payload, Final(Header(f.ftype, |f.payload|) + f.payload));
  }

  lemma InfoDescribes(tableBytes: u16)
    ensures var payload := InfoPayload(tableBytes);
      && |payload| == 24
      && Describe(payload) == Some(Description(tableBytes, 16, 1, Personality(2, 0), Ascii("geiger-time-series")))
  {
    AsciiHasNoZero("geiger-time-series");
    hide Ascii, Describe, LittleEndian;
    DescribesParts(tableBytes, Ascii("geiger-time-series"));
  }

  lemma DescribesParts(tableBytes: u16, name: seq<byte>)
    requires name != [] && 0 !in name
    ensures Describe(LittleEndian(tableBytes, 2) + [16, 1, 2, 0] + name)
         == Some(Description(tableBytes, 16, 1, Personality(2, 0), name))
  {
    NoZero(name);
    Word16(tableBytes);
    hide LittleEndian;
    var payload := LittleEndian(tableBytes, 2) + [16, 1, 2, 0] + name;
    assert payload[..2] == LittleEndian(tableBytes, 2) && payload[INFO_SIZE..] == name;
  }

  lemma AsciiHasNoZero(s: string)
    requires forall i | 0 <= i < |s| :: 0 < s[i] as int < 0x80
    ensures 0 !in Ascii(s)
  {
  }

  // ----- The greeting of every run -----

  /** What has been delivered stays delivered. */
  lemma {:induction false} HandledGrows(h: Host.Host, stream: seq<byte>)
    ensures h.handled <= Host.Run(h, stream).handled
  {
    if stream != [] {
      hide Host.Accept;
      var n := |stream| - 1;
      HandledGrows(h, stream[..n]);
      AcceptGrows(Host.Run(h, stream[..n]), stream[n]);
    }
  }

  lemma AcceptGrows(h: Host.Host, u: byte)
    ensures var e := Host.Accept(h, u); |h.handled| <= |e.handled| && e.handled[..|h.handled|] == h.handled
  {
    hide Sealed, Host.DeclaredSize;
  }

  lemma {:induction false} WireBegins(tableBytes: u16, sent: seq<Packet>, a: Packet, b: Packet)
      returns (rest: seq<byte>)
    requires [a, b] <= sent
    ensures WireAll(tableBytes, sent) == Wire(tableBytes, a) + Wire(tableBytes, b) + rest
    decreases |sent|
  {
    hide Wire;
    var n := |sent| - 1;
    if n == 1 {
      rest := [];
      assert sent == [a, b] && [a, b][..1] == [a] && [a][..0] == [];
      assert WireAll(tableBytes, [a]) == [] + Wire(tableBytes, a);
    } else {
      rest := WireBegins(tableBytes, sent[..n], a, b);
      rest := rest + Wire(tableBytes, sent[n]);
    }
  }

  lemma ReadyReachesHost(tableBytes: u16, h: Host.Host)
    requires FP.Synchronised(h)
    ensures Host.Run(h, Wire(tableBytes, State(MsgReady)))
         == h.(handled := h.handled + [Frame(TYPE_STATE, Ascii("READY"))])
  {
    var f := Frame(TYPE_STATE, Ascii("READY"));
    hide Host.Run, Header, Sum, LittleEndian, Ascii, Wire;
    WireIsFrame(tableBytes, State(MsgReady));
    FP.ConsumedToItsEnd(h, f.ftype, f.payload, Final(Header(f.ftype, |f.payload|) + f.payload));
  }

  /**
    In every run, whatever is sent and lost later: the first frame the host delivers describes the
    personality its decoding of the device's tables rests on, and the second says READY.
   */
  lemma HostKnowsPersonality(capacity: nat, eeprom: Room, passes: seq<Input>, tableBytes: u16)
    requires capacity > 0
    ensures var sent := Run(capacity, Boot(eeprom), passes).sent;
      var handled := Host.Run(Host.FRESH_HOST, WireAll(tableBytes, sent)).handled;
      && |handled| >= 2
      && handled[0].ftype == TYPE_PERSONALITY_INFO && |handled[0].payload| >= INFO_SIZE
      && Describe(handled[0].payload)
         == Some(Description(tableBytes, 16, 1, TableTransport.GEIGER, Ascii("geiger-time-series")))
      && handled[1] == Frame(TYPE_STATE, Ascii("READY"))
  {
    hide Host.Run, Wire, WireAll, Run, Describe, InfoPayload, Ascii, Boot;
    GreetingFirst(capacity, eeprom, passes);
    var sent := Run(capacity, Boot(eeprom), passes).sent;
    var rest := WireBegins(tableBytes, sent, Info, State(MsgReady));
    var a, b := Wire(tableBytes, Info), Wire(tableBytes, State(MsgReady));
    var h := Host.FRESH_HOST;
    Host.RunConcat(h, a + b, rest);
    Host.RunConcat(h, a, b);
    InfoReachesHost(tableBytes, h);
    var h1 := Host.Run(h, a);
    ReadyReachesHost(tableBytes, h1);
    HandledGrows(Host.Run(h1, b), rest);
  }
}
