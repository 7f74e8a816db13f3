/**
  Commands from the host: the sender of hostware/freemcan-device.c, and the reference for the
  parser inside the firmware's main loop. Like `FrameParser.Accept`, the reference keeps the raw
  bytes of the command it is collecting and looks at nothing else.
 */
module CommandParser {
  import opened Bytes
  import opened Checksum
  import opened FrameDefs

  class HostDevice {
    /** Not positive while the device is closed. */
    var fd: int
    var wire: seq<byte>

    constructor (fd: int)
      ensures this.fd == fd && wire == []
    {
      this.fd := fd;
      wire := [];
    }

    /** Runs the checksum over one scatter-gather buffer. */
    method UpdateIovec(cs: HostChecksum, iov: seq<byte>)
      modifies cs
      ensures cs.accu == Sum(old(cs.accu), iov)
    {
      var i := 0;
      while i < |iov|
        invariant 0 <= i <= |iov|
        invariant cs.accu == Sum(old(cs.accu), iov[..i])
      {
        cs.UpdateByte(iov[i]);
        assert iov[..i + 1] == iov[..i] + [iov[i]];
        SumSnoc(old(cs.accu), iov[..i], iov[i]);
        i := i + 1;
      }
      assert iov[..i] == iov;
    }

    method Checksummed(out: seq<seq<byte>>) returns (check: byte)
      ensures check == Final(Joined(out))
    {
      var cs := new HostChecksum();
      var i := 0;
      while i < |out|
        invariant 0 <= i <= |out| && fresh(cs)
        invariant cs.accu == Sum(SEED, Joined(out[..i]))
      {
        UpdateIovec(cs, out[i]);
        assert out[..i + 1][..i] == out[..i];
        SumConcat(SEED, Joined(out[..i]), out[i]);
        i := i + 1;
      }
      assert out[..i] == out;
      check := cs.Get();
    }

    method SendCommand(cmd: byte)
      modifies this`wire
      ensures wire == old(wire) + (if fd > 0 then EncodeCommand(Command(cmd, [])) else [])
    {
      if fd <= 0 {
        return;
      }
      var out := [MAGIC, [cmd], [0]];
      var check := Checksummed(out);
      JoinedOfThree(MAGIC, [cmd], [0]);
      assert MAGIC + [cmd] + [0] == MAGIC + [cmd, 0] + [];
      wire := wire + Joined(out) + [check];
    }

    /** The length byte is a truncation; the parameters are all sent. */
    method SendCommandWithParams(cmd: byte, params: seq<byte>)
      modifies this`wire
      ensures wire == old(wire) + (if fd > 0 then EncodeCommand(Command(cmd, params)) else [])
    {
      if fd <= 0 {
        return;
      }
      var len8 := U8(|params|);
      var out := [MAGIC, [cmd], [len8], params];
      var check := Checksummed(out);
      assert out[..3] == [MAGIC, [cmd], [len8]];
      JoinedOfThree(MAGIC, [cmd], [len8]);
      assert MAGIC + [cmd] + [len8] == MAGIC + [cmd, len8];
      wire := wire + Joined(out) + [check];
    }
  }

  /** What `writev` puts on the line: the buffers one after the other. */
  function Joined(out: seq<seq<byte>>): seq<byte>
  {
    if out == [] then [] else Joined(out[..|out| - 1]) + out[|out| - 1]
  }

  lemma JoinedOfThree(a: seq<byte>, b: seq<byte>, c: seq<byte>)
    ensures Joined([a, b, c]) == a + b + c
  {
    assert [a, b, c][..2] == [a, b];
    JoinedOfTwo(a, b);
  }

  lemma JoinedOfTwo(a: seq<byte>, b: seq<byte>)
    ensures Joined([a, b]) == a + b
  {
    assert [a, b][..1] == [a] && [a][..0] == [];
    assert Joined([a]) == Joined([a][..0]) + a;
  }

  // ----- Reference for the firmware's parser -----

  /** `raw` is the command being collected, from its first magic byte on; `calls` the commands handed on. */
  datatype Receiver = Receiver(raw: seq<byte>, calls: seq<Command>)

  /** `m` is the personality's parameter size: a block is empty, or at least that long and under the maximum. */
  predicate AcceptedLength(m: nat, len: nat) { len == 0 || m <= len < MAX_PARAM_LENGTH }

  function ParamLength(raw: seq<byte>): nat
    requires |raw| >= 6
  {
    raw[5]
  }

  function Take(m: nat, r: Receiver, u: byte): Receiver
  {
    var raw := r.raw + [u];
    if |raw| <= 4 then r.(raw := if raw == MAGIC[..|raw|] then raw else [])
    else if |raw| <= 5 then r.(raw := raw)
    else if |raw| == 6 then r.(raw := if AcceptedLength(m, u) then raw else [])
    else if |raw| < 7 + ParamLength(raw) then r.(raw := raw)
    else if raw == Sealed(raw[..|raw| - 1]) then Receiver([], r.calls + [Command(raw[4], raw[6..|raw| - 1])])
    else r.(raw := [])
  }

  function TakeAll(m: nat, r: Receiver, stream: seq<byte>): Receiver
  {
    if stream == [] then r else Take(m, TakeAll(m, r, stream[..|stream| - 1]), stream[|stream| - 1])
  }

  lemma TakeSnoc(m: nat, r: Receiver, stream: seq<byte>, u: byte)
    ensures TakeAll(m, r, stream + [u]) == Take(m, TakeAll(m, r, stream), u)
  {
    assert (stream + [u])[..|stream|] == stream;
  }

  lemma {:induction false} TakeConcat(m: nat, r: Receiver, a: seq<byte>, b: seq<byte>)
    ensures TakeAll(m, r, a + b) == TakeAll(m, TakeAll(m, r, a), b)
  {
    hide Take;
    if b == [] {
      assert a + b == a;
    } else {
      var b0 := b[..|b| - 1];
      TakeConcat(m, r, a, b0);
      assert (a + b)[..|a + b| - 1] == a + b0;
    }
  }

  lemma TakeMagic(m: nat, r: Receiver, u: byte)
    requires |r.raw| <= 3 && r.raw == MAGIC[..|r.raw|]
    ensures Take(m, r, u) == r.(raw := if u == MAGIC[|r.raw|] then r.raw + [u] else [])
  {
    var k := |r.raw|;
    assert MAGIC[..k + 1] == MAGIC[..k] + [MAGIC[k]];
    assert (r.raw + [u])[k] == u && MAGIC[..k + 1][k] == MAGIC[k];
  }

  lemma TakeParam(m: nat, r: Receiver, u: byte)
    requires |r.raw| >= 6 && |r.raw| < 6 + ParamLength(r.raw)
    ensures Take(m, r, u) == r.(raw := r.raw + [u])
  {
  }

  lemma TakeChecksum(m: nat, r: Receiver, u: byte)
    requires |r.raw| >= 6 && |r.raw| == 6 + ParamLength(r.raw)
    ensures Take(m, r, u) ==
              if u == Final(r.raw) then Receiver([], r.calls + [Command(r.raw[4], r.raw[6..])]) else r.(raw := [])
  {
    var raw := r.raw + [u];
    assert raw[..|r.raw|] == r.raw && raw[6..|r.raw|] == r.raw[6..];
    assert raw[|r.raw|] == u && Sealed(r.raw)[|r.raw|] == Final(r.raw);
  }

  function Body(c: Command): seq<byte> { MAGIC + [c.cmd, U8(|c.params|)] + c.params }

  /** The first six bytes of a command. */
  lemma CollectHead(m: nat, r: Receiver, c: Command)
    requires r.raw == []
    ensures TakeAll(m, r, Body(c)[..6]) == r.(raw := if AcceptedLength(m, U8(|c.params|)) then Body(c)[..6] else [])
  {
    hide Take;
    var b := Body(c);
    CollectCommandMagic(m, r);
    assert b[..4] == MAGIC && b[..5] == b[..4] + [c.cmd] && b[..6] == b[..5] + [U8(|c.params|)];
    TakeSnoc(m, r, b[..4], c.cmd);
    TakeSnoc(m, r, b[..5], U8(|c.params|));
    TakeHead(m, r.(raw := b[..4]), c.cmd);
    TakeHead(m, r.(raw := b[..5]), U8(|c.params|));
  }

  lemma TakeHead(m: nat, r: Receiver, u: byte)
    requires 4 <= |r.raw| <= 5
    ensures Take(m, r, u) == r.(raw := if |r.raw| == 4 || AcceptedLength(m, u) then r.raw + [u] else [])
  {
  }

  lemma CollectCommandMagic(m: nat, r: Receiver)
    requires r.raw == []
    ensures TakeAll(m, r, MAGIC) == r.(raw := MAGIC)
  {
    hide Take;
    var g := MAGIC;
    assert g[..1] == [] + [g[0]] && g[..2] == g[..1] + [g[1]] && g[..3] == g[..2] + [g[2]] && g == g[..3] + [g[3]];
    TakeSnoc(m, r, [], g[0]);
    TakeMagic(m, r, g[0]);
    TakeSnoc(m, r, g[..1], g[1]);
    TakeMagic(m, r.(raw := g[..1]), g[1]);
    TakeSnoc(m, r, g[..2], g[2]);
    TakeMagic(m, r.(raw := g[..2]), g[2]);
    TakeSnoc(m, r, g[..3], g[3]);
    TakeMagic(m, r.(raw := g[..3]), g[3]);
  }

  lemma {:induction false} CollectParams(m: nat, r: Receiver, c: Command, n: nat)
    requires r.raw == [] && |c.params| < MAX_PARAM_LENGTH && AcceptedLength(m, |c.params|) && n <= |c.params|
    ensures TakeAll(m, r, Body(c)[..6 + n]) == r.(raw := Body(c)[..6 + n])
  {
    hide Take;
    var b := Body(c);
    if n == 0 {
      CollectHead(m, r, c);
    } else {
      CollectParams(m, r, c, n - 1);
      assert b[..6 + n] == b[..5 + n] + [b[5 + n]];
      TakeSnoc(m, r, b[..5 + n], b[5 + n]);
      TakeParam(m, r.(raw := b[..5 + n]), b[5 + n]);
    }
  }

  predicate Wellformed(m: nat, c: Command) { AcceptedLength(m, |c.params|) }

  /** In numbers: no parameters, or at least as many as the personality has and at most fifteen. */
  lemma WellformedLengths(m: nat, c: Command)
    ensures Wellformed(m, c) <==> |c.params| == 0 || m <= |c.params| <= 15
  {
  }

  lemma CommandArrives(m: nat, r: Receiver, c: Command)
    requires r.raw == [] && Wellformed(m, c)
    ensures TakeAll(m, r, EncodeCommand(c)) == r.(calls := r.calls + [c])
  {
    hide Take;
    var b := Body(c);
    CollectParams(m, r, c, |c.params|);
    assert b[..6 + |c.params|] == b && b[6..] == c.params;
    TakeSnoc(m, r, b, Final(b));
    TakeChecksum(m, r.(raw := b), Final(b));
  }

  /** Host-to-device round trip at the parser: every list of well-formed commands arrives, in order. */
  lemma {:induction false} CommandsArrive(m: nat, r: Receiver, cs: seq<Command>)
    requires r.raw == [] && forall c | c in cs :: |c.params| == 0 || m <= |c.params| <= 15
    ensures TakeAll(m, r, EncodeCommands(cs)) == r.(calls := r.calls + cs)
    decreases |cs|
  {
    hide Take, EncodeCommand, Wellformed;
    if cs == [] {
      assert r.calls + cs == r.calls;
    } else {
      WellformedLengths(m, cs[0]);
      CommandArrives(m, r, cs[0]);
      TakeConcat(m, r, EncodeCommand(cs[0]), EncodeCommands(cs[1..]));
      CommandsArrive(m, r.(calls := r.calls + [cs[0]]), cs[1..]);
      assert r.calls + cs == (r.calls + [cs[0]]) + cs[1..];
    }
  }

  /** What the parser holds can be the beginning of a command. */
  predicate PlausibleCommand(m: nat, raw: seq<byte>)
  {
    && (|raw| <= 4 ==> raw == MAGIC[..|raw|])
    && (|raw| > 4 ==> raw[..4] == MAGIC)
    && (|raw| >= 6 ==> AcceptedLength(m, raw[5]) && |raw| < 7 + ParamLength(raw))
  }

  /** One byte either completes a well-formed command whose encoding has just been collected, or hands nothing on. */
  lemma TakeOutcome(m: nat, r: Receiver, u: byte)
    requires PlausibleCommand(m, r.raw)
    ensures var raw := r.raw + [u];
      var t := Take(m, r, u);
      && PlausibleCommand(m, t.raw)
      && (|| (t.calls == r.calls && (t.raw == raw || t.raw == []))
          || (t.raw == [] && |raw| >= 7 && t.calls == r.calls + [Command(raw[4], raw[6..|raw| - 1])]
              && Wellformed(m, Command(raw[4], raw[6..|raw| - 1]))
              && raw == EncodeCommand(Command(raw[4], raw[6..|raw| - 1]))))
  {
    var raw := r.raw + [u];
    var t := Take(m, r, u);
    if |raw| > 4 {
      assert raw[..4] == if |r.raw| == 4 then r.raw else r.raw[..4];
    }
    if t.calls != r.calls {
      SealedIsCommand(raw);
    }
    hide Sealed, EncodeCommand;
  }

  lemma SealedIsCommand(raw: seq<byte>)
    requires |raw| >= 7 && raw[..4] == MAGIC && |raw| == 7 + ParamLength(raw) && raw == Sealed(raw[..|raw| - 1])
    ensures raw == EncodeCommand(Command(raw[4], raw[6..|raw| - 1]))
  {
    hide Sum;
    var c := Command(raw[4], raw[6..|raw| - 1]);
    assert raw[..|raw| - 1] == raw[..4] + [raw[4], raw[5]] + c.params;
  }

  /** The length of a command on the line. */
  function Length(c: Command): nat { 7 + |c.params| }

  /** `calls[i]` is encoded in the stream at `starts[i]`; the stretches are disjoint, in order, and end by `end`. */
  predicate CallsLocated(m: nat, stream: seq<byte>, starts: seq<nat>, calls: seq<Command>, end: nat)
  {
    && |starts| == |calls| && end <= |stream|
    && (forall i | 0 <= i < |calls| ::
          && (|calls[i].params| == 0 || m <= |calls[i].params| <= 15) && starts[i] + Length(calls[i]) <= end
          && stream[starts[i]..starts[i] + Length(calls[i])] == EncodeCommand(calls[i]))
    && (forall i, j | 0 <= i < j < |calls| :: starts[i] + Length(calls[i]) <= starts[j])
  }

  lemma CallsLocatedLater(m: nat, stream: seq<byte>, u: byte, starts: seq<nat>, calls: seq<Command>, end: nat,
      end': nat)
    requires CallsLocated(m, stream, starts, calls, end) && end <= end' <= |stream| + 1
    ensures CallsLocated(m, stream + [u], starts, calls, end')
  {
    hide EncodeCommand, Wellformed;
    forall i | 0 <= i < |calls|
      ensures (stream + [u])[starts[i]..starts[i] + Length(calls[i])] == EncodeCommand(calls[i])
    {
      var from, to := starts[i], starts[i] + Length(calls[i]);
      assert (stream + [u])[from..to] == stream[from..to];
    }
  }

  lemma CallsLocatedSnoc(m: nat, stream: seq<byte>, starts: seq<nat>, calls: seq<Command>, start: nat, c: Command)
    requires CallsLocated(m, stream, starts, calls, start)
    requires Wellformed(m, c) && start + Length(c) == |stream| && stream[start..] == EncodeCommand(c)
    ensures CallsLocated(m, stream, starts + [start], calls + [c], |stream|)
  {
    WellformedLengths(m, c);
    hide EncodeCommand, Wellformed;
    assert stream[start..start + Length(c)] == stream[start..];
  }

  /** What is being collected is the end of the stream, and the commands handed on were on the line before it. */
  predicate Accounted(m: nat, r: Receiver, stream: seq<byte>, t: Receiver, starts: seq<nat>, calls: seq<Command>)
  {
    && PlausibleCommand(m, t.raw) && |t.raw| <= |stream| && stream[|stream| - |t.raw|..] == t.raw
    && t.calls == r.calls + calls
    && CallsLocated(m, stream, starts, calls, |stream| - |t.raw|)
  }

  lemma SoundByte(m: nat, r: Receiver, stream: seq<byte>, u: byte, t: Receiver, starts: seq<nat>, calls: seq<Command>)
    returns (starts': seq<nat>, calls': seq<Command>)
    requires Accounted(m, r, stream, t, starts, calls)
    ensures Accounted(m, r, stream + [u], Take(m, t, u), starts', calls')
  {
    TakeOutcome(m, t, u);
    hide Take, PlausibleCommand, EncodeCommand, CallsLocated, Wellformed;
    var start, raw, t' := |stream| - |t.raw|, t.raw + [u], Take(m, t, u);
    assert (stream + [u])[start..] == raw;
    if t'.calls == t.calls {
      starts', calls' := starts, calls;
      CallsLocatedLater(m, stream, u, starts, calls, start, |stream| + 1 - |t'.raw|);
    } else {
      var c := Command(raw[4], raw[6..|raw| - 1]);
      starts', calls' := starts + [start], calls + [c];
      CallsLocatedLater(m, stream, u, starts, calls, start, start);
      CallsLocatedSnoc(m, stream + [u], starts, calls, start, c);
      assert r.calls + calls' == t.calls + [c];
    }
  }

  /**
    Soundness for every byte stream: the commands handed on have lengths as above and were on the line as
    contiguous stretches, disjoint and in order; what is being collected is the end of the stream.
   */
  lemma {:induction false} CommandsSound(m: nat, r: Receiver, stream: seq<byte>)
      returns (starts: seq<nat>, calls: seq<Command>)
    requires r.raw == []
    ensures Accounted(m, r, stream, TakeAll(m, r, stream), starts, calls)
  {
    hide Take;
    if stream == [] {
      starts, calls := [], [];
    } else {
      hide Accounted;
      var n := |stream| - 1;
      starts, calls := CommandsSound(m, r, stream[..n]);
      assert stream[..n] + [stream[n]] == stream;
      starts, calls := SoundByte(m, r, stream[..n], stream[n], TakeAll(m, r, stream[..n]), starts, calls);
    }
  }

  /**
    A command the host encodes reaches the handler if and only if it has no parameters, or at least as
    many bytes of them as the personality takes and at most fifteen.
   */
  lemma ArrivesExactlyByLength(m: nat, c: Command)
    ensures TakeAll(m, Receiver([], []), EncodeCommand(c)) == Receiver([], [c])
        <==> |c.params| == 0 || m <= |c.params| <= 15
  {
    WellformedLengths(m, c);
    var r := Receiver([], []);
    if Wellformed(m, c) {
      CommandArrives(m, r, c);
    } else {
      var starts, calls := CommandsSound(m, r, EncodeCommand(c));
      assert [] + calls == calls;
      assert forall i | 0 <= i < |calls| :: |calls[i].params| == 0 || m <= |calls[i].params| <= 15;
      assert [c][0] == c;
    }
  }
}
