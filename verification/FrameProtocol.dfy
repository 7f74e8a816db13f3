/**
  What the device-to-host protocol is for: every list of frames the device can encode comes out
  of the parser unchanged, nothing comes out that was not on the wire, and damage stays local.
 */
module FrameProtocol {
  import opened Bytes
  import opened Checksum
  import opened FrameDefs
  import opened FrameParser

  /** Between frames: nothing collected, not aborted. */
  predicate Synchronised(h: Host) { !h.aborted && h.raw == [] }

  lemma RunSnoc(h: Host, stream: seq<byte>, u: byte)
    ensures Run(h, stream + [u]) == Accept(Run(h, stream), u)
  {
    assert (stream + [u])[..|stream|] == stream;
  }

  lemma HeaderFields(ftype: byte, size: u16, rest: seq<byte>)
    ensures var raw := Header(ftype, size) + rest;
            DeclaredSize(raw) == size && raw[6] == ftype && raw[7..] == rest && raw[..4] == MAGIC
  {
    Word16(size);
    var raw := Header(ftype, size) + rest;
    assert raw[4..6] == LittleEndian(size, 2);
  }

  /** A header and any part of its payload are collected byte by byte. */
  lemma {:induction false} Collect(h: Host, ftype: byte, size: u16, part: seq<byte>, n: nat)
    requires Synchronised(h) && size > 0 && |part| <= size && n <= 7 + |part|
    ensures Run(h, (Header(ftype, size) + part)[..n]) == h.(raw := (Header(ftype, size) + part)[..n])
  {
    hide Accept, Header;
    var all := Header(ftype, size) + part;
    if n > 0 {
      Collect(h, ftype, size, part, n - 1);
      assert all[..n] == all[..n - 1] + [all[n - 1]];
      RunSnoc(h, all[..n - 1], all[n - 1]);
      HeaderFields(ftype, size, part);
      var g := h.(raw := all[..n - 1]);
      if n <= 4 {
        assert all[..4][..n - 1] == MAGIC[..n - 1] && all[..4][n - 1] == MAGIC[n - 1];
        AcceptMagic(g, all[n - 1]);
      } else if n <= 7 {
        AcceptHeader(g, all[n - 1]);
      } else {
        assert g.raw[4..6] == all[4..6];
        AcceptPayload(g, all[n - 1]);
      }
    } else {
      assert all[..0] == [];
    }
  }

  /**
    A frame whose magic and size field are intact is consumed exactly to its own end, whatever
    its type, payload and checksum bytes are: delivered when the checksum fits, counted otherwise.
   */
  lemma ConsumedToItsEnd(h: Host, ftype: byte, payload: seq<byte>, check: byte)
    requires Synchronised(h) && 0 < |payload| < 0x1_0000
    ensures var body := Header(ftype, |payload|) + payload;
            Run(h, body + [check]) ==
              if check == Final(body) then h.(handled := h.handled + [Frame(ftype, payload)])
              else h.(errors := h.errors + 1)
  {
    var body := Header(ftype, |payload|) + payload;
    Collect(h, ftype, |payload|, payload, |body|);
    assert body[..|body|] == body;
    RunSnoc(h, body, check);
    HeaderFields(ftype, |payload|, payload);
    AcceptLast(h.(raw := body), check);
  }

  /** A frame without payload makes the next byte, its own checksum, end the host program. */
  lemma EmptyPayloadAborts(h: Host, ftype: byte, check: byte)
    requires Synchronised(h)
    ensures Run(h, Header(ftype, 0) + [check]) == h.(aborted := true)
  {
    var head := Header(ftype, 0);
    assert Value(LittleEndian(0, 2)) == 0 by { Word16(0); }
    CollectHeader(h, ftype, 0);
    RunSnoc(h, head, check);
    HeaderFields(ftype, 0, []);
    assert head + [] == head;
    AcceptPayload(h.(raw := head), check);
  }

  /** The seven header bytes are collected for every declared size. */
  lemma CollectHeader(h: Host, ftype: byte, size: u16)
    requires Synchronised(h)
    ensures Run(h, Header(ftype, size)) == h.(raw := Header(ftype, size))
  {
    var head := Header(ftype, size);
    CollectHeaderPart(h, ftype, size, 7);
    assert head[..7] == head;
  }

  lemma {:induction false} CollectHeaderPart(h: Host, ftype: byte, size: u16, n: nat)
    requires Synchronised(h) && n <= 7
    ensures Run(h, Header(ftype, size)[..n]) == h.(raw := Header(ftype, size)[..n])
  {
    hide Accept;
    var all := Header(ftype, size);
    if n > 0 {
      CollectHeaderPart(h, ftype, size, n - 1);
      assert all[..n] == all[..n - 1] + [all[n - 1]];
      RunSnoc(h, all[..n - 1], all[n - 1]);
      var g := h.(raw := all[..n - 1]);
      if n <= 4 {
        assert all[..n - 1] == MAGIC[..n - 1] && all[n - 1] == MAGIC[n - 1];
        AcceptMagic(g, all[n - 1]);
      } else {
        AcceptHeader(g, all[n - 1]);
      }
    } else {
      assert all[..0] == [];
    }
  }

  // ----- Round trip -----

  predicate NoneEmpty(fs: seq<Frame>) { forall f | f in fs :: f.payload != [] }

  lemma {:induction false} FramesArrive(h: Host, fs: seq<Frame>)
    requires Synchronised(h) && Sendable(fs) && NoneEmpty(fs)
    ensures Run(h, EncodeFrames(fs)) == h.(handled := h.handled + fs)
    decreases |fs|
  {
    hide Accept, Header, Sum;
    if fs == [] {
      assert h.handled + fs == h.handled;
    } else {
      var f := fs[0];
      RunConcat(h, EncodeFrame(f), EncodeFrames(fs[1..]));
      ConsumedToItsEnd(h, f.ftype, f.payload, Final(Header(f.ftype, |f.payload|) + f.payload));
      FramesArrive(h.(handled := h.handled + [f]), fs[1..]);
      assert h.handled + fs == (h.handled + [f]) + fs[1..];
    }
  }

  lemma {:induction false} EmptyFrameStopsDelivery(h: Host, fs: seq<Frame>)
    requires Synchronised(h) && Sendable(fs) && !NoneEmpty(fs)
    ensures Run(h, EncodeFrames(fs)).aborted
    decreases |fs|
  {
    var f := fs[0];
    RunConcat(h, EncodeFrame(f), EncodeFrames(fs[1..]));
    if f.payload == [] {
      assert Header(f.ftype, 0) + [] == Header(f.ftype, 0);
      EmptyPayloadAborts(h, f.ftype, Final(Header(f.ftype, 0)));
      AbortedStays(Run(h, EncodeFrame(f)), EncodeFrames(fs[1..]));
    } else {
      ConsumedToItsEnd(h, f.ftype, f.payload, Final(Header(f.ftype, |f.payload|) + f.payload));
      EmptyFrameStopsDelivery(h.(handled := h.handled + [f]), fs[1..]);
    }
  }

  /**
    Device-to-host round trip. The host delivers exactly the frames the device sent, in order and
    without a checksum error, if and only if none of them has an empty payload.
   */
  lemma RoundTrip(h: Host, fs: seq<Frame>)
    requires Synchronised(h) && Sendable(fs)
    ensures NoneEmpty(fs) <==> Run(h, EncodeFrames(fs)) == h.(handled := h.handled + fs)
    ensures !NoneEmpty(fs) <==> Run(h, EncodeFrames(fs)).aborted
  {
    if NoneEmpty(fs) {
      FramesArrive(h, fs);
    } else {
      EmptyFrameStopsDelivery(h, fs);
    }
  }

  // ----- Soundness -----

  /** `frames[i]` is encoded in the stream at `starts[i]`; the stretches are disjoint, in order, and end by `end`. */
  predicate Located(stream: seq<byte>, starts: seq<nat>, frames: seq<Frame>, end: nat)
  {
    && |starts| == |frames| && end <= |stream|
    && (forall i | 0 <= i < |frames| ::
          && 0 < |frames[i].payload| < 0x1_0000
          && starts[i] + 8 + |frames[i].payload| <= end
          && stream[starts[i]..starts[i] + 8 + |frames[i].payload|] == EncodeFrame(frames[i]))
    && (forall i, j | 0 <= i < j < |frames| :: starts[i] + 8 + |frames[i].payload| <= starts[j])
  }

  /** What the parser holds can be the beginning of a frame. */
  predicate Plausible(h: Host)
  {
    && (h.aborted ==> h.raw == [])
    && (|h.raw| <= 4 ==> h.raw == MAGIC[..|h.raw|])
    && (|h.raw| > 4 ==> h.raw[..4] == MAGIC)
    && (|h.raw| > 7 ==> DeclaredSize(h.raw) > 0 && |h.raw| < 8 + DeclaredSize(h.raw))
  }

  lemma SealedIsEncoded(raw: seq<byte>)
    requires |raw| >= 8 && raw[..4] == MAGIC && |raw| == 8 + DeclaredSize(raw) && raw == Sealed(raw[..|raw| - 1])
    ensures var f := Frame(raw[6], raw[7..|raw| - 1]);
            |f.payload| < 0x1_0000 && raw == EncodeFrame(f)
  {
    var f := Frame(raw[6], raw[7..|raw| - 1]);
    var n := |f.payload|;
    assert n < 0x1_0000 by {
      ValueOfTwo(raw[4], raw[5]);
      assert raw[4..6] == [raw[4], raw[5]];
    }
    Word16(n);
    ValueInjective(LittleEndian(n, 2), raw[4..6]);
    var body := raw[..|raw| - 1];
    assert body == raw[..4] + raw[4..6] + [raw[6]] + raw[7..|raw| - 1];
    assert body == Header(f.ftype, n) + f.payload;
  }

  lemma PlausibleStep(h: Host, u: byte)
    requires Plausible(h)
    ensures Plausible(Accept(h, u))
  {
    var raw := h.raw + [u];
    if |raw| > 4 {
      assert raw[..4] == if |h.raw| == 4 then h.raw else h.raw[..4];
    }
    if |h.raw| == 4 {
      assert MAGIC[..4] == MAGIC;
    }
  }

  lemma LocatedGrows(stream: seq<byte>, u: byte, starts: seq<nat>, frames: seq<Frame>, end: nat, end': nat)
    requires Located(stream, starts, frames, end) && end <= end' <= |stream| + 1
    ensures Located(stream + [u], starts, frames, end')
  {
    forall i | 0 <= i < |frames|
      ensures (stream + [u])[starts[i]..starts[i] + 8 + |frames[i].payload|] == EncodeFrame(frames[i])
    {
      assert (stream + [u])[starts[i]..starts[i] + 8 + |frames[i].payload|]
          == stream[starts[i]..starts[i] + 8 + |frames[i].payload|];
    }
  }

  lemma LocatedSnoc(stream: seq<byte>, starts: seq<nat>, frames: seq<Frame>, start: nat, f: Frame)
    requires Located(stream, starts, frames, start)
    requires 0 < |f.payload| < 0x1_0000 && start + 8 + |f.payload| == |stream| && stream[start..] == EncodeFrame(f)
    ensures Located(stream, starts + [start], frames + [f], |stream|)
  {
    assert stream[start..start + 8 + |f.payload|] == stream[start..];
  }

  /**
    Soundness for every byte stream: each frame delivered is the decoding of a contiguous stretch
    of the input, the stretches are disjoint and in order, and what is being collected is the end
    of the input and can begin a frame (so a magic offset k > 0 means the last k bytes are the
    first k magic bytes).
   */
  lemma {:induction false} Sound(h: Host, stream: seq<byte>) returns (starts: seq<nat>, frames: seq<Frame>)
    requires Synchronised(h)
    ensures var g := Run(h, stream);
      && g.handled == h.handled + frames
      && Plausible(g) && |g.raw| <= |stream| && stream[|stream| - |g.raw|..] == g.raw
      && Located(stream, starts, frames, |stream| - |g.raw|)
  {
    hide Accept, Located, Plausible;
    if stream == [] {
      starts, frames := SoundStart(h);
    } else {
      var n := |stream| - 1;
      var u := stream[n];
      starts, frames := Sound(h, stream[..n]);
      assert stream[..n] + [u] == stream;
      starts, frames := SoundStep(h, stream[..n], u, starts, frames);
    }
  }

  lemma SoundStart(h: Host) returns (starts: seq<nat>, frames: seq<Frame>)
    requires Synchronised(h)
    ensures h.handled == h.handled + frames && Plausible(h) && Located([], starts, frames, 0)
  {
    starts, frames := [], [];
  }

  lemma SoundStep(h: Host, stream: seq<byte>, u: byte, starts: seq<nat>, frames: seq<Frame>)
    returns (starts': seq<nat>, frames': seq<Frame>)
    requires var g := Run(h, stream);
      && g.handled == h.handled + frames
      && Plausible(g) && |g.raw| <= |stream| && stream[|stream| - |g.raw|..] == g.raw
      && Located(stream, starts, frames, |stream| - |g.raw|)
    ensures var s := stream + [u];
      var g := Run(h, s);
      && g.handled == h.handled + frames'
      && Plausible(g) && |g.raw| <= |s| && s[|s| - |g.raw|..] == g.raw
      && Located(s, starts', frames', |s| - |g.raw|)
  {
    hide Accept, Located;
    var g := Run(h, stream);
    var s := stream + [u];
    var raw := g.raw + [u];
    var start := |stream| - |g.raw|;
    RunSnoc(h, stream, u);
    PlausibleStep(g, u);
    assert s[start..] == raw;
    AcceptOutcome(g, u);
    var g' := Accept(g, u);
    if g'.handled == g.handled {
      starts', frames' := starts, frames;
      LocatedGrows(stream, u, starts, frames, start, |s| - |g'.raw|);
    } else {
      var f := Frame(raw[6], raw[7..|raw| - 1]);
      LocatedGrows(stream, u, starts, frames, start, start);
      LocatedSnoc(s, starts, frames, start, f);
      starts', frames' := starts + [start], frames + [f];
      assert h.handled + frames + [f] == h.handled + frames';
    }
  }

  /** One byte either delivers what has been collected, which is then an encoded frame, or delivers nothing. */
  lemma AcceptOutcome(g: Host, u: byte)
    requires Plausible(g)
    ensures var raw := g.raw + [u];
      var g' := Accept(g, u);
      || (g'.handled == g.handled && (g'.raw == raw || g'.raw == []))
      || (|raw| >= 9 && g'.raw == [] && g'.handled == g.handled + [Frame(raw[6], raw[7..|raw| - 1])]
          && |raw| < 8 + 0x1_0000 && raw == EncodeFrame(Frame(raw[6], raw[7..|raw| - 1])))
  {
    var raw := g.raw + [u];
    if Accept(g, u).handled != g.handled {
      assert raw[4..6] == g.raw[4..6];
      assert raw[..4] == g.raw[..4];
      SealedIsEncoded(raw);
    }
  }

  // ----- Safety -----

  /** A complete header that declares no payload. */
  predicate AtEmptyHeader(h: Host) { !h.aborted && |h.raw| == 7 && DeclaredSize(h.raw) == 0 }

  lemma AbortStep(h: Host, u: byte)
    requires Plausible(h)
    ensures Accept(h, u).aborted <==> h.aborted || AtEmptyHeader(h)
  {
    var raw := h.raw + [u];
    if |h.raw| >= 6 {
      assert raw[4..6] == h.raw[4..6];
    }
  }

  /** The abort is reached exactly when some byte follows a header whose size field is zero. */
  lemma {:induction false} AbortExactly(h: Host, stream: seq<byte>)
    requires Synchronised(h)
    ensures Run(h, stream).aborted <==> exists k: nat :: k < |stream| && AtEmptyHeader(Run(h, stream[..k]))
    ensures Plausible(Run(h, stream))
  {
    hide Accept, Plausible, AtEmptyHeader;
    if stream == [] {
      var starts, frames := Sound(h, stream);
    } else {
      var n := |stream| - 1;
      var u, init := stream[n], stream[..n];
      AbortExactly(h, init);
      AbortStep(Run(h, init), u);
      PlausibleStep(Run(h, init), u);
      forall k: nat | k < n
        ensures init[..k] == stream[..k]
      {
      }
      if Run(h, stream).aborted {
        if Run(h, init).aborted {
          var k: nat :| k < |init| && AtEmptyHeader(Run(h, init[..k]));
          assert AtEmptyHeader(Run(h, stream[..k]));
        } else {
          assert AtEmptyHeader(Run(h, stream[..n]));
        }
      }
      if k: nat :| k < |stream| && AtEmptyHeader(Run(h, stream[..k])) {
        if k < n {
          assert AtEmptyHeader(Run(h, init[..k]));
        }
      }
    }
  }

  // ----- Recovery -----

  /** Looking for the magic, with `|h.raw|` as the magic offset. */
  predicate Hunting(h: Host) { !h.aborted && |h.raw| <= 3 && h.raw == MAGIC[..|h.raw|] }

  lemma {:induction false} NoiseIgnored(h: Host, noise: seq<byte>)
    requires Synchronised(h) && MAGIC[0] !in noise
    ensures Run(h, noise) == h
  {
    if noise != [] {
      var n := |noise| - 1;
      NoiseIgnored(h, noise[..n]);
      AcceptMagic(h, noise[n]);
    }
  }

  /**
    While hunting, any byte other than the first three magic bytes brings the offset back to zero or
    completes the magic.
   */
  lemma LastGapByte(h: Host, b: byte)
    requires Hunting(h) && b !in MAGIC[..3] && Hunting(Accept(h, b))
    ensures Synchronised(Accept(h, b))
  {
    AcceptMagic(h, b);
    if |h.raw| < 3 {
      assert MAGIC[|h.raw|] == MAGIC[..3][|h.raw|];
    }
  }

  /** A frame that begins while part of a magic is pending loses its own magic: the parser does not back up. */
  lemma PendingMagicEatsMagic(h: Host)
    requires Hunting(h) && h.raw != []
    ensures Run(h, MAGIC) == h.(raw := [])
  {
    var g := h.(raw := []);
    var m := MAGIC;
    assert m[..1] == [] + [m[0]] && m[..2] == m[..1] + [m[1]] && m[..3] == m[..2] + [m[2]] && m == m[..3] + [m[3]];
    RunSnoc(h, [], m[0]);
    AcceptMagic(h, m[0]);
    RunSnoc(h, m[..1], m[1]);
    AcceptMagic(g, m[1]);
    RunSnoc(h, m[..2], m[2]);
    AcceptMagic(g, m[2]);
    RunSnoc(h, m[..3], m[3]);
    AcceptMagic(g, m[3]);
  }

  lemma MagicFirst(f: Frame)
    requires |f.payload| < 0x1_0000
    ensures |EncodeFrame(f)| == 8 + |f.payload| && EncodeFrame(f) == MAGIC + EncodeFrame(f)[4..]
  {
    assert EncodeFrame(f)[..4] == MAGIC;
  }

  /**
    A good frame that reaches a hunting parser is delivered if and only if the magic offset is
    zero when it begins: a stray 'F' right before a frame makes the parser miss it.
   */
  lemma DeliveredExactlyWhenSynchronised(h: Host, f: Frame)
    requires Hunting(h) && 0 < |f.payload| < 0x1_0000
    ensures Run(h, EncodeFrame(f)).handled == h.handled + [f] <==> h.raw == []
  {
    hide Accept, Header, Sum, Run;
    if h.raw == [] {
      ConsumedToItsEnd(h, f.ftype, f.payload, Final(Header(f.ftype, |f.payload|) + f.payload));
    } else {
      var g := h.(raw := []);
      var rest := EncodeFrame(f)[4..];
      MagicFirst(f);
      RunConcat(h, MAGIC, rest);
      PendingMagicEatsMagic(h);
      var starts, frames := Sound(g, rest);
      LocatedFits(rest, starts, frames, |rest| - |Run(g, rest).raw|, f);
      AppendCancels(h.handled, frames, [f]);
    }
  }

  lemma LocatedFits(stream: seq<byte>, starts: seq<nat>, frames: seq<Frame>, end: nat, f: Frame)
    requires Located(stream, starts, frames, end) && |stream| < 8 + |f.payload|
    ensures f !in frames
  {
  }

  lemma AppendCancels<T>(a: seq<T>, b: seq<T>, c: seq<T>)
    ensures a + b == a + c ==> b == c
  {
    assert (a + b)[|a|..] == b && (a + c)[|a|..] == c;
  }

  /** Damage to the type, the payload or the checksum of one frame never costs a later frame. */
  lemma DamageStaysLocal(h: Host, ftype: byte, payload: seq<byte>, check: byte, later: seq<Frame>)
    requires Synchronised(h) && 0 < |payload| < 0x1_0000 && Sendable(later) && NoneEmpty(later)
    ensures var body := Header(ftype, |payload|) + payload;
            var g := Run(h, body + [check] + EncodeFrames(later));
            Synchronised(g) && g.handled == h.handled + (if check
                == Final(body) then [Frame(ftype, payload)] else []) + later
  {
    var body := Header(ftype, |payload|) + payload;
    ConsumedToItsEnd(h, ftype, payload, check);
    RunConcat(h, body + [check], EncodeFrames(later));
    FramesArrive(Run(h, body + [check]), later);
  }

  /** A frame with one payload byte replaced, sent with the checksum of the original. */
  function Corrupted(f: Frame, p: nat, b: byte): seq<byte>
    requires |f.payload| < 0x1_0000 && p < |f.payload|
  {
    Header(f.ftype, |f.payload|) + f.payload[p := b] + [Final(Header(f.ftype, |f.payload|) + f.payload)]
  }

  /**
    A single wrong payload byte is counted as a checksum error exactly when it is not confusable
    with the right one at its distance from the end, and delivered as data otherwise.
   */
  lemma CorruptedByteOutcome(h: Host, f: Frame, p: nat, b: byte)
    requires Synchronised(h) && |f.payload| < 0x1_0000 && p < |f.payload| && b != f.payload[p]
    ensures Run(h, Corrupted(f, p, b)) ==
              if Confusable(b, f.payload[p], |f.payload| - 1 - p)
              then h.(handled := h.handled + [Frame(f.ftype, f.payload[p := b])])
              else h.(errors := h.errors + 1)
  {
    hide Confusable, Header;
    var head := Header(f.ftype, |f.payload|);
    var pre, post := head + f.payload[..p], f.payload[p + 1..];
    assert head + f.payload == pre + [f.payload[p]] + post;
    assert head + f.payload[p := b] == pre + [b] + post;
    SingleByteErrorMissed(SEED, pre, b, f.payload[p], post);
    ConsumedToItsEnd(h, f.ftype, f.payload[p := b], Final(head + f.payload));
  }

  /** Every sixteenth payload byte, counted from the end, is protected against any single-byte error; no other is. */
  lemma ProtectedPositions(distance: nat)
    requires distance < 0xffff
    ensures distance % 16 == 0 <==>
            forall f: Frame, p: nat, b: byte | |f.payload| < 0x1_0000 && p < |f.payload| && b != f.payload[p]
                && |f.payload| - 1 - p == distance ::
              Run(FRESH_HOST, Corrupted(f, p, b)) == FRESH_HOST.(errors := 1)
  {
    DetectionGuaranteed(distance);
    if distance % 16 == 0 {
      forall f: Frame, p: nat, b: byte | |f.payload| < 0x1_0000 && p < |f.payload| && b != f.payload[p]
          && |f.payload| - 1 - p == distance
        ensures Run(FRESH_HOST, Corrupted(f, p, b)) == FRESH_HOST.(errors := 1)
      {
        CorruptedByteOutcome(FRESH_HOST, f, p, b);
      }
    } else {
      var n: byte, m: byte :| n != m && Confusable(n, m, distance);
      var f := Frame(0, [m] + seq(distance, _ => 0));
      CorruptedByteOutcome(FRESH_HOST, f, 0, n);
    }
  }
}
