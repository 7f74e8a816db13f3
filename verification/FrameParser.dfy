/**
  The host's frame parser, hostware/frame-parser.c. `Accept` is the reference: a parser that
  keeps the raw bytes of the frame it is collecting and looks at nothing else. The class is the
  code's byte-at-a-time machine with offset, size, running checksum and a payload buffer.
 */
module FrameParser {
  import opened Bytes
  import opened Checksum
  import opened FrameDefs

  /** `raw` is the frame being collected, from its first magic byte on. */
  datatype Host = Host(raw: seq<byte>, handled: seq<Frame>, errors: nat, aborted: bool)

  const FRESH_HOST := Host([], [], 0, false)

  function DeclaredSize(raw: seq<byte>): nat
    requires |raw| >= 6
  {
    Value(raw[4..6])
  }

  function Accept(h: Host, u: byte): Host
  {
    var raw := h.raw + [u];
    if h.aborted then h
    else if |raw| <= 4 then h.(raw := if raw == MAGIC[..|raw|] then raw else [])
    else if |raw| <= 7 then h.(raw := raw)
    else if DeclaredSize(raw) == 0 then h.(raw := [], aborted := true)
    else if |raw| < 8 + DeclaredSize(raw) then h.(raw := raw)
    else if raw == Sealed(raw[..|raw| - 1])
    then h.(raw := [], handled := h.handled + [Frame(raw[6], raw[7..|raw| - 1])])
    else h.(raw := [], errors := h.errors + 1)
  }

  function Run(h: Host, stream: seq<byte>): Host
  {
    if stream == [] then h else Accept(Run(h, stream[..|stream| - 1]), stream[|stream| - 1])
  }

  /** A frame object on the heap, with its reference count. */
  class FrameBuffer {
    var refs: nat
    var ftype: byte
    var size: u16
    const payload: array<byte>

    constructor (payloadSize: nat)
      ensures refs == 1 && payload.Length == payloadSize && fresh(payload)
    {
      refs := 1;
      ftype := 0;
      size := 0;
      payload := new byte[payloadSize];
    }

    method Unref()
      requires refs > 0
      modifies this`refs
      ensures refs == old(refs) - 1
    {
      refs := refs - 1;
    }
  }

  /** The payload is complete and the checksum byte comes next. */
  predicate Complete(h: Host)
  {
    !h.aborted && |h.raw| >= 8 && DeclaredSize(h.raw) > 0 && |h.raw| == 7 + DeclaredSize(h.raw)
  }

  lemma AcceptMagic(h: Host, u: byte)
    requires !h.aborted && |h.raw| <= 3 && h.raw == MAGIC[..|h.raw|]
    ensures Accept(h, u) == h.(raw := if u == MAGIC[|h.raw|] then h.raw + [u] else [])
  {
    var k := |h.raw|;
    assert MAGIC[..k + 1] == MAGIC[..k] + [MAGIC[k]];
    assert (h.raw + [u])[k] == u && MAGIC[..k + 1][k] == MAGIC[k];
  }

  lemma AcceptHeader(h: Host, u: byte)
    requires !h.aborted && 4 <= |h.raw| <= 6
    ensures Accept(h, u) == h.(raw := h.raw + [u])
  {
  }

  lemma AcceptPayload(h: Host, u: byte)
    requires !h.aborted && |h.raw| >= 7 && (DeclaredSize(h.raw) > 0 ==> |h.raw| < 7 + DeclaredSize(h.raw))
    ensures Accept(h, u) == if DeclaredSize(h.raw) == 0 then h.(raw := [], aborted := true) else h.(raw := h.raw + [u])
    ensures DeclaredSize(h.raw + [u]) == DeclaredSize(h.raw)
  {
    assert (h.raw + [u])[4..6] == h.raw[4..6];
  }

  lemma AcceptLast(h: Host, u: byte)
    requires Complete(h)
    ensures u == Final(h.raw) ==>
              Accept(h, u) == h.(raw := [], handled := h.handled + [Frame(h.raw[6], h.raw[7..])])
    ensures u != Final(h.raw) ==> Accept(h, u) == h.(raw := [], errors := h.errors + 1)
  {
    var raw := h.raw + [u];
    assert raw[|h.raw|] == u && Sealed(h.raw)[|h.raw|] == Final(h.raw);
    assert raw[..|h.raw|] == h.raw && raw[7..|h.raw|] == h.raw[7..] && raw[4..6] == h.raw[4..6];
  }

  datatype State = Magic | Size | FrameType | Payload | CheckSum

  class Parser {
    var state: State
    var offset: nat
    var frameSize: u16
    var frameType: byte
    var frameChecksum: byte
    var frameWip: FrameBuffer?
    var checksumErrors: u32
    const checksumInput: HostChecksum
    /** The frames handed to the packet parser, and whether `abort()` was reached. */
    var handled: seq<Frame>
    var aborted: bool

    ghost var raw: seq<byte>
    ghost var errors: nat
    ghost var created: nat
    ghost var released: nat
    ghost var Repr: set<object>

    ghost function Abs(): Host
      reads this
    {
      Host(raw, handled, errors, aborted)
    }

    predicate Collecting()
      reads this
    {
      !aborted && (state == Payload || state == CheckSum)
    }

    ghost predicate Shape()
      reads this, Repr
    {
      && this in Repr && checksumInput in Repr
      && (frameWip != null ==> frameWip in Repr && frameWip.payload in Repr)
      && checksumErrors == U32(errors)
    }

    /** Every frame object is released, still being filled, or was dropped by a checksum mismatch. */
    ghost predicate Balanced()
      reads this
    {
      && released == |handled|
      && (!aborted ==> created == released + errors + (if Collecting() then 1 else 0))
    }

    ghost predicate Scanned()
      reads this, Repr
      requires Shape()
    {
      match state
      case Magic => offset <= 3 && raw == MAGIC[..offset] && (offset > 0 ==> checksumInput.accu == Sum(SEED, raw))
      case Size =>
        && offset <= 1 && |raw| == 4 + offset && raw[..4] == MAGIC && checksumInput.accu == Sum(SEED, raw)
        && (offset == 1 ==> frameSize % 0x100 == raw[4])
      case FrameType =>
        && offset == 0 && |raw| == 6 && raw[..4] == MAGIC && checksumInput.accu == Sum(SEED, raw)
        && frameSize == DeclaredSize(raw)
      case _ =>
        && |raw| == 7 + offset && raw[..4] == MAGIC && checksumInput.accu == Sum(SEED, raw)
        && frameSize == DeclaredSize(raw) && frameType == raw[6]
        && frameWip != null && frameWip.refs == 1 && frameWip.payload.Length == frameSize + 1
        && offset <= frameSize && frameWip.payload[..offset] == raw[7..]
        && (state == Payload ==> offset < frameSize || frameSize == 0)
        && (state == CheckSum ==> offset == frameSize > 0)
    }

    ghost predicate Valid()
      reads this, Repr
    {
      Shape() && Balanced() && (if aborted then raw == [] else Scanned())
    }

    constructor ()
      ensures Valid() && fresh(Repr)
      ensures Abs() == FRESH_HOST && created == 0
    {
      state, offset, frameSize, frameType, frameChecksum := Magic, 0, 0, 0, 0;
      frameWip, checksumErrors := null, 0;
      var cs := new HostChecksum();
      checksumInput := cs;
      handled, aborted := [], false;
      raw, errors, created, released := [], 0, 0, 0;
      Repr := {this, cs};
    }

    method StepMagic(u: byte)
      requires Valid() && !aborted && state == Magic
      modifies this, checksumInput
      ensures Valid() && fresh(Repr - old(Repr)) && Abs() == Accept(old(Abs()), u)
    {
      hide Accept, Update;
      AcceptMagic(Abs(), u);
      if u == MAGIC[offset] {
        if offset == 0 {
          checksumInput.Reset();
        }
        checksumInput.UpdateByte(u);
        SumSnoc(SEED, raw, u);
        assert MAGIC[..offset] + [u] == MAGIC[..offset + 1];
        offset := offset + 1;
        raw := raw + [u];
        if offset <= 3 {
          state := Magic;
        } else {
          offset := 0;
          state := Size;
        }
      } else {
        offset := 0;
        state := Magic;
        raw := [];
      }
    }

    method StepSize(u: byte)
      requires Valid() && !aborted && state == Size
      modifies this, checksumInput
      ensures Valid() && fresh(Repr - old(Repr)) && Abs() == Accept(old(Abs()), u)
    {
      hide Accept, Sum, Update, Value;
      AcceptHeader(Abs(), u);
      checksumInput.UpdateByte(u);
      SumSnoc(SEED, raw, u);
      raw := raw + [u];
      ReplaceLowByte(frameSize, u);
      if offset == 0 {
        frameSize := frameSize / 0x100 * 0x100 + u;
        offset := 1;
        state := Size;
      } else {
        assert raw[4..6] == [raw[4], u];
        ValueOfTwo(raw[4], u);
        frameSize := frameSize % 0x100 + u * 0x100;
        offset := 0;
        state := FrameType;
      }
    }

    method StepFrameType(u: byte)
      requires Valid() && !aborted && state == FrameType
      modifies this, checksumInput
      ensures Valid() && fresh(Repr - old(Repr)) && Abs() == Accept(old(Abs()), u)
    {
      hide Accept, Sum, Update, Value;
      AcceptHeader(Abs(), u);
      checksumInput.UpdateByte(u);
      SumSnoc(SEED, raw, u);
      assert (raw + [u])[4..6] == raw[4..6];
      raw := raw + [u];
      frameType := u;
      offset := 0;
      assert checksumInput.accu == Sum(SEED, raw) && raw[..4] == MAGIC && frameSize == DeclaredSize(raw)
          && raw[7..] == [];
      NewFrame();
      state := Payload;
    }

    /** Allocates a frame object with one byte more than the payload. */
    method NewFrame()
      modifies this`frameWip, this`Repr, this`created
      ensures frameWip != null && fresh(frameWip) && fresh(frameWip.payload)
      ensures frameWip.refs == 1 && frameWip.payload.Length == frameSize + 1
      ensures Repr == old(Repr) + {frameWip, frameWip.payload} && created == old(created) + 1
    {
      var wip := new FrameBuffer(frameSize + 1);
      frameWip := wip;
      Repr := Repr + {wip, wip.payload};
      created := created + 1;
    }

    /** A payload byte for a frame without payload falls through to the abort. */
    method StepPayload(u: byte)
      requires Valid() && !aborted && state == Payload
      modifies this, checksumInput, frameWip.payload
      ensures Valid() && fresh(Repr - old(Repr)) && Abs() == Accept(old(Abs()), u)
    {
      hide Accept, Sum, Update, Value;
      AcceptPayload(Abs(), u);
      checksumInput.UpdateByte(u);
      SumSnoc(SEED, raw, u);
      frameWip.payload[offset] := u;
      offset := offset + 1;
      raw := raw + [u];
      if offset < frameSize {
        state := Payload;
      } else if offset == frameSize {
        state := CheckSum;
      } else {
        aborted := true;
        raw := [];
      }
    }

    method StepChecksum(u: byte)
      requires Valid() && !aborted && state == CheckSum
      modifies this, frameWip, frameWip.payload
      ensures Valid() && fresh(Repr - old(Repr)) && Abs() == Accept(old(Abs()), u)
    {
      hide Accept, Sum, Update, Value;
      AcceptLast(Abs(), u);
      frameChecksum := u;
      var matched := checksumInput.Match(frameChecksum);
      if matched {
        Deliver();
      } else {
        checksumErrors := U32(checksumErrors + 1);
        errors := errors + 1;
        raw := [];
        offset := 0;
        state := Magic;
      }
    }

    /** Hands the collected frame to the packet parser and drops the only reference to it. */
    method Deliver()
      requires Valid() && !aborted && state == CheckSum
      modifies this, frameWip, frameWip.payload
      ensures Valid() && Repr == old(Repr) && raw == [] && errors == old(errors) && !aborted
      ensures handled == old(handled) + [Frame(old(raw)[6], old(raw)[7..])]
    {
      hide Sum, Update;
      frameWip.payload[offset] := 0;
      frameWip.ftype := frameType;
      frameWip.size := frameSize;
      handled := handled + [Frame(frameWip.ftype, frameWip.payload[..frameWip.size])];
      frameWip.Unref();
      released := released + 1;
      raw := [];
      offset := 0;
      state := Magic;
    }

    /** One byte, dispatched on the state. */
    method StepFsm(u: byte)
      requires Valid() && !aborted
      modifies Repr
      ensures Valid() && fresh(Repr - old(Repr)) && Abs() == Accept(old(Abs()), u)
    {
      match state
      case Magic => StepMagic(u);
      case Size => StepSize(u);
      case FrameType => StepFrameType(u);
      case Payload => StepPayload(u);
      case CheckSum => StepChecksum(u);
    }

    /** A chunk of input of any length; an abort ends the program. */
    method HandleBytes(buf: seq<byte>)
      requires Valid()
      modifies Repr
      ensures Valid() && fresh(Repr - old(Repr)) && Abs() == Run(old(Abs()), buf)
    {
      hide Sum, Update;
      var i := 0;
      ghost var h := Abs();
      while i < |buf| && !aborted
        invariant 0 <= i <= |buf|
        invariant Valid() && fresh(Repr - old(Repr)) && Abs() == Run(h, buf[..i])
      {
        assert buf[..i + 1][..i] == buf[..i];
        StepFsm(buf[i]);
        i := i + 1;
      }
      if i < |buf| {
        AbortedStays(Run(h, buf[..i]), buf[i..]);
        RunConcat(h, buf[..i], buf[i..]);
        assert buf[..i] + buf[i..] == buf;
      } else {
        assert buf[..i] == buf;
      }
    }
  }

  lemma {:induction false} AbortedStays(h: Host, stream: seq<byte>)
    requires h.aborted
    ensures Run(h, stream) == h
  {
    if stream != [] {
      AbortedStays(h, stream[..|stream| - 1]);
    }
  }

  /** How the input is cut into chunks makes no difference. */
  lemma {:induction false} RunConcat(h: Host, a: seq<byte>, b: seq<byte>)
    ensures Run(h, a + b) == Run(Run(h, a), b)
  {
    if b == [] {
      assert a + b == a;
    } else {
      var b0 := b[..|b| - 1];
      RunConcat(h, a, b0);
      assert (a + b)[..|a + b| - 1] == a + b0;
    }
  }
}
