/** Decoding value table packets on the host, hostware/packet-parser.c and hostware/packet-value-table.c. */
module ValueTable {
  import opened Bytes
  import opened FrameDefs

  datatype Option<T> = None | Some(value: T)
  datatype Result<T> = Ok(value: T) | Err(error: Failure)

  /** Where the host program gives up. */
  datatype Failure = NoTable | ZeroWidth | NoPersonalityInfo | BadParamSize | UnknownWidth

  /** What the personality info packet says about the parameters. */
  datatype Personality = Personality(timerCountSize: byte, skipSamplesSize: byte)

  /** A decoded table. Absent parameters read as the all-ones word. */
  datatype View = View(reason: byte, kind: byte, bits: byte, duration: u16, totalDuration: u32, skipSamples: u32,
                       token: Option<seq<byte>>, elements: seq<u32>)

  const UNDEFINED: u32 := 0xffff_ffff

  const HEADER_SIZE := 6

  /** The parameters a table packet carries, as far as the host recognises them: strictly more bytes must follow. */
  function Params(pi: Personality, block: seq<byte>): (u32, u32, Option<seq<byte>>)
  {
    var hasTotal := 2 < |block| && pi.timerCountSize != 0;
    var ofs := if hasTotal then 2 else 0;
    var hasSkip := ofs + 2 < |block| && pi.skipSamplesSize != 0;
    var rest := if hasSkip then ofs + 2 else ofs;
    (if hasTotal then Word(block[..2]) else UNDEFINED,
     if hasSkip then Word(block[ofs..ofs + 2]) else UNDEFINED,
     if rest < |block| then Some(block[rest..]) else None)
  }

  /**
    The parameters share out the block for every personality: the bytes of those that are read, in
    order, then the token, and no token only where there is nothing at all. A parameter is read
    exactly when the personality has it and more bytes follow its two.
   */
  lemma ParamsShareTheBlock(pi: Personality, block: seq<byte>)
    ensures var (total, skip, token) := Params(pi, block);
      var hasTotal := pi.timerCountSize > 0 && |block| > 2;
      var hasSkip := pi.skipSamplesSize > 0 && |block| > (if hasTotal then 4 else 2);
      && (total != 0xffff_ffff <==> hasTotal) && (skip != 0xffff_ffff <==> hasSkip)
      && (token.Some? ==> token.value != []) && (token.None? <==> block == [])
      && block == (if hasTotal then LittleEndian(total, 2) else []) + (if hasSkip then LittleEndian(skip, 2) else [])
                  + (if token.Some? then token.value else [])
  {
    var hasTotal := pi.timerCountSize > 0 && |block| > 2;
    var ofs := if hasTotal then 2 else 0;
    if hasTotal {
      WordBytes(block[..2]);
    }
    if pi.skipSamplesSize > 0 && |block| > ofs + 2 {
      WordBytes(block[ofs..ofs + 2]);
    }
    hide LittleEndian, Word;
  }

  lemma WordBytes(bs: seq<byte>)
    requires |bs| == 2
    ensures LittleEndian(Word(bs), 2) == bs
  {
    Word16(Word(bs));
    ValueInjective(LittleEndian(Word(bs), 2), bs);
  }

  function Word(bs: seq<byte>): (v: u16)
    requires |bs| == 2
    ensures v == Value(bs)
  {
    ValueOfTwo(bs[0], bs[1]);
    assert bs == [bs[0], bs[1]];
    Value(bs)
  }

  /** Element `i` of a table whose elements take `w` bytes each. */
  function Element(table: seq<byte>, w: nat, i: nat): (v: u32)
    requires 1 <= w <= 4 && w * i + w <= |table|
    ensures v == Value(table[w * i..w * i + w])
  {
    ElementFits(table[w * i..w * i + w]);
    Value(table[w * i..w * i + w])
  }

  lemma ElementFits(bs: seq<byte>)
    requires |bs| <= 4
    ensures Value(bs) < 0x1_0000_0000
  {
    ValueBound(bs);
    assert Pow256(4) == 0x1_0000_0000 by {
      assert Pow256(2) == 0x1_0000 by { assert Pow256(1) == 0x100; }
      assert Pow256(4) == 0x100 * Pow256(3) && Pow256(3) == 0x100 * Pow256(2);
    }
    Pow256Monotone(|bs|, 4);
  }

  lemma {:induction false} Pow256Monotone(a: nat, b: nat)
    requires a <= b
    ensures Pow256(a) <= Pow256(b)
  {
    if a < b {
      Pow256Monotone(a, b - 1);
    }
  }

  /** The whole elements of a table. */
  function DecodedElements(table: seq<byte>, w: nat): seq<u32>
    requires 1 <= w <= 4
  {
    CountFits(|table|, w);
    seq(|table| / w, i requires 0 <= i < |table| / w => Element(table, w, i))
  }

  /** A payload that holds what its own header promises: the header, and the parameters it counts. */
  predicate Framed(payload: seq<byte>) { |payload| >= HEADER_SIZE && |payload| >= HEADER_SIZE + ParamCount(payload) }

  function ParamCount(payload: seq<byte>): nat
    requires |payload| >= HEADER_SIZE
  {
    payload[5]
  }

  /** What the host makes of a value table payload. */
  function Decode(personality: Option<Personality>, payload: seq<byte>): Result<View>
    requires Framed(payload)
  {
    var n := ParamCount(payload);
    var block, table := payload[HEADER_SIZE..HEADER_SIZE + n], payload[HEADER_SIZE + n..];
    var bits := payload[0];
    if table == [] then Err(NoTable)
    else if bits == 0 then Err(ZeroWidth)
    else if personality.None? then Err(NoPersonalityInfo)
    else if !SizesKnown(personality.value, n) then Err(BadParamSize)
    else if bits !in {8, 16, 24, 32} then Err(UnknownWidth)
    else
      var w := bits / 8;
      var (total, skip, token) := Params(personality.value, block);
      Ok(View(payload[1], payload[2], bits, Word(payload[3..5]), total, skip, token, DecodedElements(table, w)))
  }

  /** The host only reads 16-bit parameters, and only checks the sizes of those it reads. */
  predicate SizesKnown(pi: Personality, n: nat)
  {
    var hasTotal := 2 < n && pi.timerCountSize != 0;
    var ofs := if hasTotal then 2 else 0;
    && (hasTotal ==> pi.timerCountSize == 2)
    && (ofs + 2 < n && pi.skipSamplesSize != 0 ==> pi.skipSamplesSize == 2)
  }

  /**
    A table is decoded if and only if it has a byte of values, their width is one of four, the
    personality is known, and every parameter that is read takes two bytes.
   */
  lemma DecodesExactly(personality: Option<Personality>, payload: seq<byte>)
    requires Framed(payload)
    ensures Decode(personality, payload).Ok? <==>
      var n := ParamCount(payload);
      && |payload| > 6 + n && payload[0] in {8, 16, 24, 32} && personality.Some?
      && var timer, skip := personality.value.timerCountSize, personality.value.skipSamplesSize;
         && (n > 2 ==> timer == 0 || timer == 2)
         && (n > (if n > 2 && timer == 2 then 4 else 2) ==> skip == 0 || skip == 2)
  {
    hide Params, Word, DecodedElements;
  }

  lemma CountFits(n: nat, w: nat)
    requires w > 0
    ensures forall i: nat | i < n / w :: w * i + w <= n
    ensures 8 * n / (8 * w) == n / w
  {
    var q := n / w;
    assert n == q * w + n % w;
    forall i: nat | i < q
      ensures w * i + w <= n
    {
      MulMonotone(i + 1, q, w);
      assert (i + 1) * w == w * i + w;
    }
    assert 8 * n == q * (8 * w) + 8 * (n % w);
    DivModUnique(8 * n, 8 * w, q, 8 * (n % w));
  }

  /** The packet object the handlers get. */
  class PacketValueTable {
    var refs: nat
    var reason: byte
    var kind: byte
    var bits: byte
    var duration: u16
    var totalDuration: u32
    var skipSamples: u32
    var token: Option<seq<byte>>
    const elements: array<u32>

    constructor (elementCount: nat)
      ensures refs == 1 && elements.Length == elementCount && fresh(elements)
    {
      refs := 1;
      reason, kind, bits, duration := 0, 0, 0, 0;
      totalDuration, skipSamples, token := 0, 0, None;
      elements := new u32[elementCount];
    }

    function Shown(): View
      reads this, elements
    {
      View(reason, kind, bits, duration, totalDuration, skipSamples, token, elements[..])
    }

    /** Reads the parameter block front to back. */
    method ReadParams(pi: Personality, block: seq<byte>) returns (known: bool)
      modifies this`totalDuration, this`skipSamples, this`token
      ensures known == SizesKnown(pi, |block|)
      ensures known ==> (totalDuration, skipSamples, token) == Params(pi, block)
    {
      var ofs := 0;
      known := true;
      if ofs + 2 < |block| && pi.timerCountSize != 0 {
        if pi.timerCountSize != 2 {
          return false;
        }
        totalDuration := Word(block[ofs..ofs + 2]);
        ofs := ofs + 2;
      } else {
        totalDuration := UNDEFINED;
      }
      if ofs + 2 < |block| && pi.skipSamplesSize != 0 {
        if pi.skipSamplesSize != 2 {
          return false;
        }
        skipSamples := Word(block[ofs..ofs + 2]);
        ofs := ofs + 2;
      } else {
        skipSamples := UNDEFINED;
      }
      token := None;
      if ofs < |block| {
        token := Some(block[ofs..]);
      }
    }

    method ReadElements8(e8: seq<byte>)
      requires elements.Length <= |e8|
      modifies elements
      ensures forall j | 0 <= j < elements.Length :: elements[j] == Element(e8, 1, j)
    {
      for i := 0 to elements.Length
        invariant forall j | 0 <= j < i :: elements[j] == Element(e8, 1, j)
      {
        ValueOfOne(e8[i]);
        assert e8[1 * i..1 * i + 1] == [e8[i]];
        elements[i] := e8[i];
      }
    }

    method ReadElements16(e8: seq<byte>)
      requires 2 * elements.Length <= |e8|
      modifies elements
      ensures forall j | 0 <= j < elements.Length :: elements[j] == Element(e8, 2, j)
    {
      for i := 0 to elements.Length
        invariant forall j | 0 <= j < i :: elements[j] == Element(e8, 2, j)
      {
        var b0: int, b1: int := e8[2 * i], e8[2 * i + 1];
        ValueOfTwo(b0, b1);
        assert e8[2 * i..2 * i + 2] == [b0, b1];
        elements[i] := b0 + 0x100 * b1;
      }
    }

    method ReadElements24(e8: seq<byte>)
      requires 3 * elements.Length <= |e8|
      modifies elements
      ensures forall j | 0 <= j < elements.Length :: elements[j] == Element(e8, 3, j)
    {
      for i := 0 to elements.Length
        invariant forall j | 0 <= j < i :: elements[j] == Element(e8, 3, j)
      {
        var b0: int, b1: int, b2: int := e8[3 * i], e8[3 * i + 1], e8[3 * i + 2];
        ValueOfThree(b0, b1, b2);
        assert e8[3 * i..3 * i + 3] == [b0, b1, b2];
        elements[i] := b0 + 0x100 * b1 + 0x1_0000 * b2;
      }
    }

    method ReadElements32(e8: seq<byte>)
      requires 4 * elements.Length <= |e8|
      modifies elements
      ensures forall j | 0 <= j < elements.Length :: elements[j] == Element(e8, 4, j)
    {
      for i := 0 to elements.Length
        invariant forall j | 0 <= j < i :: elements[j] == Element(e8, 4, j)
      {
        var b0: int, b1: int, b2: int, b3: int := e8[4 * i], e8[4 * i + 1], e8[4 * i + 2], e8[4 * i + 3];
        ValueOfFour(b0, b1, b2, b3);
        assert e8[4 * i..4 * i + 4] == [b0, b1, b2, b3];
        elements[i] := b0 + 0x100 * b1 + 0x1_0000 * b2 + 0x100_0000 * b3;
      }
    }
  }

  lemma ValueOfOne(a: byte)
    ensures Value([a]) == a
  {
    assert [a][1..] == [];
  }

  lemma ValueOfThree(a: byte, b: byte, c: byte)
    ensures Value([a, b, c]) == a + 0x100 * b + 0x1_0000 * c
  {
    assert [a, b, c][1..] == [b, c];
    ValueOfTwo(b, c);
  }

  lemma ValueOfFour(a: byte, b: byte, c: byte, d: byte)
    ensures Value([a, b, c, d]) == a + 0x100 * b + 0x1_0000 * c + 0x100_0000 * d
  {
    assert [a, b, c, d][1..] == [b, c, d];
    ValueOfThree(b, c, d);
  }

  /** Builds the packet object from a value table frame, or stops where the host program does. */
  method HandleValueTable(personality: Option<Personality>, payload: seq<byte>) returns (r: Result<PacketValueTable>)
    requires Framed(payload)
    ensures Decode(personality, payload).Ok? <==> r.Ok?
    ensures r.Ok? ==> fresh(r.value) && r.value.refs == 1 && r.value.Shown() == Decode(personality, payload).value
    ensures r.Err? ==> Decode(personality, payload) == Err(r.error)
  {
    var n := ParamCount(payload);
    var valueTableSize := |payload| - HEADER_SIZE - n;
    if valueTableSize == 0 {
      return Err(NoTable);
    }
    var bits := payload[0];
    if bits == 0 {
      return Err(ZeroWidth);
    }
    var elementCount := 8 * valueTableSize / bits;
    var vt := new PacketValueTable(elementCount);
    vt.reason, vt.kind, vt.bits := payload[1], payload[2], bits;
    vt.duration := Word(payload[3..5]);
    if personality.None? {
      return Err(NoPersonalityInfo);
    }
    var known := vt.ReadParams(personality.value, payload[HEADER_SIZE..HEADER_SIZE + n]);
    if !known {
      return Err(BadParamSize);
    }
    var e8 := payload[HEADER_SIZE + n..];
    if bits != 8 && bits != 16 && bits != 24 && bits != 32 {
      return Err(UnknownWidth);
    }
    CountFits(|e8|, bits / 8);
    ReadElements(vt, bits, e8);
    return Ok(vt);
  }

  method ReadElements(vt: PacketValueTable, bits: byte, e8: seq<byte>)
    requires bits in {8, 16, 24, 32} && vt.elements.Length == |e8| / (bits / 8)
    modifies vt.elements
    ensures vt.elements[..] == DecodedElements(e8, bits / 8)
  {
    CountFits(|e8|, bits / 8);
    match bits
    case 8 => vt.ReadElements8(e8);
    case 16 => vt.ReadElements16(e8);
    case 24 => vt.ReadElements24(e8);
    case 32 => vt.ReadElements32(e8);
  }
}
