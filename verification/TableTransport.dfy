/**
  Value tables end to end: whatever the device puts into a table packet, the host's decoder gets
  out again, and for the Geiger time series the host's numbers are what the interrupts counted.
 */
module TableTransport {
  import opened Bytes
  import opened Checksum
  import opened Firmware
  import opened FirmwareRuns
  import opened FrameDefs
  import opened Packets
  import opened TimeSeries
  import opened ValueTable
  import Export = TimeSeriesExport
  import FP = FrameProtocol
  import Host = FrameParser

  // ----- Round trip of the packet format -----

  /** A value table payload as the device lays it out. */
  function Encode(bits: byte, reason: byte, kind: byte, duration: u16, block: seq<byte>, table: seq<byte>): seq<byte>
    requires |block| < 0x100
  {
    [bits, reason, kind] + LittleEndian(duration, 2) + [|block|] + block + table
  }

  lemma EncodeParts(bits: byte, reason: byte, kind: byte, duration: u16, block: seq<byte>, table: seq<byte>)
    requires |block| < 0x100
    ensures var p := Encode(bits, reason, kind, duration, block, table);
      && |p| == HEADER_SIZE + |block| + |table|
      && Framed(p) && p[0] == bits && p[1] == reason && p[2] == kind && ParamCount(p) == |block|
      && p[3..5] == LittleEndian(duration, 2)
      && p[HEADER_SIZE..HEADER_SIZE + |block|] == block && p[HEADER_SIZE + |block|..] == table
  {
    hide LittleEndian;
    var p := Encode(bits, reason, kind, duration, block, table);
    assert p[3..5] == LittleEndian(duration, 2);
    assert p[HEADER_SIZE..HEADER_SIZE + |block|] == block;
    assert p[HEADER_SIZE + |block|..] == table;
  }

  /** Element `i` of flattened numbers is the `i`th number, up to the width. */
  lemma {:induction false} FlattenSlice(vs: seq<nat>, w: nat, i: nat)
    requires i < |vs|
    ensures w * i + w <= |Flatten(vs, w)| && Flatten(vs, w)[w * i..w * i + w] == LittleEndian(vs[i], w)
    decreases |vs|
  {
    hide LittleEndian;
    var n := |vs| - 1;
    var init, last := Flatten(vs[..n], w), LittleEndian(vs[n], w);
    assert Flatten(vs, w) == init + last && |init| == w * n;
    if i < n {
      FlattenSlice(vs[..n], w, i);
      hide *;
      SliceOfFirst(init, last, w * i, w * i + w);
    } else {
      hide *;
      assert (init + last)[|init|..|init| + w] == last;
    }
  }

  lemma SliceOfFirst(a: seq<byte>, b: seq<byte>, from: nat, to: nat)
    requires from <= to <= |a|
    ensures (a + b)[from..to] == a[from..to]
  {
  }

  /**
    Round trip of every table: for 1 to 4 bytes per value, any parameter block and any non-empty
    list of values, the host decodes the same header fields, the block as its own rules read it,
    and every value as far as the width holds it.
   */
  lemma TableRoundTrip(pi: Personality, w: nat, reason: byte, kind: byte, duration: u16, block: seq<byte>, vs: seq<nat>)
    requires 1 <= w <= 4 && |block| < 0x100 && vs != [] && SizesKnown(pi, |block|)
    ensures var p := Encode(8 * w, reason, kind, duration, block, Flatten(vs, w));
      var (total, skip, token) := Params(pi, block);
      && Framed(p) && Decode(Some(pi), p).Ok?
      && var v := Decode(Some(pi), p).value;
         && v == View(reason, kind, 8 * w, duration, total, skip, token, v.elements)
         && |v.elements| == |vs| && forall i | 0 <= i < |vs| :: v.elements[i] == vs[i] % Pow256(w)
  {
    hide Flatten, LittleEndian, Encode, Params;
    var table := Flatten(vs, w);
    EncodeParts(8 * w, reason, kind, duration, block, table);
    ProductDivides(w, |vs|);
    Word16(duration);
    var es := DecodedElements(table, w);
    forall i | 0 <= i < |vs|
      ensures es[i] == vs[i] % Pow256(w)
    {
      FlattenSlice(vs, w, i);
      ValueOfLittleEndian(vs[i], w);
    }
  }

  lemma ProductDivides(w: nat, n: nat)
    requires w > 0
    ensures w * n / w == n && (n > 0 ==> w * n > 0)
  {
    DivModUnique(w * n, w, n, 0);
  }

  /**
    The other way around: whatever the host decodes, the payload was the encoding of what it shows,
    byte by byte, up to a last value that is cut short.
   */
  lemma DecodedWasEncoded(pi: Personality, payload: seq<byte>) returns (block: seq<byte>, rest: seq<byte>)
    requires Framed(payload) && Decode(Some(pi), payload).Ok?
    ensures var v := Decode(Some(pi), payload).value;
      var w := v.bits / 8;
      && v.bits in {8, 16, 24, 32} && |block| == payload[5] && |rest| < w
      && payload == [v.bits, v.reason, v.kind] + LittleEndian(v.duration, 2) + [payload[5]] + block
                    + Flatten(v.elements, w) + rest
      && (v.totalDuration, v.skipSamples, v.token) == Params(pi, block)
  {
    hide Flatten, Params, Word, DecodedElements, Encode, Decode;
    DecodedFields(pi, payload);
    var n, w := ParamCount(payload), payload[0] / 8;
    block := payload[HEADER_SIZE..HEADER_SIZE + n];
    var table := payload[HEADER_SIZE + n..];
    var es := DecodedElements(table, w);
    rest := TableOfElements(table, w);
    PayloadParts(payload);
    EncodeSplit(payload[0], payload[1], payload[2], Word(payload[3..5]), block, Flatten(es, w), rest);
  }

  lemma DecodedFields(pi: Personality, payload: seq<byte>)
    requires Framed(payload) && Decode(Some(pi), payload).Ok?
    ensures payload[0] in {8, 16, 24, 32}
    ensures var n := ParamCount(payload);
      var (total, skip, token) := Params(pi, payload[HEADER_SIZE..HEADER_SIZE + n]);
      Decode(Some(pi), payload).value
        == View(payload[1], payload[2], payload[0], Word(payload[3..5]), total, skip, token,
                DecodedElements(payload[HEADER_SIZE + n..], payload[0] / 8))
  {
    hide Params, Word, DecodedElements;
  }

  /** The whole values of a table and less than one more. */
  lemma TableOfElements(table: seq<byte>, w: nat) returns (rest: seq<byte>)
    requires 1 <= w <= 4
    ensures |rest| < w && table == Flatten(DecodedElements(table, w), w) + rest
  {
    var es := DecodedElements(table, w);
    var q, r := DivModParts(|table|, w);
    assert |es| == q && w * q + r == |table|;
    ElementsFlatten(table, w, q);
    hide *;
    rest := table[w * q..];
    assert es[..q] == es;
    PrefixAndRest(table, w * q);
  }

  lemma PrefixAndRest(table: seq<byte>, n: nat)
    requires n <= |table|
    ensures table == table[..n] + table[n..]
  {
  }

  lemma EncodeSplit(bits: byte, reason: byte, kind: byte, duration: u16, block: seq<byte>, a: seq<byte>, b: seq<byte>)
    requires |block| < 0x100
    ensures Encode(bits, reason, kind, duration, block, a + b)
         == [bits, reason, kind] + LittleEndian(duration, 2) + [|block|] + block + a + b
  {
    hide LittleEndian;
  }

  lemma PayloadParts(payload: seq<byte>)
    requires Framed(payload)
    ensures var n := ParamCount(payload);
      payload == Encode(payload[0], payload[1], payload[2], Word(payload[3..5]),
                        payload[HEADER_SIZE..HEADER_SIZE + n], payload[HEADER_SIZE + n..])
  {
    WordBytes(payload[3..5]);
    hide LittleEndian, Word;
    var head := payload[..HEADER_SIZE];
    assert head == [payload[0], payload[1], payload[2]] + payload[3..5] + [payload[5]];
  }

  /** Values read from a table and written again are the bytes they were read from. */
  lemma {:induction false} ElementsFlatten(table: seq<byte>, w: nat, n: nat)
    requires 1 <= w <= 4 && n <= |DecodedElements(table, w)|
    ensures w * n <= |table| && Flatten(DecodedElements(table, w)[..n], w) == table[..w * n]
  {
    var es := DecodedElements(table, w);
    if n > 0 {
      ElementsFlatten(table, w, n - 1);
      CountFits(|table|, w);
      var from := w * (n - 1);
      assert w * n == from + w && from + w <= |table|;
      assert es[n - 1] == Element(table, w, n - 1) == Value(table[from..from + w]);
      hide DecodedElements;
      ElementBytes(table[from..from + w]);
      hide *;
      NextElement(es, w, n, table, from);
    }
  }

  lemma NextElement(es: seq<nat>, w: nat, n: nat, table: seq<byte>, from: nat)
    requires 0 < n <= |es| && from + w <= |table| && Flatten(es[..n - 1], w) == table[..from]
    requires LittleEndian(es[n - 1], w) == table[from..from + w]
    ensures Flatten(es[..n], w) == table[..from + w]
  {
    hide LittleEndian;
    assert es[..n] == es[..n - 1] + [es[n - 1]];
    FlattenSnoc(es[..n - 1], es[n - 1], w);
    assert table[..from + w] == table[..from] + table[from..from + w];
  }

  lemma ElementBytes(bs: seq<byte>)
    ensures LittleEndian(Value(bs), |bs|) == bs
  {
    ValueOfLittleEndian(Value(bs), |bs|);
    ValueBound(bs);
    DivModUnique(Value(bs), Pow256(|bs|), 0, Value(bs));
    ValueInjective(LittleEndian(Value(bs), |bs|), bs);
  }

  // ----- The Geiger time series -----

  /** The Geiger personality: a 16-bit timer parameter and no other. */
  const GEIGER := Personality(2, 0)

  /** The tables of a finished measurement are laid out as `Encode` says. */
  lemma TablePayload(tableBytes: u16, t: Packet, cells: seq<nat>)
    requires t.Table? && |t.echo| < 0x100 && t.data == Flatten(cells, 2)
    ensures PayloadOf(tableBytes, t) == Encode(16, t.reason, 0x54, t.duration, t.echo, Flatten(cells, 2))
  {
  }

  /** Elapsed ticks of the open slot plus the closed slots make up all ticks. */
  lemma TicksFromTable(events: seq<Irq>, orig: nat, capacity: nat)
    requires orig >= 2 && capacity > 0 && Feasible(events, orig, capacity)
    ensures orig - Countdown(Ticks(events), orig, capacity) + orig * (Elements(events, orig, capacity) - 1)
        == Ticks(events)
  {
    hide Ticks;
    IndexInRange(events, orig, capacity);
    var q := Ticks(events) / orig;
    assert Ticks(events) == q * orig + Ticks(events) % orig;
    if Full(events, orig, capacity) {
      assert orig * (capacity - 1) == orig * capacity - orig;
    }
  }

  /** With the slot length undefined the host's elapsed time is only right for a single slot. */
  lemma UndefinedTotal(duration: u16, orig: u16, n: nat, ticks: nat)
    requires 1 <= n <= 0x8000 && ticks == duration + orig * (n - 1)
    ensures U32(duration + UNDEFINED * (n - 1)) == ticks <==> n == 1
  {
    var k := n - 1;
    assert UNDEFINED * k == 0x1_0000_0000 * k - k;
    ModuloShift(duration - k, k);
    assert ticks == duration - k + (orig + 1) * k;
    if k > 0 {
      MulMonotone(orig + 1, 0x1_0000, k);
      MulMonotone(1, orig + 1, k);
      ShiftIsSeen(duration - k, (orig + 1) * k);
    }
  }

  lemma ShiftIsSeen(x: int, m: nat)
    requires -0x8000 <= x <= 0xffff && 0 < m <= 0x8000_0000
    ensures U32(x) != x + m
  {
  }

  lemma ModuloShift(x: int, k: int)
    ensures U32(x + 0x1_0000_0000 * k) == U32(x)
  {
  }

  /** What the host shows of a time series that has run through `events` with slots of `orig` ticks. */
  predicate Faithful(v: View, t: Packet, events: seq<Irq>, orig: nat, capacity: nat)
    requires orig > 0 && t.Table?
  {
    && v.reason == t.reason && v.bits == 16
    && |v.elements| == Elements(events, orig, capacity)
    && (forall k | 0 <= k < |v.elements| :: v.elements[k] == U16(Counts(events, orig, k)))
    && v.duration == U16(orig - Countdown(Ticks(events), orig, capacity))
    && (|t.echo| > 2 ==> v.totalDuration == orig && v.token == Some(t.echo[2..]))
  }

  lemma DecodedParams(block: seq<byte>)
    ensures var (total, skip, token) := Params(GEIGER, block);
      && SizesKnown(GEIGER, |block|)
      && total == (if |block| > 2 then Value(block[..2]) else UNDEFINED) && skip == UNDEFINED
      && token == (if |block| > 2 then Some(block[2..]) else if |block| > 0 then Some(block) else None)
  {
    if |block| > 2 {
      assert Word(block[..2]) == Value(block[..2]);
    }
    assert block[0..] == block;
  }

  /** Any time series table, decoded: the parameters are read only from blocks longer than two bytes. */
  lemma CellsDecode(t: Packet, cells: seq<u16>, tableBytes: u16) returns (v: View)
    requires t.Table? && |t.echo| < 0x100 && cells != [] && t.data == Flatten(cells, 2)
    ensures Framed(PayloadOf(tableBytes, t)) && Decode(Some(GEIGER), PayloadOf(tableBytes, t)) == Ok(v)
    ensures v.reason == t.reason && v.bits == 16 && v.duration == t.duration && v.elements == cells
    ensures v.totalDuration == if |t.echo| > 2 then Value(t.echo[..2]) else UNDEFINED
    ensures |t.echo| > 2 ==> v.token == Some(t.echo[2..])
  {
    hide Flatten, Decode, Encode, Params, SizesKnown, PayloadOf;
    TablePayload(tableBytes, t, cells);
    DecodedParams(t.echo);
    TableRoundTrip(GEIGER, 2, t.reason, 0x54, t.duration, t.echo, cells);
    v := Decode(Some(GEIGER), PayloadOf(tableBytes, t)).value;
    assert Pow256(2) == 0x1_0000 by { assert Pow256(1) == 0x100; }
    hide Pow256;
    assert forall i | 0 <= i < |cells| :: v.elements[i] == cells[i];
  }

  /** A finished measurement's table, decoded. */
  lemma ClosedTableDecodes(capacity: nat, d: Device, t: Packet, tableBytes: u16) returns (v: View)
    requires Inv(capacity, d) && d.pstate == Done && !d.reset && Shows(capacity, d, t) && capacity > 0
    ensures d.series.Counting? && Framed(PayloadOf(tableBytes, t))
        && Decode(Some(GEIGER), PayloadOf(tableBytes, t)) == Ok(v)
    ensures Faithful(v, t, d.series.events, d.series.orig, capacity)
    ensures |t.echo| <= 2 ==> v.totalDuration == UNDEFINED
  {
    hide TablesFit, Flatten, Ticks, Counts, Decode, PayloadOf, Countdown, Framed;
    var n := Elements(d.series.events, d.series.orig, capacity);
    assert TableSize(capacity, d.series) / 2 == n;
    v := CellsDecode(t, Cells(d.series, n), tableBytes);
    if |t.echo| > 2 {
      assert t.echo[..2] == d.param.params[..2] by { PrefixOf(t.echo, d.param.params, Inside(d.param)); }
    }
  }

  lemma PrefixOf(a: seq<byte>, b: seq<byte>, n: nat)
    requires 2 <= n <= |a| && n <= |b| && a[..n] == b[..n]
    ensures a[..2] == b[..2]
  {
    assert a[..n][..2] == a[..2] && b[..n][..2] == b[..2];
  }

  /**
    The host's elapsed time of a finished measurement is the number of ticks if and only if the
    echoed parameters are longer than the two timer bytes, or there is only one slot.
   */
  lemma ElapsedTimeIsTicks(capacity: nat, d: Device, t: Packet, tableBytes: u16) returns (v: View)
    requires Inv(capacity, d) && d.pstate == Done && !d.reset && Shows(capacity, d, t)
    requires 0 < capacity < 0x8000
    ensures d.series.Counting? && Framed(PayloadOf(tableBytes, t))
        && Decode(Some(GEIGER), PayloadOf(tableBytes, t)) == Ok(v)
    ensures Faithful(v, t, d.series.events, d.series.orig, capacity)
    ensures Export.ElapsedTime(v) == Ticks(d.series.events) <==> d.param.length > 2 || |v.elements| == 1
  {
    hide TablesFit, Flatten, Ticks, Counts, Decode, PayloadOf;
    v := ClosedTableDecodes(capacity, d, t, tableBytes);
    var orig, n := d.series.orig, |v.elements|;
    assert orig < 0x1_0000 by {
      ValueOfTwo(d.param.params[0], d.param.params[1]);
      assert d.param.params[..2] == [d.param.params[0], d.param.params[1]];
    }
    TicksFromTable(d.series.events, orig, capacity);
    assert v.duration == orig - Countdown(Ticks(d.series.events), orig, capacity);
    if |t.echo| > 2 {
      MulMonotone(n - 1, 0x7fff, orig);
      assert orig * (n - 1) == (n - 1) * orig;
    } else {
      UndefinedTotal(v.duration, orig, n, Ticks(d.series.events));
    }
  }

  /**
    Conservation across both programs: where no slot overflows 16 bits, the host's values add up to all
    count events that came in time.
   */
  lemma TotalIsCountEvents(v: View, t: Packet, events: seq<Irq>, orig: nat, capacity: nat)
    requires t.Table? && orig > 0 && Feasible(events, orig, capacity) && Faithful(v, t, events, orig, capacity)
    requires forall k | 0 <= k < |v.elements| :: Counts(events, orig, k) < 0x1_0000
    ensures Export.SumOf(v.elements)
            + (if Full(events, orig, capacity) then Counts(events, orig, capacity) else 0) == CountEvents(events)
  {
    hide Counts, CountEvents, Full, Feasible, Export.SumOf, SumCounts, Elements;
    CountsConserved(events, orig, capacity);
    SumIsSumCounts(v.elements, events, orig, |v.elements|);
    assert v.elements[..|v.elements|] == v.elements;
  }

  lemma {:induction false} SumIsSumCounts(es: seq<u32>, events: seq<Irq>, orig: nat, n: nat)
    requires orig > 0 && n <= |es| && forall k | 0 <= k < |es| :: es[k] == Counts(events, orig, k)
    ensures Export.SumOf(es[..n]) == SumCounts(events, orig, n)
  {
    if n > 0 {
      assert es[..n][..n - 1] == es[..n - 1];
      SumIsSumCounts(es, events, orig, n - 1);
    }
  }

  /**
    An intermediate table on its way to the host: unless it has grown since it announced its size, or
    its size was read too large, a synchronised host delivers it and shows the counts of every slot it
    has, the slot length and the token.
   */
  lemma IntermediateReachesHost(capacity: nat, d: Device, p: Input, tableBytes: u16, h: Host.Host)
    returns (t: Packet, v: View)
    requires 0 < capacity < 0x7f00 && Inv(capacity, d) && !d.reset && d.pstate == Measuring && FP.Synchronised(h)
    ensures t.Table? && SendTable(capacity, d, REASON_INTERMEDIATE, p).sent == d.sent + [t]
    ensures var f := Frame(TYPE_VALUE_TABLE, PayloadOf(tableBytes, t));
      var e := SendTable(capacity, d, REASON_INTERMEDIATE, p);
      t.declared == 6 + |t.echo| + |t.data| && |t.data| <= 2 * capacity ==>
        && Host.Run(h, Wire(tableBytes, t)) == h.(handled := h.handled + [f])
        && Framed(f.payload) && Decode(Some(GEIGER), f.payload) == Ok(v)
        && v.reason == REASON_INTERMEDIATE && v.duration == t.duration
        && e.series.Counting? && e.series.orig == d.series.orig
        && |v.elements| == |t.data| / 2 > 0
        && (forall k | 0 <= k < |v.elements| :: v.elements[k] == U16(Counts(e.series.events, d.series.orig, k)))
        && (|t.echo| > 2 ==> v.totalDuration == d.series.orig && v.token == Some(t.echo[2..]))
  {
    hide TablesFit, Interrupts, Clockwork, TableBytes, SizeRead, ReadElapsed, Decode, PayloadOf, Wire, Host.Run,
      Flatten, Counts, Header, Final, Echoes, Framed;
    t := AnnouncedAndSent(capacity, d, p);
    v := View(0, 0, 0, 0, 0, 0, None, []);
    if t.declared == 6 + |t.echo| + |t.data| && |t.data| <= 2 * capacity {
      var e := SendTable(capacity, d, REASON_INTERMEDIATE, p);
      IntermediateData(capacity, d, p, t);
      v := CellsDecode(t, Cells(e.series, |t.data| / 2), tableBytes);
      EchoedStart(capacity, d, t);
      TableIsFrame(tableBytes, t);
      var f := Frame(TYPE_VALUE_TABLE, PayloadOf(tableBytes, t));
      FP.ConsumedToItsEnd(h, f.ftype, f.payload, Final(Header(f.ftype, |f.payload|) + f.payload));
    }
  }

  lemma EchoedStart(capacity: nat, d: Device, t: Packet)
    requires Clockwork(capacity, d) && d.pstate != Ready && Echoes(d, t)
    ensures d.series.Counting? && (|t.echo| > 2 ==> Value(t.echo[..2]) == d.series.orig)
  {
    if |t.echo| > 2 {
      PrefixOf(t.echo, d.param.params, Inside(d.param));
    }
  }

  /** The data of an intermediate table is the cells when it is sent, and it is never empty. */
  lemma IntermediateData(capacity: nat, d: Device, p: Input, t: Packet)
    requires 0 < capacity && Clockwork(capacity, d) && d.pstate == Measuring
    requires t.Table? && SendTable(capacity, d, REASON_INTERMEDIATE, p).sent == d.sent + [t] && |t.data| <= 2 * capacity
    ensures var e := SendTable(capacity, d, REASON_INTERMEDIATE, p);
      && e.series.Counting? && d.series.Counting? && e.series.orig == d.series.orig && |t.data| > 0
      && t.data == Flatten(Cells(e.series, |t.data| / 2), 2)
  {
    hide Interrupts, Clockwork, SizeRead, ReadElapsed, Flatten, Cells;
    var s := AnnouncedAndSent(capacity, d, p);
    assert s == t by { assert (d.sent + [s])[|d.sent|] == s && (d.sent + [t])[|d.sent|] == t; }
    var d3 := Interrupts(capacity, Interrupts(capacity, Interrupts(capacity, d, p.untilSize), p.inSize), p.afterSize);
    MeasuringCounts(capacity, d);
    SizeGrows(capacity, d3, p.inSecond);
    SizeNotZero(capacity, d3.series, Interrupts(capacity, d3, p.inSecond).series);
  }

  lemma SizeNotZero(capacity: nat, s: Clock, s': Clock)
    requires 0 < capacity && TableSize(capacity, s) <= TableSize(capacity, s')
    ensures SizeRead(capacity, s, s') > 0
  {
    SomeElement(capacity, s);
    hide TableSize;
  }

  lemma SomeElement(capacity: nat, s: Clock)
    requires 0 < capacity
    ensures TableSize(capacity, s) > 0
  {
  }

  /**
    Which slots the host's minimum is taken over. For a table with a token behind its timer bytes it is
    exactly the complete ones when the measurement is finished, aborted or under way, but a resent
    table lets the open slot in as well.
   */
  lemma MinimumOverCompleteSlots(v: View, t: Packet, events: seq<Irq>, orig: nat, capacity: nat, i: nat)
    requires t.Table? && 2 <= orig < 0x1_0000 && Feasible(events, orig, capacity) && capacity > 0
    requires Faithful(v, t, events, orig, capacity) && |t.echo| > 2 && i < |v.elements|
    requires t.reason in {REASON_DONE, REASON_ABORTED, REASON_INTERMEDIATE, REASON_RESEND}
    requires t.reason == REASON_DONE ==> Full(events, orig, capacity)
    ensures t.reason != REASON_RESEND ==> (Export.Considered(v, i) <==> (i + 1) * orig <= Ticks(events))
    ensures t.reason == REASON_RESEND ==> Export.Considered(v, i)
  {
    var q, r := DivModParts(Ticks(events), orig);
    IndexInRange(events, orig, capacity);
    hide Counts, Ticks;
    CompleteSlot(Ticks(events), orig, i);
    if Full(events, orig, capacity) {
      MulMonotone(i + 1, capacity, orig);
      assert orig * capacity == capacity * orig;
    }
  }

  lemma CompleteSlot(ticks: nat, orig: nat, i: nat)
    requires orig > 0
    ensures (i + 1) * orig <= ticks <==> i < ticks / orig
  {
    var q := ticks / orig;
    assert ticks == q * orig + ticks % orig;
    if i < q {
      MulMonotone(i + 1, q, orig);
    } else {
      MulMonotone(q + 1, i + 1, orig);
      assert (q + 1) * orig == q * orig + orig;
    }
  }

  /**
    From the interrupts to the host, over any run: every table sent after the measurement has ended
    is an ordinary frame, a synchronised host parser delivers it, and the host's decoder shows the
    counts of every slot and the elapsed ticks.
   */
  lemma MeasurementReachesHost(capacity: nat, eeprom: Room, passes: seq<Input>, t: Packet, tableBytes: u16,
      h: Host.Host) returns (v: View)
    requires capacity > 0
    requires var d := Run(capacity, Boot(eeprom), passes);
      && 6 + d.param.length + 2 * capacity < 0x1_0000 && d.pstate == Done && !d.reset && t in Tables(d.sent)
          && t.Table? && t.reason != REASON_INTERMEDIATE
    requires FP.Synchronised(h)
    ensures var d := Run(capacity, Boot(eeprom), passes);
      var f := Frame(TYPE_VALUE_TABLE, PayloadOf(tableBytes, t));
      && Host.Run(h, Wire(tableBytes, t)) == h.(handled := h.handled + [f])
      && Framed(f.payload) && Decode(Some(GEIGER), f.payload) == Ok(v)
      && d.series.Counting? && Faithful(v, t, d.series.events, d.series.orig, capacity)
      && (Export.ElapsedTime(v) == Ticks(d.series.events) <==> d.param.length > 2 || |v.elements| == 1)
  {
    hide Run, Boot, Tables, Decode, Faithful, Flatten, Wire, Host.Run, Clockwork, Header, Sum, Export.ElapsedTime;
    var d := Run(capacity, Boot(eeprom), passes);
    BootFits(capacity, eeprom);
    RunKeeps(capacity, Boot(eeprom), passes);
    var n: nat :| ClosedAt(capacity, d, Tables(d.sent), n);
    var i :| 0 <= i < |Tables(d.sent)| && Tables(d.sent)[i] == t;
    assert i < n ==> HasReason(Tables(d.sent)[i], REASON_INTERMEDIATE);
    assert Shows(capacity, d, t);
    TableFits(capacity, d.series);
    v := ElapsedTimeIsTicks(capacity, d, t, tableBytes);
    TableIsFrame(tableBytes, t);
    var f := Frame(TYPE_VALUE_TABLE, PayloadOf(tableBytes, t));
    FP.ConsumedToItsEnd(h, f.ftype, f.payload, Final(Header(f.ftype, |f.payload|) + f.payload));
  }

  lemma TableFits(capacity: nat, s: Clock)
    requires capacity > 0
    ensures TableSize(capacity, s) <= 2 * capacity
  {
  }

  lemma TableIsFrame(tableBytes: u16, t: Packet)
    requires t.Table? && |t.echo| < 0x100 && t.declared == 6 + |t.echo| + |t.data| < 0x1_0000
    ensures var p := PayloadOf(tableBytes, t);
      0 < |p| < 0x1_0000 && Wire(tableBytes, t) == EncodeFrame(Frame(TYPE_VALUE_TABLE, p))
  {
    WireIsFrame(tableBytes, t);
  }
}
