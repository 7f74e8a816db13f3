/** The sampling personality's conversion interrupt, firmware/perso-adc-int-log-timed-trig.c. */
module AdcSampling {
  import opened Bytes
  import opened TimeSeries
  import opened ValueTable
  import TableTransport

  lemma QuotientIsSmaller(x: nat, d: nat)
    requires d > 0
    ensures 0 <= x / d <= x
  {
    MulMonotone(1, d, x + 1);
    DivLess(x, d, x + 1);
  }

  /** A conversion result without its low-order bits: for ten bits of resolution the result itself. */
  function Scaled(result: u16, resolution: nat): (v: u16)
    requires resolution <= 10
    ensures v * Pow2(10 - resolution) <= result < (v + 1) * Pow2(10 - resolution)
    ensures resolution == 10 ==> v == result
  {
    WholeUnits(result, Pow2(10 - resolution));
    assert Pow2(0) == 1;
    hide Pow2;
    result / Pow2(10 - resolution)
  }

  lemma WholeUnits(x: nat, unit: nat)
    requires unit > 0
    ensures 0 <= x / unit <= x && x / unit * unit <= x < (x / unit + 1) * unit
    ensures unit == 1 ==> x / unit == x
  {
    QuotientIsSmaller(x, unit);
    var q, r := DivModParts(x, unit);
    assert (q + 1) * unit == q * unit + unit;
  }

  /** How many samples `n` conversions leave in the table: every `orig + 1`st, as long as there is room. */
  function Stored(n: nat, orig: nat, capacity: nat): nat
  {
    var taken := n / (orig + 1);
    if taken < capacity then taken else capacity
  }

  /** Which conversion sample `j` is: the last of the `j`th group. */
  function SampleIndex(j: nat, orig: nat): nat { j * (orig + 1) + orig }

  /** How many more conversions are skipped before the next sample. */
  function Skip(n: nat, orig: nat, capacity: nat): nat
  {
    if Stored(n, orig, capacity) < capacity then orig - n % (orig + 1)
    else if n - capacity * (orig + 1) < orig then orig - (n - capacity * (orig + 1))
    else 0
  }

  lemma StoredAtCapacity(n: nat, orig: nat, capacity: nat)
    ensures Stored(n, orig, capacity) == capacity <==> n >= capacity * (orig + 1)
  {
    var period := orig + 1;
    if n >= capacity * period {
      DivMonotone(capacity * period, n, period);
      DivModUnique(capacity * period, period, capacity, 0);
    } else {
      DivLess(n, period, capacity);
    }
  }

  lemma NextGroup(n: nat, orig: nat)
    ensures n == n / (orig + 1) * (orig + 1) + n % (orig + 1)
    ensures n % (orig + 1) == orig ==> (n + 1) / (orig + 1) == n / (orig + 1) + 1 && (n + 1) % (orig + 1) == 0
    ensures n % (orig + 1) < orig
        ==> (n + 1) / (orig + 1) == n / (orig + 1) && (n + 1) % (orig + 1) == n % (orig + 1) + 1
  {
    var period := orig + 1;
    var q, r := n / period, n % period;
    assert n == q * period + r;
    if r == orig {
      assert (q + 1) * period == q * period + period;
      DivModUnique(n + 1, period, q + 1, 0);
    } else {
      DivModUnique(n + 1, period, q, r + 1);
    }
  }

  /** What one more conversion does: take a sample and start over, skip, or nothing. */
  lemma OneMoreConversion(n: nat, orig: nat, capacity: nat)
    ensures var stored, skip := Stored(n, orig, capacity), Skip(n, orig, capacity);
      var stored', skip' := Stored(n + 1, orig, capacity), Skip(n + 1, orig, capacity);
      && stored <= capacity
      && (skip > 0 ==> stored' == stored && skip' == skip - 1)
      && (skip == 0 && stored < capacity ==>
          stored' == stored + 1 && skip' == orig && n == SampleIndex(stored, orig))
      && (skip == 0 && stored == capacity ==> stored' == stored && skip' == 0)
  {
    NextGroup(n, orig);
    StoredAtCapacity(n, orig, capacity);
    StoredAtCapacity(n + 1, orig, capacity);
    if Stored(n, orig, capacity) < capacity && n % (orig + 1) == orig {
      var q := n / (orig + 1);
      assert (q + 1) * (orig + 1) == n + 1;
    }
  }

  /** Every cell holds the conversion that is due there. */
  predicate AllSampled(cells: seq<u16>, conversions: seq<u16>, orig: nat, resolution: nat)
    requires resolution <= 10
  {
    forall j | 0 <= j < |cells| ::
      var k := SampleIndex(j, orig);
      k < |conversions| && SampleOf(cells[j], conversions[k], resolution)
  }

  /** `v` counts the whole units of 2^(10 - resolution) in a conversion result. */
  predicate SampleOf(v: int, result: int, resolution: nat)
    requires resolution <= 10
  {
    v * Pow2(10 - resolution) <= result < (v + 1) * Pow2(10 - resolution)
  }

  class AdcLogger {
    const tableBytes: u16
    const resolution: nat
    const table: array<u16>
    var tableCur: nat
    var size: u16
    var origSkipSamples: u16
    var skipSamples: u16
    var finished: bool
    ghost var conversions: seq<u16>

    ghost predicate Valid()
      reads this, table
    {
      var capacity := Capacity();
      var n, orig := |conversions|, origSkipSamples;
      && 0 < capacity == table.Length && resolution <= 10
      && tableCur == Stored(n, orig, capacity)
      && size == 2 * tableCur
      && skipSamples == Skip(n, orig, capacity)
      && (finished <==> tableCur == capacity)
      && tableCur <= capacity && AllSampled(table[..tableCur], conversions, orig, resolution)
    }

    function Capacity(): nat { tableBytes / 2 }

    /** State at the start of a measurement with the given number of skipped conversions. */
    constructor (tableBytes: u16, resolution: nat, skip: u16)
      requires tableBytes >= 2 && resolution <= 10
      ensures Valid() && conversions == [] && origSkipSamples == skip && fresh(table)
    {
      this.tableBytes, this.resolution := tableBytes, resolution;
      table := new u16[tableBytes / 2];
      tableCur, size, finished := 0, 0, false;
      origSkipSamples, skipSamples := skip, skip;
      conversions := [];
      new;
      DivModUnique(0, skip + 1, 0, 0);
    }

    /** ADC_vect */
    method OnConversion(result: u16)
      requires Valid()
      modifies this`tableCur, this`size, this`skipSamples, this`finished, this`conversions, table
      ensures Valid() && conversions == old(conversions) + [result]
      ensures old(finished) ==> table[..] == old(table[..]) && size == old(size) && finished
    {
      hide Stored, Skip, Scaled, SampleIndex, AllSampled;
      ghost var n, cells, before := |conversions|, table[..tableCur], conversions;
      OneMoreConversion(n, origSkipSamples, Capacity());
      MoreConversions(cells, conversions, result, origSkipSamples, resolution);
      if skipSamples == 0 {
        if !finished {
          table[tableCur] := Scaled(result, resolution);
          assert table[..tableCur + 1] == cells + [Scaled(result, resolution)];
          Advance();
        }
      } else {
        skipSamples := skipSamples - 1;
      }
      conversions := before + [result];
    }

    /** Past a new sample: pointer, size and skip count move on, and the end of the table stops it all. */
    method Advance()
      requires tableCur < Capacity() && size == 2 * tableCur && !finished
      modifies this`tableCur, this`size, this`skipSamples, this`finished
      ensures tableCur == old(tableCur) + 1 && size == 2 * tableCur && skipSamples == origSkipSamples
      ensures finished <==> tableCur == Capacity()
    {
      tableCur := tableCur + 1;
      var s: int := size;
      size := s + 2;
      skipSamples := origSkipSamples;
      EndTestIsExact(tableBytes, 2, tableCur);
      if 2 * tableCur >= TableEnd(tableBytes, 2) {
        finished := true;
      }
    }
  }

  /** A further conversion keeps the samples and is itself the next sample when its turn has come. */
  lemma MoreConversions(cells: seq<u16>, conversions: seq<u16>, result: u16, orig: nat, resolution: nat)
    requires resolution <= 10 && AllSampled(cells, conversions, orig, resolution)
    ensures AllSampled(cells, conversions + [result], orig, resolution)
    ensures |conversions| == SampleIndex(|cells|, orig) ==>
              AllSampled(cells + [Scaled(result, resolution)], conversions + [result], orig, resolution)
  {
    hide SampleIndex, Scaled;
  }

  /** The sampling personality: a 16-bit number of skipped conversions and no other parameter. */
  const SAMPLING := Personality(0, 2)

  /** What the host decodes from a non-empty list of cells. The elapsed time is always 0 here. */
  function Received(cells: seq<u16>, reason: byte, block: seq<byte>): Result<View>
    requires |block| < 0x100
  {
    var payload := TableTransport.Encode(16, reason, 0x53, 0, block, Flatten(cells, 2));
    TableTransport.EncodeParts(16, reason, 0x53, 0, block, Flatten(cells, 2));
    Decode(Some(SAMPLING), payload)
  }

  lemma CellsReachHost(cells: seq<u16>, reason: byte, block: seq<byte>)
    requires cells != [] && |block| < 0x100
    ensures var r := Received(cells, reason, block);
      && r.Ok? && r.value.elements == cells
      && (r.value.totalDuration, r.value.skipSamples, r.value.token) == Params(SAMPLING, block)
  {
    hide Flatten, Decode, TableTransport.Encode, Params;
    TableTransport.TableRoundTrip(SAMPLING, 2, reason, 0x53, 0, block, cells);
    Pow256Of2();
  }

  lemma NoCellsStopHost(reason: byte, block: seq<byte>)
    requires |block| < 0x100
    ensures Received([], reason, block) == Err(NoTable)
  {
    hide TableTransport.Encode;
    TableTransport.EncodeParts(16, reason, 0x53, 0, block, []);
  }

  /** Conversion `k`, without the bits below the resolution: for ten bits the conversion itself. */
  predicate Due(v: int, conversions: seq<u16>, k: int, resolution: nat)
    requires resolution <= 10
  {
    && 0 <= k < |conversions|
    && v * Pow2(10 - resolution) <= conversions[k] < (v + 1) * Pow2(10 - resolution)
    && (resolution == 10 ==> v == conversions[k])
  }

  /**
    Sampling end to end: the host decodes a table if and only if it holds a sample, and stops on an
    empty one. Its list of samples is then every `skip + 1`st conversion, in order and as long as the
    table has room, each without the bits below the resolution. It reads back the number of skipped
    conversions exactly when a token follows it, and then that token. The finish flag is set exactly
    when the table is full.
   */
  lemma SamplesReachHost(log: AdcLogger, reason: byte, block: seq<byte>)
    requires log.Valid()
    requires |block| < 0x100 && (|block| >= 2 ==> Word(block[..2]) == log.origSkipSamples)
    ensures var r := Received(log.table[..log.tableCur], reason, block);
      var n, period, room := |log.conversions|, 1 + log.origSkipSamples, log.tableBytes / 2;
      && (log.finished <==> n / period >= room) && (r.Ok? <==> n >= period)
      && (r.Err? ==> r.error == NoTable)
      && (r.Ok? ==>
          && |r.value.elements| == (if n / period < room then n / period else room)
          && (forall j | 0 <= j < |r.value.elements| ::
                Due(r.value.elements[j], log.conversions, (j + 1) * period - 1, log.resolution))
          && r.value.totalDuration == 0xffff_ffff
          && (|block| > 2 ==> r.value.skipSamples == log.origSkipSamples && r.value.token == Some(block[2..]))
          && (|block| <= 2 ==> r.value.skipSamples == 0xffff_ffff)
          && (1 <= |block| <= 2 ==> r.value.token == Some(block)) && (block == [] ==> r.value.token == None))
  {
    var period: nat := 1 + log.origSkipSamples;
    LoggedCells(log);
    hide *;
    CellsReadBack(log.table[..log.tableCur], log.conversions, log.origSkipSamples, period, log.resolution, reason,
        block);
  }

  lemma CellsReadBack(cells: seq<u16>, conversions: seq<u16>, orig: u16, period: nat, resolution: nat, reason: byte,
      block: seq<byte>)
    requires resolution <= 10 && period == 1 + orig && AllSampled(cells, conversions, orig, resolution)
    requires |block| < 0x100 && (|block| >= 2 ==> Word(block[..2]) == orig)
    ensures var r := Received(cells, reason, block);
      && (r.Ok? <==> cells != []) && (r.Err? ==> r.error == NoTable)
      && (r.Ok? ==>
          && |r.value.elements| == |cells|
          && (forall j | 0 <= j < |r.value.elements| ::
                Due(r.value.elements[j], conversions, (j + 1) * period - 1, resolution))
          && r.value.totalDuration == 0xffff_ffff
          && (|block| > 2 ==> r.value.skipSamples == orig && r.value.token == Some(block[2..]))
          && (|block| <= 2 ==> r.value.skipSamples == 0xffff_ffff)
          && (1 <= |block| <= 2 ==> r.value.token == Some(block)) && (block == [] ==> r.value.token == None))
  {
    hide *;
    if cells == [] {
      NoCellsStopHost(reason, block);
    } else {
      CellsReachHost(cells, reason, block);
      ParamsRead(block);
      DueConversions(cells, conversions, orig, period, resolution);
    }
  }

  lemma LoggedCells(log: AdcLogger)
    requires log.Valid()
    ensures var cells, n, period, room := log.table[..log.tableCur], |log.conversions|, 1 + log.origSkipSamples,
        log.tableBytes / 2;
      && AllSampled(cells, log.conversions, log.origSkipSamples, log.resolution)
      && |cells| == (if n / period < room then n / period else room)
      && (cells != [] <==> n >= period) && (log.finished <==> n / period >= room)
  {
    FirstSample(|log.conversions|, log.origSkipSamples, log.Capacity());
    hide Skip, AllSampled;
  }

  /** Every cell in numbers. */
  lemma DueConversions(cells: seq<u16>, conversions: seq<u16>, orig: nat, period: nat, resolution: nat)
    requires resolution <= 10 && period == 1 + orig && AllSampled(cells, conversions, orig, resolution)
    ensures forall j | 0 <= j < |cells| :: Due(cells[j], conversions, (j + 1) * period - 1, resolution)
  {
    hide SampleIndex, Due, SampleOf;
    forall j | 0 <= j < |cells|
      ensures Due(cells[j], conversions, (j + 1) * period - 1, resolution)
    {
      DueIndex(j, orig, period);
      DueSample(cells[j], conversions, SampleIndex(j, orig), resolution);
    }
  }

  lemma DueIndex(j: nat, orig: nat, period: nat)
    requires period == 1 + orig
    ensures SampleIndex(j, orig) == (j + 1) * period - 1
  {
    assert (j + 1) * period == j * period + period;
  }

  lemma DueSample(v: u16, conversions: seq<u16>, k: nat, resolution: nat)
    requires resolution <= 10 && k < |conversions| && SampleOf(v, conversions[k], resolution)
    ensures Due(v, conversions, k, resolution)
  {
  }

  lemma ParamsRead(block: seq<byte>)
    ensures Params(SAMPLING, block) == (0xffff_ffff, if |block| > 2 then Word(block[..2]) else 0xffff_ffff,
                if |block| > 2 then Some(block[2..]) else if block == [] then None else Some(block))
  {
    assert block[0..] == block;
  }

  /** The table is empty until the first group of conversions is complete. */
  lemma FirstSample(n: nat, orig: nat, capacity: nat)
    requires capacity > 0
    ensures Stored(n, orig, capacity) > 0 <==> n > orig
  {
    if n > orig {
      DivMonotone(orig + 1, n, orig + 1);
      DivModUnique(orig + 1, orig + 1, 1, 0);
    } else {
      DivModUnique(n, orig + 1, 0, n);
    }
  }

  lemma Pow256Of2()
    ensures Pow256(2) == 0x1_0000
  {
    assert Pow256(2) == 0x100 * Pow256(1) && Pow256(1) == 0x100 * Pow256(0);
  }
}
