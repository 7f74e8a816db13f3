/**
  The multichannel analyser's conversion interrupt, firmware/perso-adc-int-mca-ext-trig.c, with the
  24-bit table elements of firmware/table-element.h.
 */
module Histogram {
  import opened Bytes
  import opened ValueTable
  import Export = TimeSeriesExport
  import TableTransport

  const ADC_RESOLUTION := 10

  /** Number of bins: one for each conversion result at this resolution. */
  const MAX_COUNTER := 1024

  /** What the converter can give. */
  type Sample = x: int | 0 <= x < 1024

  /** How often a bin was hit. */
  function Count(conversions: seq<Sample>, bin: nat): (n: nat)
    ensures n <= |conversions|
  {
    if conversions == [] then 0
    else Count(conversions[..|conversions| - 1], bin) + if conversions[|conversions| - 1] == bin then 1 else 0
  }

  lemma CountSnoc(conversions: seq<Sample>, s: Sample, bin: nat)
    ensures Count(conversions + [s], bin) == Count(conversions, bin) + if s == bin then 1 else 0
  {
    assert (conversions + [s])[..|conversions|] == conversions;
  }

  /** The low word is incremented and the carry goes into the top byte, which wraps. */
  lemma CarryChain(b0: byte, b1: byte, b2: byte, v: nat)
    requires [b0, b1, b2] == LittleEndian(v, 3)
    ensures var accu := b0 + 0x100 * b1 + 1;
      var carry := accu / 0x1_0000;
      [accu % 0x100, accu / 0x100 % 0x100, (b2 + carry) % 0x100] == LittleEndian(v + 1, 3)
  {
    var accu := b0 + 0x100 * b1 + 1;
    var carry := accu / 0x1_0000;
    var next: seq<byte> := [accu % 0x100, accu / 0x100 % 0x100, (b2 + carry) % 0x100];
    Pow256Of3();
    ValueOfLittleEndian(v, 3);
    ValueOfLittleEndian(v + 1, 3);
    ValueOfThree(b0, b1, b2);
    ValueOfThree(next[0], next[1], next[2]);
    hide LittleEndian, Value, Pow256;
    WrapThree(b0, b1, b2);
    NextModulo(v, 0x100_0000);
    ValueInjective(next, LittleEndian(v + 1, 3));
  }

  lemma Pow256Of3()
    ensures Pow256(3) == 0x100_0000
  {
    assert Pow256(3) == 0x100 * Pow256(2) && Pow256(2) == 0x100 * Pow256(1) && Pow256(1) == 0x100 * Pow256(0);
  }

  lemma WrapThree(b0: byte, b1: byte, b2: byte)
    ensures var accu := b0 + 0x100 * b1 + 1;
      accu % 0x100 + 0x100 * (accu / 0x100 % 0x100) + 0x1_0000 * ((b2 + accu / 0x1_0000) % 0x100)
        == (b0 + 0x100 * b1 + 0x1_0000 * b2 + 1) % 0x100_0000
  {
  }

  class Mca {
    const table: array<byte>
    ghost var conversions: seq<Sample>

    ghost predicate Valid()
      reads this, table
    {
      table.Length == 3 * MAX_COUNTER
          && forall i | 0 <= i < MAX_COUNTER :: Bin(i) == LittleEndian(Count(conversions, i), 3)
    }

    function Bin(i: nat): (bs: seq<byte>)
      requires i < MAX_COUNTER && table.Length == 3 * MAX_COUNTER
      reads table
      ensures |bs| == 3
    {
      table[3 * i..3 * i + 3]
    }

    constructor ()
      ensures Valid() && conversions == [] && fresh(table)
    {
      table := new byte[3 * MAX_COUNTER](_ => 0);
      conversions := [];
      new;
      assert LittleEndian(0, 3) == [0, 0, 0] by {
        assert LittleEndian(0, 3) == [0] + LittleEndian(0, 2) && LittleEndian(0, 2) == [0] + LittleEndian(0, 1);
      }
    }

    /** table_element_inc for 24-bit elements: 16 bits in a register pair, then the carry. */
    method ElementInc(i: nat)
      requires i < MAX_COUNTER && table.Length == 3 * MAX_COUNTER
      modifies table
      ensures forall v: nat | old(Bin(i)) == LittleEndian(v, 3) :: Bin(i) == LittleEndian(v + 1, 3)
      ensures forall k | 0 <= k < MAX_COUNTER && k != i :: Bin(k) == old(Bin(k))
    {
      hide LittleEndian;
      var lo: int, hi: int, top: int := table[3 * i], table[3 * i + 1], table[3 * i + 2];
      assert Bin(i) == [lo, hi, top];
      var accu := lo + 0x100 * hi + 1;
      var carry := accu / 0x1_0000;
      var b0, b1, b2 := accu % 0x100, accu / 0x100 % 0x100, (top + carry) % 0x100;
      forall v: nat | [lo, hi, top] == LittleEndian(v, 3)
        ensures [b0, b1, b2] == LittleEndian(v + 1, 3)
      {
        CarryChain(lo, hi, top, v);
      }
      table[3 * i] := b0;
      table[3 * i + 1] := b1;
      table[3 * i + 2] := b2;
      assert Bin(i) == [b0, b1, b2];
    }

    /** ADC_vect */
    method OnConversion(result: Sample)
      requires Valid()
      modifies this`conversions, table
      ensures Valid() && conversions == old(conversions) + [result]
    {
      hide Count, LittleEndian;
      var index := result / Pow2(10 - ADC_RESOLUTION);
      assert index == result;
      ElementInc(index);
      forall i | 0 <= i < MAX_COUNTER
        ensures Count(conversions + [result], i) == Count(conversions, i) + if i == index then 1 else 0
      {
        CountSnoc(conversions, result, i);
      }
      conversions := conversions + [result];
    }
  }

  // ----- On the host -----

  /** The first `n` bins' hits. */
  function Hits(conversions: seq<Sample>, n: nat): (hits: seq<nat>)
    ensures |hits| == n
  {
    if n == 0 then [] else Hits(conversions, n - 1) + [Count(conversions, n - 1)]
  }

  lemma {:induction false} HitsAt(conversions: seq<Sample>, n: nat, i: nat)
    requires i < n
    ensures Hits(conversions, n)[i] == Count(conversions, i)
  {
    if i < n - 1 {
      HitsAt(conversions, n - 1, i);
    }
  }

  /** A byte string made of the encodings of numbers, one after the other, is their flattening. */
  lemma {:induction false} FlattenFromSlices(bs: seq<byte>, vs: seq<nat>, w: nat)
    requires |bs| == w * |vs|
    requires forall i | 0 <= i < |vs| :: w * i + w <= |bs| && bs[w * i..w * i + w] == LittleEndian(vs[i], w)
    ensures bs == Flatten(vs, w)
  {
    hide LittleEndian;
    if vs != [] {
      var n := |vs| - 1;
      var init := bs[..w * n];
      assert w * n + w == w * |vs|;
      forall i | 0 <= i < n
        ensures w * i + w <= |init| && init[w * i..w * i + w] == LittleEndian(vs[i], w)
      {
        MulMonotone(i + 1, n, w);
        assert w * (i + 1) == w * i + w;
        assert init[w * i..w * i + w] == bs[w * i..w * i + w];
      }
      FlattenFromSlices(init, vs[..n], w);
      assert bs == init + bs[w * n..w * n + w];
    }
  }

  /** How many conversions fell into the first `n` bins. */
  function Below(conversions: seq<Sample>, n: nat): nat
  {
    if conversions == [] then 0
    else Below(conversions[..|conversions| - 1], n) + if conversions[|conversions| - 1] < n then 1 else 0
  }

  lemma {:induction false} BelowSteps(conversions: seq<Sample>, n: nat)
    ensures Below(conversions, n + 1) == Below(conversions, n) + Count(conversions, n)
    ensures Below(conversions, 0) == 0 && Below(conversions, MAX_COUNTER) == |conversions|
  {
    if conversions != [] {
      BelowSteps(conversions[..|conversions| - 1], n);
    }
  }

  /** The bins share out all conversions, and a sum of bins that wrapped is too small. */
  lemma {:induction false} SumOfBins(conversions: seq<Sample>, es: seq<u32>, m: nat)
    requires m > 0
    requires forall i | 0 <= i < |es| :: es[i] == Count(conversions, i) % m
    ensures Export.SumOf(es) <= Below(conversions, |es|)
    ensures Export.SumOf(es) == Below(conversions, |es|) <==> forall i | 0 <= i < |es| :: Count(conversions, i) < m
  {
    hide Count, Below;
    if es == [] {
      BelowSteps(conversions, 0);
    } else {
      var n := |es| - 1;
      SumOfBins(conversions, es[..n], m);
      BelowSteps(conversions, n);
      Remainder(Count(conversions, n), m);
      assert forall i | 0 <= i < n :: es[..n][i] == es[i];
    }
  }

  lemma Remainder(x: nat, m: nat)
    requires m > 0
    ensures x % m <= x && (x % m == x <==> x < m)
  {
    assert x == x / m * m + x % m;
    if x >= m {
      DivMonotone(m, x, m);
      DivModUnique(m, m, 1, 0);
      MulAtLeast(x / m, m);
    } else {
      DivModUnique(x, m, 0, x);
    }
  }

  /** The analyser: a 16-bit timer parameter and no other. */
  const ANALYSER := Personality(2, 0)

  /** What the host decodes from a histogram table. */
  function Received(table: seq<byte>, reason: byte, duration: u16, block: seq<byte>): Result<View>
    requires |block| < 0x100
  {
    TableTransport.EncodeParts(24, reason, 0x48, duration, block, table);
    Decode(Some(ANALYSER), TableTransport.Encode(24, reason, 0x48, duration, block, table))
  }

  lemma TableIsFlattened(mca: Mca)
    requires mca.Valid()
    ensures mca.table[..] == Flatten(Hits(mca.conversions, MAX_COUNTER), 3)
  {
    hide LittleEndian, Flatten, Hits, Count;
    var hits, bs := Hits(mca.conversions, MAX_COUNTER), mca.table[..];
    forall i | 0 <= i < |hits|
      ensures bs[3 * i..3 * i + 3] == LittleEndian(hits[i], 3)
    {
      HitsAt(mca.conversions, MAX_COUNTER, i);
      assert bs[3 * i..3 * i + 3] == mca.Bin(i);
    }
    FlattenFromSlices(bs, hits, 3);
  }

  lemma HitsReachHost(conversions: seq<Sample>, reason: byte, duration: u16, block: seq<byte>)
    requires |block| < 0x100
    ensures var r := Received(Flatten(Hits(conversions, MAX_COUNTER), 3), reason, duration, block);
      && r.Ok? && |r.value.elements| == MAX_COUNTER && r.value.duration == duration
      && forall i | 0 <= i < MAX_COUNTER :: r.value.elements[i] == Count(conversions, i) % 0x100_0000
  {
    hide Flatten, Hits, Count, Decode, TableTransport.Encode, Params, Pow256;
    var hits := Hits(conversions, MAX_COUNTER);
    TableTransport.TableRoundTrip(ANALYSER, 3, reason, 0x48, duration, block, hits);
    Pow256Of3();
    forall i | 0 <= i < MAX_COUNTER
      ensures hits[i] == Count(conversions, i)
    {
      HitsAt(conversions, MAX_COUNTER, i);
    }
  }

  /**
    Histogram end to end: bin `i` on the host is the number of conversions with result `i` modulo
    2^24, and the bins add up to all conversions exactly when none of them has wrapped.
   */
  lemma HistogramReachesHost(mca: Mca, reason: byte, duration: u16, block: seq<byte>)
    requires mca.Valid() && |block| < 0x100
    ensures var r := Received(mca.table[..], reason, duration, block);
      && r.Ok? && |r.value.elements| == MAX_COUNTER && r.value.duration == duration
      && (forall i | 0 <= i < MAX_COUNTER :: r.value.elements[i] == Count(mca.conversions, i) % 0x100_0000)
      && (Export.SumOf(r.value.elements) == |mca.conversions|
          <==> forall i | 0 <= i < MAX_COUNTER :: Count(mca.conversions, i) < 0x100_0000)
  {
    hide Flatten, Hits, Count, Received, Below, Export.SumOf;
    TableIsFlattened(mca);
    HitsReachHost(mca.conversions, reason, duration, block);
    var es := Received(mca.table[..], reason, duration, block).value.elements;
    SumOfBins(mca.conversions, es, 0x100_0000);
    BelowSteps(mca.conversions, 0);
  }
}
