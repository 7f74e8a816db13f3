/**
  The 16-bit rotate-and-xor checksum of both programs: the device's pure update function
  (firmware/checksum.c), the host's accumulator object (hostware/freemcan-checksum.c), and what
  the algebra of the two gives: which single-byte errors the transmitted low byte can see.
 */
module Checksum {
  import opened Bits
  import opened Bytes

  type Accu = Bits16

  /** Both programs start every frame from this accumulator value. */
  const SEED: Accu := ToBits(0x3e59)

  /** The contribution of one data byte, spread over up to twelve bits. */
  function Spread(n: byte): Accu { ToBits(8 * n + 2 * n + n) }

  /** The device's `checksum_update`. */
  function Update(accu: Accu, data: byte): Accu { Xor(RotateLeft(accu, 3), Spread(data)) }

  /** The device's update applied to a whole byte string, first byte first. */
  function Sum(accu: Accu, bytes: seq<byte>): Accu
  {
    if bytes == [] then accu else Update(Sum(accu, bytes[..|bytes| - 1]), bytes[|bytes| - 1])
  }

  /** The byte that goes over the wire. */
  function LowByte(accu: Accu): byte
  {
    UnsignedBound(accu[..8]);
    assert Pow2(8) == 0x100 by {
      assert Pow2(8) == 0x10 * Pow2(4);
    }
    Unsigned(accu[..8])
  }

  function Final(bytes: seq<byte>): byte { LowByte(Sum(SEED, bytes)) }

  /** The device compares through an 8-bit difference with a byte it takes as signed. */
  predicate DeviceMatches(accu: Accu, data: byte)
  {
    var signed := if data < 0x80 then data else data - 0x100;
    U8(LowByte(accu) - signed) == 0
  }

  lemma DeviceMatchIsEquality(accu: Accu, data: byte)
    ensures DeviceMatches(accu, data) <==> data == LowByte(accu)
  {
    var low := LowByte(accu);
    assert -0x100 < low - data < 0x200;
  }

  /** The host's checksum object. */
  class HostChecksum {
    var accu: Accu

    constructor ()
      ensures accu == SEED
    {
      accu := ToBits(0x3e59);
    }

    method Reset()
      modifies this
      ensures accu == SEED
    {
      accu := ToBits(0x3e59);
    }

    /** The host writes the rotation as two shifts; the result is the device's update. */
    method UpdateByte(value: byte)
      modifies this
      ensures accu == Update(old(accu), value)
    {
      var x := ToBits(8 * value + 2 * value + value);
      var r := Or(ShiftLeft(accu, 3), ShiftRight(accu, 13));
      ShiftsRotate(accu, 3);
      accu := Xor(r, x);
    }

    method Match(value: byte) returns (matched: bool)
      ensures matched <==> value == LowByte(accu)
    {
      matched := LowByte(accu) == value;
    }

    method Get() returns (value: byte)
      ensures value == LowByte(accu)
    {
      value := LowByte(accu);
    }
  }

  lemma SumSnoc(accu: Accu, bytes: seq<byte>, b: byte)
    ensures Sum(accu, bytes + [b]) == Update(Sum(accu, bytes), b)
  {
    assert (bytes + [b])[..|bytes|] == bytes;
  }

  lemma {:induction false} SumConcat(accu: Accu, a: seq<byte>, b: seq<byte>)
    ensures Sum(accu, a + b) == Sum(Sum(accu, a), b)
  {
    if b == [] {
      assert a + b == a;
    } else {
      var b0 := b[..|b| - 1];
      SumConcat(accu, a, b0);
      assert a + b == (a + b0) + [b[|b| - 1]];
      SumSnoc(accu, a + b0, b[|b| - 1]);
    }
  }

  // ----- What one wrong byte does to the accumulator -----

  function Difference(n: byte, m: byte): Accu { Xor(Spread(n), Spread(m)) }

  /** `k` rotations by three. */
  function RotateBy(d: Accu, k: nat): Accu
  {
    if k == 0 then d else RotateLeft(RotateBy(d, k - 1), 3)
  }

  /** The bit a rotation by three moves into place `i`. */
  function Source(i: nat): nat
    requires i < 16
  {
    if i < 3 then i + 13 else i - 3
  }

  function SourceBy(i: nat, k: nat): (j: nat)
    requires i < 16
    ensures j < 16
    decreases k
  {
    if k == 0 then i else SourceBy(Source(i), k - 1)
  }

  lemma {:induction false} RotateByBit(d: Accu, k: nat, i: nat)
    requires i < 16
    ensures RotateBy(d, k)[i] == d[SourceBy(i, k)]
  {
    if k > 0 {
      RotateByBit(d, k - 1, Source(i));
    }
  }

  lemma OneTurn(x: nat, y: nat)
    requires y == x || y + 16 == x
    ensures x % 16 == y % 16
  {
  }

  /** After `k` rotations place `i` holds the bit 3k places below it, around the register. */
  lemma {:induction false} SourceByIsModular(i: nat, k: nat)
    requires i < 16
    ensures SourceBy(i, k) == (i + 13 * k) % 16
    decreases k
  {
    if k > 0 {
      SourceByIsModular(Source(i), k - 1);
      OneTurn(i + 13 * k, Source(i) + 13 * (k - 1));
    }
  }

  /**
    The accumulators of two streams that differ in one byte differ by exactly the rotated
    difference of the two bytes' spreads, whatever the rest of the streams is.
   */
  lemma {:induction false} SingleByteDifference(accu: Accu, pre: seq<byte>, n: byte, m: byte, post: seq<byte>)
    ensures Xor(Sum(accu, pre + [n] + post), Sum(accu, pre + [m] + post)) == RotateBy(Difference(n, m), |post|)
  {
    if post == [] {
      assert pre + [n] + post == pre + [n] && pre + [m] + post == pre + [m];
      SumSnoc(accu, pre, n);
      SumSnoc(accu, pre, m);
      XorCancel(RotateLeft(Sum(accu, pre), 3), Spread(n), Spread(m));
    } else {
      var k := |post| - 1;
      var post0, b := post[..k], post[k];
      SingleByteDifference(accu, pre, n, m, post0);
      assert pre + [n] + post == (pre + [n] + post0) + [b];
      assert pre + [m] + post == (pre + [m] + post0) + [b];
      SumSnoc(accu, pre + [n] + post0, b);
      SumSnoc(accu, pre + [m] + post0, b);
      var x, y := Sum(accu, pre + [n] + post0), Sum(accu, pre + [m] + post0);
      XorCancel(Spread(b), RotateLeft(x, 3), RotateLeft(y, 3));
      XorRotate(x, y, 3);
    }
  }

  /** Eleven is odd, so the low byte of the spread already tells two bytes apart. */
  lemma DifferenceOfDistinct(n: byte, m: byte)
    requires n != m
    ensures exists i: nat :: i < 8 && Difference(n, m)[i]
  {
    if forall i: nat | i < 8 :: !Difference(n, m)[i] {
      forall i: nat | i < 8
        ensures Bit(11 * n, i) == Bit(11 * m, i)
      {
        assert !Difference(n, m)[i];
      }
      var q := AgreeModulo(11 * n, 11 * m, 8);
      assert Pow2(8) == 0x100 by {
        assert Pow2(8) == 0x10 * Pow2(4);
      }
      ElevenIsInvertible(n, m, q);
    }
  }

  lemma ElevenIsInvertible(n: byte, m: byte, q: int)
    requires 11 * n - 11 * m == q * 0x100
    ensures n == m
  {
  }

  lemma RoundTrip16(i: nat, k: nat)
    requires i < 16
    ensures ((i + 3 * k) % 16 + 13 * k) % 16 == i
  {
    var q := (i + 3 * k) / 16;
    assert (i + 3 * k) % 16 + 13 * k == i + 16 * (k - q);
  }

  /** The full 16-bit accumulator sees every single-byte error. */
  lemma SingleByteErrorChangesAccumulator(accu: Accu, pre: seq<byte>, n: byte, m: byte, post: seq<byte>)
    requires n != m
    ensures Sum(accu, pre + [n] + post) != Sum(accu, pre + [m] + post)
  {
    var k := |post|;
    SingleByteDifference(accu, pre, n, m, post);
    DifferenceOfDistinct(n, m);
    var i: nat :| i < 8 && Difference(n, m)[i];
    var j := (i + 3 * k) % 16;
    RotateByBit(Difference(n, m), k, j);
    SourceByIsModular(j, k);
    RoundTrip16(i, k);
    assert Xor(Sum(accu, pre + [n] + post), Sum(accu, pre + [m] + post))[j];
  }

  /** The rotated difference of two bytes has no bit in the transmitted half. */
  predicate Confusable(n: byte, m: byte, k: nat)
  {
    forall i: nat | i < 8 :: !RotateBy(Difference(n, m), k)[i]
  }

  lemma LowByteInjective(a: Accu, b: Accu)
    ensures LowByte(a) == LowByte(b) <==> forall i: nat | i < 8 :: !Xor(a, b)[i]
  {
    if LowByte(a) == LowByte(b) {
      UnsignedInjective(a[..8], b[..8]);
      forall i: nat | i < 8
        ensures !Xor(a, b)[i]
      {
        assert a[..8][i] == b[..8][i];
      }
    }
    if forall i: nat | i < 8 :: !Xor(a, b)[i] {
      forall i | 0 <= i < 8
        ensures a[i] == b[i]
      {
        assert !Xor(a, b)[i];
      }
      assert a[..8] == b[..8];
    }
  }

  /** The transmitted byte misses a single-byte error exactly when the two bytes are confusable at that distance. */
  lemma SingleByteErrorMissed(accu: Accu, pre: seq<byte>, n: byte, m: byte, post: seq<byte>)
    ensures LowByte(Sum(accu, pre + [n] + post)) == LowByte(Sum(accu, pre + [m] + post))
       <==> Confusable(n, m, |post|)
  {
    SingleByteDifference(accu, pre, n, m, post);
    LowByteInjective(Sum(accu, pre + [n] + post), Sum(accu, pre + [m] + post));
  }

  // ----- Two bytes the transmitted byte confuses, for every distance that is not a multiple of sixteen -----

  function ConfusedPair(k: nat): (byte, byte)
  {
    var start := 13 * k % 16;
    if start <= 2 then (94, 1)
    else if start == 3 then (187, 1)
    else if start <= 8 then (1, 0)
    else if start <= 13 then (32, 0)
    else (128, 0)
  }

  lemma SpreadOfSmall(i: nat)
    requires i < 16
    ensures !Spread(0)[i]
    ensures Spread(1)[i] <==> i == 0 || i == 1 || i == 3
    ensures Spread(32)[i] <==> i == 5 || i == 6 || i == 8
    ensures Spread(128)[i] <==> i == 7 || i == 8 || i == 10
  {
    ZeroHasNoBits(i);
    ElevenBits(i);
    assert Pow2(5) == 32 && Pow2(7) == 128 by {
      assert Pow2(5) == 2 * Pow2(4) && Pow2(7) == 4 * Pow2(5);
    }
    ShiftedBits(11, 5, i);
    ShiftedBits(11, 7, i);
    if i >= 5 {
      ElevenBits(i - 5);
    }
    if i >= 7 {
      ElevenBits(i - 7);
    }
  }

  lemma SpreadOf94(i: nat)
    requires i < 16
    ensures Spread(94)[i] <==> i == 1 || i == 3 || i == 10
  {
    // 11 * 94 == 2 * (4 * (2 * 64 + 1) + 1)
    DoubleBits(517, i);
    if i > 0 {
      DoubleBits(258, i - 1);
      if i > 1 {
        DoubleBits(129, i - 2);
        if i > 2 {
          DoubleBits(64, i - 3);
          PowerOf(6, i - 4);
        }
      }
    }
  }

  lemma SpreadOf187(i: nat)
    requires i < 16
    ensures Spread(187)[i] <==> i == 0 || i == 3 || i == 11
  {
    // 11 * 187 == 8 * (2 * 128 + 1) + 1
    DoubleBits(1028, i);
    if i > 0 {
      DoubleBits(514, i - 1);
      if i > 1 {
        DoubleBits(257, i - 2);
        if i > 2 {
          DoubleBits(128, i - 3);
          PowerOf(7, i - 4);
        }
      }
    }
  }

  lemma PowerOf(s: nat, i: int)
    requires s == 6 || s == 7
    ensures i >= 0 ==> (Bit(if s == 6 then 64 else 128, i) <==> i == s)
  {
    assert Pow2(6) == 64 && Pow2(7) == 128 by {
      assert Pow2(6) == 4 * Pow2(4) && Pow2(7) == 8 * Pow2(4);
    }
    if i >= 0 {
      PowerBits(s, i);
    }
  }

  lemma ConfusedBit(k: nat, j: nat)
    requires j < 16
    requires var start := 13 * k % 16; start != 0 && (start <= j < start + 8 || j + 16 < start + 8)
    ensures var (n, m) := ConfusedPair(k); Spread(n)[j] == Spread(m)[j]
  {
    SpreadOfSmall(j);
    SpreadOf94(j);
    SpreadOf187(j);
  }

  lemma WindowPlace(i: nat, k: nat)
    requires i < 8
    ensures var start := 13 * k % 16; (i + 13 * k) % 16 == if start + i < 16 then start + i else start + i - 16
  {
  }

  lemma ConfusedAfterRotation(k: nat, i: nat)
    requires k % 16 != 0 && i < 8
    ensures var (n, m) := ConfusedPair(k); !RotateBy(Difference(n, m), k)[i]
  {
    var (n, m) := ConfusedPair(k);
    var j := (i + 13 * k) % 16;
    StartIsZero(k);
    WindowPlace(i, k);
    RotateByBit(Difference(n, m), k, i);
    SourceByIsModular(i, k);
    ConfusedBit(k, j);
  }

  lemma ConfusedPairIsConfused(k: nat)
    requires k % 16 != 0
    ensures var (n, m) := ConfusedPair(k); n != m && Confusable(n, m, k)
  {
    var (n, m) := ConfusedPair(k);
    forall i: nat | i < 8
      ensures !RotateBy(Difference(n, m), k)[i]
    {
      ConfusedAfterRotation(k, i);
    }
  }

  lemma StartIsZero(k: nat)
    ensures 13 * k % 16 == 0 <==> k % 16 == 0
  {
    assert k == 16 * (k / 16) + k % 16;
    assert 13 * k == 16 * (13 * (k / 16)) + 13 * (k % 16);
  }

  lemma NeverConfusedAtSixteen(n: byte, m: byte, k: nat)
    requires n != m && k % 16 == 0
    ensures !Confusable(n, m, k)
  {
    DifferenceOfDistinct(n, m);
    var i: nat :| i < 8 && Difference(n, m)[i];
    RotateByBit(Difference(n, m), k, i);
    SourceByIsModular(i, k);
    WholeTurns(i, k);
  }

  lemma WholeTurns(i: nat, k: nat)
    requires i < 16 && k % 16 == 0
    ensures (i + 13 * k) % 16 == i
  {
    var q := k / 16;
    assert i + 13 * k == 13 * q * 16 + i;
    DivModUnique(i + 13 * k, 16, 13 * q, i);
  }

  /**
    The transmitted low byte is sure to expose a wrong byte exactly when the number of checksummed
    bytes after it is a multiple of sixteen.
   */
  lemma DetectionGuaranteed(k: nat)
    ensures (forall n: byte, m: byte | n != m :: !Confusable(n, m, k)) <==> k % 16 == 0
  {
    if k % 16 == 0 {
      forall n: byte, m: byte | n != m
        ensures !Confusable(n, m, k)
      {
        NeverConfusedAtSixteen(n, m, k);
      }
    } else {
      ConfusedPairIsConfused(k);
      var (n, m) := ConfusedPair(k);
      assert n != m && Confusable(n, m, k);
    }
  }
}
