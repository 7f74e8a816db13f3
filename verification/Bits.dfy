/** Sixteen-bit registers as bit strings, least significant bit first, with C's bitwise operators. */
module Bits {
  import opened Bytes

  type Bits16 = s: seq<bool> | |s| == 16 witness seq(16, _ => false)

  /** Bit `i` of a number. */
  predicate Bit(v: nat, i: nat)
    decreases i
  {
    if i == 0 then v % 2 == 1 else Bit(v / 2, i - 1)
  }

  /** The low sixteen bits of a number: what a C conversion to `uint16_t` keeps. */
  function ToBits(v: nat): Bits16 { seq(16, i requires 0 <= i => Bit(v, i)) }

  function Unsigned(bits: seq<bool>): nat
  {
    if bits == [] then 0 else (if bits[0] then 1 else 0) + 2 * Unsigned(bits[1..])
  }

  function Or(a: Bits16, b: Bits16): Bits16 { seq(16, i requires 0 <= i < 16 => a[i] || b[i]) }

  function Xor(a: Bits16, b: Bits16): Bits16 { seq(16, i requires 0 <= i < 16 => a[i] != b[i]) }

  function ShiftLeft(a: Bits16, n: nat): Bits16
    requires n <= 16
  {
    seq(n, _ => false) + a[..16 - n]
  }

  function ShiftRight(a: Bits16, n: nat): Bits16
    requires n <= 16
  {
    a[n..] + seq(n, _ => false)
  }

  function RotateLeft(a: Bits16, n: nat): Bits16
    requires n <= 16
  {
    a[16 - n..] + a[..16 - n]
  }

  /** The usual C idiom for a rotation. */
  lemma ShiftsRotate(a: Bits16, n: nat)
    requires n <= 16
    ensures Or(ShiftLeft(a, n), ShiftRight(a, 16 - n)) == RotateLeft(a, n)
  {
  }

  lemma XorCancel(r: Bits16, a: Bits16, b: Bits16)
    ensures Xor(Xor(r, a), Xor(r, b)) == Xor(a, b)
    ensures Xor(Xor(a, r), Xor(b, r)) == Xor(a, b)
  {
  }

  lemma XorRotate(a: Bits16, b: Bits16, n: nat)
    requires n <= 16
    ensures Xor(RotateLeft(a, n), RotateLeft(b, n)) == RotateLeft(Xor(a, b), n)
  {
  }

  lemma {:induction false} UnsignedBound(bits: seq<bool>)
    ensures Unsigned(bits) < Pow2(|bits|)
  {
    if bits != [] {
      UnsignedBound(bits[1..]);
    }
  }

  lemma {:induction false} UnsignedInjective(a: seq<bool>, b: seq<bool>)
    requires |a| == |b| && Unsigned(a) == Unsigned(b)
    ensures a == b
  {
    if a != [] {
      UnsignedInjective(a[1..], b[1..]);
      assert a == [a[0]] + a[1..] && b == [b[0]] + b[1..];
    }
  }

  /** Numbers that agree in their low `k` bits differ by a multiple of 2^k. */
  lemma {:induction false} AgreeModulo(v: nat, w: nat, k: nat) returns (q: int)
    requires forall i: nat | i < k :: Bit(v, i) == Bit(w, i)
    ensures v - w == q * Pow2(k)
  {
    if k == 0 {
      q := v - w;
    } else {
      assert Bit(v, 0) == Bit(w, 0);
      forall i: nat | i < k - 1
        ensures Bit(v / 2, i) == Bit(w / 2, i)
      {
        assert Bit(v, i + 1) == Bit(w, i + 1);
      }
      q := AgreeModulo(v / 2, w / 2, k - 1);
      assert q * (2 * Pow2(k - 1)) == 2 * (q * Pow2(k - 1));
    }
  }

  // ----- Bits of particular numbers -----

  lemma {:induction false} ZeroHasNoBits(i: nat)
    ensures !Bit(0, i)
  {
    if i > 0 {
      ZeroHasNoBits(i - 1);
    }
  }

  lemma DoubleBits(v: nat, i: nat)
    ensures Bit(2 * v, i) <==> i > 0 && Bit(v, i - 1)
    ensures Bit(2 * v + 1, i) <==> i == 0 || Bit(v, i - 1)
  {
  }

  lemma {:induction false} PowerBits(s: nat, i: nat)
    ensures Bit(Pow2(s), i) <==> i == s
  {
    if s == 0 {
      DoubleBits(0, i);
      if i > 0 {
        ZeroHasNoBits(i - 1);
      }
    } else {
      DoubleBits(Pow2(s - 1), i);
      if i > 0 {
        PowerBits(s - 1, i - 1);
      }
    }
  }

  lemma {:induction false} ShiftedBits(v: nat, s: nat, i: nat)
    ensures Bit(v * Pow2(s), i) <==> i >= s && Bit(v, i - s)
  {
    if s > 0 {
      assert v * Pow2(s) == 2 * (v * Pow2(s - 1));
      DoubleBits(v * Pow2(s - 1), i);
      if i > 0 {
        ShiftedBits(v, s - 1, i - 1);
      }
    }
  }

  lemma ElevenBits(i: nat)
    ensures Bit(11, i) <==> i == 0 || i == 1 || i == 3
  {
    DoubleBits(5, i);
    if i > 0 {
      DoubleBits(2, i - 1);
      if i > 1 {
        PowerBits(1, i - 2);
      }
    }
  }
}
