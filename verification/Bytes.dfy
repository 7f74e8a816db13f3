/** Bytes, fixed-width words and the little-endian byte order both programs use on the wire. */
module Bytes {

  type byte = x: int | 0 <= x < 0x100
  type u16 = x: int | 0 <= x < 0x1_0000
  type u32 = x: int | 0 <= x < 0x1_0000_0000

  /** What a C conversion to `uint8_t`, `uint16_t` or `uint32_t` keeps of a value. */
  function U8(x: int): byte { x % 0x100 }
  function U16(x: int): u16 { x % 0x1_0000 }
  function U32(x: int): u32 { x % 0x1_0000_0000 }

  function Pow2(k: nat): (p: nat)
    ensures p > 0
  {
    if k == 0 then 1 else 2 * Pow2(k - 1)
  }

  function Pow256(w: nat): (p: nat)
    ensures p > 0
  {
    if w == 0 then 1 else 0x100 * Pow256(w - 1)
  }

  /** The `w` low-order bytes of `v`, least significant first. */
  function LittleEndian(v: nat, w: nat): (bs: seq<byte>)
    ensures |bs| == w
  {
    if w == 0 then [] else [v % 0x100] + LittleEndian(v / 0x100, w - 1)
  }

  /** The number a little-endian byte string stands for. */
  function Value(bs: seq<byte>): nat
  {
    if bs == [] then 0 else bs[0] + 0x100 * Value(bs[1..])
  }

  /** Numbers stored one after the other, `w` bytes each. */
  function Flatten(vs: seq<nat>, w: nat): (bs: seq<byte>)
    ensures |bs| == w * |vs|
  {
    if vs == [] then [] else Flatten(vs[..|vs| - 1], w) + LittleEndian(vs[|vs| - 1], w)
  }

  lemma FlattenSnoc(vs: seq<nat>, v: nat, w: nat)
    ensures Flatten(vs + [v], w) == Flatten(vs, w) + LittleEndian(v, w)
  {
    assert (vs + [v])[..|vs|] == vs;
  }

  lemma {:induction false} ValueBound(bs: seq<byte>)
    ensures Value(bs) < Pow256(|bs|)
  {
    if bs != [] {
      ValueBound(bs[1..]);
    }
  }

  /** Two byte strings of one length that stand for the same number are the same string. */
  lemma {:induction false} ValueInjective(a: seq<byte>, b: seq<byte>)
    requires |a| == |b| && Value(a) == Value(b)
    ensures a == b
  {
    if a != [] {
      ValueInjective(a[1..], b[1..]);
      assert a == [a[0]] + a[1..] && b == [b[0]] + b[1..];
    }
  }

  lemma MulAtLeast(k: int, d: int)
    requires k >= 1 && d > 0
    ensures k * d >= d
  {
  }

  lemma MulMonotone(a: int, b: int, d: nat)
    requires a <= b
    ensures a * d <= b * d
  {
  }

  lemma DivLess(x: nat, d: nat, q: nat)
    requires d > 0 && x < q * d
    ensures x / d < q
  {
    if x / d >= q {
      MulMonotone(q, x / d, d);
    }
  }

  lemma DivMonotone(a: nat, b: nat, d: nat)
    requires a <= b && d > 0
    ensures a / d <= b / d
  {
    var q := b / d;
    assert b < (q + 1) * d;
    DivLess(a, d, q + 1);
  }

  lemma DivModUnique(n: int, d: int, q: int, r: int)
    requires d > 0 && n == q * d + r && 0 <= r < d
    ensures n / d == q && n % d == r
  {
    var q' := n / d;
    assert q' * d + n % d == q * d + r;
    if q' > q {
      MulAtLeast(q' - q, d);
    } else if q' < q {
      MulAtLeast(q - q', d);
    }
  }

  lemma DivModParts(a: nat, b: nat) returns (q: nat, r: nat)
    requires b > 0
    ensures q == a / b && r == a % b && a == q * b + r && r < b
  {
    q, r := a / b, a % b;
  }

  /** Counting on from a wrapped number is counting on and then wrapping. */
  lemma NextModulo(v: nat, m: nat)
    requires m > 1
    ensures (v + 1) % m == (v % m + 1) % m
  {
    var q, r := DivModParts(v, m);
    if r + 1 < m {
      DivModUnique(v + 1, m, q, r + 1);
      DivModUnique(r + 1, m, 0, r + 1);
    } else {
      assert (q + 1) * m == q * m + m;
      DivModUnique(v + 1, m, q + 1, 0);
      DivModUnique(m, m, 1, 0);
    }
  }

  lemma LowByteFirst(v: nat, p: nat, t: nat)
    requires p > 0 && t == 0x100 * p
    ensures v % t == v % 0x100 + 0x100 * (v / 0x100 % p)
  {
    var high, low := v / 0x100, v % 0x100;
    var q, r := DivModParts(high, p);
    assert q * t == 0x100 * (q * p);
    DivModUnique(v, t, q, 0x100 * r + low);
  }

  /** Writing a number in `w` bytes and reading it back loses exactly the part above 256^w. */
  lemma {:induction false} ValueOfLittleEndian(v: nat, w: nat)
    ensures Value(LittleEndian(v, w)) == v % Pow256(w)
  {
    if w > 0 {
      ValueOfLittleEndian(v / 0x100, w - 1);
      LowByteFirst(v, Pow256(w - 1), Pow256(w));
      var low, rest := v % 0x100, LittleEndian(v / 0x100, w - 1);
      assert LittleEndian(v, w) == [low] + rest && ([low] + rest)[1..] == rest;
    }
  }

  lemma ReplaceLowByte(f: u16, u: byte)
    ensures f / 0x100 * 0x100 + u < 0x1_0000 && (f / 0x100 * 0x100 + u) % 0x100 == u
  {
  }

  lemma ValueOfTwo(lo: byte, hi: byte)
    ensures Value([lo, hi]) == lo + 0x100 * hi
  {
    assert [lo, hi][1..] == [hi];
    assert Value([hi]) == hi + 0x100 * Value([hi][1..]);
  }

  lemma Word16(v: u16)
    ensures LittleEndian(v, 2) == [v % 0x100, v / 0x100]
    ensures Value(LittleEndian(v, 2)) == v
  {
    assert LittleEndian(v / 0x100, 1) == [v / 0x100 % 0x100] + LittleEndian(v / 0x100 / 0x100, 0);
    ValueOfLittleEndian(v, 2);
    assert Pow256(2) == 0x1_0000 by {
      assert Pow256(1) == 0x100 * Pow256(0);
    }
  }
}
