/** The display's decimal formatter, firmware/freemcan-lcd.c. */
module Decimal {
  import opened Bytes

  const BLANK: byte := 0x20
  const POINT: byte := 0x2e

  /** The powers the formatter subtracts, for digits 0 to 4 of six. */
  const BASE_10: seq<u32> := [100000, 10000, 1000, 100, 10]

  function Pow10(n: nat): (p: nat)
    ensures p > 0
  {
    if n == 0 then 1 else 10 * Pow10(n - 1)
  }

  /** The digit a power of ten stands for. */
  function Digit(value: nat, p: nat): (n: nat)
    requires p > 0
    ensures n <= 9
  {
    value / p % 10
  }

  /** Character `k` of `places`: a leading zero is blank unless it stands right before the point or the end. */
  function Glyph(value: nat, pos: nat, places: nat, k: nat): (c: byte)
    requires pos <= places && k < places
  {
    if k + 1 + pos < places && value < Pow10(places - 1 - k) then BLANK
    else 0x30 + Digit(value, Pow10(places - 1 - k))
  }

  /** The first `k` characters, with the point among them once it has been passed. */
  function Rendered(value: nat, pos: nat, places: nat, k: nat): (s: seq<byte>)
    requires pos <= places && k <= places
    ensures |s| == if pos > 0 && k > places - pos then k + 1 else k
  {
    if k == 0 then []
    else
      Rendered(value, pos, places, k - 1)
        + (if pos > 0 && k - 1 == places - pos then [POINT] else [])
        + [Glyph(value, pos, places, k - 1)]
  }

  lemma Pow10Values()
    ensures Pow10(1) == 10 && Pow10(2) == 100 && Pow10(3) == 1000 && Pow10(4) == 10000 && Pow10(5) == 100000
        && Pow10(6) == 1000000
  {
    assert Pow10(3) == 10 * Pow10(2) && Pow10(2) == 10 * Pow10(1) && Pow10(1) == 10 * Pow10(0);
    assert Pow10(6) == 10 * Pow10(5) && Pow10(5) == 10 * Pow10(4) && Pow10(4) == 10 * Pow10(3);
  }

  lemma Regroup(q: nat, d: nat, p: nat, t: nat)
    requires t == 10 * p
    ensures (10 * q + d) * p == q * t + d * p
  {
    assert q * t == q * p * 10;
  }

  lemma SplitParts(value: nat, p: nat, t: nat, q: nat, rest: nat, d: nat, r: nat)
    requires p > 0 && t == 10 * p && rest < t && r < p
    requires value == q * t + rest && rest == d * p + r
    ensures value / p == 10 * q + d && value % p == r && d <= 9
  {
    if d >= 10 {
      MulMonotone(10, d, p);
      assert false;
    }
    Regroup(q, d, p, t);
    DivModUnique(value, p, 10 * q + d, r);
  }

  /** Dividing by `p` is dividing by ten times `p` and then taking one digit from the rest. */
  lemma SplitDigit(value: nat, p: nat, t: nat, rest: nat)
    requires p > 0 && t == 10 * p && rest == value % t
    ensures value / p == 10 * (value / t) + rest / p
    ensures value % p == rest % p
    ensures rest / p <= 9
  {
    var q, rest' := DivModParts(value, t);
    var d, r := DivModParts(rest, p);
    SplitParts(value, p, t, q, rest, d, r);
  }

  lemma AtLeastOne(value: nat, p: nat)
    requires p > 0
    ensures value / p > 0 <==> value >= p
  {
    if value < p {
      DivModUnique(value, p, 0, value);
    } else {
      DivMonotone(p, value, p);
      DivModUnique(p, p, 1, 0);
    }
  }

  /** One digit comes off the front. */
  lemma NextDigit(value: nat, rest: nat, digit: nat, p: nat)
    requires p > 0 && rest == value % (10 * p) && digit == rest / p
    ensures digit == value / p % 10 && rest % p == value % p && digit <= 9
    ensures value >= p <==> value >= 10 * p || digit > 0
  {
    var t := 10 * p;
    SplitDigit(value, p, t, rest);
    AtLeastOne(value, p);
    AtLeastOne(value, t);
    DivModUnique(value / p, 10, value / t, digit);
  }

  /** Repeated subtraction is division. */
  method CountSubtractions(value: u32, base: u32) returns (num: nat, rest: u32)
    requires base > 0
    ensures num == value / base && rest == value % base
  {
    num, rest := 0, value;
    while rest >= base
      invariant value == num * base + rest
    {
      rest := rest - base;
      num := num + 1;
    }
    DivModUnique(value, base, num, rest);
  }

  /** One digit of the loop: the point first when it belongs here, then digit, blank or zero. */
  method PutDigit(out: seq<byte>, num: nat, tmp: nat, i: nat, pos: nat) returns (next: seq<byte>)
    requires i < 5 && num <= 9
    ensures next == out + (if i == 6 - pos && pos > 1 then [POINT] else [])
                    + [if tmp > 0 then 0x30 + num else if i < 5 - pos then BLANK else 0x30]
  {
    var digits := 5;
    next := out;
    if i == digits - pos + 1 && pos > 1 {
      next := next + [POINT];
    }
    if tmp > 0 {
      next := next + [0x30 + num];
    } else if i < digits - pos {
      next := next + [BLANK];
    } else {
      next := next + [0x30];
    }
  }

  /** The digit the loop puts at position `k` is the glyph the text has there. */
  lemma PutsGlyph(value: nat, pos: nat, places: nat, k: nat, num: nat, tmp: nat)
    requires pos <= places && k + 1 < places <= 6
    requires num == Digit(value, Pow10(places - 1 - k))
    requires tmp > 0 <==> value >= Pow10(places - 1 - k)
    ensures var i := k + 6 - places;
      Rendered(value, pos, places, k + 1)
        == Rendered(value, pos, places, k) + (if i == 6 - pos && pos > 1 then [POINT] else [])
           + [if tmp > 0 then 0x30 + num else if i < 5 - pos then BLANK else 0x30]
  {
    hide Pow10;
    if tmp == 0 {
      NoDigitAbove(value, Pow10(places - 1 - k));
    }
    hide Digit;
  }

  lemma NoDigitAbove(value: nat, p: nat)
    requires value < p
    ensures Digit(value, p) == 0
  {
    AtLeastOne(value, p);
  }

  /** Digits from the front by repeated subtraction, the last digit without, a terminating nul. */
  method UintToAscii(value: u32, pos: nat, places: nat) returns (out: seq<byte>)
    requires 1 <= places <= 6 && pos <= places && value < Pow10(places)
    ensures out == Rendered(value, pos, places, places) + [0]
  {
    hide Glyph, Rendered, Digit;
    DivModUnique(value, Pow10(places), 0, value);
    RenderedEnds(value, pos, places);
    var digits := 5;
    var rest: u32 := value;
    var tmp := 0;
    out := [];
    var i := digits + 1 - places;
    ghost var k := 0;
    while i < digits
      invariant 0 <= k < places && i == k + 6 - places
      invariant rest == value % Pow10(places - k)
      invariant tmp > 0 <==> value >= Pow10(places - k)
      invariant out == Rendered(value, pos, places, k)
    {
      hide Pow10;
      var num, left := CountSubtractions(rest, BASE_10[i]);
      NextPower(value, rest, num, i);
      rest := left;
      tmp := tmp + num;
      PutsGlyph(value, pos, places, k, num, tmp);
      out := PutDigit(out, num, tmp, i, pos);
      i := i + 1;
      k := k + 1;
    }
    LastDigit(value, rest);
    if pos == 1 {
      out := out + [POINT];
    }
    out := out + [0x30 + rest];
    out := out + [0];
  }

  lemma LastDigit(value: nat, rest: nat)
    requires rest == value % Pow10(1)
    ensures rest == Digit(value, 1)
  {
    assert Pow10(1) == 10 * Pow10(0) && Pow10(0) == 1;
    DivModUnique(value, 1, value, 0);
  }

  lemma NextPower(value: nat, rest: nat, num: nat, i: nat)
    requires i < 5 && rest == value % Pow10(6 - i) && num == rest / BASE_10[i]
    ensures BASE_10[i] == Pow10(5 - i)
    ensures num == Digit(value, Pow10(5 - i)) && num <= 9
    ensures rest % Pow10(5 - i) == value % Pow10(5 - i)
    ensures value >= Pow10(5 - i) <==> value >= Pow10(6 - i) || num > 0
  {
    Pow10Values();
    assert Pow10(6 - i) == 10 * Pow10(5 - i);
    NextDigit(value, rest, num, Pow10(5 - i));
  }

  /** How the text begins and how it ends. */
  lemma RenderedEnds(value: nat, pos: nat, places: nat)
    requires pos <= places && places >= 1
    ensures Rendered(value, pos, places, 0) == []
    ensures Rendered(value, pos, places, places)
            == Rendered(value, pos, places, places - 1) + (if pos == 1 then [POINT] else [])
               + [0x30 + Digit(value, 1)]
  {
    assert Pow10(0) == 1;
  }

  // ----- What the display shows -----

  predicate IsDigit(c: byte) { 0x30 <= c <= 0x39 }

  /** The number a reader sees: digits count, blanks and the point do not. */
  function Read(s: seq<byte>): nat
  {
    if s == [] then 0
    else
      var head, c := Read(s[..|s| - 1]), s[|s| - 1];
      if IsDigit(c) then 10 * head + (c - 0x30) else head
  }

  lemma ReadSnoc(s: seq<byte>, c: byte)
    ensures Read(s + [c]) == if IsDigit(c) then 10 * Read(s) + (c - 0x30) else Read(s)
  {
    assert (s + [c])[..|s|] == s;
  }

  /** What one more character of the text adds to the number read so far. */
  lemma ReadStep(value: nat, pos: nat, places: nat, k: nat)
    requires pos <= places && k < places
    ensures var head := Read(Rendered(value, pos, places, k)); var g := Glyph(value, pos, places, k);
      Read(Rendered(value, pos, places, k + 1)) == if IsDigit(g) then 10 * head + (g - 0x30) else head
  {
    hide Glyph, Pow10, Read;
    var before, g := Rendered(value, pos, places, k), Glyph(value, pos, places, k);
    ReadSnoc(before, POINT);
    ReadSnoc(before, g);
    ReadSnoc(before + [POINT], g);
    assert before + [] == before;
  }

  /** A glyph is the digit of its place, and is blank only where that digit is a leading zero. */
  lemma GlyphDigit(value: nat, pos: nat, places: nat, k: nat)
    requires pos <= places && k < places
    ensures var g := Glyph(value, pos, places, k); var rest := value / Pow10(places - k);
      value / Pow10(places - 1 - k) == if IsDigit(g) then 10 * rest + (g - 0x30) else rest
  {
    var p := Pow10(places - 1 - k);
    assert Pow10(places - k) == 10 * p;
    hide Pow10;
    var rest := value % (10 * p);
    NextDigit(value, rest, rest / p, p);
    SplitDigit(value, p, 10 * p, rest);
    AtLeastOne(value, p);
  }

  lemma {:induction false} ReadRendered(value: nat, pos: nat, places: nat, k: nat)
    requires pos <= places && k <= places && value < Pow10(places)
    ensures Read(Rendered(value, pos, places, k)) == value / Pow10(places - k)
  {
    if k > 0 {
      hide *;
      ReadRendered(value, pos, places, k - 1);
      ReadStep(value, pos, places, k - 1);
      GlyphDigit(value, pos, places, k - 1);
    } else {
      hide Pow10;
      assert value / Pow10(places) == 0;
    }
  }

  /**
    Formatting round trip: the text reads back as the value, has one character per digit plus a
    point when asked for, exactly `pos` digits after the point, and blanks exactly in place of the
    leading zeros before the units digit.
   */
  lemma FormatRoundTrip(value: nat, pos: nat, places: nat)
    requires pos <= places && 1 <= places && value < Pow10(places)
    ensures var s := Rendered(value, pos, places, places);
      && Read(s) == value
      && |s| == places + (if pos > 0 then 1 else 0)
      && (pos > 0 ==> s[places - pos] == POINT)
      && (forall j | places - pos < j < |s| :: IsDigit(s[j]))
      && (forall j | 0 <= j < places - pos ::
            if j + 1 < places - pos && value < Pow10(places - 1 - j) then s[j] == BLANK else IsDigit(s[j]))
      && (forall a, b | 0 <= a < b < places - pos && s[b] == BLANK :: s[a] == BLANK)
  {
    ReadRendered(value, pos, places, places);
    RenderedShape(value, pos, places, places);
    var s := Rendered(value, pos, places, places);
    forall a, b | 0 <= a < b < places - pos && s[b] == BLANK
      ensures s[a] == BLANK
    {
      assert s[b] == Glyph(value, pos, places, b) && s[a] == Glyph(value, pos, places, a);
      Pow10Monotone(places - 1 - b, places - 1 - a);
    }
    forall j | 0 <= j < places - pos
      ensures if j + 1 < places - pos && value < Pow10(places - 1 - j) then s[j] == BLANK else IsDigit(s[j])
    {
      assert s[j] == Glyph(value, pos, places, j);
    }
  }

  lemma {:induction false} Pow10Monotone(a: nat, b: nat)
    requires a <= b
    ensures Pow10(a) <= Pow10(b)
  {
    if a < b {
      Pow10Monotone(a, b - 1);
    }
  }

  lemma {:induction false} RenderedShape(value: nat, pos: nat, places: nat, k: nat)
    requires pos <= places && k <= places
    ensures var s := Rendered(value, pos, places, k);
      && (forall j | 0 <= j < |s| && j < places - pos :: s[j] == Glyph(value, pos, places, j))
      && (pos > 0 && k > places - pos ==> s[places - pos] == POINT)
      && (forall j | places - pos < j < |s| :: IsDigit(s[j]))
  {
    if k > 0 {
      RenderedShape(value, pos, places, k - 1);
    }
  }
}
