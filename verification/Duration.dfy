/**
  Reading the 16-bit measurement timer while the timer interrupt counts it down: the double read
  of firmware/timer1-get-duration.c, byte by byte on an 8-bit machine, with the interrupt allowed
  between any two byte reads.
 */
module Duration {
  import opened Bytes
  import opened TimeSeries

  /** What two byte reads at different times yield. */
  function Torn(atLow: u16, atHigh: u16): u16 { atLow % 0x100 + 0x100 * (atHigh / 0x100) }

  /** The countdown that stops at zero, firmware/timer1-countdown-and-stop.c. */
  class CountdownTimer {
    var timer1Count: u16
    var origTimer1Count: u16
    var finished: bool
    /** Every value the counter has held, in order. */
    ghost var held: seq<u16>

    ghost predicate Valid()
      reads this
    {
      && finished == (timer1Count == 0) && timer1Count <= origTimer1Count
      && held != [] && held[|held| - 1] == timer1Count
    }

    /** Started with a value the guard of `timer1_init` lets through. */
    constructor (value: u16)
      requires value >= 2
      ensures Valid() && origTimer1Count == value && held == [value]
    {
      timer1Count, origTimer1Count, finished := value, value, false;
      held := [value];
    }

    method OnTimer()
      requires Valid()
      modifies this`timer1Count, this`finished, this`held
      ensures Valid() && old(held) <= held
      ensures timer1Count == if old(finished) then 0 else old(timer1Count) - 1
    {
      if !finished {
        timer1Count := U16(timer1Count - 1);
        if timer1Count == 0 {
          finished := true;
        }
        held := held + [timer1Count];
      }
    }

    method Interrupts(n: nat)
      requires Valid()
      modifies this`timer1Count, this`finished, this`held
      ensures Valid() && old(held) <= held && timer1Count <= old(timer1Count)
    {
      for i := 0 to n
        invariant Valid() && old(held) <= held && timer1Count <= old(timer1Count)
      {
        OnTimer();
      }
    }

    /** One 16-bit read: low byte, then high byte, `before` interrupts earlier and `between` in the middle. */
    method ReadCount(before: nat, between: nat) returns (v: u16, ghost low: u16, ghost high: u16, ghost at: nat)
      requires Valid()
      modifies this`timer1Count, this`finished, this`held
      ensures Valid() && old(held) <= held
      ensures old(timer1Count) >= low >= high == timer1Count && v == Torn(low, high)
      ensures |old(held)| - 1 <= at < |held| && held[at] == low
    {
      Interrupts(before);
      at := |held| - 1;
      low := timer1Count;
      var lo := timer1Count % 0x100;
      Interrupts(between);
      high := timer1Count;
      var hi := timer1Count / 0x100;
      v := lo + 0x100 * hi;
    }

    /**
      Whenever interrupts fire, the loop ends and the result is the start value minus a value the
      counter held during the call: `held[at]`.
     */
    method GetDuration(fires: nat -> nat) returns (duration: u16, ghost at: nat)
      requires Valid()
      modifies this`timer1Count, this`finished, this`held
      ensures Valid() && old(held) <= held
      ensures |old(held)| - 1 <= at < |held|
      ensures held[at] <= origTimer1Count && duration == origTimer1Count - held[at]
      ensures timer1Count <= held[at] <= old(timer1Count)
    {
      hide Torn;
      ghost var low0: u16, high0: u16, low1: u16, high1: u16;
      var a, b, n := 0, 0, 4;
      a, low0, high0, at := ReadCount(fires(0), fires(1));
      b := a;
      a, low1, high1, at := ReadCount(fires(2), fires(3));
      while a != b
        invariant Valid() && old(held) <= held
        invariant old(timer1Count) >= low0 >= high0 >= low1 >= high1 == timer1Count
        invariant b == Torn(low0, high0) && a == Torn(low1, high1)
        invariant |old(held)| - 1 <= at < |held| && held[at] == low1
        decreases low0 + low1
      {
        b := a;
        low0, high0 := low1, high1;
        a, low1, high1, at := ReadCount(fires(n), fires(n + 1));
        n := n + 2;
      }
      MatchingReads(low0, high0, low1, high1);
      duration := U16(origTimer1Count - a);
    }
  }

  /** Two torn reads of a falling counter that agree are the value at the second low byte. */
  lemma MatchingReads(low0: u16, high0: u16, low1: u16, high1: u16)
    requires low0 >= high0 >= low1 >= high1 && Torn(low0, high0) == Torn(low1, high1)
    ensures Torn(low1, high1) == low1
  {
    DivMonotone(high1, low1, 0x100);
    DivMonotone(low1, high0, 0x100);
    TornParts(low0, high0);
    TornParts(low1, high1);
  }

  lemma TornParts(low: u16, high: u16)
    ensures Torn(low, high) / 0x100 == high / 0x100 && Torn(low, high) % 0x100 == low % 0x100
  {
    DivModUnique(Torn(low, high), 0x100, high / 0x100, low % 0x100);
  }

  // ----- The reloading countdown of the Geiger time series -----

  /** Within one turn the counter has either fallen by the number of ticks or been reloaded once. */
  lemma CountdownWithinATurn(a: nat, b: nat, orig: nat, capacity: nat)
    requires orig >= 2 && a <= b <= orig * capacity && b - a <= orig
    ensures var x, y := Countdown(a, orig, capacity), Countdown(b, orig, capacity);
            x - y == b - a || y - x == orig - (b - a)
  {
    TurnParts(a, b, orig);
    if b == orig * capacity {
      DivModUnique(b, orig, capacity, 0);
    }
  }

  lemma TurnParts(a: nat, b: nat, orig: nat)
    requires orig >= 2 && a <= b <= a + orig
    ensures b % orig - a % orig == b - a || b % orig - a % orig == b - a - orig
  {
    var q, r := a / orig, a % orig;
    assert a == q * orig + r;
    if r + (b - a) < orig {
      DivModUnique(b, orig, q, r + (b - a));
    } else {
      assert (q + 1) * orig == q * orig + orig;
      DivModUnique(b, orig, q + 1, r + (b - a) - orig);
    }
  }

  /** A torn read whose two moments share their high byte is the value at the low byte. */
  lemma UntornRead(low: u16, high: u16)
    ensures low / 0x100 == high / 0x100 ==> Torn(low, high) == low
  {
  }

  /** The value arithmetic of `ReloadingReads`: the second low byte, or the first, was read untorn. */
  lemma MatchingReadsAroundReload(x1: u16, x2: u16, x3: u16, x4: u16)
    requires Torn(x1, x2) == Torn(x3, x4)
    requires || x1 >= x2 >= x3 >= x4
             || x2 >= x3 >= x4
             || (x4 >= x1 >= x2)
    ensures Torn(x3, x4) == x3 || Torn(x3, x4) == x1
  {
    hide Torn;
    TornParts(x1, x2);
    TornParts(x3, x4);
    UntornRead(x1, x2);
    UntornRead(x3, x4);
    if x2 >= x3 >= x4 {
      DivMonotone(x4, x3, 0x100);
      DivMonotone(x3, x2, 0x100);
    } else {
      DivMonotone(x2, x1, 0x100);
      DivMonotone(x1, x4, 0x100);
    }
  }

  /** A counter below 256 has no high byte to tear. */
  lemma SmallCounter(low: u16, high: u16)
    requires low < 0x100 && high < 0x100
    ensures Torn(low, high) == low
  {
  }

  /**
    With the counter reloading from one to `orig`, two torn reads that agree still yield the value
    held at one of their low bytes, as long as at most one full turn of the counter falls between
    the first byte read and the last, or `orig` fits one byte.
   */
  lemma ReloadingReads(t1: nat, t2: nat, t3: nat, t4: nat, orig: u16, capacity: nat) returns (t: nat)
    requires orig >= 2 && t1 <= t2 <= t3 <= t4 <= orig * capacity && (t4 - t1 <= orig || orig < 0x100)
    requires Torn(Left(t1, orig, capacity), Left(t2, orig, capacity))
        == Torn(Left(t3, orig, capacity), Left(t4, orig, capacity))
    ensures t == t1 || t == t3
    ensures Torn(Left(t3, orig, capacity), Left(t4, orig, capacity)) == Left(t, orig, capacity)
  {
    hide Torn, Countdown;
    var x1, x2 := Left(t1, orig, capacity), Left(t2, orig, capacity);
    var x3, x4 := Left(t3, orig, capacity), Left(t4, orig, capacity);
    if orig < 0x100 {
      SmallCounter(x3, x4);
      t := t3;
    } else {
      CountdownWithinATurn(t1, t2, orig, capacity);
      CountdownWithinATurn(t2, t3, orig, capacity);
      CountdownWithinATurn(t3, t4, orig, capacity);
      CountdownWithinATurn(t1, t4, orig, capacity);
      MatchingReadsAroundReload(x1, x2, x3, x4);
      t := if Torn(x3, x4) == x3 then t3 else t1;
    }
  }

  /** The countdown as the 16-bit register it is. */
  function Left(ticks: nat, orig: u16, capacity: nat): (c: u16)
    requires orig > 0
    ensures c == Countdown(ticks, orig, capacity) <= orig
  {
    Countdown(ticks, orig, capacity)
  }

  /** If two reads at these ticks agree, what they say was held between the first and the last. */
  ghost predicate ReadsRight(t1: nat, t2: nat, t3: nat, t4: nat, orig: u16, capacity: nat)
    requires orig > 0
  {
    var a := Torn(Left(t1, orig, capacity), Left(t2, orig, capacity));
    var b := Torn(Left(t3, orig, capacity), Left(t4, orig, capacity));
    a == b ==> exists t: nat :: t1 <= t <= t4 && b == Left(t, orig, capacity)
  }

  lemma CountdownAt(q: nat, r: nat, orig: u16, capacity: nat)
    requires r < orig && q * orig + r < orig * capacity
    ensures Left(q * orig + r, orig, capacity) == orig - r
  {
    DivModUnique(q * orig + r, orig, q, r);
  }

  lemma NeverZero(t: nat, orig: u16, capacity: nat)
    requires orig > 0 && t < orig * capacity
    ensures Left(t, orig, capacity) > 0
  {
  }

  /**
    One tick more than a full turn is too many for every counter that needs its high byte: the low
    byte of 256 and the high byte of 255 make zero, twice, and no zero was held.
   */
  lemma MoreThanATurnIsTooMuch(orig: u16, capacity: nat)
    requires orig >= 0x100 && capacity >= 2
    ensures var t1, t4 := orig - 0x100, 2 * orig - 0xff;
      && t4 - t1 == orig + 1 && t4 <= orig * capacity && !ReadsRight(t1, t1 + 1, t4 - 1, t4, orig, capacity)
  {
    var t1, t4 := orig - 0x100, 2 * orig - 0xff;
    MulMonotone(2, capacity, orig);
    CountdownAt(0, orig - 0x100, orig, capacity);
    CountdownAt(0, orig - 0xff, orig, capacity);
    CountdownAt(1, orig - 0x100, orig, capacity);
    CountdownAt(1, orig - 0xff, orig, capacity);
    assert Torn(0x100, 0xff) == 0;
    hide Left, Torn;
    forall t: nat | t1 <= t <= t4
      ensures Left(t, orig, capacity) > 0
    {
      NeverZero(t, orig, capacity);
    }
  }

  /**
    How many ticks may fall between the first and the last byte of two reads that agree: a full
    turn of the counter and no more, or any number when the counter fits one byte.
   */
  lemma TicksBetweenReads(orig: u16, capacity: nat, n: nat)
    requires orig >= 2 && capacity >= 2
    ensures (forall t1: nat, t2: nat, t3: nat, t4: nat | t1 <= t2 <= t3 <= t4 <= orig * capacity && t4 - t1 <= n ::
               ReadsRight(t1, t2, t3, t4, orig, capacity))
       <==> n <= orig || orig < 0x100
  {
    hide Left, Torn;
    if n <= orig || orig < 0x100 {
      forall t1: nat, t2: nat, t3: nat, t4: nat | t1 <= t2 <= t3 <= t4 <= orig * capacity && t4 - t1 <= n
        ensures ReadsRight(t1, t2, t3, t4, orig, capacity)
      {
        if Torn(Left(t1, orig, capacity), Left(t2, orig, capacity))
            == Torn(Left(t3, orig, capacity), Left(t4, orig, capacity)) {
          var t := ReloadingReads(t1, t2, t3, t4, orig, capacity);
        }
      }
    } else {
      MoreThanATurnIsTooMuch(orig, capacity);
    }
  }

  // ----- The loop around the reloading countdown -----

  /** Timer interrupts of a running series. */
  method Tick(series: GeigerSeries, n: nat)
    requires series.Valid() && series.Started() && !series.cleared
    modifies series, series.ring, series.ring.rbuf
    ensures series.Valid() && !series.cleared && series.origTimer1Count == old(series.origTimer1Count)
    ensures old(Ticks(series.events)) <= Ticks(series.events)
  {
    hide GeigerSeries.Valid;
    for i := 0 to n
      invariant series.Valid() && !series.cleared && series.origTimer1Count == old(series.origTimer1Count)
      invariant old(Ticks(series.events)) <= Ticks(series.events)
    {
      TicksSnoc(series.events, Timer);
      series.OnTimer();
    }
  }

  /** The register between two interrupts, and a bound on the ticks that is never passed. */
  lemma RegisterIsLeft(series: GeigerSeries)
    requires series.Valid() && series.Started()
    ensures series.timer1Count == Left(Ticks(series.events), series.origTimer1Count, series.Capacity())
    ensures Ticks(series.events) <= series.origTimer1Count * series.Capacity()
  {
  }

  /** One 16-bit read of the running countdown; `low` and `high` are the ticks at its two bytes. */
  method ReadSeries(series: GeigerSeries, before: nat, between: nat) returns (v: u16, ghost low: nat, ghost high: nat)
    requires series.Valid() && series.Started() && !series.cleared
    modifies series, series.ring, series.ring.rbuf
    ensures series.Valid() && !series.cleared && series.origTimer1Count == old(series.origTimer1Count)
    ensures old(Ticks(series.events)) <= low <= high
        == Ticks(series.events) <= series.origTimer1Count * series.Capacity()
    ensures v == Torn(Left(low, series.origTimer1Count, series.Capacity()),
                      Left(high, series.origTimer1Count, series.Capacity()))
  {
    hide GeigerSeries.Valid, Left, Ticks;
    Tick(series, before);
    RegisterIsLeft(series);
    low := Ticks(series.events);
    var lo := series.timer1Count % 0x100;
    Tick(series, between);
    RegisterIsLeft(series);
    high := Ticks(series.events);
    var hi := series.timer1Count / 0x100;
    v := lo + 0x100 * hi;
  }

  /**
    The loop of `get_duration` around the reloading countdown, with any number of ticks before
    every byte read. It ends, because the ticks of a measurement do; and the result is the start
    value minus the register at a tick between the first and the last byte of the two reads that
    agreed, if no more than a full turn fell between these or the start value fits one byte.
   */
  method GetSeriesDuration(series: GeigerSeries, fires: nat -> nat)
      returns (duration: u16, ghost first: nat, ghost last: nat, ghost at: nat)
    requires series.Valid() && series.Started() && !series.cleared
    modifies series, series.ring, series.ring.rbuf
    ensures series.Valid() && series.origTimer1Count == old(series.origTimer1Count)
    ensures old(Ticks(series.events)) <= first <= last == Ticks(series.events)
    ensures last - first <= series.origTimer1Count || series.origTimer1Count < 0x100 ==>
              first <= at <= last && duration
                  == series.origTimer1Count - Left(at, series.origTimer1Count, series.Capacity())
  {
    hide GeigerSeries.Valid, Torn, Left;
    ghost var orig, capacity := series.origTimer1Count, series.Capacity();
    ghost var low0: nat, high0: nat, low1: nat, high1: nat;
    var a, b, n := 0, 0, 4;
    a, low0, high0 := ReadSeries(series, fires(0), fires(1));
    b := a;
    a, low1, high1 := ReadSeries(series, fires(2), fires(3));
    while a != b
      invariant series.Valid() && !series.cleared && series.origTimer1Count == orig
      invariant old(Ticks(series.events)) <= low0 <= high0 <= low1 <= high1 == Ticks(series.events) <= orig * capacity
      invariant b == Torn(Left(low0, orig, capacity), Left(high0, orig, capacity))
      invariant a == Torn(Left(low1, orig, capacity), Left(high1, orig, capacity))
      decreases orig * capacity - low0 + orig * capacity - low1
    {
      b := a;
      low0, high0 := low1, high1;
      a, low1, high1 := ReadSeries(series, fires(n), fires(n + 1));
      n := n + 2;
    }
    first, last, at := low0, high1, low1;
    if last - first <= orig || orig < 0x100 {
      at := ReloadingReads(low0, high0, low1, high1, orig, capacity);
    }
    duration := U16(series.origTimer1Count - a);
  }
}
