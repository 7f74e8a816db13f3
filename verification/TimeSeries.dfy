/**
  The interrupt side of the Geiger time series, firmware/perso-geiger-time-series.c. What the
  interrupts leave in memory is described as a closed form of the history of interrupts.
 */
module TimeSeries {
  import opened Bytes
  import opened RingBuffer

  /** A count event or a timer tick. */
  datatype Irq = Int0 | Timer

  function Ticks(events: seq<Irq>): nat
  {
    if events == [] then 0
    else Ticks(events[..|events| - 1]) + (if events[|events| - 1] == Timer then 1 else 0)
  }

  /** The number of count events in slot `k`, each slot lasting `orig` ticks. */
  function Counts(events: seq<Irq>, orig: nat, k: nat): nat
    requires orig > 0
  {
    if events == [] then 0
    else
      var n := |events| - 1;
      Counts(events[..n], orig, k) + (if events[n] == Int0 && Ticks(events[..n]) / orig == k then 1 else 0)
  }

  /** Count events since the last tick. */
  function Pending(events: seq<Irq>): nat
  {
    if events == [] then 0
    else if events[|events| - 1] == Timer then 0
    else Pending(events[..|events| - 1]) + 1
  }

  /** The samples the timer interrupt has pushed into the ring buffer: the count events of each tick. */
  function PerTick(events: seq<Irq>): seq<u16>
  {
    if events == [] then []
    else
      var init := events[..|events| - 1];
      if events[|events| - 1] == Timer then PerTick(init) + [U16(U32(Pending(init)))] else PerTick(init)
  }

  /** The slot being counted, and how many slots the table holds data of. */
  function Index(events: seq<Irq>, orig: nat): nat
    requires orig > 0
  {
    Ticks(events) / orig
  }

  function Elements(events: seq<Irq>, orig: nat, capacity: nat): nat
    requires orig > 0
  {
    if Index(events, orig) < capacity then Index(events, orig) + 1 else capacity
  }

  /** The countdown after `ticks` ticks: reloaded when a slot ends, zero when the last one does. */
  function Countdown(ticks: nat, orig: nat, capacity: nat): nat
    requires orig > 0
  {
    if ticks == orig * capacity then 0 else orig - ticks % orig
  }

  predicate Full(events: seq<Irq>, orig: nat, capacity: nat) { Ticks(events) == orig * capacity }

  /** The timer interrupt does nothing once the table is full, so no tick is recorded after that. */
  predicate Feasible(events: seq<Irq>, orig: nat, capacity: nat) { Ticks(events) <= orig * capacity }

  /** The rounded end pointer, as a byte offset, for elements of `width` bytes in a table of `bytes` bytes. */
  function TableEnd(bytes: nat, width: nat): int { bytes - (width - 1) }

  /** The rounded comparison admits a write exactly when the whole element fits. */
  lemma EndTestIsExact(bytes: nat, width: nat, index: nat)
    requires width > 0
    ensures width * index < TableEnd(bytes, width) <==> width * index + width <= bytes
    ensures width * index + width <= bytes <==> index < bytes / width
  {
    var q := bytes / width;
    assert bytes == q * width + bytes % width;
    if index < q {
      assert width * (index + 1) <= width * q;
    } else {
      assert width * index >= width * q;
    }
  }

  lemma TicksSnoc(events: seq<Irq>, e: Irq)
    ensures Ticks(events + [e]) == Ticks(events) + (if e == Timer then 1 else 0)
    ensures Pending(events + [e]) == if e == Timer then 0 else Pending(events) + 1
    ensures PerTick(events + [e]) == if e
        == Timer then PerTick(events) + [U16(U32(Pending(events)))] else PerTick(events)
  {
    assert (events + [e])[..|events|] == events;
  }

  lemma CountsSnoc(events: seq<Irq>, e: Irq, orig: nat, k: nat)
    requires orig > 0
    ensures Counts(events + [e], orig, k) ==
              Counts(events, orig, k) + (if e == Int0 && Index(events, orig) == k then 1 else 0)
  {
    assert (events + [e])[..|events|] == events;
  }

  /** One tick moves the index and the countdown together. */
  lemma TickArithmetic(ticks: nat, orig: nat)
    requires orig >= 2
    ensures var t := ticks + 1;
            if ticks % orig == orig - 1 then t / orig == ticks / orig + 1 && t % orig == 0
            else t / orig == ticks / orig && t % orig == ticks % orig + 1
  {
    var q, r := ticks / orig, ticks % orig;
    assert ticks == q * orig + r;
    if r == orig - 1 {
      assert (q + 1) * orig == q * orig + orig;
      DivModUnique(ticks + 1, orig, q + 1, 0);
    } else {
      DivModUnique(ticks + 1, orig, q, r + 1);
    }
  }

  /** Conservation: the slots of the table and the events that came too late add up to all count events. */
  function SumCounts(events: seq<Irq>, orig: nat, n: nat): nat
    requires orig > 0
  {
    if n == 0 then 0 else SumCounts(events, orig, n - 1) + Counts(events, orig, n - 1)
  }

  function CountEvents(events: seq<Irq>): nat
  {
    if events == [] then 0 else CountEvents(events[..|events| - 1]) + (if events[|events| - 1] == Int0 then 1 else 0)
  }

  lemma {:induction false} SumCountsSnoc(events: seq<Irq>, e: Irq, orig: nat, n: nat)
    requires orig > 0
    ensures SumCounts(events + [e], orig, n) ==
              SumCounts(events, orig, n) + (if e == Int0 && Index(events, orig) < n then 1 else 0)
  {
    if n > 0 {
      SumCountsSnoc(events, e, orig, n - 1);
      CountsSnoc(events, e, orig, n - 1);
    }
  }

  lemma CountsConserved(events: seq<Irq>, orig: nat, capacity: nat)
    requires orig > 0 && Feasible(events, orig, capacity)
    ensures SumCounts(events, orig, Elements(events, orig, capacity))
              + (if Full(events, orig, capacity) then Counts(events, orig, capacity) else 0) == CountEvents(events)
  {
    ConservedUpTo(events, orig, Index(events, orig) + 1);
    IndexInRange(events, orig, capacity);
  }

  /** The slot being counted lies in the table exactly until the table is full. */
  lemma IndexInRange(events: seq<Irq>, orig: nat, capacity: nat)
    requires orig > 0 && Feasible(events, orig, capacity)
    ensures Index(events, orig) < capacity <==> !Full(events, orig, capacity)
    ensures Full(events, orig, capacity) ==> Index(events, orig) == capacity
  {
    if Full(events, orig, capacity) {
      DivModUnique(Ticks(events), orig, capacity, 0);
    } else {
      DivLess(Ticks(events), orig, capacity);
    }
  }

  lemma {:induction false} ConservedUpTo(events: seq<Irq>, orig: nat, n: nat)
    requires orig > 0 && n > Index(events, orig)
    ensures SumCounts(events, orig, n) == CountEvents(events)
    decreases |events|
  {
    if events == [] {
      NothingCounted(orig, n);
    } else {
      var m := |events| - 1;
      var init, e := events[..m], events[m];
      assert events == init + [e];
      TicksSnoc(init, e);
      DivMonotone(Ticks(init), Ticks(events), orig);
      ConservedUpTo(init, orig, n);
      SumCountsSnoc(init, e, orig, n);
    }
  }

  lemma {:induction false} NothingCounted(orig: nat, n: nat)
    requires orig > 0
    ensures SumCounts([], orig, n) == 0
  {
    if n > 0 {
      NothingCounted(orig, n - 1);
    }
  }

  /** Count events of `n` ticks from tick `from` on. */
  function SumTicks(events: seq<Irq>, from: nat, n: nat): nat
  {
    if n == 0 then 0 else SumTicks(events, from, n - 1) + Counts(events, 1, from + n - 1)
  }

  /** The display's samples are the count events of each tick, and what is pending those of the tick to come. */
  lemma {:induction false} SamplesAreTicks(events: seq<Irq>)
    ensures |PerTick(events)| == Ticks(events) && Pending(events) == Counts(events, 1, Ticks(events))
    ensures forall j | 0 <= j < |PerTick(events)| :: PerTick(events)[j] == U16(Counts(events, 1, j))
  {
    if events == [] {
    } else {
      var n := |events| - 1;
      var init, e := events[..n], events[n];
      assert events == init + [e];
      SamplesAreTicks(init);
      TicksSnoc(init, e);
      NotYet(init, Ticks(init) + 1);
      WordOfDoubleWord(Pending(init));
      forall j: nat
        ensures Counts(events, 1, j) == Counts(init, 1, j) + (if e == Int0 && Ticks(init) == j then 1 else 0)
      {
        CountsSnoc(init, e, 1, j);
      }
      hide Counts, Ticks, Pending, PerTick, U16, U32;
    }
  }

  lemma WordOfDoubleWord(x: nat)
    ensures U16(U32(x)) == U16(x)
  {
    assert x == x / 0x1_0000_0000 * 0x1_0000 * 0x1_0000 + U32(x);
  }

  /** Nothing is counted in ticks to come. */
  lemma {:induction false} NotYet(events: seq<Irq>, j: nat)
    requires j > Ticks(events)
    ensures Counts(events, 1, j) == 0
  {
    if events != [] {
      var n := |events| - 1;
      assert events == events[..n] + [events[n]];
      TicksSnoc(events[..n], events[n]);
      CountsSnoc(events[..n], events[n], 1, j);
      NotYet(events[..n], j);
    }
  }

  lemma {:induction false} SumTicksSnoc(events: seq<Irq>, e: Irq, from: nat, n: nat)
    ensures SumTicks(events + [e], from, n) ==
              SumTicks(events, from, n) + (if e == Int0 && from <= Ticks(events) < from + n then 1 else 0)
  {
    if n > 0 {
      SumTicksSnoc(events, e, from, n - 1);
      CountsSnoc(events, e, 1, from + n - 1);
    }
  }

  /** Table and display agree: a slot counts what its ticks count, before either wraps. */
  lemma {:induction false} SlotIsItsTicks(events: seq<Irq>, orig: nat, k: nat)
    requires orig > 0
    ensures Counts(events, orig, k) == SumTicks(events, k * orig, orig)
  {
    if events == [] {
      NothingInTicks(k * orig, orig);
    } else {
      var n := |events| - 1;
      var init, e := events[..n], events[n];
      assert events == init + [e];
      SlotIsItsTicks(init, orig, k);
      CountsSnoc(init, e, orig, k);
      SumTicksSnoc(init, e, k * orig, orig);
      SlotOfTick(Ticks(init), orig, k);
    }
  }

  lemma {:induction false} NothingInTicks(from: nat, n: nat)
    ensures SumTicks([], from, n) == 0
  {
    if n > 0 {
      NothingInTicks(from, n - 1);
    }
  }

  lemma SlotOfTick(ticks: nat, orig: nat, k: nat)
    requires orig > 0
    ensures ticks / orig == k <==> k * orig <= ticks < k * orig + orig
  {
    var q, r := DivModParts(ticks, orig);
    if k * orig <= ticks < k * orig + orig {
      DivModUnique(ticks, orig, k, ticks - k * orig);
    }
  }

  lemma WrapSteps(n: nat)
    ensures U16(U16(n) + 1) == U16(n + 1) && U32(U32(n) + 1) == U32(n + 1)
  {
    NextModulo(n, 0x1_0000);
    NextModulo(n, 0x1_0000_0000);
  }

  /** A count event leaves the clockwork alone. */
  lemma OneMoreCount(events: seq<Irq>, orig: nat, capacity: nat)
    requires orig > 0
    ensures var later := events + [Int0];
      && Index(later, orig) == Index(events, orig)
          && Elements(later, orig, capacity) == Elements(events, orig, capacity)
      && Countdown(Ticks(later), orig, capacity) == Countdown(Ticks(events), orig, capacity)
      && Full(later, orig, capacity) == Full(events, orig, capacity)
      && Feasible(later, orig, capacity) == Feasible(events, orig, capacity)
  {
    TicksSnoc(events, Int0);
  }

  /** What one more tick does to the closed form: count down, open the next slot, or fill the table. */
  lemma TickClosedForm(events: seq<Irq>, orig: nat, capacity: nat)
    requires orig >= 2 && Feasible(events, orig, capacity) && !Full(events, orig, capacity)
    ensures var later := events + [Timer];
      var left := Countdown(Ticks(events), orig, capacity);
      && left >= 1 && Feasible(later, orig, capacity)
      && (left > 1 ==>
          && Index(later, orig) == Index(events, orig) && Countdown(Ticks(later), orig, capacity) == left - 1
          && !Full(later, orig, capacity))
      && (left == 1 ==>
          && Index(later, orig) == Index(events, orig) + 1
          && Full(later, orig, capacity) == (Index(later, orig) >= capacity)
          && Countdown(Ticks(later), orig, capacity) == if Index(later, orig) < capacity then orig else 0)
      && Elements(later, orig, capacity) ==
           Elements(events, orig, capacity) + (if left == 1 && Index(later, orig) < capacity then 1 else 0)
  {
    TicksSnoc(events, Timer);
    TickArithmetic(Ticks(events), orig);
    IndexInRange(events, orig, capacity);
    IndexInRange(events + [Timer], orig, capacity);
  }

  /** The Geiger personality's interrupt state: the table, its pointers, the countdown and the finish flag. */
  class GeigerSeries {
    const table: array<u16>
    const tableBytes: u16
    const ring: Ring
    /** Element index of the current table cell. */
    var tableCur: nat
    var size: nat
    var timer1Count: u16
    var origTimer1Count: u16
    var finished: bool
    var accuCounts: u32

    ghost var events: seq<Irq>
    /** The main loop has taken note of the finish flag; interrupts are off by then. */
    ghost var cleared: bool

    function Capacity(): nat { tableBytes / 2 }

    ghost predicate Shape()
      reads this, ring, ring.rbuf
    {
      && table.Length == Capacity() && table != ring.rbuf && 1 <= Capacity() && tableBytes < 0xff00
      && ring.Valid() && ring.history == seq(NUM_BUF_MAX, _ => 0) + PerTick(events)
      && accuCounts == U32(Pending(events))
    }

    ghost predicate Started()
      reads this
    {
      origTimer1Count >= 2
    }

    /** The memory is the closed form of the history. */
    ghost predicate Valid()
      reads this, table, ring, ring.rbuf
    {
      && Shape()
      && (Started() ==>
          && Feasible(events, origTimer1Count, Capacity())
          && tableCur == Index(events, origTimer1Count)
          && timer1Count == Countdown(Ticks(events), origTimer1Count, Capacity())
          && size == 2 * Elements(events, origTimer1Count, Capacity())
          && finished == (Full(events, origTimer1Count, Capacity()) && !cleared)
          && forall k | 0 <= k < table.Length :: table[k] == U16(Counts(events, origTimer1Count, k)))
      && (!Started() ==>
          && events == [] && tableCur == 0 && size == 2 && !finished && !cleared
          && origTimer1Count == timer1Count == 0
          && forall k | 0 <= k < table.Length :: table[k] == 0)
    }

    /** Reset state; the linker script makes every table at least a kilobyte. */
    constructor (tableBytes: u16)
      requires 1024 <= tableBytes < 0xff00
      ensures Valid() && fresh(table) && fresh(ring) && fresh(ring.rbuf)
      ensures this.tableBytes == tableBytes && events == [] && !Started()
    {
      this.tableBytes := tableBytes;
      table := new u16[tableBytes / 2](_ => 0);
      ring := new Ring();
      tableCur, size := 0, 2;
      timer1Count, origTimer1Count, finished := 0, 0, false;
      accuCounts := 0;
      events, cleared := [], false;
    }

    /** Loads the countdown; the guard against values below two is the caller's. */
    method Start(value: u16)
      requires Valid() && !Started() && value >= 2
      modifies this`timer1Count, this`origTimer1Count
      ensures Valid() && origTimer1Count == value
    {
      origTimer1Count := value;
      timer1Count := value;
      assert Counts([], value, 0) == 0;
    }

    /** The main loop's reaction to the flag, with interrupts off. */
    method ClearFinished()
      requires Valid()
      modifies this`finished, this`cleared
      ensures Valid() && !finished && (Started() ==> cleared)
    {
      finished := false;
      cleared := Started();
    }

    /** The first `n` cells as the bytes they occupy. */
    method TableData(n: nat) returns (data: seq<byte>)
      requires n <= table.Length
      ensures data == Flatten(table[..n], 2)
    {
      data := [];
      for k := 0 to n
        invariant data == Flatten(table[..k], 2)
      {
        FlattenSnoc(table[..k], table[k], 2);
        assert table[..k + 1] == table[..k] + [table[k]];
        data := data + LittleEndian(table[k], 2);
      }
    }

    /** A count event. */
    method OnInt0()
      requires Valid() && Started()
      modifies this`accuCounts, this`events, table
      ensures Valid() && finished == old(finished) && events == old(events) + [Int0]
    {
      hide Counts, Ticks, Pending, PerTick, U16, U32, Index, Countdown, Elements, Full, Feasible;
      WrapSteps(Pending(events));
      IndexInRange(events, origTimer1Count, Capacity());
      OneMoreCount(events, origTimer1Count, Capacity());
      accuCounts := U32(accuCounts + 1);
      EndTestIsExact(tableBytes, 2, tableCur);
      if 2 * tableCur < TableEnd(tableBytes, 2) {
        var cell: int := table[tableCur];
        table[tableCur] := U16(cell + 1);
      }
      TicksSnoc(events, Int0);
      forall k | 0 <= k < table.Length
        ensures table[k] == U16(Counts(events + [Int0], origTimer1Count, k))
      {
        CountsSnoc(events, Int0, origTimer1Count, k);
        WrapSteps(Counts(events, origTimer1Count, k));
      }
      events := events + [Int0];
    }

    /** A timer tick; once the flag is set the interrupt touches nothing any more. */
    method OnTimer()
      requires Valid() && Started() && !cleared
      modifies this`accuCounts, this`events, this`timer1Count, this`tableCur, this`size, this`finished
      modifies ring`head, ring`count, ring`history, ring`doCountStats, ring.rbuf
      ensures Valid() && events == if old(finished) then old(events) else old(events) + [Timer]
    {
      if !finished {
        PushSample();
        CountDown();
      }
    }

    /** The display part of the tick, which also records it. */
    method PushSample()
      requires Valid() && Started() && !finished && !cleared
      modifies this`accuCounts, this`events, ring`head, ring`count, ring`history, ring`doCountStats, ring.rbuf
      ensures Shape() && events == old(events) + [Timer] && Ticking(old(events))
    {
      hide Counts, Ticks, Pending, PerTick, Index, Countdown, Elements, Full, Feasible;
      TicksSnoc(events, Timer);
      forall k | 0 <= k < table.Length
        ensures Counts(events + [Timer], origTimer1Count, k) == Counts(events, origTimer1Count, k)
      {
        CountsSnoc(events, Timer, origTimer1Count, k);
      }
      ring.Sample(accuCounts);
      accuCounts := 0;
      events := events + [Timer];
      assert U32(0) == 0;
    }

    /** The countdown part of the tick, once the tick has been recorded. */
    method CountDown()
      requires Shape() && Started() && events != [] && !finished && !cleared
      requires Ticking(events[..|events| - 1]) && events[|events| - 1] == Timer
      modifies this`timer1Count, this`tableCur, this`size, this`finished
      ensures Valid()
    {
      hide Counts, Ticks, Pending, PerTick, Index, Countdown, Elements, Full, Feasible;
      ghost var before := events[..|events| - 1];
      assert events == before + [Timer];
      TickClosedForm(before, origTimer1Count, Capacity());
      EndTestIsExact(tableBytes, 2, tableCur + 1);
      timer1Count := U16(timer1Count - 1);
      if timer1Count == 0 {
        tableCur := tableCur + 1;
        if 2 * tableCur < TableEnd(tableBytes, 2) {
          size := size + 2;
          timer1Count := origTimer1Count;
        } else {
          finished := true;
        }
      }
    }

    /** The clockwork as it was after `before`, with the table already as it is now. */
    ghost predicate Ticking(before: seq<Irq>)
      reads this, table
      requires Started()
    {
      && Feasible(before, origTimer1Count, Capacity()) && !Full(before, origTimer1Count, Capacity())
      && tableCur == Index(before, origTimer1Count)
      && timer1Count == Countdown(Ticks(before), origTimer1Count, Capacity())
      && size == 2 * Elements(before, origTimer1Count, Capacity())
      && forall k | 0 <= k < table.Length :: table[k] == U16(Counts(events, origTimer1Count, k))
    }
  }
}
