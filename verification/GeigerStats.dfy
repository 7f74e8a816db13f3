/** The statistics the Geiger personality shows on its display, firmware/perso-geiger-lcd.c. */
module GeigerStats {
  import opened Bytes
  import opened RingBuffer

  // ----- Integer square root -----

  /** Bitwise square root of a 32-bit number: no intermediate value leaves its 16 or 32 bits. */
  method CSqrt32(q: u32) returns (r: u16)
    ensures r * r <= q < (r + 1) * (r + 1)
  {
    var mask := 0x8000;
    var s := mask;
    var i := 15;
    assert Pow2(15) == 0x8000 by {
      assert Pow2(15) == 8 * Pow2(12) && Pow2(12) == 0x10 * Pow2(8) && Pow2(8) == 0x10 * Pow2(4);
    }
    while i > 0
      invariant 0 <= i <= 15 && mask == Pow2(i)
      invariant mask <= s <= 0x1_0000 - mask
      invariant (s - mask) * (s - mask) <= q < (s + mask) * (s + mask)
    {
      assert mask == 2 * Pow2(i - 1);
      mask := mask / 2;
      SquareFits(s);
      if q < s * s {
        s := s - mask;
      } else {
        s := s + mask;
      }
      i := i - 1;
    }
    SquareFits(s);
    if q < s * s {
      s := s - 1;
    }
    r := s;
  }

  lemma SquareFits(s: nat)
    requires s < 0x1_0000
    ensures s * s < 0x1_0000_0000
  {
    SquareLessEqual(s, 0xffff);
  }

  /** The square root the contract describes is unique. */
  lemma SqrtUnique(q: nat, r: nat, s: nat)
    requires r * r <= q < (r + 1) * (r + 1) && s * s <= q < (s + 1) * (s + 1)
    ensures r == s
  {
    SquareOrder(r, s + 1);
    SquareOrder(s, r + 1);
  }

  lemma SquareOrder(a: nat, b: nat)
    requires a * a < b * b
    ensures a < b
  {
    if b <= a {
      SquareLessEqual(b, a);
    }
  }

  /** Relative tolerance in percent from a square root of 3600 N: `t` is 100 / sqrt(N) rounded, both ways. */
  lemma ToleranceBounds(n: nat, r: nat, t: nat)
    requires n > 0 && r > 0 && r * r <= 3600 * n < (r + 1) * (r + 1) && t == 6000 / r
    ensures GoodTolerance(n, t)
  {
    assert t * r <= 6000 < (t + 1) * r;
    ToleranceNotTooSmall(n, r, t);
    ToleranceNotTooLarge(n, r, t);
  }

  /** `t` is 100 / sqrt(n), rounded one way or the other. */
  predicate GoodTolerance(n: nat, t: nat)
  {
    (t + 1) * (t + 1) * n > 10000 && 3600 * (t * t) * n < (6000 + t) * (6000 + t)
  }

  /** 3600 `n` fits 32 bits, or what is left of it has a root above 6000. */
  predicate RootFits(n: nat) { n <= 1193046 || U32(3600 * n) >= 36012001 }

  lemma ToleranceNotTooSmall(n: nat, r: nat, t: nat)
    requires r * r <= 3600 * n && 6000 < (t + 1) * r
    ensures (t + 1) * (t + 1) * n > 10000
  {
    var u := t + 1;
    SquareLess(6000, u * r);
    assert u * r * (u * r) == u * u * (r * r);
    MulMono(u * u, r * r, 3600 * n);
    assert u * u * (3600 * n) == 3600 * (u * u * n);
  }

  lemma ToleranceNotTooLarge(n: nat, r: nat, t: nat)
    requires 3600 * n < (r + 1) * (r + 1) && t * r <= 6000
    ensures 3600 * (t * t) * n < (6000 + t) * (6000 + t)
  {
    var s := r + 1;
    if t > 0 {
      assert t * s == t * r + t;
      SquareLessEqual(t * s, 6000 + t);
      assert t * s * (t * s) == t * t * (s * s);
      MulMonoStrict(t * t, 3600 * n, s * s);
      assert t * t * (3600 * n) == 3600 * (t * t) * n;
    }
  }

  lemma SquareLess(a: nat, b: nat)
    requires a < b
    ensures a * a < b * b
  {
    assert a * a <= a * b;
    assert a * b < b * b;
  }

  lemma SquareLessEqual(a: nat, b: nat)
    requires a <= b
    ensures a * a <= b * b
  {
    assert a * a <= a * b;
    assert a * b <= b * b;
  }

  lemma MulMono(k: nat, a: nat, b: nat)
    requires a <= b
    ensures k * a <= k * b
  {
  }

  lemma MulMonoStrict(k: nat, a: nat, b: nat)
    requires k > 0 && a < b
    ensures k * a < k * b
  {
  }

  // ----- Sums over the ring buffer -----

  /** The sum of the first `k` samples read. */
  function SumFirst(seen: seq<u16>, k: nat): nat
    requires k <= |seen|
  {
    if k == 0 then 0 else SumFirst(seen, k - 1) + seen[k - 1]
  }

  lemma {:induction false} SumFirstBound(seen: seq<u16>, k: nat)
    requires k <= |seen|
    ensures SumFirst(seen, k) <= 0xffff * k
  {
    if k > 0 {
      SumFirstBound(seen, k - 1);
    }
  }

  lemma {:induction false} SumFirstPrefix(seen: seq<u16>, more: seq<u16>, k: nat)
    requires k <= |seen| && seen <= more
    ensures SumFirst(more, k) == SumFirst(seen, k)
  {
    if k > 0 {
      SumFirstPrefix(seen, more, k - 1);
    }
  }

  lemma SumFirstStep(seen: seq<u16>, v: u16)
    requires |seen| < NUM_BUF_MAX
    ensures SumFirst(seen + [v], |seen| + 1) == SumFirst(seen, |seen|) + v < 0x1_0000_0000
    ensures SumFirst(seen, 0) == 0
  {
    SumFirstPrefix(seen, seen + [v], |seen|);
    SumFirstBound(seen, |seen|);
  }

  /** The `n` newest of some samples, newest first: what the main loop means to read. */
  function Newest(samples: seq<u16>, n: nat): (newest: seq<u16>)
    requires n <= |samples|
    ensures |newest| == n
  {
    seq(n, i requires 0 <= i < n => samples[|samples| - 1 - i])
  }

  function TotalLength(arrivals: seq<seq<u32>>): nat
  {
    if arrivals == [] then 0 else TotalLength(arrivals[..|arrivals| - 1]) + |arrivals[|arrivals| - 1]|
  }

  /** Every sample is read before the pushes come around to its place. */
  predicate InTime(before: nat, arrivals: seq<seq<u32>>)
  {
    forall n | 0 < n <= |arrivals| :: before + TotalLength(arrivals[..n]) + n <= NUM_BUF_MAX
  }

  /** In particular when no more samples arrive altogether than the buffer has places to spare. */
  lemma FewArrivalsAreInTime(before: nat, arrivals: seq<seq<u32>>)
    requires before + TotalLength(arrivals) + |arrivals| <= NUM_BUF_MAX
    ensures InTime(before, arrivals)
  {
    forall n | 0 < n <= |arrivals|
      ensures before + TotalLength(arrivals[..n]) + n <= NUM_BUF_MAX
    {
      TotalLengthMonotone(arrivals, n);
    }
  }

  lemma {:induction false} TotalLengthMonotone(arrivals: seq<seq<u32>>, i: nat)
    requires i <= |arrivals|
    ensures TotalLength(arrivals[..i]) <= TotalLength(arrivals)
    decreases |arrivals|
  {
    if i < |arrivals| {
      TotalLengthMonotone(arrivals[..|arrivals| - 1], i);
      assert arrivals[..|arrivals| - 1][..i] == arrivals[..i];
    } else {
      assert arrivals[..i] == arrivals;
    }
  }

  /**
    Which sample the `i`th read finds when `n` have been pushed, `s` of them before the snapshot: the
    place is `i` before that of the snapshot's newest sample, counted around the buffer.
   */
  function SeenIndex(n: nat, s: nat, i: nat): (k: nat)
    requires NUM_BUF_MAX <= s <= n
    ensures n - NUM_BUF_MAX <= k < n
  {
    n - 1 - (n - s + i) % NUM_BUF_MAX
  }

  lemma SeenInOrder(n: nat, s: nat, i: nat)
    requires NUM_BUF_MAX <= s <= n && i < NUM_BUF_MAX
    ensures n - s + i < NUM_BUF_MAX ==> SeenIndex(n, s, i) == s - 1 - i
    ensures n - s + i >= NUM_BUF_MAX ==> SeenIndex(n, s, i) >= s
  {
    var x := n - s + i;
    if x < NUM_BUF_MAX {
      DivModUnique(x, NUM_BUF_MAX, 0, x);
    } else {
      var q, r := DivModParts(x, NUM_BUF_MAX);
    }
  }

  /** The samples read, `arrivals[i]` having been pushed just before read `i`, and `base` before them all. */
  function Seen(history: seq<u16>, s: nat, base: nat, arrivals: seq<seq<u32>>): (seen: seq<u16>)
    requires NUM_BUF_MAX <= s <= base && base + TotalLength(arrivals) <= |history|
    ensures |seen| == |arrivals|
  {
    seq(|arrivals|, i requires 0 <= i < |arrivals| => SeenAt(history, s, base, arrivals, i))
  }

  function SeenAt(history: seq<u16>, s: nat, base: nat, arrivals: seq<seq<u32>>, i: nat): u16
    requires NUM_BUF_MAX <= s <= base && base + TotalLength(arrivals) <= |history| && i < |arrivals|
  {
    TotalLengthMonotone(arrivals, i + 1);
    history[SeenIndex(base + TotalLength(arrivals[..i + 1]), s, i)]
  }

  lemma SeenStep(before: seq<u16>, history: seq<u16>, s: nat, base: nat, arrivals: seq<seq<u32>>, i: nat)
    requires NUM_BUF_MAX <= s <= base && i < |arrivals| && before <= history
    requires base + TotalLength(arrivals[..i]) <= |before| && |history| == base + TotalLength(arrivals[..i + 1])
    ensures Seen(history, s, base, arrivals[..i + 1])
         == Seen(before, s, base, arrivals[..i]) + [history[SeenIndex(|history|, s, i)]]
  {
    var more, less := arrivals[..i + 1], arrivals[..i];
    assert more[..i + 1] == more;
    forall j | 0 <= j < i
      ensures SeenAt(history, s, base, more, j) == SeenAt(before, s, base, less, j)
    {
      assert more[..j + 1] == less[..j + 1];
      TotalLengthMonotone(less, j + 1);
    }
  }

  /** Samples pushed after the last read change nothing about what was read. */
  lemma SeenLater(history: seq<u16>, later: seq<u16>, s: nat, base: nat, arrivals: seq<seq<u32>>)
    requires NUM_BUF_MAX <= s <= base && base + TotalLength(arrivals) <= |history| && history <= later
    ensures Seen(later, s, base, arrivals) == Seen(history, s, base, arrivals)
  {
    forall i | 0 <= i < |arrivals|
      ensures SeenAt(later, s, base, arrivals, i) == SeenAt(history, s, base, arrivals, i)
    {
      TotalLengthMonotone(arrivals, i + 1);
    }
  }

  /** In time, the reads find the newest samples of the snapshot. */
  lemma SeenInTime(history: seq<u16>, s: nat, base: nat, arrivals: seq<seq<u32>>)
    requires NUM_BUF_MAX <= s <= base && |history| == base + TotalLength(arrivals) && |arrivals| <= NUM_BUF_MAX
    requires InTime(base - s, arrivals)
    ensures Seen(history, s, base, arrivals) == Newest(history[..s], |arrivals|)
  {
    hide SeenIndex, TotalLength;
    forall i | 0 <= i < |arrivals|
      ensures SeenAt(history, s, base, arrivals, i) == history[..s][s - 1 - i]
    {
      TotalLengthMonotone(arrivals, i + 1);
      assert base - s + TotalLength(arrivals[..i + 1]) + (i + 1) <= NUM_BUF_MAX;
      SeenInOrder(base + TotalLength(arrivals[..i + 1]), s, i);
    }
  }

  /** Zeros up to the snapshot, ones after it. */
  function Marked(s: nat, n: nat): (history: seq<u16>)
    requires s <= n
    ensures |history| == n
  {
    seq(n, k requires 0 <= k < n => if k < s then 0 else 1)
  }

  /** A read that is overtaken finds a sample pushed after the snapshot. */
  lemma Overtaken(s: nat, base: nat, arrivals: seq<seq<u32>>, i: nat)
    requires NUM_BUF_MAX <= s <= base && i < |arrivals| <= NUM_BUF_MAX
    requires base - s + TotalLength(arrivals[..i + 1]) + i >= NUM_BUF_MAX
    ensures Seen(Marked(s, base + TotalLength(arrivals)), s, base, arrivals)[i] == 1
  {
    hide SeenIndex, TotalLength;
    TotalLengthMonotone(arrivals, i + 1);
    SeenInOrder(base + TotalLength(arrivals[..i + 1]), s, i);
  }

  lemma {:induction false} SumOfZeros(seen: seq<u16>, k: nat)
    requires k <= |seen| && forall i | 0 <= i < k :: seen[i] == 0
    ensures SumFirst(seen, k) == 0
  {
    if k > 0 {
      SumOfZeros(seen, k - 1);
    }
  }

  lemma {:induction false} SumAtLeast(seen: seq<u16>, k: nat, i: nat)
    requires i < k <= |seen|
    ensures SumFirst(seen, k) >= seen[i]
  {
    if i < k - 1 {
      SumAtLeast(seen, k - 1, i);
    }
  }

  /**
    The race with the timer interrupt: the sum is the snapshot's for every history if and only if
    each read comes before the pushes have gone around to its place.
   */
  lemma SumIsTheSnapshots(s: nat, base: nat, arrivals: seq<seq<u32>>)
    requires NUM_BUF_MAX <= s <= base && |arrivals| <= NUM_BUF_MAX
    ensures InTime(base - s, arrivals) <==>
            forall history: seq<u16> | |history| == base + TotalLength(arrivals) ::
              SumFirst(Seen(history, s, base, arrivals), |arrivals|)
                  == SumFirst(Newest(history[..s], |arrivals|), |arrivals|)
  {
    hide SeenIndex, TotalLength, SeenAt, Seen, SumFirst, Newest;
    if InTime(base - s, arrivals) {
      forall history: seq<u16> | |history| == base + TotalLength(arrivals)
        ensures Seen(history, s, base, arrivals) == Newest(history[..s], |arrivals|)
      {
        SeenInTime(history, s, base, arrivals);
      }
    } else {
      MarkedSumDiffers(s, base, arrivals);
    }
  }

  lemma MarkedSumDiffers(s: nat, base: nat, arrivals: seq<seq<u32>>)
    requires NUM_BUF_MAX <= s <= base && |arrivals| <= NUM_BUF_MAX && !InTime(base - s, arrivals)
    ensures var history := Marked(s, base + TotalLength(arrivals));
      SumFirst(Seen(history, s, base, arrivals), |arrivals|) > SumFirst(Newest(history[..s], |arrivals|), |arrivals|)
  {
    hide SeenIndex, TotalLength, SeenAt, Seen, SumFirst;
    var n :| 0 < n <= |arrivals| && base - s + TotalLength(arrivals[..n]) + n > NUM_BUF_MAX;
    var history := Marked(s, base + TotalLength(arrivals));
    Overtaken(s, base, arrivals, n - 1);
    SumAtLeast(Seen(history, s, base, arrivals), |arrivals|, n - 1);
    SumOfZeros(Newest(history[..s], |arrivals|), |arrivals|);
  }

  /**
    With a full record a single tick during the sum, wherever it falls, makes the last read find the
    new sample in place of the oldest.
   */
  lemma OneTickAtFullRecord(history: seq<u16>, s: nat, arrivals: seq<seq<u32>>)
    requires NUM_BUF_MAX <= s && |history| == s + 1 && |arrivals| == NUM_BUF_MAX && TotalLength(arrivals) == 1
    ensures Seen(history, s, s, arrivals) == Newest(history[..s], NUM_BUF_MAX - 1) + [history[s]]
    ensures !InTime(0, arrivals)
  {
    hide SeenIndex;
    assert arrivals[..NUM_BUF_MAX] == arrivals;
    forall i | 0 <= i < NUM_BUF_MAX
      ensures SeenAt(history, s, s, arrivals, i) == if i < NUM_BUF_MAX - 1 then history[..s][s - 1 - i] else history[s]
    {
      TotalLengthMonotone(arrivals, i + 1);
      SeenInOrder(s + TotalLength(arrivals[..i + 1]), s, i);
      if i == NUM_BUF_MAX - 1 {
        DivModUnique(NUM_BUF_MAX, NUM_BUF_MAX, 1, 0);
      }
    }
  }

  class Statistics {
    var sumNew2: u32
    var sumOld2: u32
    var sumShort: u32
    var sumTotal: u32
    var countRateLg: u32
    var countRateSt: u32
    var reltolLg: u16
    var numShort: nat

    constructor ()
      ensures numShort == NUM_BUF_MIN
    {
      sumNew2, sumOld2, sumShort, sumTotal := 0, 0, 0, 0;
      countRateLg, countRateSt, reltolLg := 0, 0, 0;
      numShort := NUM_BUF_MIN;
    }

    /** The windows that end among the samples seen so far have been kept. */
    ghost predicate PartialSums(seen: seq<u16>, numProceed2: nat)
      reads this
    {
      && (|seen| >= numProceed2 ==> sumNew2 == SumFirst(seen, numProceed2))
      && (|seen| >= 2 * numProceed2 ==> sumOld2 == SumFirst(seen, 2 * numProceed2))
      && (|seen| >= numShort ==> sumShort == SumFirst(seen, numShort))
    }

    /** Keeps the running sum where one of the three windows ends. */
    method Record(i: nat, numProceed2: nat, sumTotal: u32, ghost seen: seq<u16>, ghost v: u16)
      requires PartialSums(seen, numProceed2)
      requires i == |seen| + 1 && sumTotal == SumFirst(seen + [v], i)
      modifies this`sumNew2, this`sumOld2, this`sumShort
      ensures PartialSums(seen + [v], numProceed2)
    {
      forall k | 0 <= k <= |seen|
        ensures SumFirst(seen + [v], k) == SumFirst(seen, k)
      {
        SumFirstPrefix(seen, seen + [v], k);
      }
      hide SumFirst;
      if i == numProceed2 {
        sumNew2 := sumTotal;
      }
      if i == 2 * numProceed2 {
        sumOld2 := sumTotal;
      }
      if i == numShort {
        sumShort := sumTotal;
      }
    }
  }

  /** The four sums over the samples seen: the newer half, the older half, the newest few, and all. */
  ghost predicate Sums(st: Statistics, seen: seq<u16>)
    requires st.numShort <= |seen|
    reads st
  {
    var np := |seen|;
    && st.sumNew2 == SumFirst(seen, np / 2)
    && st.sumOld2 == SumFirst(seen, np / 2 * 2) - SumFirst(seen, np / 2)
    && st.sumShort == SumFirst(seen, st.numShort)
    && st.sumTotal == SumFirst(seen, np)
  }

  /** The main loop's copy of the head points to where sample `s` was pushed. */
  ghost predicate Snapped(ring: Ring, s: nat)
    reads ring, ring.rbuf
  {
    && ring.Valid() && NUM_BUF_MAX <= s <= |ring.history|
    && ring.headCpy < NUM_BUF_MAX && ring.head == (ring.headCpy + |ring.history| - s) % NUM_BUF_MAX
  }

  lemma SnappedNow(ring: Ring)
    requires ring.Valid() && ring.headCpy == ring.head
    ensures Snapped(ring, |ring.history|)
  {
  }

  lemma AddModulo(x: nat, i: nat)
    ensures (x % NUM_BUF_MAX + i) % NUM_BUF_MAX == (x + i) % NUM_BUF_MAX
  {
    var q, r := DivModParts(x, NUM_BUF_MAX);
    var p, t := DivModParts(r + i, NUM_BUF_MAX);
    DivModUnique(x + i, NUM_BUF_MAX, q + p, t);
  }

  lemma SlotTurned(c: nat, x: nat, i: nat)
    requires c < NUM_BUF_MAX && i < NUM_BUF_MAX
    ensures Slot((c + x) % NUM_BUF_MAX, (x + i) % NUM_BUF_MAX) == Slot(c, i)
  {
    var y := x % NUM_BUF_MAX;
    AddModulo(x, c);
    AddModulo(x, i);
    assert (c + y) % NUM_BUF_MAX == if c + y < NUM_BUF_MAX then c + y else c + y - NUM_BUF_MAX;
    assert (y + i) % NUM_BUF_MAX == if y + i < NUM_BUF_MAX then y + i else y + i - NUM_BUF_MAX;
  }

  lemma SnappedCell(ring: Ring, s: nat, i: nat)
    requires Snapped(ring, s) && i < NUM_BUF_MAX
    ensures ring.rbuf[Slot(ring.headCpy, i)] == ring.history[SeenIndex(|ring.history|, s, i)]
  {
    var n := |ring.history|;
    SlotTurned(ring.headCpy, n - s, i);
    hide Slot;
    var j := (n - s + i) % NUM_BUF_MAX;
    assert ring.rbuf[Slot(ring.head, j)] == ring.history[n - 1 - j];
  }

  /** One read of the main loop, just after `arrived` have been pushed. */
  method ReadSample(ring: Ring, arrived: seq<u32>, pos: nat, ghost s: nat, ghost i: nat) returns (v: u16)
    requires Snapped(ring, s) && i < NUM_BUF_MAX
    requires pos == Slot(ring.headCpy, i)
    modifies ring`head, ring`count, ring`history, ring`doCountStats, ring.rbuf
    ensures Snapped(ring, s) && Grown(old(ring.State()), ring.State(), |arrived|)
    ensures v == ring.history[SeenIndex(|ring.history|, s, i)]
  {
    ghost var n := |ring.history|;
    ring.Interrupts(arrived);
    AddModulo(ring.headCpy + n - s, |arrived|);
    hide Slot;
    assert Snapped(ring, s);
    SnappedCell(ring, s, i);
    v := ring.rbuf[pos];
  }

  lemma NextSlot(head: nat, i: nat)
    requires head < NUM_BUF_MAX && i < NUM_BUF_MAX
    ensures Slot(head, 0) == head
    ensures i + 1 < NUM_BUF_MAX ==>
              Slot(head, i + 1) == if Slot(head, i) > 0 then Slot(head, i) - 1 else NUM_BUF_MAX - 1
  {
  }

  lemma TotalLengthStep(arrivals: seq<seq<u32>>, i: nat)
    requires i < |arrivals|
    ensures TotalLength(arrivals[..i + 1]) == TotalLength(arrivals[..i]) + |arrivals[i]|
  {
    assert arrivals[..i + 1][..i] == arrivals[..i];
  }

  /** One turn of the loop: a sample is read and added, a finished window is kept, the place moves on. */
  method AddSample(st: Statistics, ring: Ring, arrived: seq<u32>, currentPos: nat, sumTotal: u32, numProceed2: nat,
                   ghost s: nat, i: nat, ghost seen: seq<u16>)
    returns (nextPos: nat, nextSum: u32, ghost v: u16)
    requires Snapped(ring, s) && i == |seen| < NUM_BUF_MAX && ring.headCpy < NUM_BUF_MAX
    requires NUM_BUF_MAX <= s <= |ring.history|
    requires currentPos == Slot(ring.headCpy, i) && sumTotal == SumFirst(seen, i) && st.PartialSums(seen, numProceed2)
    modifies st`sumNew2, st`sumOld2, st`sumShort
    modifies ring`head, ring`count, ring`history, ring`doCountStats, ring.rbuf
    ensures Snapped(ring, s) && Grown(old(ring.State()), ring.State(), |arrived|)
    ensures i + 1 < NUM_BUF_MAX ==> nextPos == Slot(ring.headCpy, i + 1)
    ensures v == ring.history[SeenIndex(|ring.history|, s, i)]
    ensures nextSum == SumFirst(seen + [v], i + 1) && st.PartialSums(seen + [v], numProceed2)
  {
    hide Slot, SumFirst, Snapped, Statistics.PartialSums, SeenIndex;
    var sample := ReadSample(ring, arrived, currentPos, s, i);
    v := sample;
    SumFirstStep(seen, sample);
    nextSum := U32(sumTotal + sample);
    NextSlot(ring.headCpy, i);
    if currentPos > 0 {
      nextPos := currentPos - 1;
    } else {
      nextPos := NUM_BUF_MAX - 1;
    }
    st.Record(i + 1, numProceed2, nextSum, seen, sample);
  }

  /** The loop before read `i`: what has been seen is summed up, and the place is the next to read. */
  ghost predicate Progress(st: Statistics, ring: Ring, start: Record, s: nat, arrivals: seq<seq<u32>>, i: nat,
                           currentPos: nat, sumTotal: nat, numProceed2: nat)
    reads st, ring, ring.rbuf
  {
    && i <= |arrivals| && NUM_BUF_MAX <= s <= |start.history|
    && Snapped(ring, s) && Grown(start, ring.State(), TotalLength(arrivals[..i]))
    && (i < NUM_BUF_MAX ==> currentPos == Slot(ring.headCpy, i))
    && var seen := Seen(ring.history, s, |start.history|, arrivals[..i]);
       sumTotal == SumFirst(seen, i) && st.PartialSums(seen, numProceed2)
  }

  method Turn(st: Statistics, ring: Ring, arrivals: seq<seq<u32>>, i: nat, currentPos: nat, sumTotal: u32,
      numProceed2: nat,
              ghost start: Record, ghost s: nat)
    returns (nextPos: nat, nextSum: u32)
    requires Progress(st, ring, start, s, arrivals, i, currentPos, sumTotal, numProceed2)
    requires i < |arrivals| <= NUM_BUF_MAX
    modifies st`sumNew2, st`sumOld2, st`sumShort
    modifies ring`head, ring`count, ring`history, ring`doCountStats, ring.rbuf
    ensures Progress(st, ring, start, s, arrivals, i + 1, nextPos, nextSum, numProceed2)
  {
    assert ring.headCpy < NUM_BUF_MAX;
    hide Slot, SumFirst, Snapped, Statistics.PartialSums, Seen, SeenIndex, TotalLength;
    TotalLengthStep(arrivals, i);
    ghost var before := ring.State();
    ghost var v: u16;
    ghost var seen := Seen(ring.history, s, |start.history|, arrivals[..i]);
    nextPos, nextSum, v := AddSample(st, ring, arrivals[i], currentPos, sumTotal, numProceed2, s, i, seen);
    GrownTwice(start, before, ring.State(), TotalLength(arrivals[..i]), |arrivals[i]|);
    SeenStep(before.history, ring.history, s, |start.history|, arrivals, i);
  }

  /**
    Sums up the record while the timer interrupt keeps pushing samples: `arrivals[i]` are pushed
    just before read `i`. The sums are those of the samples the reads find.
   */
  method SumWindows(st: Statistics, ring: Ring, numProceed: nat, arrivals: seq<seq<u32>>, ghost s: nat)
    requires Snapped(ring, s)
    requires 0 < st.numShort <= numProceed <= NUM_BUF_MAX && 2 <= numProceed && |arrivals| == numProceed
    modifies st`sumNew2, st`sumOld2, st`sumShort, st`sumTotal
    modifies ring`head, ring`count, ring`history, ring`doCountStats, ring.rbuf
    ensures Snapped(ring, s) && Grown(old(ring.State()), ring.State(), TotalLength(arrivals))
    ensures Sums(st, Seen(ring.history, s, |old(ring.history)|, arrivals))
  {
    ghost var start := ring.State();
    var numProceed2 := numProceed / 2;
    var i := 0;
    var currentPos := ring.headCpy;
    var sumTotal: u32 := 0;
    FirstTurn(st, ring, s, arrivals, numProceed2);
    while i < numProceed
      invariant 0 <= i <= numProceed
      invariant Progress(st, ring, start, s, arrivals, i, currentPos, sumTotal, numProceed2)
    {
      hide Progress;
      currentPos, sumTotal := Turn(st, ring, arrivals, i, currentPos, sumTotal, numProceed2, start, s);
      i := i + 1;
    }
    hide Slot, SumFirst, Snapped, Statistics.PartialSums, Seen, TotalLength;
    assert arrivals[..i] == arrivals;
    FinishSums(st, numProceed, sumTotal, Seen(ring.history, s, |start.history|, arrivals));
  }

  lemma FirstTurn(st: Statistics, ring: Ring, s: nat, arrivals: seq<seq<u32>>, numProceed2: nat)
    requires Snapped(ring, s) && 0 < numProceed2 && 0 < st.numShort
    ensures Progress(st, ring, ring.State(), s, arrivals, 0, ring.headCpy, 0, numProceed2)
  {
    assert arrivals[..0] == [];
    NextSlot(ring.headCpy, 0);
  }

  /** The sum over both halves becomes the sum of the older half. */
  method FinishSums(st: Statistics, numProceed: nat, sumTotal: u32, ghost seen: seq<u16>)
    requires numProceed == |seen| && st.numShort <= numProceed
    requires st.PartialSums(seen, numProceed / 2) && sumTotal == SumFirst(seen, numProceed)
    modifies st`sumOld2, st`sumTotal
    ensures Sums(st, seen)
  {
    SumFirstMonotone(seen, numProceed / 2, numProceed / 2 * 2);
    st.sumOld2 := U32(st.sumOld2 - st.sumNew2);
    st.sumTotal := sumTotal;
  }

  lemma {:induction false} SumFirstMonotone(seen: seq<u16>, j: nat, k: nat)
    requires j <= k <= |seen|
    ensures SumFirst(seen, j) <= SumFirst(seen, k)
    decreases k
  {
    if j < k {
      SumFirstMonotone(seen, j, k - 1);
    }
  }

  const RES_COUNT_RATE := 10

  /** C's unsigned division; `byZero` stands for whatever the machine returns for a zero divisor. */
  function Divide(n: u32, d: u32, byZero: u32): u32
  {
    if d == 0 then byZero else n / d
  }

  lemma RateFits(sum: nat)
    requires sum <= 0xffff * NUM_BUF_MAX
    ensures RES_COUNT_RATE * 60 * sum < 0x1_0000_0000
  {
  }

  /**
    The whole statistics of the samples read: the window sums, both rates without overflow, and a
    tolerance that is right exactly when 3600 times the count fits 32 bits or wraps to a large number.
   */
  method GetStats(st: Statistics, ring: Ring, numProceed: nat, arrivals: seq<seq<u32>>, byZero: u32, ghost s: nat)
    requires Snapped(ring, s)
    requires 0 < st.numShort <= numProceed <= NUM_BUF_MAX && 2 <= numProceed && |arrivals| == numProceed
    modifies st`sumNew2, st`sumOld2, st`sumShort, st`sumTotal, st`countRateLg, st`countRateSt, st`reltolLg
    modifies ring`head, ring`count, ring`history, ring`doCountStats, ring.rbuf
    ensures Snapped(ring, s) && Grown(old(ring.State()), ring.State(), TotalLength(arrivals))
    ensures var seen := Seen(ring.history, s, |old(ring.history)|, arrivals);
      && Sums(st, seen)
      && st.countRateLg == 600 * SumFirst(seen, numProceed) / numProceed
      && st.countRateSt == 600 * SumFirst(seen, st.numShort) / st.numShort
      && var n := SumFirst(seen, numProceed); n > 0 ==> (GoodTolerance(n, st.reltolLg) <==> RootFits(n))
  {
    ghost var base := |ring.history|;
    SumWindows(st, ring, numProceed, arrivals, s);
    assert NUM_BUF_MAX <= s <= base by { assert Snapped(ring, s); }
    ghost var seen := Seen(ring.history, s, base, arrivals);
    hide Snapped, Seen, GoodTolerance, RootFits;
    SumFirstBound(seen, numProceed);
    SumFirstBound(seen, st.numShort);
    Rates(st, numProceed, byZero);
  }

  method Rates(st: Statistics, numProceed: nat, byZero: u32)
    requires 0 < numProceed && 0 < st.numShort
    requires st.sumTotal <= 0xffff * NUM_BUF_MAX && st.sumShort <= 0xffff * NUM_BUF_MAX
    modifies st`countRateLg, st`countRateSt, st`reltolLg
    ensures st.countRateLg == 600 * st.sumTotal / numProceed
    ensures st.countRateSt == 600 * st.sumShort / st.numShort
    ensures st.sumTotal > 0 ==> (GoodTolerance(st.sumTotal, st.reltolLg) <==> RootFits(st.sumTotal))
  {
    RateFits(st.sumTotal);
    RateFits(st.sumShort);
    DivisionFits(600 * st.sumTotal, numProceed);
    DivisionFits(600 * st.sumShort, st.numShort);
    st.countRateLg := U32(RES_COUNT_RATE * 60 * st.sumTotal) / numProceed;
    Tolerance(st, byZero);
    st.countRateSt := U32(RES_COUNT_RATE * 60 * st.sumShort) / st.numShort;
  }

  /**
    The tolerance is right exactly when the root's argument fits, or is still large enough to make it
    round to zero.
   */
  method Tolerance(st: Statistics, byZero: u32)
    requires st.sumTotal <= 0xffff * NUM_BUF_MAX
    modifies st`reltolLg
    ensures st.sumTotal > 0 ==> (GoodTolerance(st.sumTotal, st.reltolLg) <==> RootFits(st.sumTotal))
  {
    hide GoodTolerance, RootFits;
    var n: int := st.sumTotal;
    var root := CSqrt32(U32(3600 * n));
    var quotient := Divide(6000, root, byZero);
    st.reltolLg := U16(quotient);
    if n > 0 {
      WrapNeverZero(n);
      RootPositive(U32(3600 * n), root);
      DivisionFits(6000, root);
      ToleranceRightExactly(n, root, quotient);
    }
  }

  lemma WrapNeverZero(n: nat)
    requires 0 < n <= 0xffff * NUM_BUF_MAX
    ensures U32(3600 * n) > 0
  {
    var k := 3600 * n / 0x1_0000_0000;
    assert 3600 * n == k * 0x1_0000_0000 + U32(3600 * n) && k <= 4;
    assert k == 0 || k == 1 || k == 2 || k == 3 || k == 4;
  }

  /** Past the range of the root's argument every true tolerance is below one percent. */
  lemma ToleranceRightExactly(n: nat, r: nat, t: nat)
    requires 0 < n <= 0xffff * NUM_BUF_MAX && r > 0 && t == 6000 / r
    requires r * r <= U32(3600 * n) < (r + 1) * (r + 1)
    ensures GoodTolerance(n, t) <==> RootFits(n)
  {
    if n <= 1193046 {
      ToleranceBounds(n, r, t);
    } else if r > 6000 {
      SquareLessEqual(6001, r);
      DivModUnique(6000, r, 0, 6000);
    } else {
      SquareLessEqual(r + 1, 6001);
      DivMonotone(r, 6000, r);
      DivModUnique(r, r, 1, 0);
      ToleranceTooLarge(n, t);
    }
  }

  lemma ToleranceTooLarge(n: nat, t: nat)
    requires n > 1193046 && t >= 1
    ensures !GoodTolerance(n, t)
  {
    SquareLessEqual(6000 + t, 6001 * t);
    assert 6001 * t * (6001 * t) == 36012001 * (t * t);
    MulMono(3600 * (t * t), 36012, n);
    assert t * t > 0;
  }

  lemma DivisionFits(n: nat, d: nat)
    requires d > 0
    ensures n / d <= n
  {
    var q := n / d;
    MulMono(q, 1, d);
  }

  lemma RootPositive(q: nat, r: nat)
    requires q > 0 && q < (r + 1) * (r + 1)
    ensures r > 0
  {
  }

  // ----- Autoranging -----

  datatype Range = LowRate | HighRate

  /** Hysteresis: up above 1050 counts per minute, down below 700. */
  function NextRange(range: Range, rate: u32): Range
  {
    match range
    case LowRate => if rate > RES_COUNT_RATE * 1050 then HighRate else LowRate
    case HighRate => if rate < RES_COUNT_RATE * 700 then LowRate else HighRate
  }

  function RecordLength(range: Range): nat { if range == LowRate then NUM_BUF_MAX else 30 }

  class AutoRange {
    var range: Range

    constructor ()
      ensures range == LowRate
    {
      range := LowRate;
    }

    method AvrgLen(rate: u32) returns (numElements: nat)
      modifies this
      ensures range == NextRange(old(range), rate) && numElements == RecordLength(range)
    {
      match range {
        case LowRate =>
          if rate > RES_COUNT_RATE * 1050 {
            range := HighRate;
            numElements := 30;
          } else {
            numElements := NUM_BUF_MAX;
          }
        case HighRate =>
          if rate < RES_COUNT_RATE * 700 {
            range := LowRate;
            numElements := NUM_BUF_MAX;
          } else {
            numElements := 30;
          }
      }
    }

    /** The minimum macro evaluates its first argument twice; the hysteresis makes that harmless. */
    method MinEqAvrgLen(rate: u32, count: nat) returns (numProceed: nat)
      modifies this
      ensures range == NextRange(old(range), rate)
      ensures range == HighRate <==> rate > 10500 || (rate >= 7000 && old(range) == HighRate)
      ensures var length := if range == HighRate then 30 else 80;
        RecordLength(range) == length && numProceed == if length <= count then length else count
    {
      RangeSettles(range, rate);
      var first := AvrgLen(rate);
      if first <= count {
        numProceed := AvrgLen(rate);
      } else {
        numProceed := count;
      }
    }
  }

  /** A second evaluation with the same rate changes nothing, from either range. */
  lemma RangeSettles(range: Range, rate: u32)
    ensures NextRange(NextRange(range, rate), rate) == NextRange(range, rate)
  {
  }

  // ----- Significance tests -----

  function Int32(x: u32): int { if x < 0x8000_0000 then x else x - 0x1_0000_0000 }

  /** Short-term excursion, in the code's fixed-width arithmetic. */
  predicate Test1(lg: u32, st: u32, numShort: nat)
    requires numShort > 0
  {
    var thresh := U32(U32(lg * RES_COUNT_RATE) * 60) / numShort;
    var d := Int32(lg) - Int32(st);
    U32(d * d) > U32(20 * thresh)
  }

  /** The threshold the code compares with, after its two wrap-arounds. */
  function Threshold1(lg: u32): u32 { U32(20 * (U32(U32(lg * RES_COUNT_RATE) * 60) / NUM_BUF_MIN)) }

  lemma ThresholdIsExact(lg: nat)
    requires lg <= 2863311
    ensures Threshold1(lg) == 1500 * lg
  {
    U32Small(lg * RES_COUNT_RATE);
    U32Small(10 * lg * 60);
    U32Small(20 * (75 * lg));
    hide U32;
    assert 10 * lg * 60 / NUM_BUF_MIN == 75 * lg;
  }

  /** What the short-term test should decide. */
  predicate Excursion1(lg: int, st: int) { (lg - st) * (lg - st) > 1500 * lg }

  /**
    For every pair of rates the buffer can produce, with signed products that wrap as the machine's
    do: while rate and difference are in bounds the test is right. Past the bound on the rate alone
    there is no true excursion left, past the bound on the difference alone there always is one, and
    there is one from a difference of 242862 on whatever the rate; so there the test is wrong exactly
    when it fires, or stays silent, respectively.
   */
  lemma Test1Exact(lg: u32, st: u32)
    requires lg <= 600 * 0xffff && st <= 600 * 0xffff
    ensures var near := -0x1_0000 < lg - st < 0x1_0000;
      && (lg <= 2863311 && near ==> (Test1(lg, st, NUM_BUF_MIN) <==> Excursion1(lg, st)))
      && (lg > 2863311 && near ==> !Excursion1(lg, st))
      && (lg <= 2863311 && !near ==> Excursion1(lg, st))
      && (!(-242862 < lg - st < 242862) ==> Excursion1(lg, st))
  {
    var d := lg - st;
    SquareAtLeast(d, 0x1_0000);
    SquareAtLeast(d, 242862);
    hide U32;
    assert Int32(lg) - Int32(st) == d;
    if lg <= 2863311 {
      ThresholdIsExact(lg);
    }
    if 0 < d + 0x1_0000 && d < 0x1_0000 {
      NonNegativeSquare(d);
      U32Small(d * d);
    }
  }

  /** Between the bounds, past both of them, the test errs either way. */
  lemma Test1PastBothBounds()
    ensures !Test1(4000000, 3907318, NUM_BUF_MIN) && Excursion1(4000000, 3907318)
    ensures Test1(5726624, 5656624, NUM_BUF_MIN) && !Excursion1(5726624, 5656624)
  {
    WrappedThreshold(4000000, 1, 1705032704);
    WrappedThreshold(5726624, 2, 1408);
    DivModUnique(8589953124, 0x1_0000_0000, 2, 18532);
    DivModUnique(4900000000, 0x1_0000_0000, 1, 605032704);
    hide Threshold1;
    assert 92682 * 92682 == 8589953124 && 70000 * 70000 == 4900000000;
  }

  lemma WrappedThreshold(lg: nat, q: nat, r: u32)
    requires lg <= 7158278 && 1500 * lg == q * 0x1_0000_0000 + r
    ensures Threshold1(lg) == r
    ensures U32(20 * (U32(U32(lg * RES_COUNT_RATE) * 60) / NUM_BUF_MIN)) == r
  {
    U32Small(lg * RES_COUNT_RATE);
    U32Small(10 * lg * 60);
    DivModUnique(600 * lg, NUM_BUF_MIN, 75 * lg, 0);
    DivModUnique(1500 * lg, 0x1_0000_0000, q, r);
    hide U32;
  }

  lemma NonNegativeSquare(d: int)
    ensures d * d >= 0
  {
  }

  lemma U32Small(x: nat)
    requires x < 0x1_0000_0000
    ensures U32(x) == x
  {
  }

  /** One count rate step higher the threshold wraps and the test fires on a ten-thousandth of its variance. */
  lemma Test1BoundIsSharp()
    ensures var lg, st := 2863312, 2863212;
            Test1(lg, st, NUM_BUF_MIN) && !Excursion1(lg, st)
  {
    assert U32(28633120 * 60) == 1717987200;
    assert U32(20 * 214748400) == 704;
  }

  /** Long-term drift between the two halves of the record, in the code's fixed-width arithmetic. */
  predicate Test2(sumNew: u32, sumOld: u32)
  {
    var thresh := U32(U32(sumOld + sumNew) * 7);
    var d := U32(sumNew - sumOld);
    U32(d * d) > thresh
  }

  /** The squared difference survives the unsigned wrap-around of the difference. */
  lemma WrappedSquare(d: int)
    requires -0x1_0000_0000 < d < 0x1_0000_0000
    ensures U32(U32(d) * U32(d)) == U32(d * d)
  {
    var m := 0x1_0000_0000;
    if d < 0 {
      assert U32(d) == d + m;
      assert (d + m) * (d + m) == d * d + m * (2 * d + m);
      ModuloMultiple(d * d, 2 * d + m);
    }
  }

  lemma ModuloMultiple(x: int, k: int)
    ensures U32(x + 0x1_0000_0000 * k) == U32(x)
  {
  }

  lemma SquareAtLeast(d: int, b: nat)
    ensures 0 < d + b && d < b ==> d * d < b * b
    ensures !(0 < d + b && d < b) ==> d * d >= b * b
  {
    var a := if d < 0 then -d else d;
    assert d * d == a * a;
    if a < b {
      SquareLess(a, b);
    } else {
      SquareLessEqual(b, a);
    }
  }

  /** What the long-term test should decide. */
  predicate Drift(sumNew: int, sumOld: int) { (sumNew - sumOld) * (sumNew - sumOld) > 7 * (sumNew + sumOld) }

  /**
    On every pair of sums the ring buffer can produce: while the halves differ by less than 65536
    the test is right, and from there on there always is a drift, so the test is wrong exactly when
    it stays silent.
   */
  lemma Test2Exact(sumNew: u32, sumOld: u32)
    requires sumNew <= 0xffff * 40 && sumOld <= 0xffff * 40
    ensures if -0x1_0000 < sumNew - sumOld < 0x1_0000 then Test2(sumNew, sumOld)
        <==> Drift(sumNew, sumOld) else Drift(sumNew, sumOld)
  {
    var d := sumNew - sumOld;
    WrappedSquare(d);
    SquareAtLeast(d, 0x1_0000);
    hide U32;
    U32Small(sumOld + sumNew);
    U32Small((sumOld + sumNew) * 7);
    if 0 < d + 0x1_0000 && d < 0x1_0000 {
      NonNegativeSquare(d);
      U32Small(d * d);
    }
  }

  /** A jump of exactly 65536 counts goes unnoticed. */
  lemma Test2MissesAWrappedJump()
    ensures !Test2(65536, 0) && Drift(65536, 0)
  {
    assert U32(65536 * 65536) == 0;
  }

  // ----- The main loop's display step -----

  /**
    The samples the timer interrupt pushes during one step: before the snapshot, one list before each
    read, then before the first test's cut, between the two, and after the second.
   */
  datatype Ticks = Ticks(early: seq<u32>, during: seq<seq<u32>>, late: seq<u32>, between: seq<u32>, after: seq<u32>)

  function LateTicks(ticks: Ticks): nat { |ticks.late| + |ticks.between| + |ticks.after| }

  /** What remains of `count` samples when the tests say that the rate has changed, with ticks in between. */
  function Remaining(excursion: bool, drift: bool, count: nat, ticks: Ticks): nat
  {
    var first := if excursion then NUM_BUF_MIN else Capped(count + |ticks.late|);
    var second := if drift then NUM_BUF_MIN else Capped(first + |ticks.between|);
    Capped(second + |ticks.after|)
  }

  /**
    How many of `all` samples remain after rates `lg` and `st` and sums `newer` and `older` within the
    bounds of the tests: with a drift the newest eight and those after the second cut, with an
    excursion alone the newest eight and those after the first, and all of them otherwise.
   */
  predicate Kept(lg: int, st: int, newer: int, older: int, all: nat, ticks: Ticks, count: nat)
  {
    var bounded1 := lg <= 2863311 && -65536 < lg - st < 65536;
    var bounded2 := -65536 < newer - older < 65536;
    && (bounded2 && Drift(newer, older) ==> count == Capped(8 + |ticks.after|))
    && (bounded1 && bounded2 && !Drift(newer, older) ==>
          count == Capped((if Excursion1(lg, st) then 8 else all + |ticks.late|) + |ticks.between| + |ticks.after|))
  }

  lemma KeptAsDue(lg: u32, st: u32, newer: u32, older: u32, all: nat, ticks: Ticks)
    requires lg <= 600 * 0xffff && st <= 600 * 0xffff && newer <= 0xffff * 40 && older <= 0xffff * 40
    ensures Kept(lg, st, newer, older, all, ticks,
                 Remaining(Test1(lg, st, NUM_BUF_MIN), Test2(newer, older), Capped(all), ticks))
  {
    Test1Exact(lg, st);
    Test2Exact(newer, older);
    hide Test1, Test2, Excursion1, Drift;
  }

  /** Samples of 16 bits keep sums and rates within the bounds of the tests. */
  lemma SumsBounded(seen: seq<u16>)
    requires NUM_BUF_MIN <= |seen| <= NUM_BUF_MAX
    ensures var n := |seen|;
      && 0 <= SumFirst(seen, n / 2) <= 0xffff * 40
      && 0 <= SumFirst(seen, n / 2 * 2) - SumFirst(seen, n / 2) <= 0xffff * 40
      && 600 * SumFirst(seen, n) / n <= 600 * 0xffff
      && 600 * SumFirst(seen, NUM_BUF_MIN) / NUM_BUF_MIN <= 600 * 0xffff
  {
    var n := |seen|;
    SumFirstSpread(seen, 0, n / 2);
    SumFirstSpread(seen, n / 2, n / 2 * 2);
    SumFirstSpread(seen, 0, n);
    SumFirstSpread(seen, 0, NUM_BUF_MIN);
    AverageBound(SumFirst(seen, n), n);
    AverageBound(SumFirst(seen, NUM_BUF_MIN), NUM_BUF_MIN);
  }

  /** What the samples found come to: sums, long-term rate, and what the tests leave of `all` samples. */
  ghost predicate Decided(st: Statistics, rate: u32, seen: seq<u16>, all: nat, ticks: Ticks, count: nat)
    reads st
  {
    && NUM_BUF_MIN == st.numShort <= |seen| && Sums(st, seen)
    && var newer := SumFirst(seen, |seen| / 2);
       var lg, short := 600 * SumFirst(seen, |seen|) / |seen|, 600 * SumFirst(seen, 8) / 8;
       && rate == lg
       && Kept(lg, short, newer, SumFirst(seen, |seen| / 2 * 2) - newer, all, ticks, count)
       && count == Remaining(Test1(st.countRateLg, st.countRateSt, NUM_BUF_MIN), Test2(st.sumNew2, st.sumOld2),
                             Capped(all), ticks)
  }

  lemma FoundDecide(st: Statistics, seen: seq<u16>, all: nat, ticks: Ticks)
    requires NUM_BUF_MIN == st.numShort <= |seen| <= NUM_BUF_MAX && Sums(st, seen)
    requires st.countRateLg == 600 * SumFirst(seen, |seen|) / |seen|
    requires st.countRateSt == 600 * SumFirst(seen, NUM_BUF_MIN) / NUM_BUF_MIN
    ensures Decided(st, st.countRateLg, seen, all, ticks,
                    Remaining(Test1(st.countRateLg, st.countRateSt, NUM_BUF_MIN), Test2(st.sumNew2, st.sumOld2),
                              Capped(all), ticks))
  {
    hide Kept, Remaining, Test1, Test2;
    SumsBounded(seen);
    KeptAsDue(st.countRateLg, st.countRateSt, st.sumNew2, st.sumOld2, all, ticks);
  }

  lemma {:induction false} SumFirstSpread(seen: seq<u16>, j: nat, k: nat)
    requires j <= k <= |seen|
    ensures 0 <= SumFirst(seen, k) - SumFirst(seen, j) <= 0xffff * (k - j)
    decreases k
  {
    if j < k {
      SumFirstSpread(seen, j, k - 1);
    }
  }

  lemma AverageBound(sum: nat, n: nat)
    requires n > 0 && sum <= 0xffff * n
    ensures 600 * sum / n <= 600 * 0xffff
  {
    DivMonotone(600 * sum, 600 * 0xffff * n, n);
    DivModUnique(600 * 0xffff * n, n, 600 * 0xffff, 0);
  }

  class Display {
    const ring: Ring
    const stats: Statistics
    const autoRange: AutoRange
    var rateEstimator: u32

    ghost predicate Valid()
      reads this, ring, ring.rbuf, stats
    {
      ring.Valid() && stats.numShort == NUM_BUF_MIN
    }

    constructor ()
      ensures Valid() && fresh(ring) && fresh(ring.rbuf) && fresh(stats) && fresh(autoRange)
      ensures !ring.doCountStats && rateEstimator == 0 && autoRange.range == LowRate
    {
      ring := new Ring();
      stats := new Statistics();
      autoRange := new AutoRange();
      rateEstimator := 0;
    }

    /** The number of samples the next evaluation uses. */
    ghost function Proceed(range: Range, count: nat): nat
    {
      if RecordLength(range) <= count then RecordLength(range) else count
    }

    /** What the step leaves of an evaluation that began with the record `start`. */
    ghost predicate Evaluated(start: Record, range: Range, rate: u32, ticks: Ticks)
      reads this, ring, ring.rbuf, stats, autoRange
    {
      var s := |start.history| + |ticks.early|;
      var all := start.count + |ticks.early| + TotalLength(ticks.during);
      && Valid() && autoRange.range == NextRange(range, rate)
      && NUM_BUF_MIN <= |ticks.during| <= NUM_BUF_MAX <= s
      && start.history <= ring.history && |ring.history| == s + TotalLength(ticks.during) + LateTicks(ticks)
      && ring.doCountStats == (ticks.early != [] || TotalLength(ticks.during) > 0 || LateTicks(ticks) > 0)
      && Decided(stats, rateEstimator, Seen(ring.history, s, s, ticks.during), all, ticks, ring.count)
    }

    /**
      Evaluates the record when a sample has come since the last time. Every sample that arrives
      during the step asks for another evaluation; those that arrive while the record is read are
      read in place of old ones as `Seen` says.
     */
    method DisplayCountStats(ticks: Ticks, byZero: u32)
      requires Valid()
      requires |ticks.during| == Proceed(NextRange(autoRange.range, rateEstimator), Capped(ring.count + |ticks.early|))
      modifies this, ring, ring.rbuf, stats, autoRange
      ensures Valid()
      ensures !old(ring.doCountStats) ==>
                ring.State() == old(ring.State()) && rateEstimator == old(rateEstimator)
                    && autoRange.range == old(autoRange.range)
      ensures old(ring.doCountStats) && Capped(old(ring.count) + |ticks.early|) < NUM_BUF_MIN ==>
                && Grown(old(ring.State()).(news := false), ring.State(), |ticks.early|)
                && rateEstimator == 0 && autoRange.range == old(autoRange.range)
      ensures old(ring.doCountStats) && Capped(old(ring.count) + |ticks.early|) >= NUM_BUF_MIN ==>
                Evaluated(old(ring.State()), old(autoRange.range), old(rateEstimator), ticks)
    {
      if ring.doCountStats {
        ring.doCountStats := false;
        ring.Interrupts(ticks.early);
        ring.Snapshot();
        if ring.countCpy < stats.numShort {
          rateEstimator := 0;
        } else {
          hide Evaluated, Grown;
          Evaluate(ticks, byZero, old(ring.State()));
        }
      }
    }

    /** The evaluation itself, once the snapshot has been taken. */
    method Evaluate(ticks: Ticks, byZero: u32, ghost start: Record)
      requires Valid() && ring.headCpy == ring.head && ring.countCpy == ring.count >= NUM_BUF_MIN
      requires |ticks.during| == Proceed(NextRange(autoRange.range, rateEstimator), ring.count)
      requires Grown(start.(news := false), ring.State(), |ticks.early|)
      modifies this, ring, ring.rbuf, stats, autoRange
      ensures Evaluated(start, old(autoRange.range), old(rateEstimator), ticks)
    {
      hide Sums, SumFirst, Seen, Slot, RootFits, GoodTolerance, Test1, Test2, TotalLength, Remaining, Decided;
      var numProceed := autoRange.MinEqAvrgLen(rateEstimator, ring.countCpy);
      SnappedNow(ring);
      assert |ring.history| >= NUM_BUF_MAX && ring.count == Capped(ring.count);
      hide Ring.Valid;
      ghost var s := |ring.history|;
      GetStats(stats, ring, numProceed, ticks.during, byZero, s);
      rateEstimator := stats.countRateLg;
      ghost var history := ring.history;
      assert ring.Valid() by { assert Snapped(ring, s); }
      ghost var seen := Seen(history, s, s, ticks.during);
      ghost var all := start.count + |ticks.early| + TotalLength(ticks.during);
      FoundDecide(stats, seen, all, ticks);
      Forget(ticks);
      SeenLater(history, ring.history, s, s, ticks.during);
    }

    /** After a change of the rate only the newest samples count; the interrupt may push more at any time. */
    method Forget(ticks: Ticks)
      requires Valid() && ring.count >= NUM_BUF_MIN
      modifies ring`head, ring`count, ring`history, ring`doCountStats, ring.rbuf
      ensures ring.Valid() && stats.numShort == NUM_BUF_MIN && ring.count == Remaining(
          Test1(stats.countRateLg, stats.countRateSt, NUM_BUF_MIN), Test2(stats.sumNew2, stats.sumOld2),
          old(ring.count), ticks)
      ensures old(ring.history) <= ring.history && |ring.history| == |old(ring.history)| + LateTicks(ticks)
      ensures ring.doCountStats == (old(ring.doCountStats) || LateTicks(ticks) > 0)
    {
      hide Test1, Test2, Slot, Ring.Valid;
      ring.Interrupts(ticks.late);
      if Test1(stats.countRateLg, stats.countRateSt, stats.numShort) {
        ring.Shrink(stats.numShort);
      }
      ring.Interrupts(ticks.between);
      if Test2(stats.sumNew2, stats.sumOld2) {
        ring.Shrink(stats.numShort);
      }
      ring.Interrupts(ticks.after);
    }
  }
}
