/** The ring buffer of per-tick counts that the timer interrupt fills, firmware/perso-geiger-lcd.h. */
module RingBuffer {
  import opened Bytes

  const NUM_BUF_MIN := 8
  const NUM_BUF_MAX := 80

  /** The place of the sample that is `j` older than the one at `head`. */
  function Slot(head: nat, j: nat): (s: nat)
    requires head < NUM_BUF_MAX && j < NUM_BUF_MAX
    ensures s < NUM_BUF_MAX
  {
    if j <= head then head - j else head + NUM_BUF_MAX - j
  }

  /** How many samples the record holds once `n` of them belong to it. */
  function Capped(n: nat): nat { if n < NUM_BUF_MAX then n else NUM_BUF_MAX }

  /** What the main loop depends on: the samples pushed, how many of them count, and whether any is new. */
  datatype Record = Record(history: seq<u16>, count: nat, news: bool)

  /** The record after `k` more samples. */
  predicate Grown(before: Record, after: Record, k: nat)
  {
    && before.history <= after.history && |after.history| == |before.history| + k
    && after.count == Capped(before.count + k) && after.news == (before.news || k > 0)
  }

  lemma GrownTwice(a: Record, b: Record, c: Record, j: nat, k: nat)
    requires Grown(a, b, j) && Grown(b, c, k)
    ensures Grown(a, c, j + k)
  {
  }

  lemma NextPlace(head: nat)
    requires head < NUM_BUF_MAX
    ensures (head + 1) % NUM_BUF_MAX == if head < NUM_BUF_MAX - 1 then head + 1 else 0
  {
  }

  class Ring {
    var head: nat
    var count: nat
    var headCpy: nat
    var countCpy: nat
    /** Set with every sample, cleared when the main loop evaluates the record. */
    var doCountStats: bool
    const rbuf: array<u16>
    /** Every sample ever pushed, after the zeros the buffer starts with. */
    ghost var history: seq<u16>

    ghost predicate Valid()
      reads this, rbuf
    {
      && rbuf.Length == NUM_BUF_MAX && head < NUM_BUF_MAX && headCpy < NUM_BUF_MAX
      && NUM_BUF_MAX <= |history|
      && count <= NUM_BUF_MAX && count <= |history| - NUM_BUF_MAX
      && forall j | 0 <= j < NUM_BUF_MAX :: rbuf[Slot(head, j)] == history[|history| - 1 - j]
    }

    ghost function State(): Record
      reads this
    {
      Record(history, count, doCountStats)
    }

    constructor ()
      ensures Valid() && fresh(rbuf) && count == 0 && !doCountStats && history == seq(NUM_BUF_MAX, _ => 0)
    {
      head, count, headCpy, countCpy, doCountStats := 0, 0, 0, 0, false;
      rbuf := new u16[NUM_BUF_MAX](_ => 0);
      history := seq(NUM_BUF_MAX, _ => 0);
    }

    /** Pushes what a 16-bit cell keeps of the accumulated counts. */
    method Update(accuCounts: u32)
      requires Valid()
      modifies this`head, this`count, this`history, rbuf
      ensures Valid() && history == old(history) + [U16(accuCounts)]
      ensures count == Capped(old(count) + 1)
      ensures head == if old(head) < NUM_BUF_MAX - 1 then old(head) + 1 else 0
    {
      ghost var h := head;
      if head < NUM_BUF_MAX - 1 {
        head := head + 1;
      } else {
        head := 0;
      }
      rbuf[head] := U16(accuCounts);
      if count < NUM_BUF_MAX {
        count := count + 1;
      } else {
        count := NUM_BUF_MAX;
      }
      history := history + [U16(accuCounts)];
      forall j | 0 <= j < NUM_BUF_MAX
        ensures rbuf[Slot(head, j)] == history[|history| - 1 - j]
      {
        if j > 0 {
          assert Slot(head, j) == Slot(h, j - 1) != head;
        }
      }
    }

    /** What the timer interrupt does for the display. */
    method Sample(accuCounts: u32)
      requires Valid()
      modifies this`head, this`count, this`history, this`doCountStats, rbuf
      ensures Valid() && doCountStats && history == old(history) + [U16(accuCounts)]
      ensures count == Capped(old(count) + 1)
      ensures head == if old(head) < NUM_BUF_MAX - 1 then old(head) + 1 else 0
    {
      doCountStats := true;
      Update(accuCounts);
    }

    /** The main loop's atomic snapshot of head and count. */
    method Snapshot()
      requires Valid()
      modifies this`headCpy, this`countCpy
      ensures Valid() && headCpy == head && countCpy == count
    {
      headCpy := head;
      countCpy := count;
    }

    /** The main loop forgets all but the newest samples. */
    method Shrink(n: nat)
      requires Valid() && n <= count
      modifies this`count
      ensures Valid() && count == n
    {
      count := n;
    }

    lemma HeadInRange()
      requires Valid()
      ensures head < NUM_BUF_MAX && count == Capped(count)
    {
    }

    /** The timer interrupt firing any number of times between two instructions of the main loop. */
    method Interrupts(arrivals: seq<u32>)
      requires Valid()
      modifies this`head, this`count, this`history, this`doCountStats, rbuf
      ensures Valid() && Grown(old(State()), State(), |arrivals|)
      ensures head == (old(head) + |arrivals|) % NUM_BUF_MAX
    {
      hide Valid;
      HeadInRange();
      var i := 0;
      while i < |arrivals|
        invariant 0 <= i <= |arrivals|
        invariant Valid() && Grown(old(State()), State(), i)
        invariant head == (old(head) + i) % NUM_BUF_MAX
      {
        NextModulo(old(head) + i, NUM_BUF_MAX);
        NextPlace(head);
        ghost var before := State();
        Sample(arrivals[i]);
        GrownTwice(old(State()), before, State(), i, 1);
        i := i + 1;
      }
    }
  }
}
