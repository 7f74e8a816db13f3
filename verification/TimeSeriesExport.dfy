/** The figures the host derives from a time series table, hostware/freemcan-export.c. */
module TimeSeriesExport {
  import opened Bytes
  import opened FrameDefs
  import opened ValueTable

  /** Time since the start of the series, in 32-bit arithmetic. */
  function ElapsedTime(v: View): u32 { U32(v.duration + v.totalDuration * (|v.elements| - 1)) }

  function SumOf(es: seq<u32>): nat
  {
    if es == [] then 0 else SumOf(es[..|es| - 1]) + es[|es| - 1]
  }

  /** The values that count for the minimum: the last one may be incomplete while a slot is open. */
  predicate Considered(v: View, i: nat)
  {
    && i < |v.elements|
    && (|| v.reason == REASON_DONE || v.reason == REASON_RESEND
        || ((v.reason == REASON_ABORTED || v.reason == REASON_INTERMEDIATE)
            && (i + 1 < |v.elements| || v.totalDuration == v.duration)))
  }

  /** The largest of the first `n` values, zero for none. */
  predicate IsMaximum(es: seq<u32>, n: nat, max: u32)
    requires n <= |es|
  {
    (forall j | 0 <= j < n :: es[j] <= max) && (max == 0 || max in es[..n])
  }

  /** The smallest of those first `n` values that count, all ones for none. */
  predicate IsMinimum(v: View, n: nat, min: u32)
    requires n <= |v.elements|
  {
    && (forall j | 0 <= j < n && Considered(v, j) :: min <= v.elements[j])
    && (min == 0xffff_ffff || exists j | 0 <= j < n :: Considered(v, j) && v.elements[j] == min)
  }

  method Totals(v: View) returns (elapsed: u32, total: u32, max: u32, min: u32)
    ensures elapsed == ElapsedTime(v) && total == U32(SumOf(v.elements))
    ensures IsMaximum(v.elements, |v.elements|, max) && IsMinimum(v, |v.elements|, min)
  {
    hide ElapsedTime;
    elapsed := ElapsedTime(v);
    total, max, min := 0, 0, 0xffff_ffff;
    assert IsMinimum(v, 0, min);
    hide Considered, U32, IsMaximum, IsMinimum;
    NoSum();
    MaximumOfNone(v.elements);
    for i := 0 to |v.elements|
      invariant total == U32(SumOf(v.elements[..i]))
      invariant IsMaximum(v.elements, i, max)
      invariant IsMinimum(v, i, min)
    {
      MaximumStep(v.elements, i, max);
      MinimumStep(v, i, min);
      var value := v.elements[i];
      if value > max {
        max := value;
      }
      min := NextMinimum(v, i, min);
      assert v.elements[..i + 1][..i] == v.elements[..i];
      total := AddModulo(total, value, SumOf(v.elements[..i]));
    }
    assert v.elements[..|v.elements|] == v.elements;
  }

  lemma NoSum()
    ensures U32(SumOf([])) == 0
  {
  }

  lemma MaximumOfNone(es: seq<u32>)
    ensures IsMaximum(es, 0, 0)
  {
  }

  lemma MaximumStep(es: seq<u32>, i: nat, max: u32)
    requires i < |es| && IsMaximum(es, i, max)
    ensures IsMaximum(es, i + 1, if es[i] > max then es[i] else max)
  {
    assert es[..i + 1] == es[..i] + [es[i]];
  }

  lemma MinimumStep(v: View, i: nat, min: u32)
    requires i < |v.elements| && IsMinimum(v, i, min)
    ensures IsMinimum(v, i + 1, if Considered(v, i) && v.elements[i] < min then v.elements[i] else min)
  {
    hide Considered;
    if !(Considered(v, i) && v.elements[i] < min) && min != 0xffff_ffff {
      var j :| 0 <= j < i && Considered(v, j) && v.elements[j] == min;
      assert j < i + 1;
    }
  }

  /** Complete slots take part in the minimum, the last one only where it must be complete. */
  method NextMinimum(v: View, i: nat, min: u32) returns (next: u32)
    requires i < |v.elements|
    ensures next == if Considered(v, i) && v.elements[i] < min then v.elements[i] else min
  {
    next := min;
    if v.reason == REASON_DONE || v.reason == REASON_RESEND {
      if v.elements[i] < min {
        next := v.elements[i];
      }
    } else if v.reason == REASON_ABORTED || v.reason == REASON_INTERMEDIATE {
      if i + 1 < |v.elements| || v.totalDuration == v.duration {
        if v.elements[i] < min {
          next := v.elements[i];
        }
      }
    }
  }

  method AddModulo(total: u32, value: nat, ghost sum: nat) returns (next: u32)
    requires total == U32(sum)
    ensures next == U32(sum + value)
  {
    var t: int := total;
    next := U32(t + value);
    var q := sum / 0x1_0000_0000;
    assert sum + value == t + value + q * 0x1_0000_0000;
  }
}
