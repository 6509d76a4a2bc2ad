/**
 Truncating means whose divisor is a saturating counter: when they stay within the range of the
 values they average, although the counter may have stopped counting.
 */
module SaturatedMeans {
  import opened Machine

  /** A truncating mean, clamped to `i64`, over a `u64` counter that saturates. */
  function SaturatedMean(sum: int, count: nat): (mean: I64)
  {
    if count == 0 then 0 else ClampI64(TruncDiv(sum, Saturate(count)))
  }

  /** A sum that `count` values between two bounds can have. */
  predicate Spans(sum: int, count: int, low: int, high: int)
  {
    low * count <= sum <= high * count
  }

  /**
   What the counter has missed is too little to push a mean past a bound, or the mean is clamped
   to that bound anyway. A counter that has not filled up has missed nothing.
   */
  predicate CounterSuffices(count: nat, low: int, high: int)
  {
    var missed := count - Saturate(count);
    && (high * missed < Saturate(count) || high >= I64_MAX)
    && (-Saturate(count) < low * missed || low <= I64_MIN)
  }

  lemma ExactCountersSuffice(count: nat, low: int, high: int)
    requires 0 < count <= U64_MAX
    ensures CounterSuffices(count, low, high)
  {
  }

  lemma Negated(a: int, b: int)
    requires b > 0
    ensures TruncDiv(-a, b) == -TruncDiv(a, b)
  {
  }

  lemma AtMost(a: int, b: int, high: int)
    requires b > 0 && (a <= high * b || (high >= 0 && a < high * b + b))
    ensures TruncDiv(a, b) <= high
  {
    assert (high + 1) * b == high * b + b && -high * b == -(high * b);
    if a >= 0 {
      var q := Quotient(a, b);
      if q > high {
        Scale(high + 1, q, b);
      }
    } else if high < 0 {
      var q := Quotient(-a, b);
      assert (q + 1) * b == q * b + b;
      if q < -high {
        Scale(q + 1, -high, b);
      }
    }
  }

  lemma Exceeds(a: int, b: int, high: int)
    requires b > 0 && high >= 0 && a >= high * b + b
    ensures TruncDiv(a, b) > high
  {
    Scale(0, high, b);
    var q := Quotient(a, b);
    if q <= high {
      Scale(q, high, b);
    }
  }

  /** The count apart into what the counter shows and what it has missed. */
  lemma SplitCount(x: int, count: nat)
    ensures var d, missed := Saturate(count), count - Saturate(count);
      && missed >= 0 && x * count == x * d + x * missed
      && (x >= 0 ==> x * missed >= 0) && (x <= 0 ==> x * missed <= 0)
  {
    var d, missed := Saturate(count), count - Saturate(count);
    assert x * (d + missed) == x * d + x * missed;
    if x >= 0 { Scale(0, x, missed); } else { Scale(x, 0, missed); }
  }

  lemma QuotientAtMost(sum: int, count: nat, low: int, high: int)
    requires count > 0 && Spans(sum, count, low, high) && CounterSuffices(count, low, high)
    ensures TruncDiv(sum, Saturate(count)) <= high || high >= I64_MAX
  {
    if high >= I64_MAX {
      return;
    }
    SplitCount(high, count);
    hide TruncDiv;
    AtMost(sum, Saturate(count), high);
  }

  lemma QuotientAtLeast(sum: int, count: nat, low: int, high: int)
    requires count > 0 && Spans(sum, count, low, high) && CounterSuffices(count, low, high)
    ensures TruncDiv(sum, Saturate(count)) >= low || low <= I64_MIN
  {
    if low <= I64_MIN {
      return;
    }
    var d := Saturate(count);
    SplitCount(low, count);
    hide TruncDiv;
    assert -low * d == -(low * d);
    AtMost(-sum, d, -low);
    Negated(sum, d);
  }

  /** Within the condition the mean never leaves the range of the values. */
  lemma MeanWithin(sum: int, count: nat, low: int, high: int)
    requires count > 0 && I64_MIN <= low && high <= I64_MAX
    requires Spans(sum, count, low, high) && CounterSuffices(count, low, high)
    ensures low <= SaturatedMean(sum, count) <= high
  {
    hide TruncDiv, CounterSuffices, Spans;
    QuotientAtMost(sum, count, low, high);
    QuotientAtLeast(sum, count, low, high);
    LowIsNotAbove(sum, count, low, high);
  }

  lemma LowIsNotAbove(sum: int, count: nat, low: int, high: int)
    requires count > 0 && Spans(sum, count, low, high)
    ensures low <= high
  {
    if low > high {
      assert (high + 1) * count == high * count + count;
      Scale(high + 1, low, count);
    }
  }

  lemma HighestMeanExceeds(count: nat, high: I64)
    requires count > 0 && high < I64_MAX && high * (count - Saturate(count)) >= Saturate(count)
    ensures SaturatedMean(high * count, count) > high
  {
    SplitCount(high, count);
    hide TruncDiv;
    Exceeds(high * count, Saturate(count), high);
  }

  lemma LowestMeanFallsShort(count: nat, low: I64)
    requires count > 0 && low > I64_MIN && low * (count - Saturate(count)) <= -Saturate(count)
    ensures SaturatedMean(low * count, count) < low
  {
    var d := Saturate(count);
    SplitCount(low, count);
    hide TruncDiv;
    assert -low * d == -(low * d);
    Exceeds(-(low * count), d, -low);
    Negated(low * count, d);
  }

  /** Every sum that so many values between the bounds can have gives a mean between them. */
  ghost predicate EveryMeanIsWithin(count: nat, low: int, high: int)
  {
    forall sum :: Spans(sum, count, low, high) ==> low <= SaturatedMean(sum, count) <= high
  }

  /** The condition is exact for any bounds: without it some values between them have a mean outside. */
  lemma MeansStayWithinExactly(count: nat, low: I64, high: I64)
    requires count > 0 && low <= high
    ensures EveryMeanIsWithin(count, low, high) <==> CounterSuffices(count, low, high)
  {
    hide SaturatedMean;
    if CounterSuffices(count, low, high) {
      forall sum | Spans(sum, count, low, high) ensures low <= SaturatedMean(sum, count) <= high {
        MeanWithin(sum, count, low, high);
      }
    } else {
      Scale(low, high, count);
      assert Spans(high * count, count, low, high) && Spans(low * count, count, low, high);
      if high * (count - Saturate(count)) >= Saturate(count) && high < I64_MAX {
        HighestMeanExceeds(count, high);
      } else {
        LowestMeanFallsShort(count, low);
      }
    }
  }

  /** In particular equal values are their own mean if and only if it holds. */
  lemma EqualValuesMean(v: I64, count: nat)
    requires count > 0
    ensures SaturatedMean(v * count, count) == v <==> CounterSuffices(count, v, v)
  {
    MeansStayWithinExactly(count, v, v);
    hide SaturatedMean, CounterSuffices;
    assert Spans(v * count, count, v, v);
    assert forall sum :: Spans(sum, count, v, v) ==> sum == v * count;
  }

  lemma SmallerCountsSuffice(count: nat, smaller: nat, low: int, high: int)
    requires 0 < smaller <= count && CounterSuffices(count, low, high)
    ensures CounterSuffices(smaller, low, high)
  {
    var a, b := count - Saturate(count), smaller - Saturate(smaller);
    if b == 0 {
      assert high * b == 0 && low * b == 0;
    } else {
      SplitCount(high, smaller);
      SplitCount(low, smaller);
      if high > 0 { Grows(high, b, a); }
      if low < 0 { Grows(-low, b, a); assert -low * b == -(low * b) && -low * a == -(low * a); }
    }
  }

  lemma Grows(x: int, a: int, b: int)
    requires x >= 0 && a <= b
    ensures x * a <= x * b
  {
  }
}
