/**
 The records that evidence points yield: basis points between prices, and what a record says about
 the prices when a point was taken and when its horizon was due.
 */
module EvidenceRecords {
  import opened Machine

  datatype Episode = Episode(symbol: string, anchorObservedAtMs: U64)

  datatype Point = Point(
    eventTimeMs: U64,
    episode: Episode,
    anchorTicks: I64,
    priceTicks: I64,
    indexTicks: I64,
    residualBps: I64,
    done: seq<U64>)

  datatype EvidenceRecord = EvidenceRecord(
    symbol: string,
    episode: Episode,
    startEventTimeMs: U64,
    endEventTimeMs: U64,
    horizonMs: U64,
    residualStartBps: I64,
    residualEndBps: I64,
    signedImprovementBps: I64,
    priceIndexChangeBps: I64,
    indexAnchorChangeBps: I64)

  function BasisBps(value: I64, reference: I64): I64
  {
    if reference <= 0 then 0
    else ClampI64(TruncDiv((value - reference) * 10_000, reference))
  }

  function Signum(x: int): int { if x > 0 then 1 else if x < 0 then -1 else 0 }

  function DueAt(p: Point, horizon: U64): U64 { SatAddU64(p.eventTimeMs, horizon) }

  /** The record a point yields for a horizon when it is flushed with these prices. */
  function RecordOf(symbol: string, p: Point, horizon: U64, now: U64, price: I64, index: I64): EvidenceRecord
  {
    var end := BasisBps(price, p.anchorTicks);
    EvidenceRecord(
      symbol, p.episode, p.eventTimeMs, now, horizon, p.residualBps, end,
      WrapI64(-Signum(p.residualBps) * WrapI64(end - p.residualBps)),
      SatSubI64(BasisBps(price, index), BasisBps(p.priceTicks, p.indexTicks)),
      SatSubI64(BasisBps(index, p.anchorTicks), BasisBps(p.indexTicks, p.anchorTicks)))
  }

  /** Prices at the time of a flush. */
  datatype Tick = Tick(symbol: string, now: U64, price: I64, index: I64)

  function RecordAt(x: Tick, p: Point, h: U64): EvidenceRecord
  {
    RecordOf(x.symbol, p, h, x.now, x.price, x.index)
  }

  lemma RecordHorizon(x: Tick, p: Point, h: U64)
    ensures RecordAt(x, p, h).horizonMs == h
  {
  }

  // ---------------------------------------------------------------- what a record says

  /**
   A basis: ten thousand times the distance of a value from its reference, in units of the
   reference, truncated toward zero and held within an `i64`; nothing without a positive reference.
   */
  ghost predicate IsBasis(b: int, value: int, reference: int)
  {
    var scaled := (value - reference) * 10_000;
    if reference <= 0 then b == 0
    else if scaled >= 0 then Truncates(b, scaled, reference, I64_MAX)
    else Truncates(-b, -scaled, reference, -I64_MIN)
  }

  /** The whole part of a quotient that is not negative, held at a limit. */
  ghost predicate Truncates(b: int, a: int, d: int, limit: int)
  {
    0 <= b <= limit && b * d <= a && (a < b * d + d || b == limit)
  }

  /** A change: of one basis against another, the later minus the earlier, held within an `i64`. */
  ghost predicate IsChange(change: int, value: int, reference: int, oldValue: int, oldReference: int)
  {
    exists b: I64, c: I64 ::
      && IsBasis(b, value, reference) && IsBasis(c, oldValue, oldReference)
      && change == Max(I64_MIN, Min(b - c, I64_MAX))
  }

  /** What a record states, on the prices of its point and those of the moment it was written. */
  ghost predicate States(p: Point, x: Tick, r: EvidenceRecord)
  {
    && r.symbol == x.symbol && r.episode == p.episode
    && r.startEventTimeMs == p.eventTimeMs && r.endEventTimeMs == x.now
    && r.residualStartBps == p.residualBps && IsBasis(r.residualEndBps, x.price, p.anchorTicks)
    && IsChange(r.priceIndexChangeBps, x.price, x.index, p.priceTicks, p.indexTicks)
    && IsChange(r.indexAnchorChangeBps, x.index, p.anchorTicks, p.indexTicks, p.anchorTicks)
    && (p.residualBps == 0 ==> r.signedImprovementBps == 0)
    && (p.residualBps > 0 && p.residualBps - r.residualEndBps <= I64_MAX ==>
          r.signedImprovementBps == p.residualBps - r.residualEndBps)
    && (p.residualBps < 0 && r.residualEndBps - p.residualBps <= I64_MAX ==>
          r.signedImprovementBps == r.residualEndBps - p.residualBps)
  }

  lemma BasisIsBasis(value: I64, reference: I64)
    ensures IsBasis(BasisBps(value, reference), value, reference)
  {
    if reference > 0 {
      var scaled := (value - reference) * 10_000;
      if scaled >= 0 {
        HeldAt(scaled, reference, I64_MAX);
      } else {
        HeldAt(-scaled, reference, -I64_MIN);
      }
    }
  }

  lemma HeldAt(a: nat, d: int, limit: nat)
    requires d > 0
    ensures Truncates(Min(a / d, limit), a, d, limit)
  {
    var q := Quotient(a, d);
    if q > limit { Scale(limit, q, d); }
  }

  lemma BasisIsUnique(b: int, c: int, value: int, reference: int)
    requires IsBasis(b, value, reference) && IsBasis(c, value, reference)
    ensures b == c
  {
    var scaled := (value - reference) * 10_000;
    if reference > 0 {
      if scaled >= 0 {
        OneTruncates(b, c, scaled, reference, I64_MAX);
      } else {
        OneTruncates(-b, -c, -scaled, reference, -I64_MIN);
      }
    }
  }

  lemma OneTruncates(b: int, c: int, a: int, d: int, limit: int)
    requires d > 0 && Truncates(b, a, d, limit) && Truncates(c, a, d, limit)
    ensures b == c
  {
    assert (b + 1) * d == b * d + d && (c + 1) * d == c * d + d;
    if b < c { Scale(b + 1, c, d); }
    if c < b { Scale(c + 1, b, d); }
  }

  /** An unchanged index has not moved against the anchor, and with an unchanged price nothing has changed. */
  lemma NothingChanged(p: Point, x: Tick, r: EvidenceRecord)
    requires States(p, x, r) && x.index == p.indexTicks
    ensures r.indexAnchorChangeBps == 0
    ensures x.price == p.priceTicks ==> r.priceIndexChangeBps == 0
  {
    NoChange(r.indexAnchorChangeBps, x.index, p.anchorTicks);
    if x.price == p.priceTicks {
      NoChange(r.priceIndexChangeBps, x.price, x.index);
    }
  }

  lemma NoChange(change: int, value: int, reference: int)
    ensures IsChange(change, value, reference, value, reference) ==> change == 0
  {
    if IsChange(change, value, reference, value, reference) {
      var b: I64, c: I64 :|
        && IsBasis(b, value, reference) && IsBasis(c, value, reference)
        && change == Max(I64_MIN, Min(b - c, I64_MAX));
      BasisIsUnique(b, c, value, reference);
    }
  }

  /** Prices close enough that no basis between them is held at a limit. */
  predicate Close(value: int, reference: int)
  {
    reference > 0 && 2 * Abs(value - reference) * 10_000 < I64_MAX * reference
  }

  lemma BasisIsClose(b: int, value: int, reference: int)
    requires Close(value, reference) && IsBasis(b, value, reference)
    ensures 2 * Abs(b) < I64_MAX
    ensures -1.0 < b as real - 10_000.0 * (value as real / reference as real - 1.0) < 1.0
  {
    var scaled := (value - reference) * 10_000;
    Ratio(value, reference);
    assert Abs(value - reference) * 10_000 == Abs(scaled);
    if scaled >= 0 {
      TruncatedBelow(b, scaled, reference, I64_MAX);
      WithinOne(b, scaled, reference);
    } else {
      TruncatedBelow(-b, -scaled, reference, -I64_MIN);
      WithinOne(-b, -scaled, reference);
      NegatedRatio(scaled, reference);
    }
  }

  lemma TruncatedBelow(b: int, a: int, d: int, limit: int)
    requires d > 0 && Truncates(b, a, d, limit) && 2 * a < I64_MAX * d && limit >= I64_MAX
    ensures 2 * b < I64_MAX && b * d <= a < b * d + d
  {
    if 2 * b >= I64_MAX {
      Scale(I64_MAX, 2 * b, d);
    }
    assert 2 * b * d == 2 * (b * d);
  }

  /** A quotient and its whole part are less than one apart. */
  lemma WithinOne(b: int, a: int, d: int)
    requires d > 0 && b * d <= a < b * d + d
    ensures a as real / d as real - 1.0 < b as real <= a as real / d as real
  {
    ProductAsReal(b, d);
    Between(b as real, a as real, d as real);
  }

  lemma ProductAsReal(b: int, d: int)
    ensures (b * d) as real == b as real * d as real
  {
  }

  lemma Between(b: real, a: real, d: real)
    requires d > 0.0 && b * d <= a < b * d + d
    ensures a / d - 1.0 < b <= a / d
  {
    var q := a / d;
    DivideBack(a, d);
    OneMore(b, d);
    if q < b {
      ProductsGrow(q, b, d);
    }
    if b + 1.0 <= q {
      ProductsGrow(b + 1.0, q, d);
    }
  }

  lemma DivideBack(a: real, d: real)
    requires d > 0.0
    ensures a / d * d == a
  {
  }

  lemma OneMore(b: real, d: real)
    ensures (b + 1.0) * d == b * d + d
  {
  }

  lemma ProductsGrow(x: real, y: real, d: real)
    requires d > 0.0
    ensures x < y ==> x * d < y * d
    ensures x <= y ==> x * d <= y * d
  {
  }

  lemma Cancel(x: real, d: real)
    requires d > 0.0
    ensures x * d / d == x
  {
  }

  lemma NegatedRatio(a: int, d: int)
    requires d > 0
    ensures (-a) as real / d as real == -(a as real / d as real)
  {
  }

  lemma Ratio(value: int, reference: int)
    requires reference > 0
    ensures ((value - reference) * 10_000) as real / reference as real
         == 10_000.0 * (value as real / reference as real - 1.0)
  {
    assert ((value - reference) * 10_000) as real == 10_000.0 * (value as real - reference as real);
    RealRatio(value as real, reference as real);
  }

  lemma RealRatio(v: real, m: real)
    requires m > 0.0
    ensures 10_000.0 * (v - m) / m == 10_000.0 * (v / m - 1.0)
  {
    var q := v / m;
    var x := 10_000.0 * (q - 1.0);
    Cancel(x, m);
    Distribute(q, m);
    assert q * m == v;
    assert x * m == 10_000.0 * (v - m);
  }

  lemma Distribute(q: real, m: real)
    ensures 10_000.0 * (q - 1.0) * m == 10_000.0 * (q * m - m)
  {
  }

  /**
   Between prices that are close enough both changes are exact to within two basis points: of the
   ratio of price and index, and of the movement of the index in units of the anchor.
   */
  lemma ChangesAreClose(p: Point, x: Tick, r: EvidenceRecord)
    requires States(p, x, r)
    requires Close(x.price, x.index) && Close(p.priceTicks, p.indexTicks)
    requires Close(x.index, p.anchorTicks) && Close(p.indexTicks, p.anchorTicks)
    ensures var ratio := x.price as real / x.index as real - p.priceTicks as real / p.indexTicks as real;
      -2.0 < r.priceIndexChangeBps as real - 10_000.0 * ratio < 2.0
    ensures var moved := (x.index - p.indexTicks) as real / p.anchorTicks as real;
      -2.0 < r.indexAnchorChangeBps as real - 10_000.0 * moved < 2.0
  {
    ChangeIsClose(r.priceIndexChangeBps, x.price, x.index, p.priceTicks, p.indexTicks);
    ChangeIsClose(r.indexAnchorChangeBps, x.index, p.anchorTicks, p.indexTicks, p.anchorTicks);
    hide IsChange, IsBasis, Close;
    Difference(x.index as real, p.indexTicks as real, p.anchorTicks as real);
  }

  lemma Difference(a: real, b: real, d: real)
    requires d > 0.0
    ensures a / d - b / d == (a - b) / d
  {
  }

  lemma ChangeIsClose(change: int, value: int, reference: int, oldValue: int, oldReference: int)
    requires IsChange(change, value, reference, oldValue, oldReference)
    requires Close(value, reference) && Close(oldValue, oldReference)
    ensures var ratio := value as real / reference as real - oldValue as real / oldReference as real;
      -2.0 < change as real - 10_000.0 * ratio < 2.0
  {
    var b: I64, c: I64 :|
      && IsBasis(b, value, reference) && IsBasis(c, oldValue, oldReference)
      && change == Max(I64_MIN, Min(b - c, I64_MAX));
    BasisIsClose(b, value, reference);
    BasisIsClose(c, oldValue, oldReference);
    hide IsBasis, Close;
    assert change == b - c;
  }

  lemma RecordStates(x: Tick, p: Point, h: U64)
    ensures States(p, x, RecordAt(x, p, h)) && RecordAt(x, p, h).horizonMs == h
  {
    BasisIsBasis(x.price, p.anchorTicks);
    ChangeIsChange(x.price, x.index, p.priceTicks, p.indexTicks);
    ChangeIsChange(x.index, p.anchorTicks, p.indexTicks, p.anchorTicks);
    WrappedImprovement(p.residualBps, BasisBps(x.price, p.anchorTicks));
    hide BasisBps, WrapI64, IsBasis, IsChange;
  }

  lemma ChangeIsChange(value: I64, reference: I64, oldValue: I64, oldReference: I64)
    ensures IsChange(
      SatSubI64(BasisBps(value, reference), BasisBps(oldValue, oldReference)),
      value, reference, oldValue, oldReference)
  {
    BasisIsBasis(value, reference);
    BasisIsBasis(oldValue, oldReference);
    hide BasisBps, IsBasis;
  }

  /** What a record states does not depend on what its point has been served already. */
  lemma StatesForAll(p: Point, q: Point, x: Tick, r: EvidenceRecord)
    requires p.(done := []) == q.(done := [])
    ensures States(p, x, r) <==> States(q, x, r)
  {
  }

  // ---------------------------------------------------------------- the improvement

  /** How far a residual moved towards zero, without any overflow. */
  function ExactImprovement(start: int, end: int): int { -Signum(start) * (end - start) }

  /**
   The recorded improvement is the exact one unless a positive residual has fallen, or a negative
   one risen, by more than an `i64` holds.
   */
  predicate ImprovementFits(residual: I64, price: I64, anchor: I64)
  {
    var end := BasisBps(price, anchor);
    (residual > 0 ==> residual - end <= I64_MAX) && (residual < 0 ==> end - residual <= I64_MAX)
  }

  lemma ImprovementIsExact(symbol: string, p: Point, h: U64, now: U64, price: I64, index: I64)
    ensures RecordOf(symbol, p, h, now, price, index).signedImprovementBps
        == ExactImprovement(p.residualBps, BasisBps(price, p.anchorTicks))
      <==> ImprovementFits(p.residualBps, price, p.anchorTicks)
  {
    hide BasisBps, WrapI64;
    WrappedImprovement(p.residualBps, BasisBps(price, p.anchorTicks));
  }

  lemma WrappedImprovement(start: int, end: int)
    requires I64_MIN <= start <= I64_MAX && I64_MIN <= end <= I64_MAX
    ensures WrapI64(-Signum(start) * WrapI64(end - start)) == ExactImprovement(start, end)
      <==> ExactImprovement(start, end) <= I64_MAX
  {
    var step: int := WrapI64(end - start);
    WrapIsExact(end - start);
    WrapIsExact(step);
    WrapIsExact(-step);
    WrapIsExact(0);
    hide WrapI64;
    assert start > 0 ==> -Signum(start) * step == -step;
    assert start < 0 ==> -Signum(start) * step == step;
    assert start == 0 ==> -Signum(start) * step == 0;
  }

  lemma WrapIsExact(x: int)
    requires -0x1_0000_0000_0000_0000 < x < 0x1_0000_0000_0000_0000
    ensures WrapI64(x) == if x > I64_MAX then x - 0x1_0000_0000_0000_0000
      else if x < I64_MIN then x + 0x1_0000_0000_0000_0000 else x
  {
  }

  /** Positive prices never lie more than the whole reference below it. */
  lemma BasisIsBounded(value: I64, reference: I64)
    requires value > 0
    ensures BasisBps(value, reference) >= -10_000
  {
    hide TruncDiv;
    if reference > 0 {
      var gap := (value - reference) * 10_000;
      if gap >= 0 {
        TruncatedQuotient(gap, reference);
      } else {
        FractionIsBounded(reference - value, reference);
        TruncatedQuotient(-gap, reference);
        assert -gap == (reference - value) * 10_000;
      }
    }
  }

  lemma TruncatedQuotient(a: int, b: int)
    requires a >= 0 && b > 0
    ensures TruncDiv(a, b) == Quotient(a, b)
    ensures a > 0 ==> TruncDiv(-a, b) == -(Quotient(a, b) as int)
  {
  }

  lemma FractionIsBounded(part: nat, whole: int)
    requires 0 < part <= whole
    ensures Quotient(part * 10_000, whole) <= 10_000
  {
    QuotientWithin(part * 10_000, whole, 0, 10_000);
  }
}
