/**
 The candidate gates over out-of-sample folds: rank statistics, the chain of gates, and the
 promotion policy that drives it. Metrics are reals; the code refuses anything not finite.
 */
module GateStatistics {
  import opened Machine
  import opened Outcomes
  import opened Ranks
  import Text

  const MEDIAN_PPM := 500_000
  const QUARTILE_PPM := 250_000

  // ---------------------------------------------------------------- order statistics

  predicate AtMost(a: real, b: real) { a <= b }

  function UpTo(v: real): real -> bool { (x: real) => x <= v }

  function From(v: real): real -> bool { (x: real) => x >= v }

  /** A private helper, only ever asked for the quartile and the median. */
  function Percentile(values: seq<real>, ppm: nat): real
    requires ppm <= PPM
  {
    if values == [] then 0.0 else Sort(AtMost, values)[RankIndex(|values|, ppm)]
  }

  function Median(values: seq<real>): real { Percentile(values, MEDIAN_PPM) }

  function Distance(center: real): real -> real
  {
    (x: real) => if x - center < 0.0 then center - x else x - center
  }

  function Mad(values: seq<real>): real
  {
    if values == [] then 0.0 else Median(Map(Distance(Median(values)), values))
  }

  lemma SortedCounts(sorted: seq<real>, index: nat, v: real)
    requires index < |sorted| && Sorted(AtMost, sorted)
    ensures sorted[index] >= v <==> Count(From(v), sorted) >= |sorted| - index
    ensures sorted[index] <= v <==> Count(UpTo(v), sorted) >= index + 1
  {
    hide Count;
    var r, n := sorted[index], |sorted|;
    forall i, j | 0 <= i <= j < n ensures sorted[i] <= sorted[j] {
      assert i < j ==> AtMost(sorted[i], sorted[j]);
    }
    if r >= v {
      CountAtLeast(From(v), sorted, index, n);
    } else {
      CountAtLeast(UpTo(r), sorted, 0, index + 1);
      DisjointCounts(UpTo(r), From(v), sorted);
    }
    if r <= v {
      CountAtLeast(UpTo(v), sorted, 0, index + 1);
    } else {
      CountAtLeast(From(r), sorted, index, n);
      DisjointCounts(UpTo(v), From(r), sorted);
    }
  }

  /**
   The percentile is the order statistic at its index: it reaches a value exactly when the
   samples from that index up do, and stays below one exactly when those up to the index do.
   */
  lemma PercentileIsOrderStatistic(values: seq<real>, ppm: nat, v: real)
    requires values != [] && ppm <= PPM
    ensures Percentile(values, ppm) in values
    ensures Percentile(values, ppm) >= v <==> Count(From(v), values) >= |values| - RankIndex(|values|, ppm)
    ensures Percentile(values, ppm) <= v <==> Count(UpTo(v), values) >= RankIndex(|values|, ppm) + 1
  {
    hide Sort, Count, RankIndex, Sorted;
    var sorted, index := Sort(AtMost, values), RankIndex(|values|, ppm);
    SortSorts(AtMost, values);
    SortKeeps(AtMost, values);
    assert sorted[index] in multiset(sorted);
    FilterIgnoresOrder(From(v), sorted, values);
    FilterIgnoresOrder(UpTo(v), sorted, values);
    SortedCounts(sorted, index, v);
  }

  /** Larger ranks give larger values, and no sample lies below rank zero. */
  lemma PercentilesAreOrdered(values: seq<real>, low: nat, high: nat)
    requires values != [] && low <= high <= PPM
    ensures Percentile(values, low) <= Percentile(values, high)
  {
    SortSorts(AtMost, values);
    var i, j := RankIndex(|values|, low), RankIndex(|values|, high);
    RankIndexGrows(|values|, low, high);
    hide Sort, RankIndex;
    assert i < j ==> AtMost(Sort(AtMost, values)[i], Sort(AtMost, values)[j]);
  }

  lemma PercentileIgnoresOrder(a: seq<real>, b: seq<real>, ppm: nat)
    requires SameSamples(a, b) && ppm <= PPM
    ensures Percentile(a, ppm) == Percentile(b, ppm)
  {
    assert |a| == |multiset(a)| == |multiset(b)| == |b|;
    SortIgnoresOrder(AtMost, a, b);
  }

  lemma MadIgnoresOrder(a: seq<real>, b: seq<real>)
    requires SameSamples(a, b)
    ensures Mad(a) == Mad(b)
  {
    assert |a| == |multiset(a)| == |multiset(b)| == |b|;
    if a != [] {
      PercentileIgnoresOrder(a, b, MEDIAN_PPM);
      MapIgnoresOrder(Distance(Median(a)), a, b);
      PercentileIgnoresOrder(Map(Distance(Median(a)), a), Map(Distance(Median(a)), b), MEDIAN_PPM);
    }
  }

  // ---------------------------------------------------------------- extremes

  /** `fold(0.0, f64::max)`. */
  function Worst(values: seq<real>): (r: real)
    ensures r >= 0.0 && (forall v :: v in values ==> v <= r)
    ensures r == 0.0 || r in values
  {
    if values == [] then 0.0
    else
      assert values == [values[0]] + values[1..];
      var rest := Worst(values[1..]);
      if values[0] > rest then values[0] else rest
  }

  /** `fold(f64::INFINITY, f64::min)`, taken only over lists that are not empty. */
  function Smallest(values: seq<real>): (r: real)
    requires values != []
    ensures r in values && forall v :: v in values ==> r <= v
  {
    if |values| == 1 then values[0]
    else
      assert values == [values[0]] + values[1..];
      var rest := Smallest(values[1..]);
      if values[0] < rest then values[0] else rest
  }

  lemma ExtremesIgnoreOrder(a: seq<real>, b: seq<real>)
    requires SameSamples(a, b)
    ensures Worst(a) == Worst(b)
    ensures a != [] ==> b != [] && Smallest(a) == Smallest(b)
  {
    assert forall x :: x in a <==> x in multiset(a);
    assert forall x :: x in b <==> x in multiset(b);
    if a != [] {
      assert a[0] in b;
    }
  }

  // ---------------------------------------------------------------- folds and gates

  datatype Fold = Fold(
    foldId: string,
    stress: bool,
    netReturnBps: real,
    sharpeRatio: Option<real>,
    sortinoRatio: Option<real>,
    maxDrawdownPct: real,
    feeDragBps: real,
    trades: nat)

  datatype Constraints = Constraints(
    minOosFolds: nat,
    minStressFolds: nat,
    minTradesPerOosFold: nat,
    maxOosDrawdownPct: real,
    maxStressDrawdownPct: real,
    maxStressLossBps: real,
    minStressSurvivalPpm: nat,
    minOosReturnBps: real,
    minOosPositiveReturnPpm: nat,
    minLowerQuartileNetReturnBps: real,
    minMedianSharpeRatio: real,
    minMedianSortinoRatio: real,
    maxReturnMadBps: real,
    maxMedianFeeDragBps: real)

  datatype Reason =
    | InvalidThresholds
    | InvalidPolicy
    | InvalidConstraints
    | InvalidFoldMetrics
    | InsufficientOosFolds
    | InsufficientStressFolds
    | InsufficientOosTrades
    | RiskMetricsIncomplete
    | CandidateRejected
    | OosDrawdownLimitExceeded
    | StressSurvivalBelowFloor
    | OosReturnFloorNotMet
    | OosPositiveReturnSurvivalBelowFloor
    | LowerQuartileReturnFloorNotMet
    | MedianSharpeFloorNotMet
    | MedianSortinoFloorNotMet
    | ReturnInstabilityLimitExceeded
    | MedianFeeDragLimitExceeded
    | AllGatesPassed

  datatype Evaluation = Evaluation(
    eligible: bool,
    reason: Reason,
    oosFoldCount: nat,
    stressFoldCount: nat,
    stressSurvivalPpm: nat,
    lowerQuartileNetReturnBps: real,
    medianNetReturnBps: real,
    medianSharpeRatio: real,
    medianSortinoRatio: real,
    worstMaxDrawdownPct: real,
    medianFeeDragBps: real,
    returnMadBps: real)

  predicate ValidFold(f: Fold)
  {
    !Text.Blank(f.foldId) && f.maxDrawdownPct >= 0.0 && f.feeDragBps >= 0.0
  }

  predicate ValidConstraints(c: Constraints)
  {
    && c.minOosFolds > 0 && c.minStressFolds > 0 && c.minTradesPerOosFold > 0
    && c.minOosPositiveReturnPpm <= PPM
    && c.maxOosDrawdownPct > 0.0 && c.maxStressDrawdownPct > 0.0
    && c.maxStressLossBps >= 0.0
    && c.minStressSurvivalPpm <= PPM
    && c.maxReturnMadBps >= 0.0 && c.maxMedianFeeDragBps >= 0.0
  }

  predicate OutOfSample(f: Fold) { !f.stress }

  predicate Stressed(f: Fold) { f.stress }

  predicate HasSharpe(f: Fold) { f.sharpeRatio.Some? }

  predicate HasSortino(f: Fold) { f.sortinoRatio.Some? }

  predicate HasRatios(f: Fold) { f.sharpeRatio.Some? && f.sortinoRatio.Some? }

  function TradedEnough(c: Constraints): Fold -> bool { (f: Fold) => f.trades >= c.minTradesPerOosFold }

  predicate All<T(==)>(p: T -> bool, s: seq<T>) { forall x :: x in s ==> p(x) }

  function Sharpe(f: Fold): real { if f.sharpeRatio.Some? then f.sharpeRatio.value else 0.0 }

  function Sortino(f: Fold): real { if f.sortinoRatio.Some? then f.sortinoRatio.value else 0.0 }

  function NetReturn(f: Fold): real { f.netReturnBps }

  function Drawdown(f: Fold): real { f.maxDrawdownPct }

  function FeeDrag(f: Fold): real { f.feeDragBps }

  function Survives(c: Constraints): Fold -> bool
  {
    (f: Fold) => f.netReturnBps >= -c.maxStressLossBps && f.maxDrawdownPct <= c.maxStressDrawdownPct
  }

  /** A share of a fold set in parts per million, rounded down. */
  function SharePpm(part: nat, total: nat): nat
  {
    part * PPM / (if total > 1 then total else 1)
  }

  function Base(reason: Reason): Evaluation
  {
    Evaluation(false, reason, 0, 0, 0, 0.0, 0.0, 0.0, 0.0, 0.0, 0.0, 0.0)
  }

  /** Why a candidate is turned away before its statistics are looked at, if it is. */
  function Refusal(folds: seq<Fold>, c: Constraints): Option<Reason>
  {
    var oos := Filter(OutOfSample, folds);
    var stress := Filter(Stressed, folds);
    if !ValidConstraints(c) then Some(InvalidConstraints)
    else if !All(ValidFold, folds) then Some(InvalidFoldMetrics)
    else if |oos| < c.minOosFolds then Some(InsufficientOosFolds)
    else if |stress| < c.minStressFolds then Some(InsufficientStressFolds)
    else if !All(TradedEnough(c), oos) then Some(InsufficientOosTrades)
    else if !All(HasRatios, oos) then Some(RiskMetricsIncomplete)
    else None
  }

  function Statistics(oos: seq<Fold>, stress: seq<Fold>, c: Constraints): Evaluation
  {
    var earned := Map(NetReturn, oos);
    Evaluation(
      false,
      CandidateRejected,
      |oos|,
      |stress|,
      SharePpm(Count(Survives(c), stress), |stress|),
      Percentile(earned, QUARTILE_PPM),
      Median(earned),
      Median(Map(Sharpe, Filter(HasSharpe, oos))),
      Median(Map(Sortino, Filter(HasSortino, oos))),
      Worst(Map(Drawdown, oos)),
      Median(Map(FeeDrag, oos)),
      Mad(earned))
  }

  function PositivePpm(earned: seq<real>, c: Constraints): nat
  {
    SharePpm(Count(From(c.minOosReturnBps), earned), |earned|)
  }

  /** The chain of gates, first failure first. */
  function Gate(e: Evaluation, worstReturn: real, positivePpm: nat, c: Constraints): Reason
  {
    if e.worstMaxDrawdownPct > c.maxOosDrawdownPct then OosDrawdownLimitExceeded
    else if e.stressSurvivalPpm < c.minStressSurvivalPpm then StressSurvivalBelowFloor
    else if worstReturn < c.minOosReturnBps then OosReturnFloorNotMet
    else if positivePpm < c.minOosPositiveReturnPpm then OosPositiveReturnSurvivalBelowFloor
    else if e.lowerQuartileNetReturnBps < c.minLowerQuartileNetReturnBps then LowerQuartileReturnFloorNotMet
    else if e.medianSharpeRatio < c.minMedianSharpeRatio then MedianSharpeFloorNotMet
    else if e.medianSortinoRatio < c.minMedianSortinoRatio then MedianSortinoFloorNotMet
    else if e.returnMadBps > c.maxReturnMadBps then ReturnInstabilityLimitExceeded
    else if e.medianFeeDragBps > c.maxMedianFeeDragBps then MedianFeeDragLimitExceeded
    else AllGatesPassed
  }

  function Evaluated(folds: seq<Fold>, c: Constraints): Evaluation
  {
    var refusal := Refusal(folds, c);
    if refusal.Some? then Base(refusal.value)
    else
      var oos := Filter(OutOfSample, folds);
      var e := Statistics(oos, Filter(Stressed, folds), c);
      var earned := Map(NetReturn, oos);
      var reason := Gate(e, Smallest(earned), PositivePpm(earned, c), c);
      e.(eligible := reason == AllGatesPassed, reason := reason)
  }

  // ---------------------------------------------------------------- independence of fold order

  lemma FiltersIgnoreOrder(a: seq<Fold>, b: seq<Fold>)
    requires SameSamples(a, b)
    ensures SameSamples(Filter(OutOfSample, a), Filter(OutOfSample, b))
    ensures SameSamples(Filter(Stressed, a), Filter(Stressed, b))
    ensures |Filter(OutOfSample, a)| == |Filter(OutOfSample, b)|
    ensures |Filter(Stressed, a)| == |Filter(Stressed, b)|
  {
    FilterIgnoresOrder(OutOfSample, a, b);
    FilterIgnoresOrder(Stressed, a, b);
  }

  lemma AllIgnoresOrder<T(!new)>(p: T -> bool, a: seq<T>, b: seq<T>)
    requires SameSamples(a, b)
    ensures All(p, a) == All(p, b)
  {
    assert forall x :: x in a <==> x in multiset(a);
    assert forall x :: x in b <==> x in multiset(b);
  }

  lemma RefusalIgnoresOrder(a: seq<Fold>, b: seq<Fold>, c: Constraints)
    requires SameSamples(a, b)
    ensures Refusal(a, c) == Refusal(b, c)
  {
    FiltersIgnoreOrder(a, b);
    AllIgnoresOrder(ValidFold, a, b);
    AllIgnoresOrder(TradedEnough(c), Filter(OutOfSample, a), Filter(OutOfSample, b));
    AllIgnoresOrder(HasRatios, Filter(OutOfSample, a), Filter(OutOfSample, b));
    hide Filter, SameSamples, ValidConstraints, All;
  }

  lemma StatisticsIgnoreOrder(a: seq<Fold>, b: seq<Fold>, s: seq<Fold>, t: seq<Fold>, c: Constraints)
    requires SameSamples(a, b) && SameSamples(s, t)
    ensures Statistics(a, s, c) == Statistics(b, t, c)
    ensures SameSamples(Map(NetReturn, a), Map(NetReturn, b))
  {
    assert |a| == |multiset(a)| == |multiset(b)| == |b|;
    assert |s| == |multiset(s)| == |multiset(t)| == |t|;
    FilterIgnoresOrder(Survives(c), s, t);
    FilterIgnoresOrder(HasSharpe, a, b);
    FilterIgnoresOrder(HasSortino, a, b);
    hide Filter, SameSamples, Percentile, Mad, Worst, Map;
    MapIgnoresOrder(NetReturn, a, b);
    MapIgnoresOrder(Sharpe, Filter(HasSharpe, a), Filter(HasSharpe, b));
    MapIgnoresOrder(Sortino, Filter(HasSortino, a), Filter(HasSortino, b));
    MapIgnoresOrder(Drawdown, a, b);
    MapIgnoresOrder(FeeDrag, a, b);
    PercentileIgnoresOrder(Map(NetReturn, a), Map(NetReturn, b), QUARTILE_PPM);
    PercentileIgnoresOrder(Map(NetReturn, a), Map(NetReturn, b), MEDIAN_PPM);
    PercentileIgnoresOrder(Map(Sharpe, Filter(HasSharpe, a)), Map(Sharpe, Filter(HasSharpe, b)), MEDIAN_PPM);
    PercentileIgnoresOrder(Map(Sortino, Filter(HasSortino, a)), Map(Sortino, Filter(HasSortino, b)), MEDIAN_PPM);
    PercentileIgnoresOrder(Map(FeeDrag, a), Map(FeeDrag, b), MEDIAN_PPM);
    MadIgnoresOrder(Map(NetReturn, a), Map(NetReturn, b));
    ExtremesIgnoreOrder(Map(Drawdown, a), Map(Drawdown, b));
  }

  /** The whole evaluation, reasons and statistics included, forgets the order of the folds. */
  lemma EvaluationIgnoresOrder(a: seq<Fold>, b: seq<Fold>, c: Constraints)
    requires SameSamples(a, b)
    ensures Evaluated(a, c) == Evaluated(b, c)
  {
    RefusalIgnoresOrder(a, b, c);
    FiltersIgnoreOrder(a, b);
    var p, q := Filter(OutOfSample, a), Filter(OutOfSample, b);
    StatisticsIgnoreOrder(p, q, Filter(Stressed, a), Filter(Stressed, b), c);
    FilterIgnoresOrder(From(c.minOosReturnBps), Map(NetReturn, p), Map(NetReturn, q));
    ExtremesIgnoreOrder(Map(NetReturn, p), Map(NetReturn, q));
    hide Filter, SameSamples, Statistics, Gate, Smallest;
  }

  // ---------------------------------------------------------------- what eligibility means

  /** A share reaches a floor exactly when the exact fraction does; a full share is a million. */
  lemma ShareReaches(part: nat, total: nat, floor: nat)
    requires 0 < total
    ensures SharePpm(part, total) >= floor <==> part * PPM >= floor * total
    ensures part == total ==> SharePpm(part, total) == PPM
  {
    var q := Quotient(part * PPM, total);
    assert SharePpm(part, total) == q;
    if q >= floor {
      Scale(floor, q, total);
    } else {
      Scale(q + 1, floor, total);
    }
    if part == total {
      QuotientWithin(part * PPM, total, PPM, PPM);
    }
  }

  /** The middle of the samples, or any other rank, reaches a floor. */
  predicate Reaches(values: seq<real>, ppm: nat, floor: real)
    requires values != [] && ppm <= PPM
  {
    Count(From(floor), values) >= |values| - RankIndex(|values|, ppm)
  }

  predicate StaysWithin(values: seq<real>, ppm: nat, cap: real)
    requires values != [] && ppm <= PPM
  {
    Count(UpTo(cap), values) >= RankIndex(|values|, ppm) + 1
  }

  /** Every out-of-sample fold on its own. */
  predicate FoldAdmitted(f: Fold, c: Constraints)
  {
    && Complete(f, c)
    && f.maxDrawdownPct <= c.maxOosDrawdownPct
    && f.netReturnBps >= c.minOosReturnBps
  }

  /** Eligibility in terms of the folds themselves: no percentile, no early exit. */
  predicate Admitted(folds: seq<Fold>, c: Constraints)
  {
    var oos := Filter(OutOfSample, folds);
    var stress := Filter(Stressed, folds);
    && ValidConstraints(c)
    && (forall f :: f in folds ==> ValidFold(f))
    && |oos| >= c.minOosFolds && |stress| >= c.minStressFolds
    && (forall f :: f in oos ==> FoldAdmitted(f, c))
    && Count(Survives(c), stress) * PPM >= c.minStressSurvivalPpm * |stress|
    && StatisticsAdmitted(oos, c)
  }

  predicate StatisticsAdmitted(oos: seq<Fold>, c: Constraints)
    requires oos != []
  {
    var earned := Map(NetReturn, oos);
    && Reaches(earned, QUARTILE_PPM, c.minLowerQuartileNetReturnBps)
    && Reaches(Map(Sharpe, oos), MEDIAN_PPM, c.minMedianSharpeRatio)
    && Reaches(Map(Sortino, oos), MEDIAN_PPM, c.minMedianSortinoRatio)
    && StaysWithin(Map(Distance(Median(earned)), earned), MEDIAN_PPM, c.maxReturnMadBps)
    && StaysWithin(Map(FeeDrag, oos), MEDIAN_PPM, c.maxMedianFeeDragBps)
  }

  /** When every return meets the floor, the share that does is a full million. */
  lemma FloorMetByAll(earned: seq<real>, c: Constraints)
    requires earned != []
    ensures Smallest(earned) >= c.minOosReturnBps <==> forall v :: v in earned ==> v >= c.minOosReturnBps
    ensures Smallest(earned) >= c.minOosReturnBps ==> PositivePpm(earned, c) == PPM
  {
    if Smallest(earned) >= c.minOosReturnBps {
      forall i | 0 <= i < |earned| ensures From(c.minOosReturnBps)(earned[i]) {
        assert earned[i] in earned;
      }
      CountAll(From(c.minOosReturnBps), earned);
      ShareReaches(|earned|, |earned|, 0);
    }
  }

  /** The gate on the share of positive folds can never be the one that fails. */
  lemma PositiveShareNeverFails(folds: seq<Fold>, c: Constraints)
    ensures Evaluated(folds, c).reason != OosPositiveReturnSurvivalBelowFloor
  {
    if Refusal(folds, c).None? {
      FloorMetByAll(Map(NetReturn, Filter(OutOfSample, folds)), c);
    }
  }

  lemma MapMembers<T, U(!new)>(f: T -> U, s: seq<T>, p: U -> bool)
    ensures (forall y :: y in Map(f, s) ==> p(y)) <==> (forall x :: x in s ==> p(f(x)))
  {
    if forall y :: y in Map(f, s) ==> p(y) {
      forall x | x in s ensures p(f(x)) {
        var i :| 0 <= i < |s| && s[i] == x;
        assert Map(f, s)[i] in Map(f, s);
      }
    }
  }

  lemma StatisticsMean(oos: seq<Fold>, stress: seq<Fold>, c: Constraints)
    requires oos != [] && forall f :: f in oos ==> f.sharpeRatio.Some? && f.sortinoRatio.Some?
    ensures var e := Statistics(oos, stress, c);
      StatisticsAdmitted(oos, c) <==>
      && e.lowerQuartileNetReturnBps >= c.minLowerQuartileNetReturnBps
      && e.medianSharpeRatio >= c.minMedianSharpeRatio
      && e.medianSortinoRatio >= c.minMedianSortinoRatio
      && e.returnMadBps <= c.maxReturnMadBps
      && e.medianFeeDragBps <= c.maxMedianFeeDragBps
  {
    var earned := Map(NetReturn, oos);
    var deviations := Map(Distance(Median(earned)), earned);
    CountAll(HasSharpe, oos);
    CountAll(HasSortino, oos);
    hide Filter, Percentile, Distance, Map, Count, Worst, Survives, SharePpm, RankIndex, Reaches, StaysWithin;
    RankMeets(earned, QUARTILE_PPM, c.minLowerQuartileNetReturnBps);
    RankMeets(Map(Sharpe, oos), MEDIAN_PPM, c.minMedianSharpeRatio);
    RankMeets(Map(Sortino, oos), MEDIAN_PPM, c.minMedianSortinoRatio);
    RankMeets(deviations, MEDIAN_PPM, c.maxReturnMadBps);
    RankMeets(Map(FeeDrag, oos), MEDIAN_PPM, c.maxMedianFeeDragBps);
  }

  lemma RankMeets(values: seq<real>, ppm: nat, v: real)
    requires values != [] && ppm <= PPM
    ensures Percentile(values, ppm) >= v <==> Reaches(values, ppm, v)
    ensures Percentile(values, ppm) <= v <==> StaysWithin(values, ppm, v)
  {
    PercentileIsOrderStatistic(values, ppm, v);
  }

  lemma DrawdownsMean(oos: seq<Fold>, cap: real)
    requires cap > 0.0
    ensures Worst(Map(Drawdown, oos)) <= cap <==> forall f :: f in oos ==> f.maxDrawdownPct <= cap
  {
    MapMembers(Drawdown, oos, UpTo(cap));
  }

  /** The folds carry what the statistics need. */
  predicate Complete(f: Fold, c: Constraints)
  {
    f.trades >= c.minTradesPerOosFold && f.sharpeRatio.Some? && f.sortinoRatio.Some?
  }

  lemma RefusalMeans(folds: seq<Fold>, c: Constraints)
    ensures var oos := Filter(OutOfSample, folds);
      Refusal(folds, c).None? <==>
      && ValidConstraints(c)
      && (forall f :: f in folds ==> ValidFold(f))
      && |oos| >= c.minOosFolds && |Filter(Stressed, folds)| >= c.minStressFolds
      && (forall f :: f in oos ==> Complete(f, c))
  {
    hide Filter, ValidFold, ValidConstraints;
  }

  lemma GatesMean(oos: seq<Fold>, stress: seq<Fold>, c: Constraints)
    requires ValidConstraints(c) && oos != [] && stress != []
    requires forall f :: f in oos ==> Complete(f, c)
    ensures var e, earned := Statistics(oos, stress, c), Map(NetReturn, oos);
      Gate(e, Smallest(earned), PositivePpm(earned, c), c) == AllGatesPassed <==>
      && (forall f :: f in oos ==> f.maxDrawdownPct <= c.maxOosDrawdownPct)
      && (forall f :: f in oos ==> f.netReturnBps >= c.minOosReturnBps)
      && Count(Survives(c), stress) * PPM >= c.minStressSurvivalPpm * |stress|
      && StatisticsAdmitted(oos, c)
  {
    hide Map, Count, SharePpm, Percentile, StatisticsAdmitted, PositivePpm, Smallest, Worst, Mad, Filter, Survives;
    ReturnsMean(oos, c);
    DrawdownsMean(oos, c.maxOosDrawdownPct);
    ShareReaches(Count(Survives(c), stress), |stress|, c.minStressSurvivalPpm);
    StatisticsMean(oos, stress, c);
  }

  lemma ReturnsMean(oos: seq<Fold>, c: Constraints)
    requires oos != []
    ensures var earned := Map(NetReturn, oos);
      && (Smallest(earned) >= c.minOosReturnBps <==> forall f :: f in oos ==> f.netReturnBps >= c.minOosReturnBps)
      && (Smallest(earned) >= c.minOosReturnBps ==> PositivePpm(earned, c) == PPM)
  {
    FloorMetByAll(Map(NetReturn, oos), c);
    MapMembers(NetReturn, oos, From(c.minOosReturnBps));
  }

  /** A candidate is eligible exactly when its folds meet the requirements one by one. */
  lemma EligibleMeansAdmitted(folds: seq<Fold>, c: Constraints)
    ensures Evaluated(folds, c).eligible <==> Admitted(folds, c)
  {
    RefusalMeans(folds, c);
    if Refusal(folds, c).None? {
      GatesMean(Filter(OutOfSample, folds), Filter(Stressed, folds), c);
    }
    hide Refusal, Filter, Map, Statistics, Gate, Smallest, PositivePpm, StatisticsAdmitted, Survives, ValidFold;
  }

  /** What an eligible evaluation says about its own numbers. */
  lemma EligibleEvaluationsAreSound(folds: seq<Fold>, c: Constraints)
    requires Evaluated(folds, c).eligible
    ensures var oos := Filter(OutOfSample, folds);
      var e := Evaluated(folds, c);
      && oos != []
      && PositivePpm(Map(NetReturn, oos), c) == PPM
      && c.minOosReturnBps <= Smallest(Map(NetReturn, oos)) <= e.lowerQuartileNetReturnBps <= e.medianNetReturnBps
  {
    hide Filter, Map, Percentile, Smallest, PositivePpm, Worst, Mad, SharePpm, RankIndex, Count, ValidFold;
    var earned := Map(NetReturn, Filter(OutOfSample, folds));
    FloorMetByAll(earned, c);
    PercentilesAreOrdered(earned, QUARTILE_PPM, MEDIAN_PPM);
    PercentileIsOrderStatistic(earned, QUARTILE_PPM, 0.0);
  }

  /**
   The evaluation as it runs. A candidate is eligible exactly when its folds meet the requirements
   one by one; the gate on the share of positive folds is never the one that fails.
   */
  method EvaluateRobustCandidate(folds: seq<Fold>, c: Constraints) returns (evaluation: Evaluation)
    ensures evaluation == Evaluated(folds, c)
    ensures evaluation.eligible <==> Admitted(folds, c)
    ensures evaluation.eligible <==> evaluation.reason == AllGatesPassed
    ensures evaluation.reason != OosPositiveReturnSurvivalBelowFloor
    ensures evaluation.eligible ==>
      && evaluation.oosFoldCount == |Filter(OutOfSample, folds)|
      && evaluation.stressFoldCount == |Filter(Stressed, folds)|
      && c.minOosReturnBps <= evaluation.lowerQuartileNetReturnBps <= evaluation.medianNetReturnBps
  {
    EligibleMeansAdmitted(folds, c);
    PositiveShareNeverFails(folds, c);
    if Evaluated(folds, c).eligible {
      EligibleEvaluationsAreSound(folds, c);
    }
    hide Admitted, Refusal, Filter, Map, Smallest, Percentile, Worst, Mad, Gate, PositivePpm, Count;
    var refusal := Refusal(folds, c);
    if refusal.Some? {
      return Base(refusal.value);
    }
    var oos := Filter(OutOfSample, folds);
    var earned := Map(NetReturn, oos);
    evaluation := Statistics(oos, Filter(Stressed, folds), c);
    evaluation := evaluation.(reason := Gate(evaluation, Smallest(earned), PositivePpm(earned, c), c));
    if evaluation.reason == AllGatesPassed {
      evaluation := evaluation.(eligible := true);
    }
  }

  // ---------------------------------------------------------------- the promotion policy

  const POLICY_SCHEMA_VERSION := 1

  datatype Policy = Policy(
    schemaVersion: nat,
    policyId: string,
    minOosFolds: nat,
    minStressFolds: nat,
    minTradesPerOosFold: nat,
    maxOosDrawdownPct: real,
    maxStressDrawdownPct: real,
    maxStressLossBps: real,
    minStressSurvivalPpm: nat,
    minOosReturnBps: real,
    minOosPositiveReturnPpm: nat,
    minLowerQuartileNetReturnBps: real,
    minMedianSharpeRatio: real,
    minMedianSortinoRatio: real,
    maxReturnMadBps: real,
    maxMedianFeeDragBps: real)

  datatype Stage = Rejected | InsufficientEvidence | PaperCandidate

  datatype Promotion = Promotion(
    eligible: bool,
    stage: Stage,
    reason: Reason,
    robust: Evaluation,
    positiveOosSurvivalPpm: nat,
    worstOosReturnBps: real,
    riskAdjustedScore: real)

  predicate ValidPolicy(p: Policy)
  {
    && p.schemaVersion == POLICY_SCHEMA_VERSION && !Text.Blank(p.policyId)
    && p.minOosFolds > 0 && p.minStressFolds > 0 && p.minTradesPerOosFold > 0
    && p.maxOosDrawdownPct > 0.0 && p.maxStressDrawdownPct > 0.0
    && p.maxStressLossBps >= 0.0
    && p.minStressSurvivalPpm <= PPM && p.minOosPositiveReturnPpm <= PPM
    && p.maxReturnMadBps >= 0.0 && p.maxMedianFeeDragBps >= 0.0
  }

  function RobustConstraints(p: Policy): Constraints
  {
    Constraints(
      p.minOosFolds,
      p.minStressFolds,
      p.minTradesPerOosFold,
      p.maxOosDrawdownPct,
      p.maxStressDrawdownPct,
      p.maxStressLossBps,
      p.minStressSurvivalPpm,
      p.minOosReturnBps,
      p.minOosPositiveReturnPpm,
      p.minLowerQuartileNetReturnBps,
      p.minMedianSharpeRatio,
      p.minMedianSortinoRatio,
      p.maxReturnMadBps,
      p.maxMedianFeeDragBps)
  }

  /** The reasons that more evidence could cure. */
  predicate Insufficient(reason: Reason)
  {
    || reason == InsufficientOosFolds
    || reason == InsufficientStressFolds
    || reason == InsufficientOosTrades
    || reason == RiskMetricsIncomplete
  }

  /** The lower quartile per point of drawdown; drawdowns below one count as one. */
  function Score(robust: Evaluation): real
  {
    robust.lowerQuartileNetReturnBps / (if robust.worstMaxDrawdownPct > 1.0 then robust.worstMaxDrawdownPct else 1.0)
  }

  function Promoted(p: Policy, folds: seq<Fold>): Promotion
  {
    if !ValidPolicy(p) then
      Promotion(false, Rejected, InvalidThresholds, Base(InvalidPolicy), 0, 0.0, 0.0)
    else
      var robust := Evaluated(folds, RobustConstraints(p));
      if !robust.eligible then
        Promotion(
          false,
          if Insufficient(robust.reason) then InsufficientEvidence else Rejected,
          robust.reason, robust, 0, 0.0, 0.0)
      else
        var earned := Map(NetReturn, Filter(OutOfSample, folds));
        Promotion(
          true, PaperCandidate, robust.reason, robust,
          PositivePpm(earned, RobustConstraints(p)),
          Smallest(earned),
          Score(robust))
  }

  /** A policy admits a candidate exactly when its thresholds are sound and every fold meets them. */
  lemma PromotionIsExact(p: Policy, folds: seq<Fold>)
    ensures Promoted(p, folds).stage == PaperCandidate <==>
      ValidPolicy(p) && Admitted(folds, RobustConstraints(p))
    ensures Promoted(p, folds).eligible <==> Promoted(p, folds).stage == PaperCandidate
    ensures Promoted(p, folds).eligible ==>
      && Promoted(p, folds).positiveOosSurvivalPpm == PPM
      && p.minOosReturnBps <= Promoted(p, folds).worstOosReturnBps
      && Promoted(p, folds).worstOosReturnBps <= Promoted(p, folds).robust.lowerQuartileNetReturnBps
  {
    EligibleMeansAdmitted(folds, RobustConstraints(p));
    if Promoted(p, folds).eligible {
      EligibleEvaluationsAreSound(folds, RobustConstraints(p));
    }
    hide Admitted, Filter, Statistics, Gate, Map, Smallest;
  }

  /** Of the reasons a promotion can carry, two never come from a valid policy and one never occurs. */
  lemma ReasonsThatCannotOccur(p: Policy, folds: seq<Fold>)
    ensures Promoted(p, folds).reason == InvalidThresholds <==> !ValidPolicy(p)
    ensures Promoted(p, folds).reason !in {InvalidConstraints, OosPositiveReturnSurvivalBelowFloor}
  {
    PositiveShareNeverFails(folds, RobustConstraints(p));
    hide Filter, Statistics, PositivePpm, Smallest, Map;
  }

  /** Evidence is called insufficient exactly when folds, trades or ratios are missing. */
  lemma InsufficientEvidenceMeans(p: Policy, folds: seq<Fold>)
    ensures Promoted(p, folds).stage == InsufficientEvidence <==>
      var oos := Filter(OutOfSample, folds);
      && ValidPolicy(p)
      && (forall f :: f in folds ==> ValidFold(f))
      && (|| |oos| < p.minOosFolds
          || |Filter(Stressed, folds)| < p.minStressFolds
          || exists f :: f in oos && (f.trades < p.minTradesPerOosFold || f.sharpeRatio.None? || f.sortinoRatio.None?))
  {
    hide Filter, Statistics, Percentile;
  }

  lemma PromotionIgnoresOrder(p: Policy, a: seq<Fold>, b: seq<Fold>)
    requires SameSamples(a, b)
    ensures Promoted(p, a) == Promoted(p, b)
  {
    var c := RobustConstraints(p);
    EvaluationIgnoresOrder(a, b, c);
    FiltersIgnoreOrder(a, b);
    var s, t := Filter(OutOfSample, a), Filter(OutOfSample, b);
    MapIgnoresOrder(NetReturn, s, t);
    ExtremesIgnoreOrder(Map(NetReturn, s), Map(NetReturn, t));
    FilterIgnoresOrder(From(c.minOosReturnBps), Map(NetReturn, s), Map(NetReturn, t));
    hide Filter, SameSamples, Statistics, Gate, Smallest, Map;
  }
}
