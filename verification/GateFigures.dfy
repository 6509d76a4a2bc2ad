/**
 What an evaluation and a promotion say about the folds themselves: which share survives, which order
 statistics are reported, which requirement fails first, and how the score weighs the drawdown. Nothing
 here goes through the helpers of the evaluation: counts are counts of folds, ranks are given in figures.
 */
module GateFigures {
  import opened Machine
  import opened Outcomes
  import opened Ranks
  import Text
  import opened GateStatistics

  // ---------------------------------------------------------------- counting through a map

  lemma {:induction false} SameTestSameFilter<T>(p: T -> bool, q: T -> bool, s: seq<T>)
    requires forall i :: 0 <= i < |s| ==> p(s[i]) == q(s[i])
    ensures Filter(p, s) == Filter(q, s)
  {
    if s != [] {
      SameTestSameFilter(p, q, s[1..]);
    }
  }

  lemma CountStep<T>(p: T -> bool, s: seq<T>)
    requires s != []
    ensures Count(p, s) == (if p(s[0]) then 1 else 0) + Count(p, s[1..])
  {
  }

  /** Samples taken of the folds that pass a test are counted where they come from. */
  lemma {:induction false} CountThrough(
      folds: seq<Fold>, p: Fold -> bool, figure: Fold -> real, q: real -> bool, t: Fold -> bool)
    requires forall f :: t(f) == (p(f) && q(figure(f)))
    ensures Count(q, Map(figure, Filter(p, folds))) == Count(t, folds)
  {
    if folds != [] {
      var rest := Filter(p, folds[1..]);
      CountThrough(folds[1..], p, figure, q, t);
      CountStep(t, folds);
      if p(folds[0]) {
        var values := Map(figure, [folds[0]] + rest);
        assert Filter(p, folds) == [folds[0]] + rest;
        assert values[0] == figure(folds[0]) && values[1..] == Map(figure, rest);
        CountStep(q, values);
      } else {
        assert Filter(p, folds) == rest;
      }
    }
  }

  // ---------------------------------------------------------------- order statistics of the folds

  /** How many of n samples lie before the one of a given rank: that share of the way up, rounded down. */
  function Steps(n: nat, ppm: nat): int { ppm * (n - 1) / 1_000_000 }

  /** Of the folds that pass a test, the figure whose rank is the given share of the way up, rounded down. */
  ghost predicate IsRank(folds: seq<Fold>, p: Fold -> bool, figure: Fold -> real, ppm: nat, r: real)
  {
    var steps := Steps(Count(p, folds), ppm);
    && (exists f :: f in folds && p(f) && figure(f) == r)
    && Count((f: Fold) => p(f) && figure(f) < r, folds) <= steps
    && Count((f: Fold) => p(f) && figure(f) <= r, folds) > steps
  }

  /** There is only one figure of a given rank. */
  lemma RankIsUnique(folds: seq<Fold>, p: Fold -> bool, figure: Fold -> real, ppm: nat, r: real, t: real)
    requires IsRank(folds, p, figure, ppm, r) && IsRank(folds, p, figure, ppm, t)
    ensures r == t
  {
    if r < t {
      CountGrows((f: Fold) => p(f) && figure(f) <= r, (f: Fold) => p(f) && figure(f) < t, folds);
    } else if t < r {
      CountGrows((f: Fold) => p(f) && figure(f) <= t, (f: Fold) => p(f) && figure(f) < r, folds);
    }
  }

  lemma {:induction false} CountGrows<T(!new)>(p: T -> bool, q: T -> bool, s: seq<T>)
    requires forall x :: p(x) ==> q(x)
    ensures Count(p, s) <= Count(q, s)
  {
    if s != [] {
      CountGrows(p, q, s[1..]);
    }
  }

  lemma PercentileIsRank(folds: seq<Fold>, p: Fold -> bool, figure: Fold -> real, ppm: nat)
    requires Filter(p, folds) != [] && ppm <= 1_000_000
    ensures IsRank(folds, p, figure, ppm, Percentile(Map(figure, Filter(p, folds)), ppm))
  {
    var values := Map(figure, Filter(p, folds));
    var r := Percentile(values, ppm);
    assert |values| == Count(p, folds);
    hide Percentile, RankIndex, Map, Filter, Steps;
    PercentileSplits(values, ppm, r);
    RankTaken(folds, p, figure, r);
    CountThrough(folds, p, figure, UpTo(r), (f: Fold) => p(f) && figure(f) <= r);
    CountThrough(folds, p, figure, Below(r), (f: Fold) => p(f) && figure(f) < r);
  }

  function Below(v: real): real -> bool { (x: real) => x < v }

  lemma PercentileSplits(values: seq<real>, ppm: nat, r: real)
    requires values != [] && ppm <= 1_000_000 && r == Percentile(values, ppm)
    ensures r in values
    ensures Count(Below(r), values) <= Steps(|values|, ppm) < Count(UpTo(r), values)
  {
    assert RankIndex(|values|, ppm) == Steps(|values|, ppm);
    hide Percentile, RankIndex, Filter, Steps;
    PercentileIsOrderStatistic(values, ppm, r);
    DisjointCounts(From(r), Below(r), values);
  }

  lemma RankTaken(folds: seq<Fold>, p: Fold -> bool, figure: Fold -> real, r: real)
    requires r in Map(figure, Filter(p, folds))
    ensures exists f :: f in folds && p(f) && figure(f) == r
  {
    FilterMembers(p, folds);
    var i :| 0 <= i < |Filter(p, folds)| && figure(Filter(p, folds)[i]) == r;
    assert Filter(p, folds)[i] in Filter(p, folds);
  }

  lemma PercentileIs(
      folds: seq<Fold>, p: Fold -> bool, q: Fold -> bool, figure: Fold -> real, same: Fold -> real, ppm: nat)
    requires Filter(p, folds) != [] && ppm <= 1_000_000
    requires forall f :: p(f) == q(f) && figure(f) == same(f)
    ensures IsRank(folds, q, same, ppm, Percentile(Map(figure, Filter(p, folds)), ppm))
  {
    SameTestSameFilter(p, q, folds);
    assert Map(figure, Filter(p, folds)) == Map(same, Filter(p, folds));
    PercentileIsRank(folds, q, same, ppm);
  }

  // ---------------------------------------------------------------- the reported figures

  /** How far a return lies from a center, on either side. */
  function Deviation(center: real): Fold -> real
  {
    (f: Fold) => if f.netReturnBps >= center then f.netReturnBps - center else center - f.netReturnBps
  }

  function SharpeOf(f: Fold): real { match f.sharpeRatio case Some(x) => x case None => 0.0 }

  function SortinoOf(f: Fold): real { match f.sortinoRatio case Some(x) => x case None => 0.0 }

  /** The ranks an evaluation reports, each of the out-of-sample folds alone. */
  ghost predicate RanksAre(folds: seq<Fold>, e: Evaluation)
  {
    && IsRank(folds, (f: Fold) => !f.stress, (f: Fold) => f.netReturnBps, 250_000, e.lowerQuartileNetReturnBps)
    && IsRank(folds, (f: Fold) => !f.stress, (f: Fold) => f.netReturnBps, 500_000, e.medianNetReturnBps)
    && IsRank(folds, (f: Fold) => !f.stress, SharpeOf, 500_000, e.medianSharpeRatio)
    && IsRank(folds, (f: Fold) => !f.stress, SortinoOf, 500_000, e.medianSortinoRatio)
    && IsRank(folds, (f: Fold) => !f.stress, (f: Fold) => f.feeDragBps, 500_000, e.medianFeeDragBps)
    && IsRank(folds, (f: Fold) => !f.stress, Deviation(e.medianNetReturnBps), 500_000, e.returnMadBps)
  }

  function Survivors(folds: seq<Fold>, c: Constraints): nat
  {
    Count((f: Fold) =>
      f.stress && f.netReturnBps + c.maxStressLossBps >= 0.0 && f.maxDrawdownPct <= c.maxStressDrawdownPct, folds)
  }

  /** The counts, the share of surviving stress folds in millionths, rounded down, and the deepest drawdown. */
  ghost predicate TotalsAre(folds: seq<Fold>, c: Constraints, e: Evaluation)
  {
    && e.oosFoldCount == Count((f: Fold) => !f.stress, folds)
    && e.stressFoldCount == Count((f: Fold) => f.stress, folds)
    && e.stressSurvivalPpm * e.stressFoldCount <= Survivors(folds, c) * 1_000_000
    && Survivors(folds, c) * 1_000_000 < e.stressSurvivalPpm * e.stressFoldCount + e.stressFoldCount
    && e.worstMaxDrawdownPct >= 0.0
    && (forall f :: f in folds && !f.stress ==> f.maxDrawdownPct <= e.worstMaxDrawdownPct)
    && (e.worstMaxDrawdownPct == 0.0 || exists f :: f in folds && !f.stress && f.maxDrawdownPct == e.worstMaxDrawdownPct)
  }

  lemma DeviationsAgree(oos: seq<Fold>, center: real)
    ensures Map(Distance(center), Map(NetReturn, oos)) == Map(Deviation(center), oos)
  {
    forall f: Fold ensures Distance(center)(f.netReturnBps) == Deviation(center)(f) {
    }
  }

  lemma MadIsRank(folds: seq<Fold>)
    requires Filter(OutOfSample, folds) != []
    ensures var earned := Map(NetReturn, Filter(OutOfSample, folds));
      IsRank(folds, (f: Fold) => !f.stress, Deviation(Median(earned)), 500_000, Mad(earned))
  {
    var oos := Filter(OutOfSample, folds);
    var center := Median(Map(NetReturn, oos));
    DeviationsAgree(oos, center);
    hide Filter, Percentile, Map, IsRank, Deviation, Distance;
    PercentileIs(folds, OutOfSample, (f: Fold) => !f.stress, Deviation(center), Deviation(center), 500_000);
  }

  lemma RatiosKept(oos: seq<Fold>)
    requires All(HasRatios, oos)
    ensures Filter(HasSharpe, oos) == oos && Filter(HasSortino, oos) == oos
  {
    forall i | 0 <= i < |oos| ensures HasRatios(oos[i]) {
      assert oos[i] in oos;
    }
    CountAll(HasSharpe, oos);
    CountAll(HasSortino, oos);
  }

  lemma RatiosAreRanks(folds: seq<Fold>)
    requires var oos := Filter(OutOfSample, folds); oos != [] && All(HasRatios, oos)
    ensures var oos := Filter(OutOfSample, folds);
      && IsRank(folds, (f: Fold) => !f.stress, SharpeOf, 500_000, Median(Map(Sharpe, Filter(HasSharpe, oos))))
      && IsRank(folds, (f: Fold) => !f.stress, SortinoOf, 500_000, Median(Map(Sortino, Filter(HasSortino, oos))))
  {
    var oos := Filter(OutOfSample, folds);
    hide All, Filter, Percentile, Map, IsRank;
    RatiosKept(oos);
    PercentileIs(folds, OutOfSample, (f: Fold) => !f.stress, Sharpe, SharpeOf, 500_000);
    PercentileIs(folds, OutOfSample, (f: Fold) => !f.stress, Sortino, SortinoOf, 500_000);
  }

  lemma RanksAreOfTheFolds(folds: seq<Fold>, c: Constraints, e: Evaluation)
    requires var oos := Filter(OutOfSample, folds);
      && oos != [] && All(HasRatios, oos)
      && e == Statistics(oos, Filter(Stressed, folds), c).(eligible := e.eligible, reason := e.reason)
    ensures RanksAre(folds, e)
  {
    RatiosAreRanks(folds);
    MadIsRank(folds);
    hide Filter, Percentile, Mad, Map, IsRank, Worst, SharePpm, Survives, Count;
    PercentileIs(folds, OutOfSample, (f: Fold) => !f.stress, NetReturn, (f: Fold) => f.netReturnBps, 250_000);
    PercentileIs(folds, OutOfSample, (f: Fold) => !f.stress, NetReturn, (f: Fold) => f.netReturnBps, 500_000);
    PercentileIs(folds, OutOfSample, (f: Fold) => !f.stress, FeeDrag, (f: Fold) => f.feeDragBps, 500_000);
  }

  lemma {:induction false} FilterTwice(p: Fold -> bool, q: Fold -> bool, t: Fold -> bool, folds: seq<Fold>)
    requires forall f :: t(f) == (p(f) && q(f))
    ensures Count(q, Filter(p, folds)) == Count(t, folds)
  {
    if folds != [] {
      var rest := Filter(p, folds[1..]);
      FilterTwice(p, q, t, folds[1..]);
      CountStep(t, folds);
      if p(folds[0]) {
        assert Filter(p, folds) == [folds[0]] + rest;
        CountStep(q, [folds[0]] + rest);
        assert ([folds[0]] + rest)[1..] == rest;
      } else {
        assert Filter(p, folds) == rest;
      }
    }
  }

  lemma TotalsAreOfTheFolds(folds: seq<Fold>, c: Constraints, e: Evaluation)
    requires var stress := Filter(Stressed, folds);
      && stress != []
      && e == Statistics(Filter(OutOfSample, folds), stress, c).(eligible := e.eligible, reason := e.reason)
    ensures TotalsAre(folds, c, e)
  {
    var oos, stress := Filter(OutOfSample, folds), Filter(Stressed, folds);
    SameTestSameFilter(OutOfSample, (f: Fold) => !f.stress, folds);
    SameTestSameFilter(Stressed, (f: Fold) => f.stress, folds);
    FilterMembers(OutOfSample, folds);
    SurvivorsAreCounted(folds, c);
    DeepestDrawdown(oos);
    var q := Quotient(Survivors(folds, c) * 1_000_000, |stress|);
    hide Filter, Percentile, Mad, Map, Worst, Survives, Survivors;
  }

  lemma SurvivorsAreCounted(folds: seq<Fold>, c: Constraints)
    ensures Count(Survives(c), Filter(Stressed, folds)) == Survivors(folds, c)
  {
    FilterTwice(Stressed, Survives(c), (f: Fold) =>
      f.stress && f.netReturnBps + c.maxStressLossBps >= 0.0 && f.maxDrawdownPct <= c.maxStressDrawdownPct, folds);
  }

  lemma DeepestDrawdown(oos: seq<Fold>)
    ensures var worst := Worst(Map(Drawdown, oos));
      && worst >= 0.0
      && (forall f :: f in oos ==> f.maxDrawdownPct <= worst)
      && (worst == 0.0 || exists f :: f in oos && f.maxDrawdownPct == worst)
  {
    var worst := Worst(Map(Drawdown, oos));
    MapMembers(Drawdown, oos, UpTo(worst));
    if worst != 0.0 {
      var i :| 0 <= i < |oos| && Map(Drawdown, oos)[i] == worst;
      assert oos[i] in oos;
    }
  }

  // ---------------------------------------------------------------- the requirement that fails first

  /** Fewer out-of-sample folds reach a floor than the rank asks for. */
  predicate Misses(folds: seq<Fold>, reaches: Fold -> bool, ppm: nat)
  {
    var n := Count((f: Fold) => !f.stress, folds);
    Count((f: Fold) => !f.stress && reaches(f), folds) < n - Steps(n, ppm)
  }

  /** So many out-of-sample folds exceed a cap that the fold of that rank does. */
  predicate Exceeds(folds: seq<Fold>, keeps: Fold -> bool, ppm: nat)
  {
    var n := Count((f: Fold) => !f.stress, folds);
    Count((f: Fold) => !f.stress && keeps(f), folds) < Steps(n, ppm) + 1
  }

  ghost predicate Any(folds: seq<Fold>, p: Fold -> bool) { exists f :: f in folds && p(f) }

  /** Constraints nothing can be judged by. */
  predicate Senseless(c: Constraints)
  {
    || c.minOosFolds == 0 || c.minStressFolds == 0 || c.minTradesPerOosFold == 0
    || c.maxOosDrawdownPct <= 0.0 || c.maxStressDrawdownPct <= 0.0 || c.maxStressLossBps < 0.0
    || c.minStressSurvivalPpm > 1_000_000 || c.minOosPositiveReturnPpm > 1_000_000
    || c.maxReturnMadBps < 0.0 || c.maxMedianFeeDragBps < 0.0
  }

  /** What turns a candidate away before its statistics are looked at, in the order of the checks. */
  ghost function Defects(folds: seq<Fold>, c: Constraints): seq<(bool, Reason)>
  {
    [ (Senseless(c), InvalidConstraints),
      (Any(folds, (f: Fold) => Text.Blank(f.foldId) || f.maxDrawdownPct < 0.0 || f.feeDragBps < 0.0), InvalidFoldMetrics),
      (Count((f: Fold) => !f.stress, folds) < c.minOosFolds, InsufficientOosFolds),
      (Count((f: Fold) => f.stress, folds) < c.minStressFolds, InsufficientStressFolds),
      (Any(folds, (f: Fold) => !f.stress && f.trades < c.minTradesPerOosFold), InsufficientOosTrades),
      (Any(folds, (f: Fold) => !f.stress && (f.sharpeRatio.None? || f.sortinoRatio.None?)), RiskMetricsIncomplete)]
  }

  /** What a candidate with complete evidence can fail, in the order of the gates. */
  ghost function Failures(folds: seq<Fold>, c: Constraints, center: real): seq<(bool, Reason)>
  {
    [ (Any(folds, (f: Fold) => !f.stress && f.maxDrawdownPct > c.maxOosDrawdownPct), OosDrawdownLimitExceeded),
      (Survivors(folds, c) * 1_000_000 < c.minStressSurvivalPpm * Count((f: Fold) => f.stress, folds),
       StressSurvivalBelowFloor),
      (Any(folds, (f: Fold) => !f.stress && f.netReturnBps < c.minOosReturnBps), OosReturnFloorNotMet),
      (Misses(folds, (f: Fold) => f.netReturnBps >= c.minLowerQuartileNetReturnBps, 250_000),
       LowerQuartileReturnFloorNotMet),
      (Misses(folds, (f: Fold) => SharpeOf(f) >= c.minMedianSharpeRatio, 500_000), MedianSharpeFloorNotMet),
      (Misses(folds, (f: Fold) => SortinoOf(f) >= c.minMedianSortinoRatio, 500_000), MedianSortinoFloorNotMet),
      (Exceeds(folds, (f: Fold) => Deviation(center)(f) <= c.maxReturnMadBps, 500_000), ReturnInstabilityLimitExceeded),
      (Exceeds(folds, (f: Fold) => f.feeDragBps <= c.maxMedianFeeDragBps, 500_000), MedianFeeDragLimitExceeded)]
  }

  /** An entry is given as the reason exactly when it applies and none before it does. */
  ghost predicate Explains(entries: seq<(bool, Reason)>, reason: Reason)
  {
    forall k :: 0 <= k < |entries| ==>
      (reason == entries[k].1 <==> entries[k].0 && forall j :: 0 <= j < k ==> !entries[j].0)
  }

  ghost predicate NoneApplies(entries: seq<(bool, Reason)>)
  {
    forall k :: 0 <= k < |entries| ==> !entries[k].0
  }

  lemma EntriesAreInOrder(folds: seq<Fold>, c: Constraints, center: real)
    ensures var d, f := Defects(folds, c), Failures(folds, c, center);
      && |d| == 6 && |f| == 8
      && d[0].1 == InvalidConstraints && d[1].1 == InvalidFoldMetrics && d[2].1 == InsufficientOosFolds
      && d[3].1 == InsufficientStressFolds && d[4].1 == InsufficientOosTrades && d[5].1 == RiskMetricsIncomplete
      && f[0].1 == OosDrawdownLimitExceeded && f[1].1 == StressSurvivalBelowFloor && f[2].1 == OosReturnFloorNotMet
      && f[3].1 == LowerQuartileReturnFloorNotMet && f[4].1 == MedianSharpeFloorNotMet
      && f[5].1 == MedianSortinoFloorNotMet && f[6].1 == ReturnInstabilityLimitExceeded
      && f[7].1 == MedianFeeDragLimitExceeded
  {
    hide Count, Misses, Exceeds, Senseless, Survivors, Deviation;
  }

  lemma DefectsAre(folds: seq<Fold>, c: Constraints)
    ensures var d, oos := Defects(folds, c), Filter(OutOfSample, folds);
      && d[0].0 == !ValidConstraints(c)
      && d[1].0 == !All(ValidFold, folds)
      && d[2].0 == (|oos| < c.minOosFolds)
      && d[3].0 == (|Filter(Stressed, folds)| < c.minStressFolds)
      && d[4].0 == !All(TradedEnough(c), oos)
      && d[5].0 == !All(HasRatios, oos)
  {
    SameTestSameFilter(OutOfSample, (f: Fold) => !f.stress, folds);
    SameTestSameFilter(Stressed, (f: Fold) => f.stress, folds);
    FilterMembers(OutOfSample, folds);
    hide Filter;
  }

  lemma RefusalIsFirstDefect(folds: seq<Fold>, c: Constraints, reason: Reason)
    requires var r := Refusal(folds, c);
      if r.Some? then reason == r.value else forall k :: 0 <= k < 6 ==> reason != Defects(folds, c)[k].1
    ensures Explains(Defects(folds, c), reason)
    ensures NoneApplies(Defects(folds, c)) <==> Refusal(folds, c).None?
  {
    DefectsAre(folds, c);
    EntriesAreInOrder(folds, c, 0.0);
    hide ValidConstraints, All, Filter, Count, Senseless, Failures, Defects;
  }

  lemma MissesMeans(folds: seq<Fold>, figure: Fold -> real, reaches: Fold -> bool, floor: real, ppm: nat)
    requires Filter(OutOfSample, folds) != [] && ppm <= 1_000_000
    requires forall f :: reaches(f) == (figure(f) >= floor)
    ensures Misses(folds, reaches, ppm) <==> Percentile(Map(figure, Filter(OutOfSample, folds)), ppm) < floor
  {
    var values := Map(figure, Filter(OutOfSample, folds));
    SameTestSameFilter(OutOfSample, (f: Fold) => !f.stress, folds);
    assert RankIndex(|values|, ppm) == Steps(|values|, ppm);
    hide Filter, Percentile, Map, RankIndex, Steps;
    PercentileIsOrderStatistic(values, ppm, floor);
    CountThrough(folds, OutOfSample, figure, From(floor), (f: Fold) => !f.stress && reaches(f));
  }

  lemma ExceedsMeans(folds: seq<Fold>, figure: Fold -> real, keeps: Fold -> bool, cap: real, ppm: nat)
    requires Filter(OutOfSample, folds) != [] && ppm <= 1_000_000
    requires forall f :: keeps(f) == (figure(f) <= cap)
    ensures Exceeds(folds, keeps, ppm) <==> Percentile(Map(figure, Filter(OutOfSample, folds)), ppm) > cap
  {
    var values := Map(figure, Filter(OutOfSample, folds));
    SameTestSameFilter(OutOfSample, (f: Fold) => !f.stress, folds);
    assert RankIndex(|values|, ppm) == Steps(|values|, ppm);
    hide Filter, Percentile, Map, RankIndex, Steps;
    PercentileIsOrderStatistic(values, ppm, cap);
    CountThrough(folds, OutOfSample, figure, UpTo(cap), (f: Fold) => !f.stress && keeps(f));
  }

  lemma RatioFailuresAre(folds: seq<Fold>, c: Constraints)
    requires var oos := Filter(OutOfSample, folds); oos != [] && All(HasRatios, oos)
    ensures var oos := Filter(OutOfSample, folds);
      && (Misses(folds, (f: Fold) => SharpeOf(f) >= c.minMedianSharpeRatio, 500_000) <==>
        Median(Map(Sharpe, Filter(HasSharpe, oos))) < c.minMedianSharpeRatio)
      && (Misses(folds, (f: Fold) => SortinoOf(f) >= c.minMedianSortinoRatio, 500_000) <==>
        Median(Map(Sortino, Filter(HasSortino, oos))) < c.minMedianSortinoRatio)
  {
    var oos := Filter(OutOfSample, folds);
    hide All, Filter, Percentile, Map, Misses;
    RatiosKept(oos);
    MissesMeans(folds, Sharpe, (f: Fold) => SharpeOf(f) >= c.minMedianSharpeRatio, c.minMedianSharpeRatio, 500_000);
    MissesMeans(folds, Sortino, (f: Fold) => SortinoOf(f) >= c.minMedianSortinoRatio, c.minMedianSortinoRatio, 500_000);
  }

  lemma RankFailuresAre(folds: seq<Fold>, c: Constraints)
    requires Filter(OutOfSample, folds) != []
    ensures var oos := Filter(OutOfSample, folds);
      var earned := Map(NetReturn, oos);
      && (Misses(folds, (f: Fold) => f.netReturnBps >= c.minLowerQuartileNetReturnBps, 250_000) <==>
        Percentile(earned, QUARTILE_PPM) < c.minLowerQuartileNetReturnBps)
      && (Exceeds(folds, (f: Fold) => Deviation(Median(earned))(f) <= c.maxReturnMadBps, 500_000) <==>
        Mad(earned) > c.maxReturnMadBps)
      && (Exceeds(folds, (f: Fold) => f.feeDragBps <= c.maxMedianFeeDragBps, 500_000) <==>
        Median(Map(FeeDrag, oos)) > c.maxMedianFeeDragBps)
  {
    var oos := Filter(OutOfSample, folds);
    var center := Median(Map(NetReturn, oos));
    DeviationsAgree(oos, center);
    hide Filter, Percentile, Map, Misses, Exceeds, Deviation, Distance;
    MissesMeans(folds, NetReturn, (f: Fold) => f.netReturnBps >= c.minLowerQuartileNetReturnBps,
      c.minLowerQuartileNetReturnBps, 250_000);
    ExceedsMeans(folds, Deviation(center), (f: Fold) => Deviation(center)(f) <= c.maxReturnMadBps,
      c.maxReturnMadBps, 500_000);
    ExceedsMeans(folds, FeeDrag, (f: Fold) => f.feeDragBps <= c.maxMedianFeeDragBps, c.maxMedianFeeDragBps, 500_000);
  }

  lemma DrawdownFails(folds: seq<Fold>, cap: real)
    requires cap > 0.0
    ensures Worst(Map(Drawdown, Filter(OutOfSample, folds))) > cap <==>
      Any(folds, (f: Fold) => !f.stress && f.maxDrawdownPct > cap)
  {
    FilterMembers(OutOfSample, folds);
    hide Worst, Filter;
    DrawdownsMean(Filter(OutOfSample, folds), cap);
  }

  lemma SurvivalFails(folds: seq<Fold>, c: Constraints)
    requires Filter(Stressed, folds) != []
    ensures var stress := Filter(Stressed, folds);
      SharePpm(Count(Survives(c), stress), |stress|) < c.minStressSurvivalPpm <==>
      Survivors(folds, c) * 1_000_000 < c.minStressSurvivalPpm * Count((f: Fold) => f.stress, folds)
  {
    var stress := Filter(Stressed, folds);
    SameTestSameFilter(Stressed, (f: Fold) => f.stress, folds);
    SurvivorsAreCounted(folds, c);
    hide Survivors, Survives, SharePpm;
    ShareReaches(Count(Survives(c), stress), |stress|, c.minStressSurvivalPpm);
  }

  lemma ReturnFails(folds: seq<Fold>, c: Constraints)
    requires Filter(OutOfSample, folds) != []
    ensures var earned := Map(NetReturn, Filter(OutOfSample, folds));
      && (Smallest(earned) < c.minOosReturnBps <==>
        Any(folds, (f: Fold) => !f.stress && f.netReturnBps < c.minOosReturnBps))
      && (Smallest(earned) >= c.minOosReturnBps ==> PositivePpm(earned, c) == PPM)
  {
    FilterMembers(OutOfSample, folds);
    hide Smallest, PositivePpm, Filter;
    ReturnsMean(Filter(OutOfSample, folds), c);
  }

  ghost predicate FitsGates(
      f: seq<(bool, Reason)>, e: Evaluation, worstReturn: real, positivePpm: nat, c: Constraints)
  {
    && |f| == 8
    && f[0] == (e.worstMaxDrawdownPct > c.maxOosDrawdownPct, OosDrawdownLimitExceeded)
    && f[1] == (e.stressSurvivalPpm < c.minStressSurvivalPpm, StressSurvivalBelowFloor)
    && f[2] == (worstReturn < c.minOosReturnBps, OosReturnFloorNotMet)
    && (!f[2].0 ==> positivePpm >= c.minOosPositiveReturnPpm)
    && f[3] == (e.lowerQuartileNetReturnBps < c.minLowerQuartileNetReturnBps, LowerQuartileReturnFloorNotMet)
    && f[4] == (e.medianSharpeRatio < c.minMedianSharpeRatio, MedianSharpeFloorNotMet)
    && f[5] == (e.medianSortinoRatio < c.minMedianSortinoRatio, MedianSortinoFloorNotMet)
    && f[6] == (e.returnMadBps > c.maxReturnMadBps, ReturnInstabilityLimitExceeded)
    && f[7] == (e.medianFeeDragBps > c.maxMedianFeeDragBps, MedianFeeDragLimitExceeded)
  }

  lemma GateExplains(
      f: seq<(bool, Reason)>, e: Evaluation, worstReturn: real, positivePpm: nat, c: Constraints)
    requires FitsGates(f, e, worstReturn, positivePpm, c)
    ensures Explains(f, Gate(e, worstReturn, positivePpm, c))
    ensures NoneApplies(f) <==> Gate(e, worstReturn, positivePpm, c) == AllGatesPassed
  {
  }

  lemma FailuresFit(folds: seq<Fold>, c: Constraints)
    requires ValidConstraints(c)
    requires var oos := Filter(OutOfSample, folds);
      oos != [] && Filter(Stressed, folds) != [] && All(HasRatios, oos)
    ensures var oos := Filter(OutOfSample, folds);
      var e, earned := Statistics(oos, Filter(Stressed, folds), c), Map(NetReturn, oos);
      FitsGates(Failures(folds, c, e.medianNetReturnBps), e, Smallest(earned), PositivePpm(earned, c), c)
  {
    hide Filter, Count, Map, Smallest, Percentile, Median, Mad, Worst, SharePpm, PositivePpm, Survives, Survivors,
      Misses, Exceeds, Steps, Deviation, All, Any;
    DrawdownFails(folds, c.maxOosDrawdownPct);
    SurvivalFails(folds, c);
    ReturnFails(folds, c);
    RatioFailuresAre(folds, c);
    RankFailuresAre(folds, c);
  }

  lemma GateIsNoDefect(e: Evaluation, worstReturn: real, positivePpm: nat, c: Constraints)
    ensures var reason := Gate(e, worstReturn, positivePpm, c);
      && !reason.InvalidConstraints? && !reason.InvalidFoldMetrics? && !reason.InsufficientOosFolds?
      && !reason.InsufficientStressFolds? && !reason.InsufficientOosTrades? && !reason.RiskMetricsIncomplete?
  {
  }

  lemma RefusalLeaves(folds: seq<Fold>, c: Constraints)
    requires Refusal(folds, c).None?
    ensures var oos := Filter(OutOfSample, folds);
      && ValidConstraints(c) && oos != [] && Filter(Stressed, folds) != []
      && All(HasRatios, oos) && c.minOosPositiveReturnPpm <= PPM
  {
  }

  lemma GateIsFirstFailure(folds: seq<Fold>, c: Constraints, e: Evaluation, reason: Reason)
    requires Refusal(folds, c).None?
    requires var oos := Filter(OutOfSample, folds);
      && e == Statistics(oos, Filter(Stressed, folds), c)
      && reason == Gate(e, Smallest(Map(NetReturn, oos)), PositivePpm(Map(NetReturn, oos), c), c)
    ensures Explains(Failures(folds, c, e.medianNetReturnBps), reason)
    ensures NoneApplies(Failures(folds, c, e.medianNetReturnBps)) <==> reason == AllGatesPassed
    ensures forall k :: 0 <= k < 6 ==> reason != Defects(folds, c)[k].1
  {
    hide *;
    RefusalLeaves(folds, c);
    FailuresFit(folds, c);
    var earned := Map(NetReturn, Filter(OutOfSample, folds));
    GateExplains(Failures(folds, c, e.medianNetReturnBps), e, Smallest(earned), PositivePpm(earned, c), c);
    GateIsNoDefect(e, Smallest(earned), PositivePpm(earned, c), c);
    EntriesAreInOrder(folds, c, 0.0);
  }

  /**
   The reason is the first defect of the folds and constraints or, when there is none, the first failed
   requirement; a candidate is eligible exactly when neither exists.
   */
  lemma ReasonIsTheFirstDefect(folds: seq<Fold>, c: Constraints)
    ensures var e := Evaluated(folds, c);
      && Explains(Defects(folds, c), e.reason)
      && (NoneApplies(Defects(folds, c)) ==> Explains(Failures(folds, c, e.medianNetReturnBps), e.reason))
      && (e.eligible <==> NoneApplies(Defects(folds, c)) && NoneApplies(Failures(folds, c, e.medianNetReturnBps)))
      && (e.eligible <==> e.reason == AllGatesPassed)
  {
    var e := Evaluated(folds, c);
    if Refusal(folds, c).None? {
      GateIsFirstFailure(folds, c, Statistics(Filter(OutOfSample, folds), Filter(Stressed, folds), c), e.reason);
    }
    RefusalIsFirstDefect(folds, c, e.reason);
    hide Filter, Statistics, Gate, Smallest, PositivePpm, Explains, NoneApplies, Failures, Defects, ValidConstraints, All;
  }

  lemma EvaluatedIs(folds: seq<Fold>, c: Constraints)
    ensures var e, r := Evaluated(folds, c), Refusal(folds, c);
      if r.Some? then e == Evaluation(false, r.value, 0, 0, 0, 0.0, 0.0, 0.0, 0.0, 0.0, 0.0, 0.0)
      else
        var judged := Statistics(Filter(OutOfSample, folds), Filter(Stressed, folds), c);
        e == judged.(eligible := e.eligible, reason := e.reason)
  {
    hide Refusal, Statistics, Gate, Filter, Map, Smallest, PositivePpm;
  }

  /** A candidate turned away for a defect reports nothing; any other reports the figures of its folds. */
  lemma FiguresAreOfTheFolds(folds: seq<Fold>, c: Constraints)
    ensures var e := Evaluated(folds, c);
      if NoneApplies(Defects(folds, c)) then TotalsAre(folds, c, e) && RanksAre(folds, e)
      else e == Evaluation(false, e.reason, 0, 0, 0, 0.0, 0.0, 0.0, 0.0, 0.0, 0.0, 0.0)
  {
    hide *;
    var e := Evaluated(folds, c);
    EvaluatedIs(folds, c);
    NoDefectMeansJudged(folds, c);
    if Refusal(folds, c).None? {
      RefusalLeaves(folds, c);
      TotalsAreOfTheFolds(folds, c, e);
      RanksAreOfTheFolds(folds, c, e);
    }
  }

  lemma NoDefectMeansJudged(folds: seq<Fold>, c: Constraints)
    ensures NoneApplies(Defects(folds, c)) <==> Refusal(folds, c).None?
  {
    hide Refusal, Defects, Explains;
    EntriesAreInOrder(folds, c, 0.0);
    RefusalIsFirstDefect(folds, c, if Refusal(folds, c).Some? then Refusal(folds, c).value else AllGatesPassed);
  }

  // ---------------------------------------------------------------- what a promotion adds

  /**
   A promotion carries the evaluation under the thresholds of the policy. A promoted candidate reports
   the least of its returns and a full share of returns above the floor, and its score is its lower
   quartile per point of drawdown, drawdowns below one counting as one; any other reports zeros.
   */
  lemma PromotionInFigures(p: Policy, folds: seq<Fold>)
    ensures var r := Promoted(p, folds);
      && (ValidPolicy(p) ==> r.robust == Evaluated(folds, RobustConstraints(p)) && r.reason == r.robust.reason)
      && (r.eligible ==>
        && (forall f :: f in folds && !f.stress ==> r.worstOosReturnBps <= f.netReturnBps)
        && (exists f :: f in folds && !f.stress && f.netReturnBps == r.worstOosReturnBps)
        && r.positiveOosSurvivalPpm == 1_000_000
        && (r.robust.worstMaxDrawdownPct <= 1.0 ==> r.riskAdjustedScore == r.robust.lowerQuartileNetReturnBps)
        && (r.robust.worstMaxDrawdownPct > 1.0 ==>
          r.riskAdjustedScore * r.robust.worstMaxDrawdownPct == r.robust.lowerQuartileNetReturnBps))
      && (!r.eligible ==> r.worstOosReturnBps == 0.0 && r.positiveOosSurvivalPpm == 0 && r.riskAdjustedScore == 0.0)
  {
    PromotedCarries(p, folds);
    var r := Promoted(p, folds);
    hide Promoted, Score, Filter, Map, Smallest, PositivePpm, Evaluated;
    if r.eligible {
      EligibleEvaluationsAreSound(folds, RobustConstraints(p));
      LeastReturn(folds);
      ScoreTimesDrawdown(r.robust);
    }
  }

  lemma PromotedCarries(p: Policy, folds: seq<Fold>)
    ensures var r, c := Promoted(p, folds), RobustConstraints(p);
      var earned := Map(NetReturn, Filter(OutOfSample, folds));
      && (ValidPolicy(p) ==> r.robust == Evaluated(folds, c) && r.reason == r.robust.reason)
      && (r.eligible ==>
        && Evaluated(folds, c).eligible && earned != []
        && r.positiveOosSurvivalPpm == PositivePpm(earned, c)
        && r.worstOosReturnBps == Smallest(earned)
        && r.riskAdjustedScore == Score(r.robust))
      && (!r.eligible ==> r.worstOosReturnBps == 0.0 && r.positiveOosSurvivalPpm == 0 && r.riskAdjustedScore == 0.0)
  {
    hide Score, Filter, Map, Smallest, PositivePpm, Statistics, Gate;
  }

  lemma LeastReturn(folds: seq<Fold>)
    requires Filter(OutOfSample, folds) != []
    ensures var least := Smallest(Map(NetReturn, Filter(OutOfSample, folds)));
      && (forall f :: f in folds && !f.stress ==> least <= f.netReturnBps)
      && exists f :: f in folds && !f.stress && f.netReturnBps == least
  {
    var oos := Filter(OutOfSample, folds);
    var least := Smallest(Map(NetReturn, oos));
    FilterMembers(OutOfSample, folds);
    MapMembers(NetReturn, oos, From(least));
    RankTaken(folds, OutOfSample, NetReturn, least);
  }

  lemma ScoreTimesDrawdown(e: Evaluation)
    ensures e.worstMaxDrawdownPct <= 1.0 ==> Score(e) == e.lowerQuartileNetReturnBps
    ensures e.worstMaxDrawdownPct > 1.0 ==> Score(e) * e.worstMaxDrawdownPct == e.lowerQuartileNetReturnBps
  {
  }

  /** The policy fields end up in the constraint of the same name, and are refused for the same defects. */
  lemma PolicyInFigures(p: Policy)
    ensures ValidPolicy(p) <==>
      p.schemaVersion == 1 && !Text.Blank(p.policyId) && !Senseless(RobustConstraints(p))
    ensures var c := RobustConstraints(p);
      && c.minOosFolds == p.minOosFolds && c.minStressFolds == p.minStressFolds
      && c.minTradesPerOosFold == p.minTradesPerOosFold
      && c.maxOosDrawdownPct == p.maxOosDrawdownPct && c.maxStressDrawdownPct == p.maxStressDrawdownPct
      && c.maxStressLossBps == p.maxStressLossBps && c.minStressSurvivalPpm == p.minStressSurvivalPpm
      && c.minOosReturnBps == p.minOosReturnBps && c.minOosPositiveReturnPpm == p.minOosPositiveReturnPpm
      && c.minLowerQuartileNetReturnBps == p.minLowerQuartileNetReturnBps
      && c.minMedianSharpeRatio == p.minMedianSharpeRatio && c.minMedianSortinoRatio == p.minMedianSortinoRatio
      && c.maxReturnMadBps == p.maxReturnMadBps && c.maxMedianFeeDragBps == p.maxMedianFeeDragBps
  {
  }

  lemma ScoreOrder(gain: real, gain': real, fall: real, fall': real, s: real, s': real)
    requires 1.0 <= fall <= fall' && s * fall == gain && s' * fall' == gain'
    ensures gain >= gain' >= 0.0 ==> s >= s'
    ensures gain == gain' && fall < fall' ==> (s > s' <==> gain > 0.0) && (s < s' <==> gain < 0.0)
  {
    assert s * fall' == gain + s * (fall' - fall);
    assert s * fall' - s' * fall' == (s - s') * fall';
    if gain > 0.0 {
      assert s > 0.0;
    } else if gain < 0.0 {
      assert s < 0.0;
    } else {
      assert s == 0.0;
    }
  }

  /**
   How scores compare. With a gain in the lower quartile, more gain or less drawdown never lowers the
   score; with a loss, a deeper drawdown raises it: the score then prefers the riskier candidate.
   */
  lemma ScoresCompare(p: Policy, folds: seq<Fold>, q: Policy, others: seq<Fold>)
    requires Promoted(p, folds).eligible && Promoted(q, others).eligible
    ensures var a, b := Promoted(p, folds), Promoted(q, others);
      var gain, gain' := a.robust.lowerQuartileNetReturnBps, b.robust.lowerQuartileNetReturnBps;
      var fall, fall' := a.robust.worstMaxDrawdownPct, b.robust.worstMaxDrawdownPct;
      && (gain >= gain' >= 0.0 && fall <= fall' ==> a.riskAdjustedScore >= b.riskAdjustedScore)
      && (gain == gain' && 1.0 <= fall < fall' ==>
        && (a.riskAdjustedScore > b.riskAdjustedScore <==> gain > 0.0)
        && (a.riskAdjustedScore < b.riskAdjustedScore <==> gain < 0.0))
  {
    var a, b := Promoted(p, folds), Promoted(q, others);
    PromotionInFigures(p, folds);
    PromotionInFigures(q, others);
    hide Promoted;
    var fall, fall' := a.robust.worstMaxDrawdownPct, b.robust.worstMaxDrawdownPct;
    if fall <= fall' {
      ScoreOrder(
        a.robust.lowerQuartileNetReturnBps, b.robust.lowerQuartileNetReturnBps,
        if fall > 1.0 then fall else 1.0, if fall' > 1.0 then fall' else 1.0,
        a.riskAdjustedScore, b.riskAdjustedScore);
    }
  }
}
