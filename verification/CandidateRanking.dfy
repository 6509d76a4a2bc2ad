/**
 Ranking evaluated candidates: the chain of comparisons, the sort that puts the best candidate first
 and the choice of the candidate to promote.
 */
module CandidateRanking {
  import opened Outcomes
  import opened Ranks
  import Text
  import opened GateStatistics
  import opened GateFigures

  datatype Ordering = Less | Equal | Greater

  function CompareReals(a: real, b: real): Ordering
  {
    if a < b then Less else if a > b then Greater else Equal
  }

  function CompareNats(a: nat, b: nat): Ordering
  {
    if a < b then Less else if a > b then Greater else Equal
  }

  function CompareFlags(a: bool, b: bool): Ordering
  {
    if !a && b then Less else if a && !b then Greater else Equal
  }

  function CompareIds(a: string, b: string): Ordering
  {
    if Text.Before(a, b) then Less else if Text.Before(b, a) then Greater else Equal
  }

  /** The derived order of the stages is the order of their declaration. */
  function StageIndex(s: Stage): nat
  {
    match s
    case Rejected => 0
    case InsufficientEvidence => 1
    case PaperCandidate => 2
  }

  function Then(first: Ordering, second: Ordering): Ordering
  {
    if first == Equal then second else first
  }

  function CompareCandidates(left: Promotion, right: Promotion): Ordering
  {
    Then(CompareFlags(left.eligible, right.eligible),
    Then(CompareNats(StageIndex(left.stage), StageIndex(right.stage)),
    Then(CompareReals(left.riskAdjustedScore, right.riskAdjustedScore),
    Then(CompareNats(left.positiveOosSurvivalPpm, right.positiveOosSurvivalPpm),
    Then(CompareNats(left.robust.stressSurvivalPpm, right.robust.stressSurvivalPpm),
    Then(CompareReals(left.robust.medianSharpeRatio, right.robust.medianSharpeRatio),
    Then(CompareReals(right.robust.worstMaxDrawdownPct, left.robust.worstMaxDrawdownPct),
    CompareReals(right.robust.returnMadBps, left.robust.returnMadBps))))))))
  }

  // ---------------------------------------------------------------- what the comparison means

  /** What a candidate is compared by, most important figure first; more is better. */
  ghost function Merits(r: Promotion): (merits: seq<real>)
    ensures |merits| == 8
  {
    [ if r.eligible then 1.0 else 0.0,
      if r.stage.PaperCandidate? then 2.0 else if r.stage.InsufficientEvidence? then 1.0 else 0.0,
      r.riskAdjustedScore,
      r.positiveOosSurvivalPpm as real,
      r.robust.stressSurvivalPpm as real,
      r.robust.medianSharpeRatio,
      -r.robust.worstMaxDrawdownPct,
      -r.robust.returnMadBps]
  }

  /** The first figure in which two lists differ is larger in the second. */
  ghost predicate Exceeded(a: seq<real>, b: seq<real>)
    requires |a| == |b|
  {
    a != [] && (a[0] < b[0] || (a[0] == b[0] && Exceeded(a[1..], b[1..])))
  }

  lemma {:induction false} ExceededIsAnOrder(a: seq<real>, b: seq<real>)
    requires |a| == |b|
    ensures Exceeded(a, b) || Exceeded(b, a) || a == b
    ensures !(Exceeded(a, b) && Exceeded(b, a)) && !Exceeded(a, a)
  {
    if a != [] {
      ExceededIsAnOrder(a[1..], b[1..]);
      assert a == [a[0]] + a[1..] && b == [b[0]] + b[1..];
    }
  }

  lemma {:induction false} ExceededIsTransitive(a: seq<real>, b: seq<real>, c: seq<real>)
    requires |a| == |b| == |c| && Exceeded(a, b) && Exceeded(b, c)
    ensures Exceeded(a, c)
  {
    if a[0] == b[0] == c[0] {
      ExceededIsTransitive(a[1..], b[1..], c[1..]);
    }
  }

  ghost predicate Agrees(o: Ordering, a: seq<real>, b: seq<real>)
    requires |a| == |b|
  {
    && (o.Less? <==> Exceeded(a, b))
    && (o.Greater? <==> Exceeded(b, a))
    && (o.Equal? <==> a == b)
  }

  ghost function Lexicographic(a: seq<real>, b: seq<real>): Ordering
    requires |a| == |b|
  {
    if a == [] then Equal else Then(CompareReals(a[0], b[0]), Lexicographic(a[1..], b[1..]))
  }

  lemma {:induction false} LexicographicAgrees(a: seq<real>, b: seq<real>)
    requires |a| == |b|
    ensures Agrees(Lexicographic(a, b), a, b)
  {
    if a != [] {
      LexicographicAgrees(a[1..], b[1..]);
      assert a == [a[0]] + a[1..] && b == [b[0]] + b[1..];
    }
  }

  lemma LexicographicFrom(a: seq<real>, b: seq<real>, k: nat)
    requires |a| == |b| && k < |a|
    ensures Lexicographic(a[k..], b[k..]) == Then(CompareReals(a[k], b[k]), Lexicographic(a[k + 1..], b[k + 1..]))
  {
    assert a[k..][1..] == a[k + 1..] && b[k..][1..] == b[k + 1..];
  }

  /** Candidates are compared by their merits, each deciding only where all before it agree. */
  lemma ComparisonMeans(left: Promotion, right: Promotion)
    ensures Agrees(CompareCandidates(left, right), Merits(left), Merits(right))
  {
    hide *;
    LexicographicAgrees(Merits(left), Merits(right));
    ComparisonIsLexicographic(left, right);
  }

  lemma ComparisonIsLexicographic(left: Promotion, right: Promotion)
    ensures CompareCandidates(left, right) == Lexicographic(Merits(left), Merits(right))
  {
    var a, b := Merits(left), Merits(right);
    hide Lexicographic;
    assert a[0..] == a && b[0..] == b && a[8..] == [] && b[8..] == [];
    assert Lexicographic([], []) == Equal by { NothingToCompare(); }
    LexicographicFrom(a, b, 0);
    LexicographicFrom(a, b, 1);
    LexicographicFrom(a, b, 2);
    LexicographicFrom(a, b, 3);
    LexicographicFrom(a, b, 4);
    LexicographicFrom(a, b, 5);
    LexicographicFrom(a, b, 6);
    LexicographicFrom(a, b, 7);
  }

  lemma NothingToCompare()
    ensures Lexicographic([], []) == Equal
  {
  }

  // ---------------------------------------------------------------- what can decide

  /** A promoted candidate beats every other one, and one with missing evidence every one that failed. */
  lemma StagesDecide(p: Policy, folds: seq<Fold>, q: Policy, others: seq<Fold>)
    requires StageIndex(Promoted(p, folds).stage) > StageIndex(Promoted(q, others).stage)
    ensures CompareCandidates(Promoted(p, folds), Promoted(q, others)) == Greater
  {
    hide Filter, Evaluated, Map, Smallest, PositivePpm, Score;
  }

  /**
   Between two promoted candidates eligibility, stage and positive share decide nothing: score, stress
   survival, median Sharpe ratio, drawdown and spread of returns are all there is.
   */
  lemma PromotedCandidatesCompare(p: Policy, folds: seq<Fold>, q: Policy, others: seq<Fold>)
    requires Promoted(p, folds).eligible && Promoted(q, others).eligible
    ensures var a, b := Promoted(p, folds), Promoted(q, others);
      Agrees(
        CompareCandidates(a, b),
        [a.riskAdjustedScore, a.robust.stressSurvivalPpm as real, a.robust.medianSharpeRatio,
          -a.robust.worstMaxDrawdownPct, -a.robust.returnMadBps],
        [b.riskAdjustedScore, b.robust.stressSurvivalPpm as real, b.robust.medianSharpeRatio,
          -b.robust.worstMaxDrawdownPct, -b.robust.returnMadBps])
  {
    hide *;
    PromotionInFigures(p, folds);
    PromotionInFigures(q, others);
    PromotionIsExact(p, folds);
    PromotionIsExact(q, others);
    OnlyFiguresDecide(Promoted(p, folds), Promoted(q, others));
  }

  lemma OnlyFiguresDecide(a: Promotion, b: Promotion)
    requires a.eligible && b.eligible && a.stage == b.stage && a.positiveOosSurvivalPpm == b.positiveOosSurvivalPpm
    ensures Agrees(
        CompareCandidates(a, b),
        [a.riskAdjustedScore, a.robust.stressSurvivalPpm as real, a.robust.medianSharpeRatio,
          -a.robust.worstMaxDrawdownPct, -a.robust.returnMadBps],
        [b.riskAdjustedScore, b.robust.stressSurvivalPpm as real, b.robust.medianSharpeRatio,
          -b.robust.worstMaxDrawdownPct, -b.robust.returnMadBps])
  {
    var x := [a.riskAdjustedScore, a.robust.stressSurvivalPpm as real, a.robust.medianSharpeRatio,
      -a.robust.worstMaxDrawdownPct, -a.robust.returnMadBps];
    var y := [b.riskAdjustedScore, b.robust.stressSurvivalPpm as real, b.robust.medianSharpeRatio,
      -b.robust.worstMaxDrawdownPct, -b.robust.returnMadBps];
    LexicographicAgrees(x, y);
    hide Lexicographic, Agrees;
    assert x[0..] == x && y[0..] == y && x[5..] == [] && y[5..] == [];
    NothingToCompare();
    LexicographicFrom(x, y, 0);
    LexicographicFrom(x, y, 1);
    LexicographicFrom(x, y, 2);
    LexicographicFrom(x, y, 3);
    LexicographicFrom(x, y, 4);
  }

  /** Candidates that lack evidence have no figures, so none of them is ranked above another. */
  lemma MissingEvidenceTies(p: Policy, folds: seq<Fold>, q: Policy, others: seq<Fold>)
    requires Promoted(p, folds).stage.InsufficientEvidence? && Promoted(q, others).stage.InsufficientEvidence?
    ensures CompareCandidates(Promoted(p, folds), Promoted(q, others)) == Equal
  {
    LacksFigures(p, folds);
    LacksFigures(q, others);
    hide Promoted;
  }

  lemma LacksFigures(p: Policy, folds: seq<Fold>)
    requires Promoted(p, folds).stage.InsufficientEvidence?
    ensures Promoted(p, folds).robust == Base(Promoted(p, folds).reason)
    ensures var r := Promoted(p, folds);
      r == Promotion(false, InsufficientEvidence, r.reason, r.robust, 0, 0.0, 0.0)
  {
    hide Filter, Map, Smallest, PositivePpm, Score, Statistics;
  }

  // ---------------------------------------------------------------- the selection

  type Table = map<string, Promotion>

  /** The best candidate first; candidates that compare as equal by their ids. */
  function CompareOutputs(table: Table, left: string, right: string): Ordering
    requires left in table && right in table
  {
    Then(CompareCandidates(table[right], table[left]), CompareIds(left, right))
  }

  /** The order the sort uses, on the ids of the table; any others follow by their ids. */
  predicate Precedes(table: Table, left: string, right: string)
  {
    if left in table && right in table then CompareOutputs(table, left, right) != Greater
    else left in table || (right !in table && CompareIds(left, right) != Greater)
  }

  function ByRank(table: Table): (string, string) -> bool
  {
    (left: string, right: string) => Precedes(table, left, right)
  }

  function Ranked(table: Table, ids: seq<string>): seq<string> { Sort(ByRank(table), ids) }

  function FirstEligible(table: Table, ids: seq<string>): Option<string>
    requires forall id :: id in ids ==> id in table
  {
    if ids == [] then None
    else if table[ids[0]].eligible then Some(ids[0])
    else FirstEligible(table, ids[1..])
  }

  function Selected(table: Table, ids: seq<string>): Option<string>
    requires forall id :: id in ids ==> id in table
  {
    RankedKeeps(table, ids);
    FirstEligible(table, Ranked(table, ids))
  }

  lemma RankedKeeps(table: Table, ids: seq<string>)
    ensures forall id :: id in Ranked(table, ids) <==> id in ids
    ensures |Ranked(table, ids)| == |ids|
  {
    SortKeeps(ByRank(table), ids);
    assert forall id :: id in Ranked(table, ids) <==> id in multiset(Ranked(table, ids));
    assert forall id :: id in ids <==> id in multiset(ids);
  }

  lemma RankIsTotal(table: Table)
    ensures TotalOrder(ByRank(table))
  {
    forall a, b ensures Precedes(table, a, b) || Precedes(table, b, a)
      ensures Precedes(table, a, b) && Precedes(table, b, a) ==> a == b
    {
      RankTotality(table, a, b);
    }
    forall a, b, c | Precedes(table, a, b) && Precedes(table, b, c) ensures Precedes(table, a, c) {
      RankTransitivity(table, a, b, c);
    }
  }

  lemma RankTotality(table: Table, a: string, b: string)
    ensures Precedes(table, a, b) || Precedes(table, b, a)
    ensures Precedes(table, a, b) && Precedes(table, b, a) ==> a == b
  {
    Text.BeforeIsTotal(a, b);
    if a in table && b in table {
      ComparisonMeans(table[a], table[b]);
      ComparisonMeans(table[b], table[a]);
      ExceededIsAnOrder(Merits(table[a]), Merits(table[b]));
      hide CompareCandidates, Exceeded, Merits;
    }
  }

  lemma PrecedesMeans(table: Table, a: string, b: string)
    requires a in table && b in table
    ensures Precedes(table, a, b) <==>
      || Exceeded(Merits(table[b]), Merits(table[a]))
      || (Merits(table[b]) == Merits(table[a]) && (Text.Before(a, b) || a == b))
  {
    Text.BeforeIsTotal(a, b);
    ComparisonMeans(table[b], table[a]);
    ExceededIsAnOrder(Merits(table[a]), Merits(table[b]));
    hide CompareCandidates, Exceeded, Merits;
  }

  lemma RankTransitivity(table: Table, a: string, b: string, c: string)
    requires Precedes(table, a, b) && Precedes(table, b, c)
    ensures Precedes(table, a, c)
  {
    Text.BeforeIsTotal(a, b);
    Text.BeforeIsTotal(b, c);
    if Text.Before(a, b) && Text.Before(b, c) {
      Text.BeforeIsTransitive(a, b, c);
    }
    if c in table {
      InTableTransitivity(table, a, b, c);
    } else {
      Text.BeforeIsTotal(a, c);
      hide CompareOutputs, Text.Before;
    }
  }

  lemma InTableTransitivity(table: Table, a: string, b: string, c: string)
    requires Precedes(table, a, b) && Precedes(table, b, c) && c in table
    requires Text.Before(a, b) && Text.Before(b, c) ==> Text.Before(a, c)
    ensures Precedes(table, a, c)
  {
    hide CompareOutputs, Merits, Exceeded, Text.Before;
    PrecedesMeans(table, a, b);
    PrecedesMeans(table, b, c);
    PrecedesMeans(table, a, c);
    var x, y, z := Merits(table[a]), Merits(table[b]), Merits(table[c]);
    if Exceeded(z, y) && Exceeded(y, x) {
      ExceededIsTransitive(z, y, x);
    }
  }

  /** What a candidate is ahead of: less merit, or the same merit and a later id. */
  predicate Ahead(table: Table, id: string, other: string)
    requires id in table && other in table
  {
    || CompareCandidates(table[other], table[id]) == Less
    || (CompareCandidates(table[other], table[id]) == Equal && Text.Before(id, other))
  }

  /** The selected candidate is the one eligible candidate that is ahead of every other. */
  lemma SelectionIsBest(table: Table, ids: seq<string>, best: string)
    requires forall id :: id in ids ==> id in table
    ensures Selected(table, ids) == Some(best) <==>
      best in ids && table[best].eligible && forall other :: other in ids && other != best ==> Ahead(table, best, other)
    ensures Selected(table, ids).None? <==> forall id :: id in ids ==> !table[id].eligible
  {
    RankedKeeps(table, ids);
    RankIsTotal(table);
    SortSorts(ByRank(table), ids);
    var ranked := Ranked(table, ids);
    assert forall i, j :: 0 <= i < j < |ranked| ==> Precedes(table, ranked[i], ranked[j]) by {
      assert forall i, j :: 0 <= i < j < |ranked| ==> ByRank(table)(ranked[i], ranked[j]);
    }
    hide Ranked, TotalOrder, Sorted, Precedes, Ahead;
    FirstIsBest(table, ranked);
    if Selected(table, ids).Some? {
      var first := Selected(table, ids).value;
      if best != first && best in ids && Ahead(table, best, first) {
        AheadOnce(table, first, best);
      }
    }
  }

  lemma AheadOnce(table: Table, a: string, b: string)
    requires a in table && b in table && Ahead(table, a, b)
    ensures !Ahead(table, b, a)
  {
    hide CompareCandidates, Exceeded, Merits;
    Text.BeforeIsTotal(a, b);
    ComparisonMeans(table[a], table[b]);
    ComparisonMeans(table[b], table[a]);
    ExceededIsAnOrder(Merits(table[a]), Merits(table[b]));
  }

  lemma FirstIsBest(table: Table, ranked: seq<string>)
    requires forall id :: id in ranked ==> id in table
    requires forall i, j :: 0 <= i < j < |ranked| ==> Precedes(table, ranked[i], ranked[j])
    ensures var first := FirstEligible(table, ranked);
      && (first.Some? ==>
        && first.value in ranked && table[first.value].eligible
        && forall other :: other in ranked && other != first.value ==> Ahead(table, first.value, other))
      && (first.None? ==> forall id :: id in ranked ==> !table[id].eligible)
  {
    hide CompareCandidates;
    FirstEligibleAt(table, ranked);
    var first := FirstEligible(table, ranked);
    if first.Some? {
      var k :| 0 <= k < |ranked| && ranked[k] == first.value && forall i :: 0 <= i < k ==> !table[ranked[i]].eligible;
      forall other | other in ranked && other != first.value ensures Ahead(table, first.value, other) {
        var i :| 0 <= i < |ranked| && ranked[i] == other;
        if i < k {
          EligibleWins(table[other], table[first.value]);
        } else {
          Text.BeforeIsTotal(first.value, other);
        }
      }
    }
  }

  lemma EligibleWins(left: Promotion, right: Promotion)
    requires !left.eligible && right.eligible
    ensures CompareCandidates(left, right) == Less
  {
  }

  lemma {:induction false} FirstEligibleAt(table: Table, ids: seq<string>)
    requires forall id :: id in ids ==> id in table
    ensures var first := FirstEligible(table, ids);
      if first.Some? then
        exists k :: 0 <= k < |ids| && ids[k] == first.value && table[ids[k]].eligible
          && forall i :: 0 <= i < k ==> !table[ids[i]].eligible
      else forall id :: id in ids ==> !table[id].eligible
  {
    if ids != [] {
      FirstEligibleAt(table, ids[1..]);
      assert ids == [ids[0]] + ids[1..];
      if table[ids[0]].eligible {
        assert ids[0] == FirstEligible(table, ids).value;
      } else if FirstEligible(table, ids).Some? {
        var rest := ids[1..];
        var k :| 0 <= k < |rest| && rest[k] == FirstEligible(table, ids).value && table[rest[k]].eligible
          && forall i :: 0 <= i < k ==> !table[rest[i]].eligible;
        forall i | 0 <= i < k + 1 ensures !table[ids[i]].eligible {
          assert i > 0 ==> ids[i] == rest[i - 1];
        }
        assert ids[k + 1] == rest[k];
      }
    }
  }

  // ---------------------------------------------------------------- the selection by a policy

  /** The evaluation of every candidate by one policy. */
  function Evaluations(p: Policy, candidates: map<string, seq<Fold>>): Table
  {
    map id | id in candidates :: Promoted(p, candidates[id])
  }

  /**
   The selection depends on neither the order in which candidates are listed nor the order of the folds
   of any of them.
   */
  lemma SelectionIgnoresOrder(
      p: Policy, a: map<string, seq<Fold>>, b: map<string, seq<Fold>>, ids: seq<string>, others: seq<string>)
    requires SameSamples(ids, others) && forall id :: id in ids ==> id in a
    requires a.Keys == b.Keys && forall id :: id in a ==> SameSamples(a[id], b[id])
    ensures forall id :: id in others ==> id in b
    ensures Ranked(Evaluations(p, a), ids) == Ranked(Evaluations(p, b), others)
    ensures Selected(Evaluations(p, a), ids) == Selected(Evaluations(p, b), others)
  {
    hide Sort, Promoted, FirstEligible;
    forall id | id in a ensures Promoted(p, a[id]) == Promoted(p, b[id]) {
      PromotionIgnoresOrder(p, a[id], b[id]);
    }
    assert Evaluations(p, a) == Evaluations(p, b);
    assert forall id :: id in others <==> id in multiset(others);
    assert forall id :: id in ids <==> id in multiset(ids);
    RankIsTotal(Evaluations(p, a));
    SortIgnoresOrder(ByRank(Evaluations(p, a)), ids, others);
  }

  /**
   Of two promoted candidates with the same lower quartile the one with the deeper drawdown is ranked
   below when the quartile is a gain, and above when it is a loss.
   */
  lemma DrawdownCountsByTheSign(p: Policy, folds: seq<Fold>, q: Policy, others: seq<Fold>)
    requires Promoted(p, folds).eligible && Promoted(q, others).eligible
    requires var a, b := Promoted(p, folds).robust, Promoted(q, others).robust;
      && a.lowerQuartileNetReturnBps == b.lowerQuartileNetReturnBps != 0.0
      && 1.0 <= a.worstMaxDrawdownPct < b.worstMaxDrawdownPct
    ensures CompareCandidates(Promoted(p, folds), Promoted(q, others)) ==
      if Promoted(p, folds).robust.lowerQuartileNetReturnBps > 0.0 then Greater else Less
  {
    hide Promoted, CompareCandidates;
    ScoresCompare(p, folds, q, others);
    PromotedCandidatesCompare(p, folds, q, others);
  }

  const TOLERANT := Policy(
    1, "tolerant", 1, 1, 1, 10.0, 10.0, 0.0, 0, -100.0, 0, -100.0, 0.0, 0.0, 0.0, 0.0)

  /** One losing fold with a given drawdown, and one stress fold. */
  function Loser(drawdown: real): seq<Fold>
  {
    [ Fold("oos", false, -10.0, Some(0.0), Some(0.0), drawdown, 0.0, 1),
      Fold("stress", true, 0.0, None, None, 0.0, 0.0, 0)]
  }

  lemma LonePercentile(x: real, ppm: nat)
    requires ppm <= PPM
    ensures Percentile([x], ppm) == x
  {
    assert Sort(AtMost, [x][1..]) == [];
    assert RankIndex(1, ppm) == 0;
  }

  lemma LoneFold(f: Fold, p: Fold -> bool)
    requires p(f)
    ensures Filter(p, [f]) == [f]
  {
    assert [f][1..] == [];
  }

  lemma LoserParts(drawdown: real)
    ensures var folds := Loser(drawdown);
      Filter(OutOfSample, folds) == [folds[0]] && Filter(Stressed, folds) == [folds[1]]
  {
    var folds := Loser(drawdown);
    assert folds[1..] == [folds[1]] && folds[1..][1..] == [];
    LoneFold(folds[1], Stressed);
    assert Filter(OutOfSample, folds[1..]) == [];
  }

  lemma LoserStatistics(drawdown: real)
    requires drawdown >= 1.0
    ensures var folds := Loser(drawdown);
      var oos, earned := [folds[0]], Map(NetReturn, [folds[0]]);
      && earned == [-10.0]
      && Smallest(earned) == -10.0
      && Statistics(oos, [folds[1]], RobustConstraints(TOLERANT)) ==
        Evaluation(false, CandidateRejected, 1, 1, 1_000_000, -10.0, -10.0, 0.0, 0.0, drawdown, 0.0, 0.0)
  {
    var folds, c := Loser(drawdown), RobustConstraints(TOLERANT);
    var oos := [folds[0]];
    assert Map(NetReturn, oos) == [-10.0] && Map(Drawdown, oos) == [drawdown];
    assert Map(FeeDrag, oos) == Map(Sharpe, oos) == Map(Sortino, oos) == Map(Distance(-10.0), [-10.0]) == [0.0];
    LoneFold(folds[0], HasSharpe);
    LoneFold(folds[0], HasSortino);
    LoneFold(folds[1], Survives(c));
    hide Filter, Percentile, Map;
    LonePercentile(-10.0, 250_000);
    LonePercentile(-10.0, 500_000);
    LonePercentile(0.0, 500_000);
    assert Worst([drawdown]) == drawdown;
  }

  lemma LoserIsJudged(drawdown: real)
    requires 1.0 <= drawdown <= 10.0
    ensures ValidPolicy(TOLERANT) && Refusal(Loser(drawdown), RobustConstraints(TOLERANT)).None?
  {
    LoserParts(drawdown);
    assert "oos"[0] == 'o' && "stress"[0] == 's' && "tolerant"[0] == 't';
    hide Filter;
  }

  lemma LoserFigures(drawdown: real)
    requires 1.0 <= drawdown <= 10.0
    ensures var r := Promoted(TOLERANT, Loser(drawdown));
      r.eligible && r.robust.lowerQuartileNetReturnBps == -10.0 && r.robust.worstMaxDrawdownPct == drawdown
  {
    hide Filter, Map, Smallest, Statistics, Refusal, ValidPolicy, PositivePpm, Score;
    LoserIsJudged(drawdown);
    LoserParts(drawdown);
    LoserStatistics(drawdown);
  }

  /** Under a policy that tolerates losses, the deeper of two drawdowns is selected. */
  lemma DeeperLoserIsSelected()
    ensures var candidates := map["deep" := Loser(9.0), "shallow" := Loser(2.0)];
      Selected(Evaluations(TOLERANT, candidates), ["shallow", "deep"]) == Some("deep")
  {
    var candidates := map["deep" := Loser(9.0), "shallow" := Loser(2.0)];
    var table := Evaluations(TOLERANT, candidates);
    hide Promoted, Loser, CompareCandidates, FirstEligible, Ranked;
    LoserFigures(9.0);
    LoserFigures(2.0);
    assert "deep"[0] != "shallow"[0];
    assert table["deep"] == Promoted(TOLERANT, Loser(9.0)) && table["shallow"] == Promoted(TOLERANT, Loser(2.0));
    DrawdownCountsByTheSign(TOLERANT, Loser(2.0), TOLERANT, Loser(9.0));
    SelectionIsBest(table, ["shallow", "deep"], "deep");
  }
}
