/**
 The clustered bootstrap: whole clusters are drawn with replacement, so its summary depends
 only on what each cluster holds, and stays within the range of the recorded improvements.
 */
module ClusterBootstrap {
  import opened Machine
  import opened Ranks
  import opened SaturatedMeans
  import Text

  datatype Episode = Episode(clusterId: string, improvementBps: I64)

  datatype Summary = Summary(replicates: nat, clusterCount: nat, meanBps: int, lowerBps: int, upperBps: int)

  // ---------------------------------------------------------------- the generator

  function Xorshift64(value: bv64): bv64
  {
    var a := value ^ (value << 13);
    var b := a ^ (a >> 7);
    b ^ (b << 17)
  }

  /** A generator that has not died keeps going: zero is reached from zero alone. */
  lemma GeneratorNeverDies(value: bv64)
    ensures Xorshift64(value) == 0 <==> value == 0
  {
  }

  /** The shifts are those of the generator, whose sequence from one is well known. */
  lemma GeneratorInFigures()
    ensures Xorshift64(1) == 1_082_269_761
    ensures Xorshift64(1_082_269_761) == 1_152_992_998_833_853_505
    ensures Xorshift64(1_152_992_998_833_853_505) == 11_177_516_664_432_764_457
  {
  }

  function Start(seed: bv64): bv64 { if seed == 0 then 1 else seed }

  function Pick(rng: bv64, n: nat): (i: nat)
    requires n > 0
    ensures i < n
  {
    (rng as int) % n
  }

  function Advance(rng: bv64, draws: nat): bv64
  {
    if draws == 0 then rng else Xorshift64(Advance(rng, draws - 1))
  }

  lemma {:induction false} SeedsStayAlive(seed: bv64, draws: nat)
    ensures Advance(Start(seed), draws) != 0
  {
    if draws > 0 {
      SeedsStayAlive(seed, draws - 1);
      GeneratorNeverDies(Advance(Start(seed), draws - 1));
    }
  }

  /** A stream starts at its seed, at one for seed zero, and goes on from state to state. */
  lemma StreamInFigures(seed: bv64)
    ensures Start(0) == 1 && (seed != 0 ==> Start(seed) == seed)
    ensures Advance(seed, 0) == seed
    ensures Advance(Start(0), 1) == 1_082_269_761 && Advance(1, 2) == 1_152_992_998_833_853_505
  {
    GeneratorInFigures();
    assert Advance(1, 0) == 1;
    hide Xorshift64;
  }

  lemma {:induction false} AdvanceTwice(rng: bv64, first: nat, more: nat)
    ensures Advance(Advance(rng, first), more) == Advance(rng, first + more)
  {
    hide Xorshift64;
    if more > 0 {
      AdvanceTwice(rng, first, more - 1);
    }
  }

  // ---------------------------------------------------------------- clusters

  function InCluster(id: string): Episode -> bool { (e: Episode) => e.clusterId == id }

  function Improvement(e: Episode): I64 { e.improvementBps }

  function Ids(records: seq<Episode>): set<string>
  {
    set e | e in records :: e.clusterId
  }

  function Values(records: seq<Episode>, id: string): seq<I64>
  {
    Map(Improvement, Filter(InCluster(id), records))
  }

  /** What the clusters hold, in the order of their names. */
  function Clustered(records: seq<Episode>): seq<seq<I64>>
  {
    var ids := Text.SortedKeys(Ids(records));
    seq(|ids|, i requires 0 <= i < |ids| => Values(records, ids[i]))
  }

  function FiledUnder(e: Episode, id: string): seq<I64>
  {
    if e.clusterId == id then [e.improvementBps] else []
  }

  lemma FileOne(records: seq<Episode>, e: Episode)
    ensures Ids(records + [e]) == Ids(records) + {e.clusterId}
    ensures forall id :: Values(records + [e], id) == Values(records, id) + FiledUnder(e, id)
    ensures e.clusterId !in Ids(records) ==> Values(records, e.clusterId) == []
  {
    forall id ensures Values(records + [e], id) == Values(records, id) + FiledUnder(e, id) {
      FilterAppends(InCluster(id), records, e);
    }
    if e.clusterId !in Ids(records) {
      FilterNone(InCluster(e.clusterId), records);
    }
  }

  method GroupByCluster(records: seq<Episode>) returns (clusters: map<string, seq<I64>>)
    ensures clusters.Keys == Ids(records)
    ensures forall id :: id in clusters ==> clusters[id] == Values(records, id)
  {
    clusters := map[];
    hide Values;
    for i := 0 to |records|
      invariant clusters.Keys == Ids(records[..i])
      invariant forall id :: id in clusters ==> clusters[id] == Values(records[..i], id)
    {
      var e := records[i];
      assert records[..i + 1] == records[..i] + [e];
      FileOne(records[..i], e);
      hide Ids;
      var before := if e.clusterId in clusters then clusters[e.clusterId] else [];
      clusters := clusters[e.clusterId := before + [e.improvementBps]];
    }
    assert records[..|records|] == records;
  }

  method ClusterValues(records: seq<Episode>) returns (clusters: seq<seq<I64>>)
    ensures clusters == Clustered(records)
  {
    var byCluster := GroupByCluster(records);
    hide Values, Ids, Text.SortedKeys;
    var ids := Text.SortedKeys(byCluster.Keys);
    clusters := seq(|ids|, i requires 0 <= i < |ids| => assert ids[i] in ids; byCluster[ids[i]]);
    forall i | 0 <= i < |ids| ensures clusters[i] == Values(records, ids[i]) {
      assert ids[i] in ids;
    }
  }

  // ---------------------------------------------------------------- the bootstrap

  function Sum(values: seq<I64>): int
  {
    if values == [] then 0 else Sum(values[..|values| - 1]) + values[|values| - 1]
  }

  function Drawn(clusters: seq<seq<I64>>, rng: bv64, k: nat): seq<I64>
    requires clusters != []
  {
    clusters[Pick(Advance(rng, k + 1), |clusters|)]
  }

  function DrawnSum(clusters: seq<seq<I64>>, rng: bv64, draws: nat): int
    requires clusters != []
  {
    if draws == 0 then 0 else DrawnSum(clusters, rng, draws - 1) + Sum(Drawn(clusters, rng, draws - 1))
  }

  function DrawnCount(clusters: seq<seq<I64>>, rng: bv64, draws: nat): nat
    requires clusters != []
  {
    if draws == 0 then 0 else DrawnCount(clusters, rng, draws - 1) + |Drawn(clusters, rng, draws - 1)|
  }

  function Round(rng: bv64, draws: nat, replicate: nat): bv64
  {
    if replicate == 0 then rng else Advance(Round(rng, draws, replicate - 1), draws)
  }

  /** One replicate: as many draws as clusters, the count held in a saturating `u64`. */
  function Replicate(clusters: seq<seq<I64>>, rng: bv64): I64
    requires clusters != []
  {
    SaturatedMean(DrawnSum(clusters, rng, |clusters|), DrawnCount(clusters, rng, |clusters|))
  }

  function Means(clusters: seq<seq<I64>>, rng: bv64, replicates: nat): (means: seq<I64>)
    requires clusters != []
    ensures |means| == replicates
  {
    if replicates == 0 then []
    else
      Means(clusters, rng, replicates - 1)
      + [Replicate(clusters, Round(rng, |clusters|, replicates - 1))]
  }

  predicate NotAbove(a: I64, b: I64) { a <= b }

  function Summarised(clusters: seq<seq<I64>>, seed: bv64, replicates: nat): Summary
  {
    if clusters == [] || replicates == 0 then Summary(replicates, |clusters|, 0, 0, 0)
    else
      var means := Means(clusters, Start(seed), replicates);
      var sorted := Sort(NotAbove, means);
      Summary(
        replicates,
        |clusters|,
        TruncDiv(Sum(sorted), |sorted|),
        sorted[RankIndex(|sorted|, 25_000)],
        sorted[RankIndex(|sorted|, 975_000)])
  }

  method DrawReplicate(clusters: seq<seq<I64>>, start: bv64) returns (mean: I64, rng: bv64)
    requires clusters != []
    ensures rng == Advance(start, |clusters|)
    ensures mean == Replicate(clusters, start)
  {
    hide Xorshift64, Pick, TruncDiv;
    rng := start;
    var sum: int := 0;
    var count: U64 := 0;
    for k := 0 to |clusters|
      invariant rng == Advance(start, k)
      invariant sum == DrawnSum(clusters, start, k)
      invariant count == Saturate(DrawnCount(clusters, start, k))
    {
      rng := Xorshift64(rng);
      var cluster := clusters[Pick(rng, |clusters|)];
      for j := 0 to |cluster|
        invariant sum == DrawnSum(clusters, start, k) + Sum(cluster[..j])
        invariant count == Saturate(DrawnCount(clusters, start, k) + j)
      {
        assert cluster[..j + 1][..j] == cluster[..j];
        sum := sum + cluster[j];
        count := SatAddU64(count, 1);
      }
      assert cluster[..|cluster|] == cluster;
    }
    mean := if count == 0 then 0 else ClampI64(TruncDiv(sum, count));
  }

  method Total(values: seq<I64>) returns (total: int)
    ensures total == Sum(values)
  {
    total := 0;
    for i := 0 to |values|
      invariant total == Sum(values[..i])
    {
      assert values[..i + 1][..i] == values[..i];
      total := total + values[i];
    }
    assert values[..|values|] == values;
  }

  method Bootstrap(records: seq<Episode>, replicates: nat, seed: bv64) returns (summary: Summary)
    ensures summary == Summarised(Clustered(records), seed, replicates)
  {
    hide Clustered, Sort, Advance, Replicate, RankIndex, Sum;
    var clusters := ClusterValues(records);
    if clusters == [] || replicates == 0 {
      return Summary(replicates, |clusters|, 0, 0, 0);
    }
    var rng := Start(seed);
    var means: seq<I64> := [];
    for r := 0 to replicates
      invariant rng == Round(Start(seed), |clusters|, r)
      invariant means == Means(clusters, Start(seed), r)
    {
      var mean;
      mean, rng := DrawReplicate(clusters, rng);
      means := means + [mean];
    }
    means := Sort(NotAbove, means);
    var total := Total(means);
    summary := Summary(
      replicates,
      |clusters|,
      TruncDiv(total, |means|),
      means[RankIndex(|means|, 25_000)],
      means[RankIndex(|means|, 975_000)]);
  }

  // ---------------------------------------------------------------- the range of the summary

  lemma SpansAdd(s: int, n: int, t: int, m: int, low: int, high: int)
    requires Spans(s, n, low, high) && Spans(t, m, low, high)
    ensures Spans(s + t, n + m, low, high)
  {
    assert low * (n + m) == low * n + low * m;
    assert high * (n + m) == high * n + high * m;
  }

  predicate AllWithin(values: seq<I64>, low: int, high: int)
  {
    forall i :: 0 <= i < |values| ==> low <= values[i] <= high
  }

  lemma {:induction false} SumSpans(values: seq<I64>, low: int, high: int)
    requires AllWithin(values, low, high)
    ensures Spans(Sum(values), |values|, low, high)
  {
    if values != [] {
      SumSpans(values[..|values| - 1], low, high);
      SpansAdd(Sum(values[..|values| - 1]), |values| - 1, values[|values| - 1], 1, low, high);
    }
  }

  lemma {:induction false} DrawsSpan(clusters: seq<seq<I64>>, rng: bv64, draws: nat, low: int, high: int)
    requires clusters != [] && forall i :: 0 <= i < |clusters| ==> AllWithin(clusters[i], low, high)
    ensures Spans(DrawnSum(clusters, rng, draws), DrawnCount(clusters, rng, draws), low, high)
  {
    if draws > 0 {
      DrawsSpan(clusters, rng, draws - 1, low, high);
      var cluster := Drawn(clusters, rng, draws - 1);
      SumSpans(cluster, low, high);
      SpansAdd(
        DrawnSum(clusters, rng, draws - 1), DrawnCount(clusters, rng, draws - 1),
        Sum(cluster), |cluster|, low, high);
    }
  }

  /** Every draw brings at least one value and at most all the records. */
  lemma {:induction false} DrawsCount(clusters: seq<seq<I64>>, rng: bv64, draws: nat, most: nat)
    requires clusters != [] && forall i :: 0 <= i < |clusters| ==> 1 <= |clusters[i]| <= most
    ensures draws <= DrawnCount(clusters, rng, draws) <= draws * most
  {
    if draws > 0 {
      DrawsCount(clusters, rng, draws - 1, most);
      assert draws * most == (draws - 1) * most + most;
    }
  }

  /** Below the limit of the `u64` counter the `i128` sums cannot overflow either. */
  lemma SumsFitI128(clusters: seq<seq<I64>>, rng: bv64, draws: nat, most: nat)
    requires clusters != [] && draws <= |clusters|
    requires forall i :: 0 <= i < |clusters| ==> 1 <= |clusters[i]| <= most
    requires |clusters| * most <= U64_MAX
    ensures I64_MIN * U64_MAX <= DrawnSum(clusters, rng, draws) <= I64_MAX * U64_MAX
  {
    DrawsSpan(clusters, rng, draws, I64_MIN, I64_MAX);
    DrawsCount(clusters, rng, draws, most);
    Scale(draws, |clusters|, most);
  }

  /** The most values that one replicate can hold: each draw brings a cluster, each at most `most` values. */
  function DrawLimit(draws: nat, most: nat): nat
  {
    Scale(0, draws, most);
    draws * most
  }

  lemma ReplicateWithin(clusters: seq<seq<I64>>, rng: bv64, most: nat, low: I64, high: I64)
    requires clusters != []
    requires forall i :: 0 <= i < |clusters| ==> 1 <= |clusters[i]| <= most && AllWithin(clusters[i], low, high)
    requires CounterSuffices(DrawLimit(|clusters|, most), low, high)
    ensures low <= Replicate(clusters, rng) <= high
  {
    var sum, count := DrawnSum(clusters, rng, |clusters|), DrawnCount(clusters, rng, |clusters|);
    DrawsSpan(clusters, rng, |clusters|, low, high);
    DrawsCount(clusters, rng, |clusters|, most);
    hide Spans, CounterSuffices, SaturatedMean;
    SmallerCountsSuffice(DrawLimit(|clusters|, most), count, low, high);
    MeanWithin(sum, count, low, high);
  }

  lemma {:induction false} MeansWithin(clusters: seq<seq<I64>>, rng: bv64, replicates: nat, most: nat, low: I64, high: I64)
    requires clusters != []
    requires forall i :: 0 <= i < |clusters| ==> 1 <= |clusters[i]| <= most && AllWithin(clusters[i], low, high)
    requires CounterSuffices(DrawLimit(|clusters|, most), low, high)
    ensures AllWithin(Means(clusters, rng, replicates), low, high)
  {
    hide CounterSuffices;
    if replicates > 0 {
      MeansWithin(clusters, rng, replicates - 1, most, low, high);
      ReplicateWithin(clusters, Round(rng, |clusters|, replicates - 1), most, low, high);
    }
  }

  lemma ClustersHold(records: seq<Episode>, low: int, high: int)
    requires forall e :: e in records ==> low <= e.improvementBps <= high
    ensures forall i :: 0 <= i < |Clustered(records)| ==>
      1 <= |Clustered(records)[i]| <= |records| && AllWithin(Clustered(records)[i], low, high)
    ensures Clustered(records) == [] <==> records == []
  {
    var ids := Text.SortedKeys(Ids(records));
    forall i | 0 <= i < |ids|
      ensures 1 <= |Values(records, ids[i])| <= |records| && AllWithin(Values(records, ids[i]), low, high)
    {
      assert ids[i] in ids;
      var e :| e in records && e.clusterId == ids[i];
      FilterMembers(InCluster(ids[i]), records);
      assert e in Filter(InCluster(ids[i]), records);
    }
    if records != [] {
      assert records[0].clusterId in Ids(records);
      assert records[0].clusterId in ids;
    }
  }

  // ---------------------------------------------------------------- what is drawn

  lemma {:induction false} RoundsFollow(rng: bv64, draws: nat, replicate: nat)
    ensures Round(rng, draws, replicate) == Advance(rng, replicate * draws)
  {
    if replicate == 0 {
      assert 0 * draws == 0;
    } else {
      RoundsFollow(rng, draws, replicate - 1);
      AdvanceTwice(rng, (replicate - 1) * draws, draws);
      assert replicate * draws == (replicate - 1) * draws + draws;
    }
  }

  /**
   Replicates are consecutive stretches of one stream: draw number `k` of replicate `r` is the cluster
   that state number `r` times clusters plus `k` plus one selects.
   */
  lemma DrawsAreConsecutive(clusters: seq<seq<I64>>, seed: bv64, r: nat, k: nat)
    requires clusters != [] && k < |clusters|
    ensures Drawn(clusters, Round(Start(seed), |clusters|, r), k)
         == clusters[(Advance(Start(seed), r * |clusters| + k + 1) as int) % |clusters|]
  {
    RoundsFollow(Start(seed), |clusters|, r);
    AdvanceTwice(Start(seed), r * |clusters|, k + 1);
    hide Xorshift64, Advance;
  }

  // ---------------------------------------------------------------- what is summarised

  function Under(v: I64): I64 -> bool { (x: I64) => x < v }

  function AtMost(v: I64): I64 -> bool { (x: I64) => x <= v }

  function AtLeast(v: I64): I64 -> bool { (x: I64) => x >= v }

  lemma RankCounts(means: seq<I64>, ppm: nat)
    requires means != [] && ppm <= PPM
    ensures var v := Sort(NotAbove, means)[RankIndex(|means|, ppm)];
      && v in means
      && Count(Under(v), means) * 1_000_000 <= ppm * (|means| - 1)
      && Count(AtMost(v), means) * 1_000_000 > ppm * (|means| - 1)
  {
    var sorted, i, n := Sort(NotAbove, means), RankIndex(|means|, ppm), |means|;
    var v := sorted[i];
    SortSorts(NotAbove, means);
    SortKeeps(NotAbove, means);
    RankIndexIsExact(n, ppm);
    assert v in multiset(sorted);
    FilterIgnoresOrder(Under(v), sorted, means);
    FilterIgnoresOrder(AtMost(v), sorted, means);
    hide Sort, RankIndex;
    AroundPosition(sorted, i);
    hide Filter;
  }

  lemma AroundPosition(sorted: seq<I64>, i: nat)
    requires Sorted(NotAbove, sorted) && i < |sorted|
    ensures Count(Under(sorted[i]), sorted) <= i < Count(AtMost(sorted[i]), sorted)
  {
    hide Count;
    var v := sorted[i];
    forall j, k | 0 <= j <= k < |sorted| ensures sorted[j] <= sorted[k] {
      assert j < k ==> NotAbove(sorted[j], sorted[k]);
    }
    CountAtLeast(AtLeast(v), sorted, i, |sorted|);
    CountAtLeast(AtMost(v), sorted, 0, i + 1);
    DisjointCounts(Under(v), AtLeast(v), sorted);
  }

  /**
   The summary of the means of all replicates: their truncated mean, and two of them as bounds. At most
   two and a half percent of the steps lie below the lower bound, and as few above the upper one.
   */
  lemma SummaryInFigures(clusters: seq<seq<I64>>, seed: bv64, replicates: nat)
    ensures var s := Summarised(clusters, seed, replicates);
      && s.replicates == replicates && s.clusterCount == |clusters|
      && (clusters == [] || replicates == 0 ==> s.meanBps == s.lowerBps == s.upperBps == 0)
    ensures clusters != [] && replicates > 0 ==>
      var s, means := Summarised(clusters, seed, replicates), Means(clusters, Start(seed), replicates);
      && s.lowerBps in means && s.upperBps in means
      && Count(Under(s.lowerBps), means) * 1_000_000 <= 25_000 * (replicates - 1)
      && Count(AtMost(s.lowerBps), means) * 1_000_000 > 25_000 * (replicates - 1)
      && Count(Under(s.upperBps), means) * 1_000_000 <= 975_000 * (replicates - 1)
      && Count(AtMost(s.upperBps), means) * 1_000_000 > 975_000 * (replicates - 1)
      && Abs(s.meanBps) * replicates <= Abs(Sum(means)) < Abs(s.meanBps) * replicates + replicates
      && (s.meanBps > 0 ==> Sum(means) > 0) && (s.meanBps < 0 ==> Sum(means) < 0)
  {
    if clusters != [] && replicates > 0 {
      var means := Means(clusters, Start(seed), replicates);
      RankCounts(means, 25_000);
      RankCounts(means, 975_000);
      SortKeeps(NotAbove, means);
      SumIgnoresOrder(Sort(NotAbove, means), means);
      TruncatedMean(Sum(means), replicates);
      hide Means, Sort, RankIndex, Count, Sum, TruncDiv;
    }
  }

  lemma TruncatedMean(sum: int, n: nat)
    requires n > 0
    ensures var m := TruncDiv(sum, n);
      && Abs(m) * n <= Abs(sum) < Abs(m) * n + n
      && (m > 0 ==> sum > 0) && (m < 0 ==> sum < 0)
  {
    var q := Quotient(Abs(sum), n);
  }

  /** Bounds are always ordered, whatever the counter has missed. */
  lemma BoundsAreOrdered(clusters: seq<seq<I64>>, replicates: nat, seed: bv64)
    ensures Summarised(clusters, seed, replicates).lowerBps <= Summarised(clusters, seed, replicates).upperBps
  {
    if clusters != [] && replicates > 0 {
      var means := Means(clusters, Start(seed), replicates);
      var sorted := Sort(NotAbove, means);
      SortSorts(NotAbove, means);
      RankIndexGrows(|sorted|, 25_000, 975_000);
      hide Sort, Means, RankIndex, TruncDiv, Sum;
      var i, j := RankIndex(|sorted|, 25_000), RankIndex(|sorted|, 975_000);
      assert i < j ==> NotAbove(sorted[i], sorted[j]);
    }
  }

  lemma SummaryWithin(clusters: seq<seq<I64>>, replicates: nat, seed: bv64, low: I64, high: I64)
    requires clusters != [] && replicates > 0 && AllWithin(Means(clusters, Start(seed), replicates), low, high)
    ensures var s := Summarised(clusters, seed, replicates);
      && low <= s.lowerBps <= high && low <= s.upperBps <= high && low <= s.meanBps <= high
  {
    var means := Means(clusters, Start(seed), replicates);
    SortedWithin(means, low, high);
    var sorted := Sort(NotAbove, means);
    hide Means, Sort, RankIndex;
    SumSpans(sorted, low, high);
    TruncDivWithin(Sum(sorted), |sorted|, low, high);
    hide TruncDiv, Sum;
  }

  /**
   The summary of any records has ordered bounds and stays within the range of their
   improvements, unless the `u64` counter of values can fill up and miss too much. While clusters
   times records stay within a `u64` it cannot.
   */
  lemma SummaryWithinTheRecords(records: seq<Episode>, replicates: nat, seed: bv64, low: I64, high: I64)
    requires records != [] && replicates > 0
    requires forall e :: e in records ==> low <= e.improvementBps <= high
    ensures var s := Summarised(Clustered(records), seed, replicates);
      && s.lowerBps <= s.upperBps
      && (CounterSuffices(DrawLimit(|Clustered(records)|, |records|), low, high) ==>
            low <= s.lowerBps && s.upperBps <= high && low <= s.meanBps <= high)
      && (|Clustered(records)| * |records| <= U64_MAX ==>
            low <= s.lowerBps && s.upperBps <= high && low <= s.meanBps <= high)
  {
    ClustersHold(records, low, high);
    Scale(1, |Clustered(records)|, |records|);
    if |Clustered(records)| * |records| <= U64_MAX {
      ExactCountersSuffice(DrawLimit(|Clustered(records)|, |records|), low, high);
    }
    hide *;
    BoundsAreOrdered(Clustered(records), replicates, seed);
    if CounterSuffices(DrawLimit(|Clustered(records)|, |records|), low, high) {
      MeansWithin(Clustered(records), Start(seed), replicates, |records|, low, high);
      SummaryWithin(Clustered(records), replicates, seed, low, high);
    }
  }

  /** The condition is exact: one cluster of equal values is summarised by that value if and only if it holds. */
  lemma OneClusterIsExact(cluster: seq<I64>, replicates: nat, seed: bv64, v: I64)
    requires cluster != [] && replicates > 0 && AllWithin(cluster, v, v)
    ensures var s := Summarised([cluster], seed, replicates);
      (s.lowerBps == v && s.upperBps == v && s.meanBps == v) <==> CounterSuffices(|cluster|, v, v)
  {
    var mean := SaturatedMean(v * |cluster|, |cluster|);
    OneClusterMeans(cluster, Start(seed), replicates, v);
    EqualValuesMean(v, |cluster|);
    hide CounterSuffices, SaturatedMean, Summarised;
    SummaryWithin([cluster], replicates, seed, mean, mean);
  }

  lemma {:induction false} OneClusterMeans(cluster: seq<I64>, rng: bv64, replicates: nat, v: I64)
    requires cluster != [] && AllWithin(cluster, v, v)
    ensures var mean := SaturatedMean(v * |cluster|, |cluster|);
      AllWithin(Means([cluster], rng, replicates), mean, mean)
  {
    if replicates > 0 {
      OneClusterMeans(cluster, rng, replicates - 1, v);
      var start := Round(rng, 1, replicates - 1);
      SumSpans(cluster, v, v);
      hide SaturatedMean;
      assert Drawn([cluster], start, 0) == cluster;
      assert DrawnSum([cluster], start, 0) == 0 && DrawnCount([cluster], start, 0) == 0;
      assert DrawnSum([cluster], start, 1) == v * |cluster| && DrawnCount([cluster], start, 1) == |cluster|;
    }
  }

  lemma SortedWithin(means: seq<I64>, low: int, high: int)
    requires AllWithin(means, low, high)
    ensures AllWithin(Sort(NotAbove, means), low, high)
  {
    var sorted := Sort(NotAbove, means);
    SortKeeps(NotAbove, means);
    hide Sort;
    forall i | 0 <= i < |sorted| ensures low <= sorted[i] <= high {
      assert sorted[i] in multiset(sorted);
      assert sorted[i] in means;
    }
  }

  // ---------------------------------------------------------------- independence of record order

  lemma {:induction false} SumAppends(a: seq<I64>, b: seq<I64>)
    ensures Sum(a + b) == Sum(a) + Sum(b)
  {
    if b == [] {
      assert a + b == a;
    } else {
      SumAppends(a, b[..|b| - 1]);
      assert (a + b)[..|a + b| - 1] == a + b[..|b| - 1];
    }
  }

  lemma SumOne(x: I64)
    ensures Sum([x]) == x
  {
    assert [x][..0] == [];
  }

  lemma SumDrops(s: seq<I64>, i: nat)
    requires i < |s|
    ensures Sum(s) == Sum(Drop(s, i)) + s[i]
  {
    hide Sum;
    assert s == (s[..i] + [s[i]]) + s[i + 1..];
    SumAppends(s[..i] + [s[i]], s[i + 1..]);
    SumAppends(s[..i], [s[i]]);
    SumAppends(s[..i], s[i + 1..]);
    SumOne(s[i]);
  }

  lemma {:induction false} SumIgnoresOrder(a: seq<I64>, b: seq<I64>)
    requires SameSamples(a, b)
    ensures Sum(a) == Sum(b) && |a| == |b|
    decreases |a|
  {
    assert |a| == |multiset(a)| == |multiset(b)| == |b|;
    if a != [] {
      assert a[0] in multiset(b);
      var i :| 0 <= i < |b| && b[i] == a[0];
      SameAfterDrop(a, b, 0, i);
      DropShortens(a, 0);
      SumIgnoresOrder(Drop(a, 0), Drop(b, i));
      SumDrops(a, 0);
      SumDrops(b, i);
    }
  }

  /** Clusters that pairwise hold the same samples give the same draws. */
  ghost predicate Alike(a: seq<seq<I64>>, b: seq<seq<I64>>)
  {
    |a| == |b| && forall i :: 0 <= i < |a| ==> SameSamples(a[i], b[i])
  }

  lemma {:induction false} DrawsAlike(a: seq<seq<I64>>, b: seq<seq<I64>>, rng: bv64, draws: nat)
    requires Alike(a, b) && a != []
    ensures DrawnSum(a, rng, draws) == DrawnSum(b, rng, draws)
    ensures DrawnCount(a, rng, draws) == DrawnCount(b, rng, draws)
  {
    if draws > 0 {
      DrawsAlike(a, b, rng, draws - 1);
      SumIgnoresOrder(Drawn(a, rng, draws - 1), Drawn(b, rng, draws - 1));
    }
  }

  lemma {:induction false} MeansAlike(a: seq<seq<I64>>, b: seq<seq<I64>>, rng: bv64, replicates: nat)
    requires Alike(a, b) && a != []
    ensures Means(a, rng, replicates) == Means(b, rng, replicates)
  {
    if replicates > 0 {
      MeansAlike(a, b, rng, replicates - 1);
      DrawsAlike(a, b, Round(rng, |a|, replicates - 1), |a|);
    }
  }

  /** Reordering the records changes nothing in the summary. */
  lemma BootstrapIgnoresOrder(a: seq<Episode>, b: seq<Episode>, replicates: nat, seed: bv64)
    requires SameSamples(a, b)
    ensures Summarised(Clustered(a), seed, replicates) == Summarised(Clustered(b), seed, replicates)
  {
    assert forall e :: e in a <==> e in multiset(a);
    assert forall e :: e in b <==> e in multiset(b);
    assert Ids(a) == Ids(b);
    var ids := Text.SortedKeys(Ids(a));
    forall i | 0 <= i < |ids| ensures SameSamples(Values(a, ids[i]), Values(b, ids[i])) {
      FilterIgnoresOrder(InCluster(ids[i]), a, b);
      MapIgnoresOrder(Improvement, Filter(InCluster(ids[i]), a), Filter(InCluster(ids[i]), b));
    }
    assert Alike(Clustered(a), Clustered(b));
    if Clustered(a) != [] {
      MeansAlike(Clustered(a), Clustered(b), Start(seed), replicates);
    }
  }
}
