/**
 The funding-aware entry decision: saturating fixed-point arithmetic in pico basis points,
 compared with the unbounded arithmetic it stands for.
 */
module FundingDecision {
  import opened Machine
  import opened Outcomes

  const PICO := 1_000_000_000_000
  const FIVE_BPS := 5_000_000_000_000
  const NEAR_FUNDING_MS := 300_000

  datatype FundingAction = NoAction | Collect | Tolerate | Avoid | Exit

  datatype RateStatus = Observed | Missing | Stale | Special | Unknown

  datatype Input = Input(
    nowMs: U64,
    anchorTicks: I64,
    midTicks: I64,
    markTicks: I64,
    indexTicks: I64,
    position: I64,
    maxPosition: I64,
    fundingRateE8: Option<I64>,
    nextFundingMs: Option<U64>,
    rateStatus: RateStatus,
    feePpm: I64,
    volatilityBps: I64,
    spreadBps: I64,
    uncertaintyBps: I64,
    liquidationBps: I64,
    volatilityPico: I64,
    spreadPico: I64,
    uncertaintyPico: I64,
    liquidationPico: I64)

  datatype Decision = Decision(
    action: FundingAction,
    allowEntry: bool,
    reduceOnly: bool,
    side: int,
    anchorEdgeBps: I64,
    fundingCarryBps: I64,
    totalCostBps: I64,
    netEdgeBps: I64,
    safetyMarginBps: I64,
    anchorEdgePico: I64,
    fundingCarryPico: I64,
    totalCostPico: I64,
    netEdgePico: I64,
    safetyMarginPico: I64,
    reason: string)

  // ---------------------------------------------------------------- fixed-point helpers

  function PicoBps(num: I64, den: I64): (r: I64)
  {
    if num <= 0 || den <= 0 then 0 else Min(num * 10_000 * PICO / den, I64_MAX)
  }

  function PicoToBps(value: I64): (r: I64)
  {
    var magnitude := Abs(value);
    var rounded := (magnitude + PICO / 2) / PICO;
    if value == 0 then 0 else if value >= 0 then rounded else -rounded
  }

  function BpsToPico(value: I64): I64 { ClampI64(value * PICO) }

  function PpmToPicoBps(ppm: I64): (r: I64)
  {
    if ppm <= 0 then 0 else Min(ppm * PICO / 100, I64_MAX)
  }

  function ExactOrBps(pico: I64, bps: I64): I64 { if pico != 0 then pico else BpsToPico(bps) }

  function SignedEdge(anchor: I64, mid: I64): (int, I64)
    requires anchor > 0 && mid > 0
  {
    if mid < anchor then (1, PicoBps(anchor - mid, mid))
    else if mid > anchor then (-1, PicoBps(mid - anchor, mid))
    else (0, 0)
  }

  function FundingCarry(side: int, rate: Option<I64>): I64
  {
    if rate.None? then 0 else ClampI64(TruncDiv(-side * rate.value * PICO, 10_000))
  }

  function SignOf(x: int): int { if x > 0 then 1 else if x < 0 then -1 else 0 }

  // ---------------------------------------------------------------- the decision

  predicate Usable(x: Input)
  {
    && x.anchorTicks > 0 && x.midTicks > 0 && x.markTicks > 0 && x.indexTicks > 0
    && x.maxPosition > 0 && x.feePpm >= 0
    && x.volatilityBps >= 0 && x.spreadBps >= 0 && x.uncertaintyBps >= 0 && x.liquidationBps >= 0
    && x.volatilityPico >= 0 && x.spreadPico >= 0 && x.uncertaintyPico >= 0 && x.liquidationPico >= 0
    && !x.rateStatus.Unknown? && !x.rateStatus.Missing?
    && x.nextFundingMs.Some?
  }

  function Side(x: Input): int
    requires Usable(x)
  {
    if SignOf(x.position) != 0 then SignOf(x.position) else SignedEdge(x.anchorTicks, x.midTicks).0
  }

  function CostsPico(x: Input): I64
  {
    var fee := PpmToPicoBps(ClampI64(x.feePpm * 2));
    var volatility := Max(ExactOrBps(x.volatilityPico, x.volatilityBps), 0);
    var spread := Max(ExactOrBps(x.spreadPico, x.spreadBps), 0);
    var uncertainty := Max(ExactOrBps(x.uncertaintyPico, x.uncertaintyBps), 0);
    var liquidation := Max(ExactOrBps(x.liquidationPico, x.liquidationBps), 0);
    SatAddI64(SatAddI64(SatAddI64(SatAddI64(fee, volatility), spread / 2), uncertainty), liquidation)
  }

  function NetPico(x: Input): I64
    requires Usable(x)
  {
    SatSubI64(
      SatAddI64(SignedEdge(x.anchorTicks, x.midTicks).1, FundingCarry(Side(x), x.fundingRateE8)),
      CostsPico(x))
  }

  function SafetyPico(x: Input): I64 { SatAddI64(CostsPico(x), BpsToPico(5)) }

  /** What is returned when an input is unusable. */
  function Refusal(x: Input): Decision
  {
    Decision(NoAction, false, false, 0, 0, 0, I64_MAX, I64_MIN, 0, 0, 0, I64_MAX, I64_MIN, 0,
             "invalid_or_unknown_state")
  }

  /** The figures every decision on a usable input carries, under the default verdict. */
  function Figures(x: Input): Decision
    requires Usable(x)
  {
    var edge := SignedEdge(x.anchorTicks, x.midTicks).1;
    var carry := FundingCarry(Side(x), x.fundingRateE8);
    Decision(
      Avoid, false, x.position != 0, Side(x),
      PicoToBps(edge), PicoToBps(carry), PicoToBps(CostsPico(x)), PicoToBps(NetPico(x)), PicoToBps(SafetyPico(x)),
      edge, carry, CostsPico(x), NetPico(x), SafetyPico(x), "funding_or_tail_cost_exceeds_conservative_edge")
  }

  predicate NearFunding(x: Input)
    requires x.nextFundingMs.Some?
  {
    (if x.nextFundingMs.value >= x.nowMs then x.nextFundingMs.value - x.nowMs else 0) <= NEAR_FUNDING_MS
  }

  function Verdict(x: Input, signal: int, d: Decision): Decision
    requires x.nextFundingMs.Some?
  {
    if x.position != 0 && (d.netEdgePico <= 0 || x.rateStatus.Special?) then
      d.(action := Exit, reduceOnly := true, reason := "held_edge_not_compensating_funding_or_special")
    else if signal == 0 || d.anchorEdgePico <= 0 then
      d.(action := NoAction, reduceOnly := false, reason := "anchor_edge_not_observable")
    else if NearFunding(x) && d.fundingCarryPico > 0 && d.netEdgePico > d.safetyMarginPico then
      d.(action := Collect, allowEntry := true, reduceOnly := false,
         reason := "carry_and_anchor_edge_cover_tail_cost")
    else if d.netEdgePico > d.safetyMarginPico then
      d.(action := Tolerate, allowEntry := true, reduceOnly := false,
         reason := "anchor_edge_covers_funding_and_cost")
    else d
  }

  function Decide(x: Input): Decision
  {
    if !Usable(x) then Refusal(x)
    else Verdict(x, SignedEdge(x.anchorTicks, x.midTicks).0, Figures(x))
  }

  // ---------------------------------------------------------------- the unbounded arithmetic

  /** A cost in pico basis points as given, or converted from whole basis points. */
  function Cost(pico: int, bps: int): int { if pico != 0 then pico else bps * PICO }

  /** All costs, with no clamp anywhere; half of the spread is rounded down. */
  function TotalCost(x: Input): int
  {
    2 * x.feePpm * (PICO / 100)
    + Cost(x.volatilityPico, x.volatilityBps)
    + Cost(x.spreadPico, x.spreadBps) / 2
    + Cost(x.uncertaintyPico, x.uncertaintyBps)
    + Cost(x.liquidationPico, x.liquidationBps)
  }

  /** Twice the costs with the spread halved exactly. */
  function TwiceCost(x: Input): int
  {
    4 * x.feePpm * (PICO / 100)
    + 2 * Cost(x.volatilityPico, x.volatilityBps)
    + Cost(x.spreadPico, x.spreadBps)
    + 2 * Cost(x.uncertaintyPico, x.uncertaintyBps)
    + 2 * Cost(x.liquidationPico, x.liquidationBps)
  }

  /** The distance of mid from anchor, in pico basis points of mid, as an exact ratio. */
  function Edge(x: Input): real
    requires x.midTicks > 0
  {
    var gap := Abs(x.anchorTicks - x.midTicks);
    (gap * 10_000 * PICO) as real / x.midTicks as real
  }

  /** The same distance rounded down, and held within an `i64`. */
  ghost function EdgePico(x: Input): nat
    requires x.midTicks > 0
  {
    Min(Abs(x.anchorTicks - x.midTicks) * 10_000 * PICO / x.midTicks, I64_MAX)
  }

  /** The way a position is held, or would be: towards the anchor if there is none. */
  function Direction(x: Input): int
  {
    if x.position > 0 then 1 else if x.position < 0 then -1
    else if x.midTicks < x.anchorTicks then 1 else if x.midTicks > x.anchorTicks then -1
    else 0
  }

  /** What the next funding brings: a positive rate is paid by a long position and earned by a short one. */
  function Carry(x: Input): int
  {
    if x.fundingRateE8.None? then 0 else -Direction(x) * x.fundingRateE8.value * 100_000_000
  }

  lemma SignalIsExact(x: Input)
    requires x.anchorTicks > 0 && x.midTicks > 0
    ensures var signal := SignedEdge(x.anchorTicks, x.midTicks);
      && signal.1 == EdgePico(x)
      && signal.0 == if x.midTicks < x.anchorTicks then 1 else if x.midTicks > x.anchorTicks then -1 else 0
  {
  }

  lemma SideIsDirection(x: Input)
    requires Usable(x)
    ensures Side(x) == Direction(x)
  {
    SignalIsExact(x);
    hide SignedEdge, Usable;
  }

  // ---------------------------------------------------------------- clamps

  lemma BpsClamp(pico: I64, bps: I64)
    requires pico >= 0 && bps >= 0
    ensures Max(ExactOrBps(pico, bps), 0) == Min(Cost(pico, bps), I64_MAX)
    ensures Cost(pico, bps) >= 0
  {
  }

  lemma FeeClamp(fee: I64)
    requires fee >= 0
    ensures PpmToPicoBps(ClampI64(fee * 2)) == Min(2 * fee * (PICO / 100), I64_MAX)
  {
  }

  /** The carry is a whole number of pico basis points, so its division is exact. */
  lemma CarryIsExact(x: Input)
    requires Usable(x)
    ensures FundingCarry(Side(x), x.fundingRateE8) == ClampI64(Carry(x))
  {
    SideIsDirection(x);
    if x.fundingRateE8.Some? {
      var k := -Side(x) * x.fundingRateE8.value;
      assert k * PICO == (k * 100_000_000) * 10_000;
      ExactQuotient(k * 100_000_000);
    }
  }

  lemma ExactQuotient(q: int)
    ensures TruncDiv(q * 10_000, 10_000) == q
  {
  }

  /** A chain of saturating additions of non-negative terms is one clamp of their sum. */
  lemma SaturatingChain(a: int, b: int, c: int, d: int, e: int)
    requires a >= 0 && b >= 0 && c >= 0 && d >= 0 && e >= 0
    ensures SatAddI64(SatAddI64(SatAddI64(SatAddI64(Capped(a), Capped(b)), Capped(c)), Capped(d)), Capped(e))
         == Capped(a + b + c + d + e)
  {
    SaturatingSum(a, b);
    SaturatingSum(a + b, c);
    SaturatingSum(a + b + c, d);
    SaturatingSum(a + b + c + d, e);
    hide Capped, SatAddI64;
  }

  function Capped(x: int): I64
    requires x >= 0
  {
    Min(x, I64_MAX)
  }

  lemma SaturatingSum(a: int, b: int)
    requires a >= 0 && b >= 0
    ensures SatAddI64(Capped(a), Capped(b)) == Capped(a + b)
  {
  }

  lemma CostsAreNatural(x: Input)
    requires Usable(x)
    ensures 2 * x.feePpm * (PICO / 100) >= 0
    ensures Cost(x.volatilityPico, x.volatilityBps) >= 0 && Cost(x.spreadPico, x.spreadBps) >= 0
    ensures Cost(x.uncertaintyPico, x.uncertaintyBps) >= 0 && Cost(x.liquidationPico, x.liquidationBps) >= 0
  {
  }

  /** The chain of the code, term by term, with half of the clamped spread in the middle. */
  lemma CostsAreAChain(x: Input)
    requires Usable(x)
    ensures Cost(x.spreadPico, x.spreadBps) >= 0
    ensures CostsPico(x) >= 0
    ensures CostsPico(x) ==
      Min(2 * x.feePpm * (PICO / 100)
          + Cost(x.volatilityPico, x.volatilityBps)
          + Min(Cost(x.spreadPico, x.spreadBps), I64_MAX) / 2
          + Cost(x.uncertaintyPico, x.uncertaintyBps)
          + Cost(x.liquidationPico, x.liquidationBps), I64_MAX)
  {
    CostsAreNatural(x);
    FeeClamp(x.feePpm);
    BpsClamp(x.volatilityPico, x.volatilityBps);
    BpsClamp(x.spreadPico, x.spreadBps);
    BpsClamp(x.uncertaintyPico, x.uncertaintyBps);
    BpsClamp(x.liquidationPico, x.liquidationBps);
    var half := Min(Cost(x.spreadPico, x.spreadBps), I64_MAX) / 2;
    assert half == Capped(half);
    hide Cost, ExactOrBps, PpmToPicoBps, BpsToPico, Usable, SatAddI64;
    SaturatingChain(
      2 * x.feePpm * (PICO / 100),
      Cost(x.volatilityPico, x.volatilityBps),
      half,
      Cost(x.uncertaintyPico, x.uncertaintyBps),
      Cost(x.liquidationPico, x.liquidationBps));
  }

  /** Unless the spread itself is clamped before it is halved, the computed costs are the clamped costs. */
  lemma CostsAreClamped(x: Input)
    requires Usable(x)
    ensures TotalCost(x) >= 0 && CostsPico(x) >= 0
    ensures Cost(x.spreadPico, x.spreadBps) <= I64_MAX ==> CostsPico(x) == Min(TotalCost(x), I64_MAX)
    ensures Cost(x.spreadPico, x.spreadBps) > I64_MAX ==>
      CostsPico(x) >= I64_MAX / 2 && TotalCost(x) >= I64_MAX / 2
  {
    CostsAreNatural(x);
    CostsAreAChain(x);
    hide Cost, CostsPico, Usable;
  }

  /** What the saturating comparison of net edge and safety margin decides, without saturation of costs. */
  ghost predicate Covers(x: Input)
    requires Usable(x)
  {
    Min(EdgePico(x) + ClampI64(Carry(x)), I64_MAX) > 2 * TotalCost(x) + FIVE_BPS
  }

  lemma NetBeatsSafety(x: Input)
    requires Usable(x)
    ensures NetPico(x) > SafetyPico(x) <==> Covers(x)
    ensures SafetyPico(x) > 0
  {
    CostsAreClamped(x);
    CarryIsExact(x);
    SignalIsExact(x);
    assert BpsToPico(5) == FIVE_BPS;
    hide TotalCost, CostsPico, Carry, FundingCarry, SignedEdge, EdgePico, Cost, BpsToPico;
    Threshold(EdgePico(x) + ClampI64(Carry(x)), CostsPico(x), TotalCost(x));
  }

  /** Subtracting saturated costs and comparing with the saturated margin is one exact comparison. */
  lemma Threshold(gross: int, costs: I64, total: int)
    requires gross >= I64_MIN && costs >= 0 && total >= 0
    requires costs == Min(total, I64_MAX) || (costs >= I64_MAX / 2 && total >= I64_MAX / 2)
    ensures SatSubI64(ClampI64(gross), costs) > SatAddI64(costs, FIVE_BPS)
      <==> Min(gross, I64_MAX) > 2 * total + FIVE_BPS
    ensures SatAddI64(costs, FIVE_BPS) > 0
  {
  }

  /**
   The decision admits an entry exactly when its inputs are usable, some edge is visible, no held
   position meets special funding, and the clamped edge plus carry exceeds twice the unclamped
   costs by five basis points.
   */
  lemma EntryIsExact(x: Input)
    ensures Decide(x).allowEntry <==>
      && Usable(x)
      && EdgePico(x) > 0
      && (x.position == 0 || !x.rateStatus.Special?)
      && Covers(x)
  {
    if Usable(x) {
      NetBeatsSafety(x);
      SignalIsExact(x);
      FiguresCarry(x);
      VerdictAdmits(x, SignedEdge(x.anchorTicks, x.midTicks).0, Figures(x));
      hide NetPico, SafetyPico, Covers, Figures, Verdict, PicoBps, SignedEdge, EdgePico;
    }
  }

  lemma FiguresCarry(x: Input)
    requires Usable(x)
    ensures var d := Figures(x);
      && !d.allowEntry && d.netEdgePico == NetPico(x) && d.safetyMarginPico == SafetyPico(x)
      && d.anchorEdgePico == EdgePico(x)
  {
    SignalIsExact(x);
    hide NetPico, SafetyPico, PicoToBps, CostsPico, FundingCarry, PicoBps;
  }

  lemma VerdictAdmits(x: Input, signal: int, d: Decision)
    requires x.nextFundingMs.Some? && !d.allowEntry
    ensures Verdict(x, signal, d).allowEntry <==>
      && (x.position == 0 || (d.netEdgePico > 0 && !x.rateStatus.Special?))
      && signal != 0 && d.anchorEdgePico > 0
      && d.netEdgePico > d.safetyMarginPico
  {
    hide NearFunding;
  }

  /** The edge is the exact ratio rounded down, unless it is held at the last `i64`. */
  lemma EdgeIsRoundedDown(x: Input)
    requires x.midTicks > 0
    ensures EdgePico(x) as real <= Edge(x)
    ensures EdgePico(x) < I64_MAX ==> Edge(x) < EdgePico(x) as real + 1.0
  {
    var scaled := Abs(x.anchorTicks - x.midTicks) * 10_000 * PICO;
    FloorBelow(scaled, x.midTicks);
    FloorAbove(scaled, x.midTicks);
  }

  lemma FloorAbove(a: nat, b: nat)
    requires b > 0
    ensures a as real / b as real < (a / b) as real + 1.0
  {
    var q := Quotient(a, b);
    assert a < (q + 1) * b;
    ProductAsReal(q + 1, b);
    LessThan(a as real, (q + 1) as real, b as real);
  }

  lemma ProductAsReal(x: int, y: int)
    ensures (x * y) as real == x as real * y as real
  {
  }

  lemma LessThan(a: real, x: real, d: real)
    requires d > 0.0 && a < x * d
    ensures a / d < x
  {
    var q := a / d;
    assert q * d == a;
    if q >= x { NotSmaller(x, q, d); }
  }

  lemma NotSmaller(x: real, y: real, d: real)
    requires d > 0.0 && x <= y
    ensures x * d <= y * d
  {
  }

  lemma FloorBelow(a: nat, b: nat)
    requires b > 0
    ensures (a / b) as real <= a as real / b as real
  {
    var q := a / b;
    assert q * b <= a;
    assert (q * b) as real == q as real * b as real;
    assert q as real * b as real <= a as real;
    assert q as real == (q as real * b as real) / b as real;
    DivideBoth(q as real * b as real, a as real, b as real);
  }

  lemma DivideBoth(a: real, b: real, d: real)
    requires a <= b && d > 0.0
    ensures a / d <= b / d
  {
  }

  /** Clamping can only lower what is compared, so exceeding a bound with clamps exceeds it without. */
  lemma GrossExceeds(edge: I64, carry: int, bound: int)
    requires edge >= 0 && bound >= 0 && Min(edge + ClampI64(carry), I64_MAX) > bound
    ensures edge + carry >= bound + 1
  {
  }

  /**
   The saturating decision is conservative: every admitted entry satisfies the exact inequality,
   strictly for the costs with the floored half spread, and strictly for the exact costs too
   when the spread is even.
   */
  lemma EntryIsConservative(x: Input)
    ensures Decide(x).allowEntry ==>
      && Usable(x)
      && Edge(x) + Carry(x) as real > (2 * TotalCost(x) + FIVE_BPS) as real
      && Edge(x) + Carry(x) as real >= (TwiceCost(x) + FIVE_BPS) as real
      && (Cost(x.spreadPico, x.spreadBps) % 2 == 0 ==>
            Edge(x) + Carry(x) as real > (TwiceCost(x) + FIVE_BPS) as real)
  {
    if Decide(x).allowEntry {
      EntryExceeds(x);
      EdgeIsRoundedDown(x);
      hide *;
      var edge := EdgePico(x);
      TwiceCostMeaning(x);
      RealThreshold(Edge(x), edge, Carry(x), 2 * TotalCost(x) + FIVE_BPS);
    }
  }

  lemma EntryExceeds(x: Input)
    ensures Decide(x).allowEntry ==>
      Usable(x) && EdgePico(x) + Carry(x) >= 2 * TotalCost(x) + FIVE_BPS + 1
  {
    if Decide(x).allowEntry {
      EntryIsExact(x);
      CostsAreClamped(x);
      hide Decide, EdgePico, TotalCost, Carry, Cost, CostsPico, Usable;
      GrossExceeds(EdgePico(x), Carry(x), 2 * TotalCost(x) + FIVE_BPS);
    }
  }

  lemma TwiceCostMeaning(x: Input)
    ensures TwiceCost(x) == 2 * TotalCost(x) + Cost(x.spreadPico, x.spreadBps) % 2
  {
    hide Cost;
  }

  lemma RealThreshold(exact: real, edge: int, carry: int, bound: int)
    requires edge as real <= exact && edge + carry >= bound + 1
    ensures exact + carry as real > bound as real
    ensures exact + carry as real >= (bound + 1) as real
  {
    assert (edge + carry) as real == edge as real + carry as real;
    assert (edge + carry) as real >= (bound + 1) as real;
    assert (bound + 1) as real == bound as real + 1.0;
  }

  /** Whether every entry admitted with this spread strictly exceeds the exact threshold. */
  ghost predicate AlwaysStrict(pico: I64, bps: I64)
  {
    forall x: Input :: x.spreadPico == pico && x.spreadBps == bps && Decide(x).allowEntry ==>
      Edge(x) + Carry(x) as real > (TwiceCost(x) + FIVE_BPS) as real
  }

  /**
   Halving the spread costs strictness exactly for odd spreads that an entry can still cover:
   for each of them some admitted entry only meets the exact threshold.
   */
  lemma StrictExactlyForEvenSpreads(pico: I64, bps: I64)
    requires pico >= 0 && bps >= 0
    ensures AlwaysStrict(pico, bps) <==> Cost(pico, bps) % 2 == 0 || Cost(pico, bps) > I64_MAX - FIVE_BPS
  {
    if Cost(pico, bps) % 2 == 0 || Cost(pico, bps) > I64_MAX - FIVE_BPS {
      forall x: Input | x.spreadPico == pico && x.spreadBps == bps && Decide(x).allowEntry
        ensures Edge(x) + Carry(x) as real > (TwiceCost(x) + FIVE_BPS) as real
      {
        EntryIsConservative(x);
        AdmittedSpreadIsCovered(x);
      }
    } else {
      var x := Borderline(pico, bps);
      BorderlineMeetsTheThreshold(pico, bps);
      assert !(Edge(x) + Carry(x) as real > (TwiceCost(x) + FIVE_BPS) as real);
    }
  }

  lemma AdmittedSpreadIsCovered(x: Input)
    ensures Decide(x).allowEntry ==> Cost(x.spreadPico, x.spreadBps) <= I64_MAX - FIVE_BPS
  {
    EntryIsExact(x);
    if Decide(x).allowEntry {
      SpreadIsACost(x);
    }
    hide Decide, Carry, TotalCost, Cost, EdgePico, Usable;
  }

  lemma SpreadIsACost(x: Input)
    requires Usable(x)
    ensures 2 * TotalCost(x) >= Cost(x.spreadPico, x.spreadBps) - 1
  {
    CostsAreNatural(x);
    hide Cost, Usable;
  }

  /** An unheld position whose edge and carry are one above the floored threshold, with no other cost. */
  function Borderline(pico: I64, bps: I64): Input
    requires 0 < pico <= I64_MAX - FIVE_BPS
  {
    var mid := 10_000 * PICO;
    var due := pico + FIVE_BPS;
    if due <= I64_MAX - mid then
      Input(0, mid + due, mid, mid, mid, 0, 1, None, Some(0), Observed, 0, 0, bps, 0, 0, 0, pico, 0, 0)
    else
      Input(0, due, mid, mid, mid, 0, 1, Some(-100_000_000), Some(0), Observed, 0, 0, bps, 0, 0, 0, pico, 0, 0)
  }

  lemma BorderlineMeetsTheThreshold(pico: I64, bps: I64)
    requires bps >= 0 && 0 < pico <= I64_MAX - FIVE_BPS && pico % 2 == 1
    ensures var x := Borderline(pico, bps);
      Decide(x).allowEntry && Edge(x) + Carry(x) as real == (TwiceCost(x) + FIVE_BPS) as real
  {
    var x := Borderline(pico, bps);
    var gap := x.anchorTicks - x.midTicks;
    BorderlineIsAdmitted(pico, bps);
    BorderlineCosts(pico, bps);
    GapIsTheEdge(gap);
    hide Borderline, Decide, TotalCost, TwiceCost, Carry, Cost, Usable;
    assert Edge(x) == gap as real;
    hide Edge;
    assert gap as real + Carry(x) as real == (gap + Carry(x)) as real;
  }

  lemma BorderlineIsAdmitted(pico: I64, bps: I64)
    requires bps >= 0 && 0 < pico <= I64_MAX - FIVE_BPS && pico % 2 == 1
    ensures Decide(Borderline(pico, bps)).allowEntry
  {
    var x := Borderline(pico, bps);
    hide Borderline, Decide, TotalCost, TwiceCost, Carry, Cost, Usable, SignedEdge;
    BorderlineCosts(pico, bps);
    UnheldEntry(x);
  }

  lemma BorderlineCosts(pico: I64, bps: I64)
    requires bps >= 0 && 0 < pico <= I64_MAX - FIVE_BPS && pico % 2 == 1
    ensures var x := Borderline(pico, bps);
      && Usable(x) && x.anchorTicks > x.midTicks == 10_000 * PICO && x.position == 0
      && x.rateStatus.Observed?
      && 2 * TotalCost(x) == pico - 1 && TwiceCost(x) == pico
      && x.anchorTicks - x.midTicks + Carry(x) == pico + FIVE_BPS && Carry(x) <= I64_MAX
  {
  }

  lemma GapIsTheEdge(gap: I64)
    requires gap > 0
    ensures PicoBps(gap, 10_000 * PICO) == gap
    ensures (gap * 10_000 * PICO) as real / (10_000 * PICO) as real == gap as real
  {
    assert gap * 10_000 * PICO == gap * (10_000 * PICO);
  }

  lemma EdgeOfTheGap(anchor: I64, mid: I64)
    requires anchor > mid == 10_000 * PICO
    ensures SignedEdge(anchor, mid) == (1, anchor - mid)
  {
    GapIsTheEdge(anchor - mid);
    hide PicoBps;
  }

  lemma UnheldEntry(x: Input)
    requires Usable(x) && x.position == 0 && x.anchorTicks > x.midTicks == 10_000 * PICO
    ensures Decide(x).allowEntry
      <==> Min(x.anchorTicks - x.midTicks + ClampI64(Carry(x)), I64_MAX) > 2 * TotalCost(x) + FIVE_BPS
  {
    hide Decide, TotalCost, Carry, Usable, SignedEdge;
    EdgeOfTheGap(x.anchorTicks, x.midTicks);
    EntryIsExact(x);
  }

  /** Nothing about a cost is given as a negative number. */
  predicate CostsAreGiven(x: Input)
  {
    && x.feePpm >= 0
    && x.volatilityBps >= 0 && x.spreadBps >= 0 && x.uncertaintyBps >= 0 && x.liquidationBps >= 0
    && x.volatilityPico >= 0 && x.spreadPico >= 0 && x.uncertaintyPico >= 0 && x.liquidationPico >= 0
  }

  /** Two inputs that differ in their costs only. */
  predicate SameMarket(x: Input, y: Input)
  {
    y == x.(
      feePpm := y.feePpm,
      volatilityBps := y.volatilityBps, volatilityPico := y.volatilityPico,
      spreadBps := y.spreadBps, spreadPico := y.spreadPico,
      uncertaintyBps := y.uncertaintyBps, uncertaintyPico := y.uncertaintyPico,
      liquidationBps := y.liquidationBps, liquidationPico := y.liquidationPico)
  }

  /** No cost of the second input is below that of the first. */
  predicate Dearer(x: Input, y: Input)
  {
    && SameMarket(x, y) && x.feePpm <= y.feePpm
    && Cost(x.volatilityPico, x.volatilityBps) <= Cost(y.volatilityPico, y.volatilityBps)
    && Cost(x.spreadPico, x.spreadBps) <= Cost(y.spreadPico, y.spreadBps)
    && Cost(x.uncertaintyPico, x.uncertaintyBps) <= Cost(y.uncertaintyPico, y.uncertaintyBps)
    && Cost(x.liquidationPico, x.liquidationBps) <= Cost(y.liquidationPico, y.liquidationBps)
  }

  /**
   Raising any costs never turns a refused entry into an admitted one, unless something about the
   lower costs is negative, which is refused as unusable.
   */
  lemma DearerCostsNeverAdmit(x: Input, y: Input)
    requires Dearer(x, y)
    ensures Decide(y).allowEntry ==> (Decide(x).allowEntry <==> CostsAreGiven(x))
  {
    EntryIsExact(x);
    EntryIsExact(y);
    hide Decide, SignedEdge, Carry, TotalCost, Cost;
    if Usable(y) && CostsAreGiven(x) {
      CostsGrow(x, y);
    }
  }

  lemma CostsGrow(x: Input, y: Input)
    requires Dearer(x, y) && Usable(x) && Usable(y)
    ensures Carry(y) == Carry(x) && TotalCost(x) <= TotalCost(y)
  {
    hide Cost, Usable, SignedEdge, SignOf;
    HalvesGrow(Cost(x.spreadPico, x.spreadBps), Cost(y.spreadPico, y.spreadBps));
    assert 2 * x.feePpm * (PICO / 100) <= 2 * y.feePpm * (PICO / 100);
  }

  lemma HalvesGrow(a: int, b: int)
    requires a <= b
    ensures a / 2 <= b / 2
  {
  }

  /**
   A higher fee never turns a refused entry into an admitted one, except from a negative fee,
   which is refused as unusable.
   */
  lemma DearerFeesNeverAdmit(x: Input, fee: I64)
    requires x.feePpm <= fee
    ensures Decide(x.(feePpm := fee)).allowEntry ==> (Decide(x).allowEntry <==> x.feePpm >= 0)
  {
    var y := x.(feePpm := fee);
    DearerCostsNeverAdmit(x, y);
    if Decide(y).allowEntry {
      EntryIsExact(y);
      assert Usable(y);
    }
    hide Decide;
  }

  /** An input whose volatility is given in whole basis points becomes admitted by a finer figure above zero. */
  ghost predicate FinerAdmits(x: Input, finer: I64)
  {
    x.volatilityPico == 0 && !Decide(x).allowEntry && Decide(x.(volatilityPico := finer)).allowEntry
  }

  /**
   For single fields the order can turn around, because a finer figure above zero replaces the one
   in whole basis points: raising it from zero admits some usable input if and only if it stays
   below what it replaces and is small enough to be covered at all.
   */
  lemma FinerFiguresAdmitExactly(finer: I64, bps: I64)
    requires finer > 0 && bps >= 0
    ensures (exists x :: CostsAreGiven(x) && x.volatilityBps == bps && FinerAdmits(x, finer))
      <==> finer < bps * PICO && 2 * finer + FIVE_BPS < I64_MAX
  {
    if finer < bps * PICO && 2 * finer + FIVE_BPS < I64_MAX {
      JustAboveAdmits(finer, bps);
    }
    forall x | CostsAreGiven(x) && x.volatilityBps == bps && FinerAdmits(x, finer)
      ensures finer < bps * PICO && 2 * finer + FIVE_BPS < I64_MAX
    {
      FinerIsBelow(x, finer);
    }
  }

  lemma FinerIsBelow(x: Input, finer: I64)
    requires finer > 0 && CostsAreGiven(x) && FinerAdmits(x, finer)
    ensures finer < x.volatilityBps * PICO && 2 * finer + FIVE_BPS < I64_MAX
  {
    hide Decide, Carry, TotalCost, SignedEdge;
    var y := x.(volatilityPico := finer);
    if finer >= x.volatilityBps * PICO {
      DearerCostsNeverAdmit(x, y);
    }
    EntryIsExact(y);
    VolatilityIsACost(y);
  }

  lemma VolatilityIsACost(x: Input)
    requires Usable(x)
    ensures TotalCost(x) >= Cost(x.volatilityPico, x.volatilityBps)
  {
    CostsAreNatural(x);
    hide Cost, Usable;
    HalvesGrow(0, Cost(x.spreadPico, x.spreadBps));
  }

  /** A market whose edge and carry are one above what the finer figure has to be exceeded by. */
  function JustAbove(finer: I64, bps: I64): Input
    requires finer > 0 && 2 * finer + FIVE_BPS < I64_MAX
  {
    Borderline(2 * finer + 1, 0).(spreadPico := 0, volatilityBps := bps)
  }

  lemma JustAboveAdmits(finer: I64, bps: I64)
    requires 0 < finer < bps * PICO && 2 * finer + FIVE_BPS < I64_MAX
    ensures var x := JustAbove(finer, bps);
      CostsAreGiven(x) && x.volatilityBps == bps && FinerAdmits(x, finer)
  {
    var x := JustAbove(finer, bps);
    var y := x.(volatilityPico := finer);
    hide JustAbove, Decide, TotalCost, TwiceCost, Carry, Cost, Usable, CostsAreGiven, SignedEdge;
    JustAboveCosts(finer, bps);
    UnheldEntry(x);
    UnheldEntry(y);
  }

  lemma JustAboveCosts(finer: I64, bps: I64)
    requires 0 < finer && bps >= 0 && 2 * finer + FIVE_BPS < I64_MAX
    ensures var x := JustAbove(finer, bps);
      var y := x.(volatilityPico := finer);
      && Usable(x) && Usable(y) && CostsAreGiven(x) && x.volatilityBps == bps && x.volatilityPico == 0
      && x.anchorTicks > x.midTicks == 10_000 * PICO && x.position == 0
      && TotalCost(x) == bps * PICO && TotalCost(y) == finer
      && Carry(y) == Carry(x) <= I64_MAX && x.anchorTicks - x.midTicks + Carry(x) == 2 * finer + 1 + FIVE_BPS
  {
  }

  // ---------------------------------------------------------------- the decision as a whole

  ghost predicate Rounds(bps: I64, pico: I64)
  {
    -PICO / 2 <= pico - bps * PICO <= PICO / 2
  }

  /** The parts of a decision agree with each other and with the position held. */
  ghost predicate Consistent(x: Input, d: Decision)
  {
    && (d.allowEntry <==> d.action.Collect? || d.action.Tolerate?)
    && (d.allowEntry ==> !d.reduceOnly && d.side != 0 && d.netEdgePico > d.safetyMarginPico)
    && (d.reduceOnly ==> x.position != 0)
    && (d.action.Exit? ==> d.reduceOnly && (d.netEdgePico <= 0 || x.rateStatus.Special?))
    && (d.action.Collect? ==> d.fundingCarryPico > 0 && x.nextFundingMs.Some? && NearFunding(x))
  }

  lemma DecisionIsConsistent(x: Input)
    ensures Consistent(x, Decide(x))
    ensures Usable(x) ==>
      var d := Decide(x);
      && (x.position != 0 ==> d.side == SignOf(x.position))
      && d.side == Direction(x)
      && (x.position != 0 && (d.netEdgePico <= 0 || x.rateStatus.Special?) ==> d.action.Exit?)
  {
    if Usable(x) {
      SideIsDirection(x);
      DefaultVerdict(x);
      VerdictIsConsistent(x, SignedEdge(x.anchorTicks, x.midTicks).0, Figures(x));
      hide Figures, NearFunding, SignedEdge, Verdict, Consistent, SignOf;
    }
  }

  lemma VerdictIsConsistent(x: Input, signal: int, d: Decision)
    requires x.nextFundingMs.Some? && d.action.Avoid? && !d.allowEntry && (d.reduceOnly <==> x.position != 0)
    requires signal != 0 ==> d.side != 0
    ensures var v := Verdict(x, signal, d);
      && Consistent(x, v) && v.side == d.side
      && (x.position != 0 && (v.netEdgePico <= 0 || x.rateStatus.Special?) ==> v.action.Exit?)
  {
    hide NearFunding;
  }

  lemma DefaultVerdict(x: Input)
    requires Usable(x)
    ensures var d := Figures(x);
      && d.action.Avoid? && !d.allowEntry && (d.reduceOnly <==> x.position != 0)
      && (x.position != 0 ==> d.side == SignOf(x.position))
      && (SignedEdge(x.anchorTicks, x.midTicks).0 != 0 ==> d.side != 0)
  {
    hide PicoToBps, CostsPico, NetPico, SafetyPico, FundingCarry, PicoBps;
  }

  /** What edge and carry come to, held within an `i64` like each of them. */
  ghost function Gross(x: Input): int
    requires x.midTicks > 0
  {
    Min(EdgePico(x) + Max(I64_MIN, Min(Carry(x), I64_MAX)), I64_MAX)
  }

  /** The figures of a decision on a usable input, of which the costs are known as the clamped total. */
  ghost predicate FiguresOf(x: Input, d: Decision)
    requires x.midTicks > 0
  {
    && d.side == Direction(x)
    && d.anchorEdgePico == EdgePico(x)
    && d.fundingCarryPico == Max(I64_MIN, Min(Carry(x), I64_MAX))
    && 0 <= d.totalCostPico
    && (Cost(x.spreadPico, x.spreadBps) <= I64_MAX ==> d.totalCostPico == Min(TotalCost(x), I64_MAX))
    && d.netEdgePico == Max(I64_MIN, Gross(x) - d.totalCostPico)
    && d.safetyMarginPico == Min(d.totalCostPico + FIVE_BPS, I64_MAX)
  }

  lemma FiguresAreThose(x: Input)
    requires Usable(x)
    ensures FiguresOf(x, Decide(x)) && FiguresOf(x, Figures(x))
  {
    SideIsDirection(x);
    SignalIsExact(x);
    CarryIsExact(x);
    CostsAreClamped(x);
    assert BpsToPico(5) == FIVE_BPS;
    hide TotalCost, CostsPico, Carry, FundingCarry, SignedEdge, EdgePico, Cost, PicoToBps, BpsToPico;
    hide Verdict, Direction, Usable, NearFunding;
    FiguresFit(x);
    VerdictKeepsFigures(x, SignedEdge(x.anchorTicks, x.midTicks).0, Figures(x));
  }

  lemma FiguresFit(x: Input)
    requires Usable(x) && Side(x) == Direction(x) && SignedEdge(x.anchorTicks, x.midTicks).1 == EdgePico(x)
    requires FundingCarry(Side(x), x.fundingRateE8) == ClampI64(Carry(x)) && BpsToPico(5) == FIVE_BPS
    requires CostsPico(x) >= 0
    requires Cost(x.spreadPico, x.spreadBps) <= I64_MAX ==> CostsPico(x) == Min(TotalCost(x), I64_MAX)
    ensures FiguresOf(x, Figures(x))
  {
    hide TotalCost, CostsPico, Carry, FundingCarry, SignedEdge, EdgePico, Cost, PicoToBps, BpsToPico;
    hide Direction, Side, Usable;
  }

  /** Funding within five minutes, or overdue. */
  ghost predicate FundingIsNear(x: Input)
  {
    x.nextFundingMs.Some? && x.nextFundingMs.value <= x.nowMs + 300_000
  }

  /**
   The action on a usable input: a held position is given up when it no longer pays or funding is
   special; without a visible edge nothing is done; an admitted entry collects carry shortly before
   funding and otherwise tolerates it; the rest is avoided.
   */
  lemma ActionIsExact(x: Input)
    requires Usable(x)
    ensures var d := Decide(x);
      && (d.action.Exit? <==> x.position != 0 && (d.netEdgePico <= 0 || x.rateStatus.Special?))
      && (d.action.NoAction? <==> !d.action.Exit? && EdgePico(x) == 0)
      && (d.action.Collect? <==> d.allowEntry && d.fundingCarryPico > 0 && FundingIsNear(x))
      && (d.action.Tolerate? <==> d.allowEntry && !(d.fundingCarryPico > 0 && FundingIsNear(x)))
      && (d.reduceOnly <==> d.action.Exit? || (d.action.Avoid? && x.position != 0))
      && d.reason == ReasonFor(d.action)
  {
    SignalIsExact(x);
    if x.anchorTicks == x.midTicks {
      NoSignalNoEdge(x);
    }
    FiguresCarry(x);
    DefaultReason(x);
    VerdictActs(x, SignedEdge(x.anchorTicks, x.midTicks).0, Figures(x));
    VerdictKeepsFigures(x, SignedEdge(x.anchorTicks, x.midTicks).0, Figures(x));
    hide Figures, Verdict, SignedEdge, EdgePico, NetPico, SafetyPico, ReasonFor, Usable;
  }

  lemma NoSignalNoEdge(x: Input)
    requires x.anchorTicks == x.midTicks > 0
    ensures EdgePico(x) == 0
  {
  }

  lemma DefaultReason(x: Input)
    requires Usable(x)
    ensures var d := Figures(x);
      d.action.Avoid? && !d.allowEntry && d.reason == ReasonFor(Avoid) && (d.reduceOnly <==> x.position != 0)
  {
    hide PicoToBps, CostsPico, NetPico, SafetyPico, FundingCarry, PicoBps;
  }

  function ReasonFor(action: FundingAction): string
  {
    match action
    case Exit => "held_edge_not_compensating_funding_or_special"
    case NoAction => "anchor_edge_not_observable"
    case Collect => "carry_and_anchor_edge_cover_tail_cost"
    case Tolerate => "anchor_edge_covers_funding_and_cost"
    case Avoid => "funding_or_tail_cost_exceeds_conservative_edge"
  }

  lemma VerdictActs(x: Input, signal: int, d: Decision)
    requires x.nextFundingMs.Some? && d.action.Avoid? && !d.allowEntry && d.reason == ReasonFor(Avoid)
    requires (d.reduceOnly <==> x.position != 0) && (signal == 0 ==> d.anchorEdgePico == 0) && d.anchorEdgePico >= 0
    ensures var v := Verdict(x, signal, d);
      && (v.action.Exit? <==> x.position != 0 && (d.netEdgePico <= 0 || x.rateStatus.Special?))
      && (v.action.NoAction? <==> !v.action.Exit? && d.anchorEdgePico == 0)
      && (v.action.Collect? <==> v.allowEntry && d.fundingCarryPico > 0 && FundingIsNear(x))
      && (v.action.Tolerate? <==> v.allowEntry && !(d.fundingCarryPico > 0 && FundingIsNear(x)))
      && (v.reduceOnly <==> v.action.Exit? || (v.action.Avoid? && x.position != 0))
      && v.reason == ReasonFor(v.action)
  {
  }

  /** An input is unusable exactly for a missing price, a negative cost or an unknown rate; it is refused. */
  lemma RefusalIsExact(x: Input)
    ensures !Usable(x) <==>
      || x.anchorTicks <= 0 || x.midTicks <= 0 || x.markTicks <= 0 || x.indexTicks <= 0 || x.maxPosition <= 0
      || !CostsAreGiven(x) || x.rateStatus.Unknown? || x.rateStatus.Missing? || x.nextFundingMs.None?
    ensures !Usable(x) ==>
      var d := Decide(x);
      && d.reason == "invalid_or_unknown_state"
      && d.action.NoAction? && !d.allowEntry && !d.reduceOnly && d.side == 0
      && d.totalCostPico == d.totalCostBps == I64_MAX && d.netEdgePico == d.netEdgeBps == I64_MIN
      && d.anchorEdgePico == d.fundingCarryPico == d.safetyMarginPico == 0
      && d.anchorEdgeBps == d.fundingCarryBps == d.safetyMarginBps == 0
  {
    hide SignedEdge, Figures, Verdict;
  }

  /** The figures shown in basis points are the exact figures rounded, except in a refusal. */
  lemma FiguresAreRounded(x: Input)
    ensures var d := Decide(x);
      Usable(x) <==>
      && Rounds(d.anchorEdgeBps, d.anchorEdgePico) && Rounds(d.fundingCarryBps, d.fundingCarryPico)
      && Rounds(d.totalCostBps, d.totalCostPico) && Rounds(d.netEdgeBps, d.netEdgePico)
      && Rounds(d.safetyMarginBps, d.safetyMarginPico)
  {
    if Usable(x) {
      var signal := SignedEdge(x.anchorTicks, x.midTicks);
      var d := Figures(x);
      hide PicoToBps, Rounds, Figures, SignedEdge, CostsPico, NetPico, SafetyPico, FundingCarry, Side, NearFunding;
      FiguresRounded(x);
      VerdictKeepsFigures(x, signal.0, d);
    } else {
      assert !Rounds(Refusal(x).totalCostBps, Refusal(x).totalCostPico);
    }
  }

  lemma FiguresRounded(x: Input)
    requires Usable(x)
    ensures var d := Figures(x);
      && Rounds(d.anchorEdgeBps, d.anchorEdgePico) && Rounds(d.fundingCarryBps, d.fundingCarryPico)
      && Rounds(d.totalCostBps, d.totalCostPico) && Rounds(d.netEdgeBps, d.netEdgePico)
      && Rounds(d.safetyMarginBps, d.safetyMarginPico)
  {
    hide PicoToBps, Rounds, SignedEdge, CostsPico, NetPico, SafetyPico, FundingCarry, Side;
    var d := Figures(x);
    PicoToBpsRounds(d.anchorEdgePico);
    PicoToBpsRounds(d.fundingCarryPico);
    PicoToBpsRounds(d.totalCostPico);
    PicoToBpsRounds(d.netEdgePico);
    PicoToBpsRounds(d.safetyMarginPico);
  }

  lemma VerdictKeepsFigures(x: Input, signal: int, d: Decision)
    requires x.nextFundingMs.Some?
    ensures var v := Verdict(x, signal, d);
      && v.anchorEdgeBps == d.anchorEdgeBps && v.anchorEdgePico == d.anchorEdgePico
      && v.fundingCarryBps == d.fundingCarryBps && v.fundingCarryPico == d.fundingCarryPico
      && v.totalCostBps == d.totalCostBps && v.totalCostPico == d.totalCostPico
      && v.netEdgeBps == d.netEdgeBps && v.netEdgePico == d.netEdgePico
      && v.safetyMarginBps == d.safetyMarginBps && v.safetyMarginPico == d.safetyMarginPico
      && v.side == d.side
  {
    hide NearFunding;
  }

  /** Rounding to whole basis points is within half a basis point, symmetric, and never clamped. */
  lemma PicoToBpsRounds(value: I64)
    ensures Rounds(PicoToBps(value), value)
    ensures value != I64_MIN ==> PicoToBps(-value) == -PicoToBps(value)
  {
    var magnitude := Abs(value);
    var q := (magnitude + PICO / 2) / PICO;
    assert q * PICO <= magnitude + PICO / 2 < q * PICO + PICO;
  }
}
