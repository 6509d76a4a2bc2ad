/** The evidence accumulator: bounded per-symbol queues flushed over several horizons. */
module Accumulator {
  import opened Machine
  import opened Outcomes
  import opened Evidence
  import opened EvidenceRecords
  import Text

  datatype MarketEvent =
    | BookTicker(symbol: string, bidPrice: I64, askPrice: I64, eventTimeMs: U64)
    | MarkPrice(symbol: string, indexPrice: I64, eventTimeMs: U64)
    | OtherEvent

  datatype Anchor = Anchor(closePriceTicks: I64, observedAtMs: U64)

  datatype Quote = Quote(bid: Option<I64>, ask: Option<I64>, index: Option<I64>, eventTimeMs: U64)

  // ---------------------------------------------------------------- horizons

  ghost predicate StrictlyAscending(s: seq<U64>)
  {
    forall i, j :: 0 <= i < j < |s| ==> s[i] < s[j]
  }

  function InsertHorizon(x: U64, s: seq<U64>): (r: seq<U64>)
    requires StrictlyAscending(s)
    ensures StrictlyAscending(r)
    ensures forall y :: y in r <==> y == x || y in s
  {
    if s == [] then [x]
    else if x < s[0] then
      assert forall i :: 0 < i < |s| ==> s[0] < s[i];
      [x] + s
    else if x == s[0] then s
    else
      var rest := InsertHorizon(x, s[1..]);
      assert forall i :: 0 <= i < |rest| ==> rest[i] in rest;
      [s[0]] + rest
  }

  /** `sort_unstable` followed by `dedup`. */
  function SortDedup(s: seq<U64>): (r: seq<U64>)
    ensures StrictlyAscending(r)
    ensures forall y :: y in r <==> y in s
  {
    if s == [] then [] else InsertHorizon(s[0], SortDedup(s[1..]))
  }

  // ---------------------------------------------------------------- reading the market

  function QuoteIn(quotes: map<string, Quote>, symbol: string): Quote
  {
    if symbol in quotes then quotes[symbol] else Quote(None, None, None, 0)
  }

  function QuotesAfter(quotes: map<string, Quote>, event: MarketEvent): map<string, Quote>
    requires !event.OtherEvent?
  {
    var symbol := Text.ToAsciiUpper(event.symbol);
    var previous := QuoteIn(quotes, symbol);
    var at := Max(previous.eventTimeMs, event.eventTimeMs);
    match event
    case BookTicker(_, bid, ask, _) => quotes[symbol := Quote(Some(bid), Some(ask), previous.index, at)]
    case MarkPrice(_, index, _) => quotes[symbol := Quote(previous.bid, previous.ask, Some(index), at)]
  }

  /** A usable reading of one symbol: mid price, index and anchor, all positive. */
  datatype Reading = Reading(symbol: string, now: U64, price: I64, index: I64, anchor: Anchor)
  {
    function Residual(): I64 { BasisBps(price, anchor.closePriceTicks) }

    function At(): Tick { Tick(symbol, now, price, index) }

    function NewPoint(): Point
    {
      Point(now, Episode(symbol, anchor.observedAtMs), anchor.closePriceTicks, price, index, Residual(), [])
    }
  }

  /** A point as it is taken from a reading: nothing served, and its residual the basis of price on anchor. */
  ghost predicate Takes(p: Point, x: Reading)
  {
    && p.eventTimeMs == x.now && p.episode == Episode(x.symbol, x.anchor.observedAtMs)
    && p.anchorTicks == x.anchor.closePriceTicks && p.priceTicks == x.price && p.indexTicks == x.index
    && p.done == [] && IsBasis(p.residualBps, x.price, x.anchor.closePriceTicks)
  }

  lemma PointIsTaken(x: Reading)
    ensures Takes(x.NewPoint(), x) && x.NewPoint().residualBps == x.Residual()
    ensures x.At() == Tick(x.symbol, x.now, x.price, x.index)
  {
    BasisIsBasis(x.price, x.anchor.closePriceTicks);
  }

  /** What the quotes, the time and the anchor of a symbol give. */
  function ReadingFrom(quotes: map<string, Quote>, symbol: string, now: U64, anchor: Anchor): Option<Reading>
  {
    if symbol !in quotes then None
    else
      var q := quotes[symbol];
      if q.bid.None? || q.ask.None? || q.index.None? then None
      else
        var price := TruncDiv(SatAddI64(q.bid.value, q.ask.value), 2);
        if price <= 0 || anchor.closePriceTicks <= 0 || q.index.value <= 0 then None
        else Some(Reading(symbol, now, price, q.index.value, anchor))
  }

  function TimeOf(event: MarketEvent, receivedAt: U64): U64
    requires !event.OtherEvent?
  {
    if event.eventTimeMs > 0 then event.eventTimeMs else receivedAt
  }

  function ReadingOf(quotes: map<string, Quote>, event: MarketEvent, receivedAt: U64, anchors: map<string, Anchor>)
    : Option<Reading>
  {
    if event.OtherEvent? || Text.ToAsciiUpper(event.symbol) !in anchors then None
    else
      var symbol := Text.ToAsciiUpper(event.symbol);
      ReadingFrom(quotes, symbol, TimeOf(event, receivedAt), anchors[symbol])
  }

  /** One flush: the queues it leaves and the records it returns. */
  function Flushed(hs: seq<U64>, queues: Queues, x: Tick): (Queues, seq<EvidenceRecord>)
  {
    if x.symbol !in queues then (queues, [])
    else
      var served := ServeQueue(hs, queues[x.symbol], x);
      (queues[x.symbol := Retire(|hs|, served.0)], served.1)
  }

  /** The anchors seen last, and how often one changed its price without changing its time. */
  function AnchorsAfter(
    last: map<string, Anchor>, violations: U64, event: MarketEvent, anchors: map<string, Anchor>)
    : (map<string, Anchor>, U64)
  {
    if event.OtherEvent? || Text.ToAsciiUpper(event.symbol) !in anchors then (last, violations)
    else
      var symbol := Text.ToAsciiUpper(event.symbol);
      var anchor := anchors[symbol];
      (last[symbol := anchor],
       if && symbol in last
          && last[symbol].observedAtMs == anchor.observedAtMs
          && last[symbol].closePriceTicks != anchor.closePriceTicks
       then SatAddU64(violations, 1) else violations)
  }

  // ---------------------------------------------------------------- what has been seen

  /** What one observation is given: an event and the anchors that hold at that moment. */
  datatype Sight = Sight(event: MarketEvent, anchors: map<string, Anchor>)
  {
    /** Whether it is about a symbol at all, and about this one. */
    predicate Shows(symbol: string)
    {
      !event.OtherEvent? && Text.ToAsciiUpper(event.symbol) == symbol
    }
  }

  /** Bid and ask of the last book ticker of a symbol. */
  function LastBook(seen: seq<Sight>, symbol: string): Option<(I64, I64)>
  {
    if seen == [] then None
    else
      var x := seen[|seen| - 1];
      if x.Shows(symbol) && x.event.BookTicker? then Some((x.event.bidPrice, x.event.askPrice))
      else LastBook(seen[..|seen| - 1], symbol)
  }

  /** The index of the last mark price of a symbol. */
  function LastIndex(seen: seq<Sight>, symbol: string): Option<I64>
  {
    if seen == [] then None
    else
      var x := seen[|seen| - 1];
      if x.Shows(symbol) && x.event.MarkPrice? then Some(x.event.indexPrice)
      else LastIndex(seen[..|seen| - 1], symbol)
  }

  /** The latest time that any event of a symbol carried. */
  function LatestTime(seen: seq<Sight>, symbol: string): U64
  {
    if seen == [] then 0
    else
      var x, earlier := seen[|seen| - 1], LatestTime(seen[..|seen| - 1], symbol);
      if x.Shows(symbol) then Max(earlier, x.event.eventTimeMs) else earlier
  }

  /** The anchor that held when a symbol was last seen with one. */
  function LastAnchor(seen: seq<Sight>, symbol: string): Option<Anchor>
  {
    if seen == [] then None
    else
      var x := seen[|seen| - 1];
      if x.Shows(symbol) && symbol in x.anchors then Some(x.anchors[symbol])
      else LastAnchor(seen[..|seen| - 1], symbol)
  }

  /** The last sight changed the price of an anchor without changing its time. */
  predicate Breaks(seen: seq<Sight>)
  {
    && seen != []
    && var x, earlier := seen[|seen| - 1], seen[..|seen| - 1];
    && !x.event.OtherEvent?
    && var symbol := Text.ToAsciiUpper(x.event.symbol);
    && symbol in x.anchors && LastAnchor(earlier, symbol).Some?
    && LastAnchor(earlier, symbol).value.observedAtMs == x.anchors[symbol].observedAtMs
    && LastAnchor(earlier, symbol).value.closePriceTicks != x.anchors[symbol].closePriceTicks
  }

  function CountBreaks(seen: seq<Sight>): nat
  {
    if seen == [] then 0 else CountBreaks(seen[..|seen| - 1]) + if Breaks(seen) then 1 else 0
  }

  function CountEvents(seen: seq<Sight>): nat
  {
    if seen == [] then 0
    else CountEvents(seen[..|seen| - 1]) + if seen[|seen| - 1].event.OtherEvent? then 0 else 1
  }

  /** The quote of every symbol holds its last book, its last index and its latest time. */
  ghost predicate QuotesFollow(quotes: map<string, Quote>, seen: seq<Sight>)
  {
    forall s {:trigger QuoteIn(quotes, s)} ::
      var q, book := QuoteIn(quotes, s), LastBook(seen, s);
      && q.bid == (if book.Some? then Some(book.value.0) else None)
      && q.ask == (if book.Some? then Some(book.value.1) else None)
      && q.index == LastIndex(seen, s) && q.eventTimeMs == LatestTime(seen, s)
  }

  ghost predicate AnchorsFollow(last: map<string, Anchor>, violations: U64, seen: seq<Sight>)
  {
    && (forall s :: LastAnchor(seen, s) == if s in last then Some(last[s]) else None)
    && violations == Saturate(CountBreaks(seen))
  }

  lemma QuotesKeepUp(quotes: map<string, Quote>, seen: seq<Sight>, x: Sight)
    requires QuotesFollow(quotes, seen)
    ensures QuotesFollow(if x.event.OtherEvent? then quotes else QuotesAfter(quotes, x.event), seen + [x])
  {
    var next := if x.event.OtherEvent? then quotes else QuotesAfter(quotes, x.event);
    assert (seen + [x])[..|seen|] == seen;
    forall s ensures
      var q, book := QuoteIn(next, s), LastBook(seen + [x], s);
      && q.bid == (if book.Some? then Some(book.value.0) else None)
      && q.ask == (if book.Some? then Some(book.value.1) else None)
      && q.index == LastIndex(seen + [x], s) && q.eventTimeMs == LatestTime(seen + [x], s)
    {
      assert QuoteIn(quotes, s).index == LastIndex(seen, s);
      assert x.Shows(s) || QuoteIn(next, s) == QuoteIn(quotes, s);
    }
  }

  /** An event touches the quote of its own symbol only, and moves no time backwards. */
  lemma OneQuoteChanges(quotes: map<string, Quote>, event: MarketEvent)
    requires !event.OtherEvent?
    ensures var after := QuotesAfter(quotes, event);
      && (forall s :: QuoteIn(quotes, s).eventTimeMs <= QuoteIn(after, s).eventTimeMs)
      && forall s :: s != Text.ToAsciiUpper(event.symbol) ==> QuoteIn(after, s) == QuoteIn(quotes, s)
  {
  }

  lemma AnchorsKeepUp(last: map<string, Anchor>, violations: U64, seen: seq<Sight>, x: Sight)
    requires AnchorsFollow(last, violations, seen)
    ensures var next := AnchorsAfter(last, violations, x.event, x.anchors);
      AnchorsFollow(next.0, next.1, seen + [x])
  {
    assert (seen + [x])[..|seen|] == seen;
  }

  /** A symbol can be read if it has an anchor, a book with a mid price, and an index, all positive. */
  predicate Readable(seen: seq<Sight>, symbol: string, anchors: map<string, Anchor>)
  {
    && symbol in anchors && anchors[symbol].closePriceTicks > 0
    && LastBook(seen, symbol).Some? && LastBook(seen, symbol).value.0 + LastBook(seen, symbol).value.1 >= 2
    && LastIndex(seen, symbol).Some? && LastIndex(seen, symbol).value > 0
  }

  /** A reading of what was seen last: half of bid plus ask, rounded down and capped, with index and anchor. */
  predicate Reads(
    x: Reading, seen: seq<Sight>, event: MarketEvent, receivedAt: U64, anchors: map<string, Anchor>)
    requires !event.OtherEvent? && Readable(seen, Text.ToAsciiUpper(event.symbol), anchors)
  {
    var symbol := Text.ToAsciiUpper(event.symbol);
    var book := LastBook(seen, symbol).value;
    && x.symbol == symbol && x.anchor == anchors[symbol] && x.index == LastIndex(seen, symbol).value
    && x.now == (if event.eventTimeMs > 0 then event.eventTimeMs else receivedAt)
    && 0 < x.price <= I64_MAX / 2
    && (book.0 + book.1 <= I64_MAX ==> 2 * x.price <= book.0 + book.1 <= 2 * x.price + 1)
    && (book.0 + book.1 > I64_MAX ==> x.price == I64_MAX / 2)
  }

  lemma ReadingMeans(
    quotes: map<string, Quote>, seen: seq<Sight>, event: MarketEvent, receivedAt: U64, anchors: map<string, Anchor>)
    requires QuotesFollow(quotes, seen)
    ensures var r := ReadingOf(quotes, event, receivedAt, anchors);
      && (r.Some? <==> !event.OtherEvent? && Readable(seen, Text.ToAsciiUpper(event.symbol), anchors))
      && (r.Some? ==> Reads(r.value, seen, event, receivedAt, anchors))
  {
    if !event.OtherEvent? {
      var symbol := Text.ToAsciiUpper(event.symbol);
      var q := QuoteIn(quotes, symbol);
      assert q.index == LastIndex(seen, symbol);
      if q.bid.Some? && q.ask.Some? {
        HalfOf(q.bid.value, q.ask.value);
      }
      hide TruncDiv, SatAddI64, LastBook, LastIndex;
    }
  }

  lemma HalfOf(bid: I64, ask: I64)
    ensures var price := TruncDiv(SatAddI64(bid, ask), 2);
      && I64_MIN <= price <= I64_MAX / 2 && (price > 0 <==> bid + ask >= 2)
      && (2 <= bid + ask <= I64_MAX ==> 2 * price <= bid + ask <= 2 * price + 1)
      && (bid + ask > I64_MAX ==> price == I64_MAX / 2)
  {
  }

  datatype EvidenceState = NoData | Observed | Eligible

  datatype HorizonSummary = HorizonSummary(
    horizonMs: U64,
    samples: nat,
    improved: nat,
    meanSignedImprovementBps: I64,
    meanPriceIndexChangeBps: I64,
    meanIndexAnchorChangeBps: I64)

  /**
   For a point born from a reading and a later positive price the improvement overflows only at
   extreme residuals: both ends of the scale are reached by readings that the accumulator accepts.
   */
  lemma ReadingsOverflowAtTheExtremes(x: Reading, h: U64, y: Tick)
    requires x.price > 0 && x.anchor.closePriceTicks > 0 && y.price > 0
    ensures RecordAt(y, x.NewPoint(), h).signedImprovementBps
        == ExactImprovement(x.Residual(), BasisBps(y.price, x.anchor.closePriceTicks))
      <==> ImprovementFits(x.Residual(), y.price, x.anchor.closePriceTicks)
    ensures !ImprovementFits(x.Residual(), y.price, x.anchor.closePriceTicks) ==>
      var end := BasisBps(y.price, x.anchor.closePriceTicks);
      || (x.Residual() > I64_MAX - 10_000 && -10_000 <= end < 0)
      || (-10_000 <= x.Residual() < 0 && end > I64_MAX - 10_000)
  {
    ImprovementIsExact(y.symbol, x.NewPoint(), h, y.now, y.price, y.index);
    BasisIsBounded(x.price, x.anchor.closePriceTicks);
    BasisIsBounded(y.price, x.anchor.closePriceTicks);
    hide BasisBps, RecordOf;
  }

  /** What can be read from a book, a mark and an anchor of one symbol. */
  function Shown(price: I64, at: U64): Option<Reading>
  {
    ReadingOf(
      map["ABC" := Quote(Some(price), Some(price), Some(1), at)],
      BookTicker("ABC", price, price, at), at, map["ABC" := Anchor(2, 0)])
  }

  lemma ShownIsRead(price: I64, at: U64)
    requires 0 < price <= I64_MAX / 2 && at > 0
    ensures Shown(price, at) == Some(Reading("ABC", at, price, 1, Anchor(2, 0)))
  {
    assert Text.ToAsciiUpper("ABC") == "ABC";
  }

  /**
   Two pairs of readings, the second of each taken when the horizon of the first is due, whose
   improvement is recorded with the wrong sign: a crash and a surge.
   */
  lemma ImprovementsCanOverflow(h: U64)
    ensures var due, top := SatAddU64(1, h), I64_MAX / 2;
      && Shown(top, 1).Some? && Shown(1, 1).Some? && Shown(top, due).Some? && Shown(1, due).Some?
      && DueAt(Shown(top, 1).value.NewPoint(), h) <= due && DueAt(Shown(1, 1).value.NewPoint(), h) <= due
      && var crash := RecordAt(Shown(1, due).value.At(), Shown(top, 1).value.NewPoint(), h);
         var surge := RecordAt(Shown(top, due).value.At(), Shown(1, 1).value.NewPoint(), h);
      && crash.residualStartBps == I64_MAX && crash.residualEndBps == -5_000
      && crash.signedImprovementBps < 0 && ExactImprovement(I64_MAX, -5_000) == I64_MAX + 5_000
      && surge.residualStartBps == -5_000 && surge.residualEndBps == I64_MAX
      && surge.signedImprovementBps < 0 && ExactImprovement(-5_000, I64_MAX) == I64_MAX + 5_000
  {
    var due, top := SatAddU64(1, h), I64_MAX / 2;
    ShownIsRead(top, 1);
    ShownIsRead(1, 1);
    ShownIsRead(top, due);
    ShownIsRead(1, due);
    hide Shown;
    assert BasisBps(1, 2) == -5_000 && BasisBps(top, 2) == I64_MAX;
  }

  class EvidenceAccumulator {
    var horizons: seq<U64>
    var minAbsResidualBps: I64
    var maxPendingPointsPerSymbol: nat
    var quotes: map<string, Quote>
    var pending: Queues
    var lastAnchors: map<string, Anchor>
    var observations: U64
    var eligibleObservations: U64
    var anchorIntegrityViolations: U64
    var stats: map<U64, Stat>
    ghost var ledger: Ledger
    ghost var seen: seq<Sight>

    function Cap(): nat
      reads this
    {
      Max(maxPendingPointsPerSymbol, 1)
    }

    ghost predicate Valid()
      reads this
    {
      Queued() && SumsMatch(stats, ledger.emitted) && Remembers()
    }

    /** Quotes, anchors and counters are those of everything seen so far. */
    ghost predicate Remembers()
      reads this
    {
      && QuotesFollow(quotes, seen) && AnchorsFollow(lastAnchors, anchorIntegrityViolations, seen)
      && observations == Saturate(CountEvents(seen))
    }

    /** The queues after the point of a reading has been added, if its residual is large enough. */
    function Queueing(queues: Queues, x: Reading): Queues
      reads this
    {
      if AbsI64(x.Residual()) < minAbsResidualBps then queues
      else queues[x.symbol := Trim(Cap(), QueueOf(queues, x.symbol) + [x.NewPoint()])]
    }

    /** The points that the arrival of one more point of a symbol pushes out. */
    ghost function Pushed(l: Ledger, symbol: string): set<nat>
      reads this
    {
      CutSerials(SerialsOf(l, symbol) + [|l.born|], Cap())
    }

    /** Everything but the running sums, which are brought up to date last. */
    ghost predicate Queued()
      reads this
    {
      && horizons != [] && Balanced(horizons, pending, ledger) && OnlyCapEvicts(ledger, Cap())
      && eligibleObservations == Min(|ledger.born|, U64_MAX)
      && forall s :: s in pending ==> |pending[s]| <= Cap()
    }

    constructor (horizonsMs: seq<U64>, minAbs: I64, maxPending: nat)
      ensures Valid() && ledger == Ledger([], map[], [], map[]) && seen == []
      ensures StrictlyAscending(horizons)
      ensures forall h :: h in horizons <==> h in horizonsMs || (horizonsMs == [] && h == 1_000)
      ensures minAbsResidualBps == minAbs && maxPendingPointsPerSymbol == maxPending
    {
      hide Balanced, SumsMatch;
      var normalized := SortDedup(horizonsMs);
      assert forall h :: h in normalized <==> h in horizonsMs;
      if normalized == [] {
        normalized := [1_000];
      }
      horizons, minAbsResidualBps, maxPendingPointsPerSymbol := normalized, minAbs, maxPending;
      quotes, pending, lastAnchors, stats := map[], map[], map[], map[];
      observations, eligibleObservations, anchorIntegrityViolations := 0, 0, 0;
      ledger, seen := Ledger([], map[], [], map[]), [];
      new;
      NothingIsBalanced(horizons, ledger);
      NothingIsSummed(stats, ledger.emitted);
    }

    method Observe(event: MarketEvent, receivedAtMs: U64, anchors: map<string, Anchor>)
      returns (output: seq<EvidenceRecord>)
      requires Valid()
      modifies this
      ensures Valid()
      ensures horizons == old(horizons) && minAbsResidualBps == old(minAbsResidualBps)
      ensures maxPendingPointsPerSymbol == old(maxPendingPointsPerSymbol)
      ensures seen == old(seen) + [Sight(event, anchors)]
      ensures quotes == if event.OtherEvent? then old(quotes) else QuotesAfter(old(quotes), event)
      ensures (lastAnchors, anchorIntegrityViolations)
           == AnchorsAfter(old(lastAnchors), old(anchorIntegrityViolations), event, anchors)
      ensures observations == if event.OtherEvent? then old(observations) else SatAddU64(old(observations), 1)
      ensures old(ledger.emitted) <= ledger.emitted
      ensures match ReadingOf(quotes, event, receivedAtMs, anchors)
        case None =>
          && (event.OtherEvent? || !Readable(seen, Text.ToAsciiUpper(event.symbol), anchors))
          && output == [] && ledger == old(ledger) && pending == old(pending)
        case Some(x) =>
          && !event.OtherEvent? && Readable(seen, Text.ToAsciiUpper(event.symbol), anchors)
          && Reads(x, seen, event, receivedAtMs, anchors)
          && Takes(x.NewPoint(), x) && x.NewPoint().residualBps == x.Residual()
          && MatchesRecords(ledger.emitted[|old(ledger.emitted)|..], output)
          && Sound(ledger.born, ledger.emitted[|old(ledger.emitted)|..], x.At())
          && AllServed(horizons, QueueOf(pending, x.symbol), x.now)
          && ledger.born == old(ledger.born)
             + (if AbsI64(x.Residual()) < minAbsResidualBps then [] else [x.NewPoint()])
          && (pending, output) == Flushed(horizons, Queueing(old(pending), x), x.At())
          && ledger.evicted.Keys == old(ledger.evicted.Keys)
             + (if AbsI64(x.Residual()) < minAbsResidualBps then {} else Pushed(old(ledger), x.symbol))
    {
      hide Balanced, OnlyCapEvicts, SumsMatch, AllServed, Sound, MatchesRecords, ReadingOf, QuotesAfter;
      hide CutSerials, QuotesFollow, AnchorsFollow, AnchorsAfter, Readable, Reads, Flushed, BasisBps, Takes;
      var reading := Read(event, receivedAtMs, anchors);
      if reading.None? {
        return [];
      }
      PointIsTaken(reading.value);
      output := Respond(reading.value);
    }

    /** The part that queues a point for a large residual and flushes what is due. */
    method Respond(x: Reading) returns (output: seq<EvidenceRecord>)
      requires Valid()
      modifies this`pending, this`ledger, this`stats, this`eligibleObservations
      ensures Valid() && old(ledger.emitted) <= ledger.emitted
      ensures
        && MatchesRecords(ledger.emitted[|old(ledger.emitted)|..], output)
        && Sound(ledger.born, ledger.emitted[|old(ledger.emitted)|..], x.At())
        && AllServed(horizons, QueueOf(pending, x.symbol), x.now)
        && ledger.born == old(ledger.born)
           + (if AbsI64(x.Residual()) < minAbsResidualBps then [] else [x.NewPoint()])
        && (pending, output) == Flushed(horizons, Queueing(old(pending), x), x.At())
        && ledger.evicted.Keys == old(ledger.evicted.Keys)
           + (if AbsI64(x.Residual()) < minAbsResidualBps then {} else Pushed(old(ledger), x.symbol))
    {
      hide Balanced, SumsMatch, AllServed, Sound, MatchesRecords, BasisBps, Flushed;
      hide OnlyCapEvicts, CutSerials, QuotesFollow, AnchorsFollow;
      if AbsI64(x.Residual()) >= minAbsResidualBps {
        Enqueue(x.symbol, x.NewPoint());
      }
      output := FlushDue(x.At());
    }

    /**
     The part of an observation that keeps quotes, anchors and counters and looks for a reading.
     There is one exactly if the symbol has an anchor, a book and an index that are all positive.
     */
    method Read(event: MarketEvent, receivedAtMs: U64, anchors: map<string, Anchor>)
      returns (reading: Option<Reading>)
      requires Remembers()
      modifies this`quotes, this`observations, this`lastAnchors, this`anchorIntegrityViolations, this`seen
      ensures Remembers() && seen == old(seen) + [Sight(event, anchors)]
      ensures reading.Some? <==> !event.OtherEvent? && Readable(seen, Text.ToAsciiUpper(event.symbol), anchors)
      ensures reading.Some? ==> Reads(reading.value, seen, event, receivedAtMs, anchors)
      ensures reading == ReadingOf(quotes, event, receivedAtMs, anchors)
      ensures quotes == if event.OtherEvent? then old(quotes) else QuotesAfter(old(quotes), event)
      ensures (lastAnchors, anchorIntegrityViolations)
           == AnchorsAfter(old(lastAnchors), old(anchorIntegrityViolations), event, anchors)
      ensures observations == if event.OtherEvent? then old(observations) else SatAddU64(old(observations), 1)
      ensures forall s :: QuoteIn(old(quotes), s).eventTimeMs <= QuoteIn(quotes, s).eventTimeMs
      ensures forall s :: !Sight(event, anchors).Shows(s) ==> QuoteIn(quotes, s) == QuoteIn(old(quotes), s)
    {
      hide QuotesFollow, AnchorsFollow, Readable, Reads, QuotesAfter, ReadingFrom;
      ghost var sight := Sight(event, anchors);
      ghost var after := if event.OtherEvent? then quotes else QuotesAfter(quotes, event);
      QuotesKeepUp(quotes, seen, sight);
      AnchorsKeepUp(lastAnchors, anchorIntegrityViolations, seen, sight);
      ReadingMeans(after, seen + [sight], event, receivedAtMs, anchors);
      if !event.OtherEvent? {
        OneQuoteChanges(quotes, event);
      }
      CountOneMore(seen, sight);
      seen := seen + [sight];
      if event.OtherEvent? {
        return None;
      }
      UpdateQuote(event);
      var symbol := Text.ToAsciiUpper(event.symbol);
      observations := SatAddU64(observations, 1);
      if symbol !in anchors {
        return None;
      }
      NoteAnchor(symbol, anchors[symbol]);
      reading := Find(symbol, TimeOf(event, receivedAtMs), anchors[symbol]);
    }

    /** Notes the anchor of a symbol, and whether it has changed its price without changing its time. */
    method NoteAnchor(symbol: string, anchor: Anchor)
      modifies this`lastAnchors, this`anchorIntegrityViolations
      ensures lastAnchors == old(lastAnchors)[symbol := anchor]
      ensures anchorIntegrityViolations == SatAddU64(old(anchorIntegrityViolations),
        if && symbol in old(lastAnchors)
           && old(lastAnchors)[symbol].observedAtMs == anchor.observedAtMs
           && old(lastAnchors)[symbol].closePriceTicks != anchor.closePriceTicks then 1 else 0)
    {
      if symbol in lastAnchors
        && lastAnchors[symbol].observedAtMs == anchor.observedAtMs
        && lastAnchors[symbol].closePriceTicks != anchor.closePriceTicks
      {
        anchorIntegrityViolations := SatAddU64(anchorIntegrityViolations, 1);
      }
      lastAnchors := lastAnchors[symbol := anchor];
    }

    /** Looks for a reading in the quote of a symbol. */
    method Find(symbol: string, now: U64, anchor: Anchor) returns (reading: Option<Reading>)
      ensures reading == ReadingFrom(quotes, symbol, now, anchor)
    {
      if symbol !in quotes {
        return None;
      }
      var quote := quotes[symbol];
      if quote.bid.None? || quote.ask.None? || quote.index.None? {
        return None;
      }
      var price := TruncDiv(SatAddI64(quote.bid.value, quote.ask.value), 2);
      if price <= 0 || anchor.closePriceTicks <= 0 || quote.index.value <= 0 {
        return None;
      }
      reading := Some(Reading(symbol, now, price, quote.index.value, anchor));
    }

    /** `update_book` and `update_mark`: the fields of one quote, with a time that never falls. */
    method UpdateQuote(event: MarketEvent)
      requires !event.OtherEvent?
      modifies this`quotes
      ensures quotes == QuotesAfter(old(quotes), event)
    {
      var symbol := Text.ToAsciiUpper(event.symbol);
      if symbol !in quotes {
        quotes := quotes[symbol := Quote(None, None, None, 0)];
      }
      var quote := quotes[symbol];
      match event {
        case BookTicker(_, bid, ask, _) => quote := quote.(bid := Some(bid), ask := Some(ask));
        case MarkPrice(_, index, _) => quote := quote.(index := Some(index));
      }
      quotes := quotes[symbol := quote.(eventTimeMs := Max(quote.eventTimeMs, event.eventTimeMs))];
    }

    static lemma CountOneMore(seen: seq<Sight>, x: Sight)
      ensures CountEvents(seen + [x]) == CountEvents(seen) + if x.event.OtherEvent? then 0 else 1
    {
      assert (seen + [x])[..|seen|] == seen;
    }

    /** One row for each horizon; its figures are those of every record ever returned for it. */
    method Summary() returns (state: EvidenceState, rows: seq<HorizonSummary>)
      requires Valid()
      ensures |rows| == |horizons|
      ensures forall i :: 0 <= i < |rows| ==>
        var h, es := horizons[i], ledger.emitted;
        && rows[i].horizonMs == h
        && rows[i].improved <= rows[i].samples == Saturate(CountFor(es, h))
        && rows[i].improved == Saturate(SumFor(es, h, Improved))
        && rows[i].meanSignedImprovementBps == MeanOf(SumFor(es, h, Signed), Saturate(CountFor(es, h)))
        && rows[i].meanPriceIndexChangeBps == MeanOf(SumFor(es, h, PriceIndex), Saturate(CountFor(es, h)))
        && rows[i].meanIndexAnchorChangeBps == MeanOf(SumFor(es, h, IndexAnchor), Saturate(CountFor(es, h)))
      ensures state.NoData? <==> observations == 0
      ensures state.Eligible? <==> observations > 0 && ledger.born != []
    {
      hide Balanced, MeanOf;
      rows := [];
      for i := 0 to |horizons|
        invariant |rows| == i
        invariant forall k :: 0 <= k < i ==> rows[k] == RowOf(horizons[k], StatOf(stats, horizons[k]))
      {
        rows := rows + [RowOf(horizons[i], StatOf(stats, horizons[i]))];
      }
      forall i | 0 <= i < |rows| ensures Sums(StatOf(stats, horizons[i]), ledger.emitted, horizons[i])
        && rows[i].improved <= rows[i].samples == Saturate(CountFor(ledger.emitted, horizons[i]))
      {
        ImprovedIsAtMostSamples(StatOf(stats, horizons[i]), ledger.emitted, horizons[i]);
      }
      state := if observations == 0 then NoData else if eligibleObservations == 0 then Observed else Eligible;
    }

    /**
     The account of a horizon: the eligible observations are its samples, the queued points that
     still lack it and the points that the cap pushed out before they had served it.
     */
    lemma AccountAddsUp(h: U64)
      requires Valid() && h in horizons
      ensures forall s :: s in pending ==> s in ledger.serials && |pending[s]| == |ledger.serials[s]|
      ensures var served := CountFor(ledger.emitted, h);
        && StatOf(stats, h).samples == Saturate(served)
        && |ledger.born| == served + |Waiting(h)| + |LostSerials(ledger, Cap(), h)|
        && eligibleObservations == Saturate(served + |Waiting(h)| + |LostSerials(ledger, Cap(), h)|)
      ensures eligibleObservations < U64_MAX ==>
        eligibleObservations == StatOf(stats, h).samples + |Waiting(h)| + |LostSerials(ledger, Cap(), h)|
    {
      EvidenceIsConserved(horizons, pending, ledger, Cap(), h);
      CountsAreNatural(ledger.emitted, h);
      assert Sums(StatOf(stats, h), ledger.emitted, h);
      hide Balanced, OnlyCapEvicts, SumsMatch, CountFor, LostSerials, WaitingSerials;
    }

    /** The queued points that still lack a horizon. */
    ghost function Waiting(h: U64): set<nat>
      requires Valid()
      reads this
    {
      QueuesMatch(horizons, pending, ledger);
      WaitingSerials(pending, ledger, h)
    }

    static function RowOf(h: U64, t: Stat): HorizonSummary
    {
      HorizonSummary(
        h, t.samples, t.improved,
        MeanOf(t.signed, t.samples), MeanOf(t.priceIndex, t.samples), MeanOf(t.indexAnchor, t.samples))
    }

    /** Appends a point and drops the oldest ones beyond the cap. */
    method Enqueue(symbol: string, point: Point)
      requires Valid() && point.done == [] && point.episode.symbol == symbol
      modifies this`pending, this`ledger, this`eligibleObservations
      ensures Valid()
      ensures ledger.born == old(ledger.born) + [point] && ledger.emitted == old(ledger.emitted)
      ensures ledger.evicted.Keys == old(ledger.evicted.Keys) + Pushed(old(ledger), symbol)
      ensures forall n :: n in old(ledger.evicted) ==> ledger.evicted[n] == old(ledger.evicted)[n]
      ensures pending == old(pending)[symbol := Trim(Cap(), QueueOf(old(pending), symbol) + [point])]
      ensures var most := if maxPendingPointsPerSymbol > 1 then maxPendingPointsPerSymbol else 1;
        |pending[symbol]| == Min(|QueueOf(old(pending), symbol)| + 1, most) && point in pending[symbol]
    {
      hide Balanced, SumsMatch, Trim, OnlyCapEvicts, CutSerials;
      TrimLeaves(Cap(), QueueOf(pending, symbol) + [point]);
      eligibleObservations := SatAddU64(eligibleObservations, 1);
      var queue := QueueOf(pending, symbol) + [point];
      ghost var trimmed := EnqueueBalances(horizons, pending, ledger, symbol, point, Cap());
      queue := DropOldest(queue, Cap());
      pending := pending[symbol := queue];
      ledger := trimmed;
    }

    static lemma TrimLeaves(cap: nat, q: seq<Point>)
      requires cap > 0 && q != []
      ensures |Trim(cap, q)| == Min(|q|, cap) && q[|q| - 1] in Trim(cap, q)
    {
      var left := Trim(cap, q);
      assert left[|left| - 1] == q[|q| - 1];
    }

    static lemma EnqueueBalances(hs: seq<U64>, q: Queues, l: Ledger, s: string, p: Point, cap: nat)
      returns (m: Ledger)
      requires Balanced(hs, q, l) && OnlyCapEvicts(l, cap) && p.done == [] && p.episode.symbol == s
      ensures Balanced(hs, q[s := Trim(cap, QueueOf(q, s) + [p])], m) && OnlyCapEvicts(m, cap)
      ensures Trimmed(Push(l, s, p), m, s, cap)
    {
      hide Balanced, OnlyCapEvicts, Trim, Trimmed;
      PushBalances(hs, q, l, s, p);
      PushEvictsNothing(l, s, p, cap);
      var pushed := q[s := QueueOf(q, s) + [p]];
      m := TrimBalances(hs, pushed, Push(l, s, p), s, cap);
      assert pushed[s := Trim(cap, pushed[s])] == q[s := Trim(cap, pushed[s])];
      TrimEvictsByCap(Push(l, s, p), m, s, cap);
    }

    static method DropOldest(queue: seq<Point>, cap: nat) returns (r: seq<Point>)
      ensures r == Trim(cap, queue)
    {
      r := queue;
      while |r| > cap
        invariant Trim(cap, r) == Trim(cap, queue)
      {
        r := r[1..];
      }
    }

    static method DropComplete(queue: seq<Point>, count: nat) returns (r: seq<Point>)
      ensures r == Retire(count, queue)
    {
      r := queue;
      while r != [] && |r[0].done| == count
        invariant Retire(count, r) == Retire(count, queue)
        decreases |r|
      {
        r := r[1..];
      }
    }

    /** Emits every due record of a symbol, then retires the points at the front that are complete. */
    method FlushDue(x: Tick) returns (output: seq<EvidenceRecord>)
      requires Valid()
      modifies this`pending, this`ledger, this`stats
      ensures Valid()
      ensures ledger.born == old(ledger.born) && old(ledger.emitted) <= ledger.emitted
      ensures MatchesRecords(ledger.emitted[|old(ledger.emitted)|..], output)
      ensures Sound(ledger.born, ledger.emitted[|old(ledger.emitted)|..], x)
      ensures AllServed(horizons, QueueOf(pending, x.symbol), x.now)
      ensures (pending, output) == Flushed(horizons, old(pending), x)
      ensures ledger.evicted == old(ledger.evicted)
    {
      hide Balanced, SumsMatch, AllServed, Sound, MatchesRecords, OnlyCapEvicts, InOrder;
      output := [];
      var updates: map<U64, Stat> := map[];
      ghost var es: seq<Emission> := [];
      if x.symbol in pending {
        var queue := pending[x.symbol];
        ghost var after;
        after, es := FlushBalances(horizons, pending, ledger, x);
        FlushEvictsNothing(horizons, pending, ledger, x, Cap());
        FlushServesAll(horizons, queue, x);
        FlushShrinks(horizons, queue, x);
        queue, output, updates := ServeDue(x, queue);
        queue := DropComplete(queue, |horizons|);
        pending := pending[x.symbol := queue];
        ledger := after;
      } else {
        NothingFlushed(ledger, horizons, x);
      }
      FlushSums(stats, old(ledger.emitted), es, output);
      assert ledger.emitted == old(ledger.emitted) + es;
      assert ledger.emitted[|old(ledger.emitted)|..] == es;
      MergeUpdates(updates);
    }

    static lemma NothingFlushed(l: Ledger, hs: seq<U64>, x: Tick)
      ensures MatchesRecords([], []) && Sound(l.born, [], x) && AllServed(hs, [], x.now)
      ensures l.emitted == l.emitted + []
    {
    }

    /** The nested loops over the points of a queue and the horizons. */
    method ServeDue(x: Tick, queue: seq<Point>)
      returns (served: seq<Point>, output: seq<EvidenceRecord>, updates: map<U64, Stat>)
      ensures (served, output) == ServeQueue(horizons, queue, x)
      ensures updates == Gather(map[], output)
    {
      served, output, updates := [], [], map[];
      for i := 0 to |queue|
        invariant served + ServeQueue(horizons, queue[i..], x).0 == ServeQueue(horizons, queue, x).0
        invariant output + ServeQueue(horizons, queue[i..], x).1 == ServeQueue(horizons, queue, x).1
        invariant updates == Gather(map[], output)
      {
        assert queue[i..][1..] == queue[i + 1..];
        ghost var rest := ServeQueue(horizons, queue[i + 1..], x);
        var point, records;
        point, records, updates := ServeOne(x, queue[i], output, updates);
        assert served + ([point] + rest.0) == (served + [point]) + rest.0;
        assert output + (records + rest.1) == (output + records) + rest.1;
        served, output := served + [point], output + records;
      }
      assert queue[|queue|..] == [];
      assert served + [] == served && output + [] == output;
    }

    method ServeOne(x: Tick, start: Point, ghost before: seq<EvidenceRecord>, sums: map<U64, Stat>)
      returns (point: Point, records: seq<EvidenceRecord>, updates: map<U64, Stat>)
      requires sums == Gather(map[], before)
      ensures (point, records) == ServePoint(horizons, start, x)
      ensures updates == Gather(map[], before + records)
    {
      hide RecordAt, IsDue, AddRecord, StatOf;
      point, records, updates := start, [], sums;
      assert before + [] == before;
      for j := 0 to |horizons|
        invariant ServePoint(horizons[j..], point, x).0 == ServePoint(horizons, start, x).0
        invariant records + ServePoint(horizons[j..], point, x).1 == ServePoint(horizons, start, x).1
        invariant updates == Gather(map[], before + records)
      {
        assert horizons[j..][1..] == horizons[j + 1..];
        var horizon := horizons[j];
        if IsDue(point, horizon, x) {
          var record := RecordAt(x, point, horizon);
          RecordHorizon(x, point, horizon);
          var done := point.(done := point.done + [horizon]);
          ghost var rest := ServePoint(horizons[j + 1..], done, x).1;
          assert records + ([record] + rest) == (records + [record]) + rest;
          assert (before + (records + [record]))[..|before + records|] == before + records;
          updates := updates[horizon := AddRecord(StatOf(updates, horizon), record)];
          records := records + [record];
          point := done;
        }
      }
      assert horizons[|horizons|..] == [];
      assert records + [] == records;
    }

    /** Adds the sums of one flush to the running sums, horizon by horizon. */
    method MergeUpdates(updates: map<U64, Stat>)
      modifies this`stats
      ensures stats == MergeAll(old(stats), updates)
    {
      ghost var start := stats;
      var rest := updates.Keys;
      while rest != {}
        invariant rest <= updates.Keys
        invariant PartlyMerged(stats, start, updates, rest)
      {
        var h :| h in rest;
        rest := rest - {h};
        stats := stats[h := Merge(StatOf(stats, h), updates[h])];
      }
    }

    /** The horizons of `updates` outside `rest` have been merged, the others not yet. */
    static ghost predicate PartlyMerged(
      stats: map<U64, Stat>, start: map<U64, Stat>, updates: map<U64, Stat>, rest: set<U64>)
    {
      && stats.Keys == start.Keys + (updates.Keys - rest)
      && forall h :: h in stats ==>
           stats[h] == if h in updates && h !in rest then Merge(StatOf(start, h), updates[h]) else start[h]
    }
  }
}
