/** The local order book whose fields the operations change in place. */
module LocalBook {
  import opened Machine
  import opened Outcomes
  import opened OrderBook
  import opened BookProgress

  ghost predicate IsHighest(m: Levels, price: I64)
  {
    price in m && forall p :: p in m ==> p <= price
  }

  ghost predicate IsLowest(m: Levels, price: I64)
  {
    price in m && forall p :: p in m ==> price <= p
  }

  /** `iter().next_back()` of a sorted map: its greatest key. */
  method LastKey(m: Levels) returns (best: Option<I64>)
    ensures best.None? <==> m == map[]
    ensures best.Some? ==> IsHighest(m, best.value)
  {
    best := None;
    var rest := m.Keys;
    while rest != {}
      invariant rest <= m.Keys
      invariant best.None? ==> rest == m.Keys
      invariant best.Some? ==> best.value in m && forall p :: p in m ==> p in rest || p <= best.value
    {
      var p :| p in rest;
      rest := rest - {p};
      if best.None? || p > best.value {
        best := Some(p);
      }
    }
  }

  /** `iter().next()` of a sorted map: its least key. */
  method FirstKey(m: Levels) returns (best: Option<I64>)
    ensures best.None? <==> m == map[]
    ensures best.Some? ==> IsLowest(m, best.value)
  {
    best := None;
    var rest := m.Keys;
    while rest != {}
      invariant rest <= m.Keys
      invariant best.None? ==> rest == m.Keys
      invariant best.Some? ==> best.value in m && forall p :: p in m ==> p in rest || best.value <= p
    {
      var p :| p in rest;
      rest := rest - {p};
      if best.None? || p < best.value {
        best := Some(p);
      }
    }
  }

  /** Comparing the two best prices decides whether any bid reaches any ask. */
  method ValidateCrossed(bids: Levels, asks: Levels) returns (r: Outcome<BookError>)
    ensures r == if Crossed(bids, asks) then Fail(CrossedBook) else Pass
  {
    var bid := LastKey(bids);
    var ask := FirstKey(asks);
    if bid.Some? && ask.Some? && bid.value >= ask.value {
      return Fail(CrossedBook);
    }
    r := Pass;
  }

  class LocalOrderBook {
    var bids: Levels
    var asks: Levels
    var lastUpdateId: Option<U64>
    var valid: bool
    var awaitingFirstDiff: bool

    ghost function Value(): Book
      reads this
    {
      Book(bids, asks, lastUpdateId, valid, awaitingFirstDiff)
    }

    constructor ()
      ensures Value() == EMPTY
    {
      bids, asks, lastUpdateId, valid, awaitingFirstDiff := map[], map[], None, false, false;
    }

    method WriteBids(ls: seq<Level>) returns (ok: bool)
      modifies this`bids
      ensures (bids, ok) == PutAll(old(bids), ls)
    {
      for i := 0 to |ls|
        invariant PutAll(bids, ls[i..]) == PutAll(old(bids), ls)
      {
        assert ls[i..][1..] == ls[i + 1..];
        if !LevelOk(ls[i]) {
          return false;
        }
        bids := Put(bids, ls[i]);
      }
      ok := true;
    }

    method WriteAsks(ls: seq<Level>) returns (ok: bool)
      modifies this`asks
      ensures (asks, ok) == PutAll(old(asks), ls)
    {
      for i := 0 to |ls|
        invariant PutAll(asks, ls[i..]) == PutAll(old(asks), ls)
      {
        assert ls[i..][1..] == ls[i + 1..];
        if !LevelOk(ls[i]) {
          return false;
        }
        asks := Put(asks, ls[i]);
      }
      ok := true;
    }

    method LoadSnapshot(id: U64, bidLevels: seq<Level>, askLevels: seq<Level>) returns (r: Outcome<BookError>)
      modifies this
      ensures (Value(), r) == OrderBook.LoadSnapshot(old(Value()), id, bidLevels, askLevels)
      ensures r.Pass? <==> SnapshotOk(bidLevels, askLevels)
      ensures r.Pass? ==>
        && valid && awaitingFirstDiff && lastUpdateId == Some(id)
        && Amended(EMPTY, bidLevels, askLevels, Value())
      ensures r.Fail? ==> Value() == old(Value())
    {
      hide SnapshotOk, Amended;
      LoadingMeans(Value(), id, bidLevels, askLevels);
      var next := new LocalOrderBook();
      var okBids := next.WriteBids(bidLevels);
      if !okBids {
        return Fail(InvalidLevel);
      }
      var okAsks := next.WriteAsks(askLevels);
      if !okAsks {
        return Fail(InvalidLevel);
      }
      r := ValidateCrossed(next.bids, next.asks);
      if r.Fail? {
        return;
      }
      bids, asks := next.bids, next.asks;
      lastUpdateId, valid, awaitingFirstDiff := Some(id), true, true;
    }

    method ApplyBridge(u: DepthUpdate) returns (r: Outcome<BookError>)
      modifies this
      ensures (Value(), r) == OrderBook.ApplyBridge(old(Value()), u)
    {
      if lastUpdateId.None? {
        return Fail(SnapshotRequired);
      }
      if !Bridges(u, lastUpdateId.value) {
        valid := false;
        return Fail(GapAt(u, lastUpdateId.value));
      }
      var ok := WriteBids(u.bids);
      if !ok {
        return Fail(InvalidLevel);
      }
      ok := WriteAsks(u.asks);
      if !ok {
        return Fail(InvalidLevel);
      }
      r := ValidateCrossed(bids, asks);
      if r.Fail? {
        return;
      }
      lastUpdateId, awaitingFirstDiff := Some(u.finalId), false;
    }

    method ApplyDiff(u: DepthUpdate) returns (r: Result<Applied, BookError>)
      modifies this
      ensures (Value(), r) == OrderBook.ApplyDiff(old(Value()), u)
      ensures var b := old(Value());
        Sides(b) && b.valid && b.lastId.Some? ==>
          && (r == Ok(Applied.Applied) <==> Follows(u, b.lastId.value, b.awaiting) && Writable(b, u))
          && (r == Ok(Duplicate) <==> u.finalId <= b.lastId.value)
          && (r == Ok(Applied.Applied) ==>
                valid && lastUpdateId == Some(u.finalId) && Amended(b, u.bids, u.asks, Value()))
          && (r == Ok(Duplicate) ==> Value() == b)
    {
      hide Follows, Writable, Amended;
      if Sides(Value()) && valid && lastUpdateId.Some? {
        DiffVerdict(Value(), u);
      }
      if lastUpdateId.None? || !valid {
        return Err(SnapshotRequired);
      }
      var last := lastUpdateId.value;
      if u.finalId <= last {
        return Ok(Duplicate);
      }
      var sequenceOk := if awaitingFirstDiff then Bridges(u, last) else u.previousFinalId == Some(last);
      if !sequenceOk {
        valid := false;
        return Err(GapAt(u, last));
      }
      var ok := WriteBids(u.bids);
      if !ok {
        return Err(InvalidLevel);
      }
      ok := WriteAsks(u.asks);
      if !ok {
        return Err(InvalidLevel);
      }
      var crossed := ValidateCrossed(bids, asks);
      if crossed.Fail? {
        valid := false;
        return Err(crossed.error);
      }
      lastUpdateId, awaitingFirstDiff := Some(u.finalId), false;
      r := Ok(Applied.Applied);
    }

    method LoadSnapshotAndReplay(id: U64, bidLevels: seq<Level>, askLevels: seq<Level>, buffered: seq<DepthUpdate>)
      returns (r: Result<nat, BookError>)
      modifies this
      ensures (Value(), r) == LoadAndReplay(old(Value()), id, bidLevels, askLevels, buffered)
      ensures r.Ok? <==> exists i :: ReplayOk(id, bidLevels, askLevels, buffered, i)
      ensures forall i :: ReplayOk(id, bidLevels, askLevels, buffered, i) ==>
        IsBookOf(Value(), bidLevels, askLevels, Replayed(id, buffered, i))
    {
      hide ReplayOk, IsBookOf, Replayed;
      ReplaysSucceedExactly(Value(), id, bidLevels, askLevels, buffered);
      hide OrderBook.LoadSnapshot, OrderBook.ApplyBridge, OrderBook.ApplyDiff, Bridges;
      var outcome := LoadSnapshot(id, bidLevels, askLevels);
      if outcome.Fail? {
        return Err(outcome.error);
      }
      var first := FirstBridge(buffered, id);
      if first == |buffered| {
        valid := false;
        return Err(if buffered == [] then SequenceGap(SatAddU64(id, 1), 0, None) else GapAt(buffered[0], id));
      }
      outcome := ApplyBridge(buffered[first]);
      if outcome.Fail? {
        return Err(outcome.error);
      }
      var consumed := first + 1;
      ghost var bridged := Value();
      while consumed < |buffered|
        invariant first + 1 <= consumed <= |buffered|
        invariant ApplyAll(Value(), buffered[consumed..]).0 == ApplyAll(bridged, buffered[first + 1..]).0
        invariant ApplyAll(Value(), buffered[consumed..]).1.Ok? == ApplyAll(bridged, buffered[first + 1..]).1.Ok?
        invariant ApplyAll(bridged, buffered[first + 1..]).1.Err? ==>
          ApplyAll(Value(), buffered[consumed..]).1 == ApplyAll(bridged, buffered[first + 1..]).1
      {
        assert buffered[consumed..][1..] == buffered[consumed + 1..];
        var applied := ApplyDiff(buffered[consumed]);
        if applied.Err? {
          return Err(applied.error);
        }
        consumed := consumed + 1;
      }
      assert buffered[consumed..] == [];
      r := Ok(consumed);
    }

    method BestBid() returns (best: Option<(I64, I64)>)
      ensures best.None? <==> bids == map[]
      ensures best.Some? ==> IsHighest(bids, best.value.0) && bids[best.value.0] == best.value.1
    {
      var key := LastKey(bids);
      best := if key.None? then None else Some((key.value, bids[key.value]));
    }

    method BestAsk() returns (best: Option<(I64, I64)>)
      ensures best.None? <==> asks == map[]
      ensures best.Some? ==> IsLowest(asks, best.value.0) && asks[best.value.0] == best.value.1
    {
      var key := FirstKey(asks);
      best := if key.None? then None else Some((key.value, asks[key.value]));
    }

    method QuantityAt(bid: bool, price: I64) returns (quantity: I64)
      ensures quantity == QuantityIn(if bid then bids else asks, price)
    {
      var levels := if bid then bids else asks;
      quantity := if price in levels then levels[price] else 0;
    }
  }
}
