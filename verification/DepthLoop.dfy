/** The depth branches of the batch event loop, changing the loop's local state in place. */
module DepthLoop {
  import opened Machine
  import opened OrderBook
  import opened Outcomes
  import opened DepthResync
  import opened DepthViews
  import Text

  class EventLoop {
    var depthBooks: map<string, Book>
    var depthBuffers: map<string, seq<DepthUpdate>>
    var replayEvents: seq<DepthUpdate>
    var nextDepthResyncAt: map<string, U64>

    /** The symbols the loop was started for and everything it has reacted to since. */
    ghost const symbols: set<string>
    ghost var history: seq<Step>

    ghost function State(): Feed
      reads this
    {
      Feed(depthBooks, depthBuffers, replayEvents, nextDepthResyncAt)
    }

    /** The history as one symbol sees it. */
    ghost function Seen(s: string): Track
      reads this
    {
      FollowAll(Begin(symbols), s, history)
    }

    /** What its history makes of every symbol; nothing once it has stopped. */
    ghost function SoFar(): Option<Views>
      reads this
    {
      NextAll(Some(Waiting(symbols)), history)
    }

    /** Until it stops, the loop is where its history has led it. */
    ghost predicate Valid()
      reads this
    {
      forall s :: Seen(s).stopped || Seen(s).feed == State()
    }

    constructor (symbols: set<string>)
      ensures Valid() && State() == Start(symbols) && history == [] && this.symbols == symbols
    {
      depthBooks := map s | s in symbols :: EMPTY;
      depthBuffers := map s | s in symbols :: [];
      replayEvents, nextDepthResyncAt := [], map[];
      this.symbols, history := symbols, [];
    }

    /** What every symbol is promised at any time: the protocol invariant and an unbroken chain. */
    lemma KeepsTheProtocol(s: string)
      requires Valid()
      ensures Unbroken(Seen(s).base, Seen(s).chain, s)
      ensures !Seen(s).stopped ==>
        && FeedOk(State()) && AtTip(State(), s, Seen(s).base, Seen(s).chain)
        && RetryPending(State(), s, Seen(s).requestedAt)
      ensures InStep(Seen(s), SoFar()) && (SoFar().Some? ==> AllMatch(State(), SoFar().value))
    {
      ForwardedUpdatesFormAChain(symbols, s, history);
      TheLoopIsItsViews(symbols, s, history, Snapshot("", Unavailable, 0, true));
      assert Seen(s).stopped || Seen(s).feed == State();
    }

    /** The reaction to any step is the one that the history calls for. */
    lemma ReactsAsItShould(step: Step)
      requires Valid()
      ensures SoFar().Some? ==> React(State(), step).1 == Next(SoFar(), step).1
    {
      TheLoopIsItsViews(symbols, "", history, step);
      assert Seen("").stopped || Seen("").feed == State();
      hide React, Next, AllMatch;
    }

    /** A reaction takes the history one step on. */
    twostate lemma Reacted(step: Step)
      requires old(Valid()) && history == old(history) + [step]
      requires State() == React(old(State()), step).0
      ensures Valid()
    {
      forall s ensures Seen(s).stopped || Seen(s).feed == State() {
        FollowOneMore(Begin(symbols), s, old(history), step);
        assert old(Seen(s)).stopped || old(Seen(s)).feed == old(State());
      }
    }

    method HandleEvent(incoming: DepthUpdate, receivedAt: U64, queueFree: bool) returns (r: Reaction)
      requires Valid()
      modifies this
      ensures Valid() && history == old(history) + [Event(incoming, receivedAt, queueFree)]
      ensures (State(), r) == OnEvent(old(State()), incoming, receivedAt, queueFree)
      ensures old(SoFar()).Some? ==> r == Next(old(SoFar()), Event(incoming, receivedAt, queueFree)).1
    {
      ReactsAsItShould(Event(incoming, receivedAt, queueFree));
      hide Next, OnEvent;
      r := ApplyOrBuffer(incoming, receivedAt, queueFree);
      history := history + [Event(incoming, receivedAt, queueFree)];
      Reacted(Event(incoming, receivedAt, queueFree));
    }

    /** The depth branch itself. */
    method ApplyOrBuffer(incoming: DepthUpdate, receivedAt: U64, queueFree: bool) returns (r: Reaction)
      modifies this`depthBooks, this`depthBuffers, this`replayEvents, this`nextDepthResyncAt
      ensures (State(), r) == OnEvent(old(State()), incoming, receivedAt, queueFree)
    {
      var depth := incoming;
      if replayEvents != [] {
        depth := replayEvents[0];
        replayEvents := replayEvents[1..];
      }
      var symbol := Text.ToAsciiUpper(depth.symbol);
      if symbol !in depthBooks {
        return Stopped;
      }
      if !depthBooks[symbol].valid {
        if symbol !in depthBuffers || |depthBuffers[symbol]| >= BUFFER_LIMIT {
          return Stopped;
        }
        depthBuffers := depthBuffers[symbol := depthBuffers[symbol] + [depth]];
      } else {
        var applied := ApplyDiff(depthBooks[symbol], depth);
        depthBooks := depthBooks[symbol := applied.0];
        if applied.1.Ok? {
          return Forwarded(depth, applied.1.value);
        }
        if applied.1.error.Spoils() || symbol !in depthBuffers {
          return Stopped;
        }
        depthBuffers := depthBuffers[symbol := [depth]];
      }
      if symbol in nextDepthResyncAt && receivedAt < nextDepthResyncAt[symbol] {
        return Held;
      }
      nextDepthResyncAt := nextDepthResyncAt[symbol := SatAddU64(receivedAt, REQUEST_DELAY)];
      r := if queueFree then Requested else RequestDropped;
    }

    method HandleSnapshot(symbol: string, result: SnapshotResult, now: U64, ledgersAccept: bool)
      returns (r: Reaction)
      requires Valid()
      modifies this
      ensures Valid() && history == old(history) + [Snapshot(symbol, result, now, ledgersAccept)]
      ensures (State(), r) == OnSnapshot(old(State()), symbol, result, now, ledgersAccept)
      ensures old(SoFar()).Some? ==> r == Next(old(SoFar()), Snapshot(symbol, result, now, ledgersAccept)).1
    {
      ReactsAsItShould(Snapshot(symbol, result, now, ledgersAccept));
      hide Next, OnSnapshot;
      r := Resync(symbol, result, now, ledgersAccept);
      history := history + [Snapshot(symbol, result, now, ledgersAccept)];
      Reacted(Snapshot(symbol, result, now, ledgersAccept));
    }

    /** The depth-resync branch itself. */
    method Resync(symbol: string, result: SnapshotResult, now: U64, ledgersAccept: bool) returns (r: Reaction)
      modifies this`depthBooks, this`depthBuffers, this`replayEvents, this`nextDepthResyncAt
      ensures (State(), r) == OnSnapshot(old(State()), symbol, result, now, ledgersAccept)
    {
      if symbol in depthBooks && depthBooks[symbol].valid {
        return Ignored;
      }
      match result {
        case Unavailable =>
          nextDepthResyncAt := nextDepthResyncAt[symbol := SatAddU64(now, REQUEST_DELAY)];
          r := Retried;
        case Unparsable =>
          r := Stopped;
        case Fetched(id, bids, asks) =>
          if symbol !in depthBooks {
            return Stopped;
          }
          var buffered := if symbol in depthBuffers then depthBuffers[symbol] else [];
          var replay := LoadAndReplay(depthBooks[symbol], id, bids, asks, buffered);
          depthBooks := depthBooks[symbol := replay.0];
          var consumed := |buffered|;
          if replay.1.Ok? {
            consumed := replay.1.value;
          } else if !replay.1.error.SequenceGap? {
            return Stopped;
          } else if buffered != [] && buffered[|buffered| - 1].finalId <= id {
            var bare := LoadSnapshot(replay.0, id, bids, asks);
            depthBooks := depthBooks[symbol := bare.0];
            assert depthBooks == old(depthBooks)[symbol := bare.0];
            if bare.1.Fail? {
              return Stopped;
            }
          } else {
            if symbol in depthBuffers {
              depthBuffers := depthBuffers[symbol := []];
            }
            nextDepthResyncAt := nextDepthResyncAt[symbol := SatAddU64(now, GAP_DELAY)];
            return Discarded;
          }
          if !ledgersAccept {
            return Stopped;
          }
          if symbol in depthBuffers {
            DrainBuffer(symbol, consumed);
          }
          nextDepthResyncAt := nextDepthResyncAt - {symbol};
          r := Installed(id, consumed);
      }
    }

    /** Drops the consumed front of a buffer and queues the rest as events again. */
    method DrainBuffer(symbol: string, consumed: nat)
      requires symbol in depthBuffers
      modifies this`depthBuffers, this`replayEvents
      ensures var buffer := old(depthBuffers)[symbol];
        && depthBuffers == old(depthBuffers)[symbol := []]
        && replayEvents == old(replayEvents) + if consumed <= |buffer| then buffer[consumed..] else []
    {
      var buffer := depthBuffers[symbol];
      ghost var whole := buffer;
      for i := 0 to consumed
        invariant buffer == if i <= |whole| then whole[i..] else []
      {
        if buffer != [] {
          buffer := buffer[1..];
        }
      }
      replayEvents := replayEvents + buffer;
      depthBuffers := depthBuffers[symbol := []];
    }
  }
}
