/**
 The depth-book recovery protocol of the batch simulation: events are applied to the shared
 book of their symbol or buffered while it is halted, and snapshots arrive at any time.
 */
module DepthResync {
  import opened Machine
  import opened Outcomes
  import opened OrderBook
  import Text

  const BUFFER_LIMIT := 10_000
  const REQUEST_DELAY := 60_000
  const GAP_DELAY := 5_000

  /** The local state of the event loop. */
  datatype Feed = Feed(
    books: map<string, Book>,
    buffers: map<string, seq<DepthUpdate>>,
    replay: seq<DepthUpdate>,
    deadlines: map<string, U64>)

  datatype SnapshotResult =
    | Fetched(id: U64, bids: seq<Level>, asks: seq<Level>)
    | Unparsable
    | Unavailable

  datatype Reaction =
    | Forwarded(update: DepthUpdate, outcome: Applied)
    | Held
    | Requested
    | RequestDropped
    | Installed(snapshotId: U64, replayed: nat)
    | Discarded
    | Retried
    | Ignored
    | Stopped

  /** What the loop reacts to; clock readings and answers of unseen code are part of the step. */
  datatype Step =
    | Event(incoming: DepthUpdate, receivedAt: U64, queueFree: bool)
    | Snapshot(symbol: string, result: SnapshotResult, now: U64, ledgersAccept: bool)

  function Start(symbols: set<string>): Feed
  {
    Feed(map s | s in symbols :: EMPTY, map s | s in symbols :: [], [], map[])
  }

  function RequestResync(f: Feed, s: string, at: U64, queueFree: bool): (Feed, Reaction)
  {
    if s in f.deadlines && at < f.deadlines[s] then (f, Held)
    else
      (f.(deadlines := f.deadlines[s := SatAddU64(at, REQUEST_DELAY)]),
       if queueFree then Requested else RequestDropped)
  }

  /** The next event is the oldest re-injected one, or else the incoming one. */
  function OnEvent(f: Feed, incoming: DepthUpdate, at: U64, queueFree: bool): (Feed, Reaction)
  {
    var u := if f.replay != [] then f.replay[0] else incoming;
    var g := if f.replay != [] then f.(replay := f.replay[1..]) else f;
    var s := Text.ToAsciiUpper(u.symbol);
    if s !in g.books then (g, Stopped)
    else if !g.books[s].valid then
      if s !in g.buffers || |g.buffers[s]| >= BUFFER_LIMIT then (g, Stopped)
      else RequestResync(g.(buffers := g.buffers[s := g.buffers[s] + [u]]), s, at, queueFree)
    else
      var r := ApplyDiff(g.books[s], u);
      var h := g.(books := g.books[s := r.0]);
      match r.1
      case Ok(applied) => (h, Forwarded(u, applied))
      case Err(e) =>
        if e.Spoils() || s !in h.buffers then (h, Stopped)
        else RequestResync(h.(buffers := h.buffers[s := [u]]), s, at, queueFree)
  }

  /** Installs a replayed book: the consumed prefix leaves the buffer, the rest is re-injected. */
  function Install(f: Feed, s: string, book: Book, id: U64, consumed: nat, accept: bool): (Feed, Reaction)
  {
    var g := f.(books := f.books[s := book]);
    if !accept then (g, Stopped)
    else
      var buffered := BufferOf(f, s);
      var left := if consumed <= |buffered| then buffered[consumed..] else [];
      (Cleared(g, s).(replay := g.replay + left, deadlines := g.deadlines - {s}), Installed(id, consumed))
  }

  function BufferOf(f: Feed, s: string): seq<DepthUpdate> { if s in f.buffers then f.buffers[s] else [] }

  function Cleared(f: Feed, s: string): Feed
  {
    if s in f.buffers then f.(buffers := f.buffers[s := []]) else f
  }

  function OnSnapshot(f: Feed, s: string, result: SnapshotResult, now: U64, accept: bool): (Feed, Reaction)
  {
    if s in f.books && f.books[s].valid then (f, Ignored)
    else
      match result
      case Unavailable => (f.(deadlines := f.deadlines[s := SatAddU64(now, REQUEST_DELAY)]), Retried)
      case Unparsable => (f, Stopped)
      case Fetched(id, bids, asks) =>
        if s !in f.books then (f, Stopped)
        else
          var buffered := BufferOf(f, s);
          var r := LoadAndReplay(f.books[s], id, bids, asks, buffered);
          match r.1
          case Ok(consumed) => Install(f, s, r.0, id, consumed, accept)
          case Err(e) =>
            if !e.SequenceGap? then (f.(books := f.books[s := r.0]), Stopped)
            else if buffered != [] && buffered[|buffered| - 1].finalId <= id then
              var bare := LoadSnapshot(r.0, id, bids, asks);
              if bare.1.Fail? then (f.(books := f.books[s := bare.0]), Stopped)
              else Install(f, s, bare.0, id, |buffered|, accept)
            else
              (Cleared(f, s).(
                 books := f.books[s := r.0],
                 deadlines := f.deadlines[s := SatAddU64(now, GAP_DELAY)]), Discarded)
  }

  function React(f: Feed, step: Step): (Feed, Reaction)
  {
    match step
    case Event(u, at, free) => OnEvent(f, u, at, free)
    case Snapshot(s, result, now, accept) => OnSnapshot(f, s, result, now, accept)
  }

  // ---------------------------------------------------------------- what the feed keeps

  ghost predicate SoundBook(b: Book)
  {
    b.valid ==> b.lastId.Some? && !Crossed(b.bids, b.asks)
  }

  /** One symbol: a valid book has nothing buffered and no pending retry; the buffer is bounded and its own. */
  ghost predicate SymbolOk(s: string, book: Book, buffer: seq<DepthUpdate>, waiting: bool)
  {
    && SoundBook(book)
    && |buffer| <= BUFFER_LIMIT
    && (forall u :: u in buffer ==> Text.ToAsciiUpper(u.symbol) == s)
    && (book.valid ==> buffer == [] && !waiting)
  }

  ghost predicate FeedOk(f: Feed)
  {
    && f.books.Keys == f.buffers.Keys
    && f.replay == []
    && forall s :: s in f.books ==> SymbolOk(s, f.books[s], f.buffers[s], s in f.deadlines)
  }

  /** A step that touches one symbol leaves the others as they were. */
  lemma OthersAreKept(f: Feed, g: Feed, s: string)
    requires FeedOk(f) && s in f.books && g.replay == []
    requires s in g.books && g.books == f.books[s := g.books[s]]
    requires s in g.buffers && g.buffers == f.buffers[s := g.buffers[s]]
    requires forall x :: x != s ==> (x in g.deadlines <==> x in f.deadlines)
    requires SymbolOk(s, g.books[s], g.buffers[s], s in g.deadlines)
    ensures FeedOk(g)
  {
    forall x | x in g.books ensures SymbolOk(x, g.books[x], g.buffers[x], x in g.deadlines) {
      if x != s { assert SymbolOk(x, f.books[x], f.buffers[x], x in f.deadlines); }
    }
  }

  lemma DiffIsSound(b: Book, u: DepthUpdate)
    requires SoundBook(b) && b.valid
    ensures ApplyDiff(b, u).1.Ok? ==> SoundBook(ApplyDiff(b, u).0) && ApplyDiff(b, u).0.valid
    ensures ApplyDiff(b, u).1.Err? && !ApplyDiff(b, u).1.error.Spoils() ==>
      ApplyDiff(b, u).1.error.SequenceGap? && ApplyDiff(b, u).0 == b.(valid := false)
  {
  }

  lemma {:induction false} ApplyAllIsSound(b: Book, us: seq<DepthUpdate>)
    requires SoundBook(b) && b.valid
    ensures ApplyAll(b, us).1.Ok? ==> SoundBook(ApplyAll(b, us).0) && ApplyAll(b, us).0.valid
    ensures ApplyAll(b, us).1.Err? && !ApplyAll(b, us).1.error.Spoils() ==>
      ApplyAll(b, us).1.error.SequenceGap? && !ApplyAll(b, us).0.valid
    decreases us
  {
    if us != [] {
      DiffIsSound(b, us[0]);
      if ApplyDiff(b, us[0]).1.Ok? {
        ApplyAllIsSound(ApplyDiff(b, us[0]).0, us[1..]);
      }
    }
  }

  /** Replay either succeeds with a sound valid book, spoils the book, or ends halted at a gap. */
  lemma ReplayIsSound(b: Book, id: U64, bids: seq<Level>, asks: seq<Level>, us: seq<DepthUpdate>)
    ensures var r := LoadAndReplay(b, id, bids, asks, us);
      && (r.1.Ok? ==> r.1.value == |us| && SoundBook(r.0) && r.0.valid && !r.0.awaiting)
      && (r.1.Err? && !r.1.error.Spoils() ==>
            r.1.error.SequenceGap? && !r.0.valid && LoadSnapshot(r.0, id, bids, asks).1.Pass?)
  {
    var s := LoadSnapshot(b, id, bids, asks);
    var i := FirstBridge(us, id);
    if s.1.Pass? && i < |us| {
      var bridged := ApplyBridge(s.0, us[i]);
      if bridged.1.Pass? {
        ApplyAllIsSound(bridged.0, us[i + 1..]);
        ApplyAllKeepsAwaiting(bridged.0, us[i + 1..]);
      }
    }
  }

  lemma EventKeepsFeed(f: Feed, u: DepthUpdate, at: U64, free: bool)
    requires FeedOk(f) && !OnEvent(f, u, at, free).1.Stopped?
    ensures FeedOk(OnEvent(f, u, at, free).0)
  {
    var s := Text.ToAsciiUpper(u.symbol);
    var g := OnEvent(f, u, at, free).0;
    assert SymbolOk(s, f.books[s], f.buffers[s], s in f.deadlines);
    if f.books[s].valid {
      DiffIsSound(f.books[s], u);
      if g.books[s].valid {
        assert g.buffers == f.buffers[s := f.buffers[s]];
      }
    } else {
      assert g.books == f.books[s := f.books[s]];
    }
    OthersAreKept(f, g, s);
  }

  lemma SnapshotKeepsFeed(f: Feed, s: string, result: SnapshotResult, now: U64, accept: bool)
    requires FeedOk(f) && !OnSnapshot(f, s, result, now, accept).1.Stopped?
    ensures FeedOk(OnSnapshot(f, s, result, now, accept).0)
  {
    var g := OnSnapshot(f, s, result, now, accept).0;
    if s in f.books && !f.books[s].valid {
      assert SymbolOk(s, f.books[s], f.buffers[s], s in f.deadlines);
      if result.Fetched? {
        ReplayIsSound(f.books[s], result.id, result.bids, result.asks, f.buffers[s]);
      } else {
        assert g.books == f.books[s := f.books[s]] && g.buffers == f.buffers[s := f.buffers[s]];
      }
      OthersAreKept(f, g, s);
    }
  }

  // ---------------------------------------------------------------- every interleaving

  /** Where the forwarded chain of a symbol starts: the last id of the installed book, and
      whether that book still awaits its bridging update. */
  datatype Base = Base(lastId: U64, awaiting: bool)

  /**
   A run as seen from one symbol: the new updates forwarded to the ledgers since the last
   install, and the time of the last snapshot request that has not been answered.
   */
  datatype Track = Track(
    feed: Feed,
    stopped: bool,
    base: Option<Base>,
    chain: seq<DepthUpdate>,
    requestedAt: Option<U64>)

  function Begin(symbols: set<string>): Track
  {
    Track(Start(symbols), false, None, [], None)
  }

  function Follow(k: Track, s: string, step: Step): Track
  {
    if k.stopped then k
    else
      var r := React(k.feed, step);
      var next := k.(feed := r.0, stopped := r.1.Stopped?);
      match step
      case Snapshot(symbol, _, _, _) =>
        if symbol != s then next
        else if r.1.Installed? && s in r.0.books && r.0.books[s].lastId.Some? then
          next.(base := Some(Base(r.0.books[s].lastId.value, r.0.books[s].awaiting)), chain := [], requestedAt := None)
        else next.(requestedAt := None)
      case Event(u, at, _) =>
        if Text.ToAsciiUpper(u.symbol) != s then next
        else if r.1.Requested? || r.1.RequestDropped? then next.(requestedAt := Some(at))
        else if r.1.Forwarded? && r.1.outcome.Applied? then next.(chain := k.chain + [r.1.update])
        else next
  }

  function FollowAll(k: Track, s: string, steps: seq<Step>): Track
    decreases steps
  {
    if steps == [] then k else FollowAll(Follow(k, s, steps[0]), s, steps[1..])
  }

  ghost predicate Continues(base: Base, u: DepthUpdate)
  {
    && u.finalId > base.lastId
    && if base.awaiting then Bridges(u, base.lastId) else u.previousFinalId == Some(base.lastId)
  }

  /** The chain continues its base, and each update continues the one before it. */
  ghost predicate Unbroken(base: Option<Base>, chain: seq<DepthUpdate>, s: string)
  {
    && (forall i :: 0 <= i < |chain| ==> Text.ToAsciiUpper(chain[i].symbol) == s)
    && (chain != [] ==> base.Some? && Continues(base.value, chain[0]))
    && forall i :: 0 < i < |chain| ==> Continues(Base(chain[i - 1].finalId, false), chain[i])
  }

  function Tip(base: Base, chain: seq<DepthUpdate>): Base
  {
    if chain == [] then base else Base(chain[|chain| - 1].finalId, false)
  }

  /** A valid book stands exactly where its chain ends. */
  ghost predicate AtTip(f: Feed, s: string, base: Option<Base>, chain: seq<DepthUpdate>)
  {
    s in f.books && f.books[s].valid ==>
      && base.Some?
      && f.books[s].lastId == Some(Tip(base.value, chain).lastId)
      && f.books[s].awaiting == Tip(base.value, chain).awaiting
  }

  ghost predicate RetryPending(f: Feed, s: string, requestedAt: Option<U64>)
  {
    requestedAt.Some? ==>
      s in f.deadlines && f.deadlines[s] == SatAddU64(requestedAt.value, REQUEST_DELAY)
  }

  ghost predicate TrackOk(k: Track, s: string)
  {
    && Unbroken(k.base, k.chain, s)
    && (!k.stopped ==> FeedOk(k.feed) && AtTip(k.feed, s, k.base, k.chain) && RetryPending(k.feed, s, k.requestedAt))
  }

  lemma ChainGrows(base: Base, chain: seq<DepthUpdate>, s: string, u: DepthUpdate)
    requires Unbroken(Some(base), chain, s) && Continues(Tip(base, chain), u)
    requires Text.ToAsciiUpper(u.symbol) == s
    ensures Unbroken(Some(base), chain + [u], s) && Tip(base, chain + [u]) == Base(u.finalId, false)
  {
    var grown := chain + [u];
    forall i | 0 < i < |grown| ensures Continues(Base(grown[i - 1].finalId, false), grown[i]) {
      if i < |chain| { assert grown[i] == chain[i] && grown[i - 1] == chain[i - 1]; }
    }
  }

  /** What an event does to the symbol it belongs to. */
  lemma EventEffect(f: Feed, u: DepthUpdate, at: U64, free: bool)
    requires FeedOk(f) && !OnEvent(f, u, at, free).1.Stopped?
    ensures var s := Text.ToAsciiUpper(u.symbol);
      var r := OnEvent(f, u, at, free);
      && s in f.books && s in r.0.books
      && (r.1.Forwarded? && r.1.outcome.Applied? ==>
            && f.books[s].valid && f.books[s].lastId.Some? && r.1.update == u && r.0.deadlines == f.deadlines
            && Continues(Base(f.books[s].lastId.value, f.books[s].awaiting), u)
            && r.0.books[s].lastId == Some(u.finalId) && !r.0.books[s].awaiting)
      && (r.1.Forwarded? && r.1.outcome.Duplicate? ==> r.0.books[s] == f.books[s] && r.0.deadlines == f.deadlines)
      && (r.1.Held? ==> !r.0.books[s].valid && r.0.deadlines == f.deadlines)
      && (r.1.Requested? || r.1.RequestDropped? ==>
            !r.0.books[s].valid && r.0.deadlines == f.deadlines[s := SatAddU64(at, REQUEST_DELAY)])
      && (r.1.Forwarded? || r.1.Held? || r.1.Requested? || r.1.RequestDropped?)
  {
    var s := Text.ToAsciiUpper(u.symbol);
    assert SymbolOk(s, f.books[s], f.buffers[s], s in f.deadlines);
    if f.books[s].valid {
      DiffIsSound(f.books[s], u);
    }
  }

  lemma EventLeavesOthers(f: Feed, u: DepthUpdate, at: U64, free: bool, s: string)
    requires FeedOk(f) && s != Text.ToAsciiUpper(u.symbol)
    ensures var g := OnEvent(f, u, at, free).0;
      && (s in g.books <==> s in f.books) && (s in f.books ==> g.books[s] == f.books[s])
      && (s in g.deadlines <==> s in f.deadlines) && (s in f.deadlines ==> g.deadlines[s] == f.deadlines[s])
  {
  }

  lemma FollowEventIsOk(k: Track, s: string, u: DepthUpdate, at: U64, free: bool)
    requires TrackOk(k, s) && !k.stopped
    ensures TrackOk(Follow(k, s, Event(u, at, free)), s)
  {
    var r := OnEvent(k.feed, u, at, free);
    if !r.1.Stopped? {
      EventKeepsFeed(k.feed, u, at, free);
      if Text.ToAsciiUpper(u.symbol) != s {
        EventLeavesOthers(k.feed, u, at, free, s);
      } else {
        EventEffect(k.feed, u, at, free);
        if r.1.Forwarded? && r.1.outcome.Applied? {
          ChainGrows(k.base.value, k.chain, s, u);
        }
      }
    } else if Text.ToAsciiUpper(u.symbol) == s {
      assert Follow(k, s, Event(u, at, free)).chain == k.chain;
    }
  }

  /** What a snapshot answer does to its symbol, and that it leaves the others alone. */
  lemma SnapshotEffect(f: Feed, x: string, result: SnapshotResult, now: U64, accept: bool, s: string)
    requires FeedOk(f) && !OnSnapshot(f, x, result, now, accept).1.Stopped?
    ensures var r := OnSnapshot(f, x, result, now, accept);
      && (s in r.0.books <==> s in f.books)
      && (s != x && s in f.books ==> r.0.books[s] == f.books[s])
      && (s != x ==> (s in r.0.deadlines <==> s in f.deadlines))
      && (s != x && s in f.deadlines ==> r.0.deadlines[s] == f.deadlines[s])
      && (r.1.Installed? ==> x in r.0.books && r.0.books[x].valid && r.0.books[x].lastId.Some?)
      && (x in r.0.books && r.0.books[x].valid && !r.1.Installed? ==> r.0.books[x] == f.books[x])
  {
    if x in f.books {
      assert SymbolOk(x, f.books[x], f.buffers[x], x in f.deadlines);
      if result.Fetched? {
        ReplayIsSound(f.books[x], result.id, result.bids, result.asks, f.buffers[x]);
      }
    }
  }

  lemma FollowSnapshotIsOk(k: Track, s: string, step: Step)
    requires TrackOk(k, s) && !k.stopped && step.Snapshot?
    ensures TrackOk(Follow(k, s, step), s)
  {
    var r := React(k.feed, step);
    if !r.1.Stopped? {
      SnapshotKeepsFeed(k.feed, step.symbol, step.result, step.now, step.ledgersAccept);
      SnapshotEffect(k.feed, step.symbol, step.result, step.now, step.ledgersAccept, s);
    }
  }

  /**
   Over every interleaving of depth events and snapshot answers: a valid book has an empty
   buffer and no pending retry, the buffer never exceeds its limit, nothing is ever re-injected
   into the event stream, and the new updates forwarded since an install form an unbroken chain.
   */
  lemma {:induction false} EveryInterleavingIsOk(k: Track, s: string, steps: seq<Step>)
    requires TrackOk(k, s)
    ensures TrackOk(FollowAll(k, s, steps), s)
    decreases steps
  {
    if steps != [] {
      if !k.stopped {
        if steps[0].Event? {
          FollowEventIsOk(k, s, steps[0].incoming, steps[0].receivedAt, steps[0].queueFree);
        } else {
          FollowSnapshotIsOk(k, s, steps[0]);
        }
      }
      EveryInterleavingIsOk(Follow(k, s, steps[0]), s, steps[1..]);
    }
  }

  lemma ForwardedUpdatesFormAChain(symbols: set<string>, s: string, steps: seq<Step>)
    ensures TrackOk(FollowAll(Begin(symbols), s, steps), s)
  {
    EveryInterleavingIsOk(Begin(symbols), s, steps);
  }

  /** Whatever reaches the ledgers was accepted, as new or as a duplicate, by the shared book. */
  lemma ForwardedIsAccepted(f: Feed, u: DepthUpdate, at: U64, free: bool)
    requires FeedOk(f) && OnEvent(f, u, at, free).1.Forwarded?
    ensures var s := Text.ToAsciiUpper(u.symbol);
      && OnEvent(f, u, at, free).1.update == u
      && s in f.books && f.books[s].valid
      && ApplyDiff(f.books[s], u).1 == Ok(OnEvent(f, u, at, free).1.outcome)
      && (OnEvent(f, u, at, free).1.outcome.Duplicate? <==>
            f.books[s].lastId.Some? && u.finalId <= f.books[s].lastId.value)
  {
    assert SymbolOk(Text.ToAsciiUpper(u.symbol), f.books[Text.ToAsciiUpper(u.symbol)],
                    f.buffers[Text.ToAsciiUpper(u.symbol)], Text.ToAsciiUpper(u.symbol) in f.deadlines);
  }

  /**
   In any run, what is forwarded for a symbol is judged against everything forwarded since the last
   install: a new update continues the end of that chain, and a duplicate does not reach beyond it.
   */
  lemma ForwardedUpdatesFollowTheChain(
    symbols: set<string>, s: string, steps: seq<Step>, u: DepthUpdate, at: U64, free: bool)
    requires Text.ToAsciiUpper(u.symbol) == s && !FollowAll(Begin(symbols), s, steps).stopped
    ensures var k := FollowAll(Begin(symbols), s, steps);
      var r := OnEvent(k.feed, u, at, free).1;
      r.Forwarded? ==>
        && r.update == u && k.base.Some?
        && (r.outcome.Applied? <==> Continues(Tip(k.base.value, k.chain), u))
        && (r.outcome.Duplicate? <==> u.finalId <= Tip(k.base.value, k.chain).lastId)
  {
    ForwardedUpdatesFormAChain(symbols, s, steps);
    var k := FollowAll(Begin(symbols), s, steps);
    hide FollowAll;
    if OnEvent(k.feed, u, at, free).1.Forwarded? {
      ForwardedIsAccepted(k.feed, u, at, free);
      EventEffect(k.feed, u, at, free);
    }
  }

  /** Unanswered snapshot requests for a symbol are at least the full retry delay apart. */
  lemma RequestsAreSpaced(symbols: set<string>, s: string, steps: seq<Step>, u: DepthUpdate, at: U64, free: bool)
    requires Text.ToAsciiUpper(u.symbol) == s
    requires var k := FollowAll(Begin(symbols), s, steps);
      && !k.stopped && k.requestedAt.Some?
      && (OnEvent(k.feed, u, at, free).1.Requested? || OnEvent(k.feed, u, at, free).1.RequestDropped?)
    ensures SatAddU64(FollowAll(Begin(symbols), s, steps).requestedAt.value, REQUEST_DELAY) <= at
  {
    ForwardedUpdatesFormAChain(symbols, s, steps);
    var k := FollowAll(Begin(symbols), s, steps);
    assert s in k.feed.books ==> SymbolOk(s, k.feed.books[s], k.feed.buffers[s], s in k.feed.deadlines);
  }

  lemma {:induction false} ApplyAllAdvances(b: Book, us: seq<DepthUpdate>)
    requires b.lastId.Some?
    ensures ApplyAll(b, us).0.lastId.Some? && b.lastId.value <= ApplyAll(b, us).0.lastId.value
    decreases us
  {
    if us != [] && ApplyDiff(b, us[0]).1.Ok? {
      ApplyAllAdvances(ApplyDiff(b, us[0]).0, us[1..]);
    }
  }

  /** Whether a snapshot answer would be installed by replaying the buffer, not as the bare snapshot. */
  predicate Replays(f: Feed, s: string, result: SnapshotResult)
  {
    && result.Fetched? && s in f.books
    && LoadAndReplay(f.books[s], result.id, result.bids, result.asks, BufferOf(f, s)).1.Ok?
  }

  /**
   Every install hands the ledgers the snapshot with its id. The shared book then stands at that
   id, awaiting its first update, if and only if nothing was replayed; after a replay it is
   strictly ahead, unless the id is the last one there is, with nothing queued to make up for it.
   */
  lemma InstallsStandAtTheSnapshotOrAhead(f: Feed, s: string, result: SnapshotResult, now: U64, accept: bool)
    requires FeedOk(f) && OnSnapshot(f, s, result, now, accept).1.Installed?
    ensures var r := OnSnapshot(f, s, result, now, accept);
      && result.Fetched? && r.1.snapshotId == result.id && r.0.replay == []
      && s in r.0.books && r.0.books[s].valid && r.0.books[s].lastId.Some?
      && (r.0.books[s].awaiting <==> !Replays(f, s, result))
      && r.0.books[s].lastId.value >= result.id
      && (r.0.books[s].lastId.value == result.id <==> !Replays(f, s, result) || result.id == U64_MAX)
  {
    var id, bids, asks := result.id, result.bids, result.asks;
    var replay := LoadAndReplay(f.books[s], id, bids, asks, f.buffers[s]);
    ReplayIsSound(f.books[s], id, bids, asks, f.buffers[s]);
    if Replays(f, s, result) {
      ReplayReaches(f.books[s], id, bids, asks, f.buffers[s]);
    } else {
      LoadedBook(replay.0, id, bids, asks);
    }
    hide LoadAndReplay, LoadSnapshot, SymbolOk, Crossed;
  }

  lemma LoadedBook(b: Book, id: U64, bids: seq<Level>, asks: seq<Level>)
    ensures LoadSnapshot(b, id, bids, asks).1.Pass? ==> FreshlyLoaded(LoadSnapshot(b, id, bids, asks).0, id)
  {
  }

  /** A replay ends at or beyond its snapshot, and strictly beyond unless that was the last id there is. */
  lemma ReplayReaches(b: Book, id: U64, bids: seq<Level>, asks: seq<Level>, us: seq<DepthUpdate>)
    requires LoadAndReplay(b, id, bids, asks, us).1.Ok?
    ensures var r := LoadAndReplay(b, id, bids, asks, us).0;
      r.lastId.Some? && r.lastId.value >= id && (r.lastId.value == id <==> id == U64_MAX)
  {
    var s := LoadSnapshot(b, id, bids, asks).0;
    var i := FirstBridge(us, id);
    ApplyAllAdvances(ApplyBridge(s, us[i]).0, us[i + 1..]);
  }

  /** An update that arrives before the first snapshot is replayed into it, and never forwarded. */
  lemma ReplayedInstallsHappen()
    ensures var u := DepthUpdate("ABC", 11, 12, None, [], []);
      var k := FollowAll(Begin({"ABC"}), "ABC", [Event(u, 0, true), Snapshot("ABC", Fetched(10, [], []), 1, true)]);
      && !k.stopped && k.chain == [] && k.base == Some(Base(12, false))
      && "ABC" in k.feed.books && k.feed.books["ABC"].lastId == Some(12)
  {
    var u := DepthUpdate("ABC", 11, 12, None, [], []);
    var event, answer := Event(u, 0, true), Snapshot("ABC", Fetched(10, [], []), 1, true);
    var f := Feed(map["ABC" := EMPTY], map["ABC" := [u]], [], map["ABC" := REQUEST_DELAY]);
    assert Text.ToAsciiUpper("ABC") == "ABC";
    FirstUpdateIsBuffered(u, f);
    var k := Track(f, false, None, [], Some(0));
    assert Follow(Begin({"ABC"}), "ABC", event) == k;
    ReplayOfOne(EMPTY, u);
    hide LoadAndReplay, LoadSnapshot, OnEvent, Start;
    assert React(f, answer).1 == Installed(10, 1);
    assert [event, answer][1..] == [answer] && [answer][1..] == [];
    assert FollowAll(k, "ABC", [answer]) == Follow(k, "ABC", answer);
  }

  lemma FirstUpdateIsBuffered(u: DepthUpdate, f: Feed)
    requires Text.ToAsciiUpper(u.symbol) == "ABC"
    requires f == Feed(map["ABC" := EMPTY], map["ABC" := [u]], [], map["ABC" := REQUEST_DELAY])
    ensures OnEvent(Start({"ABC"}), u, 0, true) == (f, Requested)
  {
    var start := Start({"ABC"});
    assert start.books == map["ABC" := EMPTY] && start.buffers == map["ABC" := []];
    var r := OnEvent(start, u, 0, true);
    assert r.0.books == f.books;
    assert r.0.buffers["ABC"] == [u] && r.0.buffers == f.buffers;
    assert r.0.deadlines == f.deadlines;
  }

  lemma ReplayOfOne(b: Book, u: DepthUpdate)
    requires u.firstId == 11 && u.finalId == 12 && u.bids == [] && u.asks == []
    ensures LoadAndReplay(b, 10, [], [], [u]) == (Book(map[], map[], Some(12), true, false), Ok(1))
  {
    assert FirstBridge([u], 10) == 0 && [u][1..] == [];
  }

  // ---------------------------------------------------------------- runs as one symbol sees them

  lemma {:induction false} FollowOneMore(k: Track, s: string, steps: seq<Step>, step: Step)
    ensures FollowAll(k, s, steps + [step]) == Follow(FollowAll(k, s, steps), s, step)
    decreases steps
  {
    hide Follow;
    if steps == [] {
      assert steps + [step] == [step] && [step][1..] == [];
    } else {
      assert (steps + [step])[1..] == steps[1..] + [step];
      FollowOneMore(Follow(k, s, steps[0]), s, steps[1..], step);
    }
  }
}
