/**
 What the depth loop is for, one symbol at a time and read off the steps alone: which updates a
 book consists of, which ones wait for a snapshot, and when the next snapshot may be asked for.
 The loop does exactly this.
 */
module DepthViews {
  import opened Machine
  import opened Outcomes
  import opened OrderBook
  import opened BookHistory
  import opened BookProgress
  import opened DepthResync
  import Text

  /**
   A live symbol has a snapshot and the updates applied since, in order. A halted one has the
   updates that arrived since its buffer was last emptied, in order, and a time to wait for.
   */
  datatype View =
    | Live(id: U64, bids: seq<Level>, asks: seq<Level>, since: seq<DepthUpdate>)
    | Halted(arrivals: seq<DepthUpdate>, wait: Option<U64>)
    | Dead

  function LastId(id: U64, since: seq<DepthUpdate>): U64
  {
    if since == [] then id else since[|since| - 1].finalId
  }

  /** A moment so many milliseconds later, as far as clocks go. */
  function After(at: U64, delay: nat): U64
  {
    Min(at + delay, U64_MAX)
  }

  /** The next update of a symbol: forwarded if old or if it follows, and otherwise kept for a snapshot. */
  ghost function Receive(v: View, u: DepthUpdate, at: U64, free: bool): (View, Reaction)
  {
    match v
    case Live(id, bids, asks, since) =>
      var grown := since + [u];
      if u.finalId <= LastId(id, since) then (v, Forwarded(u, Duplicate))
      else if !Follows(u, LastId(id, since), since == []) then
        (Halted([u], Some(After(at, 60_000))), if free then Requested else RequestDropped)
      else if LevelsOk(u.bids) && LevelsOk(u.asks) && !Meets(EMPTY, bids + AllBids(grown), asks + AllAsks(grown)) then
        (Live(id, bids, asks, grown), Forwarded(u, Applied.Applied))
      else (Dead, Stopped)
    case Halted(arrivals, wait) =>
      if |arrivals| >= 10_000 then (Dead, Stopped)
      else if wait.Some? && at < wait.value then (Halted(arrivals + [u], wait), Held)
      else (Halted(arrivals + [u], Some(After(at, 60_000))), if free then Requested else RequestDropped)
    case Dead => (Dead, Stopped)
  }

  /** A replay of these updates onto a sound snapshot would meet a gap, or nothing that bridges it. */
  ghost predicate Gaps(id: U64, bids: seq<Level>, asks: seq<Level>, us: seq<DepthUpdate>)
  {
    && SnapshotOk(bids, asks)
    && ((forall i: nat :: !FirstToBridge(id, us, i)) || exists i :: ReplayBreaks(id, bids, asks, us, i))
  }

  /** The position from which a replay goes on. */
  ghost function BridgeIn(id: U64, bids: seq<Level>, asks: seq<Level>, us: seq<DepthUpdate>): (i: nat)
    requires exists i :: ReplayOk(id, bids, asks, us, i)
    ensures ReplayOk(id, bids, asks, us, i)
  {
    var i :| ReplayOk(id, bids, asks, us, i);
    i
  }

  ghost function Go(v: View, reaction: Reaction, accept: bool): (View, Reaction)
  {
    if accept then (v, reaction) else (Dead, Stopped)
  }

  /**
   The answer to a snapshot request: the arrivals are replayed onto it; if they have a gap but the
   snapshot covers them all it stands alone; any other gap discards them.
   */
  ghost function Answer(v: View, result: SnapshotResult, now: U64, accept: bool): (View, Reaction)
  {
    match v
    case Live(_, _, _, _) => (v, Ignored)
    case Halted(arrivals, wait) => (
      match result
      case Unavailable => (Halted(arrivals, Some(After(now, 60_000))), Retried)
      case Unparsable => (Dead, Stopped)
      case Fetched(id, bids, asks) =>
        if exists i :: ReplayOk(id, bids, asks, arrivals, i) then
          var i := BridgeIn(id, bids, asks, arrivals);
          Go(Live(id, bids, asks, Replayed(id, arrivals, i)), Installed(id, |arrivals|), accept)
        else if !Gaps(id, bids, asks, arrivals) then (Dead, Stopped)
        else if arrivals != [] && arrivals[|arrivals| - 1].finalId <= id then
          Go(Live(id, bids, asks, []), Installed(id, |arrivals|), accept)
        else (Halted([], Some(After(now, 5_000))), Discarded))
    case Dead => (Dead, Stopped)
  }

  type Views = map<string, View>

  /** One step of the loop as a whole; nothing is left once it has stopped. */
  ghost function Next(views: Option<Views>, step: Step): (Option<Views>, Reaction)
  {
    if views.None? then (None, Stopped)
    else
      var all := views.value;
      match step
      case Event(u, at, free) =>
        var s := Text.ToAsciiUpper(u.symbol);
        if s !in all then (None, Stopped) else Place(all, s, Receive(all[s], u, at, free))
      case Snapshot(s, result, now, accept) =>
        if s in all then Place(all, s, Answer(all[s], result, now, accept))
        else if result.Unavailable? then (views, Retried)
        else (None, Stopped)
  }

  ghost function Place(all: Views, s: string, r: (View, Reaction)): (Option<Views>, Reaction)
  {
    (if r.1.Stopped? then None else Some(all[s := r.0]), r.1)
  }

  ghost function NextAll(views: Option<Views>, steps: seq<Step>): Option<Views>
    decreases steps
  {
    if steps == [] then views else NextAll(Next(views, steps[0]).0, steps[1..])
  }

  /** At the start every symbol is halted, with nothing to wait for. */
  function Waiting(symbols: set<string>): Views
  {
    map s | s in symbols :: Halted([], None)
  }

  // ---------------------------------------------------------------- the loop does this

  /** A book that is the snapshot with these updates applied. */
  ghost predicate Consists(b: Book, id: U64, bids: seq<Level>, asks: seq<Level>, since: seq<DepthUpdate>)
  {
    && b.valid && b.awaiting == (since == []) && b.lastId == Some(LastId(id, since)) && Sides(b)
    && Amended(EMPTY, bids + AllBids(since), asks + AllAsks(since), b)
  }

  ghost predicate Matches(f: Feed, s: string, v: View)
  {
    && s in f.books && s in f.buffers
    && match v
       case Live(id, bids, asks, since) =>
         f.buffers[s] == [] && s !in f.deadlines && Consists(f.books[s], id, bids, asks, since)
       case Halted(arrivals, wait) =>
         && !f.books[s].valid && f.buffers[s] == arrivals
         && wait == if s in f.deadlines then Some(f.deadlines[s]) else None
       case Dead => false
  }

  ghost predicate AllMatch(f: Feed, views: Views)
  {
    f.replay == [] && f.books.Keys == views.Keys && forall s :: s in views ==> Matches(f, s, views[s])
  }

  lemma ConsistsStands(b: Book, id: U64, bids: seq<Level>, asks: seq<Level>, since: seq<DepthUpdate>, u: DepthUpdate)
    requires Consists(b, id, bids, asks, since)
    ensures Meets(b, u.bids, u.asks)
      <==> Meets(EMPTY, bids + AllBids(since + [u]), asks + AllAsks(since + [u]))
    ensures forall c :: Amended(b, u.bids, u.asks, c) ==>
      Amended(EMPTY, bids + AllBids(since + [u]), asks + AllAsks(since + [u]), c)
  {
    var grown := since + [u];
    assert grown[..|since|] == since;
    assert bids + AllBids(grown) == bids + AllBids(since) + u.bids;
    assert asks + AllAsks(grown) == asks + AllAsks(since) + u.asks;
    hide Meets, AllBids, AllAsks;
    AmendedTwice(EMPTY, b, b, bids + AllBids(since), asks + AllAsks(since), u);
    forall c | Amended(b, u.bids, u.asks, c)
      ensures Amended(EMPTY, bids + AllBids(grown), asks + AllAsks(grown), c)
    {
      AmendedTwice(EMPTY, b, c, bids + AllBids(since), asks + AllAsks(since), u);
    }
  }

  /** A live book takes an update exactly as its view says. */
  lemma LiveDiff(b: Book, id: U64, bids: seq<Level>, asks: seq<Level>, since: seq<DepthUpdate>, u: DepthUpdate)
    requires Consists(b, id, bids, asks, since)
    ensures var r, v := ApplyDiff(b, u), Receive(Live(id, bids, asks, since), u, 0, true);
      && (v.1.Forwarded? <==> r.1.Ok?) && (r.1.Ok? ==> v.1 == Forwarded(u, r.1.value))
      && (r.1.Ok? ==> v.0.Live? && Consists(r.0, v.0.id, v.0.bids, v.0.asks, v.0.since))
      && (r.1.Err? && r.1.error.Spoils() <==> v.0.Dead?)
      && (r.1.Err? && !r.1.error.Spoils() ==> v.0.Halted? && !r.0.valid)
  {
    DiffVerdict(b, u);
    ConsistsStands(b, id, bids, asks, since, u);
    hide ApplyDiff, Meets, Amended, LevelsOk, AllBids, AllAsks, Positive;
  }

  /** An event does to its symbol what its view says. */
  lemma EventIsReceived(f: Feed, s: string, v: View, u: DepthUpdate, at: U64, free: bool)
    requires f.replay == [] && Matches(f, s, v) && s == Text.ToAsciiUpper(u.symbol)
    ensures var r, w := OnEvent(f, u, at, free), Receive(v, u, at, free);
      && r.1 == w.1 && (w.0.Dead? <==> r.1.Stopped?)
      && (!r.1.Stopped? ==> Matches(r.0, s, w.0))
  {
    if v.Live? {
      LiveDiff(f.books[s], v.id, v.bids, v.asks, v.since, u);
      hide ApplyDiff, Consists, Meets, LevelsOk, Follows;
    }
  }

  lemma EventLeaves(f: Feed, s: string, v: View, u: DepthUpdate, at: U64, free: bool)
    requires f.replay == [] && Matches(f, s, v) && s != Text.ToAsciiUpper(u.symbol)
    ensures Matches(OnEvent(f, u, at, free).0, s, v)
  {
    hide ApplyDiff, Consists;
  }

  /** A replayed book consists of the snapshot and the replayed updates. */
  lemma ReplayConsists(b: Book, id: U64, bids: seq<Level>, asks: seq<Level>, us: seq<DepthUpdate>, i: nat)
    requires ReplayOk(id, bids, asks, us, i)
    ensures var r := LoadAndReplay(b, id, bids, asks, us);
      r.1 == Ok(|us|) && Consists(r.0, id, bids, asks, Replayed(id, us, i))
  {
    ReplaysSucceedExactly(b, id, bids, asks, us);
    hide LoadAndReplay, ReplayOk, Amended;
  }

  lemma BareConsists(b: Book, id: U64, bids: seq<Level>, asks: seq<Level>)
    requires SnapshotOk(bids, asks)
    ensures LoadSnapshot(b, id, bids, asks).1.Pass? && Consists(LoadSnapshot(b, id, bids, asks).0, id, bids, asks, [])
  {
    SnapshotVerdict(b, id, bids, asks);
    assert bids + AllBids([]) == bids && asks + AllAsks([]) == asks;
    hide LoadSnapshot, Amended, Meets, LevelsOk;
  }

  lemma ReplayFails(b: Book, id: U64, bids: seq<Level>, asks: seq<Level>, us: seq<DepthUpdate>)
    requires forall i :: !ReplayOk(id, bids, asks, us, i)
    ensures var r := LoadAndReplay(b, id, bids, asks, us);
      && r.1.Err? && (r.1.error.SequenceGap? <==> Gaps(id, bids, asks, us))
      && (r.1.error.SequenceGap? ==> !r.0.valid)
  {
    ReplaysSucceedExactly(b, id, bids, asks, us);
    ReplaysBreakExactly(b, id, bids, asks, us);
    ReplayIsSound(b, id, bids, asks, us);
    hide LoadAndReplay, ReplayOk, SnapshotOk;
  }

  /** An installed book empties the buffer of its symbol and leaves nothing to wait for. */
  lemma InstallIsLive(
    f: Feed, s: string, v: View, book: Book, id: U64, bids: seq<Level>, asks: seq<Level>, since: seq<DepthUpdate>,
    accept: bool)
    requires f.replay == [] && Matches(f, s, v) && v.Halted? && Consists(book, id, bids, asks, since)
    ensures var r, live := Install(f, s, book, id, |v.arrivals|, accept), Live(id, bids, asks, since);
      && (accept ==> r.1 == Installed(id, |v.arrivals|) && r.0.replay == [] && Matches(r.0, s, live))
      && (!accept ==> r.1.Stopped?)
  {
    hide Consists;
    assert v.arrivals[|v.arrivals|..] == [];
  }

  lemma ReplayIsInstalled(f: Feed, s: string, v: View, result: SnapshotResult, now: U64, accept: bool)
    requires f.replay == [] && Matches(f, s, v) && v.Halted? && result.Fetched?
    requires exists i :: ReplayOk(result.id, result.bids, result.asks, v.arrivals, i)
    ensures Answers(f, s, v, result, now, accept)
  {
    var id, bids, asks, us := result.id, result.bids, result.asks, v.arrivals;
    hide LoadAndReplay, LoadSnapshot, Consists, ReplayOk, Gaps, Replayed, Install, BridgeIn;
    var i := BridgeIn(id, bids, asks, us);
    ReplayConsists(f.books[s], id, bids, asks, us, i);
    InstallIsLive(
      f, s, v, LoadAndReplay(f.books[s], id, bids, asks, us).0, id, bids, asks, Replayed(id, us, i), accept);
  }

  lemma GapIsAnswered(f: Feed, s: string, v: View, result: SnapshotResult, now: U64, accept: bool)
    requires f.replay == [] && Matches(f, s, v) && v.Halted? && result.Fetched?
    requires forall i :: !ReplayOk(result.id, result.bids, result.asks, v.arrivals, i)
    ensures Answers(f, s, v, result, now, accept)
  {
    hide LoadAndReplay, LoadSnapshot, Consists, ReplayOk, Replayed, Install, FirstToBridge, ReplayBreaks;
    var id, bids, asks, us := result.id, result.bids, result.asks, v.arrivals;
    var b := LoadAndReplay(f.books[s], id, bids, asks, us).0;
    ReplayFails(f.books[s], id, bids, asks, us);
    if Gaps(id, bids, asks, us) {
      BareConsists(b, id, bids, asks);
      InstallIsLive(f, s, v, LoadSnapshot(b, id, bids, asks).0, id, bids, asks, [], accept);
    }
  }

  /** An answer does to its symbol what its view says. */
  ghost predicate Answers(f: Feed, s: string, v: View, result: SnapshotResult, now: U64, accept: bool)
  {
    var r, w := OnSnapshot(f, s, result, now, accept), Answer(v, result, now, accept);
    && r.1 == w.1 && (w.0.Dead? <==> r.1.Stopped?)
    && (!r.1.Stopped? ==> r.0.replay == [] && Matches(r.0, s, w.0))
  }

  lemma SnapshotIsAnswered(f: Feed, s: string, v: View, result: SnapshotResult, now: U64, accept: bool)
    requires f.replay == [] && Matches(f, s, v)
    ensures Answers(f, s, v, result, now, accept)
  {
    if v.Halted? && result.Fetched? {
      hide Matches, Answers, ReplayOk;
      if exists i :: ReplayOk(result.id, result.bids, result.asks, v.arrivals, i) {
        ReplayIsInstalled(f, s, v, result, now, accept);
      } else {
        GapIsAnswered(f, s, v, result, now, accept);
      }
    }
  }

  lemma SnapshotLeaves(f: Feed, s: string, v: View, x: string, result: SnapshotResult, now: U64, accept: bool)
    requires f.replay == [] && Matches(f, s, v) && s != x
    ensures Matches(OnSnapshot(f, x, result, now, accept).0, s, v)
  {
    hide LoadAndReplay, LoadSnapshot, Consists;
  }

  /** One step of the loop is one step of the views, reaction included. */
  lemma StepIsNext(f: Feed, views: Views, step: Step)
    requires AllMatch(f, views)
    ensures var r, next := React(f, step), Next(Some(views), step);
      && r.1 == next.1 && (next.0.None? <==> r.1.Stopped?)
      && (next.0.Some? ==> AllMatch(r.0, next.0.value))
  {
    match step {
      case Event(u, at, free) => EventIsNext(f, views, u, at, free);
      case Snapshot(s, result, now, accept) => SnapshotIsNext(f, views, s, result, now, accept);
    }
  }

  lemma EventIsNext(f: Feed, views: Views, u: DepthUpdate, at: U64, free: bool)
    requires AllMatch(f, views)
    ensures var r, next := OnEvent(f, u, at, free), Next(Some(views), Event(u, at, free));
      && r.1 == next.1 && (next.0.None? <==> r.1.Stopped?)
      && (next.0.Some? ==> AllMatch(r.0, next.0.value))
  {
    var s, r := Text.ToAsciiUpper(u.symbol), OnEvent(f, u, at, free);
    if s in views {
      EventIsReceived(f, s, views[s], u, at, free);
      if !r.1.Stopped? {
        forall x | x in views && x != s ensures Matches(r.0, x, views[x]) {
          EventLeaves(f, x, views[x], u, at, free);
        }
        EventKeepsKeys(f, u, at, free);
      }
      hide Receive, Matches, OnEvent;
    }
  }

  lemma EventKeepsKeys(f: Feed, u: DepthUpdate, at: U64, free: bool)
    requires f.replay == []
    ensures OnEvent(f, u, at, free).0.replay == [] && OnEvent(f, u, at, free).0.books.Keys == f.books.Keys
  {
    hide ApplyDiff;
  }

  lemma SnapshotIsNext(f: Feed, views: Views, s: string, result: SnapshotResult, now: U64, accept: bool)
    requires AllMatch(f, views)
    ensures var r, next := OnSnapshot(f, s, result, now, accept), Next(Some(views), Snapshot(s, result, now, accept));
      && r.1 == next.1 && (next.0.None? <==> r.1.Stopped?)
      && (next.0.Some? ==> AllMatch(r.0, next.0.value))
  {
    var r := OnSnapshot(f, s, result, now, accept);
    forall x | x in views && x != s ensures Matches(r.0, x, views[x]) {
      SnapshotLeaves(f, x, views[x], s, result, now, accept);
    }
    if s in views {
      SnapshotIsAnswered(f, s, views[s], result, now, accept);
      SnapshotKeepsKeys(f, s, result, now, accept);
      hide Answer, Matches, OnSnapshot;
    }
  }

  lemma SnapshotKeepsKeys(f: Feed, s: string, result: SnapshotResult, now: U64, accept: bool)
    requires s in f.books
    ensures OnSnapshot(f, s, result, now, accept).0.books.Keys == f.books.Keys
  {
    hide LoadAndReplay, LoadSnapshot;
  }

  /** The loop after any steps is where the views are, and has stopped exactly when they have. */
  ghost predicate InStep(k: Track, views: Option<Views>)
  {
    (k.stopped <==> views.None?) && (views.Some? ==> AllMatch(k.feed, views.value))
  }

  lemma {:induction false} StaysInStep(k: Track, s: string, views: Option<Views>, steps: seq<Step>)
    requires InStep(k, views)
    ensures InStep(FollowAll(k, s, steps), NextAll(views, steps))
    decreases steps
  {
    if steps != [] {
      if !k.stopped {
        StepIsNext(k.feed, views.value, steps[0]);
      }
      FollowReacts(k, s, steps[0]);
      hide Follow, React, Next, AllMatch;
      StaysInStep(Follow(k, s, steps[0]), s, Next(views, steps[0]).0, steps[1..]);
    }
  }

  lemma FollowReacts(k: Track, s: string, step: Step)
    ensures k.stopped ==> Follow(k, s, step) == k
    ensures !k.stopped ==>
      && Follow(k, s, step).feed == React(k.feed, step).0
      && Follow(k, s, step).stopped == React(k.feed, step).1.Stopped?
  {
    hide React;
  }

  /**
   From the start of the loop on, over every interleaving: which updates its books consist of, what
   is buffered, in which order, and until when no snapshot is asked for are as the views say, and so
   is the reaction to whatever comes next.
   */
  lemma TheLoopIsItsViews(symbols: set<string>, s: string, steps: seq<Step>, step: Step)
    ensures var k, views := FollowAll(Begin(symbols), s, steps), NextAll(Some(Waiting(symbols)), steps);
      && InStep(k, views)
      && (!k.stopped ==> React(k.feed, step).1 == Next(views, step).1)
  {
    StaysInStep(Begin(symbols), s, Some(Waiting(symbols)), steps);
    var k, views := FollowAll(Begin(symbols), s, steps), NextAll(Some(Waiting(symbols)), steps);
    hide FollowAll, NextAll;
    if !k.stopped {
      StepIsNext(k.feed, views.value, step);
    }
  }

  /**
   In any run an event for a symbol whose book is valid is judged against the end of everything forwarded
   since the last install: covered, it is a duplicate; following, it is forwarded as new or stops the
   loop for its levels; only an update that does neither asks for a snapshot, and none is held.
   */
  lemma ContinuousEventsAreForwarded(
    symbols: set<string>, s: string, steps: seq<Step>, u: DepthUpdate, at: U64, free: bool)
    requires Text.ToAsciiUpper(u.symbol) == s && !FollowAll(Begin(symbols), s, steps).stopped
    requires var f := FollowAll(Begin(symbols), s, steps).feed; s in f.books && f.books[s].valid
    ensures var k := FollowAll(Begin(symbols), s, steps);
      var r, book := OnEvent(k.feed, u, at, free).1, k.feed.books[s];
      && k.base.Some?
      && var tip := Tip(k.base.value, k.chain);
      && (r == Forwarded(u, Duplicate) <==> u.finalId <= tip.lastId)
      && (r == Forwarded(u, Applied.Applied) <==> Follows(u, tip.lastId, tip.awaiting) && Writable(book, u))
      && (r.Stopped? <==> Follows(u, tip.lastId, tip.awaiting) && !Writable(book, u))
      && (r == (if free then Requested else RequestDropped) <==>
            u.finalId > tip.lastId && !Follows(u, tip.lastId, tip.awaiting))
      && !r.Held?
  {
    var k, views := FollowAll(Begin(symbols), s, steps), NextAll(Some(Waiting(symbols)), steps);
    StaysInStep(Begin(symbols), s, Some(Waiting(symbols)), steps);
    ForwardedUpdatesFormAChain(symbols, s, steps);
    hide FollowAll, NextAll, Consists, Tip;
    var v := views.value[s];
    assert Matches(k.feed, s, v);
    LiveEvent(k.feed, s, v, u, at, free);
  }

  lemma LiveEvent(f: Feed, s: string, v: View, u: DepthUpdate, at: U64, free: bool)
    requires f.replay == [] && Matches(f, s, v) && v.Live? && s == Text.ToAsciiUpper(u.symbol)
    ensures var b, r := f.books[s], OnEvent(f, u, at, free).1;
      && b.lastId.Some?
      && var last := b.lastId.value;
      && (r == Forwarded(u, Duplicate) <==> u.finalId <= last)
      && (r == Forwarded(u, Applied.Applied) <==> Follows(u, last, b.awaiting) && Writable(b, u))
      && (r.Stopped? <==> Follows(u, last, b.awaiting) && !Writable(b, u))
      && (r == (if free then Requested else RequestDropped) <==> u.finalId > last && !Follows(u, last, b.awaiting))
      && !r.Held?
  {
    DiffVerdict(f.books[s], u);
    hide ApplyDiff, Meets, Amended, LevelsOk, Positive;
  }
}
