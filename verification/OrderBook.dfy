/**
 A sequence-validated local order book, as a value: what each operation makes of a book.
 The class in LocalOrderBook.dfy performs the same operations in place.
 */
module OrderBook {
  import opened Machine
  import opened Outcomes

  datatype Level = Level(price: I64, quantity: I64)

  datatype DepthUpdate = DepthUpdate(
    symbol: string,
    firstId: U64,
    finalId: U64,
    previousFinalId: Option<U64>,
    bids: seq<Level>,
    asks: seq<Level>)

  type Levels = map<I64, I64>

  datatype BookError =
    | SnapshotRequired
    | SequenceGap(expected: U64, first: U64, previous: Option<U64>)
    | InvalidLevel
    | CrossedBook
  {
    /** The two errors that can leave levels of a refused update behind. */
    predicate Spoils()
    {
      InvalidLevel? || CrossedBook?
    }
  }

  datatype Applied = Applied | Duplicate

  datatype Book = Book(bids: Levels, asks: Levels, lastId: Option<U64>, valid: bool, awaiting: bool)

  const EMPTY := Book(map[], map[], None, false, false)

  // ---------------------------------------------------------------- levels

  predicate LevelOk(l: Level)
  {
    l.price > 0 && l.quantity >= 0
  }

  function Put(m: Levels, l: Level): Levels
  {
    if l.quantity == 0 then m - {l.price} else m[l.price := l.quantity]
  }

  /** Puts levels in order up to the first invalid one, and says whether there was none. */
  function PutAll(m: Levels, ls: seq<Level>): (Levels, bool)
    decreases ls
  {
    if ls == [] then (m, true)
    else if !LevelOk(ls[0]) then (m, false)
    else PutAll(Put(m, ls[0]), ls[1..])
  }

  predicate Crossed(bids: Levels, asks: Levels)
  {
    exists b, a :: b in bids && a in asks && b >= a
  }

  function QuantityIn(m: Levels, price: I64): I64
  {
    if price in m then m[price] else 0
  }

  // ---------------------------------------------------------------- operations

  /** The bridge rule between a snapshot and the first update that follows it. */
  predicate Bridges(u: DepthUpdate, last: U64)
  {
    var expected := SatAddU64(last, 1);
    || (u.firstId <= expected && u.finalId >= expected)
    || (u.previousFinalId.Some? && u.previousFinalId.value <= last && u.finalId > last)
  }

  function GapAt(u: DepthUpdate, last: U64): BookError
  {
    SequenceGap(SatAddU64(last, 1), u.firstId, u.previousFinalId)
  }

  function LoadSnapshot(b: Book, id: U64, bids: seq<Level>, asks: seq<Level>): (Book, Outcome<BookError>)
  {
    var nextBids := PutAll(map[], bids);
    var nextAsks := PutAll(map[], asks);
    if !nextBids.1 || !nextAsks.1 then (b, Fail(InvalidLevel))
    else if Crossed(nextBids.0, nextAsks.0) then (b, Fail(CrossedBook))
    else (Book(nextBids.0, nextAsks.0, Some(id), true, true), Pass)
  }

  /** Writes the levels of an update: bids first, asks only if every bid was valid. */
  function WriteLevels(b: Book, u: DepthUpdate): (Book, bool)
  {
    var bids := PutAll(b.bids, u.bids);
    if !bids.1 then (b.(bids := bids.0), false)
    else
      var asks := PutAll(b.asks, u.asks);
      (b.(bids := bids.0, asks := asks.0), asks.1)
  }

  function ApplyBridge(b: Book, u: DepthUpdate): (Book, Outcome<BookError>)
  {
    if b.lastId.None? then (b, Fail(SnapshotRequired))
    else if !Bridges(u, b.lastId.value) then (b.(valid := false), Fail(GapAt(u, b.lastId.value)))
    else
      var w := WriteLevels(b, u);
      if !w.1 then (w.0, Fail(InvalidLevel))
      else if Crossed(w.0.bids, w.0.asks) then (w.0, Fail(CrossedBook))
      else (w.0.(lastId := Some(u.finalId), awaiting := false), Pass)
  }

  /** The continuity check on a new update: the bridge rule right after a snapshot, then exact. */
  predicate InSequence(b: Book, u: DepthUpdate)
    requires b.lastId.Some?
  {
    if b.awaiting then Bridges(u, b.lastId.value) else u.previousFinalId == b.lastId
  }

  function ApplyDiff(b: Book, u: DepthUpdate): (Book, Result<Applied, BookError>)
  {
    if b.lastId.None? || !b.valid then (b, Err(SnapshotRequired))
    else if u.finalId <= b.lastId.value then (b, Ok(Duplicate))
    else if !InSequence(b, u) then (b.(valid := false), Err(GapAt(u, b.lastId.value)))
    else
      var w := WriteLevels(b, u);
      if !w.1 then (w.0, Err(InvalidLevel))
      else if Crossed(w.0.bids, w.0.asks) then (w.0.(valid := false), Err(CrossedBook))
      else (w.0.(lastId := Some(u.finalId), awaiting := false), Ok(Applied.Applied))
  }

  /** Updates one after another up to the first error; counts the updates that were applied. */
  function ApplyAll(b: Book, us: seq<DepthUpdate>): (Book, Result<nat, BookError>)
    decreases us
  {
    if us == [] then (b, Ok(0))
    else
      var first := ApplyDiff(b, us[0]);
      if first.1.Err? then (first.0, Err(first.1.error))
      else
        var rest := ApplyAll(first.0, us[1..]);
        (rest.0, if rest.1.Ok? then Ok(rest.1.value + if first.1.value.Applied? then 1 else 0) else rest.1)
  }

  /** Index of the first update that bridges the snapshot, or the length if none does. */
  function FirstBridge(us: seq<DepthUpdate>, last: U64): (i: nat)
    ensures i <= |us|
    ensures i < |us| ==> Bridges(us[i], last)
    ensures forall j :: 0 <= j < i ==> !Bridges(us[j], last)
  {
    if us == [] || Bridges(us[0], last) then 0 else 1 + FirstBridge(us[1..], last)
  }

  /** A snapshot, then the buffered updates from the first bridging one on; counts what it consumed. */
  function LoadAndReplay(b: Book, id: U64, bids: seq<Level>, asks: seq<Level>, us: seq<DepthUpdate>)
    : (Book, Result<nat, BookError>)
  {
    var loaded := LoadSnapshot(b, id, bids, asks);
    if loaded.1.Fail? then (loaded.0, Err(loaded.1.error))
    else
      var i := FirstBridge(us, id);
      if i == |us| then
        (loaded.0.(valid := false),
         Err(if us == [] then SequenceGap(SatAddU64(id, 1), 0, None) else GapAt(us[0], id)))
      else
        var bridged := ApplyBridge(loaded.0, us[i]);
        if bridged.1.Fail? then (bridged.0, Err(bridged.1.error))
        else
          var rest := ApplyAll(bridged.0, us[i + 1..]);
          (rest.0, if rest.1.Ok? then Ok(|us|) else rest.1)
  }

  // ---------------------------------------------------------------- replay against live application

  /** The guard under which buffered replay and live application agree. */
  ghost predicate NothingSkipped(us: seq<DepthUpdate>, id: U64)
  {
    && id < U64_MAX
    && forall j :: 0 <= j < FirstBridge(us, id) ==> us[j].finalId <= id
  }

  /** Updates that the snapshot already covers change nothing. */
  lemma {:induction false} CoveredUpdatesAreDuplicates(b: Book, us: seq<DepthUpdate>, i: nat)
    requires b.valid && b.lastId.Some? && i <= |us|
    requires forall j :: 0 <= j < i ==> us[j].finalId <= b.lastId.value
    ensures ApplyAll(b, us) == ApplyAll(b, us[i..])
    decreases i
  {
    if i > 0 {
      assert us[1..][i - 1..] == us[i..];
      CoveredUpdatesAreDuplicates(b, us[1..], i - 1);
    } else {
      assert us[0..] == us;
    }
  }

  /** Below the last representable id, the first bridging update does the same on both paths. */
  lemma BridgeIsADiff(b: Book, u: DepthUpdate)
    requires b.valid && b.awaiting && b.lastId.Some? && b.lastId.value < U64_MAX
    requires Bridges(u, b.lastId.value)
    ensures ApplyBridge(b, u).1.Pass? <==> ApplyDiff(b, u).1.Ok?
    ensures ApplyDiff(b, u).1.Ok? ==>
      ApplyDiff(b, u) == (ApplyBridge(b, u).0, Ok(Applied.Applied))
  {
  }

  /** An update before the first bridge that the snapshot does not cover is a gap when seen live. */
  lemma {:induction false} UncoveredUpdateIsAGap(b: Book, us: seq<DepthUpdate>, i: nat)
    requires b.valid && b.awaiting && b.lastId.Some? && i < |us|
    requires forall j :: 0 <= j <= i ==> !Bridges(us[j], b.lastId.value)
    requires us[i].finalId > b.lastId.value
    ensures ApplyAll(b, us).1.Err?
    decreases i
  {
    if us[0].finalId <= b.lastId.value {
      UncoveredUpdateIsAGap(b, us[1..], i - 1);
    }
  }

  /** At the last representable id every update is a duplicate. */
  lemma LastIdAcceptsNothing(b: Book, us: seq<DepthUpdate>)
    requires b.valid && b.lastId == Some(U64_MAX)
    ensures ApplyAll(b, us) == (b, Ok(0))
  {
    CoveredUpdatesAreDuplicates(b, us, |us|);
  }

  lemma {:induction false} ApplyAllKeepsAwaiting(b: Book, us: seq<DepthUpdate>)
    requires !b.awaiting
    ensures !ApplyAll(b, us).0.awaiting
    decreases us
  {
    if us != [] && ApplyDiff(b, us[0]).1.Ok? {
      ApplyAllKeepsAwaiting(ApplyDiff(b, us[0]).0, us[1..]);
    }
  }

  /** Replay onto a freshly loaded book: the bridge, then everything after it. */
  function ReplayOnto(s: Book, id: U64, us: seq<DepthUpdate>): (Book, bool)
  {
    var i := FirstBridge(us, id);
    if i == |us| || ApplyBridge(s, us[i]).1.Fail? then (s, false)
    else
      var rest := ApplyAll(ApplyBridge(s, us[i]).0, us[i + 1..]);
      (rest.0, rest.1.Ok?)
  }

  ghost predicate FreshlyLoaded(s: Book, id: U64)
  {
    s.valid && s.awaiting && s.lastId == Some(id)
  }

  lemma LoadAndReplayIsReplayOnto(b: Book, id: U64, bids: seq<Level>, asks: seq<Level>, us: seq<DepthUpdate>)
    ensures var s := LoadSnapshot(b, id, bids, asks);
      var r := LoadAndReplay(b, id, bids, asks, us);
      && (s.1.Pass? ==> FreshlyLoaded(s.0, id))
      && (r.1.Ok? <==> s.1.Pass? && ReplayOnto(s.0, id, us).1)
      && (r.1.Ok? ==> r == (ReplayOnto(s.0, id, us).0, Ok(|us|)))
  {
  }

  lemma LiveMatchesReplayOnto(s: Book, id: U64, us: seq<DepthUpdate>)
    requires FreshlyLoaded(s, id) && NothingSkipped(us, id)
    ensures var live := ApplyAll(s, us);
      && (live.1.Ok? && live.1.value > 0 <==> ReplayOnto(s, id, us).1)
      && (live.1.Ok? && live.1.value > 0 ==> live.0 == ReplayOnto(s, id, us).0)
  {
    var i := FirstBridge(us, id);
    CoveredUpdatesAreDuplicates(s, us, i);
    if i < |us| {
      assert us[i..] == [us[i]] + us[i + 1..];
      BridgeIsADiff(s, us[i]);
    } else {
      assert us[i..] == [];
    }
  }

  /** When the guard fails, the live run fails, or applies nothing and keeps awaiting its first update. */
  lemma SkippingSpoilsLive(s: Book, id: U64, us: seq<DepthUpdate>)
    requires FreshlyLoaded(s, id) && !NothingSkipped(us, id)
    ensures ApplyAll(s, us).1.Err? || ApplyAll(s, us) == (s, Ok(0))
    ensures ReplayOnto(s, id, us).1 ==> !ReplayOnto(s, id, us).0.awaiting
  {
    var i := FirstBridge(us, id);
    if id == U64_MAX {
      LastIdAcceptsNothing(s, us);
    } else {
      var j :| 0 <= j < i && us[j].finalId > id;
      UncoveredUpdateIsAGap(s, us, j);
    }
    if ReplayOnto(s, id, us).1 {
      ApplyAllKeepsAwaiting(ApplyBridge(s, us[i]).0, us[i + 1..]);
    }
  }

  /**
   A successful replay consumes the whole buffer. Applying the same updates live to the bare
   snapshot then succeeds with the identical book if and only if the snapshot id is not the last
   one and it covers every update before the first bridge.
   */
  lemma {:induction false} ReplayMatchesLive(b: Book, id: U64, bids: seq<Level>, asks: seq<Level>, us: seq<DepthUpdate>)
    requires LoadAndReplay(b, id, bids, asks, us).1.Ok?
    ensures LoadAndReplay(b, id, bids, asks, us).1.value == |us|
    ensures var live := ApplyAll(LoadSnapshot(b, id, bids, asks).0, us);
      (live.1.Ok? && live.0 == LoadAndReplay(b, id, bids, asks, us).0) <==> NothingSkipped(us, id)
  {
    var s := LoadSnapshot(b, id, bids, asks).0;
    LoadAndReplayIsReplayOnto(b, id, bids, asks, us);
    if NothingSkipped(us, id) {
      LiveMatchesReplayOnto(s, id, us);
    } else {
      SkippingSpoilsLive(s, id, us);
    }
  }

  /** Replay reproduces every live run without error that applied at least one update, and no other. */
  lemma {:induction false} LiveMatchesReplay(b: Book, id: U64, bids: seq<Level>, asks: seq<Level>, us: seq<DepthUpdate>)
    requires LoadSnapshot(b, id, bids, asks).1.Pass?
    ensures var live := ApplyAll(LoadSnapshot(b, id, bids, asks).0, us);
      var replay := LoadAndReplay(b, id, bids, asks, us);
      && (live.1.Ok? && live.1.value > 0 <==> replay.1.Ok? && NothingSkipped(us, id))
      && (live.1.Ok? && live.1.value > 0 ==> replay.0 == live.0)
  {
    var s := LoadSnapshot(b, id, bids, asks).0;
    LoadAndReplayIsReplayOnto(b, id, bids, asks, us);
    if NothingSkipped(us, id) {
      LiveMatchesReplayOnto(s, id, us);
    } else {
      SkippingSpoilsLive(s, id, us);
    }
  }

  /** Both parts of the guard matter: the last id, and an uncovered update before the bridge. */
  lemma ReplayAndLiveCanDisagree()
    ensures var u := DepthUpdate("ABCUSDT", 0, U64_MAX, None, [], []);
      && LoadAndReplay(EMPTY, U64_MAX, [], [], [u]).1.Ok?
      && LoadAndReplay(EMPTY, U64_MAX, [], [], [u]).0 != ApplyAll(LoadSnapshot(EMPTY, U64_MAX, [], []).0, [u]).0
    ensures var us := [DepthUpdate("ABCUSDT", 20, 21, Some(15), [], []), DepthUpdate("ABCUSDT", 9, 12, None, [], [])];
      && LoadAndReplay(EMPTY, 10, [], [], us).1.Ok?
      && ApplyAll(LoadSnapshot(EMPTY, 10, [], []).0, us).1.Err?
  {
    var u := DepthUpdate("ABCUSDT", 0, U64_MAX, None, [], []);
    var b := Book(map[], map[], Some(U64_MAX), true, true);
    assert LoadSnapshot(EMPTY, U64_MAX, [], []).0 == b;
    assert FirstBridge([u], U64_MAX) == 0 && [u][1..] == [];
    LastIdAcceptsNothing(b, [u]);
    var us := [DepthUpdate("ABCUSDT", 20, 21, Some(15), [], []), DepthUpdate("ABCUSDT", 9, 12, None, [], [])];
    var c := Book(map[], map[], Some(10), true, true);
    assert LoadSnapshot(EMPTY, 10, [], []).0 == c;
    assert us[1..] == [us[1]] && us[2..] == [];
    assert FirstBridge(us[1..], 10) == 0 && FirstBridge(us, 10) == 1;
    assert ApplyBridge(c, us[1]) == (c.(lastId := Some(12), awaiting := false), Pass);
    UncoveredUpdateIsAGap(c, us, 0);
  }

  // ---------------------------------------------------------------- gaps freeze the book

  /**
   After a gap no update whatever changes the book; only a snapshot can. Here updates are offered one
   after the other, errors ignored, and `books` are those before the first and after each of them.
   */
  lemma {:induction false} GapFreezesTheBook(b: Book, u: DepthUpdate, us: seq<DepthUpdate>, books: seq<Book>)
    requires ApplyDiff(b, u).1.Err? && ApplyDiff(b, u).1.error.SequenceGap?
    requires |books| == |us| + 1 && books[0] == ApplyDiff(b, u).0
    requires forall i :: 0 <= i < |us| ==> books[i + 1] == ApplyDiff(books[i], us[i]).0
    ensures forall i :: 0 <= i < |books| ==> books[i] == b.(valid := false)
  {
    if us != [] {
      var n := |us| - 1;
      GapFreezesTheBook(b, u, us[..n], books[..n + 1]);
      assert books[n] == books[..n + 1][n];
    }
  }
}
