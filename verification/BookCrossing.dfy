/**
 When an order book can end up valid and crossed: the exact condition on a single update, read
 off its ids and levels before it is applied, and what it means for whole runs.
 */
module BookCrossing {
  import opened Machine
  import opened Outcomes
  import opened OrderBook
  import opened BookHistory

  /** What every book is that has not been broken: positive levels, and uncrossed while it is valid. */
  ghost predicate Sound(b: Book)
  {
    && Positive(b.bids) && Positive(b.asks)
    && (b.valid ==> b.lastId.Some? && !Crossed(b.bids, b.asks))
  }

  /** A book that is valid and crossed. */
  predicate Broken(b: Book)
  {
    b.valid && Crossed(b.bids, b.asks)
  }

  // ---------------------------------------------------------------- what writing leaves behind

  predicate Mentions(ls: seq<Level>, price: I64)
  {
    exists i :: 0 <= i < |ls| && ls[i].price == price
  }

  /** What the levels before the first invalid one leave on an empty side. */
  function Left(ls: seq<Level>): Levels
  {
    PutAll(map[], ls).0
  }

  lemma MentionsSplits(l: Level, ls: seq<Level>, price: I64)
    ensures Mentions([l] + ls, price) <==> l.price == price || Mentions(ls, price)
  {
    var all := [l] + ls;
    assert all[0] == l;
    if Mentions(ls, price) {
      var i :| 0 <= i < |ls| && ls[i].price == price;
      assert all[i + 1].price == price;
    }
    if Mentions(all, price) {
      var i :| 0 <= i < |all| && all[i].price == price;
      if i > 0 { assert ls[i - 1].price == price; }
    }
  }

  /** Writing onto any side keeps what is left of the levels and what they do not mention. */
  lemma {:induction false} WritingKeeps(m: Levels, ls: seq<Level>, price: I64)
    ensures price in PutAll(m, ls).0 <==>
      price in Left(ls) || (price in m && !Mentions(Prefix(ls), price))
    decreases ls
  {
    if ls != [] && LevelOk(ls[0]) {
      WritingKeeps(Put(m, ls[0]), ls[1..], price);
      WritingKeeps(Put(map[], ls[0]), ls[1..], price);
      MentionsSplits(ls[0], Prefix(ls[1..]), price);
    }
  }

  lemma WritingKeepsSide(m: Levels, ls: seq<Level>)
    ensures forall p :: p in PutAll(m, ls).0 <==> p in Left(ls) || (p in m && !Mentions(Prefix(ls), p))
  {
    forall p ensures p in PutAll(m, ls).0 <==> p in Left(ls) || (p in m && !Mentions(Prefix(ls), p)) {
      WritingKeeps(m, ls, p);
    }
  }

  // ---------------------------------------------------------------- when writing can cross

  /** A price may be on a side after the levels have been written, whatever was there before. */
  predicate MayHold(ls: seq<Level>, price: I64)
  {
    price in Left(ls) || (price > 0 && !Mentions(Prefix(ls), price))
  }

  /** The update leaves a level of its own that another level of the other side may cross. */
  ghost predicate MayCross(u: DepthUpdate)
  {
    exists p: I64, a: I64 ::
      && p >= a && MayHold(u.bids, p) && MayHold(AsksWritten(u), a)
      && (p in Left(u.bids) || a in Left(AsksWritten(u)))
  }

  /**
   On updates that write one side only, because the other is empty or a bid is invalid, the
   condition is just whether the levels leave anything positive behind.
   */
  lemma OneSidedUpdatesCross(u: DepthUpdate)
    ensures AsksWritten(u) == [] ==> (MayCross(u) <==> Left(u.bids) != map[])
    ensures u.bids == [] ==> (MayCross(u) <==> Left(u.asks) != map[])
  {
    WritingKeepsPositive(map[], u.bids);
    WritingKeepsPositive(map[], u.asks);
    assert Left([]) == map[] && forall p :: !Mentions(Prefix([]), p);
    if AsksWritten(u) == [] && Left(u.bids) != map[] {
      var p :| p in Left(u.bids);
      assert p >= 1 && MayHold(u.bids, p) && MayHold(AsksWritten(u), 1);
    }
    if u.bids == [] && Left(u.asks) != map[] {
      var a :| a in Left(u.asks);
      assert a >= a && MayHold(u.bids, a) && MayHold(AsksWritten(u), a);
    }
  }

  lemma WritingStaysUncrossed(b: Book, u: DepthUpdate)
    requires Positive(b.bids) && Positive(b.asks) && !Crossed(b.bids, b.asks) && !MayCross(u)
    ensures !Crossed(WriteLevels(b, u).0.bids, WriteLevels(b, u).0.asks)
  {
    var w := WriteLevels(b, u).0;
    WrittenSides(b, u);
    WritingKeepsSide(b.bids, u.bids);
    WritingKeepsSide(b.asks, AsksWritten(u));
    forall p, a | p in w.bids && a in w.asks ensures p < a {
      if p >= a {
        assert MayHold(u.bids, p) && MayHold(AsksWritten(u), a);
      }
    }
  }

  /** One snapshot level on the other side is enough for what may cross to cross. */
  lemma SnapshotToCross(u: DepthUpdate) returns (bids: seq<Level>, asks: seq<Level>)
    requires MayCross(u)
    ensures |bids| + |asks| <= 1 && AllOk(bids) && AllOk(asks)
    ensures forall id: U64 ::
      var s := LoadSnapshot(EMPTY, id, bids, asks);
      s.1.Pass? && Crossed(WriteLevels(s.0, u).0.bids, WriteLevels(s.0, u).0.asks)
  {
    var p: I64, a: I64 :|
      && p >= a && MayHold(u.bids, p) && MayHold(AsksWritten(u), a)
      && (p in Left(u.bids) || a in Left(AsksWritten(u)));
    bids := if p in Left(u.bids) then [] else [Level(p, 1)];
    asks := if a in Left(AsksWritten(u)) then [] else [Level(a, 1)];
    forall id: U64 ensures
      var s := LoadSnapshot(EMPTY, id, bids, asks);
      s.1.Pass? && Crossed(WriteLevels(s.0, u).0.bids, WriteLevels(s.0, u).0.asks)
    {
      OneLevel(bids);
      OneLevel(asks);
      var s := LoadSnapshot(EMPTY, id, bids, asks).0;
      WrittenSides(s, u);
      WritingKeeps(s.bids, u.bids, p);
      WritingKeeps(s.asks, AsksWritten(u), a);
    }
  }

  lemma OneLevel(ls: seq<Level>)
    requires ls == [] || (|ls| == 1 && LevelOk(ls[0]) && ls[0].quantity > 0)
    ensures PutAll(map[], ls) == (if ls == [] then map[] else map[ls[0].price := ls[0].quantity], true)
  {
    if ls != [] {
      assert ls[1..] == [];
    }
  }

  // ---------------------------------------------------------------- the exact conditions

  /** Some book accepts the update as its next one. */
  predicate Acceptable(u: DepthUpdate)
  {
    u.finalId > 0 && (u.firstId <= u.finalId || (u.previousFinalId.Some? && u.previousFinalId.value < u.finalId))
  }

  lemma AcceptedIsAcceptable(b: Book, u: DepthUpdate)
    requires b.lastId.Some?
    ensures Bridges(u, b.lastId.value) ==> Acceptable(u)
    ensures InSequence(b, u) && u.finalId > b.lastId.value ==> Acceptable(u)
  {
  }

  /** The snapshot id on which an acceptable update bridges as a new one. */
  function BaseOf(u: DepthUpdate): (last: U64)
    requires Acceptable(u)
    ensures Bridges(u, last) && last < u.finalId
  {
    if u.firstId <= u.finalId then u.finalId - 1 else u.previousFinalId.value
  }

  /** As a live update: harmless unless it is refused for a level and what it wrote before may cross. */
  ghost predicate HarmlessDiff(u: DepthUpdate)
  {
    !Acceptable(u) || (AllOk(u.bids) && AllOk(u.asks)) || !MayCross(u)
  }

  /** As the bridge of a replay: harmless only if nothing it writes may cross, valid levels or not. */
  ghost predicate HarmlessBridge(u: DepthUpdate)
  {
    !Acceptable(u) || !MayCross(u)
  }

  lemma DiffBreaksNothing(b: Book, u: DepthUpdate)
    requires Sound(b) && HarmlessDiff(u)
    ensures Sound(ApplyDiff(b, u).0)
  {
    if b.lastId.Some? && b.valid && u.finalId > b.lastId.value && InSequence(b, u) {
      AcceptedIsAcceptable(b, u);
      WrittenSides(b, u);
      WritingKeepsPositive(b.bids, u.bids);
      WritingKeepsPositive(b.asks, u.asks);
      if !(AllOk(u.bids) && AllOk(u.asks)) {
        WritingStaysUncrossed(b, u);
      }
    }
  }

  lemma BridgeBreaksNothing(b: Book, u: DepthUpdate)
    requires Sound(b) && HarmlessBridge(u)
    ensures Sound(ApplyBridge(b, u).0)
  {
    if b.lastId.Some? && Bridges(u, b.lastId.value) {
      AcceptedIsAcceptable(b, u);
      WrittenSides(b, u);
      WritingKeepsPositive(b.bids, u.bids);
      WritingKeepsPositive(b.asks, u.asks);
      if b.valid {
        WritingStaysUncrossed(b, u);
      }
    }
  }

  /** Whether no sound book is ever left valid and crossed by this update. */
  ghost predicate DiffNeverBreaks(u: DepthUpdate)
  {
    forall b :: Sound(b) ==> !Broken(ApplyDiff(b, u).0)
  }

  ghost predicate BridgeNeverBreaks(u: DepthUpdate)
  {
    forall b :: Sound(b) ==> !Broken(ApplyBridge(b, u).0)
  }

  /**
   A live update leaves no sound book valid and crossed if and only if it is harmless; any other
   update breaks a book that a snapshot of at most one level has just been loaded into.
   */
  lemma DiffBreaksExactly(u: DepthUpdate)
    ensures DiffNeverBreaks(u) <==> HarmlessDiff(u)
    ensures !HarmlessDiff(u) ==> exists id, bids, asks :: BreaksAfterLoad(id, bids, asks, u)
  {
    if HarmlessDiff(u) {
      forall b | Sound(b) ensures !Broken(ApplyDiff(b, u).0) {
        DiffBreaksNothing(b, u);
      }
    } else {
      var bids, asks := SnapshotToCross(u);
      var s := LoadSnapshot(EMPTY, BaseOf(u), bids, asks).0;
      LoadedIsSound(EMPTY, BaseOf(u), bids, asks);
      WrittenSides(s, u);
      assert Broken(ApplyDiff(s, u).0);
      assert BreaksAfterLoad(BaseOf(u), bids, asks, u);
    }
  }

  ghost predicate BreaksAfterLoad(id: U64, bids: seq<Level>, asks: seq<Level>, u: DepthUpdate)
  {
    && LoadSnapshot(EMPTY, id, bids, asks).1.Pass?
    && Broken(ApplyDiff(LoadSnapshot(EMPTY, id, bids, asks).0, u).0)
  }

  /**
   The bridge of a replay leaves no sound book valid and crossed if and only if it is harmless as
   a bridge; any other update, valid levels included, breaks the replay of a one-level snapshot.
   */
  lemma BridgeBreaksExactly(u: DepthUpdate)
    ensures BridgeNeverBreaks(u) <==> HarmlessBridge(u)
    ensures !HarmlessBridge(u) ==> exists id, bids, asks :: Broken(LoadAndReplay(EMPTY, id, bids, asks, [u]).0)
  {
    if HarmlessBridge(u) {
      forall b | Sound(b) ensures !Broken(ApplyBridge(b, u).0) {
        BridgeBreaksNothing(b, u);
      }
    } else {
      var bids, asks := SnapshotToCross(u);
      var s := LoadSnapshot(EMPTY, BaseOf(u), bids, asks).0;
      LoadedIsSound(EMPTY, BaseOf(u), bids, asks);
      WrittenSides(s, u);
      assert ApplyBridge(s, u).1.Fail? && Broken(ApplyBridge(s, u).0);
      assert FirstBridge([u], BaseOf(u)) == 0;
      assert Broken(LoadAndReplay(EMPTY, BaseOf(u), bids, asks, [u]).0);
    }
  }

  lemma LoadedIsSound(b: Book, id: U64, bids: seq<Level>, asks: seq<Level>)
    requires Sound(b)
    ensures Sound(LoadSnapshot(b, id, bids, asks).0)
  {
    WritingKeepsPositive(map[], bids);
    WritingKeepsPositive(map[], asks);
  }

  /** The two ways to break a book, in numbers: a bad level met live, and a crossed bridge of good levels. */
  lemma TwoBrokenBooks()
    ensures BreaksAfterLoad(10, [Level(99, 1)], [Level(101, 1)],
      DepthUpdate("ABCUSDT", 11, 12, Some(10), [Level(102, 1), Level(0, 1)], []))
    ensures var u := DepthUpdate("ABCUSDT", 11, 12, None, [Level(102, 1)], []);
      var r := LoadAndReplay(EMPTY, 10, [Level(99, 1)], [Level(101, 1)], [u]);
      AllOk(u.bids) && r.1 == Err(CrossedBook) && Broken(r.0)
  {
    OneLevel([Level(99, 1)]);
    OneLevel([Level(101, 1)]);
    var s := LoadSnapshot(EMPTY, 10, [Level(99, 1)], [Level(101, 1)]).0;
    assert s == Book(map[99 := 1], map[101 := 1], Some(10), true, true);
    var bad := [Level(102, 1), Level(0, 1)];
    assert bad[1..] == [Level(0, 1)];
    assert PutAll(s.bids, bad) == (map[99 := 1, 102 := 1], false);
    var good := [Level(102, 1)];
    assert good[1..] == [];
    assert PutAll(s.bids, good) == (map[99 := 1, 102 := 1], true);
    var u := DepthUpdate("ABCUSDT", 11, 12, None, good, []);
    assert FirstBridge([u], 10) == 0;
    assert 102 in WriteLevels(s, u).0.bids && 101 in WriteLevels(s, u).0.asks;
  }

  // ---------------------------------------------------------------- whole runs

  ghost predicate HarmlessOp(op: Op)
  {
    match op
    case Load(_, _, _) => true
    case Diff(u) => HarmlessDiff(u)
    case Replay(id, _, _, us) =>
      var i := FirstBridge(us, id);
      && (i < |us| ==> HarmlessBridge(us[i]))
      && forall j :: i < j < |us| ==> HarmlessDiff(us[j])
  }

  /** The operations one after another, whatever errors they return. */
  function PerformAll(b: Book, ops: seq<Op>): Book
    decreases ops
  {
    if ops == [] then b else PerformAll(Perform(b, ops[0]), ops[1..])
  }

  lemma {:induction false} HarmlessUpdatesBreakNothing(b: Book, us: seq<DepthUpdate>)
    requires Sound(b) && forall j :: 0 <= j < |us| ==> HarmlessDiff(us[j])
    ensures Sound(ApplyAll(b, us).0)
    decreases us
  {
    if us != [] {
      DiffBreaksNothing(b, us[0]);
      hide HarmlessDiff;
      HarmlessUpdatesBreakNothing(ApplyDiff(b, us[0]).0, us[1..]);
    }
  }

  lemma HarmlessOpBreaksNothing(b: Book, op: Op)
    requires Sound(b) && HarmlessOp(op)
    ensures Sound(Perform(b, op))
  {
    match op {
      case Load(id, bids, asks) => LoadedIsSound(b, id, bids, asks);
      case Diff(u) => DiffBreaksNothing(b, u);
      case Replay(id, bids, asks, us) =>
        LoadedIsSound(b, id, bids, asks);
        var s := LoadSnapshot(b, id, bids, asks).0;
        var i := FirstBridge(us, id);
        if i < |us| {
          BridgeBreaksNothing(s, us[i]);
          hide HarmlessDiff, HarmlessBridge;
          HarmlessUpdatesBreakNothing(ApplyBridge(s, us[i]).0, us[i + 1..]);
        }
    }
  }

  /** A run of harmless operations never leaves the book valid and crossed, whatever errors it ignores. */
  lemma {:induction false} HarmlessRunsBreakNothing(b: Book, ops: seq<Op>)
    requires Sound(b) && forall i :: 0 <= i < |ops| ==> HarmlessOp(ops[i])
    ensures Sound(PerformAll(b, ops)) && !Broken(PerformAll(b, ops))
    decreases ops
  {
    if ops != [] {
      HarmlessOpBreaksNothing(b, ops[0]);
      hide HarmlessOp;
      HarmlessRunsBreakNothing(Perform(b, ops[0]), ops[1..]);
    }
  }

  /** The same for the book beside its history. */
  lemma {:induction false} RunsPerform(k: Chronicle, ops: seq<Op>)
    requires Good(k)
    ensures Run(k, ops).book == PerformAll(k.book, ops)
    decreases ops
  {
    if ops != [] {
      NoteIsGood(k, ops[0]);
      hide Note, Perform, Good;
      RunsPerform(Note(k, ops[0]), ops[1..]);
    }
  }

  /**
   So from the start on the book of a harmless run holds exactly what was written since its last
   snapshot and is never valid and crossed, even after errors that leave the history unclean.
   */
  lemma HarmlessRunsMatchTheirHistory(ops: seq<Op>)
    requires forall i :: 0 <= i < |ops| ==> HarmlessOp(ops[i])
    ensures MatchesHistory(Run(START, ops)) && Sound(Run(START, ops).book)
    ensures !Broken(Run(START, ops).book)
  {
    hide HarmlessOp;
    RunsPerform(START, ops);
    HarmlessRunsBreakNothing(EMPTY, ops);
    BookMatchesItsHistory(ops);
  }
}
