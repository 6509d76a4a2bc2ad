/**
 The order book against its own history: the levels of the last snapshot followed by all
 levels that updates have written since, those of refused updates included.
 */
module BookHistory {
  import opened Machine
  import opened Outcomes
  import opened OrderBook

  /** The last quantity that `ls` mentions for a price, or `initial` if it mentions none. */
  function LastMention(ls: seq<Level>, price: I64, initial: I64): I64
  {
    if ls == [] then initial
    else if ls[|ls| - 1].price == price then ls[|ls| - 1].quantity
    else LastMention(ls[..|ls| - 1], price, initial)
  }

  lemma {:induction false} MentionsConcatenate(a: seq<Level>, b: seq<Level>, price: I64, initial: I64)
    ensures LastMention(a + b, price, initial) == LastMention(b, price, LastMention(a, price, initial))
    decreases b
  {
    if b == [] {
      assert a + b == a;
    } else {
      var n := |b| - 1;
      assert (a + b)[..|a + b| - 1] == a + b[..n];
      MentionsConcatenate(a, b[..n], price, initial);
    }
  }

  predicate AllOk(ls: seq<Level>)
  {
    forall i :: 0 <= i < |ls| ==> LevelOk(ls[i])
  }

  /** The levels before the first invalid one. */
  function Prefix(ls: seq<Level>): seq<Level>
  {
    if ls == [] || !LevelOk(ls[0]) then [] else [ls[0]] + Prefix(ls[1..])
  }

  /** The asks that an update writes: none once a bid is invalid. */
  function AsksWritten(u: DepthUpdate): seq<Level>
  {
    if AllOk(u.bids) then u.asks else []
  }

  lemma {:induction false} ValidLevelsAreAllWritten(m: Levels, ls: seq<Level>)
    ensures PutAll(m, ls).1 <==> AllOk(ls)
    ensures AllOk(ls) <==> Prefix(ls) == ls
    decreases ls
  {
    if ls != [] && LevelOk(ls[0]) {
      ValidLevelsAreAllWritten(Put(m, ls[0]), ls[1..]);
      assert ls == [ls[0]] + ls[1..];
      assert forall i :: 0 <= i < |ls[1..]| ==> ls[1..][i] == ls[i + 1];
      assert forall i :: 0 < i < |ls| ==> ls[i] == ls[1..][i - 1];
    }
  }

  /**
   Writing levels in order leaves at each price the last quantity mentioned for it before the
   first invalid level.
   */
  lemma {:induction false} WritingKeepsLastMention(m: Levels, ls: seq<Level>, price: I64)
    ensures QuantityIn(PutAll(m, ls).0, price) == LastMention(Prefix(ls), price, QuantityIn(m, price))
    decreases ls
  {
    if ls != [] && LevelOk(ls[0]) {
      WritingKeepsLastMention(Put(m, ls[0]), ls[1..], price);
      MentionsConcatenate([ls[0]], Prefix(ls[1..]), price, QuantityIn(m, price));
      assert [ls[0]][..0] == [];
    }
  }

  lemma WrittenSides(b: Book, u: DepthUpdate)
    ensures WriteLevels(b, u).0.bids == PutAll(b.bids, u.bids).0
    ensures WriteLevels(b, u).0.asks == PutAll(b.asks, AsksWritten(u)).0
    ensures WriteLevels(b, u).1 <==> AllOk(u.bids) && AllOk(u.asks)
    ensures WriteLevels(b, u).0.valid == b.valid && WriteLevels(b, u).0.lastId == b.lastId
  {
    ValidLevelsAreAllWritten(b.bids, u.bids);
    ValidLevelsAreAllWritten(b.asks, u.asks);
  }

  ghost predicate Positive(m: Levels)
  {
    forall p :: p in m ==> p > 0 && m[p] > 0
  }

  lemma {:induction false} WritingKeepsPositive(m: Levels, ls: seq<Level>)
    requires Positive(m)
    ensures Positive(PutAll(m, ls).0)
    decreases ls
  {
    if ls != [] && LevelOk(ls[0]) {
      WritingKeepsPositive(Put(m, ls[0]), ls[1..]);
    }
  }

  /**
   A book beside its history. `clean` holds until an update is refused for an invalid level or
   a crossed book; the next successful snapshot restores it.
   */
  datatype Chronicle = Chronicle(book: Book, bids: seq<Level>, asks: seq<Level>, clean: bool)

  const START := Chronicle(EMPTY, [], [], true)

  datatype Op =
    | Load(id: U64, bids: seq<Level>, asks: seq<Level>)
    | Diff(u: DepthUpdate)
    | Replay(id: U64, bids: seq<Level>, asks: seq<Level>, us: seq<DepthUpdate>)

  /** An update that wrote levels: all of them, or those before the invalid one that refused it. */
  function Recorded(k: Chronicle, book: Book, u: DepthUpdate, clean: bool): Chronicle
  {
    Chronicle(book, k.bids + Prefix(u.bids), k.asks + Prefix(AsksWritten(u)), clean)
  }

  function NoteDiff(k: Chronicle, u: DepthUpdate): Chronicle
  {
    var r := ApplyDiff(k.book, u);
    if r.1 == Ok(Applied.Applied) then Recorded(k, r.0, u, k.clean)
    else if r.1.Err? && r.1.error.Spoils() then Recorded(k, r.0, u, false)
    else k.(book := r.0)
  }

  function NoteAll(k: Chronicle, us: seq<DepthUpdate>): Chronicle
    decreases us
  {
    if us == [] then k
    else if ApplyDiff(k.book, us[0]).1.Err? then NoteDiff(k, us[0])
    else NoteAll(NoteDiff(k, us[0]), us[1..])
  }

  function NoteBridge(k: Chronicle, u: DepthUpdate): Chronicle
  {
    var r := ApplyBridge(k.book, u);
    if r.1.Pass? then Recorded(k, r.0, u, k.clean)
    else if r.1.error.Spoils() then Recorded(k, r.0, u, false)
    else k.(book := r.0)
  }

  function NoteLoad(k: Chronicle, id: U64, bids: seq<Level>, asks: seq<Level>): Chronicle
  {
    var r := LoadSnapshot(k.book, id, bids, asks);
    if r.1.Pass? then Chronicle(r.0, bids, asks, true) else k
  }

  function Note(k: Chronicle, op: Op): Chronicle
  {
    match op
    case Load(id, bids, asks) => NoteLoad(k, id, bids, asks)
    case Diff(u) => NoteDiff(k, u)
    case Replay(id, bids, asks, us) =>
      var loaded := NoteLoad(k, id, bids, asks);
      var i := FirstBridge(us, id);
      if LoadSnapshot(k.book, id, bids, asks).1.Fail? then k
      else if i == |us| then loaded.(book := loaded.book.(valid := false))
      else if ApplyBridge(loaded.book, us[i]).1.Fail? then NoteBridge(loaded, us[i])
      else NoteAll(NoteBridge(loaded, us[i]), us[i + 1..])
  }

  /** A run that never stops, whatever errors the operations return. */
  function Run(k: Chronicle, ops: seq<Op>): Chronicle
    decreases ops
  {
    if ops == [] then k else Run(Note(k, ops[0]), ops[1..])
  }

  /** What an operation really does to a book. */
  function Perform(b: Book, op: Op): Book
  {
    match op
    case Load(id, bids, asks) => LoadSnapshot(b, id, bids, asks).0
    case Diff(u) => ApplyDiff(b, u).0
    case Replay(id, bids, asks, us) => LoadAndReplay(b, id, bids, asks, us).0
  }

  ghost predicate MatchesHistory(k: Chronicle)
  {
    && (forall p: I64 :: QuantityIn(k.book.bids, p) == LastMention(k.bids, p, 0))
    && (forall p: I64 :: QuantityIn(k.book.asks, p) == LastMention(k.asks, p, 0))
  }

  ghost predicate Good(k: Chronicle)
  {
    && Positive(k.book.bids) && Positive(k.book.asks)
    && MatchesHistory(k)
    && (k.book.valid ==> k.book.lastId.Some?)
    && (k.clean && k.book.valid ==> !Crossed(k.book.bids, k.book.asks))
  }

  // ---------------------------------------------------------------- every run

  lemma WritingIsGood(k: Chronicle, u: DepthUpdate, clean: bool)
    requires Good(k)
    ensures var w := WriteLevels(k.book, u);
      && Positive(w.0.bids) && Positive(w.0.asks)
      && w.0.lastId == k.book.lastId && w.0.valid == k.book.valid
      && MatchesHistory(Recorded(k, w.0, u, clean))
  {
    var w := WriteLevels(k.book, u);
    WrittenSides(k.book, u);
    hide WriteLevels, Prefix, PutAll, AllOk;
    WritingKeepsPositive(k.book.bids, u.bids);
    WritingKeepsPositive(k.book.asks, AsksWritten(u));
    forall p: I64 ensures QuantityIn(w.0.bids, p) == LastMention(k.bids + Prefix(u.bids), p, 0) {
      WritingKeepsLastMention(k.book.bids, u.bids, p);
      MentionsConcatenate(k.bids, Prefix(u.bids), p, 0);
    }
    forall p: I64 ensures QuantityIn(w.0.asks, p) == LastMention(k.asks + Prefix(AsksWritten(u)), p, 0) {
      WritingKeepsLastMention(k.book.asks, AsksWritten(u), p);
      MentionsConcatenate(k.asks, Prefix(AsksWritten(u)), p, 0);
    }
  }

  /** What is recorded does not depend on the rest of the book. */
  lemma SameLevelsMatch(k: Chronicle, book: Book)
    requires MatchesHistory(k) && book.bids == k.book.bids && book.asks == k.book.asks
    ensures MatchesHistory(k.(book := book))
  {
  }

  lemma NoteDiffIsGood(k: Chronicle, u: DepthUpdate)
    requires Good(k)
    ensures Good(NoteDiff(k, u)) && NoteDiff(k, u).book == ApplyDiff(k.book, u).0
  {
    var w, r := WriteLevels(k.book, u).0, ApplyDiff(k.book, u);
    var clean := k.clean && r.1.Ok?;
    WritingIsGood(k, u, clean);
    hide WriteLevels, Positive, MatchesHistory, InSequence, Prefix, AsksWritten;
    if r.1 == Ok(Applied.Applied) || (r.1.Err? && r.1.error.Spoils()) {
      SameLevelsMatch(Recorded(k, w, u, clean), r.0);
    } else {
      SameLevelsMatch(k, r.0);
    }
  }

  lemma NoteBridgeIsGood(k: Chronicle, u: DepthUpdate)
    requires Good(k)
    ensures Good(NoteBridge(k, u)) && NoteBridge(k, u).book == ApplyBridge(k.book, u).0
  {
    var w, r := WriteLevels(k.book, u).0, ApplyBridge(k.book, u);
    var clean := k.clean && r.1.Pass?;
    WritingIsGood(k, u, clean);
    hide WriteLevels, Positive, MatchesHistory, Bridges, Prefix, AsksWritten;
    if r.1.Pass? || r.1.error.Spoils() {
      SameLevelsMatch(Recorded(k, w, u, clean), r.0);
    } else {
      SameLevelsMatch(k, r.0);
    }
  }

  lemma {:induction false} NoteAllIsGood(k: Chronicle, us: seq<DepthUpdate>)
    requires Good(k)
    ensures Good(NoteAll(k, us)) && NoteAll(k, us).book == ApplyAll(k.book, us).0
    decreases us
  {
    if us != [] {
      NoteDiffIsGood(k, us[0]);
      if ApplyDiff(k.book, us[0]).1.Ok? {
        NoteAllIsGood(NoteDiff(k, us[0]), us[1..]);
      }
    }
  }

  lemma NoteLoadIsGood(k: Chronicle, id: U64, bids: seq<Level>, asks: seq<Level>)
    requires Good(k)
    ensures Good(NoteLoad(k, id, bids, asks))
    ensures NoteLoad(k, id, bids, asks).book == LoadSnapshot(k.book, id, bids, asks).0
  {
    WritingKeepsPositive(map[], bids);
    WritingKeepsPositive(map[], asks);
    if LoadSnapshot(k.book, id, bids, asks).1.Pass? {
      ValidLevelsAreAllWritten(map[], bids);
      ValidLevelsAreAllWritten(map[], asks);
      forall p: I64 ensures QuantityIn(PutAll(map[], bids).0, p) == LastMention(bids, p, 0) {
        WritingKeepsLastMention(map[], bids, p);
      }
      forall p: I64 ensures QuantityIn(PutAll(map[], asks).0, p) == LastMention(asks, p, 0) {
        WritingKeepsLastMention(map[], asks, p);
      }
    }
  }

  lemma NoteIsGood(k: Chronicle, op: Op)
    requires Good(k)
    ensures Good(Note(k, op)) && Note(k, op).book == Perform(k.book, op)
  {
    match op {
      case Load(id, bids, asks) => NoteLoadIsGood(k, id, bids, asks);
      case Diff(u) => NoteDiffIsGood(k, u);
      case Replay(id, bids, asks, us) =>
        NoteLoadIsGood(k, id, bids, asks);
        var loaded := NoteLoad(k, id, bids, asks);
        var i := FirstBridge(us, id);
        if i < |us| {
          NoteBridgeIsGood(loaded, us[i]);
          NoteAllIsGood(NoteBridge(loaded, us[i]), us[i + 1..]);
        }
    }
  }

  /**
   After every run of snapshots, replays and diffs, errors included, stored prices and
   quantities are positive, and each quantity is the last one written since the last snapshot.
   Unless an update was refused for its levels since then, a valid book is also uncrossed.
   */
  lemma {:induction false} EveryRunIsGood(k: Chronicle, ops: seq<Op>)
    requires Good(k)
    ensures Good(Run(k, ops))
    decreases ops
  {
    if ops != [] {
      NoteIsGood(k, ops[0]);
      EveryRunIsGood(Note(k, ops[0]), ops[1..]);
    }
  }

  lemma BookMatchesItsHistory(ops: seq<Op>)
    ensures Good(Run(START, ops))
  {
    EveryRunIsGood(START, ops);
  }

  /** A book that keeps going after a level error can be valid and crossed. */
  lemma IgnoredLevelErrorCrossesTheBook()
    ensures var ops := [Load(10, [Level(99, 1)], [Level(101, 1)]),
                        Diff(DepthUpdate("ABCUSDT", 11, 12, Some(10), [Level(102, 1), Level(0, 1)], []))];
      var k := Run(START, ops);
      !k.clean && k.book.valid && Crossed(k.book.bids, k.book.asks)
  {
    var u := DepthUpdate("ABCUSDT", 11, 12, Some(10), [Level(102, 1), Level(0, 1)], []);
    var ops := [Load(10, [Level(99, 1)], [Level(101, 1)]), Diff(u)];
    assert ops[1..] == [Diff(u)] && ops[1..][1..] == [];
    var bids, asks := [Level(99, 1)], [Level(101, 1)];
    assert bids[1..] == [] && asks[1..] == [];
    assert PutAll(map[], bids) == (map[99 := 1], true);
    assert PutAll(map[], asks) == (map[101 := 1], true);
    var k := Note(START, ops[0]);
    assert k.book == Book(map[99 := 1], map[101 := 1], Some(10), true, true);
    assert u.bids[1..] == [Level(0, 1)];
    assert PutAll(k.book.bids, u.bids) == (map[99 := 1, 102 := 1], false);
    assert 102 in Note(k, ops[1]).book.bids && 101 in Note(k, ops[1]).book.asks;
  }

  /** An applied update strictly advances the last id; nothing else an update does moves it. */
  lemma AppliedAdvances(b: Book, u: DepthUpdate)
    ensures ApplyDiff(b, u).1 == Ok(Applied.Applied) ==>
      b.lastId.Some? && ApplyDiff(b, u).0.lastId.Some? && b.lastId.value < ApplyDiff(b, u).0.lastId.value
    ensures ApplyDiff(b, u).1 != Ok(Applied.Applied) ==> ApplyDiff(b, u).0.lastId == b.lastId
  {
  }
}
