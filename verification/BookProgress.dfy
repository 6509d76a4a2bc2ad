/**
 What an order book accepts, read off the ids and levels of updates alone: when a snapshot, an
 update, a bridge, a live run and a replay succeed, and what the book then holds.
 */
module BookProgress {
  import opened Machine
  import opened Outcomes
  import opened OrderBook
  import opened BookHistory

  /** Valid levels: positive prices and quantities that are not negative. */
  ghost predicate LevelsOk(ls: seq<Level>)
  {
    forall i :: 0 <= i < |ls| ==> ls[i].price > 0 && ls[i].quantity >= 0
  }

  /** After these levels have been written onto a book some bid reaches some ask. */
  ghost predicate Meets(b: Book, bids: seq<Level>, asks: seq<Level>)
  {
    exists p: I64, a: I64 :: Held(b.bids, bids, p) && Held(b.asks, asks, a) && p >= a
  }

  ghost predicate Held(m: Levels, ls: seq<Level>, p: I64)
  {
    LastMention(ls, p, QuantityIn(m, p)) > 0
  }

  /** A book that holds at each price what these levels mention last, or else what was there. */
  ghost predicate Amended(before: Book, bids: seq<Level>, asks: seq<Level>, after: Book)
  {
    && (forall p: I64 :: QuantityIn(after.bids, p) == LastMention(bids, p, QuantityIn(before.bids, p)))
    && (forall p: I64 :: QuantityIn(after.asks, p) == LastMention(asks, p, QuantityIn(before.asks, p)))
  }

  ghost predicate Sides(b: Book)
  {
    Positive(b.bids) && Positive(b.asks)
  }

  // ---------------------------------------------------------------- single operations

  lemma LevelsOkMeans(ls: seq<Level>)
    ensures LevelsOk(ls) <==> AllOk(ls)
  {
    if AllOk(ls) {
      assert forall i :: 0 <= i < |ls| ==> LevelOk(ls[i]);
    }
  }

  lemma HeldIsWritten(m: Levels, ls: seq<Level>, p: I64)
    requires Positive(m) && AllOk(ls)
    ensures p in PutAll(m, ls).0 <==> Held(m, ls, p)
  {
    ValidLevelsAreAllWritten(m, ls);
    WritingKeepsLastMention(m, ls, p);
    WritingKeepsPositive(m, ls);
  }

  lemma CrossedIsMet(b: Book, bids: seq<Level>, asks: seq<Level>)
    requires Sides(b) && AllOk(bids) && AllOk(asks)
    ensures Crossed(PutAll(b.bids, bids).0, PutAll(b.asks, asks).0) <==> Meets(b, bids, asks)
  {
    forall p ensures p in PutAll(b.bids, bids).0 <==> Held(b.bids, bids, p) { HeldIsWritten(b.bids, bids, p); }
    forall a ensures a in PutAll(b.asks, asks).0 <==> Held(b.asks, asks, a) { HeldIsWritten(b.asks, asks, a); }
    hide PutAll, AllOk, Held;
  }

  lemma WritingAmends(b: Book, bids: seq<Level>, asks: seq<Level>, after: Book)
    requires Sides(b) && AllOk(bids) && AllOk(asks)
    requires after.bids == PutAll(b.bids, bids).0 && after.asks == PutAll(b.asks, asks).0
    ensures Amended(b, bids, asks, after) && Sides(after)
  {
    ValidLevelsAreAllWritten(b.bids, bids);
    ValidLevelsAreAllWritten(b.asks, asks);
    WritingKeepsPositive(b.bids, bids);
    WritingKeepsPositive(b.asks, asks);
    hide PutAll, AllOk;
    forall p: I64 ensures QuantityIn(after.bids, p) == LastMention(bids, p, QuantityIn(b.bids, p)) {
      WritingKeepsLastMention(b.bids, bids, p);
    }
    forall p: I64 ensures QuantityIn(after.asks, p) == LastMention(asks, p, QuantityIn(b.asks, p)) {
      WritingKeepsLastMention(b.asks, asks, p);
    }
  }

  /** A snapshot is loaded exactly if its levels are valid and uncrossed, and replaces all that was there. */
  lemma SnapshotVerdict(b: Book, id: U64, bids: seq<Level>, asks: seq<Level>)
    ensures var r := LoadSnapshot(b, id, bids, asks);
      && (r.1 == Fail(InvalidLevel) <==> !LevelsOk(bids) || !LevelsOk(asks))
      && (r.1 == Fail(CrossedBook) <==> LevelsOk(bids) && LevelsOk(asks) && Meets(EMPTY, bids, asks))
      && (r.1.Pass? <==> LevelsOk(bids) && LevelsOk(asks) && !Meets(EMPTY, bids, asks))
      && (r.1.Pass? ==>
            && r.0.valid && r.0.awaiting && r.0.lastId == Some(id)
            && Amended(EMPTY, bids, asks, r.0) && Sides(r.0))
      && (r.1.Fail? ==> r.0 == b)
  {
    LevelsOkMeans(bids);
    LevelsOkMeans(asks);
    ValidLevelsAreAllWritten(map[], bids);
    ValidLevelsAreAllWritten(map[], asks);
    if AllOk(bids) && AllOk(asks) {
      CrossedIsMet(EMPTY, bids, asks);
      WritingAmends(EMPTY, bids, asks, LoadSnapshot(b, id, bids, asks).0.(
        bids := PutAll(map[], bids).0, asks := PutAll(map[], asks).0));
    }
    hide PutAll, AllOk, LevelsOk, Meets, Amended, Crossed, Positive;
  }

  /**
   A new update follows a snapshot if it starts no later than the next id or names a predecessor
   that the snapshot covers; later on only if it names the last id itself.
   */
  ghost predicate Follows(u: DepthUpdate, last: U64, awaiting: bool)
  {
    && u.finalId > last
    && if awaiting then u.firstId <= last + 1 || (u.previousFinalId.Some? && u.previousFinalId.value <= last)
       else u.previousFinalId == Some(last)
  }

  ghost predicate Writable(b: Book, u: DepthUpdate)
  {
    LevelsOk(u.bids) && LevelsOk(u.asks) && !Meets(b, u.bids, u.asks)
  }

  lemma WritingVerdict(b: Book, u: DepthUpdate)
    requires Sides(b)
    ensures var w := WriteLevels(b, u);
      && (w.1 <==> LevelsOk(u.bids) && LevelsOk(u.asks))
      && (w.1 ==> (Crossed(w.0.bids, w.0.asks) <==> Meets(b, u.bids, u.asks)))
      && (w.1 ==> Amended(b, u.bids, u.asks, w.0) && Sides(w.0))
  {
    LevelsOkMeans(u.bids);
    LevelsOkMeans(u.asks);
    WrittenSides(b, u);
    if AllOk(u.bids) && AllOk(u.asks) {
      CrossedIsMet(b, u.bids, u.asks);
      WritingAmends(b, u.bids, u.asks, WriteLevels(b, u).0);
    }
  }

  /** Without a valid book nothing is accepted and nothing changes, whatever the update. */
  lemma SnapshotIsRequired(b: Book, u: DepthUpdate)
    ensures ApplyDiff(b, u).1 == Err(SnapshotRequired) <==> !b.valid || b.lastId.None?
    ensures !b.valid || b.lastId.None? ==> ApplyDiff(b, u).0 == b
  {
  }

  /** What became of an update: nothing, a refusal, or a book that stands at its last id. */
  lemma DiffVerdict(b: Book, u: DepthUpdate)
    requires Sides(b) && b.valid && b.lastId.Some?
    ensures var r, last := ApplyDiff(b, u), b.lastId.value;
      && (r.1 == Ok(Duplicate) <==> u.finalId <= last)
      && (r.1.Err? && r.1.error.SequenceGap? <==> u.finalId > last && !Follows(u, last, b.awaiting))
      && (r.1.Err? && r.1.error.SequenceGap? ==>
            r.1.error.expected == last + 1 && r.1.error.first == u.firstId && r.1.error.previous == u.previousFinalId)
      && (r.1 == Err(InvalidLevel) <==>
            Follows(u, last, b.awaiting) && !(LevelsOk(u.bids) && LevelsOk(u.asks)))
      && (r.1 == Err(CrossedBook) <==>
            Follows(u, last, b.awaiting) && LevelsOk(u.bids) && LevelsOk(u.asks) && Meets(b, u.bids, u.asks))
      && (r.1 == Ok(Applied.Applied) <==> Follows(u, last, b.awaiting) && Writable(b, u))
    ensures var r := ApplyDiff(b, u);
      && (r.1 == Ok(Duplicate) ==> r.0 == b)
      && (r.1.Err? && r.1.error.SequenceGap? ==> r.0 == b.(valid := false))
      && (r.1 == Err(CrossedBook) ==> !r.0.valid)
      && (r.1 == Ok(Applied.Applied) ==>
            && r.0.valid && !r.0.awaiting && r.0.lastId == Some(u.finalId)
            && Amended(b, u.bids, u.asks, r.0) && Sides(r.0))
  {
    WritingVerdict(b, u);
    hide WriteLevels, LevelsOk, Meets, Amended, Crossed, Positive;
  }

  /** The bridge of a replay follows its snapshot in the same sense; at the last id it has to end there. */
  ghost predicate BridgesTo(u: DepthUpdate, last: U64)
  {
    if last < U64_MAX then Follows(u, last, true) else u.finalId == U64_MAX
  }

  lemma BridgeVerdict(b: Book, u: DepthUpdate)
    requires Sides(b) && b.lastId.Some?
    ensures Bridges(u, b.lastId.value) <==> BridgesTo(u, b.lastId.value)
    ensures var r, last := ApplyBridge(b, u), b.lastId.value;
      && (r.1.Pass? <==> BridgesTo(u, last) && Writable(b, u))
      && (r.1.Fail? && r.1.error.SequenceGap? <==> !BridgesTo(u, last))
      && (!BridgesTo(u, last) ==>
            r == (b.(valid := false), Fail(SequenceGap(Min(last + 1, U64_MAX), u.firstId, u.previousFinalId))))
      && (r.1 == Fail(InvalidLevel) <==> BridgesTo(u, last) && !(LevelsOk(u.bids) && LevelsOk(u.asks)))
      && (r.1.Fail? && BridgesTo(u, last) ==> r.0.valid == b.valid && r.0.lastId == b.lastId)
      && (r.1.Pass? ==>
            && r.0.valid == b.valid && !r.0.awaiting && r.0.lastId == Some(u.finalId)
            && Amended(b, u.bids, u.asks, r.0) && Sides(r.0))
  {
    WritingVerdict(b, u);
    hide WriteLevels, LevelsOk, Meets, Amended, Crossed, Positive;
  }

  // ---------------------------------------------------------------- live runs

  function AllBids(us: seq<DepthUpdate>): seq<Level>
  {
    if us == [] then [] else AllBids(us[..|us| - 1]) + us[|us| - 1].bids
  }

  function AllAsks(us: seq<DepthUpdate>): seq<Level>
  {
    if us == [] then [] else AllAsks(us[..|us| - 1]) + us[|us| - 1].asks
  }

  /** Update number `i` follows the one before it, and the levels written so far stay valid and uncrossed. */
  ghost predicate StepOk(b: Book, us: seq<DepthUpdate>, i: nat)
    requires b.lastId.Some? && i < |us|
  {
    && (if i == 0 then Follows(us[0], b.lastId.value, b.awaiting) else Follows(us[i], us[i - 1].finalId, false))
    && LevelsOk(us[i].bids) && LevelsOk(us[i].asks)
    && !Meets(b, AllBids(us[..i + 1]), AllAsks(us[..i + 1]))
  }

  ghost predicate Progresses(b: Book, us: seq<DepthUpdate>)
    requires b.lastId.Some?
  {
    forall i :: 0 <= i < |us| ==> StepOk(b, us, i)
  }

  lemma {:induction false} ApplyAllOneMore(b: Book, us: seq<DepthUpdate>, u: DepthUpdate)
    ensures var r, all := ApplyAll(b, us), ApplyAll(b, us + [u]);
      && (r.1.Ok? ==> r.1.value <= |us|)
      && (r.1.Err? ==> all == r)
      && (r.1.Ok? ==>
            var last := ApplyDiff(r.0, u);
            && all.0 == last.0 && (all.1.Ok? <==> last.1.Ok?)
            && (all.1.Err? ==> all.1.error == last.1.error)
            && (all.1.Ok? ==> all.1.value == r.1.value + if last.1.value.Applied? then 1 else 0))
    decreases us
  {
    if us == [] {
      assert us + [u] == [u] && [u][1..] == [];
    } else {
      assert (us + [u])[1..] == us[1..] + [u];
      hide ApplyDiff;
      ApplyAllOneMore(ApplyDiff(b, us[0]).0, us[1..], u);
    }
  }

  lemma AmendedTwice(a: Book, b: Book, c: Book, bids: seq<Level>, asks: seq<Level>, u: DepthUpdate)
    requires Amended(a, bids, asks, b)
    ensures Amended(b, u.bids, u.asks, c) ==> Amended(a, bids + u.bids, asks + u.asks, c)
    ensures Meets(b, u.bids, u.asks) <==> Meets(a, bids + u.bids, asks + u.asks)
  {
    forall p: I64 ensures
      LastMention(bids + u.bids, p, QuantityIn(a.bids, p)) == LastMention(u.bids, p, QuantityIn(b.bids, p))
    {
      MentionsConcatenate(bids, u.bids, p, QuantityIn(a.bids, p));
    }
    forall p: I64 ensures
      LastMention(asks + u.asks, p, QuantityIn(a.asks, p)) == LastMention(u.asks, p, QuantityIn(b.asks, p))
    {
      MentionsConcatenate(asks, u.asks, p, QuantityIn(a.asks, p));
    }
    hide LastMention, QuantityIn;
    assert forall p :: Held(b.bids, u.bids, p) <==> Held(a.bids, bids + u.bids, p);
    assert forall p :: Held(b.asks, u.asks, p) <==> Held(a.asks, asks + u.asks, p);
  }

  /** A book after such a run: it stands at the last id of the run and holds what was mentioned last. */
  ghost predicate Stands(b: Book, us: seq<DepthUpdate>, after: Book)
    requires b.lastId.Some?
  {
    && after.valid && Sides(after)
    && after.lastId == (if us == [] then b.lastId else Some(us[|us| - 1].finalId))
    && after.awaiting == (us == [] && b.awaiting)
    && Amended(b, AllBids(us), AllAsks(us), after)
  }

  /**
   A live run applies every one of its updates if and only if each follows the one before it with
   valid levels that leave the book uncrossed. It then stands at the last id and holds at each
   price what was mentioned last.
   */
  lemma {:induction false} LiveRunsApplyExactly(b: Book, us: seq<DepthUpdate>)
    requires Sides(b) && b.valid && b.lastId.Some?
    ensures var r := ApplyAll(b, us);
      && (r.1 == Ok(|us|) <==> Progresses(b, us))
      && (r.1 == Ok(|us|) ==> Stands(b, us, r.0))
    decreases |us|
  {
    hide ApplyAll, ApplyDiff, Progresses, StepOk, Stands;
    if us == [] {
      NothingApplied(b);
    } else {
      var n := |us| - 1;
      var init, u := us[..n], us[n];
      assert us == init + [u];
      LiveRunsApplyExactly(b, init);
      ApplyAllOneMore(b, init, u);
      ProgressOneMore(b, init, u);
      if ApplyAll(b, init).1 == Ok(n) {
        OneMoreApplied(b, init, ApplyAll(b, init).0, u);
      }
    }
  }

  lemma NothingApplied(b: Book)
    requires Sides(b) && b.valid && b.lastId.Some?
    ensures ApplyAll(b, []) == (b, Ok(0)) && Progresses(b, []) && Stands(b, [], b)
  {
  }

  lemma ProgressOneMore(b: Book, us: seq<DepthUpdate>, u: DepthUpdate)
    requires b.lastId.Some?
    ensures Progresses(b, us + [u]) <==> Progresses(b, us) && StepOk(b, us + [u], |us|)
  {
    var all := us + [u];
    forall i | 0 <= i < |us| ensures StepOk(b, all, i) <==> StepOk(b, us, i) {
      assert all[..i + 1] == us[..i + 1];
    }
    hide StepOk;
  }

  lemma OneMoreApplied(b: Book, us: seq<DepthUpdate>, after: Book, u: DepthUpdate)
    requires b.lastId.Some? && Stands(b, us, after)
    ensures var r := ApplyDiff(after, u);
      && (r.1 == Ok(Applied.Applied) <==> StepOk(b, us + [u], |us|))
      && (r.1 == Ok(Applied.Applied) ==> Stands(b, us + [u], r.0))
  {
    var all := us + [u];
    assert all[..|us|] == us && all[..|us| + 1] == all;
    DiffVerdict(after, u);
    AmendedTwice(b, after, ApplyDiff(after, u).0, AllBids(us), AllAsks(us), u);
    hide ApplyDiff, Amended, Meets, LevelsOk, Positive;
  }

  // ---------------------------------------------------------------- updates that bring nothing new

  /** The updates that reach beyond all before them. */
  function News(last: U64, us: seq<DepthUpdate>): seq<DepthUpdate>
    decreases us
  {
    if us == [] then []
    else if us[0].finalId <= last then News(last, us[1..])
    else [us[0]] + News(us[0].finalId, us[1..])
  }

  /** All others are duplicates: with or without them a run ends the same, and it applies the rest. */
  lemma {:induction false} OnlyNewsCounts(b: Book, us: seq<DepthUpdate>)
    requires b.valid && b.lastId.Some?
    ensures ApplyAll(b, us) == ApplyAll(b, News(b.lastId.value, us))
    ensures ApplyAll(b, us).1.Ok? ==> ApplyAll(b, us).1.value == |News(b.lastId.value, us)|
    decreases us
  {
    if us != [] {
      var last, first := b.lastId.value, ApplyDiff(b, us[0]);
      if us[0].finalId <= last {
        OnlyNewsCounts(b, us[1..]);
      } else {
        assert ([us[0]] + News(us[0].finalId, us[1..]))[1..] == News(us[0].finalId, us[1..]);
        if first.1.Ok? {
          OnlyNewsCounts(first.0, us[1..]);
        }
      }
    }
  }

  /** So a live run succeeds exactly if what is new in it progresses, whatever is offered twice. */
  lemma LiveRunsSucceedExactly(b: Book, us: seq<DepthUpdate>)
    requires Sides(b) && b.valid && b.lastId.Some?
    ensures var r, news := ApplyAll(b, us), News(b.lastId.value, us);
      && (r.1.Ok? <==> Progresses(b, news))
      && (r.1.Ok? ==> r.1.value == |news| && Stands(b, news, r.0))
  {
    var news := News(b.lastId.value, us);
    OnlyNewsCounts(b, us);
    LiveRunsApplyExactly(b, news);
  }

  function IdBefore(last: U64, us: seq<DepthUpdate>, i: nat): U64
    requires i < |us|
  {
    if i == 0 then last else us[i - 1].finalId
  }

  predicate Rising(last: U64, us: seq<DepthUpdate>)
  {
    forall i :: 0 <= i < |us| ==> IdBefore(last, us, i) < us[i].finalId
  }

  lemma {:induction false} NewsRises(last: U64, us: seq<DepthUpdate>)
    ensures Rising(last, News(last, us))
    decreases us
  {
    if us != [] {
      NewsRises(last, us[1..]);
      NewsRises(us[0].finalId, us[1..]);
      var rest := News(us[0].finalId, us[1..]);
      assert forall i :: 0 < i < |rest| + 1 ==> IdBefore(last, [us[0]] + rest, i) == IdBefore(us[0].finalId, rest, i - 1);
    }
  }

  /** Up to update number `k` all is well, and that one does not follow. */
  ghost predicate BreaksAt(b: Book, us: seq<DepthUpdate>, k: nat)
    requires b.lastId.Some?
  {
    && k < |us| && (forall i :: 0 <= i < k ==> StepOk(b, us, i))
    && !(if k == 0 then Follows(us[0], b.lastId.value, b.awaiting) else Follows(us[k], us[k - 1].finalId, false))
  }

  ghost predicate Breaks(b: Book, us: seq<DepthUpdate>)
    requires b.lastId.Some?
  {
    exists k :: BreaksAt(b, us, k)
  }

  predicate EndsInAGap(r: Result<nat, BookError>)
  {
    r.Err? && r.error.SequenceGap?
  }

  /** A live run of news ends in a gap if and only if the first update at fault is one that does not follow. */
  lemma {:induction false} LiveRunsBreakExactly(b: Book, us: seq<DepthUpdate>)
    requires Sides(b) && b.valid && b.lastId.Some? && Rising(b.lastId.value, us)
    ensures EndsInAGap(ApplyAll(b, us).1) <==> Breaks(b, us)
    ensures ApplyAll(b, us).1.Ok? ==> ApplyAll(b, us).1.value == |us|
    decreases |us|
  {
    hide ApplyAll, ApplyDiff, Progresses, StepOk, Stands, BreaksAt, Breaks, Rising, Positive;
    if us == [] {
      NothingBreaks(b);
    } else {
      var n := |us| - 1;
      var init, u := us[..n], us[n];
      assert us == init + [u];
      RisingBefore(b.lastId.value, init, u);
      LiveRunsBreakExactly(b, init);
      LiveRunsApplyExactly(b, init);
      ApplyAllOneMore(b, init, u);
      BreakOneMore(b, init, u);
      if ApplyAll(b, init).1.Ok? {
        OneMoreBreaks(b, init, ApplyAll(b, init).0, u);
      }
    }
  }

  lemma NothingBreaks(b: Book)
    requires b.lastId.Some?
    ensures ApplyAll(b, []) == (b, Ok(0)) && !Breaks(b, [])
  {
  }

  lemma BreakOneMore(b: Book, us: seq<DepthUpdate>, u: DepthUpdate)
    requires b.lastId.Some?
    ensures Breaks(b, us + [u]) <==> Breaks(b, us) || BreaksAt(b, us + [u], |us|)
    ensures BreaksAt(b, us + [u], |us|) ==> Progresses(b, us)
    ensures Progresses(b, us) ==> !Breaks(b, us)
  {
    var all := us + [u];
    forall i | 0 <= i < |us| ensures StepOk(b, all, i) <==> StepOk(b, us, i) {
      assert all[..i + 1] == us[..i + 1];
    }
    assert forall k: nat :: BreaksAt(b, us, k) ==> !StepOk(b, us, k);
    hide StepOk;
    assert forall k: nat :: k < |us| ==> (BreaksAt(b, all, k) <==> BreaksAt(b, us, k));
  }

  lemma RisingBefore(last: U64, us: seq<DepthUpdate>, u: DepthUpdate)
    requires Rising(last, us + [u])
    ensures Rising(last, us) && u.finalId > if us == [] then last else us[|us| - 1].finalId
  {
    var all := us + [u];
    assert IdBefore(last, all, |us|) < all[|us|].finalId;
    forall i | 0 <= i < |us| ensures IdBefore(last, us, i) < us[i].finalId {
      assert IdBefore(last, all, i) < all[i].finalId;
    }
  }

  lemma OneMoreBreaks(b: Book, us: seq<DepthUpdate>, after: Book, u: DepthUpdate)
    requires b.lastId.Some? && Stands(b, us, after) && Progresses(b, us) && Rising(b.lastId.value, us + [u])
    ensures var r := ApplyDiff(after, u);
      && (r.1.Err? && r.1.error.SequenceGap? <==> BreaksAt(b, us + [u], |us|))
      && r.1 != Ok(Duplicate)
  {
    DiffVerdict(after, u);
    RisingBefore(b.lastId.value, us, u);
    var all := us + [u];
    forall i | 0 <= i < |us| ensures StepOk(b, all, i) {
      assert StepOk(b, us, i) && all[..i + 1] == us[..i + 1];
    }
    hide ApplyDiff, Amended, Meets, LevelsOk, Positive, AllBids, AllAsks, StepOk;
  }

  // ---------------------------------------------------------------- replays

  /** The first update that bridges the snapshot, and what is new after it. */
  ghost function Replayed(id: U64, us: seq<DepthUpdate>, i: nat): seq<DepthUpdate>
    requires i < |us|
  {
    [us[i]] + News(us[i].finalId, us[i + 1..])
  }

  ghost predicate FirstToBridge(id: U64, us: seq<DepthUpdate>, i: nat)
  {
    i < |us| && BridgesTo(us[i], id) && forall j :: 0 <= j < i ==> !BridgesTo(us[j], id)
  }

  /** The replayed updates follow one another, and snapshot and levels written so far are valid and uncrossed. */
  ghost predicate ReplayStepOk(bids: seq<Level>, asks: seq<Level>, ws: seq<DepthUpdate>, k: nat)
    requires k < |ws|
  {
    && (k > 0 ==> Follows(ws[k], ws[k - 1].finalId, false))
    && LevelsOk(ws[k].bids) && LevelsOk(ws[k].asks)
    && !Meets(EMPTY, bids + AllBids(ws[..k + 1]), asks + AllAsks(ws[..k + 1]))
  }

  ghost predicate SnapshotOk(bids: seq<Level>, asks: seq<Level>)
  {
    LevelsOk(bids) && LevelsOk(asks) && !Meets(EMPTY, bids, asks)
  }

  /** Loading a snapshot, in these terms. */
  lemma LoadingMeans(b: Book, id: U64, bids: seq<Level>, asks: seq<Level>)
    ensures var r := LoadSnapshot(b, id, bids, asks);
      && (r.1.Pass? <==> SnapshotOk(bids, asks))
      && (r.1.Pass? ==> r.0.valid && r.0.awaiting && r.0.lastId == Some(id) && Amended(EMPTY, bids, asks, r.0))
      && (r.1.Fail? ==> r.0 == b)
  {
    SnapshotVerdict(b, id, bids, asks);
    hide LoadSnapshot, LevelsOk, Meets, Amended;
  }

  ghost predicate ReplayOk(id: U64, bids: seq<Level>, asks: seq<Level>, us: seq<DepthUpdate>, i: nat)
  {
    && SnapshotOk(bids, asks) && FirstToBridge(id, us, i)
    && var ws := Replayed(id, us, i);
    && forall k :: 0 <= k < |ws| ==> ReplayStepOk(bids, asks, ws, k)
  }

  /** The book of a snapshot followed by these updates. */
  ghost predicate IsBookOf(b: Book, bids: seq<Level>, asks: seq<Level>, ws: seq<DepthUpdate>)
    requires ws != []
  {
    && b.valid && !b.awaiting && b.lastId == Some(ws[|ws| - 1].finalId) && Sides(b)
    && Amended(EMPTY, bids + AllBids(ws), asks + AllAsks(ws), b)
  }

  lemma BridgesMeans(us: seq<DepthUpdate>, id: U64)
    ensures forall i :: 0 <= i < |us| ==> (Bridges(us[i], id) <==> BridgesTo(us[i], id))
  {
    var b := Book(map[], map[], Some(id), true, true);
    forall i | 0 <= i < |us| ensures Bridges(us[i], id) <==> BridgesTo(us[i], id) {
      BridgeVerdict(b, us[i]);
    }
  }

  lemma FirstBridgeMeans(us: seq<DepthUpdate>, id: U64, i: nat)
    ensures FirstToBridge(id, us, i) <==> i == FirstBridge(us, id) < |us|
  {
    BridgesMeans(us, id);
    hide Bridges, BridgesTo, FirstBridge;
  }

  /**
   A replay succeeds if and only if the snapshot is sound and the updates from the first bridging one
   on, without what brings nothing new, follow one another with valid levels that never cross. The
   book is then that of the snapshot followed by exactly those updates.
   */
  lemma ReplaysSucceedExactly(b: Book, id: U64, bids: seq<Level>, asks: seq<Level>, us: seq<DepthUpdate>)
    ensures var r := LoadAndReplay(b, id, bids, asks, us);
      && (r.1.Ok? <==> exists i :: ReplayOk(id, bids, asks, us, i))
      && (r.1.Ok? ==> r.1.value == |us|)
      && forall i :: ReplayOk(id, bids, asks, us, i) ==> IsBookOf(r.0, bids, asks, Replayed(id, us, i))
  {
    var loaded, i := LoadSnapshot(b, id, bids, asks), FirstBridge(us, id);
    SnapshotVerdict(b, id, bids, asks);
    forall j: nat ensures FirstToBridge(id, us, j) <==> j == i < |us| {
      FirstBridgeMeans(us, id, j);
    }
    hide LoadSnapshot, FirstBridge, FirstToBridge, ReplayStepOk, IsBookOf, Bridges, Meets, LevelsOk, Amended;
    if loaded.1.Pass? && i < |us| {
      BridgeThenRest(loaded.0, id, bids, asks, us, i);
    }
    hide ApplyBridge, ApplyAll, News, Replayed;
    assert LoadAndReplay(b, id, bids, asks, us).1.Ok? ==> ReplayOk(id, bids, asks, us, i);
  }

  lemma BridgeThenRest(s: Book, id: U64, bids: seq<Level>, asks: seq<Level>, us: seq<DepthUpdate>, i: nat)
    requires i < |us| && BridgesTo(us[i], id)
    requires Sides(s) && s.valid && s.lastId == Some(id) && Amended(EMPTY, bids, asks, s)
    ensures var ws, bridged := Replayed(id, us, i), ApplyBridge(s, us[i]);
      && (bridged.1.Pass? && ApplyAll(bridged.0, us[i + 1..]).1.Ok? <==>
            forall k :: 0 <= k < |ws| ==> ReplayStepOk(bids, asks, ws, k))
      && (bridged.1.Pass? && ApplyAll(bridged.0, us[i + 1..]).1.Ok? ==>
            IsBookOf(ApplyAll(bridged.0, us[i + 1..]).0, bids, asks, ws))
  {
    var u, rest, bridged := us[i], News(us[i].finalId, us[i + 1..]), ApplyBridge(s, us[i]);
    BridgeVerdict(s, u);
    AmendedTwice(EMPTY, s, bridged.0, bids, asks, u);
    FirstReplayStep(bids, asks, u, rest);
    if bridged.1.Pass? {
      LiveRunsSucceedExactly(bridged.0, us[i + 1..]);
      RestOfReplay(bridged.0, bids, asks, u, rest);
      hide ApplyAll, ApplyBridge, ReplayStepOk, IsBookOf, Stands, Progresses, News;
      if ApplyAll(bridged.0, us[i + 1..]).1.Ok? {
        BookOfReplay(bridged.0, bids, asks, u, rest, ApplyAll(bridged.0, us[i + 1..]).0);
      }
    } else {
      assert !ReplayStepOk(bids, asks, Replayed(id, us, i), 0);
    }
  }

  lemma FirstReplayStep(bids: seq<Level>, asks: seq<Level>, u: DepthUpdate, rest: seq<DepthUpdate>)
    ensures ReplayStepOk(bids, asks, [u] + rest, 0)
      <==> LevelsOk(u.bids) && LevelsOk(u.asks) && !Meets(EMPTY, bids + u.bids, asks + u.asks)
  {
    assert ([u] + rest)[..1] == [u] && [u][..0] == [];
    assert AllBids([u]) == [] + u.bids == u.bids && AllAsks([u]) == [] + u.asks == u.asks;
  }

  lemma {:induction false} AllFrom(u: DepthUpdate, us: seq<DepthUpdate>)
    ensures AllBids([u] + us) == u.bids + AllBids(us) && AllAsks([u] + us) == u.asks + AllAsks(us)
    decreases |us|
  {
    if us == [] {
      assert [u] + us == [u] && [u][..0] == [];
    } else {
      var n := |us| - 1;
      assert ([u] + us)[..|us|] == [u] + us[..n];
      AllFrom(u, us[..n]);
      assert u.bids + AllBids(us[..n]) + us[n].bids == u.bids + (AllBids(us[..n]) + us[n].bids);
      assert u.asks + AllAsks(us[..n]) + us[n].asks == u.asks + (AllAsks(us[..n]) + us[n].asks);
    }
  }

  lemma AmendedFrom(b: Book, bids: seq<Level>, asks: seq<Level>, moreBids: seq<Level>, moreAsks: seq<Level>, c: Book)
    requires Amended(EMPTY, bids, asks, b)
    ensures Amended(b, moreBids, moreAsks, c) ==> Amended(EMPTY, bids + moreBids, asks + moreAsks, c)
    ensures Meets(b, moreBids, moreAsks) <==> Meets(EMPTY, bids + moreBids, asks + moreAsks)
  {
    AmendedTwice(EMPTY, b, c, bids, asks, DepthUpdate("", 0, 0, None, moreBids, moreAsks));
  }

  lemma RestStep(b: Book, bids: seq<Level>, asks: seq<Level>, u: DepthUpdate, rest: seq<DepthUpdate>, k: nat)
    requires b.lastId == Some(u.finalId) && !b.awaiting && Amended(EMPTY, bids + u.bids, asks + u.asks, b)
    requires 0 < k <= |rest|
    ensures ReplayStepOk(bids, asks, [u] + rest, k) <==> StepOk(b, rest, k - 1)
  {
    hide Meets, Amended, LevelsOk, AllBids, AllAsks;
    var ws, part := [u] + rest, rest[..k];
    assert ws[..k + 1] == [u] + part;
    AllFrom(u, part);
    AmendedFrom(b, bids + u.bids, asks + u.asks, AllBids(part), AllAsks(part), b);
    assert bids + u.bids + AllBids(part) == bids + (u.bids + AllBids(part));
    assert asks + u.asks + AllAsks(part) == asks + (u.asks + AllAsks(part));
  }

  lemma RestOfReplay(b: Book, bids: seq<Level>, asks: seq<Level>, u: DepthUpdate, rest: seq<DepthUpdate>)
    requires b.lastId == Some(u.finalId) && !b.awaiting && Amended(EMPTY, bids + u.bids, asks + u.asks, b)
    ensures Progresses(b, rest)
      <==> forall k :: 0 < k < |[u] + rest| ==> ReplayStepOk(bids, asks, [u] + rest, k)
  {
    var ws := [u] + rest;
    forall k | 0 < k < |ws| ensures ReplayStepOk(bids, asks, ws, k) <==> StepOk(b, rest, k - 1) {
      RestStep(b, bids, asks, u, rest, k);
    }
    hide ReplayStepOk, StepOk;
    if forall k :: 0 < k < |ws| ==> ReplayStepOk(bids, asks, ws, k) {
      forall i | 0 <= i < |rest| ensures StepOk(b, rest, i) {
        assert ReplayStepOk(bids, asks, ws, i + 1);
      }
    }
  }

  lemma BookOfReplay(
    b: Book, bids: seq<Level>, asks: seq<Level>, u: DepthUpdate, rest: seq<DepthUpdate>, after: Book)
    requires b.lastId == Some(u.finalId) && !b.awaiting && Amended(EMPTY, bids + u.bids, asks + u.asks, b)
    requires Stands(b, rest, after)
    ensures IsBookOf(after, bids, asks, [u] + rest)
  {
    AllFrom(u, rest);
    AmendedFrom(b, bids + u.bids, asks + u.asks, AllBids(rest), AllAsks(rest), after);
    assert bids + u.bids + AllBids(rest) == bids + (u.bids + AllBids(rest));
    assert asks + u.asks + AllAsks(rest) == asks + (u.asks + AllAsks(rest));
    hide Amended, AllBids, AllAsks;
  }

  /** Up to replayed update number `k` all is well, and that one does not follow the one before it. */
  ghost predicate ReplayBreaksAt(bids: seq<Level>, asks: seq<Level>, ws: seq<DepthUpdate>, k: nat)
  {
    && 0 < k < |ws| && (forall j :: 0 <= j < k ==> ReplayStepOk(bids, asks, ws, j))
    && !Follows(ws[k], ws[k - 1].finalId, false)
  }

  ghost predicate ReplayBreaks(id: U64, bids: seq<Level>, asks: seq<Level>, us: seq<DepthUpdate>, i: nat)
  {
    FirstToBridge(id, us, i) && exists k :: ReplayBreaksAt(bids, asks, Replayed(id, us, i), k)
  }

  /**
   A replay of a sound snapshot ends in a gap if and only if nothing bridges the snapshot, or the first
   update at fault is one that does not follow the one before it.
   */
  lemma ReplaysBreakExactly(b: Book, id: U64, bids: seq<Level>, asks: seq<Level>, us: seq<DepthUpdate>)
    ensures EndsInAGap(LoadAndReplay(b, id, bids, asks, us).1) <==>
      && SnapshotOk(bids, asks)
      && ((forall i: nat :: !FirstToBridge(id, us, i)) || exists i :: ReplayBreaks(id, bids, asks, us, i))
    ensures SnapshotOk(bids, asks) && (forall i: nat :: !FirstToBridge(id, us, i)) ==>
      LoadAndReplay(b, id, bids, asks, us) == (
        LoadSnapshot(b, id, bids, asks).0.(valid := false),
        Err(SequenceGap(
          Min(id + 1, U64_MAX), if us == [] then 0 else us[0].firstId, if us == [] then None else us[0].previousFinalId)))
  {
    var loaded, i := LoadSnapshot(b, id, bids, asks), FirstBridge(us, id);
    SnapshotVerdict(b, id, bids, asks);
    forall j: nat ensures FirstToBridge(id, us, j) <==> j == i < |us| {
      FirstBridgeMeans(us, id, j);
    }
    hide LoadSnapshot, FirstBridge, FirstToBridge, ReplayBreaksAt, Bridges, Meets, LevelsOk, Amended;
    if loaded.1.Pass? && i < |us| {
      BridgeThenGap(loaded.0, id, bids, asks, us, i);
      hide ApplyBridge, ApplyAll, News, Replayed;
      assert FirstToBridge(id, us, i);
      assert EndsInAGap(LoadAndReplay(b, id, bids, asks, us).1) <==> ReplayBreaks(id, bids, asks, us, i);
      forall j: nat | ReplayBreaks(id, bids, asks, us, j) ensures j == i {
        assert FirstToBridge(id, us, j);
      }
    } else {
      forall j: nat ensures !ReplayBreaks(id, bids, asks, us, j) || !loaded.1.Pass? {
        assert loaded.1.Pass? ==> !FirstToBridge(id, us, j);
      }
    }
  }

  lemma BridgeThenGap(s: Book, id: U64, bids: seq<Level>, asks: seq<Level>, us: seq<DepthUpdate>, i: nat)
    requires i < |us| && BridgesTo(us[i], id)
    requires Sides(s) && s.valid && s.lastId == Some(id) && Amended(EMPTY, bids, asks, s)
    ensures var ws, bridged := Replayed(id, us, i), ApplyBridge(s, us[i]);
      && (bridged.1.Fail? ==> !bridged.1.error.SequenceGap?)
      && (bridged.1.Pass? && EndsInAGap(ApplyAll(bridged.0, us[i + 1..]).1) <==>
            exists k :: ReplayBreaksAt(bids, asks, ws, k))
  {
    var u, rest, bridged := us[i], News(us[i].finalId, us[i + 1..]), ApplyBridge(s, us[i]);
    BridgeVerdict(s, u);
    AmendedTwice(EMPTY, s, bridged.0, bids, asks, u);
    FirstReplayStep(bids, asks, u, rest);
    if bridged.1.Pass? {
      OnlyNewsCounts(bridged.0, us[i + 1..]);
      NewsRises(u.finalId, us[i + 1..]);
      LiveRunsBreakExactly(bridged.0, rest);
      BreaksInRest(bridged.0, bids, asks, u, rest);
      hide ApplyAll, ApplyBridge, ReplayBreaksAt, Breaks, News, ReplayStepOk, Amended, Meets;
      assert bridged.0.lastId.value == u.finalId;
      assert EndsInAGap(ApplyAll(bridged.0, us[i + 1..]).1) <==> Breaks(bridged.0, rest);
      assert Replayed(id, us, i) == [u] + rest;
    } else {
      forall k: nat ensures !ReplayBreaksAt(bids, asks, [u] + rest, k) {
      }
    }
  }

  lemma BreaksInRest(b: Book, bids: seq<Level>, asks: seq<Level>, u: DepthUpdate, rest: seq<DepthUpdate>)
    requires b.lastId == Some(u.finalId) && !b.awaiting && Amended(EMPTY, bids + u.bids, asks + u.asks, b)
    requires ReplayStepOk(bids, asks, [u] + rest, 0)
    ensures Breaks(b, rest) <==> exists k :: ReplayBreaksAt(bids, asks, [u] + rest, k)
  {
    var ws := [u] + rest;
    forall k | 0 < k < |ws| ensures ReplayStepOk(bids, asks, ws, k) <==> StepOk(b, rest, k - 1) {
      RestStep(b, bids, asks, u, rest, k);
    }
    hide ReplayStepOk, StepOk, Follows;
    forall k: nat | 0 < k < |ws| ensures ReplayBreaksAt(bids, asks, ws, k) <==> BreaksAt(b, rest, k - 1) {
      if ReplayBreaksAt(bids, asks, ws, k) {
        forall j | 0 <= j < k - 1 ensures StepOk(b, rest, j) {
          assert ReplayStepOk(bids, asks, ws, j + 1);
        }
      }
    }
    if k: nat :| BreaksAt(b, rest, k) {
      assert ReplayBreaksAt(bids, asks, ws, k + 1);
    }
  }
}
