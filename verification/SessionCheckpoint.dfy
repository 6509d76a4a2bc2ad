/**
 Session checkpoints: what validation recomputes, and why every checkpoint the live runner
 builds passes it although saturating sums depend on the order of their terms.
 */
module Checkpoints {
  import opened Machine
  import opened Outcomes
  import Text

  const SCHEMA_VERSION := 2
  const LIVE_PREFIX := "live::"
  const PORTFOLIO := "PORTFOLIO"

  datatype Checkpoint = Checkpoint(
    schemaVersion: nat,
    sessionId: string,
    environment: string,
    symbol: string,
    lastEventAtMs: U64,
    positionTicks: I64,
    grossPositionTicks: I64,
    portfolioPositions: map<string, I64>,
    workingOrderIds: seq<string>,
    riskStopped: bool)

  datatype CheckpointError = UnsupportedSchema(version: nat) | EmptySessionId | GrossPositionMismatch

  datatype SymbolState = SymbolState(positionTicks: I64, bookTimeMs: Option<U64>, markTimeMs: Option<U64>)

  function NewCheckpoint(sessionId: string, environment: string, symbol: string): Checkpoint
  {
    Checkpoint(SCHEMA_VERSION, sessionId, environment, symbol, 0, 0, 0, map[], [], true)
  }

  /** Positions added up one after another in the order of the keys, saturating at every step. */
  function NetOver(keys: seq<string>, m: map<string, I64>): I64
    requires forall k :: k in keys ==> k in m
  {
    if keys == [] then 0
    else SatAddI64(NetOver(keys[..|keys| - 1], m), m[keys[|keys| - 1]])
  }

  function GrossOver(keys: seq<string>, m: map<string, I64>): I64
    requires forall k :: k in keys ==> k in m
  {
    if keys == [] then 0
    else SatAddI64(GrossOver(keys[..|keys| - 1], m), AbsI64(m[keys[|keys| - 1]]))
  }

  function Validate(c: Checkpoint): Outcome<CheckpointError>
  {
    var keys := Text.SortedKeys(c.portfolioPositions.Keys);
    if c.schemaVersion != SCHEMA_VERSION then Fail(UnsupportedSchema(c.schemaVersion))
    else if Text.Blank(c.sessionId) then Fail(EmptySessionId)
    else if c.grossPositionTicks < 0 then Fail(GrossPositionMismatch)
    else if NetOver(keys, c.portfolioPositions) != c.positionTicks then Fail(GrossPositionMismatch)
    else if c.grossPositionTicks !=
      (if c.symbol == PORTFOLIO then GrossOver(keys, c.portfolioPositions) else AbsI64(c.positionTicks))
    then Fail(GrossPositionMismatch)
    else Pass
  }

  // ---------------------------------------------------------------- the prefix keeps the order

  function Live(s: string): string { LIVE_PREFIX + s }

  function AllLive(keys: seq<string>): seq<string>
  {
    seq(|keys|, i requires 0 <= i < |keys| => Live(keys[i]))
  }

  /** The positions of the symbols under their prefixed keys. */
  ghost predicate Prefixed(m: map<string, I64>, state: map<string, SymbolState>, keys: seq<string>)
  {
    && (forall k :: k in m <==> exists i :: 0 <= i < |keys| && k == Live(keys[i]))
    && forall i :: 0 <= i < |keys| ==>
      Live(keys[i]) in m && keys[i] in state && m[Live(keys[i])] == state[keys[i]].positionTicks
  }

  lemma SameLive(a: string, b: string)
    ensures Live(a) == Live(b) <==> a == b
  {
    assert Live(a)[|LIVE_PREFIX|..] == a && Live(b)[|LIVE_PREFIX|..] == b;
  }

  /** Prefixing every key of a sorted map leaves the order of iteration unchanged. */
  lemma PrefixedKeysInOrder(m: map<string, I64>, state: map<string, SymbolState>, keys: seq<string>)
    requires Prefixed(m, state, keys) && Text.Ascending(keys)
    ensures Text.SortedKeys(m.Keys) == AllLive(keys)
  {
    var live := AllLive(keys);
    hide Text.SortedKeys, Text.Before;
    forall i, j | 0 <= i < j < |live| ensures Text.Before(live[i], live[j]) {
      Text.PrefixKeepsOrder(LIVE_PREFIX, keys[i], keys[j]);
    }
    forall k ensures k in live <==> k in m.Keys {
      if k in m {
        var i :| 0 <= i < |keys| && k == Live(keys[i]);
        assert live[i] == k;
      }
    }
    Text.AscendingIsUnique(Text.SortedKeys(m.Keys), live);
  }

  // ---------------------------------------------------------------- building a checkpoint

  /** The sums as the builder accumulates them, over the symbols in order. */
  ghost predicate Accumulated(c: Checkpoint, state: map<string, SymbolState>, keys: seq<string>)
  {
    && Prefixed(c.portfolioPositions, state, keys)
    && c.positionTicks == NetOver(AllLive(keys), c.portfolioPositions)
    && c.grossPositionTicks == GrossOver(AllLive(keys), c.portfolioPositions)
    && c.grossPositionTicks >= 0
  }

  /** Entries added later do not disturb the sums over earlier keys. */
  lemma {:induction false} SumsIgnoreNewKey(keys: seq<string>, m: map<string, I64>, k: string, v: I64)
    requires forall x :: x in keys ==> x in m && x != k
    ensures NetOver(keys, m[k := v]) == NetOver(keys, m)
    ensures GrossOver(keys, m[k := v]) == GrossOver(keys, m)
  {
    if keys != [] {
      var init, last := keys[..|keys| - 1], keys[|keys| - 1];
      assert last in keys && forall x :: x in init ==> x in keys;
      SumsIgnoreNewKey(init, m, k, v);
      assert m[k := v][last] == m[last];
    }
  }

  lemma AccumulateOne(c: Checkpoint, state: map<string, SymbolState>, keys: seq<string>, s: string)
    requires Accumulated(c, state, keys) && s in state && s !in keys
    ensures var p := state[s].positionTicks;
      Accumulated(c.(
        positionTicks := SatAddI64(c.positionTicks, p),
        grossPositionTicks := SatAddI64(c.grossPositionTicks, AbsI64(p)),
        portfolioPositions := c.portfolioPositions[Live(s) := p]), state, keys + [s])
  {
    var p := state[s].positionTicks;
    var before := c.portfolioPositions;
    EntriesAreOld(before, state, keys, s);
    PrefixedGrows(before, state, keys, s);
    AllLiveGrows(keys, s);
    hide Live, Prefixed, NetOver, GrossOver, AllLive, SatAddI64, AbsI64;
    SumsIgnoreNewKey(AllLive(keys), before, Live(s), p);
    SumsOneMore(AllLive(keys), Live(s), before[Live(s) := p]);
  }

  lemma AllLiveGrows(keys: seq<string>, s: string)
    ensures AllLive(keys + [s]) == AllLive(keys) + [Live(s)]
  {
  }

  lemma EntriesAreOld(m: map<string, I64>, state: map<string, SymbolState>, keys: seq<string>, s: string)
    requires Prefixed(m, state, keys) && s !in keys
    ensures forall x :: x in AllLive(keys) ==> x in m && x != Live(s)
  {
    forall x | x in AllLive(keys) ensures x in m && x != Live(s) {
      var i :| 0 <= i < |keys| && x == Live(keys[i]);
      SameLive(keys[i], s);
    }
  }

  lemma SumsOneMore(keys: seq<string>, k: string, m: map<string, I64>)
    requires k in m && forall x :: x in keys ==> x in m
    ensures NetOver(keys + [k], m) == SatAddI64(NetOver(keys, m), m[k])
    ensures GrossOver(keys + [k], m) == SatAddI64(GrossOver(keys, m), AbsI64(m[k]))
  {
    assert (keys + [k])[..|keys|] == keys;
  }

  lemma PrefixedGrows(m: map<string, I64>, state: map<string, SymbolState>, keys: seq<string>, s: string)
    requires Prefixed(m, state, keys) && s in state && s !in keys
    ensures Prefixed(m[Live(s) := state[s].positionTicks], state, keys + [s])
  {
    var after, grown := m[Live(s) := state[s].positionTicks], keys + [s];
    forall i | 0 <= i < |keys| ensures Live(keys[i]) != Live(s) {
      SameLive(keys[i], s);
    }
    forall k ensures k in after <==> exists i :: 0 <= i < |grown| && k == Live(grown[i]) {
      if k in after {
        if k == Live(s) {
          assert grown[|keys|] == s;
        } else {
          var i :| 0 <= i < |keys| && k == Live(keys[i]);
          assert grown[i] == keys[i];
        }
      }
      if i :| 0 <= i < |grown| && k == Live(grown[i]) {
        if i < |keys| { assert grown[i] == keys[i]; }
      }
    }
  }

  /** The checkpoint of a live session; writing it to disk is validation and foreign calls. */
  method BuildLiveCheckpoint(
    sessionId: string, state: map<string, SymbolState>, working: map<string, string>, riskStopped: bool)
    returns (c: Checkpoint)
    ensures Validate(c).Pass? <==> !Text.Blank(sessionId)
    ensures c.schemaVersion == 2 && c.environment == "live" && c.symbol == "PORTFOLIO"
    ensures c.sessionId == sessionId && c.riskStopped == riskStopped
    ensures forall k :: k in c.portfolioPositions <==> exists s :: s in state && k == "live::" + s
    ensures forall s :: s in state ==>
      "live::" + s in c.portfolioPositions && c.portfolioPositions["live::" + s] == state[s].positionTicks
    ensures SumsHold(c)
    ensures |c.workingOrderIds| == |Text.SortedKeys(working.Keys)|
    ensures forall i :: 0 <= i < |c.workingOrderIds| ==>
      var s := Text.SortedKeys(working.Keys)[i];
      c.workingOrderIds[i] == "live::" + s + ":" + working[s]
    ensures forall s :: s in state ==>
      && (state[s].bookTimeMs.Some? ==> state[s].bookTimeMs.value <= c.lastEventAtMs)
      && (state[s].markTimeMs.Some? ==> state[s].markTimeMs.value <= c.lastEventAtMs)
    ensures c.lastEventAtMs == 0 || exists s ::
      s in state && (state[s].bookTimeMs == Some(c.lastEventAtMs) || state[s].markTimeMs == Some(c.lastEventAtMs))
  {
    hide Text.SortedKeys, Text.Before, NetOver, GrossOver, Prefixed, AllLive;
    var keys := Text.SortedKeys(state.Keys);
    c := NewCheckpoint(sessionId, "live", PORTFOLIO);
    c := AddPositions(c, state, keys);
    PrefixedKeysInOrder(c.portfolioPositions, state, keys);
    LiveKeys(c.portfolioPositions, state, keys);
    SumsAreHeld(c, state, keys);
    c := c.(workingOrderIds := WorkingIds(working, Text.SortedKeys(working.Keys)));
    var last := LatestEvent(state, keys);
    c := c.(lastEventAtMs := last, riskStopped := riskStopped);
  }

  /** The loop over the symbols: both running sums and one position entry for each symbol. */
  method AddPositions(start: Checkpoint, state: map<string, SymbolState>, keys: seq<string>) returns (c: Checkpoint)
    requires start.positionTicks == 0 && start.grossPositionTicks == 0 && start.portfolioPositions == map[]
    requires Text.Ascending(keys) && forall s :: s in keys ==> s in state
    ensures Accumulated(c, state, keys)
    ensures c == start.(
      positionTicks := c.positionTicks,
      grossPositionTicks := c.grossPositionTicks,
      portfolioPositions := c.portfolioPositions)
  {
    c := start;
    hide Prefixed, AllLive, NetOver, GrossOver, Text.Before;
    NothingAccumulated(c, state, keys[..0]);
    for i := 0 to |keys|
      invariant Accumulated(c, state, keys[..i])
      invariant c == start.(
        positionTicks := c.positionTicks,
        grossPositionTicks := c.grossPositionTicks,
        portfolioPositions := c.portfolioPositions)
    {
      var symbol := keys[i];
      assert symbol in keys;
      Text.AscendingPosition(keys, i);
      AccumulateOne(c, state, keys[..i], symbol);
      hide Accumulated;
      var p := state[symbol].positionTicks;
      c := c.(positionTicks := SatAddI64(c.positionTicks, p));
      c := c.(grossPositionTicks := SatAddI64(c.grossPositionTicks, AbsI64(p)));
      c := c.(portfolioPositions := c.portfolioPositions[Live(symbol) := p]);
    }
    assert keys[..|keys|] == keys;
  }

  lemma NothingAccumulated(c: Checkpoint, state: map<string, SymbolState>, keys: seq<string>)
    requires keys == [] && c.positionTicks == 0 && c.grossPositionTicks == 0 && c.portfolioPositions == map[]
    ensures Accumulated(c, state, keys)
  {
    assert AllLive(keys) == [];
  }

  /** The gross position is the sum of all magnitudes, held at the last `i64`; below it the net one is exact. */
  ghost predicate SumsHold(c: Checkpoint)
  {
    var keys := Text.SortedKeys(c.portfolioPositions.Keys);
    && c.grossPositionTicks == Min(ExactGross(keys, c.portfolioPositions), I64_MAX)
    && (c.grossPositionTicks < I64_MAX ==> c.positionTicks == ExactNet(keys, c.portfolioPositions))
  }

  lemma SumsAreHeld(c: Checkpoint, state: map<string, SymbolState>, keys: seq<string>)
    requires Accumulated(c, state, keys) && Text.SortedKeys(c.portfolioPositions.Keys) == AllLive(keys)
    ensures SumsHold(c)
  {
    GrossDecidesExactness(AllLive(keys), c.portfolioPositions);
    hide NetOver, GrossOver, ExactNet, ExactGross, Prefixed, AllLive, Text.SortedKeys;
  }

  /**
   A checkpoint is valid exactly for schema two, a session id that is not blank, the net of its detail
   and a gross position that is the sum of magnitudes, or that of the net outside a portfolio.
   */
  lemma ValidationIsExact(c: Checkpoint)
    ensures var keys := Text.SortedKeys(c.portfolioPositions.Keys);
      var r := Validate(c);
      && (r == Fail(UnsupportedSchema(c.schemaVersion)) <==> c.schemaVersion != 2)
      && (r == Fail(EmptySessionId) <==> c.schemaVersion == 2 && Text.Blank(c.sessionId))
      && (r.Pass? <==>
            && c.schemaVersion == 2 && !Text.Blank(c.sessionId)
            && c.positionTicks == NetOver(keys, c.portfolioPositions)
            && c.grossPositionTicks == Min(
                 if c.symbol == "PORTFOLIO" then ExactGross(keys, c.portfolioPositions) else Abs(c.positionTicks),
                 I64_MAX))
  {
    GrossDecidesExactness(Text.SortedKeys(c.portfolioPositions.Keys), c.portfolioPositions);
    hide Text.SortedKeys, NetOver, GrossOver, ExactNet, ExactGross;
  }

  lemma LiveKeys(m: map<string, I64>, state: map<string, SymbolState>, keys: seq<string>)
    requires Prefixed(m, state, keys) && forall s :: s in keys <==> s in state
    ensures forall k :: k in m <==> exists s :: s in state && k == Live(s)
    ensures forall s :: s in state ==> Live(s) in m && m[Live(s)] == state[s].positionTicks
  {
    forall s | s in state ensures Live(s) in m && m[Live(s)] == state[s].positionTicks {
      var i :| 0 <= i < |keys| && keys[i] == s;
    }
    forall k | k in m ensures exists s :: s in state && k == Live(s) {
      var i :| 0 <= i < |keys| && k == Live(keys[i]);
      assert keys[i] in keys;
    }
  }

  function WorkingIds(working: map<string, string>, symbols: seq<string>): (ids: seq<string>)
    requires forall s :: s in symbols ==> s in working
    ensures |ids| == |symbols|
    ensures forall i :: 0 <= i < |ids| ==> ids[i] == Live(symbols[i]) + ":" + working[symbols[i]]
  {
    seq(|symbols|, i requires 0 <= i < |symbols| =>
      assert symbols[i] in symbols; Live(symbols[i]) + ":" + working[symbols[i]])
  }

  method LatestEvent(state: map<string, SymbolState>, keys: seq<string>) returns (last: U64)
    requires forall s :: s in keys <==> s in state
    ensures forall s :: s in state ==>
      && (state[s].bookTimeMs.Some? ==> state[s].bookTimeMs.value <= last)
      && (state[s].markTimeMs.Some? ==> state[s].markTimeMs.value <= last)
    ensures last == 0 || exists s ::
      s in state && (state[s].bookTimeMs == Some(last) || state[s].markTimeMs == Some(last))
  {
    last := 0;
    for i := 0 to |keys|
      invariant forall k :: 0 <= k < i ==>
        && (state[keys[k]].bookTimeMs.Some? ==> state[keys[k]].bookTimeMs.value <= last)
        && (state[keys[k]].markTimeMs.Some? ==> state[keys[k]].markTimeMs.value <= last)
      invariant last == 0 || exists s ::
        s in state && (state[s].bookTimeMs == Some(last) || state[s].markTimeMs == Some(last))
    {
      var s := keys[i];
      assert s in keys;
      if state[s].bookTimeMs.Some? && state[s].bookTimeMs.value > last {
        last := state[s].bookTimeMs.value;
      }
      if state[s].markTimeMs.Some? && state[s].markTimeMs.value > last {
        last := state[s].markTimeMs.value;
      }
    }
  }

  // ---------------------------------------------------------------- when saturation is harmless

  function ExactNet(keys: seq<string>, m: map<string, I64>): int
    requires forall k :: k in keys ==> k in m
  {
    if keys == [] then 0 else ExactNet(keys[..|keys| - 1], m) + m[keys[|keys| - 1]]
  }

  function ExactGross(keys: seq<string>, m: map<string, I64>): nat
    requires forall k :: k in keys ==> k in m
  {
    if keys == [] then 0 else ExactGross(keys[..|keys| - 1], m) + Abs(m[keys[|keys| - 1]])
  }

  /** The gross fold is one clamp of the exact sum; while it is below the clamp, the net fold is exact. */
  lemma {:induction false} GrossDecidesExactness(keys: seq<string>, m: map<string, I64>)
    requires forall k :: k in keys ==> k in m
    ensures GrossOver(keys, m) == Min(ExactGross(keys, m), I64_MAX)
    ensures Abs(ExactNet(keys, m)) <= ExactGross(keys, m)
    ensures GrossOver(keys, m) < I64_MAX ==> NetOver(keys, m) == ExactNet(keys, m)
  {
    if keys != [] {
      GrossDecidesExactness(keys[..|keys| - 1], m);
    }
  }

  /**
   A portfolio checkpoint that passes validation with an unsaturated gross position carries the
   exact net and gross sums of its detail, in whatever order they were added.
   */
  lemma UnsaturatedCheckpointsAreExact(c: Checkpoint)
    requires Validate(c).Pass? && c.symbol == PORTFOLIO && c.grossPositionTicks < I64_MAX
    ensures var keys := Text.SortedKeys(c.portfolioPositions.Keys);
      && c.positionTicks == ExactNet(keys, c.portfolioPositions)
      && c.grossPositionTicks == ExactGross(keys, c.portfolioPositions)
      && Abs(c.positionTicks) <= c.grossPositionTicks
  {
    GrossDecidesExactness(Text.SortedKeys(c.portfolioPositions.Keys), c.portfolioPositions);
  }

  /** The order matters: the same three positions add up differently in another order. */
  lemma NetDependsOnOrder()
    ensures var m := map["a" := I64_MAX, "b" := 1, "c" := -1];
      NetOver(["a", "b", "c"], m) != NetOver(["a", "c", "b"], m)
  {
    var m := map["a" := I64_MAX, "b" := 1, "c" := -1];
    var p, q := ["a", "b", "c"], ["a", "c", "b"];
    assert p[..2][..1] == ["a"] && q[..2][..1] == ["a"] && p[..2][1] == "b" && q[..2][1] == "c";
    assert ["a"][..0] == [];
    assert NetOver(["a"], m) == I64_MAX;
    assert NetOver(p[..2], m) == I64_MAX && NetOver(q[..2], m) == I64_MAX - 1;
  }
}
