/**
 Reconciling the local view of orders and position with the exchange's: the actions one round
 emits, what they mean, and that one round without a halt suffices.
 */
module Reconciliation {
  import opened Machine
  import opened Outcomes
  import Text

  datatype Status = New | PartiallyFilled | Filled | Canceled | Expired | Rejected
  {
    predicate IsDead() { Canceled? || Expired? || Rejected? }
  }

  datatype RemoteOrder = RemoteOrder(id: string, symbol: string, status: Status, executed: I64)

  datatype LocalOrder = LocalOrder(id: string, symbol: string, terminal: bool, executed: I64)

  datatype Input = Input(
    local: seq<LocalOrder>,
    remote: seq<RemoteOrder>,
    localPosition: I64,
    remotePosition: I64)

  datatype Action =
    | AdoptRemoteOrder(id: string)
    | CancelRemoteOrder(id: string)
    | ApplyRemoteFill(id: string, quantity: I64)
    | ApplyRemoteStatus(id: string, status: Status)
    | FlattenPosition(quantity: I64)
    | AdoptRemotePosition(from: I64, to: I64)
    | RecordExternalAdjustment(delta: I64)
    | Halt(reason: string)
    | Continue

  const MALFORMED := "order reconciliation snapshot is structurally invalid"
  const ABSENT := "local non-terminal order is absent remotely"
  const MISMATCH := "order identity has a symbol mismatch"
  const REGRESSED := "remote executed quantity regressed or is invalid"
  const FILLED_CONFLICT := "remote filled order conflicts with a terminal local order"
  const ACTIVE_CONFLICT := "remote active order conflicts with a terminal local order"

  // ---------------------------------------------------------------- snapshots

  function LocalIds(orders: seq<LocalOrder>): set<string> { set i | 0 <= i < |orders| :: orders[i].id }

  function RemoteIds(orders: seq<RemoteOrder>): set<string> { set i | 0 <= i < |orders| :: orders[i].id }

  ghost predicate DistinctLocal(orders: seq<LocalOrder>)
  {
    forall i, j :: 0 <= i < j < |orders| ==> orders[i].id != orders[j].id
  }

  ghost predicate DistinctRemote(orders: seq<RemoteOrder>)
  {
    forall i, j :: 0 <= i < j < |orders| ==> orders[i].id != orders[j].id
  }

  ghost predicate WellFormed(x: Input)
  {
    && DistinctLocal(x.local) && DistinctRemote(x.remote)
    && (forall o :: o in x.local ==> o.executed >= 0 && o.symbol != "")
    && (forall o :: o in x.remote ==> o.executed >= 0 && o.symbol != "")
  }

  /** A list repeats nothing exactly when the set of its elements is as large as the list. */
  lemma {:induction false} DistinctCount(ids: seq<string>)
    ensures |set id | id in ids| <= |ids|
    ensures |set id | id in ids| == |ids| <==> forall i, j :: 0 <= i < j < |ids| ==> ids[i] != ids[j]
  {
    if ids == [] {
      assert (set id | id in ids) == {};
    } else {
      var n := |ids| - 1;
      var init := ids[..n];
      DistinctCount(init);
      assert ids == init + [ids[n]];
      assert (set id | id in ids) == (set id | id in init) + {ids[n]};
      if ids[n] in init {
        assert (set id | id in ids) == (set id | id in init);
      }
    }
  }

  lemma LocalIdsCount(orders: seq<LocalOrder>)
    ensures |LocalIds(orders)| == |orders| <==> DistinctLocal(orders)
  {
    var ids := seq(|orders|, i requires 0 <= i < |orders| => orders[i].id);
    DistinctCount(ids);
    assert forall i :: 0 <= i < |orders| ==> orders[i].id == ids[i];
    forall id ensures id in LocalIds(orders) <==> id in ids {
      if id in ids {
        var i :| 0 <= i < |ids| && ids[i] == id;
        assert orders[i].id == id;
      }
    }
    assert LocalIds(orders) == set id | id in ids;
  }

  lemma RemoteIdsCount(orders: seq<RemoteOrder>)
    ensures |RemoteIds(orders)| == |orders| <==> DistinctRemote(orders)
  {
    var ids := seq(|orders|, i requires 0 <= i < |orders| => orders[i].id);
    DistinctCount(ids);
    assert forall i :: 0 <= i < |orders| ==> orders[i].id == ids[i];
    forall id ensures id in RemoteIds(orders) <==> id in ids {
      if id in ids {
        var i :| 0 <= i < |ids| && ids[i] == id;
        assert orders[i].id == id;
      }
    }
    assert RemoteIds(orders) == set id | id in ids;
  }

  /** `find`: the first local order with the id. */
  function Find(orders: seq<LocalOrder>, id: string): (r: Option<LocalOrder>)
    ensures r.Some? ==> r.value in orders && r.value.id == id
    ensures r.None? <==> id !in LocalIds(orders)
  {
    if orders == [] then None
    else if orders[0].id == id then assert id in LocalIds(orders); Some(orders[0])
    else
      assert LocalIds(orders) == {orders[0].id} + LocalIds(orders[1..]) by {
        assert forall i :: 0 < i < |orders| ==> orders[i] == orders[1..][i - 1];
        assert forall i :: 0 <= i < |orders[1..]| ==> orders[1..][i] == orders[i + 1];
      }
      Find(orders[1..], id)
  }

  // ---------------------------------------------------------------- one round

  function Cancels(ids: seq<string>): seq<Action>
  {
    seq(|ids|, i requires 0 <= i < |ids| => CancelRemoteOrder(ids[i]))
  }

  function Absences(local: seq<LocalOrder>, ids: seq<string>): seq<Action>
  {
    if ids == [] then []
    else
      (if exists i :: 0 <= i < |local| && local[i].id == ids[0] && local[i].terminal then [] else [Halt(ABSENT)])
      + Absences(local, ids[1..])
  }

  /** The actions for one order that both sides know. */
  function Compare(local: LocalOrder, remote: RemoteOrder): seq<Action>
  {
    if local.symbol != remote.symbol then [Halt(MISMATCH)]
    else if local.executed < 0 || remote.executed < 0 || remote.executed < local.executed then [Halt(REGRESSED)]
    else
      (if remote.executed > local.executed
       then [ApplyRemoteFill(remote.id, remote.executed - local.executed)] else [])
      + if remote.status.IsDead() then
          if !local.terminal then [ApplyRemoteStatus(remote.id, remote.status)] else []
        else if !local.terminal then []
        else if remote.status.Filled? then [Halt(FILLED_CONFLICT)]
        else [Halt(ACTIVE_CONFLICT)]
  }

  function Comparisons(local: seq<LocalOrder>, remote: seq<RemoteOrder>): seq<Action>
  {
    if remote == [] then []
    else
      var l := Find(local, remote[0].id);
      (if l.Some? then Compare(l.value, remote[0]) else []) + Comparisons(local, remote[1..])
  }

  function PositionActions(x: Input): seq<Action>
  {
    if x.localPosition == x.remotePosition then []
    else
      [AdoptRemotePosition(x.localPosition, x.remotePosition),
       RecordExternalAdjustment(SatSubI64(x.remotePosition, x.localPosition))]
  }

  function Differences(x: Input): seq<Action>
  {
    Cancels(Text.SortedKeys(RemoteIds(x.remote) - LocalIds(x.local)))
    + Absences(x.local, Text.SortedKeys(LocalIds(x.local) - RemoteIds(x.remote)))
    + Comparisons(x.local, x.remote)
    + PositionActions(x)
  }

  ghost function Reconciled(x: Input): seq<Action>
  {
    if !WellFormed(x) then [Halt(MALFORMED)]
    else if Differences(x) == [] then [Continue]
    else Differences(x)
  }

  /** The first check, with duplicates found by counting ids. */
  method Malformed(x: Input) returns (malformed: bool)
    ensures malformed <==> !WellFormed(x)
  {
    LocalIdsCount(x.local);
    RemoteIdsCount(x.remote);
    malformed :=
      || |LocalIds(x.local)| != |x.local|
      || |RemoteIds(x.remote)| != |x.remote|
      || (exists o :: o in x.local && (o.executed < 0 || o.symbol == ""))
      || (exists o :: o in x.remote && (o.executed < 0 || o.symbol == ""));
  }

  /** The reconciliation as it runs: checks, then actions pushed one by one. */
  method Reconcile(x: Input) returns (actions: seq<Action>)
    ensures actions == Reconciled(x)
  {
    hide Text.SortedKeys, LocalIds, RemoteIds, Compare, WellFormed, Absences, Comparisons, Cancels;
    var malformed := Malformed(x);
    if malformed {
      return [Halt(MALFORMED)];
    }
    var localIds, remoteIds := LocalIds(x.local), RemoteIds(x.remote);
    var orphans := Text.SortedKeys(remoteIds - localIds);
    actions := PushCancels(orphans);
    var missing := Text.SortedKeys(localIds - remoteIds);
    actions := PushAbsences(actions, x.local, missing);
    actions := PushComparisons(actions, x.local, x.remote);
    actions := actions + PositionActions(x);
    if actions == [] {
      actions := [Continue];
    }
  }

  method PushCancels(ids: seq<string>) returns (actions: seq<Action>)
    ensures actions == Cancels(ids)
  {
    actions := [];
    for i := 0 to |ids|
      invariant actions == Cancels(ids[..i])
    {
      actions := actions + [CancelRemoteOrder(ids[i])];
    }
    assert ids[..|ids|] == ids;
  }

  method PushAbsences(before: seq<Action>, local: seq<LocalOrder>, ids: seq<string>) returns (actions: seq<Action>)
    ensures actions == before + Absences(local, ids)
  {
    actions := before;
    for i := 0 to |ids|
      invariant actions + Absences(local, ids[i..]) == before + Absences(local, ids)
    {
      assert ids[i..][1..] == ids[i + 1..];
      if !exists k :: 0 <= k < |local| && local[k].id == ids[i] && local[k].terminal {
        assert Absences(local, ids[i..]) == [Halt(ABSENT)] + Absences(local, ids[i + 1..]);
        actions := actions + [Halt(ABSENT)];
      }
    }
    assert ids[|ids|..] == [];
  }

  method PushComparisons(before: seq<Action>, local: seq<LocalOrder>, remote: seq<RemoteOrder>)
    returns (actions: seq<Action>)
    ensures actions == before + Comparisons(local, remote)
  {
    hide Compare;
    actions := before;
    for i := 0 to |remote|
      invariant actions + Comparisons(local, remote[i..]) == before + Comparisons(local, remote)
    {
      assert remote[i..][1..] == remote[i + 1..];
      var found := Find(local, remote[i].id);
      if found.Some? {
        var compared := CompareOne(found.value, remote[i]);
        assert actions + (compared + Comparisons(local, remote[i + 1..]))
            == (actions + compared) + Comparisons(local, remote[i + 1..]);
        actions := actions + compared;
      }
    }
    assert remote[|remote|..] == [];
  }

  /**
   The body of the comparison loop with its early exits. It halts exactly on a conflict, does
   nothing exactly when the two sides are settled, and otherwise its actions bring the local
   order, and no other, up to date.
   */
  method CompareOne(local: LocalOrder, remote: RemoteOrder) returns (actions: seq<Action>)
    ensures actions == Compare(local, remote)
    ensures Halts(actions) <==> Conflict(local, remote) || local.executed < 0 || remote.executed < 0
    ensures actions == [] <==> Settled(local, remote) && local.executed >= 0
    ensures !Halts(actions) && local.id == remote.id ==>
      forall x: Input :: DistinctLocal(x.local) && local in x.local ==>
        PerformAll(x, actions) == x.(local := Patch(x.local, remote))
  {
    actions := [];
    if local.symbol != remote.symbol {
      actions := [Halt(MISMATCH)];
    } else if local.executed < 0 || remote.executed < 0 || remote.executed < local.executed {
      actions := [Halt(REGRESSED)];
    } else {
      if remote.executed > local.executed {
        actions := actions + [ApplyRemoteFill(remote.id, remote.executed - local.executed)];
      }
      match remote.status {
        case Canceled | Expired | Rejected =>
          if !local.terminal {
            actions := actions + [ApplyRemoteStatus(remote.id, remote.status)];
          }
        case Filled =>
          if local.terminal {
            actions := actions + [Halt(FILLED_CONFLICT)];
          }
        case New | PartiallyFilled =>
          if local.terminal {
            actions := actions + [Halt(ACTIVE_CONFLICT)];
          }
      }
    }
    ComparedHalts(local, remote);
    hide Conflict, Settled, Halts;
    assert actions == Compare(local, remote);
    hide Compare, Patch, PerformAll, DistinctLocal;
    if !Halts(actions) && local.id == remote.id {
      forall x: Input | DistinctLocal(x.local) && local in x.local
        ensures PerformAll(x, actions) == x.(local := Patch(x.local, remote))
      {
        PerformCompare(x, local, remote);
      }
    }
  }

  // ---------------------------------------------------------------- what a round means

  /** A halt is demanded by this pair of orders. */
  ghost predicate Conflict(l: LocalOrder, r: RemoteOrder)
  {
    || l.symbol != r.symbol
    || r.executed < l.executed
    || (l.terminal && !r.status.IsDead())
  }

  /** The two snapshots of an order agree and need no action. */
  ghost predicate Settled(l: LocalOrder, r: RemoteOrder)
  {
    && l.symbol == r.symbol && l.executed == r.executed
    && (l.terminal <==> r.status.IsDead())
  }

  ghost predicate Halts(actions: seq<Action>)
  {
    exists i :: 0 <= i < |actions| && actions[i].Halt?
  }

  ghost predicate Conflicting(x: Input)
  {
    || (exists l :: l in x.local && !l.terminal && l.id !in RemoteIds(x.remote))
    || (exists l, r :: l in x.local && r in x.remote && l.id == r.id && Conflict(l, r))
  }

  /** Both sides know the same live orders, agree on each of them, and on the position. */
  ghost predicate Agrees(x: Input)
  {
    && (forall r :: r in x.remote ==> r.id in LocalIds(x.local))
    && (forall l :: l in x.local && !l.terminal ==> l.id in RemoteIds(x.remote))
    && (forall l, r :: l in x.local && r in x.remote && l.id == r.id ==> Settled(l, r))
    && x.localPosition == x.remotePosition
  }

  lemma LocalIsUnique(orders: seq<LocalOrder>, a: LocalOrder, b: LocalOrder)
    requires DistinctLocal(orders) && a in orders && b in orders && a.id == b.id
    ensures a == b
  {
  }

  /** The comparisons are empty, or demand a halt, exactly when some known pair is so. */
  lemma {:induction false} ComparisonsMean(local: seq<LocalOrder>, remote: seq<RemoteOrder>)
    requires DistinctLocal(local)
    requires forall o :: o in local ==> o.executed >= 0
    requires forall o :: o in remote ==> o.executed >= 0
    ensures Comparisons(local, remote) == []
      <==> forall l, r :: l in local && r in remote && l.id == r.id ==> Settled(l, r)
    ensures Halts(Comparisons(local, remote))
      <==> exists l, r :: l in local && r in remote && l.id == r.id && Conflict(l, r)
  {
    if remote != [] {
      ComparisonsMean(local, remote[1..]);
      var found := Find(local, remote[0].id);
      var first := if found.Some? then Compare(found.value, remote[0]) else [];
      var rest := Comparisons(local, remote[1..]);
      HaltsInEither(first, rest);
      assert forall r :: r in remote <==> r == remote[0] || r in remote[1..];
      if found.Some? {
        CompareMeans(found.value, remote[0]);
        forall l | l in local && l.id == remote[0].id ensures l == found.value {
          LocalIsUnique(local, l, found.value);
        }
      }
    }
  }

  lemma CompareMeans(l: LocalOrder, r: RemoteOrder)
    requires l.executed >= 0 && r.executed >= 0
    ensures Compare(l, r) == [] <==> Settled(l, r)
    ensures Halts(Compare(l, r)) <==> Conflict(l, r)
  {
    var c := Compare(l, r);
    if Conflict(l, r) {
      assert c[|c| - 1].Halt?;
    }
  }

  /** The same whatever the quantities are: a negative one halts as well. */
  lemma ComparedHalts(l: LocalOrder, r: RemoteOrder)
    ensures Halts(Compare(l, r)) <==> Conflict(l, r) || l.executed < 0 || r.executed < 0
    ensures Compare(l, r) == [] <==> Settled(l, r) && l.executed >= 0
  {
    if l.executed >= 0 && r.executed >= 0 {
      CompareMeans(l, r);
    } else {
      assert Compare(l, r)[0].Halt?;
    }
  }

  ghost predicate Comparable(l: LocalOrder, r: RemoteOrder)
  {
    l.symbol == r.symbol && 0 <= l.executed <= r.executed
  }

  /** What each action on a known order says: the fill that is missing, the end that is missed, or why to halt. */
  lemma ActionsAreNamed(l: LocalOrder, r: RemoteOrder)
    ensures var actions := Compare(l, r);
      && (l.symbol != r.symbol ==> actions == [Halt("order identity has a symbol mismatch")])
      && (l.symbol == r.symbol && !Comparable(l, r) ==>
            actions == [Halt("remote executed quantity regressed or is invalid")])
      && (forall a :: a in actions && a.ApplyRemoteFill? ==>
            a.id == r.id && a.quantity == r.executed - l.executed > 0)
      && (forall a :: a in actions && a.ApplyRemoteStatus? ==>
            a == ApplyRemoteStatus(r.id, r.status) && !l.terminal && r.status in {Canceled, Expired, Rejected})
      && (forall a :: a in actions && a.Halt? && Comparable(l, r) ==>
            && l.terminal
            && (r.status.Filled? ==> a.reason == "remote filled order conflicts with a terminal local order")
            && (!r.status.Filled? ==> a.reason == "remote active order conflicts with a terminal local order"))
    ensures Comparable(l, r) ==>
      var actions := Compare(l, r);
      && (r.executed > l.executed <==> exists a :: a in actions && a.ApplyRemoteFill?)
      && (!l.terminal && r.status in {Canceled, Expired, Rejected} <==>
            exists a :: a in actions && a.ApplyRemoteStatus?)
      && (l.terminal && r.status in {New, PartiallyFilled, Filled} <==> exists a :: a in actions && a.Halt?)
  {
    var actions := Compare(l, r);
    if Comparable(l, r) && actions != [] {
      assert actions[0] in actions && actions[|actions| - 1] in actions;
    }
  }

  lemma HaltsInEither(a: seq<Action>, b: seq<Action>)
    ensures Halts(a + b) <==> Halts(a) || Halts(b)
  {
    var all := a + b;
    assert forall i :: 0 <= i < |a| ==> all[i] == a[i];
    assert forall i :: 0 <= i < |b| ==> all[|a| + i] == b[i];
  }

  lemma {:induction false} AbsencesMean(local: seq<LocalOrder>, ids: seq<string>)
    requires DistinctLocal(local) && forall id :: id in ids ==> id in LocalIds(local)
    ensures Absences(local, ids) == [] <==> forall l :: l in local && l.id in ids ==> l.terminal
    ensures Halts(Absences(local, ids)) <==> Absences(local, ids) != []
  {
    if ids != [] {
      AbsencesMean(local, ids[1..]);
      assert ids[0] in ids;
      var k :| 0 <= k < |local| && local[k].id == ids[0];
      forall l | l in local && l.id == ids[0] ensures l == local[k] {
        LocalIsUnique(local, l, local[k]);
      }
      var all := Absences(local, ids);
      if !local[k].terminal {
        assert all[0].Halt?;
      } else {
        assert all == Absences(local, ids[1..]);
      }
    }
  }

  // ---------------------------------------------------------------- the position is accounted for

  ghost predicate KeepsAccount(actions: seq<Action>)
  {
    forall a :: a in actions ==> !a.RecordExternalAdjustment? && !a.AdoptRemotePosition?
  }

  lemma {:induction false} AbsencesKeepAccount(local: seq<LocalOrder>, ids: seq<string>)
    ensures KeepsAccount(Absences(local, ids))
    decreases ids
  {
    if ids != [] {
      AbsencesKeepAccount(local, ids[1..]);
    }
  }

  lemma {:induction false} ComparisonsKeepAccount(local: seq<LocalOrder>, remote: seq<RemoteOrder>)
    ensures KeepsAccount(Comparisons(local, remote))
    decreases remote
  {
    if remote != [] {
      ComparisonsKeepAccount(local, remote[1..]);
    }
  }

  /**
   A round records an adjustment and adopts the remote position exactly if the positions differ. The
   adjustment is what the local position lacks, as far as an `i64` holds it.
   */
  lemma AdjustmentsAreExact(x: Input)
    ensures forall a :: a in Differences(x) && a.AdoptRemotePosition? ==>
      a == AdoptRemotePosition(x.localPosition, x.remotePosition)
    ensures forall a :: a in Differences(x) && a.RecordExternalAdjustment? ==>
      && a.delta == Max(I64_MIN, Min(x.remotePosition - x.localPosition, I64_MAX))
      && (I64_MIN < a.delta < I64_MAX ==> x.localPosition + a.delta == x.remotePosition)
    ensures x.localPosition != x.remotePosition <==>
      && AdoptRemotePosition(x.localPosition, x.remotePosition) in Differences(x)
      && exists a :: a in Differences(x) && a.RecordExternalAdjustment?
  {
    var orphans := Text.SortedKeys(RemoteIds(x.remote) - LocalIds(x.local));
    var missing := Text.SortedKeys(LocalIds(x.local) - RemoteIds(x.remote));
    AbsencesKeepAccount(x.local, missing);
    ComparisonsKeepAccount(x.local, x.remote);
    assert KeepsAccount(Cancels(orphans));
    hide Cancels, Absences, Comparisons, Text.SortedKeys, LocalIds, RemoteIds;
    var before := Cancels(orphans) + Absences(x.local, missing) + Comparisons(x.local, x.remote);
    assert Differences(x) == before + PositionActions(x) && KeepsAccount(before);
    if x.localPosition != x.remotePosition {
      assert PositionActions(x)[0] in Differences(x) && PositionActions(x)[1] in Differences(x);
    }
  }

  /** On well-formed snapshots a round halts exactly on a conflict and is empty exactly on agreement. */
  lemma DifferencesMean(x: Input)
    requires WellFormed(x)
    ensures Halts(Differences(x)) <==> Conflicting(x)
    ensures Differences(x) == [] <==> Agrees(x)
  {
    MissingMean(x);
    NoOrphans(x);
    ComparisonsMean(x.local, x.remote);
    hide Text.SortedKeys, Comparisons, Absences, Compare, Settled, Conflict, LocalIds, RemoteIds, Halts;
    var orphans := Text.SortedKeys(RemoteIds(x.remote) - LocalIds(x.local));
    var missing := Text.SortedKeys(LocalIds(x.local) - RemoteIds(x.remote));
    FourParts(Cancels(orphans), Absences(x.local, missing), Comparisons(x.local, x.remote), PositionActions(x));
    NoHalts(orphans, x);
  }

  lemma NoHalts(ids: seq<string>, x: Input)
    ensures !Halts(Cancels(ids)) && !Halts(PositionActions(x))
    ensures Cancels(ids) == [] <==> ids == []
  {
  }

  lemma FourParts(a: seq<Action>, b: seq<Action>, c: seq<Action>, d: seq<Action>)
    ensures Halts(a + b + c + d) <==> Halts(a) || Halts(b) || Halts(c) || Halts(d)
    ensures a + b + c + d == [] <==> a == [] && b == [] && c == [] && d == []
  {
    HaltsInEither(a, b);
    HaltsInEither(a + b, c);
    HaltsInEither(a + b + c, d);
  }

  lemma MissingMean(x: Input)
    requires WellFormed(x)
    ensures var absences := Absences(x.local, Text.SortedKeys(LocalIds(x.local) - RemoteIds(x.remote)));
      && (absences == [] <==> forall l :: l in x.local && !l.terminal ==> l.id in RemoteIds(x.remote))
      && (Halts(absences) <==> absences != [])
  {
    var missing := Text.SortedKeys(LocalIds(x.local) - RemoteIds(x.remote));
    AbsencesMean(x.local, missing);
    hide Text.SortedKeys, RemoteIds, Absences;
    forall l | l in x.local ensures l.id in missing <==> l.id !in RemoteIds(x.remote) {
      assert l.id in LocalIds(x.local);
    }
  }

  lemma NoOrphans(x: Input)
    ensures Text.SortedKeys(RemoteIds(x.remote) - LocalIds(x.local)) == []
      <==> forall r :: r in x.remote ==> r.id in LocalIds(x.local)
  {
    var orphans := Text.SortedKeys(RemoteIds(x.remote) - LocalIds(x.local));
    hide Text.SortedKeys, LocalIds;
    if orphans == [] {
      forall r | r in x.remote ensures r.id in LocalIds(x.local) {
        assert r.id in RemoteIds(x.remote) && r.id !in orphans;
      }
    } else {
      assert orphans[0] in orphans;
      var i :| 0 <= i < |x.remote| && x.remote[i].id == orphans[0];
      assert x.remote[i] in x.remote;
    }
  }

  /** A round answers Continue exactly when the snapshots are well formed and agree. */
  lemma ContinueMeansAgreement(x: Input)
    ensures Reconciled(x) == [Continue] <==> WellFormed(x) && Agrees(x)
    ensures Halts(Reconciled(x)) <==> !WellFormed(x) || Conflicting(x)
  {
    if WellFormed(x) {
      DifferencesMean(x);
      NeverContinue(x);
      assert Differences(x) != [Continue];
    } else {
      assert [Halt(MALFORMED)][0].Halt?;
    }
  }

  lemma {:induction false} ComparisonsNeverContinue(local: seq<LocalOrder>, remote: seq<RemoteOrder>)
    ensures forall i :: 0 <= i < |Comparisons(local, remote)| ==> !Comparisons(local, remote)[i].Continue?
  {
    if remote != [] {
      ComparisonsNeverContinue(local, remote[1..]);
    }
  }

  lemma {:induction false} AbsencesNeverContinue(local: seq<LocalOrder>, ids: seq<string>)
    ensures forall i :: 0 <= i < |Absences(local, ids)| ==> Absences(local, ids)[i].Halt?
  {
    if ids != [] {
      AbsencesNeverContinue(local, ids[1..]);
    }
  }

  lemma NeverContinue(x: Input)
    ensures Differences(x) != [Continue]
  {
    var d := Differences(x);
    if d == [Continue] {
      assert d[0].Continue?;
    }
    ComparisonsNeverContinue(x.local, x.remote);
    AbsencesNeverContinue(x.local, Text.SortedKeys(LocalIds(x.local) - RemoteIds(x.remote)));
  }

  // ---------------------------------------------------------------- carrying the actions out

  function Drop(orders: seq<RemoteOrder>, id: string): seq<RemoteOrder>
  {
    if orders == [] then []
    else (if orders[0].id == id then [] else [orders[0]]) + Drop(orders[1..], id)
  }

  function Fill(orders: seq<LocalOrder>, id: string, quantity: I64): seq<LocalOrder>
  {
    seq(|orders|, i requires 0 <= i < |orders| =>
      if orders[i].id == id then orders[i].(executed := SatAddI64(orders[i].executed, quantity)) else orders[i])
  }

  function Close(orders: seq<LocalOrder>, id: string): seq<LocalOrder>
  {
    seq(|orders|, i requires 0 <= i < |orders| =>
      if orders[i].id == id then orders[i].(terminal := true) else orders[i])
  }

  /** One action carried out in the obvious way. */
  function Perform(x: Input, a: Action): Input
  {
    match a
    case CancelRemoteOrder(id) => x.(remote := Drop(x.remote, id))
    case ApplyRemoteFill(id, q) => x.(local := Fill(x.local, id, q))
    case ApplyRemoteStatus(id, _) => x.(local := Close(x.local, id))
    case AdoptRemotePosition(_, to) => x.(localPosition := to)
    case _ => x
  }

  function PerformAll(x: Input, actions: seq<Action>): Input
    decreases actions
  {
    if actions == [] then x else PerformAll(Perform(x, actions[0]), actions[1..])
  }

  lemma {:induction false} PerformInTurn(x: Input, a: seq<Action>, b: seq<Action>)
    ensures PerformAll(x, a + b) == PerformAll(PerformAll(x, a), b)
    decreases a
  {
    if a == [] {
      assert a + b == b;
    } else {
      assert (a + b)[1..] == a[1..] + b;
      PerformInTurn(Perform(x, a[0]), a[1..], b);
    }
  }

  /** The remote orders that remain once the orphans are cancelled. */
  function Keep(orders: seq<RemoteOrder>, ids: seq<string>): seq<RemoteOrder>
    decreases ids
  {
    if ids == [] then orders else Keep(Drop(orders, ids[0]), ids[1..])
  }

  lemma {:induction false} DropRemoves(orders: seq<RemoteOrder>, id: string)
    ensures forall o :: o in Drop(orders, id) <==> o in orders && o.id != id
    ensures DistinctRemote(orders) ==> DistinctRemote(Drop(orders, id))
  {
    if orders != [] {
      DropRemoves(orders[1..], id);
      assert forall o :: o in orders <==> o == orders[0] || o in orders[1..];
      var rest := Drop(orders[1..], id);
      if DistinctRemote(orders) {
        forall i | 0 <= i < |rest| ensures rest[i].id != orders[0].id {
          assert rest[i] in rest && rest[i] in orders[1..];
        }
      }
    }
  }

  lemma {:induction false} KeepRemoves(orders: seq<RemoteOrder>, ids: seq<string>)
    ensures forall o :: o in Keep(orders, ids) <==> o in orders && o.id !in ids
    ensures DistinctRemote(orders) ==> DistinctRemote(Keep(orders, ids))
    decreases ids
  {
    if ids != [] {
      DropRemoves(orders, ids[0]);
      KeepRemoves(Drop(orders, ids[0]), ids[1..]);
      assert forall id :: id in ids <==> id == ids[0] || id in ids[1..];
    }
  }

  lemma {:induction false} PerformCancels(x: Input, ids: seq<string>)
    ensures PerformAll(x, Cancels(ids)) == x.(remote := Keep(x.remote, ids))
    decreases ids
  {
    if ids != [] {
      assert Cancels(ids)[1..] == Cancels(ids[1..]);
      PerformCancels(Perform(x, CancelRemoteOrder(ids[0])), ids[1..]);
    }
  }

  /** A local order brought up to date with its remote counterpart. */
  function Absorb(l: LocalOrder, r: RemoteOrder): LocalOrder
  {
    l.(executed := r.executed, terminal := l.terminal || r.status.IsDead())
  }

  function Patch(local: seq<LocalOrder>, r: RemoteOrder): seq<LocalOrder>
  {
    seq(|local|, i requires 0 <= i < |local| => if local[i].id == r.id then Absorb(local[i], r) else local[i])
  }

  function PatchAll(local: seq<LocalOrder>, remote: seq<RemoteOrder>): seq<LocalOrder>
    decreases remote
  {
    if remote == [] then local else PatchAll(Patch(local, remote[0]), remote[1..])
  }

  /** The orders with the one of that id replaced. */
  function With(local: seq<LocalOrder>, l: LocalOrder): seq<LocalOrder>
  {
    seq(|local|, i requires 0 <= i < |local| => if local[i].id == l.id then l else local[i])
  }

  lemma OnlyOneChanges(local: seq<LocalOrder>, l: LocalOrder, r: RemoteOrder)
    requires DistinctLocal(local) && l in local && l.id == r.id
    requires l.executed >= 0 && r.executed >= 0 && r.executed >= l.executed
    ensures With(local, l) == local
    ensures Fill(local, r.id, r.executed - l.executed) == With(local, l.(executed := r.executed))
    ensures Patch(local, r) == With(local, Absorb(l, r))
  {
    forall i | 0 <= i < |local| && local[i].id == l.id ensures local[i] == l {
      LocalIsUnique(local, local[i], l);
    }
  }

  lemma CloseOne(local: seq<LocalOrder>, l: LocalOrder)
    ensures Close(With(local, l), l.id) == With(local, l.(terminal := true))
  {
  }

  function FillAction(l: LocalOrder, r: RemoteOrder): seq<Action>
    requires l.executed >= 0 && r.executed >= 0
  {
    if r.executed > l.executed then [ApplyRemoteFill(r.id, r.executed - l.executed)] else []
  }

  function CloseAction(l: LocalOrder, r: RemoteOrder): seq<Action>
  {
    if r.status.IsDead() && !l.terminal then [ApplyRemoteStatus(r.id, r.status)] else []
  }

  lemma CompareParts(l: LocalOrder, r: RemoteOrder)
    requires l.executed >= 0 && r.executed >= 0 && !Conflict(l, r)
    ensures Compare(l, r) == FillAction(l, r) + CloseAction(l, r)
  {
  }

  lemma PerformCompare(x: Input, l: LocalOrder, r: RemoteOrder)
    requires DistinctLocal(x.local) && l in x.local && l.id == r.id
    requires l.executed >= 0 && r.executed >= 0 && !Conflict(l, r)
    ensures PerformAll(x, Compare(l, r)) == x.(local := Patch(x.local, r))
  {
    OnlyOneChanges(x.local, l, r);
    var l1 := l.(executed := r.executed);
    CloseOne(x.local, l1);
    var fill, close := FillAction(l, r), CloseAction(l, r);
    CompareParts(l, r);
    assert Absorb(l, r) == if close == [] then l1 else l1.(terminal := true);
    hide With, Fill, Close, Patch, Compare, Conflict, Absorb;
    PerformInTurn(x, fill, close);
    PerformOne(x, fill);
    PerformOne(x.(local := With(x.local, l1)), close);
  }

  lemma PerformOne(x: Input, actions: seq<Action>)
    requires |actions| <= 1
    ensures PerformAll(x, actions) == if actions == [] then x else Perform(x, actions[0])
  {
    if actions != [] {
      assert actions[1..] == [];
    }
  }

  /** Where `local` and `base` hold the same orders for the ids still to be compared. */
  ghost predicate SameFor(local: seq<LocalOrder>, base: seq<LocalOrder>, remote: seq<RemoteOrder>)
  {
    && |local| == |base|
    && (forall i :: 0 <= i < |local| ==> local[i].id == base[i].id)
    && forall i, r :: 0 <= i < |local| && r in remote && base[i].id == r.id ==> local[i] == base[i]
  }

  ghost predicate Compatible(base: seq<LocalOrder>, remote: seq<RemoteOrder>)
  {
    && DistinctLocal(base) && DistinctRemote(remote)
    && (forall l :: l in base ==> l.executed >= 0)
    && (forall r :: r in remote ==> r.executed >= 0)
    && forall l, r :: l in base && r in remote && l.id == r.id ==> !Conflict(l, r)
  }

  lemma {:induction false} PerformComparisons(x: Input, base: seq<LocalOrder>, remote: seq<RemoteOrder>)
    requires Compatible(base, remote) && SameFor(x.local, base, remote)
    ensures PerformAll(x, Comparisons(base, remote)) == x.(local := PatchAll(x.local, remote))
    decreases remote
  {
    if remote != [] {
      var r := remote[0];
      assert r in remote;
      var found := Find(base, r.id);
      var first := if found.Some? then Compare(found.value, r) else [];
      PerformInTurn(x, first, Comparisons(base, remote[1..]));
      if found.Some? {
        FoundInBoth(x.local, base, remote, found.value);
        PerformCompare(x, found.value, r);
      } else {
        NotFoundIsKept(x.local, base, remote);
      }
      PatchKeepsOthers(x.local, base, remote);
      PerformComparisons(x.(local := Patch(x.local, r)), base, remote[1..]);
    }
  }

  lemma FoundInBoth(local: seq<LocalOrder>, base: seq<LocalOrder>, remote: seq<RemoteOrder>, l: LocalOrder)
    requires Compatible(base, remote) && SameFor(local, base, remote)
    requires remote != [] && l in base && l.id == remote[0].id
    ensures l in local && DistinctLocal(local)
  {
    var i :| 0 <= i < |base| && base[i] == l;
    assert remote[0] in remote;
    assert local[i] == l;
  }

  lemma NotFoundIsKept(local: seq<LocalOrder>, base: seq<LocalOrder>, remote: seq<RemoteOrder>)
    requires SameFor(local, base, remote) && remote != [] && remote[0].id !in LocalIds(base)
    ensures Patch(local, remote[0]) == local
  {
  }

  lemma PatchKeepsOthers(local: seq<LocalOrder>, base: seq<LocalOrder>, remote: seq<RemoteOrder>)
    requires Compatible(base, remote) && SameFor(local, base, remote) && remote != []
    ensures Compatible(base, remote[1..]) && SameFor(Patch(local, remote[0]), base, remote[1..])
  {
    assert forall r :: r in remote[1..] ==> r in remote && r.id != remote[0].id;
  }

  /** After all patches each local order has absorbed its remote counterpart, if there is one. */
  lemma {:induction false} PatchedIsAbsorbed(local: seq<LocalOrder>, remote: seq<RemoteOrder>)
    requires DistinctRemote(remote)
    ensures |PatchAll(local, remote)| == |local|
    ensures forall i :: 0 <= i < |local| ==>
      && PatchAll(local, remote)[i].id == local[i].id
      && (forall r :: r in remote && r.id == local[i].id ==> PatchAll(local, remote)[i] == Absorb(local[i], r))
      && (local[i].id !in RemoteIds(remote) ==> PatchAll(local, remote)[i] == local[i])
    decreases remote
  {
    if remote != [] {
      var r := remote[0];
      var next := Patch(local, r);
      PatchedIsAbsorbed(next, remote[1..]);
      forall i | 0 <= i < |local| ensures
        && PatchAll(local, remote)[i].id == local[i].id
        && (forall r :: r in remote && r.id == local[i].id ==> PatchAll(local, remote)[i] == Absorb(local[i], r))
        && (local[i].id !in RemoteIds(remote) ==> PatchAll(local, remote)[i] == local[i])
      {
        RemoteIdsOfTail(remote);
        assert r in remote;
        assert forall q :: q in remote <==> q == r || q in remote[1..];
      }
    }
  }

  lemma RemoteIdsOfTail(remote: seq<RemoteOrder>)
    requires remote != []
    ensures forall id :: id in RemoteIds(remote) <==> id == remote[0].id || id in RemoteIds(remote[1..])
    ensures DistinctRemote(remote) ==> remote[0].id !in RemoteIds(remote[1..])
  {
    forall id ensures id in RemoteIds(remote) <==> id == remote[0].id || id in RemoteIds(remote[1..]) {
      if id in RemoteIds(remote) && id != remote[0].id {
        var i :| 0 <= i < |remote| && remote[i].id == id;
        assert remote[1..][i - 1].id == id;
      }
      if id in RemoteIds(remote[1..]) {
        var i :| 0 <= i < |remote[1..]| && remote[1..][i].id == id;
        assert remote[i + 1].id == id;
      }
    }
  }

  // ---------------------------------------------------------------- one round suffices

  /** The state after a round that demanded no halt. */
  lemma RoundResult(x: Input)
    requires WellFormed(x) && !Conflicting(x)
    ensures PerformAll(x, Reconciled(x)) ==
      Input(PatchAll(x.local, x.remote),
            Keep(x.remote, Text.SortedKeys(RemoteIds(x.remote) - LocalIds(x.local))),
            x.remotePosition, x.remotePosition)
  {
    NoConflictMeans(x);
    hide *;
    var orphans := Text.SortedKeys(RemoteIds(x.remote) - LocalIds(x.local));
    var c, d := Comparisons(x.local, x.remote), PositionActions(x);
    PerformParts(x, orphans, c, d);
    PerformComparisons(x.(remote := Keep(x.remote, orphans)), x.local, x.remote);
    SamePositions(x, x.(local := PatchAll(x.local, x.remote), remote := Keep(x.remote, orphans)));
    PerformPosition(x.(local := PatchAll(x.local, x.remote), remote := Keep(x.remote, orphans)), d);
    PerformContinue(x);
  }

  lemma SamePositions(x: Input, y: Input)
    requires x.localPosition == y.localPosition && x.remotePosition == y.remotePosition
    ensures PositionActions(x) == PositionActions(y)
  {
  }

  /** Continue does nothing, so carrying out a round is carrying out its differences. */
  lemma PerformContinue(x: Input)
    requires WellFormed(x)
    ensures PerformAll(x, Reconciled(x)) == PerformAll(x, Differences(x))
  {
    hide Differences;
    assert [Continue][1..] == [];
    assert PerformAll(x, [Continue]) == x;
  }

  lemma NoConflictMeans(x: Input)
    requires WellFormed(x) && !Conflicting(x)
    ensures Compatible(x.local, x.remote) && SameFor(x.local, x.local, x.remote)
    ensures Differences(x) == Cancels(Text.SortedKeys(RemoteIds(x.remote) - LocalIds(x.local)))
      + Comparisons(x.local, x.remote) + PositionActions(x)
  {
    NoAbsences(x);
    hide Text.SortedKeys, Absences, Comparisons, Cancels, PositionActions;
    var a := Cancels(Text.SortedKeys(RemoteIds(x.remote) - LocalIds(x.local)));
    assert a + [] == a;
  }

  lemma PerformParts(x: Input, orphans: seq<string>, c: seq<Action>, d: seq<Action>)
    ensures PerformAll(x, Cancels(orphans) + c + d)
         == PerformAll(PerformAll(x.(remote := Keep(x.remote, orphans)), c), d)
  {
    PerformInTurn(x, Cancels(orphans) + c, d);
    PerformInTurn(x, Cancels(orphans), c);
    PerformCancels(x, orphans);
  }

  lemma NoAbsences(x: Input)
    requires WellFormed(x) && !Conflicting(x)
    ensures Absences(x.local, Text.SortedKeys(LocalIds(x.local) - RemoteIds(x.remote))) == []
  {
    MissingMean(x);
  }

  lemma PerformPosition(z: Input, d: seq<Action>)
    requires d == PositionActions(z)
    ensures PerformAll(z, d) == z.(localPosition := z.remotePosition)
  {
    if d != [] {
      var y := Perform(z, d[0]);
      assert d[1..][1..] == [];
      assert PerformAll(y, d[1..]) == Perform(y, d[1]);
    }
  }

  /**
   Reconciliation converges in one round: unless it demands a halt, carrying out its actions
   makes the next round exactly Continue.
   */
  lemma OneRoundSuffices(x: Input)
    requires !Halts(Reconciled(x))
    ensures Reconciled(PerformAll(x, Reconciled(x))) == [Continue]
  {
    ContinueMeansAgreement(x);
    RoundResult(x);
    var y := PerformAll(x, Reconciled(x));
    PatchedIsAbsorbed(x.local, x.remote);
    KeepRemoves(x.remote, Text.SortedKeys(RemoteIds(x.remote) - LocalIds(x.local)));
    RoundIsWellFormed(x, y);
    RoundAgrees(x, y);
    ContinueMeansAgreement(y);
  }

  /** What the closed form of a round's result gives. */
  ghost predicate IsRound(x: Input, y: Input)
  {
    && |y.local| == |x.local|
    && (forall i :: 0 <= i < |x.local| ==>
          && y.local[i].id == x.local[i].id
          && (forall r :: r in x.remote && r.id == x.local[i].id ==> y.local[i] == Absorb(x.local[i], r))
          && (x.local[i].id !in RemoteIds(x.remote) ==> y.local[i] == x.local[i]))
    && (forall r :: r in y.remote <==> r in x.remote && r.id in LocalIds(x.local))
    && DistinctRemote(y.remote)
    && y.localPosition == y.remotePosition
  }

  lemma RoundIsWellFormed(x: Input, y: Input)
    requires WellFormed(x) && IsRound(x, y)
    ensures WellFormed(y)
  {
    forall o | o in y.local ensures o.executed >= 0 && o.symbol != "" {
      var i :| 0 <= i < |y.local| && y.local[i] == o;
      assert x.local[i] in x.local;
      if x.local[i].id in RemoteIds(x.remote) {
        var k :| 0 <= k < |x.remote| && x.remote[k].id == x.local[i].id;
        assert x.remote[k] in x.remote;
      }
    }
  }

  lemma RoundAgrees(x: Input, y: Input)
    requires WellFormed(x) && !Conflicting(x) && IsRound(x, y)
    ensures Agrees(y)
  {
    forall id ensures id in LocalIds(x.local) <==> id in LocalIds(y.local) {
      if id in LocalIds(x.local) {
        var i :| 0 <= i < |x.local| && x.local[i].id == id;
        assert y.local[i].id == id;
      }
    }
    forall l | l in y.local && !l.terminal ensures l.id in RemoteIds(y.remote) {
      var i :| 0 <= i < |y.local| && y.local[i] == l;
      assert x.local[i] in x.local;
      assert x.local[i].id in RemoteIds(x.remote);
      var k :| 0 <= k < |x.remote| && x.remote[k].id == x.local[i].id;
      assert x.remote[k] in x.remote && x.remote[k] in y.remote;
    }
    forall l, r | l in y.local && r in y.remote && l.id == r.id ensures Settled(l, r) {
      var i :| 0 <= i < |y.local| && y.local[i] == l;
      assert x.local[i] in x.local && r in x.remote && !Conflict(x.local[i], r);
    }
  }
}
