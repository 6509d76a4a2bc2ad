/**
 The health table of the system registry: what a report is worth, and how heartbeats,
 signals, expiry and bootstrap change the table.
 */
module Health {
  import opened Machine
  import opened Outcomes
  import opened Topology
  import Text

  datatype SystemState = Discovered | Ready | Degraded | Halted | Draining

  const EXPIRED := "health_report_expired"
  const AWAITING := "awaiting_first_health_report"

  datatype HealthSnapshot = HealthSnapshot(
    systemId: string,
    state: SystemState,
    observedAtMs: U64,
    stale: bool,
    invariantFailures: nat,
    queueDepth: nat,
    errorRatePpm: nat,
    diagnostics: seq<string>)
  {
    predicate IsTradable()
    {
      state.Ready? && !stale && invariantFailures == 0
    }

    predicate IsFreshAt(nowMs: U64, intervalMs: U64)
    {
      !stale && observedAtMs <= nowMs && intervalMs > 0 && nowMs - observedAtMs <= intervalMs
    }
  }

  type HealthTable = map<string, HealthSnapshot>

  datatype RegistryError =
    | DuplicateSystem(id: string)
    | InvalidSystemId(id: string)
    | InvalidHealthInterval(id: string)
    | LayerViolation(system: string, dependency: string, systemLayer: Layer, dependencyLayer: Layer)
    | CapabilityProviderOutOfScope(system: string, capability: string)
    | DuplicateDependency(system: string, dependency: string)
    | SelfDependency(id: string)
    | MissingDependency(system: string, dependency: string)
    | DependencyCycle
    | HealthTimestampRegression(system: string, previousMs: U64, observedMs: U64)
    | ImmutableReplacement(id: string)

  function DiscoveredSnapshot(id: string, at: U64): HealthSnapshot
  {
    HealthSnapshot(id, Discovered, at, true, 0, 0, 0, [AWAITING])
  }

  function ReadySnapshot(id: string, at: U64): HealthSnapshot
  {
    HealthSnapshot(id, Ready, at, false, 0, 0, 0, [])
  }

  function Report(c: Catalog, h: HealthTable, s: HealthSnapshot): Result<HealthTable, RegistryError>
  {
    if s.systemId !in c then Err(MissingDependency(s.systemId, "registered descriptor"))
    else if s.systemId in h && s.observedAtMs < h[s.systemId].observedAtMs then
      Err(HealthTimestampRegression(s.systemId, h[s.systemId].observedAtMs, s.observedAtMs))
    else Ok(h[s.systemId := s])
  }

  function AfterHeartbeat(s: HealthSnapshot, at: U64): HealthSnapshot
  {
    var next :=
      if s.state.Halted? || s.state.Draining? then s.state
      else if s.state.Degraded? && s.invariantFailures > 0 then Degraded
      else Ready;
    s.(observedAtMs := at, stale := false, state := next,
       diagnostics := Text.Without(s.diagnostics, EXPIRED))
  }

  function Heartbeat(c: Catalog, h: HealthTable, id: string, at: U64): Result<HealthTable, RegistryError>
  {
    Report(c, h, if id in h then AfterHeartbeat(h[id], at) else ReadySnapshot(id, at))
  }

  /** Heartbeats of several systems in order; the first error ends the fold but keeps what was done. */
  function HeartbeatAll(c: Catalog, h: HealthTable, ids: seq<string>, at: U64): (HealthTable, Outcome<RegistryError>)
    decreases ids
  {
    if ids == [] then (h, Pass)
    else
      match Heartbeat(c, h, ids[0], at)
      case Err(e) => (h, Fail(e))
      case Ok(next) => HeartbeatAll(c, next, ids[1..], at)
  }

  function MarkOne(s: HealthSnapshot, nowMs: U64, intervalMs: U64): HealthSnapshot
  {
    var stale := !s.IsFreshAt(nowMs, intervalMs);
    if stale == s.stale then s
    else s.(stale := stale, diagnostics := s.diagnostics + if stale then [EXPIRED] else [])
  }

  function MarkStale(c: Catalog, h: HealthTable, nowMs: U64): HealthTable
  {
    map id | id in h :: if id in c then MarkOne(h[id], nowMs, c[id].healthIntervalMs) else h[id]
  }

  function Bootstrap(c: Catalog, h: HealthTable, at: U64): HealthTable
  {
    map id | id in h.Keys + c.Keys :: if id in h then h[id] else DiscoveredSnapshot(id, at)
  }

  ghost predicate FiledById(h: HealthTable)
  {
    forall id :: id in h ==> h[id].systemId == id
  }

  // ---------------------------------------------------------------- what no update may undo

  /** What every health update keeps of a system's earlier report. */
  ghost predicate Continues(before: HealthSnapshot, after: HealthSnapshot)
  {
    && after.systemId == before.systemId
    && before.observedAtMs <= after.observedAtMs
    && after.invariantFailures == before.invariantFailures
    && after.queueDepth == before.queueDepth
    && after.errorRatePpm == before.errorRatePpm
    && (before.state.Halted? || before.state.Draining? ==> after.state == before.state)
  }

  ghost predicate TableContinues(before: HealthTable, after: HealthTable)
  {
    FiledById(after) && forall id :: id in before ==> id in after && Continues(before[id], after[id])
  }

  lemma HeartbeatContinues(c: Catalog, h: HealthTable, id: string, at: U64)
    requires FiledById(h)
    ensures Heartbeat(c, h, id, at).Ok? ==> TableContinues(h, Heartbeat(c, h, id, at).value)
  {
  }

  lemma {:induction false} HeartbeatAllContinues(c: Catalog, h: HealthTable, ids: seq<string>, at: U64)
    requires FiledById(h)
    ensures TableContinues(h, HeartbeatAll(c, h, ids, at).0)
    decreases ids
  {
    if ids != [] {
      HeartbeatContinues(c, h, ids[0], at);
      var r := Heartbeat(c, h, ids[0], at);
      if r.Ok? {
        HeartbeatAllContinues(c, r.value, ids[1..], at);
      }
    }
  }

  // ---------------------------------------------------------------- what heartbeats achieve

  /** A report that only an explicit report may replace: halted, draining, or with failed invariants. */
  ghost predicate Barred(h: HealthTable, id: string)
  {
    id in h && (h[id].state.Halted? || h[id].state.Draining? || h[id].invariantFailures > 0)
  }

  /**
   A report at the time of a heartbeat: no longer stale or expired, and ready to trade exactly if
   nothing but an explicit report could bring the system back.
   */
  ghost predicate Refreshed(h: HealthTable, id: string, after: HealthSnapshot, at: U64)
  {
    && after.systemId == id && after.observedAtMs == at && !after.stale
    && (after.state.Ready? && after.invariantFailures == 0 <==> !Barred(h, id))
    && (id in h && h[id].state.Degraded? && h[id].invariantFailures > 0 ==> after.state.Degraded?)
    && (id in h && (h[id].state.Halted? || h[id].state.Draining?) ==> after.state == h[id].state)
    && (id in h && !h[id].state.Halted? && !h[id].state.Draining? && !h[id].state.Degraded? ==> after.state.Ready?)
  }

  /** Nothing counted yet. */
  ghost predicate Uncounted(s: HealthSnapshot)
  {
    s.invariantFailures == 0 && s.queueDepth == 0 && s.errorRatePpm == 0
  }

  lemma {:induction false} WithoutExpired(s: seq<string>, exclude: string)
    ensures multiset(Text.Without(s, exclude)) == multiset(s)[exclude := 0]
    decreases s
  {
    if s != [] {
      assert s == [s[0]] + s[1..];
      WithoutExpired(s[1..], exclude);
    }
  }

  /**
   A heartbeat succeeds exactly for a registered system whose report is not later. It refreshes
   that report, drops its expiry notes and no other, and touches nothing else.
   */
  lemma HeartbeatAchieves(c: Catalog, h: HealthTable, id: string, at: U64)
    requires FiledById(h)
    ensures var r := Heartbeat(c, h, id, at);
      && (r.Ok? <==> id in c && (id in h ==> h[id].observedAtMs <= at))
      && (r.Ok? ==>
            && r.value.Keys == h.Keys + {id} && Refreshed(h, id, r.value[id], at)
            && (id in h ==>
                  multiset(r.value[id].diagnostics) == multiset(h[id].diagnostics)[EXPIRED := 0])
            && (id !in h ==> Uncounted(r.value[id]) && r.value[id].diagnostics == [])
            && forall x :: x in h && x != id ==> r.value[x] == h[x])
  {
    if id in h {
      WithoutExpired(h[id].diagnostics, EXPIRED);
    }
  }

  /** Beating a system a second time at the same moment changes nothing about what bars it. */
  lemma RefreshedTwice(h: HealthTable, next: HealthTable, id: string, after: HealthSnapshot, at: U64)
    requires id in next && Refreshed(h, id, next[id], at) && Refreshed(next, id, after, at)
    requires id in h ==> next[id].invariantFailures == h[id].invariantFailures
    ensures Refreshed(h, id, after, at)
  {
  }

  /**
   Heartbeats of several systems all succeed exactly if each of them is registered and none has a
   later report. Then each has been refreshed, and all other reports are as they were.
   */
  lemma {:induction false} HeartbeatAllAchieves(c: Catalog, h: HealthTable, ids: seq<string>, at: U64)
    requires FiledById(h)
    ensures var r := HeartbeatAll(c, h, ids, at);
      && (r.1.Pass? <==> forall id :: id in ids ==> id in c && (id in h ==> h[id].observedAtMs <= at))
      && (r.1.Pass? ==>
            && (forall id :: id in ids ==> id in r.0 && Refreshed(h, id, r.0[id], at))
            && forall x :: x !in ids ==> (x in r.0 <==> x in h) && (x in h ==> r.0[x] == h[x]))
    decreases ids
  {
    if ids != [] {
      assert ids == [ids[0]] + ids[1..];
      HeartbeatAchieves(c, h, ids[0], at);
      HeartbeatContinues(c, h, ids[0], at);
      var first := Heartbeat(c, h, ids[0], at);
      hide Heartbeat, Refreshed, Barred;
      if first.Ok? {
        OneBeat(c, h, first.value, ids, at);
      }
    }
  }

  lemma {:induction false} OneBeat(c: Catalog, h: HealthTable, next: HealthTable, ids: seq<string>, at: U64)
    requires FiledById(h) && ids != [] && Heartbeat(c, h, ids[0], at) == Ok(next) && FiledById(next)
    requires ids[0] in c && (ids[0] in h ==> h[ids[0]].observedAtMs <= at)
    requires next.Keys == h.Keys + {ids[0]} && Refreshed(h, ids[0], next[ids[0]], at)
    requires ids[0] in h ==> next[ids[0]].invariantFailures == h[ids[0]].invariantFailures
    requires forall x :: x in h && x != ids[0] ==> next[x] == h[x]
    ensures var r := HeartbeatAll(c, h, ids, at);
      && (r.1.Pass? <==> forall id :: id in ids ==> id in c && (id in h ==> h[id].observedAtMs <= at))
      && (r.1.Pass? ==>
            && (forall id :: id in ids ==> id in r.0 && Refreshed(h, id, r.0[id], at))
            && forall x :: x !in ids ==> (x in r.0 <==> x in h) && (x in h ==> r.0[x] == h[x]))
    decreases ids, 0
  {
    var rest := ids[1..];
    assert ids == [ids[0]] + rest;
    hide Heartbeat;
    assert next[ids[0]].observedAtMs == at;
    HeartbeatAllAchieves(c, next, rest, at);
    var r := HeartbeatAll(c, next, rest, at);
    if r.1.Pass? {
      forall id | id in ids ensures id in r.0 && Refreshed(h, id, r.0[id], at) {
        if id in rest && id == ids[0] {
          RefreshedTwice(h, next, id, r.0[id], at);
        }
      }
    }
  }

  /** A heartbeat after an expiry restores what a heartbeat without it would have filed. */
  lemma HeartbeatUndoesExpiry(s: HealthSnapshot, now: U64, interval: U64, at: U64)
    ensures AfterHeartbeat(MarkOne(s, now, interval), at) == AfterHeartbeat(s, at)
  {
    WithoutAppended(s.diagnostics, EXPIRED);
    assert s.diagnostics + [] == s.diagnostics;
  }

  lemma {:induction false} WithoutAppended(s: seq<string>, exclude: string)
    ensures Text.Without(s + [exclude], exclude) == Text.Without(s, exclude)
    decreases s
  {
    if s == [] {
      assert s + [exclude] == [exclude] && [exclude][1..] == [];
    } else {
      assert (s + [exclude])[1..] == s[1..] + [exclude];
      WithoutAppended(s[1..], exclude);
    }
  }

  /** Bootstrap files an untradable report for every registered system that has none, and no other. */
  lemma BootstrapMeans(c: Catalog, h: HealthTable, at: U64)
    ensures var after := Bootstrap(c, h, at);
      && after.Keys == h.Keys + c.Keys
      && (forall id :: id in h ==> after[id] == h[id])
      && forall id :: id in c && id !in h ==>
           var s := after[id];
           && s.systemId == id && s.observedAtMs == at && s.stale && s.state.Discovered? && !Barred(after, id)
           && Uncounted(s) && |s.diagnostics| == 1
  {
  }

  /** A report from the future, or older than its interval allows. */
  ghost predicate Overdue(s: HealthSnapshot, now: U64, interval: U64)
  {
    interval == 0 || now < s.observedAtMs || now > s.observedAtMs + interval
  }

  /**
   Expiry only ever sets the stale flag: on reports from the future or older than their interval,
   with a note of it, and on nothing else.
   */
  lemma MarkStaleMeaning(c: Catalog, h: HealthTable, nowMs: U64)
    ensures MarkStale(c, h, nowMs).Keys == h.Keys
    ensures forall id :: id in h && id in c ==>
      MarkStale(c, h, nowMs)[id].stale == !h[id].IsFreshAt(nowMs, c[id].healthIntervalMs)
    ensures forall id :: id in h && h[id].stale ==> MarkStale(c, h, nowMs)[id] == h[id]
    ensures forall id :: id in h ==>
      var s, after := h[id], MarkStale(c, h, nowMs)[id];
      && (after.stale <==> s.stale || (id in c && Overdue(s, nowMs, c[id].healthIntervalMs)))
      && after.(stale := s.stale, diagnostics := s.diagnostics) == s
      && after.diagnostics == s.diagnostics + if after.stale && !s.stale then [EXPIRED] else []
  {
  }
}
