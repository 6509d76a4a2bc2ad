/**
 Whole runs of the registry: heartbeats, heartbeat signals, expiry, bootstrap, explicit reports
 and policy replacement in any order, and what no such run can change.
 */
module RegistryRuns {
  import opened Machine
  import opened Topology
  import opened Health
  import opened Readiness
  import opened Capabilities

  type Signals = map<string, seq<string>>

  datatype Update =
    | Beat(id: string, at: U64)
    | Signal(name: string, at: U64)
    | Expire(now: U64)
    | Boot(at: U64)
    | Filing(snapshot: HealthSnapshot)

  function ApplyHealth(c: Catalog, signals: Signals, h: HealthTable, u: Update): HealthTable
  {
    match u
    case Beat(id, at) =>
      var r := Heartbeat(c, h, id, at);
      if r.Ok? then r.value else h
    case Signal(name, at) => HeartbeatAll(c, h, if name in signals then signals[name] else [], at).0
    case Expire(now) => MarkStale(c, h, now)
    case Boot(at) => Bootstrap(c, h, at)
    case Filing(s) =>
      var r := Report(c, h, s);
      if r.Ok? then r.value else h
  }

  function RunHealth(c: Catalog, signals: Signals, h: HealthTable, us: seq<Update>): HealthTable
    decreases us
  {
    if us == [] then h else RunHealth(c, signals, ApplyHealth(c, signals, h, us[0]), us[1..])
  }

  /** An update that files an explicit report for a system. */
  predicate Files(u: Update, id: string) { u.Filing? && u.snapshot.systemId == id }

  lemma OneUpdate(c: Catalog, signals: Signals, h: HealthTable, u: Update, id: string)
    requires FiledById(h) && id in h
    ensures var next := ApplyHealth(c, signals, h, u);
      && FiledById(next) && id in next
      && h[id].observedAtMs <= next[id].observedAtMs
      && (!Files(u, id) ==> Continues(h[id], next[id]))
  {
    match u {
      case Beat(b, at) => HeartbeatContinues(c, h, b, at);
      case Signal(name, at) =>
        HeartbeatAllContinues(c, h, if name in signals then signals[name] else [], at);
      case Expire(now) => MarkStaleMeaning(c, h, now);
      case Boot(at) =>
      case Filing(s) =>
    }
  }

  /** As long as no explicit report is filed for a system, its own report only continues. */
  lemma {:induction false} HealthRunContinues(c: Catalog, signals: Signals, h: HealthTable, us: seq<Update>, id: string)
    requires FiledById(h) && id in h && forall i :: 0 <= i < |us| ==> !Files(us[i], id)
    ensures var after := RunHealth(c, signals, h, us);
      FiledById(after) && id in after && Continues(h[id], after[id])
    decreases us
  {
    if us != [] {
      OneUpdate(c, signals, h, us[0], id);
      hide ApplyHealth;
      HealthRunContinues(c, signals, ApplyHealth(c, signals, h, us[0]), us[1..], id);
    }
  }

  /** No health timestamp ever goes backwards and no report is ever lost, explicit reports included. */
  lemma {:induction false} TimestampsNeverRegress(c: Catalog, signals: Signals, h: HealthTable, us: seq<Update>, id: string)
    requires FiledById(h) && id in h
    ensures id in RunHealth(c, signals, h, us)
    ensures h[id].observedAtMs <= RunHealth(c, signals, h, us)[id].observedAtMs
    decreases us
  {
    if us != [] {
      OneUpdate(c, signals, h, us[0], id);
      hide ApplyHealth;
      TimestampsNeverRegress(c, signals, ApplyHealth(c, signals, h, us[0]), us[1..], id);
    }
  }

  /**
   A halted, draining or invariant-broken system stays untradable through every run of health
   updates that files no explicit report for it, and nothing that depends on it, directly or
   not, becomes ready.
   */
  lemma QuarantineIsPermanent(
    c: Catalog, signals: Signals, h: HealthTable, us: seq<Update>, id: string, dependent: string, now: U64)
    requires ValidTopology(c) && FiledById(h)
    requires id in h && Barred(h, id) && forall i :: 0 <= i < |us| ==> !Files(us[i], id)
    requires Reaches(c, dependent, id)
    ensures id in RunHealth(c, signals, h, us) && !RunHealth(c, signals, h, us)[id].IsTradable()
    ensures !IsReady(c, RunHealth(c, signals, h, us), dependent, now)
  {
    var after := RunHealth(c, signals, h, us);
    HealthRunContinues(c, signals, h, us, id);
    assert Continues(h[id], after[id]);
    ReadyMeansClosureHealthy(c, after, dependent, now);
    assert !Healthy(c, after, id, now);
  }

  /**
   Once every system that one depends on, itself included, has been beaten at a moment, it is ready
   at that moment if and only if none of them was halted, draining or had failed invariants.
   */
  lemma BeatsBringReadiness(c: Catalog, h: HealthTable, ids: seq<string>, id: string, t: U64)
    requires ValidTopology(c) && FiledById(h) && forall x :: x in c ==> c[x].healthIntervalMs > 0
    requires HeartbeatAll(c, h, ids, t).1.Pass? && forall x :: Reaches(c, id, x) ==> x in ids
    ensures IsReady(c, HeartbeatAll(c, h, ids, t).0, id, t) <==> forall x :: Reaches(c, id, x) ==> !Barred(h, x)
  {
    HeartbeatAllAchieves(c, h, ids, t);
    var after := HeartbeatAll(c, h, ids, t).0;
    ReadyInFigures(c, after, id, t);
    hide HeartbeatAll, IsReady, ValidTopology, Reaches, Barred;
    forall x | Reaches(c, id, x) ensures Refreshed(h, x, after[x], t) && x in c {
      assert x in ids;
    }
  }

  /** A bootstrapped registry is not ready, and becomes ready with the first signal that reaches a whole closure. */
  lemma FirstSignalBringsReadiness(c: Catalog, signals: Signals, name: string, id: string, booted: U64, t: U64)
    requires ValidTopology(c) && booted <= t && forall x :: x in c ==> c[x].healthIntervalMs > 0
    requires name in signals && id in c && forall x :: x in signals[name] ==> x in c
    requires forall x :: Reaches(c, id, x) ==> x in signals[name]
    ensures !IsReady(c, Bootstrap(c, map[], booted), id, t)
    ensures IsReady(c, ApplyHealth(c, signals, Bootstrap(c, map[], booted), Signal(name, t)), id, t)
  {
    var h := Bootstrap(c, map[], booted);
    BootstrapMeans(c, map[], booted);
    ReachesSelf(c, id);
    hide HeartbeatAll, IsReady, ValidTopology, Reaches, Barred, Refreshed, Bootstrap;
    HeartbeatAllAchieves(c, h, signals[name], t);
    BeatsBringReadiness(c, h, signals[name], id, t);
    ReadyInFigures(c, h, id, t);
  }

  /** An update that brings news of a system: its own beat, a signal it listens to, or a report. */
  predicate Hears(signals: Signals, u: Update, id: string)
  {
    match u
    case Beat(b, _) => b == id
    case Signal(name, _) => name in signals && id in signals[name]
    case Filing(s) => s.systemId == id
    case _ => false
  }

  lemma {:induction false} BeatsLeaveOthers(c: Catalog, h: HealthTable, ids: seq<string>, at: U64, id: string)
    requires FiledById(h) && id !in ids
    ensures var after := HeartbeatAll(c, h, ids, at).0;
      (id in after <==> id in h) && (id in h ==> after[id] == h[id])
    decreases ids
  {
    if ids != [] {
      assert ids == [ids[0]] + ids[1..];
      HeartbeatAchieves(c, h, ids[0], at);
      HeartbeatContinues(c, h, ids[0], at);
      var first := Heartbeat(c, h, ids[0], at);
      hide Heartbeat, Refreshed;
      if first.Ok? {
        BeatsLeaveOthers(c, first.value, ids[1..], at, id);
      }
    }
  }

  /** Not reported at all, or with a report that is stale. */
  ghost predicate Silent(h: HealthTable, id: string)
  {
    id !in h || h[id].stale
  }

  lemma StaysFiled(c: Catalog, signals: Signals, h: HealthTable, u: Update)
    requires FiledById(h)
    ensures FiledById(ApplyHealth(c, signals, h, u))
  {
    match u {
      case Beat(b, at) => HeartbeatContinues(c, h, b, at);
      case Signal(name, at) => HeartbeatAllContinues(c, h, if name in signals then signals[name] else [], at);
      case _ =>
    }
  }

  lemma UnheardStaysSilent(c: Catalog, signals: Signals, h: HealthTable, u: Update, id: string)
    requires FiledById(h) && Silent(h, id) && !Hears(signals, u, id)
    ensures Silent(ApplyHealth(c, signals, h, u), id)
  {
    match u {
      case Beat(b, at) => HeartbeatAchieves(c, h, b, at);
      case Signal(name, at) => BeatsLeaveOthers(c, h, if name in signals then signals[name] else [], at, id);
      case Expire(now) => MarkStaleMeaning(c, h, now);
      case Boot(at) => BootstrapMeans(c, h, at);
      case Filing(s) =>
    }
  }

  /**
   A system without a report, or with an expired one, keeps everything that depends on it from being
   ready until it is heard of: bootstrap, expiry and news of other systems do not help.
   */
  lemma {:induction false} UnheardSystemsStayUnready(
    c: Catalog, signals: Signals, h: HealthTable, us: seq<Update>, id: string, dependent: string, now: U64)
    requires ValidTopology(c) && FiledById(h) && Reaches(c, dependent, id)
    requires Silent(h, id) && forall i :: 0 <= i < |us| ==> !Hears(signals, us[i], id)
    ensures var after := RunHealth(c, signals, h, us);
      && Silent(after, id) && (id in after ==> !after[id].IsTradable())
      && !IsReady(c, after, dependent, now)
    decreases us
  {
    if us == [] {
      ReadyInFigures(c, h, dependent, now);
    } else {
      UnheardStaysSilent(c, signals, h, us[0], id);
      StaysFiled(c, signals, h, us[0]);
      hide ApplyHealth, Silent, Hears;
      UnheardSystemsStayUnready(c, signals, ApplyHealth(c, signals, h, us[0]), us[1..], id, dependent, now);
    }
  }

  /** Expiry at a time is idempotent and leaves the set of systems ready at that time unchanged. */
  lemma ExpiryIsSilent(c: Catalog, h: HealthTable, now: U64, id: string)
    requires ValidTopology(c)
    ensures MarkStale(c, MarkStale(c, h, now), now) == MarkStale(c, h, now)
    ensures IsReady(c, MarkStale(c, h, now), id, now) <==> IsReady(c, h, id, now)
  {
    var after := MarkStale(c, h, now);
    MarkStaleMeaning(c, h, now);
    ReadyMeansClosureHealthy(c, h, id, now);
    ReadyMeansClosureHealthy(c, after, id, now);
    forall x ensures Healthy(c, after, x, now) <==> Healthy(c, h, x, now) {
    }
  }

  /**
   Capability admission survives every run of health updates: whenever a system of an accepted
   registry is ready, so is every capability it consumes.
   */
  lemma CapabilitiesFollowReadiness(
    c: Catalog, contracts: Contracts, signals: Signals, h: HealthTable, us: seq<Update>,
    id: string, capability: string, now: U64)
    requires ValidTopology(c) && ContractsAdmissible(c, contracts)
    requires id in contracts && capability in contracts[id].consumed
    requires IsReady(c, RunHealth(c, signals, h, us), id, now)
    ensures CapabilityReady(c, contracts, RunHealth(c, signals, h, us), capability, now)
  {
    ReadySystemFindsItsCapabilities(c, contracts, RunHealth(c, signals, h, us), id, capability, now);
  }

  // ---------------------------------------------------------------- policy replacement

  /** What a replacement may not alter: everything about a descriptor but its dependencies. */
  predicate SameIdentity(current: Descriptor, replacement: Descriptor)
  {
    replacement == current.(dependencies := replacement.dependencies)
  }

  ghost predicate Replaceable(c: Catalog, id: string, replacement: Descriptor)
  {
    && id in c && !c[id].mutability.ImmutableCore?
    && SameIdentity(c[id], replacement)
    && ValidTopology(c[id := replacement])
  }

  ghost function Replace(c: Catalog, id: string, replacement: Descriptor): Catalog
  {
    if Replaceable(c, id, replacement) then c[id := replacement] else c
  }

  ghost function RunReplacements(c: Catalog, rs: seq<(string, Descriptor)>): Catalog
  {
    if rs == [] then c else RunReplacements(Replace(c, rs[0].0, rs[0].1), rs[1..])
  }

  /**
   Every catalog reachable by replacement requests, accepted or refused, has a valid topology
   and the same systems; only dependencies of systems outside the immutable core can differ.
   */
  lemma {:induction false} ReplacementsKeepTopology(c: Catalog, rs: seq<(string, Descriptor)>)
    requires ValidTopology(c)
    ensures var after := RunReplacements(c, rs);
      && ValidTopology(after)
      && after.Keys == c.Keys
      && forall id :: id in c ==>
        SameIdentity(c[id], after[id]) && (c[id].mutability.ImmutableCore? ==> after[id] == c[id])
    decreases rs
  {
    if rs != [] {
      ReplacementsKeepTopology(Replace(c, rs[0].0, rs[0].1), rs[1..]);
    }
  }

  // ---------------------------------------------------------------- what a replacement can take away

  ghost predicate ScopesHold(c: Catalog, contracts: Contracts)
  {
    forall s, x :: s in contracts && x in contracts[s].consumed ==> InScope(c, contracts, s, x)
  }

  /** In every health table and at every time a ready system finds what it consumes ready. */
  ghost predicate HonoursCapabilities(c: Catalog, contracts: Contracts)
  {
    forall s, x :: s in contracts && x in contracts[s].consumed ==>
      forall h, now :: IsReady(c, h, s, now) ==> CapabilityReady(c, contracts, h, x, now)
  }

  /**
   After any replacement requests the capabilities of all contracts are honoured if and only if
   every consumed one still has a provider in scope, which the requests do not check.
   */
  lemma ReplacementsHonourCapabilities(c: Catalog, contracts: Contracts, rs: seq<(string, Descriptor)>)
    requires ValidTopology(c) && contracts.Keys <= c.Keys && forall s :: s in c ==> c[s].healthIntervalMs > 0
    ensures var after := RunReplacements(c, rs);
      HonoursCapabilities(after, contracts) <==> ScopesHold(after, contracts)
  {
    ReplacementsKeepTopology(c, rs);
    var after := RunReplacements(c, rs);
    assert forall s :: s in after ==> SameIdentity(c[s], after[s]);
    hide RunReplacements, ValidTopology, IsReady, CapabilityReady, InScope;
    forall s, x | s in contracts && x in contracts[s].consumed
      ensures InScope(after, contracts, s, x) <==>
        forall h, now :: IsReady(after, h, s, now) ==> CapabilityReady(after, contracts, h, x, now)
    {
      ScopeIsExactlyWhatReadinessNeeds(after, contracts, s, x);
    }
  }

  /** The guard of a single replacement, to be checked on the catalog it would leave. */
  lemma ReplacementHonoursCapabilities(c: Catalog, contracts: Contracts, id: string, replacement: Descriptor)
    requires ValidTopology(c) && contracts.Keys <= c.Keys && forall s :: s in c ==> c[s].healthIntervalMs > 0
    requires Replaceable(c, id, replacement)
    ensures HonoursCapabilities(Replace(c, id, replacement), contracts)
        <==> ScopesHold(c[id := replacement], contracts)
  {
    var rs := [(id, replacement)];
    assert rs[1..] == [];
    assert RunReplacements(c, rs) == c[id := replacement];
    ReplacementsHonourCapabilities(c, contracts, rs);
  }

  function Plain(id: string, dependencies: seq<string>): Descriptor
  {
    Descriptor(id, Layer.Decision, Strategy, Internal, GovernedPolicy, dependencies, 1_000, true)
  }

  /** Two systems, the first depending on the second. */
  function Pair(): Catalog { map["a" := Plain("a", ["p"]), "p" := Plain("p", [])] }

  lemma PairIsValid()
    ensures ValidTopology(Pair()) && ValidTopology(Pair()["a" := Plain("a", [])])
    ensures Reaches(Pair(), "a", "p") && !Reaches(Pair()["a" := Plain("a", [])], "a", "p")
  {
    var c, after := Pair(), Pair()["a" := Plain("a", [])];
    assert Edge(c, "a", "p");
    ReachesSelf(c, "p");
    ReachesAfterEdge(c, "a", "p", "p");
    ClosedSetHoldsReachable(c, {"p"}, "p");
    ClosedSetHoldsReachable(after, {"a"}, "a");
  }

  /**
   From admissible contracts, an accepted replacement after which "a" can be ready although the
   capability that it consumes is not.
   */
  lemma ReplacementsCanLoseCapabilities()
    ensures var contracts := map["a" := Contract("a", ["p"], [], ["x"], RecoveryPolicy.Halt),
                                 "p" := Contract("p", [], ["x"], [], RecoveryPolicy.Halt)];
      var after := Pair()["a" := Plain("a", [])];
      && ValidTopology(Pair()) && ContractsAdmissible(Pair(), contracts)
      && Replaceable(Pair(), "a", Plain("a", [])) && Replace(Pair(), "a", Plain("a", [])) == after
      && exists h, now :: IsReady(after, h, "a", now) && !CapabilityReady(after, contracts, h, "x", now)
  {
    var contracts := map["a" := Contract("a", ["p"], [], ["x"], RecoveryPolicy.Halt),
                         "p" := Contract("p", [], ["x"], [], RecoveryPolicy.Halt)];
    var after := Pair()["a" := Plain("a", [])];
    PairIsValid();
    hide ValidTopology, Reaches, IsReady, CapabilityReady;
    assert WellNamed("x") by {
      assert "x"[0] == 'x';
    }
    assert InScope(Pair(), contracts, "a", "x") by {
      assert Provides(contracts, "p", "x");
    }
    ScopeIsExactlyWhatReadinessNeeds(after, contracts, "a", "x");
    assert !InScope(after, contracts, "a", "x");
  }
}
