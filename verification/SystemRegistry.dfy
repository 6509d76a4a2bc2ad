/** The runtime topology and health registry. */
module Registry {
  import opened Machine
  import opened Outcomes
  import opened Topology
  import opened Health
  import opened Readiness
  import opened Capabilities
  import opened RegistryRuns
  import Text

  datatype Registration = Registration(
    descriptor: Descriptor,
    contract: Contract,
    implementation: string,
    healthSignals: seq<string>)

  datatype ReadinessReport = ReadinessReport(
    systemId: string,
    checkedAtMs: U64,
    ready: bool,
    blockers: seq<string>,
    candidateProviders: seq<string>,
    selectedProvider: Option<string>)

  // ---------------------------------------------------------------- what a catalog must satisfy

  ghost predicate WellFormed(d: Descriptor)
  {
    && WellNamed(d.id) && d.healthIntervalMs != 0
    && d.id !in d.dependencies
    && forall i, j :: 0 <= i < j < |d.dependencies| ==> d.dependencies[i] != d.dependencies[j]
  }

  ghost predicate DistinctIds(ds: seq<Descriptor>, n: nat)
    requires n <= |ds|
  {
    forall i, j :: 0 <= i < j < n ==> ds[i].id != ds[j].id
  }

  /** The first descriptors are well formed, each with an id of its own. */
  ghost predicate Filable(ds: seq<Descriptor>, n: nat)
    requires n <= |ds|
  {
    (forall i :: 0 <= i < n ==> WellFormed(ds[i])) && DistinctIds(ds, n)
  }

  /** The catalog that files each descriptor under its id; a later one replaces an earlier one. */
  ghost function CatalogOf(ds: seq<Descriptor>): (c: Catalog)
    ensures KeyedById(c)
    ensures forall id :: id in c <==> exists i :: 0 <= i < |ds| && ds[i].id == id
    ensures forall id :: id in c ==> c[id] in ds
  {
    if ds == [] then map[]
    else
      var last := ds[|ds| - 1];
      CatalogOf(ds[..|ds| - 1])[last.id := last]
  }

  lemma CatalogGrows(ds: seq<Descriptor>, i: nat)
    requires i < |ds|
    ensures CatalogOf(ds[..i + 1]) == CatalogOf(ds[..i])[ds[i].id := ds[i]]
  {
    assert ds[..i + 1][..i] == ds[..i];
  }

  lemma FiledIds(ds: seq<Descriptor>, n: nat, id: string)
    requires n <= |ds|
    ensures id in CatalogOf(ds[..n]) <==> exists k :: 0 <= k < n && ds[k].id == id
  {
    hide CatalogOf;
    if k :| 0 <= k < n && ds[k].id == id {
      assert ds[..n][k].id == id;
    }
    if id in CatalogOf(ds[..n]) {
      var k :| 0 <= k < |ds[..n]| && ds[..n][k].id == id;
      assert ds[k].id == id;
    }
  }

  ghost predicate CatalogAcceptable(ds: seq<Descriptor>)
  {
    Filable(ds, |ds|) && ValidTopology(CatalogOf(ds))
  }

  /** An error of the topology check names a defect that the catalog really has. */
  ghost predicate TopologyDefect(c: Catalog, e: RegistryError)
  {
    match e
    case MissingDependency(s, d) => Edge(c, s, d) && d !in c
    case LayerViolation(s, d, sl, dl) =>
      Edge(c, s, d) && d in c && sl == c[s].layer && dl == c[d].layer && dl.Rank() > sl.Rank()
    case DependencyCycle => DependenciesRegistered(c) && LayersRespected(c) && exists a :: OnCycle(c, a)
    case _ => false
  }

  /** An error of a policy replacement names what is wrong with the request. */
  ghost predicate ReplacementDefect(c: Catalog, id: string, replacement: Descriptor, e: RegistryError)
  {
    if id !in c then e == MissingDependency(id, "existing descriptor")
    else if c[id].mutability.ImmutableCore? then e == ImmutableReplacement(id)
    else if replacement.id != id then e == DuplicateSystem(replacement.id)
    else if !SameIdentity(c[id], replacement) then e == ImmutableReplacement(id)
    else TopologyDefect(c[id := replacement], e)
  }

  ghost predicate DescriptorDefect(d: Descriptor, e: RegistryError)
  {
    match e
    case InvalidSystemId(id) => d.id == id && !WellNamed(id)
    case InvalidHealthInterval(id) => d.id == id && d.healthIntervalMs == 0
    case SelfDependency(id) => d.id == id && id in d.dependencies
    case DuplicateDependency(id, x) =>
      d.id == id && exists i, j :: 0 <= i < j < |d.dependencies| && d.dependencies[i] == x == d.dependencies[j]
    case _ => false
  }

  /** An error of the construction from a catalog names a defect that the catalog really has. */
  ghost predicate CatalogDefect(ds: seq<Descriptor>, e: RegistryError)
  {
    || (exists d :: d in ds && DescriptorDefect(d, e))
    || (e.DuplicateSystem? && exists i, j :: 0 <= i < j < |ds| && ds[i].id == e.id == ds[j].id)
    || TopologyDefect(CatalogOf(ds), e)
  }

  /** One more descriptor can be filed if it is well formed and its id is new. */
  lemma FileOneMore(ds: seq<Descriptor>, i: nat)
    requires i < |ds| && Filable(ds, i)
    requires WellFormed(ds[i]) && ds[i].id !in CatalogOf(ds[..i])
    ensures Filable(ds, i + 1)
  {
    hide WellFormed, CatalogOf;
    FiledIds(ds, i, ds[i].id);
  }

  lemma IllFormed(ds: seq<Descriptor>, i: nat, e: RegistryError)
    requires i < |ds| && !WellFormed(ds[i]) && DescriptorDefect(ds[i], e)
    ensures !Filable(ds, |ds|) && CatalogDefect(ds, e)
  {
    hide WellFormed, DescriptorDefect, TopologyDefect;
    assert ds[i] in ds;
  }

  lemma FiledTwice(ds: seq<Descriptor>, i: nat)
    requires i < |ds| && ds[i].id in CatalogOf(ds[..i])
    ensures !Filable(ds, |ds|) && CatalogDefect(ds, DuplicateSystem(ds[i].id))
  {
    hide WellFormed, DescriptorDefect, TopologyDefect, CatalogOf;
    FiledIds(ds, i, ds[i].id);
  }

  // ---------------------------------------------------------------- registrations

  function DescriptorsOf(rs: seq<Registration>): seq<Descriptor>
  {
    seq(|rs|, i requires 0 <= i < |rs| => rs[i].descriptor)
  }

  ghost function ContractsOf(rs: seq<Registration>): (k: Contracts)
    ensures forall id :: id in k <==> exists i :: 0 <= i < |rs| && rs[i].descriptor.id == id
  {
    if rs == [] then map[]
    else
      var last := rs[|rs| - 1];
      ContractsOf(rs[..|rs| - 1])[last.descriptor.id := last.contract]
  }

  ghost predicate RegistrationsAcceptable(rs: seq<Registration>)
  {
    && CatalogAcceptable(DescriptorsOf(rs))
    && (forall i :: 0 <= i < |rs| ==> !Text.Blank(rs[i].implementation))
    && ContractsAdmissible(CatalogOf(DescriptorsOf(rs)), ContractsOf(rs))
  }

  ghost predicate Unprovided(contracts: Contracts, capability: string)
  {
    forall p :: !Provides(contracts, p, capability)
  }

  /** An error of the contract checks names a defect of that contract. */
  ghost predicate ContractDefect(c: Catalog, contracts: Contracts, id: string, e: RegistryError)
    requires id in contracts
  {
    match e
    case InvalidSystemId(reason) =>
      || (id !in c && reason == "contract has no descriptor: " + id)
      || (&& id in c && reason == "contract metadata mismatch for " + id
          && (contracts[id].systemId != id || contracts[id].required != c[id].dependencies))
      || (exists x ::
            && x in contracts[id].provided + contracts[id].consumed && !WellNamed(x)
            && reason == "invalid capability " + x)
      || (exists x ::
            && x in contracts[id].consumed && Unprovided(contracts, x)
            && reason == id + " consumes unprovided capability " + x)
    case CapabilityProviderOutOfScope(system, x) =>
      && system == id && x in contracts[id].consumed
      && !Unprovided(contracts, x) && !InScope(c, contracts, id, x)
    case _ => false
  }

  ghost predicate RegistrationDefect(
    c: Catalog, contracts: Contracts, implementations: map<string, string>, e: RegistryError)
  {
    || (exists id :: id in contracts && ContractDefect(c, contracts, id, e))
    || (exists id :: id in c && id !in implementations && e == InvalidSystemId(Unbound(id)))
  }

  lemma ContractsGrow(rs: seq<Registration>, i: nat)
    requires i < |rs|
    ensures ContractsOf(rs[..i + 1]) == ContractsOf(rs[..i])[rs[i].descriptor.id := rs[i].contract]
  {
    assert rs[..i + 1][..i] == rs[..i];
  }

  lemma BlankBinding(rs: seq<Registration>, i: nat)
    requires i < |rs| && Text.Blank(rs[i].implementation)
    ensures BindingDefect(rs, InvalidSystemId(Unbound(rs[i].descriptor.id)))
  {
  }

  ghost predicate BindingDefect(rs: seq<Registration>, e: RegistryError)
  {
    exists i :: 0 <= i < |rs| && Text.Blank(rs[i].implementation) && e == InvalidSystemId(Unbound(rs[i].descriptor.id))
  }

  function Unbound(id: string): string { id + " has no implementation binding" }

  ghost predicate Listens(rs: seq<Registration>, signal: string, id: string)
  {
    exists i :: 0 <= i < |rs| && rs[i].descriptor.id == id && signal in rs[i].healthSignals
  }

  ghost predicate Subscribed(signals: Signals, signal: string, id: string)
  {
    signal in signals && id in signals[signal]
  }

  ghost predicate SignalsCollected(signals: Signals, rs: seq<Registration>)
  {
    forall s, id :: Listens(rs, s, id) <==> Subscribed(signals, s, id)
  }

  /** The first registrations have an implementation and are bound, with their contracts and signals. */
  ghost predicate Bound(
    rs: seq<Registration>, n: nat, contracts: Contracts, implementations: map<string, string>, signals: Signals)
    requires n <= |rs|
  {
    && contracts == ContractsOf(rs[..n]) && SignalsCollected(signals, rs[..n])
    && (forall k :: 0 <= k < n ==> !Text.Blank(rs[k].implementation))
    && forall k :: 0 <= k < n ==> rs[k].descriptor.id in implementations
  }

  lemma NothingBound(rs: seq<Registration>, implementations: map<string, string>)
    ensures Bound(rs, 0, map[], implementations, map[])
  {
    assert rs[..0] == [];
  }

  lemma BoundSoFar(
    rs: seq<Registration>, n: nat, contracts: Contracts, implementations: map<string, string>, signals: Signals)
    requires n <= |rs| && Bound(rs, n, contracts, implementations, signals)
    ensures contracts == ContractsOf(rs[..n]) && SignalsCollected(signals, rs[..n])
    ensures forall k :: 0 <= k < n ==> !Text.Blank(rs[k].implementation)
    ensures forall k :: 0 <= k < n ==> rs[k].descriptor.id in implementations
  {
  }

  lemma BindOneMore(
    rs: seq<Registration>, n: nat, contracts: Contracts, implementations: map<string, string>, signals: Signals,
    grown: Signals)
    requires n < |rs| && Bound(rs, n, contracts, implementations, signals)
    requires !Text.Blank(rs[n].implementation) && SignalsCollected(grown, rs[..n] + [rs[n]])
    ensures var id := rs[n].descriptor.id;
      Bound(rs, n + 1, contracts[id := rs[n].contract], implementations[id := rs[n].implementation], grown)
  {
    hide ContractsOf, SignalsCollected, Text.Blank;
    ContractsGrow(rs, n);
    assert rs[..n + 1] == rs[..n] + [rs[n]];
  }

  lemma OneMoreListener(rs: seq<Registration>, last: Registration, signal: string, id: string)
    ensures Listens(rs + [last], signal, id)
        <==> Listens(rs, signal, id) || (id == last.descriptor.id && signal in last.healthSignals)
  {
    var all := rs + [last];
    assert all[|rs|] == last;
    assert forall i :: 0 <= i < |rs| ==> all[i] == rs[i];
  }

  /** The blockers of all providers, each under the provider's name. */
  ghost function ProviderBlockers(c: Catalog, h: HealthTable, now: U64, providers: seq<string>): seq<string>
  {
    if providers == [] then []
    else
      var last := providers[|providers| - 1];
      ProviderBlockers(c, h, now, providers[..|providers| - 1]) + Prefixed(last, Blockers(c, h, now, last, {}))
  }

  /** Each signal lists, without repetition and in id order, the systems registered for it. */
  ghost predicate SignalsMatch(signals: Signals, rs: seq<Registration>)
  {
    && SignalsCollected(signals, rs)
    && forall s :: s in signals ==> Text.Ascending(signals[s])
  }

  /**
   In a registry built from acceptable registrations, after any run of health updates, a ready
   system finds every capability it consumes ready.
   */
  lemma AcceptedRegistriesHonourCapabilities(
    rs: seq<Registration>, signals: Signals, us: seq<Update>, i: nat, capability: string, now: U64)
    requires RegistrationsAcceptable(rs) && i < |rs| && capability in rs[i].contract.consumed
    requires var c := CatalogOf(DescriptorsOf(rs));
      IsReady(c, RunHealth(c, signals, map[], us), rs[i].descriptor.id, now)
    ensures var c := CatalogOf(DescriptorsOf(rs));
      CapabilityReady(c, ContractsOf(rs), RunHealth(c, signals, map[], us), capability, now)
  {
    IdsAreDistinct(rs, i);
    ContractIsFiled(rs, |rs|, i);
    assert rs[..|rs|] == rs;
    var c := CatalogOf(DescriptorsOf(rs));
    CapabilitiesFollowReadiness(
      c, ContractsOf(rs), signals, map[], us, rs[i].descriptor.id, capability, now);
  }

  lemma IdsAreDistinct(rs: seq<Registration>, i: nat)
    requires i < |rs| && DistinctIds(DescriptorsOf(rs), |rs|)
    ensures forall k :: i < k < |rs| ==> rs[k].descriptor.id != rs[i].descriptor.id
  {
    var ds := DescriptorsOf(rs);
    assert forall k :: 0 <= k < |rs| ==> ds[k].id == rs[k].descriptor.id;
    hide DescriptorsOf;
  }

  /** A contract that no later registration overwrites stays filed. */
  lemma {:induction false} ContractIsFiled(rs: seq<Registration>, n: nat, i: nat)
    requires i < n <= |rs| && forall k :: i < k < n ==> rs[k].descriptor.id != rs[i].descriptor.id
    ensures var id := rs[i].descriptor.id;
      id in ContractsOf(rs[..n]) && ContractsOf(rs[..n])[id] == rs[i].contract
    decreases n
  {
    hide ContractsOf;
    ContractsGrow(rs, n - 1);
    if i < n - 1 {
      ContractIsFiled(rs, n - 1, i);
    }
  }

  lemma AllBound(rs: seq<Registration>, implementations: map<string, string>)
    requires forall k :: 0 <= k < |rs| ==> rs[k].descriptor.id in implementations
    ensures CatalogOf(DescriptorsOf(rs)).Keys <= implementations.Keys
  {
    var ds := DescriptorsOf(rs);
    assert forall k :: 0 <= k < |rs| ==> ds[k].id == rs[k].descriptor.id;
    hide CatalogOf, DescriptorsOf;
  }

  /** An error of the construction names a defect of the catalog, a binding or a contract. */
  ghost predicate ConstructionDefect(rs: seq<Registration>, e: RegistryError)
  {
    var c, contracts := CatalogOf(DescriptorsOf(rs)), ContractsOf(rs);
    || CatalogDefect(DescriptorsOf(rs), e)
    || BindingDefect(rs, e)
    || exists id :: id in contracts && ContractDefect(c, contracts, id, e)
  }

  lemma ContractDefectOf(rs: seq<Registration>, implementations: map<string, string>, e: RegistryError)
    requires RegistrationDefect(CatalogOf(DescriptorsOf(rs)), ContractsOf(rs), implementations, e)
    requires CatalogOf(DescriptorsOf(rs)).Keys <= implementations.Keys
    ensures ConstructionDefect(rs, e)
  {
    hide CatalogOf, DescriptorsOf, ContractsOf, ContractDefect, CatalogDefect, BindingDefect;
  }

  // ---------------------------------------------------------------- the search for a closure

  /** What has been found is reachable, and dependencies of what is finished are finished or pending. */
  ghost predicate Exploring(c: Catalog, id: string, ids: set<string>, pending: seq<string>)
  {
    && ids <= c.Keys
    && (forall x :: x in ids || x in pending ==> Reaches(c, id, x))
    && (id in ids || id in pending)
    && forall a, b :: a in ids && Edge(c, a, b) ==> b in ids || b in pending
  }

  lemma ExploreOneMore(c: Catalog, id: string, ids: set<string>, pending: seq<string>)
    requires KeyedById(c) && Exploring(c, id, ids, pending)
    requires pending != [] && pending[|pending| - 1] in c
    ensures var rest, candidate := pending[..|pending| - 1], pending[|pending| - 1];
      && c[candidate].id == candidate
      && if candidate in ids then Exploring(c, id, ids, rest)
         else Exploring(c, id, ids + {candidate}, rest + c[candidate].dependencies)
  {
    hide Reaches;
    var rest, candidate := pending[..|pending| - 1], pending[|pending| - 1];
    assert pending == rest + [candidate];
    forall b | b in c[candidate].dependencies ensures Reaches(c, id, b) {
      assert Edge(c, candidate, b);
      ReachesSelf(c, b);
      ReachesAfterEdge(c, candidate, b, b);
      ReachesIsTransitive(c, id, candidate, b);
    }
  }

  class SystemRegistry {
    var descriptors: Catalog
    var health: HealthTable
    var contracts: Contracts
    var implementations: map<string, string>
    var healthSignalSystems: Signals

    ghost predicate Valid()
      reads this
    {
      && KeyedById(descriptors)
      && ValidTopology(descriptors)
      && FiledById(health)
      && health.Keys <= descriptors.Keys
    }

    constructor Empty()
      ensures descriptors == map[] && health == map[] && contracts == map[]
      ensures implementations == map[] && healthSignalSystems == map[]
    {
      descriptors, health, contracts := map[], map[], map[];
      implementations, healthSignalSystems := map[], map[];
    }

    // -------------------------------------------------------------- topology

    /** Depth-first search for a cycle; `visiting` is the current path, `visited` the finished part. */
    method Visit(id: string, visiting: set<string>, visited: set<string>)
      returns (r: Outcome<RegistryError>, visiting': set<string>, visited': set<string>)
      requires DependenciesRegistered(descriptors) && id in descriptors
      requires visiting <= descriptors.Keys && visited <= descriptors.Keys && visiting !! visited
      requires Settled(descriptors, visited)
      requires forall v :: v in visiting ==> Leads(descriptors, v, id)
      ensures r.Fail? ==> r.error.DependencyCycle? && exists a :: OnCycle(descriptors, a)
      ensures r.Pass? ==> visiting' == visiting && visiting !! visited'
      ensures r.Pass? ==> visited + {id} <= visited' <= descriptors.Keys && Settled(descriptors, visited')
      decreases |descriptors.Keys - visiting|
    {
      hide Settled, Leads, Reaches;
      visiting', visited' := visiting, visited;
      if id in visited {
        return Pass, visiting, visited;
      }
      if id in visiting {
        assert OnCycle(descriptors, id);
        return Fail(DependencyCycle), visiting, visited;
      }
      visiting' := visiting + {id};
      ShrinksByOne(descriptors.Keys - visiting, descriptors.Keys - visiting', id);
      var dependencies := descriptors[id].dependencies;
      for i := 0 to |dependencies|
        invariant visiting' == visiting + {id} && visiting' !! visited'
        invariant visited <= visited' <= descriptors.Keys && Settled(descriptors, visited')
        invariant forall j :: 0 <= j < i ==> dependencies[j] in visited'
      {
        var d := dependencies[i];
        assert Edge(descriptors, id, d);
        EdgeLeads(descriptors, id, d);
        forall v | v in visiting' ensures Leads(descriptors, v, d) {
          if v != id { LeadsThenEdge(descriptors, v, id, d); }
        }
        r, visiting', visited' := Visit(d, visiting', visited');
        if r.Fail? {
          return;
        }
      }
      SettleOne(descriptors, visited', id);
      visiting' := visiting' - {id};
      visited' := visited' + {id};
      r := Pass;
    }

    method ValidateTopology() returns (r: Outcome<RegistryError>)
      requires KeyedById(descriptors)
      ensures r.Pass? <==> ValidTopology(descriptors)
      ensures r.Fail? ==> TopologyDefect(descriptors, r.error)
    {
      r := ValidateEdges();
      if r.Fail? {
        return;
      }
      hide Text.Before, Text.SortedKeys, Text.Ascending, Settled, OnCycle, LayersRespected;
      var keys := Text.SortedKeys(descriptors.Keys);
      var visiting, visited := {}, {};
      NothingIsSettled(descriptors);
      for i := 0 to |keys|
        invariant visiting == {} && visited <= descriptors.Keys && Settled(descriptors, visited)
        invariant forall k :: 0 <= k < i ==> keys[k] in visited
      {
        assert keys[i] in keys;
        r, visiting, visited := Visit(keys[i], visiting, visited);
        if r.Fail? {
          return;
        }
      }
      assert visited == descriptors.Keys by {
        forall id | id in descriptors ensures id in visited { assert id in keys; }
      }
      AllSettledIsAcyclic(descriptors);
      r := Pass;
    }

    /** The first pass: every dependency is registered and on no higher layer. */
    method ValidateEdges() returns (r: Outcome<RegistryError>)
      requires KeyedById(descriptors)
      ensures r.Pass? <==> DependenciesRegistered(descriptors) && LayersRespected(descriptors)
      ensures r.Fail? ==> TopologyDefect(descriptors, r.error)
    {
      hide Text.Before, Text.SortedKeys, Text.Ascending;
      var keys := Text.SortedKeys(descriptors.Keys);
      for i := 0 to |keys|
        invariant forall k, b :: 0 <= k < i && Edge(descriptors, keys[k], b) ==>
          b in descriptors && descriptors[b].layer.Rank() <= descriptors[keys[k]].layer.Rank()
      {
        assert keys[i] in keys;
        var d := descriptors[keys[i]];
        for j := 0 to |d.dependencies|
          invariant forall k :: 0 <= k < j ==>
            && d.dependencies[k] in descriptors
            && descriptors[d.dependencies[k]].layer.Rank() <= d.layer.Rank()
        {
          var dependency := d.dependencies[j];
          assert Edge(descriptors, keys[i], dependency);
          if dependency !in descriptors {
            return Fail(MissingDependency(d.id, dependency));
          }
          if descriptors[dependency].layer.Rank() > d.layer.Rank() {
            return Fail(LayerViolation(d.id, dependency, d.layer, descriptors[dependency].layer));
          }
        }
      }
      forall a, b | Edge(descriptors, a, b)
        ensures b in descriptors && descriptors[b].layer.Rank() <= descriptors[a].layer.Rank()
      {
        assert a in keys;
      }
      r := Pass;
    }

    /** Worklist search for everything `id` depends on, itself included. */
    method DependencyClosure(id: string) returns (r: Result<set<string>, RegistryError>)
      requires KeyedById(descriptors)
      ensures r.Ok? <==> forall x :: Reaches(descriptors, id, x) ==> x in descriptors
      ensures r.Ok? ==> forall x :: x in r.value <==> Reaches(descriptors, id, x)
      ensures r.Err? ==>
        && r.error.MissingDependency? && r.error.system == id
        && Reaches(descriptors, id, r.error.dependency) && r.error.dependency !in descriptors
    {
      var ids: set<string> := {};
      var pending := [id];
      ReachesSelf(descriptors, id);
      while pending != []
        invariant Exploring(descriptors, id, ids, pending)
        decreases |descriptors.Keys - ids|, |pending|
      {
        var candidate := pending[|pending| - 1];
        assert candidate in pending;
        if candidate !in descriptors {
          return Err(MissingDependency(id, candidate));
        }
        hide Exploring, KeyedById, Reaches;
        ExploreOneMore(descriptors, id, ids, pending);
        pending := pending[..|pending| - 1];
        var d := descriptors[candidate];
        if d.id !in ids {
          ShrinksByOne(descriptors.Keys - ids, descriptors.Keys - (ids + {d.id}), d.id);
          ids := ids + {d.id};
          pending := pending + d.dependencies;
        }
      }
      ClosedSetHoldsReachable(descriptors, ids, id);
      r := Ok(ids);
    }

    // -------------------------------------------------------------- readiness

    method ReadinessVisit(id: string, nowMs: U64, visiting: set<string>)
      returns (report: ReadinessReport, visiting': set<string>)
      ensures visiting' == visiting
      ensures report.blockers == Blockers(descriptors, health, nowMs, id, visiting)
      ensures report.ready <==> report.blockers == []
      ensures report.systemId == id && report.checkedAtMs == nowMs
      decreases |descriptors.Keys - visiting|
    {
      hide OwnBlockers, Prefixed;
      visiting' := visiting;
      if id in visiting {
        return Blocked(id, nowMs, CYCLE), visiting';
      }
      if id !in descriptors {
        return Blocked(id, nowMs, UNREGISTERED), visiting';
      }
      visiting' := visiting + {id};
      ShrinksByOne(descriptors.Keys - visiting, descriptors.Keys - visiting', id);
      var d := descriptors[id];
      var blockers := OwnBlockers(d, health, nowMs, id);
      for i := 0 to |d.dependencies|
        invariant visiting' == visiting + {id}
        invariant blockers + DependencyBlockers(descriptors, health, nowMs, d.dependencies[i..], visiting')
               == Blockers(descriptors, health, nowMs, id, visiting)
      {
        var dependency := d.dependencies[i];
        var inner;
        inner, visiting' := ReadinessVisit(dependency, nowMs, visiting');
        assert d.dependencies[i..] == [dependency] + d.dependencies[i + 1..];
        if !inner.ready {
          blockers := blockers + Prefixed(dependency, inner.blockers);
        } else {
          assert Prefixed(dependency, inner.blockers) == [];
        }
      }
      visiting' := visiting' - {id};
      report := ReadinessReport(id, nowMs, blockers == [], blockers, [], None);
    }

    static function Blocked(id: string, nowMs: U64, reason: string): ReadinessReport
    {
      ReadinessReport(id, nowMs, false, [reason], [], None)
    }

    method ReadinessAt(id: string, nowMs: U64) returns (report: ReadinessReport)
      requires Valid()
      ensures report.ready <==> IsReady(descriptors, health, id, nowMs)
      ensures report.ready <==> forall x :: Reaches(descriptors, id, x) ==> Healthy(descriptors, health, x, nowMs)
      ensures report.blockers == Blockers(descriptors, health, nowMs, id, {})
    {
      var visiting;
      report, visiting := ReadinessVisit(id, nowMs, {});
      ReadyMeansClosureHealthy(descriptors, health, id, nowMs);
    }

    /** The providers are failover alternatives: the first ready one in id order is selected. */
    method ReadinessForCapability(capability: string, nowMs: U64) returns (report: ReadinessReport)
      requires Valid()
      ensures report.ready <==> CapabilityReady(descriptors, contracts, health, capability, nowMs)
      ensures report.ready <==> report.selectedProvider.Some?
      ensures report.ready ==> var p := report.selectedProvider.value;
        && p in report.candidateProviders && IsReady(descriptors, health, p, nowMs)
        && report.blockers == []
        && forall q :: q in report.candidateProviders && Text.Before(q, p) ==>
          !IsReady(descriptors, health, q, nowMs)
      ensures Text.Ascending(report.candidateProviders)
      ensures forall p :: p in report.candidateProviders <==>
        p in descriptors && Provides(contracts, p, capability)
      ensures report.systemId == "capability:" + capability && report.checkedAtMs == nowMs
      ensures report.candidateProviders == [] ==> report.blockers == ["capability_not_registered"]
      ensures report.candidateProviders != [] && !report.ready ==>
        report.blockers == ProviderBlockers(descriptors, health, nowMs, report.candidateProviders)
    {
      hide Text.Before, Text.SortedKeys, IsReady, Prefixed, ValidTopology;
      var providers := Text.SortedKeys(
        set id | id in descriptors && id in contracts && capability in contracts[id].provided);
      if providers == [] {
        forall p ensures !(p in descriptors && Provides(contracts, p, capability)) {
          assert p !in providers;
        }
        return Blocked("capability:" + capability, nowMs, "capability_not_registered");
      }
      var blockers: seq<string> := [];
      var selected: Option<string> := None;
      for i := 0 to |providers|
        invariant selected.None? ==> forall k :: 0 <= k < i ==> !IsReady(descriptors, health, providers[k], nowMs)
        invariant selected.None? ==> blockers == ProviderBlockers(descriptors, health, nowMs, providers[..i])
        invariant selected.Some? ==> selected.value in providers && IsReady(descriptors, health, selected.value, nowMs)
        invariant selected.Some? ==> forall q :: q in providers && Text.Before(q, selected.value) ==>
          !IsReady(descriptors, health, q, nowMs)
      {
        assert providers[..i + 1][..i] == providers[..i];
        var inner := ReadinessAt(providers[i], nowMs);
        if inner.ready && selected.None? {
          selected := Some(providers[i]);
          forall q | q in providers && Text.Before(q, providers[i])
            ensures !IsReady(descriptors, health, q, nowMs)
          {
            var k :| 0 <= k < |providers| && providers[k] == q;
            Text.BeforeIsTotal(q, providers[i]);
          }
        } else if !inner.ready {
          blockers := blockers + Prefixed(providers[i], inner.blockers);
        }
      }
      assert providers[..|providers|] == providers;
      if selected.Some? {
        blockers := [];
        assert Provides(contracts, selected.value, capability);
      }
      if CapabilityReady(descriptors, contracts, health, capability, nowMs) {
        var p :| p in descriptors && Provides(contracts, p, capability) && IsReady(descriptors, health, p, nowMs);
        assert p in providers;
      }
      report := ReadinessReport("capability:" + capability, nowMs, selected.Some?, blockers, providers, selected);
    }

    // -------------------------------------------------------------- health updates

    method ReportHealth(snapshot: HealthSnapshot) returns (r: Outcome<RegistryError>)
      requires Valid()
      modifies this`health
      ensures Valid()
      ensures match Report(descriptors, old(health), snapshot)
        case Ok(next) => r == Pass && health == next
        case Err(e) => r == Fail(e) && health == old(health)
      ensures r.Pass? <==> snapshot.systemId in descriptors && (snapshot.systemId in old(health) ==>
        old(health)[snapshot.systemId].observedAtMs <= snapshot.observedAtMs)
      ensures health == if r.Pass? then old(health)[snapshot.systemId := snapshot] else old(health)
      ensures r.Fail? && snapshot.systemId !in descriptors ==>
        r.error == MissingDependency(snapshot.systemId, "registered descriptor")
      ensures r.Fail? && snapshot.systemId in descriptors ==>
        r.error == HealthTimestampRegression(
          snapshot.systemId, old(health)[snapshot.systemId].observedAtMs, snapshot.observedAtMs)
      ensures forall id :: id in old(health) ==>
        id in health && old(health)[id].observedAtMs <= health[id].observedAtMs
    {
      if snapshot.systemId !in descriptors {
        return Fail(MissingDependency(snapshot.systemId, "registered descriptor"));
      }
      if snapshot.systemId in health {
        var previous := health[snapshot.systemId];
        if snapshot.observedAtMs < previous.observedAtMs {
          return Fail(HealthTimestampRegression(
            snapshot.systemId, previous.observedAtMs, snapshot.observedAtMs));
        }
      }
      health := health[snapshot.systemId := snapshot];
      r := Pass;
    }

    method BeatOne(id: string, observedAtMs: U64) returns (r: Outcome<RegistryError>)
      requires Valid()
      modifies this`health
      ensures Valid()
      ensures match Heartbeat(descriptors, old(health), id, observedAtMs)
        case Ok(next) => r == Pass && health == next
        case Err(e) => r == Fail(e) && health == old(health)
      ensures r.Pass? <==>
        id in descriptors && (id in old(health) ==> old(health)[id].observedAtMs <= observedAtMs)
      ensures r.Pass? ==> id in health && Refreshed(old(health), id, health[id], observedAtMs)
      ensures forall x :: x in old(health) && x != id ==> x in health && health[x] == old(health)[x]
      ensures TableContinues(old(health), health)
    {
      HeartbeatContinues(descriptors, health, id, observedAtMs);
      HeartbeatAchieves(descriptors, health, id, observedAtMs);
      if id !in health {
        r := ReportHealth(ReadySnapshot(id, observedAtMs));
      } else {
        r := ReportHealth(AfterHeartbeat(health[id], observedAtMs));
      }
    }

    method HeartbeatSignal(signal: string, observedAtMs: U64)
      returns (r: Result<seq<string>, RegistryError>)
      requires Valid()
      modifies this`health
      ensures Valid()
      ensures health == ApplyHealth(descriptors, healthSignalSystems, old(health), Signal(signal, observedAtMs))
      ensures var systems := if signal in healthSignalSystems then healthSignalSystems[signal] else [];
        match HeartbeatAll(descriptors, old(health), systems, observedAtMs).1
        case Pass => r == Ok(systems)
        case Fail(e) => r == Err(e)
      ensures var systems := if signal in healthSignalSystems then healthSignalSystems[signal] else [];
        && (r.Ok? <==> forall id :: id in systems ==>
              id in descriptors && (id in old(health) ==> old(health)[id].observedAtMs <= observedAtMs))
        && (r.Ok? ==> forall id :: id in systems ==>
              id in health && Refreshed(old(health), id, health[id], observedAtMs))
      ensures TableContinues(old(health), health)
    {
      hide TableContinues, Heartbeat, ValidTopology, Refreshed;
      HeartbeatAllContinues(
        descriptors, health, if signal in healthSignalSystems then healthSignalSystems[signal] else [], observedAtMs);
      HeartbeatAllAchieves(
        descriptors, health, if signal in healthSignalSystems then healthSignalSystems[signal] else [], observedAtMs);
      var systems := if signal in healthSignalSystems then healthSignalSystems[signal] else [];
      for i := 0 to |systems|
        invariant Valid()
        invariant HeartbeatAll(descriptors, health, systems[i..], observedAtMs)
               == HeartbeatAll(descriptors, old(health), systems, observedAtMs)
      {
        assert systems[i..][1..] == systems[i + 1..];
        var outcome := BeatOne(systems[i], observedAtMs);
        if outcome.Fail? {
          return Err(outcome.error);
        }
      }
      assert systems[|systems|..] == [];
      r := Ok(systems);
    }

    method MarkStaleAt(nowMs: U64) returns (changed: seq<string>)
      requires Valid()
      modifies this`health
      ensures Valid()
      ensures health == MarkStale(descriptors, old(health), nowMs)
      ensures Text.Ascending(changed)
      ensures forall id :: id in changed <==> id in old(health) && old(health)[id] != health[id]
    {
      hide Text.Before, Text.SortedKeys, ValidTopology;
      var keys := Text.SortedKeys(descriptors.Keys);
      ghost var before, after := health, MarkStale(descriptors, health, nowMs);
      changed := [];
      for i := 0 to |keys|
        invariant Valid() && PartlyMarked(health, before, after, keys[..i])
        invariant Text.Ascending(changed)
        invariant Changed(changed, before, after, keys[..i])
      {
        assert keys[i] in keys;
        Text.AscendingPosition(keys, i);
        MarkNext(health, before, after, keys[..i], keys[i], changed);
        var flipped := MarkSystem(keys[i], nowMs);
        if flipped {
          Text.AscendingAppend(changed, keys[i]);
          changed := changed + [keys[i]];
        }
      }
      assert keys[..|keys|] == keys;
      assert health == after;
    }

    /** One round of the expiry loop; says whether the stale flag flipped. */
    method MarkSystem(id: string, nowMs: U64) returns (flipped: bool)
      requires Valid() && id in descriptors
      modifies this`health
      ensures Valid()
      ensures id !in old(health) ==> health == old(health) && !flipped
      ensures id in old(health) ==>
        && health == old(health)[id := MarkOne(old(health)[id], nowMs, descriptors[id].healthIntervalMs)]
        && flipped == (health[id] != old(health)[id])
    {
      flipped := false;
      if id in health {
        var snapshot := health[id];
        var stale := !snapshot.IsFreshAt(nowMs, descriptors[id].healthIntervalMs);
        if stale != snapshot.stale {
          var diagnostics := snapshot.diagnostics;
          if stale {
            diagnostics := diagnostics + [EXPIRED];
          }
          health := health[id := snapshot.(stale := stale, diagnostics := diagnostics)];
          flipped := true;
        } else {
          assert health == health[id := snapshot];
        }
      }
    }

    static lemma MarkNext(
      h: HealthTable, before: HealthTable, after: HealthTable, done: seq<string>, id: string, ids: seq<string>)
      requires before.Keys == after.Keys && id !in done
      requires PartlyMarked(h, before, after, done) && Changed(ids, before, after, done)
      ensures id in h ==> before[id] == h[id] && PartlyMarked(h[id := after[id]], before, after, done + [id])
      ensures id !in h ==> PartlyMarked(h, before, after, done + [id])
      ensures Changed(
        if id in h && before[id] != after[id] then ids + [id] else ids, before, after, done + [id])
      ensures forall x :: x in ids ==> x in done
    {
    }

    /** The reports of the systems in `done` have been replaced by their new version, no others. */
    static ghost predicate PartlyMarked(h: HealthTable, before: HealthTable, after: HealthTable, done: seq<string>)
      requires before.Keys == after.Keys
    {
      h.Keys == before.Keys
      && forall id :: id in h ==> h[id] == if id in done then after[id] else before[id]
    }

    static ghost predicate Changed(ids: seq<string>, before: HealthTable, after: HealthTable, done: seq<string>)
      requires before.Keys == after.Keys
    {
      forall id :: id in ids <==> id in done && id in before && before[id] != after[id]
    }

    method BootstrapHealth(observedAtMs: U64)
      requires Valid()
      modifies this`health
      ensures Valid()
      ensures health == Bootstrap(descriptors, old(health), observedAtMs)
    {
      hide Text.Before, Text.SortedKeys, ValidTopology;
      var keys := Text.SortedKeys(descriptors.Keys);
      for i := 0 to |keys|
        invariant FiledById(health) && health.Keys <= descriptors.Keys
        invariant old(health).Keys <= health.Keys
        invariant forall k :: 0 <= k < i ==> keys[k] in health
        invariant forall id :: id in health ==>
          health[id] == if id in old(health) then old(health)[id] else DiscoveredSnapshot(id, observedAtMs)
      {
        assert keys[i] in keys;
        if keys[i] !in health {
          health := health[keys[i] := DiscoveredSnapshot(keys[i], observedAtMs)];
        }
      }
      forall id | id in descriptors ensures id in health { assert id in keys; }
    }

    // -------------------------------------------------------------- policy replacement

    method ReplacePolicy(id: string, replacement: Descriptor) returns (r: Outcome<RegistryError>)
      requires Valid()
      modifies this`descriptors
      ensures Valid()
      ensures r.Pass? <==> Replaceable(old(descriptors), id, replacement)
      ensures descriptors == Replace(old(descriptors), id, replacement)
      ensures r.Fail? ==> ReplacementDefect(old(descriptors), id, replacement, r.error)
    {
      if id !in descriptors {
        return Fail(MissingDependency(id, "existing descriptor"));
      }
      var current := descriptors[id];
      if current.mutability.ImmutableCore? {
        return Fail(ImmutableReplacement(id));
      }
      if replacement.id != id {
        return Fail(DuplicateSystem(replacement.id));
      }
      if || replacement.layer != current.layer
         || replacement.role != current.role
         || replacement.authority != current.authority
         || replacement.mutability != current.mutability
         || replacement.restartable != current.restartable
         || replacement.healthIntervalMs != current.healthIntervalMs
      {
        return Fail(ImmutableReplacement(id));
      }
      descriptors := descriptors[replacement.id := replacement];
      r := ValidateTopology();
      if r.Fail? {
        descriptors := descriptors[current.id := current];
        assert descriptors == old(descriptors);
      }
    }

    // -------------------------------------------------------------- construction

    static method FromCatalog(ds: seq<Descriptor>) returns (r: Result<SystemRegistry, RegistryError>)
      ensures r.Ok? <==> CatalogAcceptable(ds)
      ensures r.Ok? ==> fresh(r.value) && r.value.Valid() && r.value.descriptors == CatalogOf(ds)
      ensures r.Ok? ==> r.value.health == map[] && r.value.contracts == map[]
      ensures r.Ok? ==> r.value.implementations == map[] && r.value.healthSignalSystems == map[]
      ensures r.Err? ==> CatalogDefect(ds, r.error)
    {
      hide ValidTopology, Filable, CatalogDefect, TopologyDefect, CatalogOf;
      var registry := new SystemRegistry.Empty();
      var outcome := registry.FileDescriptors(ds);
      if outcome.Fail? {
        return Err(outcome.error);
      }
      outcome := registry.ValidateTopology();
      if outcome.Fail? {
        TopologyDefectOf(ds, outcome.error);
        return Err(outcome.error);
      }
      r := Ok(registry);
    }

    static lemma TopologyDefectOf(ds: seq<Descriptor>, e: RegistryError)
      requires TopologyDefect(CatalogOf(ds), e)
      ensures CatalogDefect(ds, e)
    {
      hide TopologyDefect, DescriptorDefect;
    }

    /** Checks the descriptors one by one and files each under its id. */
    method FileDescriptors(ds: seq<Descriptor>) returns (r: Outcome<RegistryError>)
      requires descriptors == map[]
      modifies this`descriptors
      ensures r.Pass? <==> Filable(ds, |ds|)
      ensures r.Pass? ==> descriptors == CatalogOf(ds)
      ensures r.Fail? ==> CatalogDefect(ds, r.error)
    {
      for i := 0 to |ds|
        invariant descriptors == CatalogOf(ds[..i]) && Filable(ds, i)
      {
        hide WellFormed, DescriptorDefect, CatalogDefect, Filable, CatalogOf;
        var d := ds[i];
        var outcome := ValidateDescriptor(d);
        if outcome.Fail? {
          IllFormed(ds, i, outcome.error);
          return outcome;
        }
        if d.id in descriptors {
          FiledTwice(ds, i);
          return Fail(DuplicateSystem(d.id));
        }
        FileOneMore(ds, i);
        CatalogGrows(ds, i);
        descriptors := descriptors[d.id := d];
      }
      assert ds[..|ds|] == ds;
      r := Pass;
    }

    /** The collected registrations are the parameter; their catalog is built first, then bound. */
    static method FromRegistered(rs: seq<Registration>) returns (r: Result<SystemRegistry, RegistryError>)
      ensures r.Ok? <==> RegistrationsAcceptable(rs)
      ensures r.Ok? ==> fresh(r.value) && r.value.Valid() && r.value.health == map[]
      ensures r.Ok? ==> r.value.descriptors == CatalogOf(DescriptorsOf(rs))
      ensures r.Ok? ==> r.value.contracts == ContractsOf(rs)
      ensures r.Ok? ==> SignalsMatch(r.value.healthSignalSystems, rs)
      ensures r.Err? ==> ConstructionDefect(rs, r.error)
    {
      hide ContractDefect, BindingDefect, CatalogDefect, RegistrationDefect;
      hide SignalsMatch, SignalsCollected, CatalogAcceptable, ContractsAdmissible;
      hide ValidTopology, DescriptorsOf, CatalogOf, ContractsOf;
      r := FromCatalog(DescriptorsOf(rs));
      if r.Err? {
        return;
      }
      var registry := r.value;
      var outcome := registry.Bind(rs);
      if outcome.Fail? {
        return Err(outcome.error);
      }
      registry.SortSignals(rs);
      AllBound(rs, registry.implementations);
      outcome := registry.ValidateRegistrationContracts();
      if outcome.Fail? {
        ContractDefectOf(rs, registry.implementations, outcome.error);
        return Err(outcome.error);
      }
      r := Ok(registry);
    }

    /** Puts the systems of every signal in order and drops repetitions. */
    method SortSignals(ghost rs: seq<Registration>)
      requires SignalsCollected(healthSignalSystems, rs)
      modifies this`healthSignalSystems
      ensures SignalsMatch(healthSignalSystems, rs)
    {
      var collected := healthSignalSystems;
      healthSignalSystems := map s | s in collected :: Text.SortedKeys(set id | id in collected[s]);
    }

    /** Binds contracts, implementations and health signals of the registrations in order. */
    method Bind(rs: seq<Registration>) returns (r: Outcome<RegistryError>)
      requires contracts == map[] && healthSignalSystems == map[]
      modifies this`contracts, this`implementations, this`healthSignalSystems
      ensures r.Pass? <==> forall k :: 0 <= k < |rs| ==> !Text.Blank(rs[k].implementation)
      ensures r.Pass? ==> contracts == ContractsOf(rs) && SignalsCollected(healthSignalSystems, rs)
      ensures r.Pass? ==> forall k :: 0 <= k < |rs| ==> rs[k].descriptor.id in implementations
      ensures r.Fail? ==> BindingDefect(rs, r.error)
    {
      hide Bound, SignalsCollected, ContractsOf, BindingDefect, Text.Blank;
      NothingBound(rs, implementations);
      for i := 0 to |rs|
        invariant Bound(rs, i, contracts, implementations, healthSignalSystems)
      {
        var registration := rs[i];
        var id := registration.descriptor.id;
        if Text.Blank(registration.implementation) {
          BlankBinding(rs, i);
          return Fail(InvalidSystemId(Unbound(id)));
        }
        BoundSoFar(rs, i, contracts, implementations, healthSignalSystems);
        ghost var k, m, s := contracts, implementations, healthSignalSystems;
        contracts := contracts[id := registration.contract];
        implementations := implementations[id := registration.implementation];
        Subscribe(rs[..i], registration);
        BindOneMore(rs, i, k, m, s, healthSignalSystems);
      }
      BoundSoFar(rs, |rs|, contracts, implementations, healthSignalSystems);
      assert rs[..|rs|] == rs;
      r := Pass;
    }

    /** Files one registration under each signal it listens to. */
    method Subscribe(ghost earlier: seq<Registration>, registration: Registration)
      requires SignalsCollected(healthSignalSystems, earlier)
      modifies this`healthSignalSystems
      ensures SignalsCollected(healthSignalSystems, earlier + [registration])
    {
      var names, id := registration.healthSignals, registration.descriptor.id;
      for j := 0 to |names|
        invariant forall s, x ::
          Subscribed(healthSignalSystems, s, x) <==> Listens(earlier, s, x) || (x == id && s in names[..j])
      {
        var entry := if names[j] in healthSignalSystems then healthSignalSystems[names[j]] else [];
        assert names[..j + 1] == names[..j] + [names[j]];
        ghost var before := healthSignalSystems;
        healthSignalSystems := healthSignalSystems[names[j] := entry + [id]];
        forall s, x ensures Subscribed(healthSignalSystems, s, x)
          <==> Subscribed(before, s, x) || (s == names[j] && x == id)
        {
        }
      }
      assert names[..|names|] == names;
      forall s, x ensures Listens(earlier + [registration], s, x) <==> Subscribed(healthSignalSystems, s, x) {
        OneMoreListener(earlier, registration, s, x);
      }
    }

    /** The checks on one descriptor. */
    static method ValidateDescriptor(d: Descriptor) returns (r: Outcome<RegistryError>)
      ensures r.Pass? <==> WellFormed(d)
      ensures r.Fail? ==> DescriptorDefect(d, r.error)
    {
      if !WellNamed(d.id) {
        return Fail(InvalidSystemId(d.id));
      }
      if d.healthIntervalMs == 0 {
        return Fail(InvalidHealthInterval(d.id));
      }
      var dependencies: set<string> := {};
      for j := 0 to |d.dependencies|
        invariant forall x :: x in dependencies <==> x in d.dependencies[..j]
        invariant d.id !in d.dependencies[..j]
        invariant forall a, b :: 0 <= a < b < j ==> d.dependencies[a] != d.dependencies[b]
      {
        var dependency := d.dependencies[j];
        assert d.dependencies[..j + 1] == d.dependencies[..j] + [dependency];
        if dependency == d.id {
          return Fail(SelfDependency(d.id));
        }
        if dependency in dependencies {
          return Fail(DuplicateDependency(d.id, dependency));
        }
        dependencies := dependencies + {dependency};
      }
      assert d.dependencies[..|d.dependencies|] == d.dependencies;
      r := Pass;
    }

    method ValidateRegistrationContracts() returns (r: Outcome<RegistryError>)
      requires Valid()
      ensures r.Pass? <==>
        ContractsAdmissible(descriptors, contracts) && descriptors.Keys <= implementations.Keys
      ensures r.Fail? ==> RegistrationDefect(descriptors, contracts, implementations, r.error)
    {
      hide Text.SortedKeys, Text.Before, Text.Ascending, ContractAdmissible, ContractDefect, ValidTopology, Unbound;
      var ids := Text.SortedKeys(contracts.Keys);
      for i := 0 to |ids|
        invariant forall k :: 0 <= k < i ==> ContractAdmissible(descriptors, contracts, ids[k])
      {
        assert ids[i] in ids;
        r := ValidateContract(ids[i]);
        if r.Fail? {
          return;
        }
      }
      forall id | id in contracts ensures ContractAdmissible(descriptors, contracts, id) {
        assert id in ids;
      }
      var systems := Text.SortedKeys(descriptors.Keys);
      for i := 0 to |systems|
        invariant forall k :: 0 <= k < i ==> systems[k] in implementations
      {
        assert systems[i] in systems;
        if systems[i] !in implementations {
          return Fail(InvalidSystemId(Unbound(systems[i])));
        }
      }
      forall id | id in descriptors ensures id in implementations { assert id in systems; }
      r := Pass;
    }

    /** One round of the contract loop. */
    method ValidateContract(id: string) returns (r: Outcome<RegistryError>)
      requires Valid() && id in contracts
      ensures r.Pass? <==> ContractAdmissible(descriptors, contracts, id)
      ensures r.Fail? ==> ContractDefect(descriptors, contracts, id, r.error)
    {
      var contract := contracts[id];
      if id !in descriptors {
        return Fail(InvalidSystemId("contract has no descriptor: " + id));
      }
      if id != contract.systemId || contract.required != descriptors[id].dependencies {
        return Fail(InvalidSystemId("contract metadata mismatch for " + id));
      }
      var capabilities := contract.provided + contract.consumed;
      for i := 0 to |capabilities|
        invariant forall k :: 0 <= k < i ==> WellNamed(capabilities[k])
      {
        if !WellNamed(capabilities[i]) {
          assert capabilities[i] in capabilities;
          return Fail(InvalidSystemId("invalid capability " + capabilities[i]));
        }
      }
      for i := 0 to |contract.consumed|
        invariant forall k :: 0 <= k < i ==> InScope(descriptors, contracts, id, contract.consumed[k])
      {
        var required := contract.consumed[i];
        assert required in contract.consumed;
        if !exists p :: p in contracts && required in contracts[p].provided {
          assert forall p :: !Provides(contracts, p, required);
          return Fail(InvalidSystemId(id + " consumes unprovided capability " + required));
        }
        var reachable := DependencyClosure(id);
        ReachableIsRegistered(descriptors, id);
        assert reachable.Ok?;  // a valid topology leaves no dependency unregistered
        assert !Unprovided(contracts, required) by {
          var p :| p in contracts && required in contracts[p].provided;
          assert Provides(contracts, p, required);
        }
        if !exists p :: p in contracts && p in reachable.value && required in contracts[p].provided {
          forall p | Reaches(descriptors, id, p) ensures !Provides(contracts, p, required) {
            assert p in reachable.value;
          }
          return Fail(CapabilityProviderOutOfScope(id, required));
        }
        var p :| p in contracts && p in reachable.value && required in contracts[p].provided;
        assert Provides(contracts, p, required);
      }
      r := Pass;
    }
  }
}
