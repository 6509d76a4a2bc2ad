/**
 The dependency graph of registered systems: descriptors, walks along dependencies,
 reachability, cycles and layers, with the graph facts the registry's algorithms rest on.
 */
module Topology {
  import opened Machine

  datatype Layer =
    | Control | MarketData | Decision | Execution | Observability | Operations | Simulation | Analytics
  {
    /** Position in the declaration order, which is the derived order of the layers. */
    function Rank(): nat
    {
      match this
      case Control => 0
      case MarketData => 1
      case Decision => 2
      case Execution => 3
      case Observability => 4
      case Operations => 5
      case Simulation => 6
      case Analytics => 7
    }
  }

  datatype Authority = Binance | ExternalReference | Derived | Operator | Internal

  datatype Mutability = ImmutableCore | GovernedPolicy | RuntimeState

  datatype Role =
    | Registry | ExchangeAdapter | ReferenceData | Anchor | Strategy | Portfolio | Risk | Funding
    | ExecutionGateway | Lifecycle | SimulationRole | Replay | Backtest | ObservabilityRole | Audit
    | ControlConsole | Recovery | AnalyticsRole

  datatype Descriptor = Descriptor(
    id: string,
    layer: Layer,
    role: Role,
    authority: Authority,
    mutability: Mutability,
    dependencies: seq<string>,
    healthIntervalMs: U64,
    restartable: bool)

  type Catalog = map<string, Descriptor>

  ghost predicate KeyedById(c: Catalog)
  {
    forall id :: id in c ==> c[id].id == id
  }

  // ---------------------------------------------------------------- walks and reachability

  ghost predicate Edge(c: Catalog, a: string, b: string)
  {
    a in c && b in c[a].dependencies
  }

  ghost predicate IsWalk(c: Catalog, p: seq<string>)
  {
    p != [] && forall i :: 0 <= i < |p| - 1 ==> Edge(c, p[i], p[i + 1])
  }

  ghost predicate Joins(c: Catalog, p: seq<string>, a: string, b: string)
  {
    IsWalk(c, p) && p[0] == a && p[|p| - 1] == b
  }

  /** Some walk of zero or more dependencies leads from a to b. */
  ghost predicate Reaches(c: Catalog, a: string, b: string)
  {
    exists p :: Joins(c, p, a, b)
  }

  /** Some walk of one or more dependencies leads from a to b. */
  ghost predicate Leads(c: Catalog, a: string, b: string)
  {
    exists d :: Edge(c, a, d) && Reaches(c, d, b)
  }

  ghost predicate OnCycle(c: Catalog, a: string)
  {
    Leads(c, a, a)
  }

  ghost predicate Acyclic(c: Catalog)
  {
    forall a :: !OnCycle(c, a)
  }

  ghost predicate DependenciesRegistered(c: Catalog)
  {
    forall a, b :: Edge(c, a, b) ==> b in c
  }

  ghost predicate LayersRespected(c: Catalog)
  {
    forall a, b :: Edge(c, a, b) && b in c ==> c[b].layer.Rank() <= c[a].layer.Rank()
  }

  ghost predicate ValidTopology(c: Catalog)
  {
    DependenciesRegistered(c) && LayersRespected(c) && Acyclic(c)
  }

  lemma ReachesSelf(c: Catalog, a: string)
    ensures Reaches(c, a, a)
  {
    assert Joins(c, [a], a, a);
  }

  lemma ReachesAfterEdge(c: Catalog, a: string, d: string, b: string)
    requires Edge(c, a, d) && Reaches(c, d, b)
    ensures Reaches(c, a, b)
  {
    var p :| Joins(c, p, d, b);
    var q := [a] + p;
    assert forall i :: 0 < i < |q| ==> q[i] == p[i - 1];
    assert Joins(c, q, a, b);
  }

  lemma TailOfWalk(c: Catalog, p: seq<string>, a: string, b: string)
    requires Joins(c, p, a, b) && |p| > 1
    ensures Edge(c, a, p[1]) && Joins(c, p[1..], p[1], b)
  {
    assert Edge(c, p[0], p[1]);
    forall i | 0 <= i < |p[1..]| - 1 ensures Edge(c, p[1..][i], p[1..][i + 1]) {
      assert Edge(c, p[i + 1], p[i + 1 + 1]);
    }
  }

  /** Reaching b means being b, or taking one dependency and reaching b from there. */
  lemma ReachesUnfolds(c: Catalog, a: string, b: string)
    ensures Reaches(c, a, b) <==> a == b || Leads(c, a, b)
  {
    ReachesSelf(c, a);
    if Reaches(c, a, b) && a != b {
      var p :| Joins(c, p, a, b);
      TailOfWalk(c, p, a, b);
    }
    if Leads(c, a, b) {
      var d :| Edge(c, a, d) && Reaches(c, d, b);
      ReachesAfterEdge(c, a, d, b);
    }
  }

  lemma {:induction false} ReachesIsTransitive(c: Catalog, a: string, b: string, d: string)
    requires Reaches(c, a, b) && Reaches(c, b, d)
    ensures Reaches(c, a, d)
  {
    var p :| Joins(c, p, a, b);
    var q :| Joins(c, q, b, d);
    var w := p + q[1..];
    forall i | 0 <= i < |w| - 1 ensures Edge(c, w[i], w[i + 1]) {
      if i >= |p| - 1 {
        assert w[i] == q[i - |p| + 1] && w[i + 1] == q[i - |p| + 2];
      }
    }
    assert Joins(c, w, a, d);
  }

  lemma EdgeLeads(c: Catalog, a: string, d: string)
    requires Edge(c, a, d)
    ensures Leads(c, a, d)
  {
    ReachesSelf(c, d);
  }

  /** A walk can be extended at its far end. */
  lemma LeadsThenEdge(c: Catalog, a: string, b: string, d: string)
    requires Leads(c, a, b) && Edge(c, b, d)
    ensures Leads(c, a, d)
  {
    var x :| Edge(c, a, x) && Reaches(c, x, b);
    ReachesSelf(c, d);
    ReachesAfterEdge(c, b, d, d);
    ReachesIsTransitive(c, x, b, d);
  }

  ghost predicate ClosedUnderEdges(c: Catalog, s: set<string>)
  {
    forall a, b :: a in s && Edge(c, a, b) ==> b in s
  }

  /** No walk leaves a set that is closed under dependencies. */
  lemma {:induction false} WalkStaysInside(c: Catalog, s: set<string>, p: seq<string>, a: string, b: string)
    requires ClosedUnderEdges(c, s) && a in s && Joins(c, p, a, b)
    ensures b in s
    decreases |p|
  {
    if |p| > 1 {
      TailOfWalk(c, p, a, b);
      WalkStaysInside(c, s, p[1..], p[1], b);
    }
  }

  lemma ClosedSetHoldsReachable(c: Catalog, s: set<string>, a: string)
    requires ClosedUnderEdges(c, s) && a in s
    ensures forall b :: Reaches(c, a, b) ==> b in s
  {
    forall b | Reaches(c, a, b) ensures b in s {
      var p :| Joins(c, p, a, b);
      WalkStaysInside(c, s, p, a, b);
    }
  }

  /** In a catalog whose dependencies are all registered, everything reachable is registered. */
  lemma ReachableIsRegistered(c: Catalog, a: string)
    requires DependenciesRegistered(c) && a in c
    ensures forall b :: Reaches(c, a, b) ==> b in c
  {
    ClosedSetHoldsReachable(c, c.Keys, a);
  }

  /** From the innermost layer to the outermost. */
  const LAYERS: seq<Layer> :=
    [Control, MarketData, Decision, Execution, Observability, Operations, Simulation, Analytics]

  lemma LayersNeverRise(c: Catalog, a: string, b: string)
    requires DependenciesRegistered(c) && LayersRespected(c) && a in c && Reaches(c, a, b)
    ensures b in c && exists i, j :: 0 <= i <= j < |LAYERS| && LAYERS[i] == c[b].layer && LAYERS[j] == c[a].layer
  {
    RankIsPosition(c[a].layer);
    var low := set x | x in c && c[x].layer.Rank() <= c[a].layer.Rank();
    assert ClosedUnderEdges(c, low);
    ClosedSetHoldsReachable(c, low, a);
    RankIsPosition(c[b].layer);
    assert c[b].layer.Rank() <= c[a].layer.Rank();
  }

  lemma RankIsPosition(layer: Layer)
    ensures layer.Rank() < |LAYERS| && LAYERS[layer.Rank()] == layer
  {
  }

  // ---------------------------------------------------------------- the state of the cycle walk

  /** A finished part of the depth-first walk: closed under dependencies and free of cycles. */
  ghost predicate Settled(c: Catalog, s: set<string>)
  {
    ClosedUnderEdges(c, s) && forall a :: a in s ==> !OnCycle(c, a)
  }

  lemma NothingIsSettled(c: Catalog)
    ensures Settled(c, {})
  {
  }

  /** Once all dependencies of a node outside the settled part are settled, so is the node. */
  lemma SettleOne(c: Catalog, s: set<string>, id: string)
    requires Settled(c, s) && id !in s
    requires forall d :: Edge(c, id, d) ==> d in s
    ensures Settled(c, s + {id})
  {
    if OnCycle(c, id) {
      var d :| Edge(c, id, d) && Reaches(c, d, id);
      ClosedSetHoldsReachable(c, s, d);
      assert false;
    }
  }

  lemma AllSettledIsAcyclic(c: Catalog)
    requires Settled(c, c.Keys)
    ensures Acyclic(c)
  {
    forall a ensures !OnCycle(c, a) {
      if a !in c {
        assert forall d :: !Edge(c, a, d);
      }
    }
  }
}
