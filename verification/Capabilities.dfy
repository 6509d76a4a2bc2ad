/**
 Contracts of registered systems and the capabilities they provide and consume. The main
 result: in an accepted registry a ready system finds every capability it consumes ready.
 */
module Capabilities {
  import opened Machine
  import opened Topology
  import opened Health
  import opened Readiness
  import Text

  datatype RecoveryPolicy = Halt | RestartThenReconcile | ReconcileThenResume | OperatorOnly

  datatype Contract = Contract(
    systemId: string,
    required: seq<string>,
    provided: seq<string>,
    consumed: seq<string>,
    recovery: RecoveryPolicy)

  type Contracts = map<string, Contract>

  ghost predicate Provides(contracts: Contracts, id: string, capability: string)
  {
    id in contracts && capability in contracts[id].provided
  }

  /** Some registered provider of the capability is ready. */
  ghost predicate CapabilityReady(c: Catalog, contracts: Contracts, h: HealthTable, capability: string, now: U64)
  {
    exists id :: id in c && Provides(contracts, id, capability) && IsReady(c, h, id, now)
  }

  predicate WellNamed(name: string)
  {
    !Text.Blank(name) && !Text.HasWhitespace(name)
  }

  /** A name is well formed exactly if it has characters and none of them is a blank of any kind. */
  lemma WellNamedMeans(name: string)
    ensures WellNamed(name) <==> name != [] && forall i :: 0 <= i < |name| ==> !Text.IsWhitespace(name[i])
  {
    if name != [] && forall i :: 0 <= i < |name| ==> !Text.IsWhitespace(name[i]) {
      assert !Text.IsWhitespace(name[0]);
    }
  }

  /** The provider of a consumed capability lies in the consumer's dependency closure. */
  ghost predicate InScope(c: Catalog, contracts: Contracts, id: string, capability: string)
  {
    exists p :: Reaches(c, id, p) && Provides(contracts, p, capability)
  }

  ghost predicate ContractAdmissible(c: Catalog, contracts: Contracts, id: string)
    requires id in contracts
  {
    var k := contracts[id];
    && id in c && k.systemId == id && k.required == c[id].dependencies
    && (forall x :: x in k.provided + k.consumed ==> WellNamed(x))
    && (forall x :: x in k.consumed ==> InScope(c, contracts, id, x))
  }

  ghost predicate ContractsAdmissible(c: Catalog, contracts: Contracts)
  {
    forall id :: id in contracts ==> ContractAdmissible(c, contracts, id)
  }

  /** A ready system can rely on every capability it consumes, whatever the health table holds. */
  lemma ReadySystemFindsItsCapabilities(
    c: Catalog, contracts: Contracts, h: HealthTable, id: string, capability: string, now: U64)
    requires ValidTopology(c) && ContractsAdmissible(c, contracts)
    requires id in contracts && capability in contracts[id].consumed
    requires IsReady(c, h, id, now)
    ensures CapabilityReady(c, contracts, h, capability, now)
  {
    assert InScope(c, contracts, id, capability);
    var p :| Reaches(c, id, p) && Provides(contracts, p, capability);
    ReadinessIsInherited(c, h, id, p, now);
    ReachableIsRegistered(c, id);
  }

  /** A table in which exactly the systems that one depends on, itself included, are reported healthy. */
  ghost function ClosureTable(c: Catalog, id: string, now: U64): HealthTable
  {
    map x | x in c.Keys && Reaches(c, id, x) :: ReadySnapshot(x, now)
  }

  lemma ClosureIsEnough(c: Catalog, id: string, now: U64)
    requires ValidTopology(c) && id in c && forall x :: x in c ==> c[x].healthIntervalMs > 0
    ensures IsReady(c, ClosureTable(c, id, now), id, now)
  {
    ReachableIsRegistered(c, id);
    ReadyMeansClosureHealthy(c, ClosureTable(c, id, now), id, now);
  }

  /**
   Admission asks for no more than readiness needs: a ready system finds a capability ready in
   every health table and at every time if and only if some provider lies in its closure. It is
   what a policy replacement, which checks the topology alone, can take away.
   */
  lemma ScopeIsExactlyWhatReadinessNeeds(c: Catalog, contracts: Contracts, id: string, capability: string)
    requires ValidTopology(c) && id in c && forall x :: x in c ==> c[x].healthIntervalMs > 0
    ensures InScope(c, contracts, id, capability) <==>
      forall h, now :: IsReady(c, h, id, now) ==> CapabilityReady(c, contracts, h, capability, now)
  {
    if InScope(c, contracts, id, capability) {
      var p :| Reaches(c, id, p) && Provides(contracts, p, capability);
      ReachableIsRegistered(c, id);
      forall h, now | IsReady(c, h, id, now) ensures CapabilityReady(c, contracts, h, capability, now) {
        ReadinessIsInherited(c, h, id, p, now);
      }
    } else {
      var h := ClosureTable(c, id, 0);
      ClosureIsEnough(c, id, 0);
      forall p | p in c && Provides(contracts, p, capability) ensures !IsReady(c, h, p, 0) {
        ReadyMeansClosureHealthy(c, h, p, 0);
        ReachesSelf(c, p);
      }
      assert !CapabilityReady(c, contracts, h, capability, 0);
    }
  }
}
