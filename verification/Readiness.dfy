/**
 Readiness of a system together with everything it depends on: the blockers a recursive
 visit reports, and what an empty list of blockers means.
 */
module Readiness {
  import opened Machine
  import opened Topology
  import opened Health

  const CYCLE := "dependency_cycle"
  const UNREGISTERED := "system_not_registered"
  const MISSING := "health_report_missing"
  const UNTRADABLE := "health_not_tradable"
  const STALE := "health_report_stale"

  ghost predicate Healthy(c: Catalog, h: HealthTable, id: string, now: U64)
  {
    id in c && id in h && h[id].IsTradable() && h[id].IsFreshAt(now, c[id].healthIntervalMs)
  }

  function OwnBlockers(d: Descriptor, h: HealthTable, now: U64, id: string): seq<string>
  {
    if id !in h then [MISSING]
    else if !h[id].IsTradable() then [UNTRADABLE]
    else if !h[id].IsFreshAt(now, d.healthIntervalMs) then [STALE]
    else []
  }

  /** The reasons of a dependency as its dependent reports them. */
  function Prefixed(dependency: string, reasons: seq<string>): (r: seq<string>)
    ensures |r| == |reasons|
  {
    seq(|reasons|, i requires 0 <= i < |reasons| => dependency + ":" + reasons[i])
  }

  /** Everything that keeps `id` from being ready, given the systems already on the path to it. */
  ghost function Blockers(c: Catalog, h: HealthTable, now: U64, id: string, path: set<string>): seq<string>
    decreases |c.Keys - path|, 0
  {
    if id in path then [CYCLE]
    else if id !in c then [UNREGISTERED]
    else
      assert c.Keys - (path + {id}) < c.Keys - path by { assert id in c.Keys - path; }
      ShrinksByOne(c.Keys - path, c.Keys - (path + {id}), id);
      OwnBlockers(c[id], h, now, id) + DependencyBlockers(c, h, now, c[id].dependencies, path + {id})
  }

  ghost function DependencyBlockers(c: Catalog, h: HealthTable, now: U64, ids: seq<string>, path: set<string>): seq<string>
    decreases |c.Keys - path|, |ids|
  {
    if ids == [] then []
    else
      Prefixed(ids[0], Blockers(c, h, now, ids[0], path)) + DependencyBlockers(c, h, now, ids[1..], path)
  }

  lemma ShrinksByOne(s: set<string>, t: set<string>, x: string)
    requires t == s - {x} && x in s
    ensures |t| < |s|
  {
  }

  ghost predicate IsReady(c: Catalog, h: HealthTable, id: string, now: U64)
  {
    Blockers(c, h, now, id, {}) == []
  }

  /** What must hold of every system reachable from the visited one for it to have no blocker. */
  ghost predicate Unblocked(c: Catalog, h: HealthTable, now: U64, path: set<string>, x: string)
  {
    x !in path && Healthy(c, h, x, now) && !OnCycle(c, x)
  }

  lemma {:induction false} DependencyBlockersEmpty(c: Catalog, h: HealthTable, now: U64, ids: seq<string>, path: set<string>)
    ensures DependencyBlockers(c, h, now, ids, path) == []
        <==> forall d :: d in ids ==> Blockers(c, h, now, d, path) == []
  {
    if ids != [] {
      DependencyBlockersEmpty(c, h, now, ids[1..], path);
      var first := Prefixed(ids[0], Blockers(c, h, now, ids[0], path));
      var rest := DependencyBlockers(c, h, now, ids[1..], path);
      assert DependencyBlockers(c, h, now, ids, path) == first + rest;
      assert first + rest == [] <==> first == [] && rest == [];
      assert first == [] <==> Blockers(c, h, now, ids[0], path) == [];
      assert ids == [ids[0]] + ids[1..];
    }
  }

  /**
   The visit pops its path set and walks shared dependencies again and again, on any graph.
   It reports no blocker exactly when every reachable system is registered, healthy, off the
   current path and off every cycle.
   */
  lemma {:induction false} NoBlockersMeans(c: Catalog, h: HealthTable, now: U64, id: string, path: set<string>)
    ensures Blockers(c, h, now, id, path) == []
        <==> forall x :: Reaches(c, id, x) ==> Unblocked(c, h, now, path, x)
    decreases |c.Keys - path|
  {
    ReachesSelf(c, id);
    if id !in path && id in c {
      var inner := path + {id};
      ShrinksByOne(c.Keys - path, c.Keys - inner, id);
      DependencyBlockersEmpty(c, h, now, c[id].dependencies, inner);
      forall d | Edge(c, id, d)
        ensures Blockers(c, h, now, d, inner) == []
            <==> forall x :: Reaches(c, d, x) ==> Unblocked(c, h, now, inner, x)
      {
        NoBlockersMeans(c, h, now, d, inner);
      }
      if Blockers(c, h, now, id, path) == [] {
        forall x | Reaches(c, id, x) ensures Unblocked(c, h, now, path, x) {
          NoBlockersForward(c, h, now, id, path, x);
        }
      }
      if forall x :: Reaches(c, id, x) ==> Unblocked(c, h, now, path, x) {
        forall d, x | Edge(c, id, d) && Reaches(c, d, x) ensures Unblocked(c, h, now, inner, x) {
          ReachesAfterEdge(c, id, d, x);
        }
      }
    }
  }

  lemma NoBlockersForward(c: Catalog, h: HealthTable, now: U64, id: string, path: set<string>, x: string)
    requires Reaches(c, id, x) && Healthy(c, h, id, now) && id !in path
    requires forall d, y :: Edge(c, id, d) && Reaches(c, d, y) ==> Unblocked(c, h, now, path + {id}, y)
    ensures Unblocked(c, h, now, path, x)
  {
    ReachesUnfolds(c, id, x);
    if x != id {
      var d :| Edge(c, id, d) && Reaches(c, d, x);
      assert Unblocked(c, h, now, path + {id}, x);
    }
  }

  /** In a valid topology a system is ready exactly when its whole dependency closure is healthy. */
  lemma ReadyMeansClosureHealthy(c: Catalog, h: HealthTable, id: string, now: U64)
    requires ValidTopology(c)
    ensures IsReady(c, h, id, now) <==> forall x :: Reaches(c, id, x) ==> Healthy(c, h, x, now)
  {
    NoBlockersMeans(c, h, now, id, {});
    forall x | Reaches(c, id, x) ensures Unblocked(c, h, now, {}, x) <==> Healthy(c, h, x, now) {
    }
  }

  /**
   The same in figures: every system reachable from it is registered, and its last report is ready,
   not stale, without failed invariants and no older than its interval.
   */
  lemma ReadyInFigures(c: Catalog, h: HealthTable, id: string, now: U64)
    requires ValidTopology(c)
    ensures IsReady(c, h, id, now) <==> forall x :: Reaches(c, id, x) ==>
      && x in c && x in h && h[x].state.Ready? && !h[x].stale && h[x].invariantFailures == 0
      && c[x].healthIntervalMs > 0 && h[x].observedAtMs <= now <= h[x].observedAtMs + c[x].healthIntervalMs
  {
    ReadyMeansClosureHealthy(c, h, id, now);
    hide IsReady, Reaches, ValidTopology;
  }

  /** Readiness is inherited by every dependency, direct or not. */
  lemma ReadinessIsInherited(c: Catalog, h: HealthTable, id: string, dependency: string, now: U64)
    requires ValidTopology(c) && IsReady(c, h, id, now) && Reaches(c, id, dependency)
    ensures IsReady(c, h, dependency, now)
  {
    ReadyMeansClosureHealthy(c, h, id, now);
    ReadyMeansClosureHealthy(c, h, dependency, now);
    forall x | Reaches(c, dependency, x) ensures Healthy(c, h, x, now) {
      ReachesIsTransitive(c, id, dependency, x);
    }
  }

  // ---------------------------------------------------------------- what a blocker tells

  /** The ids along a walk, each followed by a colon, as they prefix a reported reason. */
  ghost function Trail(p: seq<string>): string
  {
    if p == [] then "" else p[0] + ":" + Trail(p[1..])
  }

  /** `reason` is a true statement about `x`, visited below the systems `path` and `above`. */
  ghost predicate TrueReason(
    c: Catalog, h: HealthTable, now: U64, path: set<string>, above: seq<string>, x: string, reason: string)
  {
    || (reason == CYCLE && (x in path || x in above))
    || (reason == UNREGISTERED && x !in c)
    || (reason == MISSING && x in c && x !in h)
    || (reason == UNTRADABLE && x in c && x in h && !h[x].IsTradable())
    || (reason == STALE && x in c && x in h && !h[x].IsFreshAt(now, c[x].healthIntervalMs))
  }

  /** Walk p leads from the visited system to the cause that the blocker names. */
  ghost predicate Traces(
    c: Catalog, h: HealthTable, now: U64, path: set<string>, p: seq<string>, reason: string, blocker: string)
  {
    && IsWalk(c, p)
    && TrueReason(c, h, now, path, p[..|p| - 1], p[|p| - 1], reason)
    && blocker == Trail(p[1..]) + reason
  }

  /** Every reported blocker spells out a real dependency walk and a real defect at its end. */
  lemma {:induction false} BlockersAreTraced(
    c: Catalog, h: HealthTable, now: U64, id: string, path: set<string>, blocker: string)
    returns (p: seq<string>, reason: string)
    requires blocker in Blockers(c, h, now, id, path)
    ensures Traces(c, h, now, path, p, reason, blocker) && p[0] == id
    decreases |c.Keys - path|, 0
  {
    if id in path || id !in c || blocker in OwnBlockers(c[id], h, now, id) {
      p, reason := [id], blocker;
      assert Trail(p[1..]) + blocker == blocker;
    } else {
      hide OwnBlockers, Healthy, TrueReason, Traces, IsWalk;
      ShrinksByOne(c.Keys - path, c.Keys - (path + {id}), id);
      var q;
      q, reason := DependencyBlockersAreTraced(c, h, now, c[id].dependencies, path + {id}, blocker);
      p := [id] + q;
      TraceFromAbove(c, h, now, id, path, q, reason, blocker);
    }
  }

  lemma TraceFromAbove(
    c: Catalog, h: HealthTable, now: U64, id: string, path: set<string>, q: seq<string>, reason: string, blocker: string)
    requires q != [] && IsWalk(c, q) && Edge(c, id, q[0]) && blocker == Trail(q) + reason
    requires TrueReason(c, h, now, path + {id}, q[..|q| - 1], q[|q| - 1], reason)
    ensures Traces(c, h, now, path, [id] + q, reason, blocker)
  {
    hide TrueReason, IsWalk, Edge, Trail;
    ReasonFromAbove(c, h, now, id, path, q[..|q| - 1], q[|q| - 1], reason);
    WalkExtendsBackwards(c, id, q);
    var p := [id] + q;
    assert p[1..] == q && p[..|p| - 1] == [id] + q[..|q| - 1];
  }

  lemma ReasonFromAbove(
    c: Catalog, h: HealthTable, now: U64, id: string, path: set<string>, above: seq<string>, x: string, reason: string)
    requires TrueReason(c, h, now, path + {id}, above, x, reason)
    ensures TrueReason(c, h, now, path, [id] + above, x, reason)
  {
    assert x in [id] + above <==> x == id || x in above;
  }

  lemma WalkExtendsBackwards(c: Catalog, id: string, q: seq<string>)
    requires IsWalk(c, q) && Edge(c, id, q[0])
    ensures IsWalk(c, [id] + q)
  {
    var p := [id] + q;
    assert forall i :: 0 < i < |p| ==> p[i] == q[i - 1];
  }

  lemma TrailHead(q: seq<string>, reason: string)
    requires q != []
    ensures q[0] + ":" + (Trail(q[1..]) + reason) == Trail(q) + reason
  {
    var tail := Trail(q[1..]);
    assert q[0] + ":" + (tail + reason) == (q[0] + ":" + tail) + reason;
  }

  lemma {:induction false} DependencyBlockersAreTraced(
    c: Catalog, h: HealthTable, now: U64, ids: seq<string>, path: set<string>, blocker: string)
    returns (q: seq<string>, reason: string)
    requires blocker in DependencyBlockers(c, h, now, ids, path)
    ensures q != [] && IsWalk(c, q) && q[0] in ids
    ensures TrueReason(c, h, now, path, q[..|q| - 1], q[|q| - 1], reason)
    ensures blocker == Trail(q) + reason
    decreases |c.Keys - path|, |ids|
  {
    var reasons := Blockers(c, h, now, ids[0], path);
    assert DependencyBlockers(c, h, now, ids, path)
        == Prefixed(ids[0], reasons) + DependencyBlockers(c, h, now, ids[1..], path);
    if blocker in Prefixed(ids[0], reasons) {
      var i :| 0 <= i < |reasons| && blocker == ids[0] + ":" + reasons[i];
      q, reason := BlockersAreTraced(c, h, now, ids[0], path, reasons[i]);
      TrailHead(q, reason);
    } else {
      q, reason := DependencyBlockersAreTraced(c, h, now, ids[1..], path, blocker);
    }
  }
}
