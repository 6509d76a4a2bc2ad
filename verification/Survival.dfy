/** Survival along an equity path: the running peak finds the deepest fall of the whole path. */
module Survival {
  import opened Machine

  datatype Summary = Summary(
    observations: nat,
    terminalEquityBps: I64,
    maxDrawdownBps: I64,
    ruin: bool,
    available: bool)

  /** The path with the equity it starts from in front. */
  function FullPath(initial: I64, path: seq<I64>): (full: seq<I64>)
    ensures |full| == |path| + 1
  {
    [initial] + path
  }

  /** The fall from one point of a path to a later one. */
  function Fall(full: seq<I64>, i: nat, j: nat): I64
    requires i <= j < |full|
  {
    SatSubI64(full[i], full[j])
  }

  ghost predicate DeepestFall(full: seq<I64>, depth: I64)
  {
    && (forall i, j :: 0 <= i <= j < |full| ==> Fall(full, i, j) <= depth)
    && exists i, j :: 0 <= i <= j < |full| && Fall(full, i, j) == depth
  }

  ghost predicate Peak(full: seq<I64>, at: nat)
  {
    at < |full| && forall i :: 0 <= i < |full| ==> full[i] <= full[at]
  }

  /** One more point: the deepest fall so far, or the fall from the peak to the new point. */
  lemma OneMorePoint(full: seq<I64>, x: I64, depth: I64, at: nat)
    requires full != [] && DeepestFall(full, depth) && Peak(full + [x], at)
    ensures DeepestFall(full + [x], Max(depth, SatSubI64((full + [x])[at], x)))
  {
    var grown := full + [x];
    var n := |full|;
    var next := Max(depth, SatSubI64(grown[at], x));
    forall i, j | 0 <= i <= j < |grown| ensures Fall(grown, i, j) <= next {
      if j < n {
        assert Fall(grown, i, j) == Fall(full, i, j);
      } else {
        assert grown[i] <= grown[at];
      }
    }
    if next == depth {
      var i, j :| 0 <= i <= j < |full| && Fall(full, i, j) == depth;
      assert Fall(grown, i, j) == depth;
    } else {
      assert Fall(grown, at, n) == next;
    }
  }

  method EvaluateSurvival(initial: I64, path: seq<I64>, ruinFloor: I64) returns (s: Summary)
    ensures s.available <==> path != [] && initial > 0
    ensures !s.available ==> s == Summary(0, initial, 0, false, false)
    ensures s.available ==> s.observations == |path| && s.terminalEquityBps == path[|path| - 1]
    ensures s.available ==> DeepestFall(FullPath(initial, path), s.maxDrawdownBps)
    ensures s.available ==> (s.ruin <==> exists i :: 0 <= i < |path| && path[i] <= ruinFloor)
  {
    if path == [] || initial <= 0 {
      return Summary(0, initial, 0, false, false);
    }
    var peak, maxDrawdown: I64 := initial, 0;
    ghost var at := 0;
    assert Fall(FullPath(initial, path[..0]), 0, 0) == 0;
    for k := 0 to |path|
      invariant Peak(FullPath(initial, path[..k]), at) && FullPath(initial, path[..k])[at] == peak
      invariant DeepestFall(FullPath(initial, path[..k]), maxDrawdown)
    {
      var equity := path[k];
      ghost var full := FullPath(initial, path[..k]);
      assert FullPath(initial, path[..k + 1]) == full + [equity];
      if peak < equity {
        at := k + 1;
      }
      peak := Max(peak, equity);
      OneMorePoint(full, equity, maxDrawdown, at);
      maxDrawdown := Max(maxDrawdown, SatSubI64(peak, equity));
    }
    assert path[..|path|] == path;
    s := Summary(
      |path|,
      path[|path| - 1],
      maxDrawdown,
      exists i :: 0 <= i < |path| && path[i] <= ruinFloor,
      true);
  }
}
