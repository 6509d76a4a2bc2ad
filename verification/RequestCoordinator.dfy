/**
 The request rate coordinator. Attempts and status reports take the lock one after another, but
 each brings a clock reading taken before it got the lock, so readings may come out of order.
 */
module RateLimit {
  import opened Machine
  import opened Outcomes

  datatype Class = Public | Metadata | Account | Order | UserStream
  {
    function Spacing(): (ms: nat)
      ensures ms > 0
    {
      match this
      case Public => 20
      case Metadata => 100
      case Account => 100
      case Order => 25
      case UserStream => 1_000
    }

    function Cooldown(): nat
    {
      match this
      case Public => 1_000
      case Metadata => 2_000
      case Account => 2_000
      case Order => 1_000
      case UserStream => 5_000
    }
  }

  /** Milliseconds between two requests of a class. */
  ghost function Gap(c: Class): nat
  {
    if c.Public? then 20 else if c.Order? then 25 else if c.UserStream? then 1_000 else 100
  }

  /** Milliseconds without requests after a throttled answer that names no time. */
  ghost function Penalty(c: Class): nat
  {
    if c.UserStream? then 5_000 else if c.Public? || c.Order? then 1_000 else 2_000
  }

  datatype Bucket = Bucket(
    nextAllowedAt: nat,
    cooldownUntil: nat,
    requests: U64,
    throttled: U64,
    lastStatus: Option<nat>)

  type Buckets = map<Class, Bucket>

  function BucketOf(b: Buckets, c: Class, now: nat): Bucket
  {
    if c in b then b[c] else Bucket(now, now, 0, 0, None)
  }

  /** One pass of the acquire loop under the lock: no wait means the request is granted. */
  function Attempt(b: Buckets, c: Class, now: nat): (Buckets, Option<nat>)
  {
    var k := BucketOf(b, c, now);
    var readyAt := Max(k.nextAllowedAt, k.cooldownUntil);
    if readyAt <= now then
      (b[c := k.(nextAllowedAt := now + c.Spacing(), requests := SatAddU64(k.requests, 1))], None)
    else (b[c := k], Some(readyAt - now))
  }

  predicate Throttles(status: nat) { status == 418 || status == 429 }

  function ObserveStatus(b: Buckets, c: Class, now: nat, status: nat, retryAfter: Option<nat>): Buckets
  {
    var k := BucketOf(b, c, now).(lastStatus := Some(status));
    b[c :=
      if !Throttles(status) then k
      else
        var delay := if retryAfter.Some? then retryAfter.value else c.Cooldown();
        k.(throttled := SatAddU64(k.throttled, 1), cooldownUntil := Max(k.cooldownUntil, now + delay))]
  }

  ghost predicate Spaced(g: seq<nat>, gap: nat)
  {
    forall i :: 0 < i < |g| ==> g[i - 1] + gap <= g[i]
  }

  /** The clock readings of all requests ever granted, in lock order. */
  type History = map<Class, seq<nat>>

  function GrantsOf(g: History, c: Class): seq<nat> { if c in g then g[c] else [] }

  function Noted(g: History, c: Class, now: nat, wait: Option<nat>): History
  {
    if wait.None? then g[c := GrantsOf(g, c) + [now]] else g
  }

  /** The grants of a class are spaced, and its bucket forbids the next one for as long as it must. */
  ghost predicate ClassKept(b: Buckets, g: seq<nat>, c: Class)
  {
    && Spaced(g, c.Spacing())
    && (g != [] ==> c in b && b[c].nextAllowedAt == g[|g| - 1] + c.Spacing())
  }

  ghost predicate Kept(b: Buckets, g: History)
  {
    forall c :: ClassKept(b, GrantsOf(g, c), c)
  }

  lemma OwnAttempt(b: Buckets, g: seq<nat>, c: Class, now: nat)
    requires ClassKept(b, g, c)
    ensures var r := Attempt(b, c, now); ClassKept(r.0, if r.1.None? then g + [now] else g, c)
    ensures Attempt(b, c, now).1.None? && g != [] ==> now >= g[|g| - 1] + c.Spacing()
  {
    if g != [] {
      assert g[|g| - 1] + c.Spacing() <= b[c].nextAllowedAt;
    }
  }

  lemma OtherAttempt(b: Buckets, g: seq<nat>, c: Class, now: nat, d: Class)
    requires ClassKept(b, g, d) && d != c
    ensures ClassKept(Attempt(b, c, now).0, g, d)
  {
    hide Spaced;
  }

  lemma AttemptKeeps(b: Buckets, g: History, c: Class, now: nat)
    requires Kept(b, g)
    ensures Kept(Attempt(b, c, now).0, Noted(g, c, now, Attempt(b, c, now).1))
    ensures Attempt(b, c, now).1.None? && GrantsOf(g, c) != [] ==>
      now >= GrantsOf(g, c)[|GrantsOf(g, c)| - 1] + c.Spacing()
  {
    var r := Attempt(b, c, now);
    var h := Noted(g, c, now, r.1);
    hide ClassKept, Attempt;
    OwnAttempt(b, GrantsOf(g, c), c, now);
    forall d ensures ClassKept(r.0, GrantsOf(h, d), d) {
      assert ClassKept(b, GrantsOf(g, d), d);
      if d != c {
        OtherAttempt(b, GrantsOf(g, d), c, now, d);
      }
    }
  }

  lemma StatusKeeps(b: Buckets, g: History, c: Class, now: nat, status: nat, retryAfter: Option<nat>)
    requires Kept(b, g)
    ensures Kept(ObserveStatus(b, c, now, status, retryAfter), g)
  {
    forall d ensures ClassKept(ObserveStatus(b, c, now, status, retryAfter), GrantsOf(g, d), d) {
      assert ClassKept(b, GrantsOf(g, d), d);
    }
  }

  class RequestCoordinator {
    var buckets: Buckets
    ghost var granted: History

    ghost predicate Valid()
      reads this
    {
      Kept(buckets, granted)
    }

    constructor ()
      ensures Valid() && buckets == map[] && granted == map[]
    {
      buckets, granted := map[], map[];
    }

    /** One pass of the loop under the lock; no grant comes within the spacing of the last one or a cooldown. */
    method TryAcquire(c: Class, now: nat) returns (wait: Option<nat>)
      requires Valid()
      modifies this
      ensures Valid() && granted == Noted(old(granted), c, now, wait)
      ensures (buckets, wait) == Attempt(old(buckets), c, now)
      ensures var earlier := GrantsOf(old(granted), c);
        wait.None? && earlier != [] ==> now >= earlier[|earlier| - 1] + c.Spacing()
      ensures wait.None? && c in old(buckets) ==> now >= old(buckets)[c].cooldownUntil
    {
      hide Kept;
      AttemptKeeps(buckets, granted, c, now);
      if c !in buckets {
        buckets := buckets[c := Bucket(now, now, 0, 0, None)];
      }
      var bucket := buckets[c];
      var readyAt := Max(bucket.nextAllowedAt, bucket.cooldownUntil);
      if readyAt <= now {
        buckets := buckets[c := bucket.(nextAllowedAt := now + c.Spacing())];
        buckets := buckets[c := buckets[c].(requests := SatAddU64(bucket.requests, 1))];
        assert buckets == old(buckets)[c := buckets[c]];
        wait := None;
      } else {
        assert buckets == old(buckets)[c := bucket];
        wait := Some(readyAt - now);
      }
      granted := Noted(granted, c, now, wait);
    }

    method Observe(c: Class, now: nat, status: nat, retryAfter: Option<nat>)
      requires Valid()
      modifies this
      ensures Valid() && granted == old(granted)
      ensures buckets == ObserveStatus(old(buckets), c, now, status, retryAfter)
      ensures c in buckets && buckets[c].lastStatus == Some(status)
      ensures c in old(buckets) ==>
        var before := old(buckets)[c].cooldownUntil;
        var asked := now + if retryAfter.Some? then retryAfter.value else Penalty(c);
        && before <= buckets[c].cooldownUntil
        && (status != 418 && status != 429 ==> buckets[c].cooldownUntil == before)
        && (status == 418 || status == 429 ==> buckets[c].cooldownUntil == if asked > before then asked else before)
    {
      hide Kept;
      StatusKeeps(buckets, granted, c, now, status, retryAfter);
      if c !in buckets {
        buckets := buckets[c := Bucket(now, now, 0, 0, None)];
      }
      var bucket := buckets[c].(lastStatus := Some(status));
      if Throttles(status) {
        var delay := if retryAfter.Some? then retryAfter.value else c.Cooldown();
        bucket := bucket.(
          throttled := SatAddU64(bucket.throttled, 1),
          cooldownUntil := Max(bucket.cooldownUntil, now + delay));
      }
      buckets := buckets[c := bucket];
      assert buckets == old(buckets)[c := bucket];
    }
  }

  // ---------------------------------------------------------------- runs, in lock order

  datatype Step =
    | Try(class_: Class, now: nat)
    | Report(class_: Class, now: nat, status: nat, retryAfter: Option<nat>)

  function Apply(b: Buckets, s: Step): Buckets
  {
    match s
    case Try(c, now) => Attempt(b, c, now).0
    case Report(c, now, status, retryAfter) => ObserveStatus(b, c, now, status, retryAfter)
  }

  function Run(b: Buckets, steps: seq<Step>): Buckets
    decreases steps
  {
    if steps == [] then b else Run(Apply(b, steps[0]), steps[1..])
  }

  predicate IsGrant(b: Buckets, s: Step, c: Class)
  {
    s.Try? && s.class_ == c && Attempt(b, c, s.now).1.None?
  }

  /** The clock readings of the requests granted to a class, in lock order. */
  function Grants(b: Buckets, steps: seq<Step>, c: Class): seq<nat>
    decreases steps
  {
    if steps == [] then []
    else
      (if IsGrant(b, steps[0], c) then [steps[0].now] else []) + Grants(Apply(b, steps[0]), steps[1..], c)
  }

  /** No grant comes before what its bucket already forbids. */
  lemma {:induction false} GrantsRespectTheBucket(b: Buckets, steps: seq<Step>, c: Class)
    requires c in b
    ensures forall i :: 0 <= i < |Grants(b, steps, c)| ==>
      Grants(b, steps, c)[i] >= b[c].nextAllowedAt && Grants(b, steps, c)[i] >= b[c].cooldownUntil
    decreases steps
  {
    if steps != [] {
      GrantsRespectTheBucket(Apply(b, steps[0]), steps[1..], c);
    }
  }

  /** Grants of one class are at least its spacing apart, whatever the interleaving and the clocks. */
  lemma {:induction false} GrantsAreSpaced(b: Buckets, steps: seq<Step>, c: Class)
    ensures Spaced(Grants(b, steps, c), c.Spacing())
    decreases steps
  {
    if steps != [] {
      var next := Apply(b, steps[0]);
      GrantsAreSpaced(next, steps[1..], c);
      if IsGrant(b, steps[0], c) {
        GrantsRespectTheBucket(next, steps[1..], c);
        var g, rest := Grants(b, steps, c), Grants(next, steps[1..], c);
        assert g == [steps[0].now] + rest;
        assert forall i :: 0 < i < |g| ==> g[i] == rest[i - 1];
      }
    }
  }

  /** After a throttled status no grant precedes the recorded deadline. */
  lemma CooldownHolds(b: Buckets, c: Class, now: nat, status: nat, retryAfter: Option<nat>, later: seq<Step>)
    requires Throttles(status)
    ensures var deadline := now + if retryAfter.Some? then retryAfter.value else c.Cooldown();
      var g := Grants(ObserveStatus(b, c, now, status, retryAfter), later, c);
      forall i :: 0 <= i < |g| ==> g[i] >= deadline
  {
    GrantsRespectTheBucket(ObserveStatus(b, c, now, status, retryAfter), later, c);
  }

  // ---------------------------------------------------------------- rate in a window

  function CountIn(g: seq<nat>, start: nat, length: nat): nat
  {
    if g == [] then 0
    else CountIn(g[..|g| - 1], start, length) + if start <= g[|g| - 1] < start + length then 1 else 0
  }

  lemma OneMoreGap(k: int, gap: int)
    ensures (k + 1 - 1) * gap == (k - 1) * gap + gap
  {
  }

  lemma {:induction false} WindowSpan(g: seq<nat>, start: nat, length: nat, gap: nat)
    requires Spaced(g, gap) && CountIn(g, start, length) > 0
    ensures g != [] && g[|g| - 1] >= start
    ensures (CountIn(g, start, length) - 1) * gap <= g[|g| - 1] - start
    ensures (CountIn(g, start, length) - 1) * gap < length
  {
    var n := |g| - 1;
    var init := g[..n];
    var k := CountIn(init, start, length);
    if k > 0 {
      WindowSpan(init, start, length, gap);
      assert init[|init| - 1] == g[n - 1];
      OneMoreGap(k, gap);
    }
  }

  /** Any window of a given length holds at most its length divided by the spacing, rounded up. */
  lemma WindowHoldsFewGrants(b: Buckets, steps: seq<Step>, c: Class, start: nat, length: nat)
    ensures CountIn(Grants(b, steps, c), start, length) <= (length + c.Spacing() - 1) / c.Spacing()
  {
    var g, gap := Grants(b, steps, c), c.Spacing();
    GrantsAreSpaced(b, steps, c);
    var k := CountIn(g, start, length);
    if k > 0 {
      WindowSpan(g, start, length, gap);
      RoundedUp(k, length, gap);
    }
  }

  lemma RoundedUp(k: nat, length: nat, gap: int)
    requires k > 0 && gap > 0 && (k - 1) * gap < length
    ensures k <= (length + gap - 1) / gap
  {
    var q := Quotient(length + gap - 1, gap);
    assert k * gap == (k - 1) * gap + gap && (q + 1) * gap == q * gap + gap;
    if q < k {
      Scale(q + 1, k, gap);
    }
  }

  // ---------------------------------------------------------------- classes and waits

  function Only(steps: seq<Step>, c: Class): seq<Step>
    decreases steps
  {
    if steps == [] then []
    else (if steps[0].class_ == c then [steps[0]] else []) + Only(steps[1..], c)
  }

  ghost predicate SameBucket(a: Buckets, b: Buckets, c: Class)
  {
    (c in a <==> c in b) && (c in a ==> a[c] == b[c])
  }

  lemma OwnStep(a: Buckets, b: Buckets, s: Step)
    requires SameBucket(a, b, s.class_)
    ensures SameBucket(Apply(a, s), Apply(b, s), s.class_)
    ensures IsGrant(a, s, s.class_) <==> IsGrant(b, s, s.class_)
  {
  }

  lemma OtherStep(a: Buckets, b: Buckets, s: Step, c: Class)
    requires SameBucket(a, b, c) && s.class_ != c
    ensures SameBucket(Apply(a, s), b, c) && !IsGrant(a, s, c)
  {
  }

  /** What other classes do is invisible: a class sees the run of its own steps alone. */
  lemma {:induction false} ClassesDoNotInterfere(a: Buckets, b: Buckets, steps: seq<Step>, c: Class)
    requires SameBucket(a, b, c)
    ensures SameBucket(Run(a, steps), Run(b, Only(steps, c)), c)
    ensures Grants(a, steps, c) == Grants(b, Only(steps, c), c)
    decreases steps
  {
    if steps != [] {
      hide Apply, IsGrant, SameBucket;
      var s, own := steps[0], Only(steps, c);
      if s.class_ == c {
        OwnStep(a, b, s);
        assert own[1..] == Only(steps[1..], c);
        ClassesDoNotInterfere(Apply(a, s), Apply(b, s), steps[1..], c);
      } else {
        assert own == Only(steps[1..], c);
        OtherStep(a, b, s, c);
        ClassesDoNotInterfere(Apply(a, s), b, steps[1..], c);
      }
    }
  }

  /** The returned wait is exact: undisturbed, the next attempt succeeds at that time and not before. */
  lemma WaitIsExact(b: Buckets, c: Class, now: nat, retryAt: nat)
    requires Attempt(b, c, now).1.Some?
    ensures Attempt(Attempt(b, c, now).0, c, retryAt).1.None? <==> retryAt >= now + Attempt(b, c, now).1.value
  {
  }

  /** The request counter counts the grants, up to saturation. */
  lemma {:induction false} RequestsCountGrants(b: Buckets, steps: seq<Step>, c: Class)
    requires c in b
    ensures c in Run(b, steps)
    ensures Run(b, steps)[c].requests == Saturate(b[c].requests + |Grants(b, steps, c)|)
    decreases steps
  {
    if steps != [] {
      RequestsCountGrants(Apply(b, steps[0]), steps[1..], c);
    }
  }

  // ---------------------------------------------------------------- what a history calls for

  /** Answers with status 418 or 429. */
  ghost predicate Throttled(s: Step, c: Class)
  {
    s.Report? && s.class_ == c && (s.status == 418 || s.status == 429)
  }

  /** The clock reading of the first step of a class. */
  ghost function FirstOf(steps: seq<Step>, c: Class): Option<nat>
  {
    if steps == [] then None
    else
      var s, earlier := steps[|steps| - 1], FirstOf(steps[..|steps| - 1], c);
      if earlier.None? && s.class_ == c then Some(s.now) else earlier
  }

  /** The latest time that a throttled answer has asked to wait for. */
  ghost function DeadlineOf(steps: seq<Step>, c: Class): nat
  {
    if steps == [] then 0
    else
      var s, earlier := steps[|steps| - 1], DeadlineOf(steps[..|steps| - 1], c);
      if !Throttled(s, c) then earlier
      else
        var asked := s.now + if s.retryAfter.Some? then s.retryAfter.value else Penalty(c);
        if asked > earlier then asked else earlier
  }

  ghost function CountThrottled(steps: seq<Step>, c: Class): nat
  {
    if steps == [] then 0
    else CountThrottled(steps[..|steps| - 1], c) + if Throttled(steps[|steps| - 1], c) then 1 else 0
  }

  ghost function LastStatusOf(steps: seq<Step>, c: Class): Option<nat>
  {
    if steps == [] then None
    else
      var s := steps[|steps| - 1];
      if s.Report? && s.class_ == c then Some(s.status) else LastStatusOf(steps[..|steps| - 1], c)
  }

  lemma {:induction false} RunOneMore(b: Buckets, steps: seq<Step>, s: Step, c: Class)
    ensures Run(b, steps + [s]) == Apply(Run(b, steps), s)
    ensures Grants(b, steps + [s], c) == Grants(b, steps, c) + if IsGrant(Run(b, steps), s, c) then [s.now] else []
    decreases steps
  {
    hide Apply, IsGrant;
    if steps == [] {
      assert steps + [s] == [s] && [s][1..] == [];
    } else {
      assert (steps + [s])[1..] == steps[1..] + [s];
      RunOneMore(Apply(b, steps[0]), steps[1..], s, c);
    }
  }

  /** A bucket says nothing but what the history of its class calls for. */
  ghost predicate Remembers(b: Buckets, steps: seq<Step>, c: Class, g: seq<nat>)
  {
    && (c in b <==> FirstOf(steps, c).Some?)
    && (g != [] ==> c in b)
    && (c in b ==>
          && b[c].nextAllowedAt == (if g == [] then FirstOf(steps, c).value else g[|g| - 1] + Gap(c))
          && b[c].cooldownUntil == Max(FirstOf(steps, c).value, DeadlineOf(steps, c))
          && b[c].requests == Saturate(|g|) && b[c].throttled == Saturate(CountThrottled(steps, c))
          && b[c].lastStatus == LastStatusOf(steps, c))
    && (c !in b ==> DeadlineOf(steps, c) == 0 && CountThrottled(steps, c) == 0 && LastStatusOf(steps, c).None?)
  }

  lemma HistoryOneMore(steps: seq<Step>, c: Class, s: Step)
    ensures FirstOf(steps + [s], c) ==
      if FirstOf(steps, c).None? && s.class_ == c then Some(s.now) else FirstOf(steps, c)
    ensures DeadlineOf(steps + [s], c) ==
      if !Throttled(s, c) then DeadlineOf(steps, c)
      else Max(DeadlineOf(steps, c), s.now + if s.retryAfter.Some? then s.retryAfter.value else Penalty(c))
    ensures CountThrottled(steps + [s], c) == CountThrottled(steps, c) + if Throttled(s, c) then 1 else 0
    ensures LastStatusOf(steps + [s], c) ==
      if s.Report? && s.class_ == c then Some(s.status) else LastStatusOf(steps, c)
  {
    assert (steps + [s])[..|steps|] == steps;
  }

  lemma TryOneMore(b: Buckets, steps: seq<Step>, c: Class, g: seq<nat>, s: Step)
    requires Remembers(b, steps, c, g) && s.Try? && s.class_ == c
    ensures Remembers(Apply(b, s), steps + [s], c, g + if IsGrant(b, s, c) then [s.now] else [])
  {
    HistoryOneMore(steps, c, s);
    hide FirstOf, DeadlineOf, CountThrottled, LastStatusOf;
  }

  lemma ReportOneMore(b: Buckets, steps: seq<Step>, c: Class, g: seq<nat>, s: Step)
    requires Remembers(b, steps, c, g) && s.Report? && s.class_ == c
    ensures Remembers(Apply(b, s), steps + [s], c, g)
  {
    HistoryOneMore(steps, c, s);
    hide FirstOf, DeadlineOf, CountThrottled, LastStatusOf;
  }

  lemma RemembersOneMore(b: Buckets, steps: seq<Step>, c: Class, g: seq<nat>, s: Step)
    requires Remembers(b, steps, c, g)
    ensures Remembers(Apply(b, s), steps + [s], c, g + if IsGrant(b, s, c) then [s.now] else [])
  {
    assert g + [] == g;
    if s.class_ != c {
      HistoryOneMore(steps, c, s);
      OtherStep(b, b, s, c);
      hide FirstOf, DeadlineOf, CountThrottled, LastStatusOf, Apply;
    } else if s.Try? {
      TryOneMore(b, steps, c, g, s);
      hide Remembers, Apply;
    } else {
      ReportOneMore(b, steps, c, g, s);
      hide Remembers, Apply;
    }
  }

  lemma {:induction false} BucketsRemember(steps: seq<Step>, c: Class)
    ensures Remembers(Run(map[], steps), steps, c, Grants(map[], steps, c))
    decreases |steps|
  {
    if steps != [] {
      var n := |steps| - 1;
      assert steps == steps[..n] + [steps[n]];
      BucketsRemember(steps[..n], c);
      RunOneMore(map[], steps[..n], steps[n], c);
      hide Run, Grants, Remembers, Apply, IsGrant;
      RemembersOneMore(Run(map[], steps[..n]), steps[..n], c, Grants(map[], steps[..n], c), steps[n]);
    }
  }

  /**
   The coordinator answers every attempt as the history of its class calls for: the first one at once,
   and any other exactly from the spacing after the last grant, the latest deadline and the first
   clock reading on; before that it returns how long is left.
   */
  lemma AttemptsAreAnsweredExactly(steps: seq<Step>, c: Class, now: nat)
    ensures var g, wait := Grants(map[], steps, c), Attempt(Run(map[], steps), c, now).1;
      && (FirstOf(steps, c).None? ==> wait.None?)
      && (FirstOf(steps, c).Some? ==>
            var spaced := if g == [] then FirstOf(steps, c).value else g[|g| - 1] + Gap(c);
            var from := Max(spaced, Max(FirstOf(steps, c).value, DeadlineOf(steps, c)));
            wait == if now >= from then None else Some(from - now))
  {
    BucketsRemember(steps, c);
    hide Run, Grants;
  }

  /** What the counters of a class show after any run: its grants, its throttled answers, its last status. */
  lemma CountersAreExact(steps: seq<Step>, c: Class)
    requires FirstOf(steps, c).Some?
    ensures var b := Run(map[], steps);
      && c in b && b[c].requests == Saturate(|Grants(map[], steps, c)|)
      && b[c].throttled == Saturate(CountThrottled(steps, c)) && b[c].lastStatus == LastStatusOf(steps, c)
  {
    BucketsRemember(steps, c);
    hide Run, Grants;
  }

  lemma {:induction false} CountInMeans(g: seq<nat>, start: nat, length: nat)
    ensures CountIn(g, start, length) == |set i | 0 <= i < |g| && start <= g[i] < start + length|
  {
    if g != [] {
      var n := |g| - 1;
      CountInMeans(g[..n], start, length);
      var before := set i | 0 <= i < n && start <= g[..n][i] < start + length;
      var all := set i | 0 <= i < |g| && start <= g[i] < start + length;
      assert all == before + if start <= g[n] < start + length then {n} else {};
    }
  }

  /** A window of a second, by class. */
  lemma GrantsPerSecond(b: Buckets, steps: seq<Step>, c: Class, start: nat)
    ensures var g := Grants(b, steps, c);
      |set i | 0 <= i < |g| && start <= g[i] < start + 1_000|
      <= if c.Public? then 50 else if c.Order? then 40 else if c.UserStream? then 1 else 10
  {
    WindowHoldsFewGrants(b, steps, c, start, 1_000);
    CountInMeans(Grants(b, steps, c), start, 1_000);
    hide CountIn, Grants;
  }
}
