/** The dry run of archive retention: a minimal greedy plan over the archives from oldest to newest. */
module Retention {
  import opened Outcomes
  import opened Ranks
  import Text

  datatype Archive = Archive(modified: real, path: string, size: nat, inode: nat)

  datatype Limits = Limits(maxBytes: int, minAgeHours: real, maxAgeDays: real, freeFloor: int)

  datatype Status = Healthy | Pressure

  datatype Plan = Plan(planned: seq<string>, totalAfter: int, availableAfter: int, status: Status)

  datatype LimitError = NegativeLimit

  // ---------------------------------------------------------------- the order of the archives

  /** The order of the tuples the planner sorts: oldest first, then by path. */
  predicate NotLater(a: Archive, b: Archive)
  {
    if a.modified != b.modified then a.modified < b.modified
    else if a.path != b.path then Text.Before(a.path, b.path)
    else if a.size != b.size then a.size < b.size
    else a.inode <= b.inode
  }

  lemma ArchivesAreOrdered()
    ensures TotalOrder(NotLater)
  {
    hide Text.Before;
    forall a, b ensures NotLater(a, b) || NotLater(b, a) {
      Text.BeforeIsTotal(a.path, b.path);
    }
    forall a, b | NotLater(a, b) && NotLater(b, a) ensures a == b {
      Text.BeforeIsTotal(a.path, b.path);
    }
    forall a, b, c | NotLater(a, b) && NotLater(b, c) ensures NotLater(a, c) {
      if Text.Before(a.path, b.path) && Text.Before(b.path, c.path) {
        Text.BeforeIsTransitive(a.path, b.path, c.path);
        Text.BeforeIsTotal(a.path, c.path);
      }
      Text.BeforeIsTotal(a.path, b.path);
    }
  }

  // ---------------------------------------------------------------- what a plan has to reach

  function Age(a: Archive, now: real): real { now - a.modified }

  predicate Eligible(a: Archive, limits: Limits, now: real)
  {
    Age(a, now) >= limits.minAgeHours * 3600.0
  }

  predicate Overdue(a: Archive, limits: Limits, now: real)
  {
    Age(a, now) >= limits.maxAgeDays * 86400.0
  }

  predicate Relieved(total: int, available: int, limits: Limits)
  {
    total <= limits.maxBytes && available >= limits.freeFloor
  }

  function Size(archives: seq<Archive>): nat
  {
    if archives == [] then 0 else Size(archives[..|archives| - 1]) + archives[|archives| - 1].size
  }

  datatype Disk = Disk(total: int, available: int)

  function After(disk: Disk, removed: seq<Archive>): Disk
  {
    Disk(disk.total - Size(removed), disk.available + Size(removed))
  }

  /** Nothing more to do once the first `n` archives are gone. */
  ghost predicate Enough(sorted: seq<Archive>, n: nat, disk: Disk, limits: Limits, now: real)
    requires n <= |sorted|
  {
    var left := After(disk, sorted[..n]);
    || (forall i :: n <= i < |sorted| ==> !Eligible(sorted[i], limits, now))
    || (&& Relieved(left.total, left.available, limits)
        && forall i :: n <= i < |sorted| ==> !(Eligible(sorted[i], limits, now) && Overdue(sorted[i], limits, now)))
  }

  /** The shortest prefix of the archives, oldest first, whose removal is enough. */
  ghost predicate Shortest(sorted: seq<Archive>, n: nat, disk: Disk, limits: Limits, now: real)
  {
    && n <= |sorted|
    && Enough(sorted, n, disk, limits, now)
    && forall k :: 0 <= k < n ==> !Enough(sorted, k, disk, limits, now)
  }

  function Path(a: Archive): string { a.path }

  ghost predicate PlanFor(sorted: seq<Archive>, n: nat, disk: Disk, limits: Limits, now: real, plan: Plan)
  {
    && Shortest(sorted, n, disk, limits, now)
    && plan.planned == Map(Path, sorted[..n])
    && plan.totalAfter == After(disk, sorted[..n]).total
    && plan.availableAfter == After(disk, sorted[..n]).available
    && (plan.status == Pressure <==> !Relieved(plan.totalAfter, plan.availableAfter, limits))
  }

  predicate LimitsValid(limits: Limits)
  {
    limits.maxBytes >= 0 && limits.minAgeHours >= 0.0 && limits.maxAgeDays >= 0.0 && limits.freeFloor >= 0
  }

  // ---------------------------------------------------------------- the planner

  /** After the first archive that is skipped every later one is skipped too. */
  lemma SkippedForGood(sorted: seq<Archive>, n: nat, disk: Disk, limits: Limits, now: real)
    requires Sorted(NotLater, sorted) && n < |sorted|
    requires var left := After(disk, sorted[..n]);
      || !Eligible(sorted[n], limits, now)
      || (Relieved(left.total, left.available, limits) && !Overdue(sorted[n], limits, now))
    ensures Enough(sorted, n, disk, limits, now)
  {
    forall i | n <= i < |sorted| ensures Age(sorted[i], now) <= Age(sorted[n], now) {
      assert n < i ==> NotLater(sorted[n], sorted[i]);
    }
  }

  lemma SkippedWhenEnough(sorted: seq<Archive>, n: nat, i: nat, disk: Disk, limits: Limits, now: real)
    requires n <= i < |sorted| && Enough(sorted, n, disk, limits, now)
    ensures var left := After(disk, sorted[..n]);
      || !Eligible(sorted[i], limits, now)
      || (Relieved(left.total, left.available, limits) && !Overdue(sorted[i], limits, now))
  {
  }

  lemma NotEnoughYet(sorted: seq<Archive>, n: nat, disk: Disk, limits: Limits, now: real)
    requires n < |sorted| && Eligible(sorted[n], limits, now)
    requires var left := After(disk, sorted[..n]);
      !(Relieved(left.total, left.available, limits) && !Overdue(sorted[n], limits, now))
    ensures !Enough(sorted, n, disk, limits, now)
  {
  }

  lemma AllRemovedIsEnough(sorted: seq<Archive>, disk: Disk, limits: Limits, now: real)
    ensures Enough(sorted, |sorted|, disk, limits, now)
  {
  }

  lemma RemovingGrows(sorted: seq<Archive>, n: nat, disk: Disk)
    requires n < |sorted|
    ensures var before, after := After(disk, sorted[..n]), After(disk, sorted[..n + 1]);
      after == Disk(before.total - sorted[n].size, before.available + sorted[n].size)
    ensures Map(Path, sorted[..n + 1]) == Map(Path, sorted[..n]) + [sorted[n].path]
  {
    assert sorted[..n + 1][..n] == sorted[..n];
  }

  /** The plan so far: the first `n` archives, none of which could have been spared. */
  ghost predicate PlannedSoFar(
    sorted: seq<Archive>, n: nat, disk: Disk, limits: Limits, now: real, planned: seq<string>, left: Disk)
  {
    && n <= |sorted|
    && planned == Map(Path, sorted[..n])
    && After(disk, sorted[..n]) == left
    && forall k :: 0 <= k < n ==> !Enough(sorted, k, disk, limits, now)
  }

  lemma PlanOneMore(
    sorted: seq<Archive>, n: nat, disk: Disk, limits: Limits, now: real, planned: seq<string>, left: Disk)
    requires PlannedSoFar(sorted, n, disk, limits, now, planned, left)
    requires n < |sorted| && Eligible(sorted[n], limits, now)
    requires !(Relieved(left.total, left.available, limits) && !Overdue(sorted[n], limits, now))
    ensures PlannedSoFar(
      sorted, n + 1, disk, limits, now, planned + [sorted[n].path],
      Disk(left.total - sorted[n].size, left.available + sorted[n].size))
  {
    hide Map, Size;
    NotEnoughYet(sorted, n, disk, limits, now);
    RemovingGrows(sorted, n, disk);
    hide Enough, After, Eligible, Overdue;
  }

  method Maintain(archives: seq<Archive>, disk: Disk, limits: Limits, now: real)
    returns (r: Result<Plan, LimitError>, ghost n: nat)
    ensures r.Ok? <==> LimitsValid(limits)
    ensures r.Err? <==>
      limits.maxBytes < 0 || limits.minAgeHours < 0.0 || limits.maxAgeDays < 0.0 || limits.freeFloor < 0
    ensures r.Ok? ==> PlanFor(Sort(NotLater, archives), n, disk, limits, now, r.value)
  {
    n := 0;
    if !LimitsValid(limits) {
      return Err(NegativeLimit), 0;
    }
    var sorted := Sort(NotLater, archives);
    ArchivesAreOrdered();
    SortSorts(NotLater, archives);
    var plan;
    plan, n := PlanInOrder(sorted, disk, limits, now);
    r := Ok(plan);
  }

  /** The planning loop over the archives from oldest to newest. */
  method PlanInOrder(sorted: seq<Archive>, disk: Disk, limits: Limits, now: real) returns (plan: Plan, ghost n: nat)
    requires Sorted(NotLater, sorted)
    ensures PlanFor(sorted, n, disk, limits, now, plan)
  {
    var planned, total, available := [], disk.total, disk.available;
    n := 0;
    NothingRemoved(sorted, disk);
    hide Sorted, Enough, Eligible, Overdue, Map, Size, NotLater;
    for i := 0 to |sorted|
      invariant n <= i && (n < i ==> Enough(sorted, n, disk, limits, now))
      invariant PlannedSoFar(sorted, n, disk, limits, now, planned, Disk(total, available))
    {
      hide PlannedSoFar, After;
      var a := sorted[i];
      LeftIs(sorted, n, disk, limits, now, planned, Disk(total, available));
      if !Eligible(a, limits, now) || (Relieved(total, available, limits) && !Overdue(a, limits, now)) {
        if n == i {
          SkippedForGood(sorted, n, disk, limits, now);
        }
        continue;
      }
      if n < i {
        SkippedWhenEnough(sorted, n, i, disk, limits, now);
      }
      PlanOneMore(sorted, n, disk, limits, now, planned, Disk(total, available));
      planned := planned + [a.path];
      total := total - a.size;
      available := available + a.size;
      n := n + 1;
    }
    AllRemovedIsEnough(sorted, disk, limits, now);
    plan := Plan(
      planned, total, available,
      if total > limits.maxBytes || available < limits.freeFloor then Pressure else Healthy);
  }

  lemma LeftIs(
    sorted: seq<Archive>, n: nat, disk: Disk, limits: Limits, now: real, planned: seq<string>, left: Disk)
    requires PlannedSoFar(sorted, n, disk, limits, now, planned, left)
    ensures n <= |sorted| && After(disk, sorted[..n]) == left
  {
  }

  lemma NothingRemoved(sorted: seq<Archive>, disk: Disk)
    ensures After(disk, sorted[..0]) == disk && Map(Path, sorted[..0]) == []
  {
  }

  // ---------------------------------------------------------------- what the plan guarantees

  /** The plan, in terms of single archives. */
  lemma PlanIsGreedyAndSafe(sorted: seq<Archive>, n: nat, disk: Disk, limits: Limits, now: real, plan: Plan)
    requires Sorted(NotLater, sorted) && PlanFor(sorted, n, disk, limits, now, plan)
    ensures forall i :: 0 <= i < n ==> Eligible(sorted[i], limits, now)
    ensures forall i :: n <= i < |sorted| && Eligible(sorted[i], limits, now) ==> !Overdue(sorted[i], limits, now)
    ensures plan.status == Pressure ==> forall i :: 0 <= i < |sorted| && Eligible(sorted[i], limits, now) ==> i < n
    ensures plan.totalAfter == disk.total - Size(sorted[..n])
  {
    hide Map, NotLater;
    forall k | 0 <= k < n ensures Eligible(sorted[k], limits, now) {
      assert !Enough(sorted, k, disk, limits, now);
      var i :| k <= i < |sorted| && Eligible(sorted[i], limits, now);
      OlderFirst(sorted, k, i, now);
    }
  }

  /** Old enough at all, and called for: by the bytes kept, by the room left, or by its age. */
  ghost predicate CalledFor(sorted: seq<Archive>, i: nat, disk: Disk, limits: Limits, now: real)
    requires i < |sorted|
  {
    var age, freed := now - sorted[i].modified, Size(sorted[..i]);
    && age >= limits.minAgeHours * 3600.0
    && (|| disk.total - freed > limits.maxBytes || disk.available + freed < limits.freeFloor
        || age >= limits.maxAgeDays * 86400.0)
  }

  /**
   The plan in figures: archives from the oldest on, by path where they are of the same time, as long
   as the next one is old enough and called for; then the disk is what their removal leaves.
   */
  lemma PlanInFigures(sorted: seq<Archive>, n: nat, disk: Disk, limits: Limits, now: real, plan: Plan)
    requires Sorted(NotLater, sorted) && PlanFor(sorted, n, disk, limits, now, plan)
    ensures forall i, j :: 0 <= i < j < |sorted| ==>
      || sorted[i].modified < sorted[j].modified
      || (sorted[i].modified == sorted[j].modified
          && (sorted[i].path == sorted[j].path || Text.Before(sorted[i].path, sorted[j].path)))
    ensures forall i :: 0 <= i < n ==> CalledFor(sorted, i, disk, limits, now)
    ensures n < |sorted| ==> !CalledFor(sorted, n, disk, limits, now)
    ensures |plan.planned| == n && forall i :: 0 <= i < n ==> plan.planned[i] == sorted[i].path
    ensures plan.totalAfter == disk.total - Size(sorted[..n])
    ensures plan.availableAfter == disk.available + Size(sorted[..n])
    ensures plan.status == Pressure <==> plan.totalAfter > limits.maxBytes || plan.availableAfter < limits.freeFloor
  {
    forall i | 0 <= i < n ensures CalledFor(sorted, i, disk, limits, now) {
      assert !Enough(sorted, i, disk, limits, now);
      NotCalledFor(sorted, i, disk, limits, now);
    }
    if n < |sorted| {
      NotCalledFor(sorted, n, disk, limits, now);
    }
  }

  /** Among archives in order the next one is called for unless what is gone is enough. */
  lemma NotCalledFor(sorted: seq<Archive>, i: nat, disk: Disk, limits: Limits, now: real)
    requires Sorted(NotLater, sorted) && i < |sorted|
    ensures CalledFor(sorted, i, disk, limits, now) <==> !Enough(sorted, i, disk, limits, now)
  {
    forall j | i <= j < |sorted| ensures Age(sorted[i], now) >= Age(sorted[j], now) {
      OlderFirst(sorted, i, j, now);
    }
    hide Size, NotLater;
  }

  lemma OlderFirst(sorted: seq<Archive>, i: nat, j: nat, now: real)
    requires Sorted(NotLater, sorted) && i <= j < |sorted|
    ensures Age(sorted[i], now) >= Age(sorted[j], now)
  {
    assert i < j ==> NotLater(sorted[i], sorted[j]);
  }

  /** The plan does not depend on the order in which the directories list the archives. */
  lemma PlanIgnoresListingOrder(
    a: seq<Archive>, b: seq<Archive>, n: nat, m: nat,
    disk: Disk, limits: Limits, now: real, p: Plan, q: Plan)
    requires SameSamples(a, b)
    requires PlanFor(Sort(NotLater, a), n, disk, limits, now, p)
    requires PlanFor(Sort(NotLater, b), m, disk, limits, now, q)
    ensures n == m && p == q
  {
    ArchivesAreOrdered();
    SortIgnoresOrder(NotLater, a, b);
    hide Sort, Enough, Map, Size;
    assert !(n < m) && !(m < n);
  }

  /** Once the planned archives are gone, planning again finds nothing to do. */
  lemma PlanningAgainPlansNothing(sorted: seq<Archive>, n: nat, disk: Disk, limits: Limits, now: real)
    requires Shortest(sorted, n, disk, limits, now)
    ensures Shortest(sorted[n..], 0, After(disk, sorted[..n]), limits, now)
  {
    var rest, left := sorted[n..], After(disk, sorted[..n]);
    NothingRemoved(rest, left);
    assert Enough(rest, 0, left, limits, now);
  }
}
