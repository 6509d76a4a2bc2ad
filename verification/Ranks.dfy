/** Sorting, counting and mapping of samples, and their independence from the order of the samples. */
module Ranks {
  import opened Machine

  const PPM := 1_000_000

  /** The index of a rank given in parts per million: rounded down, the last sample at most. */
  function RankIndex(n: nat, ppm: nat): (i: nat)
    requires n > 0 && ppm <= PPM
    ensures i < n
  {
    Scale(ppm, PPM, n - 1);
    QuotientWithin(ppm * (n - 1), PPM, 0, n - 1);
    ppm * (n - 1) / PPM
  }

  /** The index is the rank rounded down: so many millionths of the steps from the first sample to the last. */
  lemma RankIndexIsExact(n: nat, ppm: nat)
    requires n > 0 && ppm <= PPM
    ensures RankIndex(n, ppm) * 1_000_000 <= ppm * (n - 1) < RankIndex(n, ppm) * 1_000_000 + 1_000_000
  {
    Scale(0, ppm, n - 1);
    var q := Quotient(ppm * (n - 1), 1_000_000);
  }

  lemma RankIndexGrows(n: nat, low: nat, high: nat)
    requires n > 0 && low <= high <= PPM
    ensures RankIndex(n, low) <= RankIndex(n, high)
  {
    Scale(low, high, n - 1);
    QuotientGrows(low * (n - 1), high * (n - 1), PPM);
  }

  ghost predicate TotalOrder<T(!new)>(le: (T, T) -> bool)
  {
    && (forall a, b :: le(a, b) || le(b, a))
    && (forall a, b :: le(a, b) && le(b, a) ==> a == b)
    && (forall a, b, c :: le(a, b) && le(b, c) ==> le(a, c))
  }

  ghost predicate Sorted<T>(le: (T, T) -> bool, s: seq<T>)
  {
    forall i, j :: 0 <= i < j < |s| ==> le(s[i], s[j])
  }

  ghost predicate SameSamples<T>(a: seq<T>, b: seq<T>)
  {
    multiset(a) == multiset(b)
  }

  function Insert<T>(le: (T, T) -> bool, x: T, s: seq<T>): (r: seq<T>)
    ensures |r| == |s| + 1
  {
    if s == [] || le(x, s[0]) then [x] + s else [s[0]] + Insert(le, x, s[1..])
  }

  function Sort<T>(le: (T, T) -> bool, s: seq<T>): (r: seq<T>)
    ensures |r| == |s|
  {
    if s == [] then [] else Insert(le, s[0], Sort(le, s[1..]))
  }

  lemma {:induction false} InsertKeeps<T>(le: (T, T) -> bool, x: T, s: seq<T>)
    ensures multiset(Insert(le, x, s)) == multiset(s) + multiset{x}
  {
    if s != [] && !le(x, s[0]) {
      InsertKeeps(le, x, s[1..]);
      assert s == [s[0]] + s[1..];
    }
  }

  lemma {:induction false} InsertSorts<T(!new)>(le: (T, T) -> bool, x: T, s: seq<T>)
    requires TotalOrder(le) && Sorted(le, s)
    ensures Sorted(le, Insert(le, x, s))
  {
    if s == [] {
    } else if le(x, s[0]) {
      var r := [x] + s;
      forall i, j | 0 <= i < j < |r| ensures le(r[i], r[j]) {
        if i == 0 && j > 1 { assert le(s[0], s[j - 1]); }
      }
    } else {
      var rest := Insert(le, x, s[1..]);
      InsertSorts(le, x, s[1..]);
      InsertKeeps(le, x, s[1..]);
      forall k | 0 <= k < |rest| ensures le(s[0], rest[k]) {
        assert rest[k] in multiset(rest);
        if rest[k] != x {
          assert rest[k] in s[1..];
          var i :| 0 <= i < |s[1..]| && s[1..][i] == rest[k];
          assert le(s[0], s[i + 1]);
        }
      }
    }
  }

  lemma {:induction false} SortKeeps<T>(le: (T, T) -> bool, s: seq<T>)
    ensures SameSamples(Sort(le, s), s)
  {
    if s != [] {
      SortKeeps(le, s[1..]);
      InsertKeeps(le, s[0], Sort(le, s[1..]));
      assert s == [s[0]] + s[1..];
    }
  }

  lemma {:induction false} SortSorts<T(!new)>(le: (T, T) -> bool, s: seq<T>)
    requires TotalOrder(le)
    ensures Sorted(le, Sort(le, s))
  {
    if s != [] {
      SortSorts(le, s[1..]);
      InsertSorts(le, s[0], Sort(le, s[1..]));
    }
  }

  function Drop<T>(s: seq<T>, i: nat): seq<T>
    requires i < |s|
  {
    s[..i] + s[i + 1..]
  }

  lemma TakeOut<T>(s: seq<T>, i: nat)
    requires i < |s|
    ensures multiset(s) == multiset(Drop(s, i)) + multiset{s[i]}
  {
    assert s == s[..i] + [s[i]] + s[i + 1..];
  }

  lemma SameAfterDrop<T>(a: seq<T>, b: seq<T>, i: nat, j: nat)
    requires SameSamples(a, b) && i < |a| && j < |b| && a[i] == b[j]
    ensures SameSamples(Drop(a, i), Drop(b, j))
  {
    TakeOut(a, i);
    TakeOut(b, j);
    assert multiset(Drop(a, i)) == multiset(a) - multiset{a[i]};
    assert multiset(Drop(b, j)) == multiset(b) - multiset{b[j]};
  }

  /** Equal samples have only one sorted arrangement. */
  lemma {:induction false} SortedIsUnique<T(!new)>(le: (T, T) -> bool, s: seq<T>, t: seq<T>)
    requires TotalOrder(le) && Sorted(le, s) && Sorted(le, t) && SameSamples(s, t)
    ensures s == t
    decreases |s|
  {
    SameLength(s, t);
    if s != [] {
      HeadsAgree(le, s, t);
      SameAfterDrop(s, t, 0, 0);
      assert Drop(s, 0) == s[1..] && Drop(t, 0) == t[1..];
      TailSorted(le, s);
      TailSorted(le, t);
      hide TotalOrder, SameSamples, Drop, Sorted;
      SortedIsUnique(le, s[1..], t[1..]);
    }
  }

  lemma TailSorted<T>(le: (T, T) -> bool, s: seq<T>)
    requires s != [] && Sorted(le, s)
    ensures Sorted(le, s[1..])
  {
  }

  lemma SameLength<T>(s: seq<T>, t: seq<T>)
    requires SameSamples(s, t)
    ensures |s| == |t|
  {
    assert |s| == |multiset(s)| == |multiset(t)| == |t|;
  }

  lemma HeadsAgree<T(!new)>(le: (T, T) -> bool, s: seq<T>, t: seq<T>)
    requires TotalOrder(le) && Sorted(le, s) && Sorted(le, t) && SameSamples(s, t)
    requires s != [] && t != []
    ensures s[0] == t[0]
  {
    assert s[0] in multiset(t) && t[0] in multiset(s);
    var i :| 0 <= i < |t| && t[i] == s[0];
    var j :| 0 <= j < |s| && s[j] == t[0];
  }

  /** Sorting forgets the order in which the samples came. */
  lemma SortIgnoresOrder<T(!new)>(le: (T, T) -> bool, a: seq<T>, b: seq<T>)
    requires TotalOrder(le) && SameSamples(a, b)
    ensures Sort(le, a) == Sort(le, b)
  {
    SortKeeps(le, a);
    SortKeeps(le, b);
    SortSorts(le, a);
    SortSorts(le, b);
    SortedIsUnique(le, Sort(le, a), Sort(le, b));
  }

  // ---------------------------------------------------------------- filters, maps, counts

  function Filter<T>(p: T -> bool, s: seq<T>): seq<T>
  {
    if s == [] then [] else (if p(s[0]) then [s[0]] else []) + Filter(p, s[1..])
  }

  function Map<T, U>(f: T -> U, s: seq<T>): (r: seq<U>)
    ensures |r| == |s| && forall i :: 0 <= i < |s| ==> r[i] == f(s[i])
  {
    seq(|s|, i requires 0 <= i < |s| => f(s[i]))
  }

  function Count<T>(p: T -> bool, s: seq<T>): nat
  {
    |Filter(p, s)|
  }

  lemma {:induction false} FilterKeeps<T>(p: T -> bool, s: seq<T>, x: T)
    ensures multiset(Filter(p, s))[x] == if p(x) then multiset(s)[x] else 0
  {
    if s != [] {
      FilterKeeps(p, s[1..], x);
      assert s == [s[0]] + s[1..];
    }
  }

  lemma FilterIgnoresOrder<T(!new)>(p: T -> bool, a: seq<T>, b: seq<T>)
    requires SameSamples(a, b)
    ensures SameSamples(Filter(p, a), Filter(p, b)) && Count(p, a) == Count(p, b)
  {
    forall x ensures multiset(Filter(p, a))[x] == multiset(Filter(p, b))[x] {
      FilterKeeps(p, a, x);
      FilterKeeps(p, b, x);
    }
    assert multiset(Filter(p, a)) == multiset(Filter(p, b));
    assert |Filter(p, a)| == |multiset(Filter(p, a))| && |Filter(p, b)| == |multiset(Filter(p, b))|;
  }

  lemma MapTakesOut<T, U>(f: T -> U, s: seq<T>, i: nat)
    requires i < |s|
    ensures multiset(Map(f, s)) == multiset(Map(f, Drop(s, i))) + multiset{f(s[i])}
  {
    TakeOut(Map(f, s), i);
    assert Drop(Map(f, s), i) == Map(f, Drop(s, i));
  }

  lemma {:induction false} MapIgnoresOrder<T, U>(f: T -> U, a: seq<T>, b: seq<T>)
    requires SameSamples(a, b)
    ensures SameSamples(Map(f, a), Map(f, b))
    decreases |a|
  {
    if a == [] {
      assert |multiset(b)| == 0;
    } else {
      assert a[0] in multiset(b);
      var i :| 0 <= i < |b| && b[i] == a[0];
      SameAfterDrop(a, b, 0, i);
      hide Drop, Map;
      DropShortens(a, 0);
      MapIgnoresOrder(f, Drop(a, 0), Drop(b, i));
      MapTakesOut(f, a, 0);
      MapTakesOut(f, b, i);
    }
  }

  lemma DropShortens<T>(s: seq<T>, i: nat)
    requires i < |s|
    ensures |Drop(s, i)| == |s| - 1
  {
  }

  /** In a sorted list everything up to a position satisfies what that position and all before it do. */
  lemma {:induction false} CountAtLeast<T>(p: T -> bool, s: seq<T>, from: nat, to: nat)
    requires from <= to <= |s|
    requires forall i :: from <= i < to ==> p(s[i])
    ensures Count(p, s) >= to - from
    decreases s
  {
    if s != [] && to > 0 {
      CountAtLeast(p, s[1..], if from == 0 then 0 else from - 1, to - 1);
    }
  }

  /** No sample is counted twice by two tests that exclude each other. */
  lemma {:induction false} DisjointCounts<T(!new)>(p: T -> bool, q: T -> bool, s: seq<T>)
    requires forall x :: !(p(x) && q(x))
    ensures Count(p, s) + Count(q, s) <= |s|
  {
    if s != [] {
      DisjointCounts(p, q, s[1..]);
    }
  }

  lemma {:induction false} CountAll<T>(p: T -> bool, s: seq<T>)
    requires forall i :: 0 <= i < |s| ==> p(s[i])
    ensures Filter(p, s) == s
  {
    if s != [] {
      CountAll(p, s[1..]);
    }
  }

  lemma {:induction false} FilterAppends<T>(p: T -> bool, s: seq<T>, x: T)
    ensures Filter(p, s + [x]) == Filter(p, s) + if p(x) then [x] else []
  {
    if s == [] {
      assert s + [x] == [x] && Filter(p, [x][1..]) == [];
    } else {
      FilterAppends(p, s[1..], x);
      assert (s + [x])[1..] == s[1..] + [x];
    }
  }

  lemma {:induction false} FilterNone<T(!new)>(p: T -> bool, s: seq<T>)
    requires forall x :: x in s ==> !p(x)
    ensures Filter(p, s) == []
  {
    if s != [] {
      assert s == [s[0]] + s[1..];
      FilterNone(p, s[1..]);
    }
  }

  lemma {:induction false} FilterMembers<T(!new)>(p: T -> bool, s: seq<T>)
    ensures forall x :: x in Filter(p, s) <==> x in s && p(x)
    ensures |Filter(p, s)| <= |s|
  {
    if s != [] {
      assert s == [s[0]] + s[1..];
      FilterMembers(p, s[1..]);
    }
  }
}
