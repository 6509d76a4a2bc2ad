/**
 Evidence points waiting for their horizons. The accumulator itself keeps bounded queues and
 running sums; the ledger here is the complete history of what it was ever given and ever
 returned, against which its books must balance.
 */
module Evidence {
  import opened Machine
  import opened SaturatedMeans
  import opened EvidenceRecords

  type Queues = map<string, seq<Point>>

  // ---------------------------------------------------------------- the ledger

  /** A record of the point with that number, counted from the first, and the prices it was written at. */
  datatype Emission = Emission(serial: nat, tick: Tick, record: EvidenceRecord)

  /**
   `born` lists every point ever queued; `serials` says which of them stand in the queues;
   `evicted` keeps, for each point dropped by the cap, the horizons it had served by then.
   */
  datatype Ledger = Ledger(
    born: seq<Point>,
    serials: map<string, seq<nat>>,
    emitted: seq<Emission>,
    evicted: map<nat, seq<U64>>)

  ghost predicate Emitted(es: seq<Emission>, n: nat, h: U64)
  {
    exists i :: 0 <= i < |es| && es[i].serial == n && es[i].record.horizonMs == h
  }

  ghost predicate Distinct<T>(s: seq<T>)
  {
    forall i, j :: 0 <= i < j < |s| ==> s[i] != s[j]
  }

  /** A queued point is the one that was born, and its done list is exactly what was emitted for it. */
  ghost predicate PointOk(hs: seq<U64>, p: Point, l: Ledger, n: nat)
  {
    && n < |l.born| && n !in l.evicted
    && p.(done := []) == l.born[n]
    && Distinct(p.done) && (forall h :: h in p.done ==> h in hs)
    && forall h :: h in p.done <==> Emitted(l.emitted, n, h)
  }

  ghost predicate QueueOk(hs: seq<U64>, q: seq<Point>, l: Ledger, ns: seq<nat>)
  {
    && |q| == |ns| && Distinct(ns)
    && forall i :: 0 <= i < |q| ==> PointOk(hs, q[i], l, ns[i])
  }

  ghost predicate Standing(l: Ledger, n: nat)
  {
    exists s :: s in l.serials && n in l.serials[s]
  }

  /** Each emission is due, sound, for a real point and horizon, and never repeated. */
  ghost predicate EmissionsOk(hs: seq<U64>, l: Ledger)
  {
    && (forall i :: 0 <= i < |l.emitted| ==>
          var e := l.emitted[i];
          && e.serial < |l.born| && e.record.horizonMs in hs
          && States(l.born[e.serial], e.tick, e.record)
          && e.tick.now >= Min(l.born[e.serial].eventTimeMs + e.record.horizonMs, U64_MAX))
    && forall i, j :: 0 <= i < j < |l.emitted| ==>
         l.emitted[i].serial != l.emitted[j].serial
         || l.emitted[i].record.horizonMs != l.emitted[j].record.horizonMs
  }

  ghost predicate EvictionsOk(l: Ledger)
  {
    forall n :: n in l.evicted ==>
      n < |l.born| && forall h :: h in l.evicted[n] <==> Emitted(l.emitted, n, h)
  }

  /** No point stands in two queues. */
  ghost predicate Apart(l: Ledger)
  {
    forall s, t, n :: s in l.serials && t in l.serials && s != t && n in l.serials[s] ==> n !in l.serials[t]
  }

  /** Every point is still queued, was evicted, or has served every horizon. */
  ghost predicate Accounted(hs: seq<U64>, l: Ledger)
  {
    forall n, h :: 0 <= n < |l.born| && h in hs ==>
      Emitted(l.emitted, n, h) || n in l.evicted || Standing(l, n)
  }

  ghost predicate Balanced(hs: seq<U64>, q: Queues, l: Ledger)
  {
    && Distinct(hs)
    && q.Keys == l.serials.Keys
    && (forall s :: s in q ==> QueueOk(hs, q[s], l, l.serials[s]))
    && Apart(l) && EmissionsOk(hs, l) && EvictionsOk(l) && Accounted(hs, l)
  }

  /** Before the first observation. */
  lemma NothingIsBalanced(hs: seq<U64>, l: Ledger)
    requires Distinct(hs) && l == Ledger([], map[], [], map[])
    ensures Balanced(hs, map[], l)
  {
  }

  lemma QueuesMatch(hs: seq<U64>, q: Queues, l: Ledger)
    requires Balanced(hs, q, l)
    ensures q.Keys == l.serials.Keys && forall s :: s in q ==> |q[s]| == |l.serials[s]|
  {
    forall s | s in q ensures |q[s]| == |l.serials[s]| { assert QueueOk(hs, q[s], l, l.serials[s]); }
  }

  // ---------------------------------------------------------------- the four moves

  function QueueOf(q: Queues, s: string): seq<Point> { if s in q then q[s] else [] }

  function SerialsOf(l: Ledger, s: string): seq<nat> { if s in l.serials then l.serials[s] else [] }

  function Push(l: Ledger, s: string, p: Point): Ledger
  {
    l.(born := l.born + [p], serials := l.serials[s := SerialsOf(l, s) + [|l.born|]])
  }

  lemma PushBalances(hs: seq<U64>, q: Queues, l: Ledger, s: string, p: Point)
    requires Balanced(hs, q, l) && p.done == []
    ensures Balanced(hs, q[s := QueueOf(q, s) + [p]], Push(l, s, p))
  {
    var m := Push(l, s, p);
    var grown := q[s := QueueOf(q, s) + [p]];
    forall t | t in grown ensures QueueOk(hs, grown[t], m, m.serials[t]) {
      PushKeepsQueue(hs, q, l, s, p, t);
    }
    SerialsAreBorn(hs, q, l);
    PushKeepsAccount(hs, l, s, p);
    hide QueueOk, Accounted, PointOk;
  }

  lemma SerialsAreBorn(hs: seq<U64>, q: Queues, l: Ledger)
    requires Balanced(hs, q, l)
    ensures forall t, x :: t in l.serials && x in l.serials[t] ==> x < |l.born|
  {
    forall t, x | t in l.serials && x in l.serials[t] ensures x < |l.born| {
      var i :| 0 <= i < |l.serials[t]| && l.serials[t][i] == x;
      assert QueueOk(hs, q[t], l, l.serials[t]) && PointOk(hs, q[t][i], l, x);
    }
  }

  lemma PointIsKept(hs: seq<U64>, x: Point, l: Ledger, s: string, p: Point, n: nat)
    requires PointOk(hs, x, l, n)
    ensures PointOk(hs, x, Push(l, s, p), n)
  {
  }

  lemma NewPointIsOk(hs: seq<U64>, l: Ledger, s: string, p: Point)
    requires EmissionsOk(hs, l) && EvictionsOk(l) && p.done == []
    ensures PointOk(hs, p, Push(l, s, p), |l.born|)
  {
    assert forall h :: !Emitted(l.emitted, |l.born|, h);
  }

  /** What a balanced account says about one queue before a push. */
  lemma BeforePush(hs: seq<U64>, q: Queues, l: Ledger, s: string, p: Point, t: string)
    requires Balanced(hs, q, l) && p.done == []
    ensures t in q <==> t in l.serials
    ensures t in q ==> |q[t]| == |l.serials[t]| && Distinct(l.serials[t])
    ensures t in q ==> forall i :: 0 <= i < |q[t]| ==> PointOk(hs, q[t][i], Push(l, s, p), l.serials[t][i])
    ensures PointOk(hs, p, Push(l, s, p), |l.born|)
    ensures t in l.serials ==> |l.born| !in l.serials[t]
  {
    SerialsAreBorn(hs, q, l);
    NewPointIsOk(hs, l, s, p);
    if t in q {
      assert QueueOk(hs, q[t], l, l.serials[t]);
      forall i | 0 <= i < |q[t]| ensures PointOk(hs, q[t][i], Push(l, s, p), l.serials[t][i]) {
        PointIsKept(hs, q[t][i], l, s, p, l.serials[t][i]);
      }
    }
  }

  lemma PushKeepsQueue(hs: seq<U64>, q: Queues, l: Ledger, s: string, p: Point, t: string)
    requires Balanced(hs, q, l) && p.done == [] && (t in q || t == s)
    ensures QueueOk(hs, q[s := QueueOf(q, s) + [p]][t], Push(l, s, p), Push(l, s, p).serials[t])
  {
    hide Balanced, PointOk;
    BeforePush(hs, q, l, s, p, t);
    if t == s {
      var ns := SerialsOf(l, s);
      forall i | 0 <= i < |ns| ensures ns[i] != |l.born| {
        assert ns[i] in ns;
      }
    }
  }

  lemma PushKeepsAccount(hs: seq<U64>, l: Ledger, s: string, p: Point)
    requires Accounted(hs, l)
    ensures Accounted(hs, Push(l, s, p))
  {
    var n, m := |l.born|, Push(l, s, p);
    forall x, h | 0 <= x < |m.born| && h in hs
      ensures Emitted(m.emitted, x, h) || x in m.evicted || Standing(m, x)
    {
      if x == n {
        assert n in m.serials[s];
      } else if Standing(l, x) {
        var t :| t in l.serials && x in l.serials[t];
        assert x in m.serials[t];
      }
    }
  }

  /** Removing the front point of a queue, filed as evicted or not. */
  function Shift(l: Ledger, s: string, done: seq<U64>, evict: bool): Ledger
    requires s in l.serials && l.serials[s] != []
  {
    l.(serials := l.serials[s := l.serials[s][1..]],
       evicted := if evict then l.evicted[l.serials[s][0] := done] else l.evicted)
  }

  /** The front may leave if the cap pushes it out, or if it has served every horizon. */
  lemma ShiftBalances(hs: seq<U64>, q: Queues, l: Ledger, s: string, evict: bool)
    requires Balanced(hs, q, l) && s in q && q[s] != []
    ensures s in l.serials && l.serials[s] != []
    requires evict || forall h :: h in hs ==> h in q[s][0].done
    ensures Balanced(hs, q[s := q[s][1..]], Shift(l, s, q[s][0].done, evict))
  {
    var m := Shift(l, s, q[s][0].done, evict);
    var shrunk := q[s := q[s][1..]];
    assert QueueOk(hs, q[s], l, l.serials[s]) && PointOk(hs, q[s][0], l, l.serials[s][0]);
    forall t | t in shrunk ensures QueueOk(hs, shrunk[t], m, m.serials[t]) {
      ShiftKeepsQueue(hs, q, l, s, evict, t);
    }
    ShiftKeepsAccount(hs, l, s, q[s][0].done, evict);
    hide QueueOk, PointOk, Accounted;
  }

  lemma ShiftKeepsQueue(hs: seq<U64>, q: Queues, l: Ledger, s: string, evict: bool, t: string)
    requires Balanced(hs, q, l) && s in q && q[s] != [] && s in l.serials && l.serials[s] != [] && t in q
    ensures var m := Shift(l, s, q[s][0].done, evict);
      QueueOk(hs, q[s := q[s][1..]][t], m, m.serials[t])
  {
    var n, m := l.serials[s][0], Shift(l, s, q[s][0].done, evict);
    var shrunk := q[s := q[s][1..]][t];
    assert QueueOk(hs, q[t], l, l.serials[t]);
    assert Apart(l) && n in l.serials[s];
    hide Balanced, Apart;
    forall i | 0 <= i < |shrunk| ensures PointOk(hs, shrunk[i], m, m.serials[t][i]) {
      if t == s {
        assert PointOk(hs, q[s][i + 1], l, l.serials[s][i + 1]);
      } else {
        assert PointOk(hs, q[t][i], l, l.serials[t][i]);
        assert m.serials[t][i] in l.serials[t];
        StandsElsewhere(l, s, t, n);
      }
    }
  }

  lemma StandsElsewhere(l: Ledger, s: string, t: string, n: nat)
    requires Apart(l) && s in l.serials && t in l.serials && s != t && n in l.serials[s]
    ensures n !in l.serials[t]
  {
  }

  lemma ShiftKeepsAccount(hs: seq<U64>, l: Ledger, s: string, done: seq<U64>, evict: bool)
    requires Accounted(hs, l) && s in l.serials && l.serials[s] != []
    requires evict || forall h :: h in hs ==> Emitted(l.emitted, l.serials[s][0], h)
    ensures Accounted(hs, Shift(l, s, done, evict))
  {
    var n, m := l.serials[s][0], Shift(l, s, done, evict);
    assert l.serials[s] == [n] + m.serials[s];
    forall x, h | 0 <= x < |m.born| && h in hs
      ensures Emitted(m.emitted, x, h) || x in m.evicted || Standing(m, x)
    {
      if Standing(l, x) && x != n {
        var t :| t in l.serials && x in l.serials[t];
        assert x in m.serials[t];
      }
    }
  }

  function Emit(l: Ledger, s: string, i: nat, x: Tick, r: EvidenceRecord): Ledger
    requires s in l.serials && i < |l.serials[s]|
  {
    l.(emitted := l.emitted + [Emission(l.serials[s][i], x, r)])
  }

  lemma OneMoreEmission(es: seq<Emission>, e: Emission, n: nat, h: U64)
    ensures Emitted(es + [e], n, h) <==> Emitted(es, n, h) || (e.serial == n && e.record.horizonMs == h)
  {
    var all := es + [e];
    assert all[|es|] == e;
    assert forall i :: 0 <= i < |es| ==> all[i] == es[i];
  }

  /** Emitting a due record and noting its horizon on the point keeps the books balanced. */
  lemma EmitBalances(hs: seq<U64>, q: Queues, l: Ledger, s: string, i: nat, h: U64, x: Tick, r: EvidenceRecord)
    requires Balanced(hs, q, l) && s in q && i < |q[s]| && h in hs && h !in q[s][i].done
    requires r.horizonMs == h && States(q[s][i], x, r) && x.now >= Min(q[s][i].eventTimeMs + h, U64_MAX)
    ensures var p := q[s][i];
      Balanced(hs, q[s := q[s][i := p.(done := p.done + [h])]], Emit(l, s, i, x, r))
  {
    var p := q[s][i];
    var n := l.serials[s][i];
    var m := Emit(l, s, i, x, r);
    var e := Emission(n, x, r);
    var after := q[s := q[s][i := p.(done := p.done + [h])]];
    assert QueueOk(hs, q[s], l, l.serials[s]) && PointOk(hs, p, l, n);
    forall y: nat, k: U64 ensures Emitted(m.emitted, y, k) <==> Emitted(l.emitted, y, k) || (y == n && k == h) {
      OneMoreEmission(l.emitted, e, y, k);
    }
    forall t | t in after ensures QueueOk(hs, after[t], m, m.serials[t]) {
      assert QueueOk(hs, q[t], l, l.serials[t]);
      forall j | 0 <= j < |after[t]| ensures PointOk(hs, after[t][j], m, m.serials[t][j]) {
        assert PointOk(hs, q[t][j], l, l.serials[t][j]);
        if t != s { assert m.serials[t][j] in l.serials[t] && n in l.serials[s]; }
      }
    }
    StatesForAll(p, l.born[n], x, r);
    EmissionsStayOk(hs, l, s, i, x, r);
    assert EvictionsOk(m);
    forall y, k | 0 <= y < |m.born| && k in hs
      ensures Emitted(m.emitted, y, k) || y in m.evicted || Standing(m, y)
    {
      assert Standing(l, y) <==> Standing(m, y);
    }
  }

  lemma EmissionsStayOk(hs: seq<U64>, l: Ledger, s: string, i: nat, x: Tick, r: EvidenceRecord)
    requires EmissionsOk(hs, l) && s in l.serials && i < |l.serials[s]|
    requires var n := l.serials[s][i];
      && n < |l.born| && !Emitted(l.emitted, n, r.horizonMs) && r.horizonMs in hs
      && States(l.born[n], x, r) && x.now >= Min(l.born[n].eventTimeMs + r.horizonMs, U64_MAX)
    ensures EmissionsOk(hs, Emit(l, s, i, x, r))
  {
    hide States;
  }

  // ---------------------------------------------------------------- serving a queue

  predicate IsDue(p: Point, h: U64, x: Tick)
  {
    h !in p.done && x.now >= DueAt(p, h)
  }

  /** One point after serving the listed horizons in order, and the records that yields. */
  function ServePoint(todo: seq<U64>, p: Point, x: Tick): (Point, seq<EvidenceRecord>)
    decreases todo
  {
    if todo == [] then (p, [])
    else if !IsDue(p, todo[0], x) then ServePoint(todo[1..], p, x)
    else
      var rest := ServePoint(todo[1..], p.(done := p.done + [todo[0]]), x);
      (rest.0, [RecordAt(x, p, todo[0])] + rest.1)
  }

  function ServeQueue(hs: seq<U64>, q: seq<Point>, x: Tick): (seq<Point>, seq<EvidenceRecord>)
    decreases q
  {
    if q == [] then ([], [])
    else
      var first := ServePoint(hs, q[0], x);
      var rest := ServeQueue(hs, q[1..], x);
      ([first.0] + rest.0, first.1 + rest.1)
  }

  /** Drops the points at the front that have served as many horizons as there are. */
  function Retire(count: nat, q: seq<Point>): seq<Point>
    decreases q
  {
    if q != [] && |q[0].done| == count then Retire(count, q[1..]) else q
  }

  /** Drops the oldest entries beyond the cap. */
  function Trim<T>(cap: nat, q: seq<T>): (r: seq<T>)
    ensures |r| <= cap
  {
    if |q| > cap then q[|q| - cap..] else q
  }

  /** The serial numbers that the cap cuts off the front of a queue; none while it is not exceeded. */
  ghost function CutSerials(ns: seq<nat>, cap: nat): set<nat>
  {
    set i | 0 <= i < |ns| - cap :: ns[i]
  }

  function Tag(n: nat, x: Tick, rs: seq<EvidenceRecord>): (r: seq<Emission>)
    ensures |r| == |rs| && forall i :: 0 <= i < |r| ==> r[i] == Emission(n, x, rs[i])
  {
    seq(|rs|, i requires 0 <= i < |rs| => Emission(n, x, rs[i]))
  }

  /** The emissions of a whole queue, each tagged with the serial number of its point. */
  function QueueEmissions(hs: seq<U64>, q: seq<Point>, ns: seq<nat>, x: Tick): seq<Emission>
    requires |q| == |ns|
    decreases q
  {
    if q == [] then [] else Tag(ns[0], x, ServePoint(hs, q[0], x).1) + QueueEmissions(hs, q[1..], ns[1..], x)
  }

  ghost predicate MatchesRecords(es: seq<Emission>, rs: seq<EvidenceRecord>)
  {
    |es| == |rs| && forall i :: 0 <= i < |es| ==> es[i].record == rs[i]
  }

  lemma {:induction false} EmissionsAreTheRecords(hs: seq<U64>, q: seq<Point>, ns: seq<nat>, x: Tick)
    requires |q| == |ns|
    ensures MatchesRecords(QueueEmissions(hs, q, ns, x), ServeQueue(hs, q, x).1)
    decreases q
  {
    if q != [] {
      EmissionsAreTheRecords(hs, q[1..], ns[1..], x);
    }
  }

  /** Each emission is the record of the point it is filed under, and states it on these prices. */
  ghost predicate Sound(born: seq<Point>, es: seq<Emission>, x: Tick)
  {
    forall i :: 0 <= i < |es| ==>
      && es[i].serial < |born| && es[i].tick == x && States(born[es[i].serial], x, es[i].record)
      && es[i].record == RecordAt(x, born[es[i].serial], es[i].record.horizonMs)
  }

  lemma RecordIgnoresDone(x: Tick, p: Point, q: Point, h: U64)
    requires p.(done := []) == q.(done := [])
    ensures RecordAt(x, p, h) == RecordAt(x, q, h)
  {
    hide BasisBps, SatSubI64, WrapI64, Signum;
  }

  ghost predicate RecordsOf(x: Tick, p: Point, rs: seq<EvidenceRecord>)
  {
    forall i :: 0 <= i < |rs| ==> rs[i] == RecordAt(x, p, rs[i].horizonMs)
  }

  lemma RecordsOfNext(x: Tick, p: Point, next: Point, h: U64, rest: seq<EvidenceRecord>)
    requires p.(done := []) == next.(done := []) && RecordsOf(x, next, rest)
    ensures RecordsOf(x, p, [RecordAt(x, p, h)] + rest)
  {
    var all := [RecordAt(x, p, h)] + rest;
    assert RecordAt(x, p, h).horizonMs == h;
    hide RecordAt;
    forall i | 0 <= i < |all| ensures all[i] == RecordAt(x, p, all[i].horizonMs) {
      if i > 0 {
        assert rest[i - 1] == RecordAt(x, next, rest[i - 1].horizonMs);
        RecordIgnoresDone(x, p, next, rest[i - 1].horizonMs);
      }
    }
  }

  lemma {:induction false} PointRecordsAreSound(todo: seq<U64>, p: Point, x: Tick)
    ensures RecordsOf(x, p, ServePoint(todo, p, x).1)
    decreases todo
  {
    hide RecordAt, DueAt, RecordsOf;
    if todo == [] {
      NoRecordsOf(x, p);
    } else if IsDue(p, todo[0], x) {
      var next := p.(done := p.done + [todo[0]]);
      PointRecordsAreSound(todo[1..], next, x);
      RecordsOfNext(x, p, next, todo[0], ServePoint(todo[1..], next, x).1);
    } else {
      PointRecordsAreSound(todo[1..], p, x);
    }
  }

  lemma NoRecordsOf(x: Tick, p: Point)
    ensures RecordsOf(x, p, [])
  {
  }

  lemma TagIsSound(born: seq<Point>, n: nat, p: Point, hs: seq<U64>, x: Tick)
    requires n < |born| && p.(done := []) == born[n].(done := [])
    ensures Sound(born, Tag(n, x, ServePoint(hs, p, x).1), x)
  {
    PointRecordsAreSound(hs, p, x);
    var rs := ServePoint(hs, p, x).1;
    hide RecordAt, ServePoint;
    forall i | 0 <= i < |rs|
      ensures rs[i] == RecordAt(x, born[n], rs[i].horizonMs) && States(born[n], x, rs[i])
    {
      RecordIgnoresDone(x, p, born[n], rs[i].horizonMs);
      RecordStates(x, born[n], rs[i].horizonMs);
    }
  }

  lemma {:induction false} EmissionsAreSound(hs: seq<U64>, q: seq<Point>, l: Ledger, ns: seq<nat>, x: Tick)
    requires |q| == |ns|
    requires forall i :: 0 <= i < |q| ==> ns[i] < |l.born| && q[i].(done := []) == l.born[ns[i]].(done := [])
    ensures Sound(l.born, QueueEmissions(hs, q, ns, x), x)
    decreases q
  {
    hide RecordAt, ServePoint;
    if q != [] {
      TagIsSound(l.born, ns[0], q[0], hs, x);
      EmissionsAreSound(hs, q[1..], l, ns[1..], x);
      SoundConcatenates(l.born, Tag(ns[0], x, ServePoint(hs, q[0], x).1), QueueEmissions(hs, q[1..], ns[1..], x), x);
    }
  }

  lemma SoundConcatenates(born: seq<Point>, a: seq<Emission>, b: seq<Emission>, x: Tick)
    requires Sound(born, a, x) && Sound(born, b, x)
    ensures Sound(born, a + b, x)
  {
    hide RecordAt;
    var all := a + b;
    assert forall i :: |a| <= i < |all| ==> all[i] == b[i - |a|];
  }

  lemma ReplaceTwice(q: Queues, s: string, i: nat, a: Point, b: Point)
    requires s in q && i < |q[s]|
    ensures var q1 := q[s := q[s][i := a]];
      q1[s := q1[s][i := b]] == q[s := q[s][i := b]]
  {
    assert q[s][i := a][i := b] == q[s][i := b];
  }

  lemma DueRecord(x: Tick, p: Point, h: U64)
    requires IsDue(p, h, x)
    ensures var r := RecordAt(x, p, h);
      h !in p.done && r.horizonMs == h && States(p, x, r) && x.now >= Min(p.eventTimeMs + h, U64_MAX)
  {
    RecordStates(x, p, h);
    hide RecordAt, States;
  }

  lemma EmitThenTag(l: Ledger, s: string, i: nat, x: Tick, r: EvidenceRecord, rest: seq<EvidenceRecord>)
    requires s in l.serials && i < |l.serials[s]|
    ensures var n, m := l.serials[s][i], Emit(l, s, i, x, r);
      && m.serials == l.serials
      && m.(emitted := m.emitted + Tag(n, x, rest)) == l.(emitted := l.emitted + Tag(n, x, [r] + rest))
  {
    var n := l.serials[s][i];
    assert Tag(n, x, [r] + rest) == [Emission(n, x, r)] + Tag(n, x, rest);
  }

  lemma {:induction false} ServePointBalances(
    hs: seq<U64>, q: Queues, l: Ledger, s: string, i: nat, todo: seq<U64>, x: Tick)
    requires Balanced(hs, q, l) && s in q && i < |q[s]| && forall h :: h in todo ==> h in hs
    requires s in l.serials && i < |l.serials[s]|
    ensures var served := ServePoint(todo, q[s][i], x);
      Balanced(hs, q[s := q[s][i := served.0]], l.(emitted := l.emitted + Tag(l.serials[s][i], x, served.1)))
    decreases todo
  {
    hide Balanced, RecordAt, IsDue, Emit, DueAt;
    var p := q[s][i];
    if todo == [] {
      assert q[s][i := p] == q[s] && q[s := q[s]] == q;
      assert l.emitted + Tag(l.serials[s][i], x, []) == l.emitted;
    } else if !IsDue(p, todo[0], x) {
      ServePointBalances(hs, q, l, s, i, todo[1..], x);
    } else {
      hide Tag;
      var r := RecordAt(x, p, todo[0]);
      var p1 := p.(done := p.done + [todo[0]]);
      DueRecord(x, p, todo[0]);
      EmitBalances(hs, q, l, s, i, todo[0], x, r);
      var q1, l1 := q[s := q[s][i := p1]], Emit(l, s, i, x, r);
      var rest := ServePoint(todo[1..], p1, x);
      EmitThenTag(l, s, i, x, r, rest.1);
      ServePointBalances(hs, q1, l1, s, i, todo[1..], x);
      ReplaceTwice(q, s, i, p1, rest.0);
    }
  }

  lemma {:induction false} ServeQueueBalances(hs: seq<U64>, q: Queues, l: Ledger, s: string, i: nat, x: Tick)
    requires Balanced(hs, q, l) && s in q && i <= |q[s]|
    ensures s in l.serials && |l.serials[s]| == |q[s]|
    ensures Balanced(hs, q[s := q[s][..i] + ServeQueue(hs, q[s][i..], x).0],
                     l.(emitted := l.emitted + QueueEmissions(hs, q[s][i..], l.serials[s][i..], x)))
    decreases |q[s]| - i
  {
    hide Balanced, QueueOk, ServePoint;
    QueuesMatch(hs, q, l);
    if i == |q[s]| {
      assert q[s][..i] + [] == q[s] && q[s := q[s]] == q;
      assert l.emitted + [] == l.emitted;
    } else {
      hide ServeQueue, QueueEmissions, Tag;
      var first := ServePoint(hs, q[s][i], x);
      var n := l.serials[s][i];
      ServePointBalances(hs, q, l, s, i, hs, x);
      var q1 := q[s := q[s][i := first.0]];
      var l1 := l.(emitted := l.emitted + Tag(n, x, first.1));
      ServeQueueBalances(hs, q1, l1, s, i + 1, x);
      ServeOneMore(hs, q, l, s, i, x);
    }
  }

  /** Serving the point at a position and then the rest is serving from that position on. */
  lemma ServeOneMore(hs: seq<U64>, q: Queues, l: Ledger, s: string, i: nat, x: Tick)
    requires s in q && s in l.serials && |l.serials[s]| == |q[s]| && i < |q[s]|
    ensures var first := ServePoint(hs, q[s][i], x);
      var q1 := q[s := q[s][i := first.0]];
      var l1 := l.(emitted := l.emitted + Tag(l.serials[s][i], x, first.1));
      && q1[s := q1[s][..i + 1] + ServeQueue(hs, q1[s][i + 1..], x).0]
           == q[s := q[s][..i] + ServeQueue(hs, q[s][i..], x).0]
      && l1.(emitted := l1.emitted + QueueEmissions(hs, q1[s][i + 1..], l1.serials[s][i + 1..], x))
           == l.(emitted := l.emitted + QueueEmissions(hs, q[s][i..], l.serials[s][i..], x))
  {
    var first := ServePoint(hs, q[s][i], x);
    var n := l.serials[s][i];
    var q1 := q[s := q[s][i := first.0]];
    var l1 := l.(emitted := l.emitted + Tag(n, x, first.1));
    assert q[s][i..][1..] == q[s][i + 1..] == q1[s][i + 1..];
    assert l.serials[s][i..][1..] == l.serials[s][i + 1..];
    var rest := ServeQueue(hs, q[s][i + 1..], x).0;
    assert q1[s][..i + 1] + rest == q[s][..i] + ([first.0] + rest);
    var es := QueueEmissions(hs, q[s][i + 1..], l.serials[s][i + 1..], x);
    assert l1.emitted + es == l.emitted + (Tag(n, x, first.1) + es);
  }

  /** The ledger after a queue has kept only its last entries, with nothing filed as evicted. */
  function Keep(l: Ledger, s: string, left: nat): Ledger
    requires s in l.serials
  {
    l.(serials := l.serials[s := Trim(left, l.serials[s])])
  }

  lemma KeepKeeps(l: Ledger, s: string, left: nat)
    requires s in l.serials
    ensures var m := Keep(l, s, left); m.born == l.born && m.emitted == l.emitted && m.evicted == l.evicted
  {
  }

  /** Retirement removes only points that have served every horizon, and evicts none. */
  lemma {:induction false} RetireBalances(hs: seq<U64>, q: Queues, l: Ledger, s: string)
    requires Balanced(hs, q, l) && s in q
    ensures s in l.serials && |l.serials[s]| == |q[s]|
    ensures Balanced(hs, q[s := Retire(|hs|, q[s])], Keep(l, s, |Retire(|hs|, q[s])|))
    decreases |q[s]|
  {
    hide Balanced, Keep, Shift;
    QueuesMatch(hs, q, l);
    if q[s] != [] && |q[s][0].done| == |hs| {
      FrontIsComplete(hs, q, l, s);
      ShiftBalances(hs, q, l, s, false);
      RetireShortens(|hs|, q[s][1..]);
      var l1, q1 := Shift(l, s, q[s][0].done, false), q[s := q[s][1..]];
      KeepAfterShift(l, s, |Retire(|hs|, q[s])|, q[s][0].done);
      ShiftShortens(l, s, q[s][0].done);
      RetireBalances(hs, q1, l1, s);
      assert q1[s := Retire(|hs|, q1[s])] == q[s := Retire(|hs|, q[s])];
    } else {
      assert q[s := q[s]] == q;
      KeepAll(l, s);
    }
  }

  lemma KeepAll(l: Ledger, s: string)
    requires s in l.serials
    ensures Keep(l, s, |l.serials[s]|) == l
  {
    assert l.serials[s := l.serials[s]] == l.serials;
  }

  lemma ShiftShortens(l: Ledger, s: string, done: seq<U64>)
    requires s in l.serials && l.serials[s] != []
    ensures s in Shift(l, s, done, false).serials
    ensures |Shift(l, s, done, false).serials[s]| == |l.serials[s]| - 1
  {
  }

  lemma KeepAfterShift(l: Ledger, s: string, left: nat, done: seq<U64>)
    requires s in l.serials && |l.serials[s]| > left
    ensures Keep(Shift(l, s, done, false), s, left) == Keep(l, s, left)
  {
    TrimTail(left, l.serials[s]);
  }

  lemma FrontIsComplete(hs: seq<U64>, q: Queues, l: Ledger, s: string)
    requires Balanced(hs, q, l) && s in q && q[s] != [] && |q[s][0].done| == |hs|
    ensures forall h :: h in hs ==> h in q[s][0].done
  {
    assert QueueOk(hs, q[s], l, l.serials[s]) && PointOk(hs, q[s][0], l, l.serials[s][0]);
    FullListHasAll(q[s][0].done, hs);
  }

  /** What a flush of one symbol makes of the queues and the ledger. */
  ghost function FlushedLedger(hs: seq<U64>, q: Queues, l: Ledger, x: Tick): Ledger
    requires x.symbol in q && x.symbol in l.serials && |q[x.symbol]| == |l.serials[x.symbol]|
  {
    var es := QueueEmissions(hs, q[x.symbol], l.serials[x.symbol], x);
    Keep(l.(emitted := l.emitted + es), x.symbol, |Retire(|hs|, ServeQueue(hs, q[x.symbol], x).0)|)
  }

  /**
   A whole flush of one symbol keeps the books balanced, emits exactly what it returns and
   evicts nothing.
   */
  lemma FlushBalances(hs: seq<U64>, q: Queues, l: Ledger, x: Tick) returns (m: Ledger, es: seq<Emission>)
    requires Balanced(hs, q, l) && x.symbol in q
    ensures Balanced(hs, q[x.symbol := Retire(|hs|, ServeQueue(hs, q[x.symbol], x).0)], m)
    ensures x.symbol in l.serials && |q[x.symbol]| == |l.serials[x.symbol]|
    ensures m == FlushedLedger(hs, q, l, x)
    ensures m.born == l.born && m.emitted == l.emitted + es && m.evicted == l.evicted
    ensures MatchesRecords(es, ServeQueue(hs, q[x.symbol], x).1) && Sound(l.born, es, x)
  {
    hide Balanced, QueueOk, RecordAt, ServePoint, Sound, MatchesRecords, Keep;
    var s := x.symbol;
    QueuesMatch(hs, q, l);
    QueuedPointsAreBorn(hs, q, l, s);
    var ns := l.serials[s];
    ServeQueueBalances(hs, q, l, s, 0, x);
    assert q[s][0..] == q[s] && ns[0..] == ns && q[s][..0] == [];
    es := QueueEmissions(hs, q[s], ns, x);
    EmissionsAreTheRecords(hs, q[s], ns, x);
    EmissionsAreSound(hs, q[s], l, ns, x);
    var served := q[s := ServeQueue(hs, q[s], x).0];
    assert [] + ServeQueue(hs, q[s], x).0 == ServeQueue(hs, q[s], x).0;
    RetireBalances(hs, served, l.(emitted := l.emitted + es), s);
    m := FlushedLedger(hs, q, l, x);
    KeepKeeps(l.(emitted := l.emitted + es), s, |Retire(|hs|, served[s])|);
    assert served[s := Retire(|hs|, served[s])] == q[s := Retire(|hs|, served[s])];
  }

  lemma QueuedPointsAreBorn(hs: seq<U64>, q: Queues, l: Ledger, s: string)
    requires Balanced(hs, q, l) && s in q
    ensures s in l.serials && |l.serials[s]| == |q[s]|
    ensures forall i :: 0 <= i < |q[s]| ==>
      l.serials[s][i] < |l.born| && q[s][i].(done := []) == l.born[l.serials[s][i]].(done := [])
  {
    assert QueueOk(hs, q[s], l, l.serials[s]);
    forall i | 0 <= i < |q[s]|
      ensures l.serials[s][i] < |l.born| && q[s][i].(done := []) == l.born[l.serials[s][i]].(done := [])
    {
      assert PointOk(hs, q[s][i], l, l.serials[s][i]);
    }
  }

  lemma {:induction false} FlushShrinks(hs: seq<U64>, q: seq<Point>, x: Tick)
    ensures |Retire(|hs|, ServeQueue(hs, q, x).0)| <= |q|
  {
    ServeKeepsLength(hs, q, x);
    RetireShortens(|hs|, ServeQueue(hs, q, x).0);
  }

  lemma {:induction false} ServeKeepsLength(hs: seq<U64>, q: seq<Point>, x: Tick)
    ensures |ServeQueue(hs, q, x).0| == |q|
    decreases q
  {
    if q != [] {
      ServeKeepsLength(hs, q[1..], x);
    }
  }

  lemma {:induction false} RetireShortens(count: nat, q: seq<Point>)
    ensures |Retire(count, q)| <= |q|
    decreases q
  {
    if q != [] {
      RetireShortens(count, q[1..]);
    }
  }

  /** Ledger m is ledger l after one queue has been cut back to the cap, and nothing else has changed. */
  ghost predicate Trimmed(l: Ledger, m: Ledger, s: string, cap: nat)
    requires s in l.serials
  {
    && m.born == l.born && m.emitted == l.emitted
    && m.serials == l.serials[s := Trim(cap, l.serials[s])]
    && m.evicted.Keys == l.evicted.Keys + CutSerials(l.serials[s], cap)
    && forall n :: n in l.evicted ==> m.evicted[n] == l.evicted[n]
  }

  /** Trimming evicts exactly the oldest points beyond the cap, filing what each had been served. */
  lemma {:induction false} TrimBalances(hs: seq<U64>, q: Queues, l: Ledger, s: string, cap: nat) returns (m: Ledger)
    requires Balanced(hs, q, l) && s in q
    ensures s in l.serials && |l.serials[s]| == |q[s]|
    ensures Balanced(hs, q[s := Trim(cap, q[s])], m)
    ensures Trimmed(l, m, s, cap)
    decreases |q[s]|
  {
    hide Balanced, Trim, Trimmed;
    QueuesMatch(hs, q, l);
    m := l;
    if |q[s]| > cap {
      FrontIsFresh(hs, q, l, s);
      ShiftBalances(hs, q, l, s, true);
      var l1, q1 := Shift(l, s, q[s][0].done, true), q[s := q[s][1..]];
      TrimTail(cap, q[s]);
      m := TrimBalances(hs, q1, l1, s, cap);
      assert q1[s := Trim(cap, q1[s])] == q[s := Trim(cap, q[s])];
      TrimmedAfterShift(l, m, s, cap, q[s][0].done);
    } else {
      NothingTrimmed(l, s, cap);
      TrimAll(cap, q[s]);
      assert q[s := q[s]] == q;
    }
  }

  lemma NothingTrimmed(l: Ledger, s: string, cap: nat)
    requires s in l.serials && |l.serials[s]| <= cap
    ensures Trimmed(l, l, s, cap)
  {
    assert l.serials[s := l.serials[s]] == l.serials;
    assert CutSerials(l.serials[s], cap) == {};
  }

  lemma TrimmedAfterShift(l: Ledger, m: Ledger, s: string, cap: nat, done: seq<U64>)
    requires s in l.serials && |l.serials[s]| > cap && l.serials[s][0] !in l.evicted
    requires Trimmed(Shift(l, s, done, true), m, s, cap)
    ensures Trimmed(l, m, s, cap)
  {
    var ns := l.serials[s];
    CutOneMore(ns, cap);
    hide CutSerials, Trim;
    assert l.serials[s := ns[1..]][s := Trim(cap, ns[1..])] == l.serials[s := Trim(cap, ns)];
  }

  lemma FrontIsFresh(hs: seq<U64>, q: Queues, l: Ledger, s: string)
    requires Balanced(hs, q, l) && s in q && q[s] != []
    ensures s in l.serials && l.serials[s] != [] && l.serials[s][0] !in l.evicted
  {
    assert QueueOk(hs, q[s], l, l.serials[s]) && PointOk(hs, q[s][0], l, l.serials[s][0]);
  }

  lemma TrimAll<T>(cap: nat, q: seq<T>)
    requires |q| <= cap
    ensures Trim(cap, q) == q
  {
  }

  lemma TrimTail<T>(cap: nat, q: seq<T>)
    requires |q| > cap
    ensures Trim(cap, q) == Trim(cap, q[1..])
  {
  }

  lemma CutOneMore(ns: seq<nat>, cap: nat)
    requires |ns| > cap
    ensures CutSerials(ns, cap) == {ns[0]} + CutSerials(ns[1..], cap)
    ensures Trim(cap, ns) == Trim(cap, ns[1..])
  {
    TrimTail(cap, ns);
    forall n | n in CutSerials(ns, cap) ensures n == ns[0] || n in CutSerials(ns[1..], cap) {
      var i :| 0 <= i < |ns| - cap && ns[i] == n;
      if i > 0 { assert ns[1..][i - 1] == n; }
    }
  }

  // ---------------------------------------------------------------- only the cap evicts

  /** The points of the same symbol that were queued after a point. */
  ghost function Later(born: seq<Point>, n: nat): set<nat>
    requires n < |born|
  {
    set k: nat | n < k < |born| && born[k].episode.symbol == born[n].episode.symbol
  }

  /** A queue holds points of its own symbol in the order in which they were queued. */
  ghost predicate InQueueOrder(born: seq<Point>, s: string, ns: seq<nat>)
  {
    && (forall i, j :: 0 <= i < j < |ns| ==> ns[i] < ns[j])
    && forall i :: 0 <= i < |ns| ==> ns[i] < |born| && born[ns[i]].episode.symbol == s
  }

  ghost predicate InOrder(l: Ledger)
  {
    forall s :: s in l.serials ==> InQueueOrder(l.born, s, l.serials[s])
  }

  /** No point was evicted before as many later points of its symbol had been queued as the cap allows. */
  ghost predicate OnlyCapEvicts(l: Ledger, cap: nat)
  {
    InOrder(l) && forall n :: n in l.evicted ==> n < |l.born| && |Later(l.born, n)| >= cap
  }

  lemma LaterGrows(born: seq<Point>, p: Point, n: nat)
    requires n < |born|
    ensures |Later(born, n)| <= |Later(born + [p], n)|
  {
    SmallerSet(Later(born, n), Later(born + [p], n));
  }

  lemma SmallerSet(a: set<nat>, b: set<nat>)
    requires a <= b
    ensures |a| <= |b|
  {
    assert b == a + (b - a);
  }

  lemma OneMoreInOrder(born: seq<Point>, p: Point, s: string, ns: seq<nat>)
    requires InQueueOrder(born, s, ns)
    ensures InQueueOrder(born + [p], s, ns)
    ensures p.episode.symbol == s ==> InQueueOrder(born + [p], s, ns + [|born|])
  {
  }

  lemma PushKeepsOrder(l: Ledger, s: string, p: Point)
    requires InOrder(l) && p.episode.symbol == s
    ensures InOrder(Push(l, s, p))
  {
    var m := Push(l, s, p);
    forall t | t in m.serials ensures InQueueOrder(m.born, t, m.serials[t]) {
      var ns := SerialsOf(l, t);
      assert InQueueOrder(l.born, t, ns);
      OneMoreInOrder(l.born, p, t, ns);
      hide InQueueOrder;
    }
  }

  lemma PushEvictsNothing(l: Ledger, s: string, p: Point, cap: nat)
    requires OnlyCapEvicts(l, cap) && p.episode.symbol == s
    ensures OnlyCapEvicts(Push(l, s, p), cap)
  {
    PushKeepsOrder(l, s, p);
    hide InOrder, Later;
    forall n | n in l.evicted ensures |Later(l.born + [p], n)| >= cap {
      LaterGrows(l.born, p, n);
    }
  }

  /** What stands behind a point in its queue came later. */
  lemma {:induction false} StandingBehind(born: seq<Point>, n: nat, ns: seq<nat>)
    requires n < |born| && (forall i, j :: 0 <= i < j < |ns| ==> ns[i] < ns[j])
    requires forall i :: 0 <= i < |ns| ==>
      n < ns[i] < |born| && born[ns[i]].episode.symbol == born[n].episode.symbol
    ensures |ns| <= |Later(born, n)|
  {
    var found := set i | 0 <= i < |ns| :: ns[i];
    AscendingSize(ns, found);
    SmallerSet(found, Later(born, n));
  }

  lemma {:induction false} AscendingSize(ns: seq<nat>, found: set<nat>)
    requires forall i, j :: 0 <= i < j < |ns| ==> ns[i] < ns[j]
    requires found == set i | 0 <= i < |ns| :: ns[i]
    ensures |found| == |ns|
    decreases ns
  {
    if ns != [] {
      var last := |ns| - 1;
      var rest := set i | 0 <= i < last :: ns[i];
      assert rest == set i | 0 <= i < |ns[..last]| :: ns[..last][i];
      AscendingSize(ns[..last], rest);
      assert found == rest + {ns[last]} && ns[last] !in rest;
    }
  }

  /** Cutting queues back to the cap files only points that it pushed out. */
  lemma TrimEvictsByCap(l: Ledger, m: Ledger, s: string, cap: nat)
    requires OnlyCapEvicts(l, cap) && s in l.serials && Trimmed(l, m, s, cap)
    ensures OnlyCapEvicts(m, cap)
  {
    var ns := l.serials[s];
    CutsKeepOrder(l, m, s, cap);
    assert InQueueOrder(l.born, s, ns);
    forall n | n in m.evicted ensures n < |m.born| && |Later(m.born, n)| >= cap {
      if n !in l.evicted {
        var i :| 0 <= i < |ns| - cap && ns[i] == n;
        StandingBehind(l.born, n, ns[i + 1..]);
      }
    }
  }

  lemma CutsKeepOrder(l: Ledger, m: Ledger, s: string, left: nat)
    requires InOrder(l) && s in l.serials && m.born == l.born
    requires m.serials == l.serials[s := Trim(left, l.serials[s])]
    ensures InOrder(m)
  {
    assert InQueueOrder(l.born, s, l.serials[s]);
    forall t | t in m.serials ensures InQueueOrder(m.born, t, m.serials[t]) {
      if t != s { assert InQueueOrder(l.born, t, l.serials[t]); }
    }
  }

  lemma FlushEvictsNothing(hs: seq<U64>, q: Queues, l: Ledger, x: Tick, cap: nat)
    requires OnlyCapEvicts(l, cap)
    requires x.symbol in q && x.symbol in l.serials && |q[x.symbol]| == |l.serials[x.symbol]|
    ensures OnlyCapEvicts(FlushedLedger(hs, q, l, x), cap)
  {
    hide ServeQueue, QueueEmissions;
    CutsKeepOrder(l, FlushedLedger(hs, q, l, x), x.symbol, |Retire(|hs|, ServeQueue(hs, q[x.symbol], x).0)|);
  }

  /** As long as no more points of a symbol come in than the cap allows, none of them is lost. */
  lemma FewPointsLoseNothing(l: Ledger, cap: nat, s: string)
    requires OnlyCapEvicts(l, cap)
    requires |set n: nat | n < |l.born| && l.born[n].episode.symbol == s| <= cap
    ensures forall n :: n in l.evicted ==> l.born[n].episode.symbol != s
  {
    var all := set n: nat | n < |l.born| && l.born[n].episode.symbol == s;
    forall n | n in l.evicted && l.born[n].episode.symbol == s ensures false {
      assert Later(l.born, n) <= all - {n} && n in all;
      SmallerSet(Later(l.born, n), all - {n});
    }
  }

  /** Nothing due is left unserved. */
  ghost predicate AllServed(hs: seq<U64>, q: seq<Point>, now: U64)
  {
    forall p, h :: p in q && h in hs && now >= Min(p.eventTimeMs + h, U64_MAX) ==> h in p.done
  }

  lemma {:induction false} ServePointServes(todo: seq<U64>, p: Point, x: Tick)
    ensures var r := ServePoint(todo, p, x).0;
      && r.eventTimeMs == p.eventTimeMs
      && (forall h :: h in p.done ==> h in r.done)
      && forall h :: h in todo && x.now >= Min(p.eventTimeMs + h, U64_MAX) ==> h in r.done
    decreases todo
  {
    if todo != [] {
      var h := todo[0];
      ServePointServes(todo[1..], if IsDue(p, h, x) then p.(done := p.done + [h]) else p, x);
    }
  }

  lemma {:induction false} FlushServesAll(hs: seq<U64>, q: seq<Point>, x: Tick)
    ensures AllServed(hs, Retire(|hs|, ServeQueue(hs, q, x).0), x.now)
  {
    ServeQueueServes(hs, q, x);
    RetireKeepsServed(hs, ServeQueue(hs, q, x).0, x.now);
  }

  lemma {:induction false} ServeQueueServes(hs: seq<U64>, q: seq<Point>, x: Tick)
    ensures AllServed(hs, ServeQueue(hs, q, x).0, x.now)
    decreases q
  {
    if q != [] {
      ServePointServes(hs, q[0], x);
      ServeQueueServes(hs, q[1..], x);
    }
  }

  lemma {:induction false} RetireKeepsServed(hs: seq<U64>, q: seq<Point>, now: U64)
    requires AllServed(hs, q, now)
    ensures AllServed(hs, Retire(|hs|, q), now)
    decreases q
  {
    if q != [] {
      RetireKeepsServed(hs, q[1..], now);
    }
  }

  // ---------------------------------------------------------------- conservation

  function CountFor(es: seq<Emission>, h: U64): nat
  {
    if es == [] then 0
    else CountFor(es[..|es| - 1], h) + if es[|es| - 1].record.horizonMs == h then 1 else 0
  }

  ghost function ServedSerials(es: seq<Emission>, h: U64): set<nat>
  {
    set i | 0 <= i < |es| && es[i].record.horizonMs == h :: es[i].serial
  }

  /** The queued points that still lack a horizon, by serial number. */
  ghost function WaitingSerials(q: Queues, l: Ledger, h: U64): set<nat>
    requires q.Keys == l.serials.Keys && forall s :: s in q ==> |q[s]| == |l.serials[s]|
  {
    set s, i | s in q && 0 <= i < |q[s]| && h !in q[s][i].done :: l.serials[s][i]
  }

  /** The points that the cap pushed out before they had served a horizon. */
  ghost function LostSerials(l: Ledger, cap: nat, h: U64): set<nat>
  {
    set n | n in l.evicted && n < |l.born| && |Later(l.born, n)| >= cap && !Emitted(l.emitted, n, h)
  }

  lemma {:induction false} EachServedOnce(es: seq<Emission>, h: U64)
    requires forall i, j :: 0 <= i < j < |es| ==>
      es[i].serial != es[j].serial || es[i].record.horizonMs != es[j].record.horizonMs
    ensures |ServedSerials(es, h)| == CountFor(es, h)
  {
    if es != [] {
      var n := |es| - 1;
      EachServedOnce(es[..n], h);
      ServedGrows(es, h);
    }
  }

  lemma ServedGrows(es: seq<Emission>, h: U64)
    requires es != []
    ensures var n := |es| - 1;
      ServedSerials(es, h) == ServedSerials(es[..n], h) + if es[n].record.horizonMs == h then {es[n].serial} else {}
  {
    var n := |es| - 1;
    forall x | x in ServedSerials(es, h)
      ensures x in ServedSerials(es[..n], h) || (es[n].record.horizonMs == h && x == es[n].serial)
    {
      var i :| 0 <= i < |es| && es[i].record.horizonMs == h && es[i].serial == x;
      if i < n { assert es[..n][i] == es[i]; }
    }
  }

  ghost function Below(n: nat): (r: set<nat>)
    ensures forall i: nat :: i in r <==> i < n
    ensures |r| == n
  {
    if n == 0 then {} else Below(n - 1) + {n - 1}
  }

  lemma WaitingIsQueued(hs: seq<U64>, q: Queues, l: Ledger, h: U64)
    requires Balanced(hs, q, l)
    ensures forall s :: s in q ==> |q[s]| == |l.serials[s]|
    ensures forall n :: n in WaitingSerials(q, l, h) ==>
      n < |l.born| && n !in l.evicted && !Emitted(l.emitted, n, h)
  {
    forall s | s in q ensures |q[s]| == |l.serials[s]| { assert QueueOk(hs, q[s], l, l.serials[s]); }
    forall n | n in WaitingSerials(q, l, h) ensures n < |l.born| && n !in l.evicted && !Emitted(l.emitted, n, h) {
      var s, i :| s in q && 0 <= i < |q[s]| && h !in q[s][i].done && l.serials[s][i] == n;
      assert QueueOk(hs, q[s], l, l.serials[s]) && PointOk(hs, q[s][i], l, n);
    }
  }

  lemma UnservedIsWaitingOrLost(hs: seq<U64>, q: Queues, l: Ledger, cap: nat, h: U64, n: nat)
    requires Balanced(hs, q, l) && OnlyCapEvicts(l, cap)
    requires h in hs && n < |l.born| && !Emitted(l.emitted, n, h)
    requires forall s :: s in q ==> |q[s]| == |l.serials[s]|
    ensures n in WaitingSerials(q, l, h) || n in LostSerials(l, cap, h)
  {
    if n !in l.evicted {
      assert Standing(l, n);
      var s :| s in l.serials && n in l.serials[s];
      var i :| 0 <= i < |l.serials[s]| && l.serials[s][i] == n;
      assert QueueOk(hs, q[s], l, l.serials[s]) && PointOk(hs, q[s][i], l, n);
      assert s in q && 0 <= i < |q[s]| && h !in q[s][i].done && l.serials[s][i] == n;
    }
  }

  lemma ServedIsEmitted(l: Ledger, h: U64, n: nat)
    ensures n in ServedSerials(l.emitted, h) <==> Emitted(l.emitted, n, h)
  {
  }

  /**
   Conservation: for every horizon, each point ever accepted is counted exactly once, as served
   by one record, as still waiting in a queue, or as pushed out by the cap before it was served.
   */
  lemma EvidenceIsConserved(hs: seq<U64>, q: Queues, l: Ledger, cap: nat, h: U64)
    requires Balanced(hs, q, l) && OnlyCapEvicts(l, cap) && h in hs
    ensures forall s :: s in q ==> |q[s]| == |l.serials[s]|
    ensures ServedSerials(l.emitted, h) !! WaitingSerials(q, l, h) !! LostSerials(l, cap, h)
    ensures |l.born| == CountFor(l.emitted, h) + |WaitingSerials(q, l, h)| + |LostSerials(l, cap, h)|
  {
    WaitingIsQueued(hs, q, l, h);
    var served, waiting, lost := ServedSerials(l.emitted, h), WaitingSerials(q, l, h), LostSerials(l, cap, h);
    EachServedOnce(l.emitted, h);
    hide OnlyCapEvicts, Later, QueueOk, EvictionsOk, Accounted;
    forall n: nat ensures InExactlyOne(n, |l.born|, served, waiting, lost) {
      PlaceOf(hs, q, l, cap, h, n);
    }
    PartsAddUp(|l.born|, served, waiting, lost);
  }

  ghost predicate InExactlyOne(n: nat, total: nat, a: set<nat>, b: set<nat>, c: set<nat>)
  {
    && (n < total <==> n in a || n in b || n in c)
    && !(n in a && n in b) && !(n in a && n in c) && !(n in b && n in c)
  }

  lemma PlaceOf(hs: seq<U64>, q: Queues, l: Ledger, cap: nat, h: U64, n: nat)
    requires Balanced(hs, q, l) && OnlyCapEvicts(l, cap) && h in hs
    requires forall s :: s in q ==> |q[s]| == |l.serials[s]|
    ensures InExactlyOne(
      n, |l.born|, ServedSerials(l.emitted, h), WaitingSerials(q, l, h), LostSerials(l, cap, h))
  {
    WaitingIsQueued(hs, q, l, h);
    ServedIsEmitted(l, h, n);
    if n < |l.born| && !Emitted(l.emitted, n, h) {
      UnservedIsWaitingOrLost(hs, q, l, cap, h, n);
    }
  }

  lemma PartsAddUp(total: nat, a: set<nat>, b: set<nat>, c: set<nat>)
    requires forall n: nat :: InExactlyOne(n, total, a, b, c)
    ensures a !! b !! c && total == |a| + |b| + |c|
  {
    forall n: nat ensures n in Below(total) <==> n in a + b + c {
      assert InExactlyOne(n, total, a, b, c);
    }
    forall n | n in a ensures n !in b && n !in c { assert InExactlyOne(n, total, a, b, c); }
    forall n | n in b ensures n !in c { assert InExactlyOne(n, total, a, b, c); }
    assert Below(total) == a + b + c;
    assert |a + b + c| == |a| + |b| + |c|;
  }

  /** A point that lists as many horizons as there are lists all of them. */
  lemma FullListHasAll(done: seq<U64>, hs: seq<U64>)
    requires Distinct(done) && Distinct(hs) && |done| == |hs|
    requires forall h :: h in done ==> h in hs
    ensures forall h :: h in hs ==> h in done
  {
    DistinctSize(done);
    DistinctSize(hs);
    var a, b := Elements(done), Elements(hs);
    assert a <= b;
    assert b == a + (b - a);
    assert |b| == |a| + |b - a|;
    assert b - a == {};
    forall h | h in hs ensures h in done { assert h in b; }
  }

  ghost function Elements(s: seq<U64>): set<U64>
  {
    set x | x in s
  }

  lemma {:induction false} DistinctSize(s: seq<U64>)
    requires Distinct(s)
    ensures |Elements(s)| == |s|
  {
    if s == [] {
      assert Elements(s) == {};
    } else {
      var n := |s| - 1;
      DistinctSize(s[..n]);
      assert s == s[..n] + [s[n]];
      assert s[n] !in Elements(s[..n]);
      assert Elements(s) == Elements(s[..n]) + {s[n]};
    }
  }

  // ---------------------------------------------------------------- running sums

  /** The two counts saturate at the top of `u64`; the three sums are `i128` and do not. */
  datatype Stat = Stat(samples: nat, improved: nat, signed: int, priceIndex: int, indexAnchor: int)

  /** `or_default()`: the entry of a horizon that has none yet. */
  function NoRecords(h: U64): Stat { Stat(0, 0, 0, 0, 0) }

  function StatOf(stats: map<U64, Stat>, h: U64): Stat { if h in stats then stats[h] else NoRecords(h) }

  function AddRecord(t: Stat, r: EvidenceRecord): Stat
  {
    Stat(Saturate(t.samples + 1),
         if r.signedImprovementBps > 0 then Saturate(t.improved + 1) else t.improved,
         t.signed + r.signedImprovementBps,
         t.priceIndex + r.priceIndexChangeBps,
         t.indexAnchor + r.indexAnchorChangeBps)
  }

  function Merge(a: Stat, b: Stat): Stat
  {
    Stat(Saturate(a.samples + b.samples), Saturate(a.improved + b.improved),
         a.signed + b.signed, a.priceIndex + b.priceIndex, a.indexAnchor + b.indexAnchor)
  }

  /** The sum of a quantity over the records of one horizon. */
  ghost function SumFor(es: seq<Emission>, h: U64, f: EvidenceRecord -> int): int
  {
    if es == [] then 0
    else
      var e := es[|es| - 1];
      SumFor(es[..|es| - 1], h, f) + if e.record.horizonMs == h then f(e.record) else 0
  }

  function One(r: EvidenceRecord): int { 1 }

  function Improved(r: EvidenceRecord): int { if r.signedImprovementBps > 0 then 1 else 0 }

  function Signed(r: EvidenceRecord): int { r.signedImprovementBps }

  function PriceIndex(r: EvidenceRecord): int { r.priceIndexChangeBps }

  function IndexAnchor(r: EvidenceRecord): int { r.indexAnchorChangeBps }

  /** What the sums of a horizon must be, given every record ever returned. */
  ghost predicate Sums(t: Stat, es: seq<Emission>, h: U64)
  {
    && t.samples == Saturate(SumFor(es, h, One))
    && t.improved == Saturate(SumFor(es, h, Improved))
    && t.signed == SumFor(es, h, Signed)
    && t.priceIndex == SumFor(es, h, PriceIndex)
    && t.indexAnchor == SumFor(es, h, IndexAnchor)
  }

  ghost predicate SumsMatch(stats: map<U64, Stat>, es: seq<Emission>)
  {
    forall h: U64 :: Sums(StatOf(stats, h), es, h)
  }

  lemma NothingIsSummed(stats: map<U64, Stat>, es: seq<Emission>)
    requires stats == map[] && es == []
    ensures SumsMatch(stats, es)
  {
  }

  lemma {:induction false} SumsConcatenate(a: seq<Emission>, b: seq<Emission>, h: U64, f: EvidenceRecord -> int)
    ensures SumFor(a + b, h, f) == SumFor(a, h, f) + SumFor(b, h, f)
    decreases b
  {
    if b == [] {
      assert a + b == a;
    } else {
      var n := |b| - 1;
      assert (a + b)[..|a + b| - 1] == a + b[..n];
      SumsConcatenate(a, b[..n], h, f);
    }
  }

  lemma {:induction false} CountsAreNatural(es: seq<Emission>, h: U64)
    ensures 0 <= SumFor(es, h, Improved) <= SumFor(es, h, One)
    ensures SumFor(es, h, One) == CountFor(es, h)
  {
    if es != [] {
      CountsAreNatural(es[..|es| - 1], h);
    }
  }

  lemma AddRecordSums(stats: map<U64, Stat>, es: seq<Emission>, e: Emission)
    requires SumsMatch(stats, es)
    ensures var h := e.record.horizonMs;
      SumsMatch(stats[h := AddRecord(StatOf(stats, h), e.record)], es + [e])
  {
    var k := e.record.horizonMs;
    var after := stats[k := AddRecord(StatOf(stats, k), e.record)];
    assert (es + [e])[..|es|] == es;
    forall h: U64 ensures Sums(StatOf(after, h), es + [e], h) {
      assert Sums(StatOf(stats, h), es, h);
      CountsAreNatural(es, h);
    }
  }

  /** The sums of one flush, gathered record by record. */
  function Gather(stats: map<U64, Stat>, rs: seq<EvidenceRecord>): map<U64, Stat>
  {
    if rs == [] then stats
    else
      var r := rs[|rs| - 1];
      var before := Gather(stats, rs[..|rs| - 1]);
      before[r.horizonMs := AddRecord(StatOf(before, r.horizonMs), r)]
  }

  function MergeAll(stats: map<U64, Stat>, updates: map<U64, Stat>): map<U64, Stat>
  {
    map h | h in stats.Keys + updates.Keys ::
      if h in updates then Merge(StatOf(stats, h), updates[h]) else stats[h]
  }

  lemma SaturatedSum(a: nat, b: nat)
    ensures Saturate(Saturate(a) + Saturate(b)) == Saturate(a + b)
  {
  }

  lemma {:induction false} GatherSums(es: seq<Emission>, rs: seq<EvidenceRecord>)
    requires MatchesRecords(es, rs)
    ensures SumsMatch(Gather(map[], rs), es)
    decreases rs
  {
    if rs != [] {
      var n := |rs| - 1;
      GatherSums(es[..n], rs[..n]);
      AddRecordSums(Gather(map[], rs[..n]), es[..n], es[n]);
      assert es == es[..n] + [es[n]];
    }
  }

  /** Gathering a flush separately and merging it keeps the sums those of all records ever. */
  lemma FlushSums(stats: map<U64, Stat>, es: seq<Emission>, fs: seq<Emission>, rs: seq<EvidenceRecord>)
    requires SumsMatch(stats, es) && MatchesRecords(fs, rs)
    ensures SumsMatch(MergeAll(stats, Gather(map[], rs)), es + fs)
  {
    var updates := Gather(map[], rs);
    GatherSums(fs, rs);
    forall h: U64 ensures Sums(StatOf(MergeAll(stats, updates), h), es + fs, h) {
      assert Sums(StatOf(stats, h), es, h) && Sums(StatOf(updates, h), fs, h);
      if h in updates {
        MergeSums(StatOf(stats, h), updates[h], es, fs, h);
      } else {
        NoNewRecords(StatOf(stats, h), es, fs, h);
      }
    }
  }

  lemma SumsOfBoth(es: seq<Emission>, fs: seq<Emission>, h: U64)
    ensures SumFor(es + fs, h, One) == SumFor(es, h, One) + SumFor(fs, h, One)
    ensures SumFor(es + fs, h, Improved) == SumFor(es, h, Improved) + SumFor(fs, h, Improved)
    ensures SumFor(es + fs, h, Signed) == SumFor(es, h, Signed) + SumFor(fs, h, Signed)
    ensures SumFor(es + fs, h, PriceIndex) == SumFor(es, h, PriceIndex) + SumFor(fs, h, PriceIndex)
    ensures SumFor(es + fs, h, IndexAnchor) == SumFor(es, h, IndexAnchor) + SumFor(fs, h, IndexAnchor)
  {
    SumsConcatenate(es, fs, h, One);
    SumsConcatenate(es, fs, h, Improved);
    SumsConcatenate(es, fs, h, Signed);
    SumsConcatenate(es, fs, h, PriceIndex);
    SumsConcatenate(es, fs, h, IndexAnchor);
  }

  lemma MergeSums(a: Stat, b: Stat, es: seq<Emission>, fs: seq<Emission>, h: U64)
    requires Sums(a, es, h) && Sums(b, fs, h)
    ensures Sums(Merge(a, b), es + fs, h)
  {
    hide SumFor;
    CountsAreNatural(es, h);
    CountsAreNatural(fs, h);
    SaturatedSum(SumFor(es, h, One), SumFor(fs, h, One));
    SaturatedSum(SumFor(es, h, Improved), SumFor(fs, h, Improved));
    SumsOfBoth(es, fs, h);
  }

  lemma NoNewRecords(a: Stat, es: seq<Emission>, fs: seq<Emission>, h: U64)
    requires Sums(a, es, h) && Sums(NoRecords(h), fs, h)
    ensures Sums(a, es + fs, h)
  {
    hide SumFor;
    CountsAreNatural(es, h);
    CountsAreNatural(fs, h);
    SumsOfBoth(es, fs, h);
  }

  // ---------------------------------------------------------------- the summary

  /** `mean_i128`: truncating, and clamped to `i64`. */
  function MeanOf(sum: int, count: nat): I64
  {
    if count == 0 then 0 else ClampI64(TruncDiv(sum, count))
  }

  lemma {:induction false} SumForSpans(es: seq<Emission>, h: U64, f: EvidenceRecord -> int, low: int, high: int)
    requires forall i :: 0 <= i < |es| && es[i].record.horizonMs == h ==> low <= f(es[i].record) <= high
    ensures Spans(SumFor(es, h, f), CountFor(es, h), low, high)
  {
    if es != [] {
      var init, count := es[..|es| - 1], CountFor(es[..|es| - 1], h);
      SumForSpans(init, h, f, low, high);
      assert low * (count + 1) == low * count + low && high * (count + 1) == high * count + high;
    }
  }

  lemma MeanIsSaturated(sum: int, count: nat)
    ensures MeanOf(sum, Saturate(count)) == SaturatedMean(sum, count)
  {
  }

  /**
   The mean reported for a horizon lies within the range of everything ever recorded for it,
   unless its counter has filled up and missed too much; up to the last `u64` it misses nothing.
   */
  lemma MeanStaysInRange(es: seq<Emission>, h: U64, f: EvidenceRecord -> int, low: I64, high: I64)
    requires CountFor(es, h) > 0
    requires forall i :: 0 <= i < |es| && es[i].record.horizonMs == h ==> low <= f(es[i].record) <= high
    ensures CounterSuffices(CountFor(es, h), low, high) ==>
      low <= MeanOf(SumFor(es, h, f), Saturate(CountFor(es, h))) <= high
    ensures CountFor(es, h) <= U64_MAX ==>
      low <= MeanOf(SumFor(es, h, f), Saturate(CountFor(es, h))) <= high
  {
    if CountFor(es, h) <= U64_MAX {
      ExactCountersSuffice(CountFor(es, h), low, high);
    }
    SumForSpans(es, h, f, low, high);
    MeanIsSaturated(SumFor(es, h, f), CountFor(es, h));
    hide Spans, MeanOf, SaturatedMean, CounterSuffices;
    if CounterSuffices(CountFor(es, h), low, high) {
      MeanWithin(SumFor(es, h, f), CountFor(es, h), low, high);
    }
  }

  /** The condition is exact: equal records average to their value if and only if it holds. */
  lemma EqualRecordsMean(es: seq<Emission>, h: U64, f: EvidenceRecord -> int, v: I64)
    requires CountFor(es, h) > 0
    requires forall i :: 0 <= i < |es| && es[i].record.horizonMs == h ==> f(es[i].record) == v
    ensures MeanOf(SumFor(es, h, f), Saturate(CountFor(es, h))) == v <==> CounterSuffices(CountFor(es, h), v, v)
  {
    SumForSpans(es, h, f, v, v);
    assert SumFor(es, h, f) == v * CountFor(es, h);
    MeanIsSaturated(SumFor(es, h, f), CountFor(es, h));
    hide Spans, MeanOf, SaturatedMean, CounterSuffices;
    EqualValuesMean(v, CountFor(es, h));
  }

  lemma ImprovedIsAtMostSamples(t: Stat, es: seq<Emission>, h: U64)
    requires Sums(t, es, h)
    ensures t.improved <= t.samples == Saturate(CountFor(es, h))
  {
    CountsAreNatural(es, h);
  }


}
