/** How long a statement that the cache hands out stays open: when one step closes it, and on which
    sets of queries no run ever does. */
module PreparedRuns {
  import opened Wrappers
  import opened PreparedStatements

  const EMPTY := Table(map[], {}, map[], 0)

  /** A run of a new cache, with all its states. */
  ghost predicate Executes(max: nat, ts: seq<Table>, schedule: seq<Action>) {
    && |ts| == |schedule| + 1 && ts[0] == EMPTY
    && forall i :: 0 <= i < |schedule| ==> Moves(max, ts[i], schedule[i], ts[i + 1])
  }

  lemma EmptyIsFine(max: nat)
    requires max > 0
    ensures Fine(max, EMPTY)
  {
  }

  lemma {:induction false} RunIsFine(max: nat, ts: seq<Table>, schedule: seq<Action>, i: nat)
    requires max > 0 && Executes(max, ts, schedule) && i < |ts|
    ensures Fine(max, ts[i])
  {
    hide Fine, Moves;
    if i == 0 {
      EmptyIsFine(max);
    } else {
      RunIsFine(max, ts, schedule, i - 1);
      assert Moves(max, ts[i - 1], schedule[i - 1], ts[i - 1 + 1]);
      MoveKeeps(max, ts[i - 1], schedule[i - 1], ts[i]);
    }
  }

  // ----- one step

  /** The action publishes a new query into a full cache, and `s` gives way. */
  ghost predicate GivesWay(max: nat, t: Table, a: Action, t': Table, s: Stmt) {
    && a.Publish? && Enabled(t.callers, a)
    && t.callers[a.who].stmt.query !in t.stmts && |t.stmts| == max
    && Publishes(max, t, a.who, Some(s.query), t')
  }

  /** A cached statement is closed by `Close` and by a publish that picks it to make room, and by
      nothing else. */
  lemma StepClosesExactly(max: nat, t: Table, a: Action, t': Table, s: Stmt)
    requires Fine(max, t) && Moves(max, t, a, t') && Cached(t.stmts, s)
    ensures s in t.open
    ensures s !in t'.open <==> a.CloseAll? || GivesWay(max, t, a, t', s)
    ensures s in t'.open <==> Cached(t'.stmts, s)
  {
    hide Fine, Publishes;
    MoveKeeps(max, t, a, t');
    CachedIsOpen(max, t, s);
    if Cached(t'.stmts, s) { CachedIsOpen(max, t', s); }
    if a.Publish? && Enabled(t.callers, a) {
      var evicted :| Publishes(max, t, a.who, evicted, t');
      PublishCloses(max, t, a.who, evicted, t', s);
    } else if a.CloseOwn? && Enabled(t.callers, a) {
      OwnIsNotCached(max, t, a.who, s);
    }
  }

  lemma CachedIsOpen(max: nat, t: Table, s: Stmt)
    requires Fine(max, t) && Cached(t.stmts, s)
    ensures s in t.open
  {
  }

  lemma OwnIsNotCached(max: nat, t: Table, who: nat, s: Stmt)
    requires Fine(max, t) && who in t.callers && Busy(t.callers[who]) && Cached(t.stmts, s)
    ensures t.callers[who].stmt != s
  {
    if t.callers[who].stmt == s {
      assert Held(t.callers, s);
    }
  }

  lemma PublishCloses(max: nat, t: Table, who: nat, evicted: Option<string>, t': Table, s: Stmt)
    requires Fine(max, t) && who in t.callers && t.callers[who].Holding? && Publishes(max, t, who, evicted, t')
    requires Cached(t.stmts, s)
    ensures evicted == Some(s.query) <==> Publishes(max, t, who, Some(s.query), t')
    ensures evicted == Some(s.query) ==>
              t.callers[who].stmt.query !in t.stmts && |t.stmts| == max && s !in t'.open && !Cached(t'.stmts, s)
    ensures evicted != Some(s.query) ==> Cached(t'.stmts, s)
  {
    hide Accounted, Handed;
    if Publishes(max, t, who, Some(s.query), t') {
      assert s.query !in t'.stmts;
    }
  }

  // ----- runs over a given set of queries

  /** The callers ask for these queries only, and nobody closes the cache. */
  predicate Uses(schedule: seq<Action>, queries: set<string>) {
    forall i :: 0 <= i < |schedule| ==>
      !schedule[i].CloseAll? && (schedule[i].Lookup? ==> schedule[i].query in queries)
  }

  /** Every statement a caller gets is open then and stays open. */
  ghost predicate Lasting(ts: seq<Table>) {
    forall i, j, who :: 0 <= i <= j < |ts| && who in ts[i].callers && ts[i].callers[who].Returned? ==>
      ts[i].callers[who].result in ts[j].open
  }

  /** Everything in the table concerns the given queries, and all that was handed out is cached. */
  ghost predicate Within(t: Table, queries: set<string>) {
    && t.stmts.Keys <= queries
    && forall who :: who in t.callers ==>
         match t.callers[who]
         case Missed(q) => q in queries
         case Holding(s) => s.query in queries
         case Losing(_, r) => Cached(t.stmts, r)
         case Returned(r) => Cached(t.stmts, r)
  }

  lemma SubsetSize<T>(a: set<T>, b: set<T>)
    requires a <= b
    ensures |a| <= |b|
  {
    assert b == a + (b - a);
  }

  /** With room for every query no publish evicts. */
  lemma NoneGivesWay(max: nat, t: Table, a: Action, t': Table, queries: set<string>, s: Stmt)
    requires Within(t, queries) && |queries| <= max
    ensures !GivesWay(max, t, a, t', s)
  {
    hide Publishes;
    if GivesWay(max, t, a, t', s) {
      var q := t.callers[a.who].stmt.query;
      assert |t.stmts.Keys + {q}| == max + 1;
      SubsetSize(t.stmts.Keys + {q}, queries);
      assert false;
    }
  }

  lemma WithinStep(max: nat, t: Table, a: Action, t': Table, queries: set<string>)
    requires Fine(max, t) && Moves(max, t, a, t') && Within(t, queries) && |queries| <= max
    requires !a.CloseAll? && (a.Lookup? ==> a.query in queries)
    ensures Within(t', queries) && forall s :: Cached(t.stmts, s) ==> Cached(t'.stmts, s)
  {
    hide GivesWay, Fine;
    forall s | Cached(t.stmts, s)
      ensures Cached(t'.stmts, s)
    {
      NoneGivesWay(max, t, a, t', queries, s);
      StepClosesExactly(max, t, a, t', s);
    }
    KeysMatch(max, t);
  }

  lemma KeysMatch(max: nat, t: Table)
    requires Fine(max, t)
    ensures forall q :: q in t.stmts ==> Cached(t.stmts, t.stmts[q])
  {
  }

  lemma {:induction false} StaysCached(max: nat, ts: seq<Table>, schedule: seq<Action>, queries: set<string>, i: nat,
                                       j: nat)
    requires max > 0 && Executes(max, ts, schedule) && Uses(schedule, queries) && |queries| <= max && i <= j < |ts|
    ensures Within(ts[j], queries) && forall s :: Cached(ts[i].stmts, s) ==> Cached(ts[j].stmts, s)
    decreases j
  {
    hide Moves, Fine;
    if j > 0 {
      StaysCached(max, ts, schedule, queries, if i < j then i else j - 1, j - 1);
      RunIsFine(max, ts, schedule, j - 1);
      assert Moves(max, ts[j - 1], schedule[j - 1], ts[j - 1 + 1]);
      WithinStep(max, ts[j - 1], schedule[j - 1], ts[j], queries);
    }
  }

  lemma SmallSetLasts(max: nat, ts: seq<Table>, schedule: seq<Action>, queries: set<string>)
    requires max > 0 && Executes(max, ts, schedule) && Uses(schedule, queries) && |queries| <= max
    ensures Lasting(ts)
  {
    hide Executes, Fine;
    forall i, j, who | 0 <= i <= j < |ts| && who in ts[i].callers && ts[i].callers[who].Returned?
      ensures ts[i].callers[who].result in ts[j].open
    {
      StaysCached(max, ts, schedule, queries, i, i);
      StaysCached(max, ts, schedule, queries, i, j);
      RunIsFine(max, ts, schedule, j);
      CachedIsOpen(max, ts[j], ts[i].callers[who].result);
    }
  }

  // ----- one query too many

  predicate Distinct(qs: seq<string>) {
    forall i, j :: 0 <= i < j < |qs| ==> qs[i] != qs[j]
  }

  /** One caller after the other asks for its own query. */
  function Callers(qs: seq<string>): (schedule: seq<Action>)
    ensures |schedule| == 3 * |qs|
  {
    if qs == [] then []
    else
      var n := |qs| - 1;
      Callers(qs[..n]) + [Lookup(n, qs[n]), Prepare(n, true), Publish(n)]
  }

  lemma {:induction false} CallersAt(qs: seq<string>, n: nat)
    requires n < |qs|
    ensures var run := Callers(qs);
            run[3 * n] == Lookup(n, qs[n]) && run[3 * n + 1] == Prepare(n, true) && run[3 * n + 2] == Publish(n)
  {
    var m := |qs| - 1;
    if n < m {
      CallersAt(qs[..m], n);
    }
  }

  lemma {:induction false} CallersUse(qs: seq<string>, queries: set<string>)
    requires forall i :: 0 <= i < |qs| ==> qs[i] in queries
    ensures Uses(Callers(qs), queries)
  {
    if qs != [] {
      CallersUse(qs[..|qs| - 1], queries);
    }
  }

  function First(qs: seq<string>, n: nat): set<string>
    requires n <= |qs|
  {
    if n == 0 then {} else First(qs, n - 1) + {qs[n - 1]}
  }

  lemma FirstMore(qs: seq<string>, n: nat)
    requires n < |qs|
    ensures First(qs, n + 1) == First(qs, n) + {qs[n]}
  {
  }

  lemma {:induction false} FirstHolds(qs: seq<string>, n: nat, q: string)
    requires n <= |qs| && q in First(qs, n)
    ensures exists i :: 0 <= i < n && qs[i] == q
  {
    if qs[n - 1] != q {
      FirstHolds(qs, n - 1, q);
    }
  }

  lemma NextIsNew(qs: seq<string>, n: nat)
    requires Distinct(qs) && n < |qs|
    ensures qs[n] !in First(qs, n)
  {
    hide First;
    if qs[n] in First(qs, n) {
      FirstHolds(qs, n, qs[n]);
    }
  }

  lemma {:induction false} FirstSize(qs: seq<string>, n: nat)
    requires Distinct(qs) && n <= |qs|
    ensures |First(qs, n)| == n
  {
    hide Distinct;
    if n > 0 {
      FirstSize(qs, n - 1);
      NextIsNew(qs, n - 1);
    }
  }

  ghost predicate AllReturned(callers: map<nat, Phase>, qs: seq<string>, n: nat)
    requires n <= |qs|
  {
    && (forall who :: who in callers <==> 0 <= who < n)
    && (forall who :: 0 <= who < n ==> callers[who] == Returned(Stmt(who, qs[who])))
  }

  lemma ReturnedMore(callers: map<nat, Phase>, qs: seq<string>, n: nat)
    requires n < |qs| && AllReturned(callers, qs, n)
    ensures n !in callers && AllReturned(callers[n := Returned(Stmt(n, qs[n]))], qs, n + 1)
  {
  }

  ghost predicate Keyed(stmts: map<string, Stmt>) {
    forall q :: q in stmts ==> stmts[q].query == q
  }

  /** The first `n` callers have come and gone; only what is cached is open. */
  ghost predicate Served(max: nat, t: Table, qs: seq<string>, n: nat)
    requires n <= |qs|
  {
    && t.nextId == n && |t.stmts| <= max
    && AllReturned(t.callers, qs, n)
    && (forall s :: s in t.open ==> Cached(t.stmts, s))
    && t.stmts.Keys <= First(qs, n) && Keyed(t.stmts)
    && (n > 0 ==> Stmt(n - 1, qs[n - 1]) in t.open)
  }

  /** A caller that misses, prepares and publishes. */
  lemma NextCaller(max: nat, t: Table, who: nat, q: string, t1: Table, t2: Table, t3: Table)
    returns (evicted: Option<string>)
    requires who !in t.callers && q !in t.stmts
    requires Moves(max, t, Lookup(who, q), t1) && Moves(max, t1, Prepare(who, true), t2)
    requires Moves(max, t2, Publish(who), t3)
    ensures var s := Stmt(t.nextId, q);
            && t3.callers == t.callers[who := Returned(s)] && t3.nextId == t.nextId + 1
            && (evicted.None? ==> |t.stmts| < max && t3.stmts == t.stmts[q := s] && t3.open == t.open + {s})
            && (evicted.Some? ==>
                  && evicted.value in t.stmts && t3.stmts == (t.stmts - {evicted.value})[q := s]
                  && t3.open == t.open + {s} - {t.stmts[evicted.value]})
  {
    var s := Stmt(t.nextId, q);
    assert t1 == t.(callers := t.callers[who := Missed(q)]);
    assert t2 == Table(t.stmts, t.open + {s}, t1.callers[who := Holding(s)], t.nextId + 1);
    evicted :| Publishes(max, t2, who, evicted, t3);
    assert t2.callers[who := Returned(s)] == t.callers[who := Returned(s)];
  }

  lemma ServeNext(max: nat, t: Table, qs: seq<string>, n: nat, t1: Table, t2: Table, t3: Table)
    requires max > 0 && n < |qs| && Distinct(qs) && Served(max, t, qs, n)
    requires Moves(max, t, Lookup(n, qs[n]), t1) && Moves(max, t1, Prepare(n, true), t2)
    requires Moves(max, t2, Publish(n), t3)
    ensures Served(max, t3, qs, n + 1)
  {
    hide Moves, Cached, Keyed, Distinct, AllReturned, First;
    NextIsNew(qs, n);
    FirstMore(qs, n);
    ReturnedMore(t.callers, qs, n);
    var evicted := NextCaller(max, t, n, qs[n], t1, t2, t3);
    ServePublish(max, t, Stmt(n, qs[n]), evicted, t3);
  }

  lemma ServePublish(max: nat, t: Table, s: Stmt, evicted: Option<string>, t3: Table)
    requires max > 0 && |t.stmts| <= max && s.query !in t.stmts && Keyed(t.stmts)
    requires forall x :: x in t.open ==> Cached(t.stmts, x)
    requires evicted.None? ==> |t.stmts| < max && t3.stmts == t.stmts[s.query := s] && t3.open == t.open + {s}
    requires evicted.Some? ==>
               && evicted.value in t.stmts && t3.stmts == (t.stmts - {evicted.value})[s.query := s]
               && t3.open == t.open + {s} - {t.stmts[evicted.value]}
    ensures |t3.stmts| <= max && forall x :: x in t3.open ==> Cached(t3.stmts, x)
    ensures t3.stmts.Keys <= t.stmts.Keys + {s.query} && s in t3.open && Keyed(t3.stmts)
  {
    if evicted.None? {
      assert t3.stmts.Keys == t.stmts.Keys + {s.query};
    } else {
      assert t3.stmts.Keys == t.stmts.Keys - {evicted.value} + {s.query};
    }
  }

  lemma {:induction false} ServeAll(max: nat, ts: seq<Table>, qs: seq<string>, n: nat)
    requires max > 0 && Distinct(qs) && n <= |qs| && Executes(max, ts, Callers(qs))
    ensures Served(max, ts[3 * n], qs, n)
  {
    hide Moves, Served;
    if n == 0 {
      ServedNone(max, qs);
    } else {
      var k := 3 * (n - 1);
      ServeAll(max, ts, qs, n - 1);
      CallersAt(qs, n - 1);
      assert Moves(max, ts[k], Callers(qs)[k], ts[k + 1]);
      assert Moves(max, ts[k + 1], Callers(qs)[k + 1], ts[k + 1 + 1]);
      assert Moves(max, ts[k + 2], Callers(qs)[k + 2], ts[k + 2 + 1]);
      ServeNext(max, ts[k], qs, n - 1, ts[k + 1], ts[k + 2], ts[k + 3]);
    }
  }

  lemma ServedNone(max: nat, qs: seq<string>)
    ensures Served(max, EMPTY, qs, 0)
  {
  }

  /** Some caller before the last is left with a closed statement. */
  ghost predicate ClosedEarlier(t: Table, qs: seq<string>) {
    exists who: nat :: who < |qs| - 1 && who in t.callers && t.callers[who] == Returned(Stmt(who, qs[who])) &&
                       Stmt(who, qs[who]) !in t.open
  }

  /** One caller more than the cache has room for: however the victims are picked, some caller ends
      up with a closed statement. */
  lemma TooManyCallers(max: nat, ts: seq<Table>, qs: seq<string>)
    requires max > 0 && Distinct(qs) && |qs| == max + 1 && Executes(max, ts, Callers(qs))
    ensures ClosedEarlier(ts[|Callers(qs)|], qs)
  {
    hide Executes;
    LastOf(max, ts, Callers(qs));
    var t := ts[|Callers(qs)|];
    ServeAll(max, ts, qs, |qs|);
    FirstSize(qs, |qs|);
    var all := First(qs, |qs|);
    if all <= t.stmts.Keys {
      SubsetSize(all, t.stmts.Keys);
      assert false;
    }
    var q :| q in all && q !in t.stmts;
    FirstHolds(qs, |qs|, q);
    var who :| 0 <= who < |qs| && qs[who] == q;
    assert Stmt(who, q) !in t.open;
  }

  // ----- there is a run of every schedule

  lemma SomeMove(max: nat, t: Table, a: Action) returns (t': Table)
    requires max > 0 && |t.stmts| <= max
    ensures Moves(max, t, a, t')
  {
    if !Enabled(t.callers, a) {
      return t;
    }
    match a
    case Lookup(who, q) =>
      t' := t.(callers := t.callers[who := if q in t.stmts then Returned(t.stmts[q]) else Missed(q)]);
    case Prepare(who, ok) =>
      var s := Stmt(t.nextId, t.callers[who].query);
      t' := if ok then t.(open := t.open + {s}, callers := t.callers[who := Holding(s)], nextId := t.nextId + 1)
      else t.(callers := t.callers - {who});
    case Publish(who) => t' := SomePublish(max, t, who);
    case CloseOwn(who) =>
      var p := t.callers[who];
      t' := t.(open := t.open - {p.stmt}, callers := t.callers[who := Returned(p.result)]);
    case CloseAll =>
      t' := t.(stmts := map[], open := set s | s in t.open && !Cached(t.stmts, s));
  }

  lemma SomePublish(max: nat, t: Table, who: nat) returns (t': Table)
    requires max > 0 && |t.stmts| <= max && who in t.callers && t.callers[who].Holding?
    ensures exists evicted :: Publishes(max, t, who, evicted, t')
  {
    var s := t.callers[who].stmt;
    if s.query in t.stmts {
      t' := t.(callers := t.callers[who := Losing(s, t.stmts[s.query])]);
      assert Publishes(max, t, who, None, t');
    } else if |t.stmts| < max {
      t' := t.(stmts := t.stmts[s.query := s], callers := t.callers[who := Returned(s)]);
      assert Publishes(max, t, who, None, t');
    } else {
      assert t.stmts.Keys != {};
      var k :| k in t.stmts;
      t' := Table((t.stmts - {k})[s.query := s], t.open - {t.stmts[k]}, t.callers[who := Returned(s)], t.nextId);
      assert Publishes(max, t, who, Some(k), t');
    }
  }

  lemma {:induction false} SomeRun(max: nat, schedule: seq<Action>) returns (ts: seq<Table>)
    requires max > 0
    ensures Executes(max, ts, schedule)
  {
    hide Moves, Fine;
    if schedule == [] {
      ts := [EMPTY];
    } else {
      var n := |schedule| - 1;
      var init := SomeRun(max, schedule[..n]);
      RunIsFine(max, init, schedule[..n], n);
      FineSize(max, init[n]);
      var t := SomeMove(max, init[n], schedule[n]);
      ts := init + [t];
      forall i | 0 <= i < |schedule|
        ensures Moves(max, ts[i], schedule[i], ts[i + 1])
      {
        if i < n {
          assert Moves(max, init[i], schedule[..n][i], init[i + 1]);
        }
      }
    }
  }

  lemma FineSize(max: nat, t: Table)
    requires Fine(max, t)
    ensures |t.stmts| <= max
  {
  }

  lemma {:induction false} Listing(queries: set<string>, n: nat) returns (qs: seq<string>)
    requires n <= |queries|
    ensures |qs| == n && Distinct(qs) && forall i :: 0 <= i < n ==> qs[i] in queries
    decreases n
  {
    if n == 0 {
      qs := [];
    } else {
      var q :| q in queries;
      var rest := Listing(queries - {q}, n - 1);
      qs := rest + [q];
    }
  }

  /** No run over a set of queries ever closes a statement that was handed out, exactly when the
      cache has room for the whole set. */
  lemma LastingExactly(max: nat, queries: set<string>)
    requires max > 0
    ensures (forall ts: seq<Table>, schedule: seq<Action> ::
               Executes(max, ts, schedule) && Uses(schedule, queries) ==> Lasting(ts))
            <==> |queries| <= max
  {
    hide Executes, Uses;
    if |queries| <= max {
      forall ts: seq<Table>, schedule: seq<Action> | Executes(max, ts, schedule) && Uses(schedule, queries)
        ensures Lasting(ts)
      {
        SmallSetLasts(max, ts, schedule, queries);
      }
    } else {
      var qs := Listing(queries, max + 1);
      CallersUse(qs, queries);
      var ts := SomeRun(max, Callers(qs));
      TooManyCallers(max, ts, qs);
      LastOf(max, ts, Callers(qs));
    }
  }

  lemma LastOf(max: nat, ts: seq<Table>, schedule: seq<Action>)
    requires Executes(max, ts, schedule)
    ensures |ts| == |schedule| + 1
  {
  }

  /** Such a run of a cache: with one query too many, a caller holds a closed statement. */
  method ClosedInUse(qs: seq<string>) returns (cache: PreparedCache)
    requires |qs| >= 2 && Distinct(qs)
    ensures fresh(cache) && cache.Valid() && cache.max == |qs| - 1
    ensures ClosedEarlier(cache.Snapshot(), qs)
  {
    hide Fine, Moves;
    cache := new PreparedCache(|qs| - 1);
    ghost var ts := cache.Run(Callers(qs));
    assert Executes(cache.max, ts, Callers(qs));
    TooManyCallers(cache.max, ts, qs);
  }
}
