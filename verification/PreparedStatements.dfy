/** The prepared-statement cache under concurrent use. `get` has four atomic sections: a lookup
    under the read lock, a prepare without any lock, a publish under the write lock, and, for a
    caller that finds the query published by another, the close of its own statement. Each section
    is a method here, so every interleaving of callers and of `Close` is some sequence of calls;
    `Run` makes that sequence explicit. */
module PreparedStatements {
  import opened Wrappers

  /** A driver statement; the number tells apart statements prepared from the same text. */
  datatype Stmt = Stmt(id: nat, query: string)

  /** Where a caller of `get` stands. */
  datatype Phase =
    | Missed(query: string)
    | Holding(stmt: Stmt)
    | Losing(stmt: Stmt, result: Stmt)
    | Returned(result: Stmt)

  datatype Action =
    | Lookup(who: nat, query: string)
    | Prepare(who: nat, ok: bool)
    | Publish(who: nat)
    | CloseOwn(who: nat)
    | CloseAll

  // ----- the invariant and the three ways the tables change

  predicate Cached(stmts: map<string, Stmt>, s: Stmt) {
    s.query in stmts && stmts[s.query] == s
  }

  /** The caller has a statement of its own that is not in the cache. */
  predicate Busy(p: Phase) {
    p.Holding? || p.Losing?
  }

  ghost predicate Held(callers: map<nat, Phase>, s: Stmt) {
    exists t :: t in callers && Busy(callers[t]) && callers[t].stmt == s
  }

  /** No two callers hold the same statement. */
  ghost predicate HeldOnce(callers: map<nat, Phase>) {
    forall t, u :: t in callers && u in callers && Busy(callers[t]) && Busy(callers[u]) ==>
      callers[t].stmt == callers[u].stmt ==> t == u
  }

  /** Cached statements are prepared from their own key; the open statements are those cached
      plus those that callers hold, and no statement is both. */
  ghost predicate Accounted(stmts: map<string, Stmt>, open: set<Stmt>, callers: map<nat, Phase>) {
    && (forall q :: q in stmts ==> stmts[q].query == q)
    && (forall s :: s in open <==> Cached(stmts, s) || Held(callers, s))
    && (forall s :: !(Cached(stmts, s) && Held(callers, s)))
    && HeldOnce(callers)
  }

  /** A statement taken from the cache for a caller is held by none. */
  ghost predicate Handed(callers: map<nat, Phase>, nextId: nat) {
    forall t :: t in callers && (callers[t].Returned? || callers[t].Losing?) ==>
      callers[t].result.id < nextId && !Held(callers, callers[t].result)
  }

  ghost predicate OthersStay(callers: map<nat, Phase>, callers': map<nat, Phase>, who: nat) {
    forall t :: t != who ==> (t in callers' <==> t in callers) && (t in callers' ==> callers'[t] == callers[t])
  }

  /** What one caller holds, if anything. */
  ghost function Own(callers: map<nat, Phase>, who: nat): Option<Stmt> {
    if who in callers && Busy(callers[who]) then Some(callers[who].stmt) else None
  }

  lemma HeldByOthers(callers: map<nat, Phase>, callers': map<nat, Phase>, who: nat, s: Stmt)
    requires OthersStay(callers, callers', who) && HeldOnce(callers)
    ensures Held(callers', s) <==> Own(callers', who) == Some(s) || (Held(callers, s) && Own(callers, who) != Some(s))
  {
    if Held(callers, s) && Own(callers, who) != Some(s) {
      var t :| t in callers && Busy(callers[t]) && callers[t].stmt == s;
      assert t in callers' && Busy(callers'[t]) && callers'[t].stmt == s;
    }
    if Held(callers', s) && Own(callers', who) != Some(s) {
      var t :| t in callers' && Busy(callers'[t]) && callers'[t].stmt == s;
      assert t in callers && Busy(callers[t]) && callers[t].stmt == s;
    }
  }

  /** How the held statements change when one caller moves. */
  lemma MoveOn(callers: map<nat, Phase>, callers': map<nat, Phase>, who: nat)
    requires OthersStay(callers, callers', who) && HeldOnce(callers)
    requires Own(callers', who).Some? && Own(callers', who) != Own(callers, who) ==>
               !Held(callers, Own(callers', who).value)
    ensures forall s :: Held(callers', s) <==>
              Own(callers', who) == Some(s) || (Held(callers, s) && Own(callers, who) != Some(s))
    ensures HeldOnce(callers')
  {
    forall s
      ensures Held(callers', s) <==>
              Own(callers', who) == Some(s) || (Held(callers, s) && Own(callers, who) != Some(s))
    {
      HeldByOthers(callers, callers', who, s);
    }
  }

  lemma OwnIsHeld(callers: map<nat, Phase>, who: nat)
    ensures Own(callers, who).Some? ==> Held(callers, Own(callers, who).value)
  {
  }

  /** Closing a cached statement and forgetting it. */
  lemma Forget(stmts: map<string, Stmt>, open: set<Stmt>, callers: map<nat, Phase>, k: string)
    requires Accounted(stmts, open, callers) && k in stmts
    ensures Accounted(stmts - {k}, open - {stmts[k]}, callers)
    ensures |stmts - {k}| == |stmts| - 1
  {
    hide Held;
    assert (stmts - {k}).Keys == stmts.Keys - {k};
    assert Cached(stmts, stmts[k]);
    assert forall s :: Cached(stmts - {k}, s) <==> Cached(stmts, s) && s != stmts[k];
  }

  /** Publishing a held statement under a key that is free. */
  lemma Enter(stmts: map<string, Stmt>, open: set<Stmt>, callers: map<nat, Phase>, who: nat)
    requires Accounted(stmts, open, callers) && who in callers && callers[who].Holding?
    requires callers[who].stmt.query !in stmts
    ensures var s := callers[who].stmt;
            && Accounted(stmts[s.query := s], open, callers[who := Returned(s)])
            && |stmts[s.query := s]| == |stmts| + 1 && s in open
  {
    hide Held, HeldOnce;
    var s := callers[who].stmt;
    var stmts', callers' := stmts[s.query := s], callers[who := Returned(s)];
    OwnIsHeld(callers, who);
    MoveOn(callers, callers', who);
    assert stmts'.Keys == stmts.Keys + {s.query};
    forall x
      ensures x in open <==> Cached(stmts', x) || Held(callers', x)
      ensures !(Cached(stmts', x) && Held(callers', x))
    {
      assert Cached(stmts', x) <==> x == s || Cached(stmts, x);
      assert Held(callers', x) <==> x != s && Held(callers, x);
    }
  }

  /** The key is taken: the caller still has its own statement and will return the cached one. */
  lemma Lose(stmts: map<string, Stmt>, open: set<Stmt>, callers: map<nat, Phase>, who: nat)
    requires Accounted(stmts, open, callers) && who in callers && callers[who].Holding?
    requires callers[who].stmt.query in stmts
    ensures var s := callers[who].stmt;
            && Accounted(stmts, open, callers[who := Losing(s, stmts[s.query])])
            && Cached(stmts, stmts[s.query]) && stmts[s.query] in open && stmts[s.query].query == s.query
  {
    hide Held, HeldOnce;
    var s := callers[who].stmt;
    OwnIsHeld(callers, who);
    assert Cached(stmts, stmts[s.query]);
    MoveOn(callers, callers[who := Losing(s, stmts[s.query])], who);
  }

  /** Closing the losing statement. */
  lemma Discard(stmts: map<string, Stmt>, open: set<Stmt>, callers: map<nat, Phase>, who: nat)
    requires Accounted(stmts, open, callers) && who in callers && callers[who].Losing?
    ensures Accounted(stmts, open - {callers[who].stmt}, callers[who := Returned(callers[who].result)])
  {
    hide Held, HeldOnce;
    OwnIsHeld(callers, who);
    MoveOn(callers, callers[who := Returned(callers[who].result)], who);
  }

  /** A caller that takes nothing new keeps what was handed out free of holders. */
  lemma HandOver(callers: map<nat, Phase>, callers': map<nat, Phase>, who: nat, nextId: nat)
    requires OthersStay(callers, callers', who) && HeldOnce(callers) && Handed(callers, nextId)
    requires Own(callers', who).None? || Own(callers', who) == Own(callers, who)
    requires who in callers' && (callers'[who].Returned? || callers'[who].Losing?) ==>
               callers'[who].result.id < nextId && !Held(callers', callers'[who].result)
    ensures Handed(callers', nextId)
  {
    MoveOn(callers, callers', who);
    OwnIsHeld(callers, who);
    hide Held, HeldOnce;
  }

  /** What the cache holds can be handed out. */
  lemma CachedIsFree(stmts: map<string, Stmt>, open: set<Stmt>, callers: map<nat, Phase>, who: nat, next: Phase,
                     nextId: nat)
    requires who in callers && callers[who].Holding? && (next.Returned? || next.Losing?)
    requires HeldOnce(callers) && Handed(callers, nextId) && Accounted(stmts, open, callers[who := next])
    requires Cached(stmts, next.result) && next.result.id < nextId
    requires next.Losing? ==> next.stmt == callers[who].stmt
    ensures Handed(callers[who := next], nextId)
  {
    hide Held, HeldOnce, Handed;
    HandOver(callers, callers[who := next], who, nextId);
  }

  lemma ResultStaysFree(stmts: map<string, Stmt>, open: set<Stmt>, callers: map<nat, Phase>, who: nat, nextId: nat)
    requires Accounted(stmts, open, callers) && Handed(callers, nextId) && who in callers && callers[who].Losing?
    ensures Handed(callers[who := Returned(callers[who].result)], nextId)
  {
    hide Held, HeldOnce;
    var callers' := callers[who := Returned(callers[who].result)];
    MoveOn(callers, callers', who);
    HandOver(callers, callers', who, nextId);
  }

  lemma AccountedOnce(stmts: map<string, Stmt>, open: set<Stmt>, callers: map<nat, Phase>)
    requires Accounted(stmts, open, callers)
    ensures HeldOnce(callers)
  {
  }

  lemma OnlyHeldLeft(stmts: map<string, Stmt>, open: set<Stmt>, callers: map<nat, Phase>)
    requires Accounted(stmts, open, callers)
    ensures forall s :: Held(callers, s) <==> s in open && !Cached(stmts, s)
  {
    hide Held, HeldOnce, Cached;
  }

  lemma NothingCached(open: set<Stmt>, callers: map<nat, Phase>)
    requires Accounted(map[], open, callers)
    ensures forall s :: s in open <==> Held(callers, s)
  {
  }

  // ----- one action as a relation

  /** The cache and its callers as a value. */
  datatype Table = Table(stmts: map<string, Stmt>, open: set<Stmt>, callers: map<nat, Phase>, nextId: nat)

  /** The cache is within bounds, its statements are open and prepared from their own keys, and
      the open statements are those cached plus those that callers hold. */
  ghost predicate Fine(max: nat, t: Table) {
    && 0 < max && |t.stmts| <= max
    && Accounted(t.stmts, t.open, t.callers)
    && (forall s :: s in t.open ==> s.id < t.nextId)
    && Handed(t.callers, t.nextId)
  }

  /** A caller acts only when its phase allows it. */
  predicate Enabled(callers: map<nat, Phase>, a: Action) {
    match a
    case Lookup(t, _) => t in callers ==> !Busy(callers[t])
    case Prepare(t, _) => t in callers && callers[t].Missed?
    case Publish(t) => t in callers && callers[t].Holding?
    case CloseOwn(t) => t in callers && callers[t].Losing?
    case CloseAll => true
  }

  /** Publishing: another caller was first, or there was room, or `evicted` gave way. */
  ghost predicate Publishes(max: nat, t: Table, who: nat, evicted: Option<string>, t': Table)
    requires who in t.callers && t.callers[who].Holding?
  {
    var s := t.callers[who].stmt;
    && s.query in t'.stmts && t'.nextId == t.nextId
    && t'.callers == t.callers[who := if s.query in t.stmts then Losing(s, t.stmts[s.query]) else Returned(s)]
    && if s.query in t.stmts then
         t'.stmts == t.stmts && t'.open == t.open && evicted == None
       else if evicted.None? then
         |t.stmts| < max && t'.stmts == t.stmts[s.query := s] && t'.open == t.open
       else
         && |t.stmts| == max && evicted.value in t.stmts
         && t'.stmts == (t.stmts - {evicted.value})[s.query := s]
         && t'.open == t.open - {t.stmts[evicted.value]}
  }

  /** One action of the schedule; an action out of place changes nothing. */
  ghost predicate Moves(max: nat, t: Table, a: Action, t': Table) {
    if !Enabled(t.callers, a) then t' == t
    else
      match a
      case Lookup(who, q) =>
        t' == t.(callers := t.callers[who := if q in t.stmts then Returned(t.stmts[q]) else Missed(q)])
      case Prepare(who, ok) =>
        var s := Stmt(t.nextId, t.callers[who].query);
        if ok then t' == t.(open := t.open + {s}, callers := t.callers[who := Holding(s)], nextId := t.nextId + 1)
        else t' == t.(callers := t.callers - {who})
      case Publish(who) => exists evicted :: Publishes(max, t, who, evicted, t')
      case CloseOwn(who) =>
        var p := t.callers[who];
        t' == t.(open := t.open - {p.stmt}, callers := t.callers[who := Returned(p.result)])
      case CloseAll =>
        && t'.stmts == map[] && t'.callers == t.callers && t'.nextId == t.nextId
        && forall s :: s in t'.open <==> s in t.open && !Cached(t.stmts, s)
  }

  // ----- every action keeps the invariant

  lemma LookupKeeps(max: nat, t: Table, who: nat, q: string)
    requires Fine(max, t) && (who in t.callers ==> !Busy(t.callers[who]))
    ensures Fine(max, t.(callers := t.callers[who := if q in t.stmts then Returned(t.stmts[q]) else Missed(q)]))
  {
    hide Held, HeldOnce;
    var next := if q in t.stmts then Returned(t.stmts[q]) else Missed(q);
    MoveOn(t.callers, t.callers[who := next], who);
    assert q in t.stmts ==> Cached(t.stmts, t.stmts[q]);
    HandOver(t.callers, t.callers[who := next], who, t.nextId);
  }

  lemma PrepareKeeps(max: nat, t: Table, who: nat)
    requires Fine(max, t) && who in t.callers && t.callers[who].Missed?
    ensures Fine(max, t.(callers := t.callers - {who}))
    ensures var s := Stmt(t.nextId, t.callers[who].query);
            s !in t.open && Fine(max, Table(t.stmts, t.open + {s}, t.callers[who := Holding(s)], t.nextId + 1))
  {
    hide Held, HeldOnce;
    MoveOn(t.callers, t.callers - {who}, who);
    HandOver(t.callers, t.callers - {who}, who, t.nextId);
    var s := Stmt(t.nextId, t.callers[who].query);
    assert s !in t.open;
    MoveOn(t.callers, t.callers[who := Holding(s)], who);
  }

  lemma PublishKeeps(max: nat, t: Table, who: nat, evicted: Option<string>, t': Table)
    requires Fine(max, t) && who in t.callers && t.callers[who].Holding? && Publishes(max, t, who, evicted, t')
    ensures Fine(max, t')
    ensures var q := t.callers[who].stmt.query; q in t'.stmts && t'.stmts[q] in t'.open && t'.stmts[q].query == q
  {
    hide Accounted, Held, HeldOnce, Handed;
    var s := t.callers[who].stmt;
    AccountedOnce(t.stmts, t.open, t.callers);
    if s.query in t.stmts {
      Lose(t.stmts, t.open, t.callers, who);
      CachedIsFree(t.stmts, t.open, t.callers, who, Losing(s, t.stmts[s.query]), t.nextId);
    } else {
      var stmts, open := t.stmts, t.open;
      if evicted.Some? {
        Forget(t.stmts, t.open, t.callers, evicted.value);
        stmts, open := t.stmts - {evicted.value}, t.open - {t.stmts[evicted.value]};
      }
      Enter(stmts, open, t.callers, who);
      CachedIsFree(stmts[s.query := s], open, t.callers, who, Returned(s), t.nextId);
    }
  }

  lemma CloseOwnKeeps(max: nat, t: Table, who: nat)
    requires Fine(max, t) && who in t.callers && t.callers[who].Losing?
    ensures var p := t.callers[who];
            Fine(max, t.(open := t.open - {p.stmt}, callers := t.callers[who := Returned(p.result)]))
  {
    hide Accounted, Held, HeldOnce;
    Discard(t.stmts, t.open, t.callers, who);
    ResultStaysFree(t.stmts, t.open, t.callers, who, t.nextId);
  }

  lemma CloseAllKeeps(max: nat, t: Table, t': Table)
    requires Fine(max, t) && Moves(max, t, CloseAll, t')
    ensures Fine(max, t')
  {
    hide Held, HeldOnce, Handed;
    OnlyHeldLeft(t.stmts, t.open, t.callers);
  }

  lemma MoveKeeps(max: nat, t: Table, a: Action, t': Table)
    requires Fine(max, t) && Moves(max, t, a, t')
    ensures Fine(max, t')
  {
    hide Fine, Cached;
    if Enabled(t.callers, a) {
      match a
      case Lookup(who, q) => LookupKeeps(max, t, who, q);
      case Prepare(who, ok) => PrepareKeeps(max, t, who);
      case Publish(who) =>
        var evicted :| Publishes(max, t, who, evicted, t');
        PublishKeeps(max, t, who, evicted, t');
      case CloseOwn(who) => CloseOwnKeeps(max, t, who);
      case CloseAll => CloseAllKeeps(max, t, t');
    }
  }

  class PreparedCache {
    const max: nat
    var stmts: map<string, Stmt>
    /** The statements the driver has open. */
    var open: set<Stmt>
    var callers: map<nat, Phase>
    var nextId: nat

    constructor (size: int)
      ensures Valid() && stmts == map[] && open == {} && callers == map[] && nextId == 0
      ensures max == if size <= 0 then 200 else size
    {
      max := if size <= 0 then 200 else size;
      stmts, open, callers, nextId := map[], {}, map[], 0;
    }

    ghost function Snapshot(): Table
      reads this
    {
      Table(stmts, open, callers, nextId)
    }

    ghost predicate Valid()
      reads this
    {
      Fine(max, Snapshot())
    }

    /** A handed-out statement is open for exactly as long as it stays in the cache: eviction and
        `Close` do not wait for its users. */
    lemma UsableExactlyWhileCached(t: nat)
      requires Valid() && t in callers && callers[t].Returned?
      ensures callers[t].result in open <==> Cached(stmts, callers[t].result)
    {
    }

    /** The lookup under the read lock. */
    method DoLookup(who: nat, query: string)
      requires Valid() && (who in callers ==> !Busy(callers[who]))
      modifies this`callers
      ensures Valid()
      ensures query in stmts ==>
                && callers == old(callers)[who := Returned(stmts[query])]
                && stmts[query] in open && stmts[query].query == query
      ensures query !in stmts ==> callers == old(callers)[who := Missed(query)]
    {
      hide Held, HeldOnce, Handed;
      LookupKeeps(max, Snapshot(), who, query);
      assert query in stmts ==> Cached(stmts, stmts[query]);
      callers := callers[who := if query in stmts then Returned(stmts[query]) else Missed(query)];
    }

    /** The driver may refuse; then the caller gets the error and holds nothing. */
    method DoPrepare(who: nat, ok: bool)
      requires Valid() && who in callers && callers[who].Missed?
      modifies this`callers, this`open, this`nextId
      ensures Valid()
      ensures !ok ==> callers == old(callers) - {who} && open == old(open) && nextId == old(nextId)
      ensures ok ==> var s := Stmt(old(nextId), old(callers)[who].query);
                     && s !in old(open) && open == old(open) + {s} && nextId == old(nextId) + 1
                     && callers == old(callers)[who := Holding(s)]
    {
      hide Fine;
      PrepareKeeps(max, Snapshot(), who);
      if !ok {
        callers := callers - {who};
      } else {
        var s := Stmt(nextId, callers[who].query);
        open := open + {s};
        callers := callers[who := Holding(s)];
        nextId := nextId + 1;
      }
    }

    /** The publish under the write lock. Another caller may have published first; otherwise a
        full cache gives up any one entry. */
    method DoPublish(who: nat) returns (evicted: Option<string>)
      requires Valid() && who in callers && callers[who].Holding?
      modifies this`callers, this`open, this`stmts
      ensures Valid() && Publishes(max, old(Snapshot()), who, evicted, Snapshot())
      ensures var q := old(callers)[who].stmt.query; q in stmts && stmts[q] in open && stmts[q].query == q
    {
      hide Accounted, Handed;
      var s := callers[who].stmt;
      evicted := None;
      if s.query in stmts {
        callers := callers[who := Losing(s, stmts[s.query])];
      } else {
        if |stmts| >= max {
          assert stmts.Keys != {};
          var k :| k in stmts;
          open := open - {stmts[k]};
          stmts := stmts - {k};
          evicted := Some(k);
        }
        stmts := stmts[s.query := s];
        callers := callers[who := Returned(s)];
      }
      PublishKeeps(max, old(Snapshot()), who, evicted, Snapshot());
    }

    /** The loser of a publish closes its own statement after the lock is released. */
    method DoCloseOwn(who: nat)
      requires Valid() && who in callers && callers[who].Losing?
      modifies this`callers, this`open
      ensures Valid()
      ensures open == old(open) - {old(callers)[who].stmt}
      ensures callers == old(callers)[who := Returned(old(callers)[who].result)]
    {
      hide Fine;
      var p := callers[who];
      CloseOwnKeeps(max, Snapshot(), who);
      open := open - {p.stmt};
      callers := callers[who := Returned(p.result)];
    }

    /** Closes and forgets every cached statement, one at a time. */
    method Close()
      requires Valid()
      modifies this`open, this`stmts
      ensures Valid() && stmts == map[]
      ensures forall s :: s in open <==> s in old(open) && !Cached(old(stmts), s)
    {
      hide Held, HeldOnce, Accounted, Handed;
      while stmts != map[]
        invariant Valid()
        decreases |stmts|
      {
        assert stmts.Keys != {};
        var k :| k in stmts;
        Forget(stmts, open, callers, k);
        open := open - {stmts[k]};
        stmts := stmts - {k};
      }
      NothingCached(open, callers);
      OnlyHeldLeft(old(stmts), old(open), callers);
    }

    method Do(a: Action)
      requires Valid()
      modifies this
      ensures Valid() && Moves(max, old(Snapshot()), a, Snapshot())
    {
      hide Fine, Cached;
      if Enabled(callers, a) {
        match a
        case Lookup(t, q) => DoLookup(t, q);
        case Prepare(t, ok) => DoPrepare(t, ok);
        case Publish(t) => var _ := DoPublish(t);
        case CloseOwn(t) => DoCloseOwn(t);
        case CloseAll => Close();
      }
    }

    /** Every interleaving, with all its intermediate states: each action does what it should,
        and the invariant holds throughout. */
    method Run(schedule: seq<Action>) returns (ghost states: seq<Table>)
      requires Valid()
      modifies this
      ensures |states| == |schedule| + 1 && states[0] == old(Snapshot()) && states[|schedule|] == Snapshot()
      ensures forall i :: 0 <= i < |states| ==> Fine(max, states[i])
      ensures forall i :: 0 <= i < |schedule| ==> Moves(max, states[i], schedule[i], states[i + 1])
    {
      hide Fine, Moves;
      states := [Snapshot()];
      for i := 0 to |schedule|
        invariant |states| == i + 1 && states[0] == old(Snapshot()) && states[i] == Snapshot()
        invariant forall j :: 0 <= j < |states| ==> Fine(max, states[j])
        invariant forall j :: 0 <= j < i ==> Moves(max, states[j], schedule[j], states[j + 1])
      {
        Do(schedule[i]);
        states := states + [Snapshot()];
      }
    }
  }
}
