/** Runs of the in-memory limiter: requests and per-shard cleanups in any order, and the bound on
    what a window admits. */
module LimiterRuns {
  import opened Wrappers
  import opened TokenBucket
  import opened LimiterStore

  /** A request, or the cleanup of one shard. */
  datatype Deed = Ask(key: string, at: real) | Tidy(shard: nat, at: real)

  /** Request times do not go back, nor behind a cleanup. A cleanup may carry an older time: it
      read the clock when its tick began. */
  predicate InOrder(deeds: seq<Deed>) {
    && (forall i :: 0 <= i < |deeds| ==> deeds[i].at >= 0.0 && (deeds[i].Tidy? ==> deeds[i].shard < SHARD_COUNT))
    && (forall i, j :: 0 <= i < j < |deeds| && deeds[j].Ask? ==> deeds[i].at <= deeds[j].at)
  }

  /** What one deed does to the shards, and the answer to a request. */
  ghost predicate Turn(c: Config, hash: string -> nat, ttl: real, shards: seq<Shard>, deed: Deed, shards': seq<Shard>,
                       answer: bool) {
    && |shards| == |shards'| == SHARD_COUNT
    && match deed
       case Ask(key, at) =>
         var i := hash(key) % SHARD_COUNT;
         ShardStep(c, shards[i], shards'[i], key, at, answer) && shards' == shards[i := shards'[i]]
       case Tidy(i, at) => i < SHARD_COUNT && shards' == shards[i := Swept(shards[i], at, ttl)] && answer
  }

  /** The requests of a key that were let through. */
  ghost function Passed(deeds: seq<Deed>, answers: seq<bool>, k: string): nat
    requires |answers| <= |deeds|
    decreases |answers|
  {
    if answers == [] then 0
    else
      var n := |answers| - 1;
      Passed(deeds, answers[..n], k) + if deeds[n].Ask? && deeds[n].key == k && answers[n] then 1 else 0
  }

  // ----- one key

  /** The new part of a key's trace admits exactly what was answered. */
  ghost predicate KeyServed(c: Config, before: seq<Event>, es: seq<Event>, passed: nat, from: real, now: real) {
    && before <= es
    && Timely(es[|before|..], from, now)
    && Admitted(c, After(c, None, before), es[|before|..]) == passed
  }

  lemma {:induction false} AfterConcat(c: Config, b: Option<Bucket>, x: seq<Event>, y: seq<Event>)
    ensures After(c, b, x + y) == After(c, After(c, b, x), y)
    decreases |y|
  {
    if y == [] {
      assert x + y == x;
    } else {
      assert (x + y)[..|x + y| - 1] == x + y[..|y| - 1];
      AfterConcat(c, b, x, y[..|y| - 1]);
    }
  }

  lemma KeyServedSnoc(c: Config, before: seq<Event>, es: seq<Event>, e: Event, passed: nat, from: real, now: real,
                      later: real)
    requires KeyServed(c, before, es, passed, from, now)
    requires now <= later && (e.Request? ==> from <= now && e.at == later)
    ensures var more := if e.Request? && Admit(c, After(c, None, es), e.at).1 then 1 else 0;
            KeyServed(c, before, es + [e], passed + more, from, later)
  {
    hide Admit;
    var tail := es[|before|..];
    assert es == before + tail;
    AfterConcat(c, None, before, tail);
    assert (es + [e])[|before|..] == tail + [e];
    assert (tail + [e])[..|tail|] == tail;
  }

  lemma KeyServedLater(c: Config, before: seq<Event>, es: seq<Event>, passed: nat, from: real, now: real, later: real)
    requires KeyServed(c, before, es, passed, from, now) && now <= later
    ensures KeyServed(c, before, es, passed, from, later)
  {
    hide Admitted, After;
  }

  // ----- runs

  predicate Within(deeds: seq<Deed>, from: real, to: real) {
    forall i :: 0 <= i < |deeds| && deeds[i].Ask? ==> from <= deeds[i].at <= to
  }

  /** What one deed adds to a key's trace. A request of another key may drop it by eviction, a
      cleanup only when it has been idle for longer than `ttl`. */
  ghost predicate KeyMoved(c: Config, ttl: real, es: seq<Event>, es': seq<Event>, deed: Deed, k: string, answer: bool) {
    if deed.Ask? && deed.key == k then
      es' == es + [Request(deed.at)] && answer == Admit(c, After(c, None, es), deed.at).1
    else
      || es' == es
      || (&& es != [] && es' == es + [Drop(deed.at)]
          && (deed.Tidy? ==> IdleAt(After(c, None, es), deed.at, ttl)))
  }

  predicate IdleAt(b: Option<Bucket>, now: real, ttl: real) {
    b.Some? && now - b.value.last > ttl
  }

  /** The buckets a request pushes out of its shard. */
  ghost function Evicted(hash: string -> nat, shards: seq<Shard>, deed: Deed, shards': seq<Shard>): set<string>
    requires |shards| == |shards'| == SHARD_COUNT
  {
    if deed.Tidy? then {}
    else
      var i := hash(deed.key) % SHARD_COUNT;
      set k | k in shards[i] && k != deed.key && k !in shards'[i]
  }

  /** One deed, as the shards and as every key sees it. */
  method Serve(store: Store, deed: Deed) returns (answer: bool)
    requires store.Valid() && (deed.Tidy? ==> deed.shard < SHARD_COUNT)
    modifies store
    ensures store.Valid() && Turn(store.c, store.hash, store.ttl, old(store.shards), deed, store.shards, answer)
    ensures forall k :: KeyMoved(store.c, store.ttl, old(store.Trace(k)), store.Trace(k), deed, k, answer)
    ensures forall k :: (deed.Ask? && deed.key == k) || k in Evicted(store.hash, old(store.shards), deed, store.shards)
                        || deed.Tidy? || store.Trace(k) == old(store.Trace(k))
  {
    hide Store.Valid, After, Admit, ShardStep, Swept, IdleDrops;
    store.Sized();
    TracedBuckets(store);
    match deed
    case Ask(key, at) =>
      answer := store.Allow(key, at);
      store.Sized();
      forall k
        ensures KeyMoved(store.c, store.ttl, old(store.Trace(k)), store.Trace(k), deed, k, answer)
        ensures k == key || k in Evicted(store.hash, old(store.shards), deed, store.shards)
                || store.Trace(k) == old(store.Trace(k))
      {
        if k != key {
          assert KeyUntouched(store.hash, old(store.shards), store.shards, old(store.trace), store.trace, k)
              || KeyEvicted(store.hash, old(store.shards), store.shards, old(store.trace), store.trace, key, at, k);
          assert old(store.Lookup(k)) == Find(store.hash, old(store.shards), k);
        }
      }
    case Tidy(i, at) =>
      store.CleanShard(i, at);
      answer := true;
  }

  lemma TracedBuckets(store: Store)
    requires store.Valid() && |store.shards| == SHARD_COUNT
    ensures Sane(store.c) && forall k :: store.Lookup(k) == After(store.c, None, store.Trace(k))
    ensures forall k :: store.Lookup(k).Some? ==> store.Trace(k) != []
  {
  }

  ghost predicate Turns(store: Store, stages: seq<seq<Shard>>, deeds: seq<Deed>, answers: seq<bool>)
  {
    && |stages| == |answers| + 1 && |answers| <= |deeds|
    && forall i :: 0 <= i < |answers| ==>
         Turn(store.c, store.hash, store.ttl, stages[i], deeds[i], stages[i + 1], answers[i])
  }

  /** On every run the requests of a key let through in a window of length T are at most
      (1+k) * burst + rate * T, where k counts the removals of its bucket in the window. */
  method ServeAll(store: Store, deeds: seq<Deed>, ghost from: real, ghost to: real)
    returns (answers: seq<bool>, ghost stages: seq<seq<Shard>>)
    requires store.Valid() && InOrder(deeds) && Within(deeds, from, to) && from <= to
    requires |store.shards| == SHARD_COUNT && forall k :: Settled(store.c, store.Lookup(k), from)
    modifies store
    ensures store.Valid() && |answers| == |deeds| && Turns(store, stages, deeds, answers)
    ensures stages[0] == old(store.shards) && stages[|deeds|] == store.shards
    ensures forall k :: WindowKept(store.c, old(store.Trace(k)), store.Trace(k), Passed(deeds, answers, k), to - from)
  {
    hide Store.Valid, Turn, KeyMoved, KeyServed, Find, Passed, WindowKept, After;
    answers, stages := [], [store.shards];
    TracedBuckets(store);
    assert forall k :: Settled(store.c, After(store.c, None, store.Trace(k)), from);
    ghost var now := from;
    NothingPassed(deeds);
    forall k
      ensures KeyServed(store.c, store.Trace(k), store.Trace(k), 0, from, from)
    {
      KeyServedNothing(store.c, store.Trace(k), from);
    }
    for i := 0 to |deeds|
      invariant store.Valid() && |answers| == i && Turns(store, stages, deeds, answers)
      invariant stages[0] == old(store.shards) && stages[i] == store.shards
      invariant from <= now <= to && forall j :: i <= j < |deeds| && deeds[j].Ask? ==> now <= deeds[j].at
      invariant forall k ::
                  KeyServed(store.c, old(store.Trace(k)), store.Trace(k), Passed(deeds, answers, k), from, now)
    {
      label before:
      var answer := Serve(store, deeds[i]);
      ghost var later := if deeds[i].Ask? then deeds[i].at else now;
      forall k
        ensures KeyServed(store.c, old(store.Trace(k)), store.Trace(k), Passed(deeds, answers + [answer], k), from,
                          later)
      {
        assert KeyMoved(store.c, store.ttl, old@before(store.Trace(k)), store.Trace(k), deeds[i], k, answer);
        KeyServedMove(store.c, store.ttl, old(store.Trace(k)), old@before(store.Trace(k)), store.Trace(k), deeds,
                      answers, answer, k, from, now, later);
      }
      answers, stages, now := answers + [answer], stages + [store.shards], later;
    }
    forall k
      ensures WindowKept(store.c, old(store.Trace(k)), store.Trace(k), Passed(deeds, answers, k), to - from)
    {
      KeyWindow(store.c, old(store.Trace(k)), store.Trace(k), Passed(deeds, answers, k), from, now, to);
    }
  }

  /** At most (1+k) * burst + rate * span, where k counts the removals in the new part of the trace. */
  ghost predicate WindowKept(c: Config, before: seq<Event>, es: seq<Event>, passed: nat, span: real) {
    before <= es && passed as real <= Granted(c, 1 + Drops(es[|before|..])) + Gained(c, span)
  }

  lemma KeyWindow(c: Config, before: seq<Event>, es: seq<Event>, passed: nat, from: real, now: real, to: real)
    requires Sane(c) && from <= now <= to && KeyServed(c, before, es, passed, from, now)
    requires Settled(c, After(c, None, before), from)
    ensures WindowKept(c, before, es, passed, to - from)
  {
    hide Admitted, After, Granted, Gained;
    KeyServedLater(c, before, es, passed, from, now, to);
    WindowBound(c, After(c, None, before), es[|before|..], from, to);
  }

  lemma NothingPassed(deeds: seq<Deed>)
    ensures forall k :: Passed(deeds, [], k) == 0
  {
  }

  lemma PassedSnoc(deeds: seq<Deed>, answers: seq<bool>, answer: bool, k: string)
    requires |answers| < |deeds|
    ensures var deed := deeds[|answers|];
            Passed(deeds, answers + [answer], k) ==
            Passed(deeds, answers, k) + if deed.Ask? && deed.key == k && answer then 1 else 0
  {
    assert (answers + [answer])[..|answers|] == answers;
  }

  lemma KeyServedNothing(c: Config, es: seq<Event>, from: real)
    ensures KeyServed(c, es, es, 0, from, from)
  {
    assert es[|es|..] == [];
  }

  lemma KeyServedMove(c: Config, ttl: real, before: seq<Event>, es: seq<Event>, es': seq<Event>, deeds: seq<Deed>,
                      answers: seq<bool>, answer: bool, k: string, from: real, now: real, later: real)
    requires |answers| < |deeds| && from <= now <= later
    requires KeyServed(c, before, es, Passed(deeds, answers, k), from, now)
    requires KeyMoved(c, ttl, es, es', deeds[|answers|], k, answer)
    requires deeds[|answers|].Ask? ==> deeds[|answers|].at == later
    ensures KeyServed(c, before, es', Passed(deeds, answers + [answer], k), from, later)
  {
    hide KeyServed, Admit, After, Passed;
    var deed := deeds[|answers|];
    PassedSnoc(deeds, answers, answer, k);
    if deed.Ask? && deed.key == k {
      KeyServedSnoc(c, before, es, Request(deed.at), Passed(deeds, answers, k), from, now, later);
    } else if es' == es {
      KeyServedLater(c, before, es, Passed(deeds, answers, k), from, now, later);
    } else {
      KeyServedSnoc(c, before, es, Drop(deed.at), Passed(deeds, answers, k), from, now, later);
    }
  }
}
