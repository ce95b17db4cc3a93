/** The in-memory limiter and the Redis limiter side by side on the same requests. */
module LimiterAgreement {
  import opened Wrappers
  import opened TokenBucket
  import opened LimiterStore
  import opened LimiterRuns
  import opened RedisLimiter

  // ----- one key

  /** The trace runs forward up to `now`. */
  predicate Upto(es: seq<Event>, now: real) {
    && (forall i :: 0 <= i < |es| ==> es[i].at <= now)
    && (forall i, j :: 0 <= i < j < |es| ==> es[i].at <= es[j].at)
  }

  lemma {:induction false} VisitsKeepTimes(es: seq<Event>)
    ensures |VisitsOf(es)| == |es| && forall i :: 0 <= i < |es| ==> VisitsOf(es)[i].at == es[i].at
    decreases |es|
  {
    if es != [] {
      VisitsKeepTimes(es[..|es| - 1]);
    }
  }

  lemma TimesSnoc(es: seq<Event>, e: Event)
    ensures Times(es + [e]) == Times(es) + if e.Request? then [e.at] else []
  {
    assert (es + [e])[..|es|] == es;
    var v := if e.Request? then Call(e.at) else Sweep(e.at);
    assert (VisitsOf(es) + [v])[..|VisitsOf(es)|] == VisitsOf(es);
  }

  lemma {:induction false} TimesBounded(es: seq<Event>, now: real)
    requires forall i :: 0 <= i < |es| ==> es[i].at <= now
    ensures forall i :: 0 <= i < |Times(es)| ==> Times(es)[i] <= now
    decreases |es|
  {
    if es != [] {
      var init, e := es[..|es| - 1], es[|es| - 1];
      assert es == init + [e];
      TimesBounded(init, now);
      TimesSnoc(init, e);
    }
  }

  /** Both limiters know the same requests of the key, and the in-memory one lost only idle
      buckets: they answer alike. */
  lemma SameAnswer(c: Config, ttl: real, es: seq<Event>, asked: seq<real>, now: real)
    requires Sane(c) && ttl >= 0.0 && Gained(c, ttl) >= Cap(c)
    requires Upto(es, now) && IdleDrops(c, ttl, es) && Times(es) == asked
    ensures Admit(c, After(c, None, es), now).1 == Admit(c, Remembered(c, asked), now).1
  {
    hide Admit, Gained, After, IdleDrops;
    VisitsKeepTimes(es);
    SweptAnswersAsRemembered(c, ttl, es, now);
  }

  lemma UptoSnoc(es: seq<Event>, e: Event, before: real)
    requires Upto(es, before) && before <= e.at
    ensures Upto(es + [e], e.at)
  {
  }

  lemma UptoLater(es: seq<Event>, before: real, now: real)
    requires Upto(es, before) && before <= now
    ensures Upto(es, now)
  {
  }

  /** A trace with a live bucket ends with the request that used it last. */
  lemma LastUse(c: Config, es: seq<Event>)
    requires After(c, None, es).Some?
    ensures es != [] && es[|es| - 1] == Request(After(c, None, es).value.last)
  {
  }

  /** One key as both limiters know it: the same requests; unless its bucket was evicted, only idle
      buckets were dropped. */
  ghost predicate KeyInStep(c: Config, ttl: real, es: seq<Event>, asked: seq<real>, spared: bool, now: real) {
    Upto(es, now) && Times(es) == asked && (spared ==> IdleDrops(c, ttl, es))
  }

  function Later(now: real, deed: Deed): real {
    if deed.at > now then deed.at else now
  }

  lemma KeyStep(c: Config, ttl: real, es: seq<Event>, es': seq<Event>, deed: Deed, k: string, answer: bool,
                asked: seq<real>, was: bool, spared: bool, now: real)
    requires ttl >= 0.0 && KeyInStep(c, ttl, es, asked, was, now) && KeyMoved(c, ttl, es, es', deed, k, answer)
    requires (deed.Ask? ==> now <= deed.at) && (spared ==> was)
    requires spared && deed.Ask? && deed.key != k ==> es' == es
    ensures KeyInStep(c, ttl, es', asked + (if deed.Ask? && deed.key == k then [deed.at] else []), spared,
                      Later(now, deed))
  {
    hide IdleDrops, Times, After, Admit;
    assert asked + [] == asked;
    UptoLater(es, now, Later(now, deed));
    if es' != es {
      var e := es'[|es|];
      assert es' == es + [e];
      TimesSnoc(es, e);
      IdleDropsSnoc(c, ttl, es, e);
      if deed.Ask? {
        UptoSnoc(es, e, now);
      } else {
        LastUse(c, es);
        UptoSnoc(es, e, es[|es| - 1].at);
        UptoLater(es', e.at, Later(now, deed));
      }
    }
  }

  // ----- both limiters

  ghost predicate Paired(mem: Store, redis: RedisStore)
    reads mem, redis
  {
    && mem.Valid() && redis.Valid() && mem.c == redis.c && Sane(mem.c)
    && mem.ttl >= 0.0 && Gained(mem.c, mem.ttl) >= Cap(mem.c)
  }

  ghost predicate InStep(mem: Store, redis: RedisStore, gone: set<string>, now: real)
    reads mem, redis
  {
    forall k :: KeyInStep(mem.c, mem.ttl, mem.Trace(k), redis.Asked(k), k !in gone, now)
  }

  /** The same deed for both limiters; cleanups do not concern Redis, which expires its keys. */
  method Both(mem: Store, redis: RedisStore, deed: Deed, ghost gone: set<string>, ghost now: real)
    returns (a: bool, b: bool)
    requires Paired(mem, redis) && InStep(mem, redis, gone, now)
    requires deed.at >= 0.0 && (deed.Ask? ==> now <= deed.at) && (deed.Tidy? ==> deed.shard < SHARD_COUNT)
    modifies mem, redis
    ensures Paired(mem, redis) && Turn(mem.c, mem.hash, mem.ttl, old(mem.shards), deed, mem.shards, a)
    ensures InStep(mem, redis, gone + Evicted(mem.hash, old(mem.shards), deed, mem.shards), Later(now, deed))
    ensures forall k :: redis.Asked(k) == old(redis.Asked(k)) + if deed.Ask? && deed.key == k then [deed.at] else []
    ensures deed.Ask? ==> b == Admit(mem.c, Remembered(mem.c, old(redis.Asked(deed.key))), deed.at).1
    ensures deed.Tidy? || deed.key !in gone ==> a == b
  {
    hide Store.Valid, RedisStore.Valid, IdleDrops, Times, Admit, After, Remembered, Gained, Turn, Upto, KeyMoved;
    if deed.Ask? {
      var key := deed.key;
      assert KeyInStep(mem.c, mem.ttl, mem.Trace(key), redis.Asked(key), key !in gone, now);
      LastAsk(mem.Trace(key), now);
      UptoLater(mem.Trace(key), now, deed.at);
      if key !in gone {
        SameAnswer(mem.c, mem.ttl, mem.Trace(key), redis.Asked(key), deed.at);
      }
    }
    a := Serve(mem, deed);
    TurnSizes(mem.c, mem.hash, mem.ttl, old(mem.shards), deed, mem.shards, a);
    b := true;
    if deed.Ask? {
      b := redis.Allow(deed.key, deed.at);
      MovedOwn(mem.c, mem.ttl, old(mem.Trace(deed.key)), mem.Trace(deed.key), deed, a);
    } else {
      TidyAnswer(mem.c, mem.hash, mem.ttl, old(mem.shards), deed, mem.shards, a);
    }
    forall k
      ensures redis.Asked(k) == old(redis.Asked(k)) + if deed.Ask? && deed.key == k then [deed.at] else []
      ensures KeyInStep(mem.c, mem.ttl, mem.Trace(k), redis.Asked(k),
                        k !in gone + Evicted(mem.hash, old(mem.shards), deed, mem.shards), Later(now, deed))
    {
      assert old(redis.Asked(k)) + [] == old(redis.Asked(k));
      assert KeyMoved(mem.c, mem.ttl, old(mem.Trace(k)), mem.Trace(k), deed, k, a);
      assert old(KeyInStep(mem.c, mem.ttl, mem.Trace(k), redis.Asked(k), k !in gone, now));
      KeyStep(mem.c, mem.ttl, old(mem.Trace(k)), mem.Trace(k), deed, k, a, old(redis.Asked(k)), k !in gone,
              k !in gone + Evicted(mem.hash, old(mem.shards), deed, mem.shards), now);
    }
  }

  lemma LastAsk(es: seq<Event>, now: real)
    requires Upto(es, now)
    ensures Times(es) != [] ==> Times(es)[|Times(es)| - 1] <= now
  {
    TimesBounded(es, now);
  }

  lemma TurnSizes(c: Config, hash: string -> nat, ttl: real, shards: seq<Shard>, deed: Deed, shards': seq<Shard>,
                  answer: bool)
    requires Turn(c, hash, ttl, shards, deed, shards', answer)
    ensures |shards| == |shards'| == SHARD_COUNT
  {
  }

  lemma TidyAnswer(c: Config, hash: string -> nat, ttl: real, shards: seq<Shard>, deed: Deed, shards': seq<Shard>,
                   answer: bool)
    requires Turn(c, hash, ttl, shards, deed, shards', answer) && deed.Tidy?
    ensures answer
  {
  }

  lemma MovedOwn(c: Config, ttl: real, es: seq<Event>, es': seq<Event>, deed: Deed, answer: bool)
    requires deed.Ask? && KeyMoved(c, ttl, es, es', deed, deed.key, answer)
    ensures answer == Admit(c, After(c, None, es), deed.at).1
  {
  }

  // ----- runs

  /** The keys whose buckets requests have pushed out before step `i`. */
  ghost function GoneBefore(hash: string -> nat, stages: seq<seq<Shard>>, deeds: seq<Deed>, i: nat): set<string>
    requires i < |stages| && i <= |deeds| && forall j :: 0 <= j < |stages| ==> |stages[j]| == SHARD_COUNT
  {
    if i == 0 then {}
    else GoneBefore(hash, stages, deeds, i - 1) + Evicted(hash, stages[i - 1], deeds[i - 1], stages[i])
  }

  lemma {:induction false} GoneBeforePrefix(hash: string -> nat, stages: seq<seq<Shard>>, more: seq<Shard>,
                                            deeds: seq<Deed>, i: nat)
    requires i < |stages| && i <= |deeds| && |more| == SHARD_COUNT
    requires forall j :: 0 <= j < |stages| ==> |stages[j]| == SHARD_COUNT
    ensures GoneBefore(hash, stages + [more], deeds, i) == GoneBefore(hash, stages, deeds, i)
  {
    hide Evicted;
    if i > 0 {
      GoneBeforePrefix(hash, stages, more, deeds, i - 1);
    }
  }

  /** The times at which a key asks. */
  ghost function AskTimes(deeds: seq<Deed>, k: string): seq<real> {
    if deeds == [] then []
    else
      var init, d := deeds[..|deeds| - 1], deeds[|deeds| - 1];
      AskTimes(init, k) + if d.Ask? && d.key == k then [d.at] else []
  }

  /** The answers of both limiters up to some point: alike for every request of a key whose bucket
      has not been evicted by then, and on the Redis side those of a limiter without expiry. */
  ghost predicate Answered(c: Config, hash: string -> nat, stages: seq<seq<Shard>>, deeds: seq<Deed>, a: seq<bool>,
                           b: seq<bool>, asked: map<string, seq<real>>)
    requires |a| == |b| <= |deeds| && |stages| == |a| + 1
    requires forall j :: 0 <= j < |stages| ==> |stages[j]| == SHARD_COUNT
  {
    forall i :: 0 <= i < |a| ==>
      && (deeds[i].Tidy? || deeds[i].key !in GoneBefore(hash, stages, deeds, i) ==> a[i] == b[i])
      && (deeds[i].Ask? ==>
            b[i] == Admit(c, Remembered(c, AskedOf(asked, deeds[i].key) + AskTimes(deeds[..i], deeds[i].key)),
                          deeds[i].at).1)
  }

  ghost function AskedOf(asked: map<string, seq<real>>, k: string): seq<real> {
    if k in asked then asked[k] else []
  }

  lemma AnsweredSnoc(c: Config, hash: string -> nat, stages: seq<seq<Shard>>, more: seq<Shard>, deeds: seq<Deed>,
                     a: seq<bool>, b: seq<bool>, x: bool, y: bool, asked: map<string, seq<real>>)
    requires |a| == |b| < |deeds| && |stages| == |a| + 1 && |more| == SHARD_COUNT
    requires forall j :: 0 <= j < |stages| ==> |stages[j]| == SHARD_COUNT
    requires Answered(c, hash, stages, deeds, a, b, asked)
    requires var d := deeds[|a|];
             && (d.Tidy? || d.key !in GoneBefore(hash, stages, deeds, |a|) ==> x == y)
             && (d.Ask? ==> y == Admit(c, Remembered(c, AskedOf(asked, d.key) + AskTimes(deeds[..|a|], d.key)), d.at).1)
    ensures Answered(c, hash, stages + [more], deeds, a + [x], b + [y], asked)
  {
    hide GoneBefore, AskTimes, AskedOf, Admit, Remembered;
    var stages', a', b' := stages + [more], a + [x], b + [y];
    forall i | 0 <= i < |a'|
      ensures GoneBefore(hash, stages', deeds, i) == GoneBefore(hash, stages, deeds, i)
    {
      GoneBeforePrefix(hash, stages, more, deeds, i);
    }
    assert forall i :: 0 <= i < |a| ==> a'[i] == a[i] && b'[i] == b[i];
    assert a'[|a|] == x && b'[|a|] == y;
  }

  /** On every run of requests and cleanups the two limiters give a key the same answers until its
      bucket is evicted. */
  method Compare(mem: Store, redis: RedisStore, deeds: seq<Deed>)
    returns (a: seq<bool>, b: seq<bool>, ghost stages: seq<seq<Shard>>)
    requires Paired(mem, redis) && InOrder(deeds) && InStep(mem, redis, {}, 0.0)
    modifies mem, redis
    ensures |a| == |b| == |deeds| && Turns(mem, stages, deeds, a)
    ensures stages[0] == old(mem.shards) && stages[|deeds|] == mem.shards
    ensures forall j :: 0 <= j < |stages| ==> |stages[j]| == SHARD_COUNT
    ensures Answered(mem.c, mem.hash, stages, deeds, a, b, old(redis.asked))
  {
    hide Paired, InStep, Turn, Answered, GoneBefore, Evicted, AskTimes, Admit, Remembered;
    a, b, stages := [], [], [mem.shards];
    ghost var gone, now := {}, 0.0;
    Start(mem, redis, deeds);
    for i := 0 to |deeds|
      invariant |a| == |b| == i && Turns(mem, stages, deeds, a)
      invariant stages[0] == old(mem.shards) && stages[i] == mem.shards
      invariant forall j :: 0 <= j < |stages| ==> |stages[j]| == SHARD_COUNT
      invariant Paired(mem, redis) && gone == GoneBefore(mem.hash, stages, deeds, i) && InStep(mem, redis, gone, now)
      invariant now >= 0.0 && forall j :: i <= j < |deeds| && deeds[j].Ask? ==> now <= deeds[j].at
      invariant forall k :: redis.Asked(k) == old(redis.Asked(k)) + AskTimes(deeds[..i], k)
      invariant Answered(mem.c, mem.hash, stages, deeds, a, b, old(redis.asked))
    {
      label before:
      var x, y := Both(mem, redis, deeds[i], gone, now);
      TurnSizes(mem.c, mem.hash, mem.ttl, old@before(mem.shards), deeds[i], mem.shards, x);
      AnsweredSnoc(mem.c, mem.hash, stages, mem.shards, deeds, a, b, x, y, old(redis.asked));
      GoneStep(mem.hash, stages, mem.shards, deeds, i);
      forall k
        ensures redis.Asked(k) == old(redis.Asked(k)) + AskTimes(deeds[..i + 1], k)
      {
        AskTimesStep(deeds, i, k, old(redis.Asked(k)));
      }
      gone, now := gone + Evicted(mem.hash, old@before(mem.shards), deeds[i], mem.shards), Later(now, deeds[i]);
      a, b, stages := a + [x], b + [y], stages + [mem.shards];
    }
  }

  lemma Start(mem: Store, redis: RedisStore, deeds: seq<Deed>)
    requires Paired(mem, redis)
    ensures |mem.shards| == SHARD_COUNT && GoneBefore(mem.hash, [mem.shards], deeds, 0) == {}
    ensures forall k :: redis.Asked(k) == redis.Asked(k) + AskTimes(deeds[..0], k)
    ensures Answered(mem.c, mem.hash, [mem.shards], deeds, [], [], redis.asked)
  {
  }

  lemma GoneStep(hash: string -> nat, stages: seq<seq<Shard>>, more: seq<Shard>, deeds: seq<Deed>, i: nat)
    requires |stages| == i + 1 && i < |deeds| && |more| == SHARD_COUNT
    requires forall j :: 0 <= j < |stages| ==> |stages[j]| == SHARD_COUNT
    ensures GoneBefore(hash, stages + [more], deeds, i + 1) ==
            GoneBefore(hash, stages, deeds, i) + Evicted(hash, stages[i], deeds[i], more)
  {
    hide Evicted;
    GoneBeforePrefix(hash, stages, more, deeds, i);
  }

  lemma AskTimesStep(deeds: seq<Deed>, i: nat, k: string, before: seq<real>)
    requires i < |deeds|
    ensures before + AskTimes(deeds[..i + 1], k) ==
            before + AskTimes(deeds[..i], k) + if deeds[i].Ask? && deeds[i].key == k then [deeds[i].at] else []
  {
    assert deeds[..i + 1][..i] == deeds[..i];
  }

  // ----- runs without eviction

  function KeysOf(deeds: seq<Deed>): set<string> {
    set i | 0 <= i < |deeds| && deeds[i].Ask? :: deeds[i].key
  }

  function KeysFor(hash: string -> nat, deeds: seq<Deed>, shard: nat): set<string> {
    set k | k in KeysOf(deeds) && hash(k) % SHARD_COUNT == shard
  }

  /** No shard is asked for more keys than it holds. */
  predicate FewKeys(hash: string -> nat, deeds: seq<Deed>) {
    forall s :: 0 <= s < SHARD_COUNT ==> |KeysFor(hash, deeds, s)| <= MAX_ENTRIES
  }

  /** Every bucket belongs to a key that asks in the run. */
  ghost predicate OnlyAskers(hash: string -> nat, deeds: seq<Deed>, shards: seq<Shard>)
    requires |shards| == SHARD_COUNT
  {
    forall s :: 0 <= s < SHARD_COUNT ==> shards[s].Keys <= KeysFor(hash, deeds, s)
  }

  lemma FewKeysStep(c: Config, hash: string -> nat, ttl: real, deeds: seq<Deed>, i: nat, shards: seq<Shard>,
                    shards': seq<Shard>, answer: bool)
    requires i < |deeds| && FewKeys(hash, deeds) && Turn(c, hash, ttl, shards, deeds[i], shards', answer)
    requires OnlyAskers(hash, deeds, shards)
    ensures OnlyAskers(hash, deeds, shards') && Evicted(hash, shards, deeds[i], shards') == {}
  {
    hide Admit, EvictedOldest;
    if deeds[i].Ask? {
      var key := deeds[i].key;
      var s := hash(key) % SHARD_COUNT;
      assert key in KeysOf(deeds);
      assert key in KeysFor(hash, deeds, s);
      if key !in shards[s] && |shards[s]| >= MAX_ENTRIES {
        assert |shards[s].Keys + {key}| == |shards[s].Keys| + 1;
        SubsetSize(shards[s].Keys + {key}, KeysFor(hash, deeds, s));
        assert false;
      }
    }
  }

  /** From empty shards, a run that asks no shard for more keys than it holds evicts nothing. */
  lemma {:induction false} FewKeysEvictNothing(c: Config, hash: string -> nat, ttl: real, stages: seq<seq<Shard>>,
                                               deeds: seq<Deed>, a: seq<bool>, i: nat)
    requires i <= |a| == |deeds| && |stages| == |a| + 1 && FewKeys(hash, deeds)
    requires forall j :: 0 <= j < |stages| ==> |stages[j]| == SHARD_COUNT
    requires forall j :: 0 <= j < |a| ==> Turn(c, hash, ttl, stages[j], deeds[j], stages[j + 1], a[j])
    requires OnlyAskers(hash, deeds, stages[0])
    ensures OnlyAskers(hash, deeds, stages[i]) && GoneBefore(hash, stages, deeds, i) == {}
  {
    hide Turn, OnlyAskers, Evicted, FewKeys;
    if i > 0 {
      FewKeysEvictNothing(c, hash, ttl, stages, deeds, a, i - 1);
      FewKeysStep(c, hash, ttl, deeds, i - 1, stages[i - 1], stages[i], a[i - 1]);
    }
  }

  lemma {:induction false} GoneGrows(hash: string -> nat, stages: seq<seq<Shard>>, deeds: seq<Deed>, i: nat, j: nat)
    requires i <= j < |stages| && j <= |deeds| && forall n :: 0 <= n < |stages| ==> |stages[n]| == SHARD_COUNT
    ensures GoneBefore(hash, stages, deeds, i) <= GoneBefore(hash, stages, deeds, j)
    decreases j
  {
    if i < j {
      GoneGrows(hash, stages, deeds, i, j - 1);
    }
  }

  /** When nothing is evicted the two limiters make the same decisions throughout. */
  lemma NothingGoneAgree(c: Config, hash: string -> nat, stages: seq<seq<Shard>>, deeds: seq<Deed>, a: seq<bool>,
                         b: seq<bool>, asked: map<string, seq<real>>)
    requires |a| == |b| == |deeds| && |stages| == |a| + 1
    requires forall j :: 0 <= j < |stages| ==> |stages[j]| == SHARD_COUNT
    requires Answered(c, hash, stages, deeds, a, b, asked) && GoneBefore(hash, stages, deeds, |deeds|) == {}
    ensures a == b
  {
    hide GoneBefore, AskTimes, AskedOf, Admit, Remembered;
    forall i | 0 <= i < |a|
      ensures a[i] == b[i]
    {
      GoneGrows(hash, stages, deeds, i, |deeds|);
    }
  }

  /** Two new limiters with the same settings: alike whenever nothing is evicted, in particular when
      no shard is asked for more keys than it holds. */
  method CompareNew(c: Config, ttl: real, hash: string -> nat, deeds: seq<Deed>)
    returns (a: seq<bool>, b: seq<bool>, ghost stages: seq<seq<Shard>>)
    requires Sane(c) && ttl >= 0.0 && Gained(c, ttl) >= Cap(c) && InOrder(deeds)
    ensures |a| == |b| == |deeds| && |stages| == |deeds| + 1 && stages[0] == seq(SHARD_COUNT, _ => map[])
    ensures forall j :: 0 <= j < |stages| ==> |stages[j]| == SHARD_COUNT
    ensures forall j :: 0 <= j < |deeds| ==> Turn(c, hash, ttl, stages[j], deeds[j], stages[j + 1], a[j])
    ensures Answered(c, hash, stages, deeds, a, b, map[])
    ensures GoneBefore(hash, stages, deeds, |deeds|) == {} ==> a == b
    ensures FewKeys(hash, deeds) ==> GoneBefore(hash, stages, deeds, |deeds|) == {}
  {
    hide Turn, Answered, FewKeys, InOrder, Gained;
    var mem := new Store(c, ttl, hash);
    var redis := new RedisStore(c);
    NewInStep(mem, redis);
    a, b, stages := Compare(mem, redis, deeds);
    if FewKeys(hash, deeds) {
      FewKeysEvictNothing(c, hash, ttl, stages, deeds, a, |deeds|);
    }
    if GoneBefore(hash, stages, deeds, |deeds|) == {} {
      NothingGoneAgree(c, hash, stages, deeds, a, b, map[]);
    }
  }

  lemma NewInStep(mem: Store, redis: RedisStore)
    requires mem.trace == map[] && redis.asked == map[]
    ensures InStep(mem, redis, {}, 0.0)
  {
  }
}
