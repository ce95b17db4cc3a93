/** The in-memory limiter: sharded bucket maps, eviction of the oldest entries of a full shard,
    and the background cleanup. Each method takes the time it would read from the clock. */
module LimiterStore {
  import opened Wrappers
  import opened TokenBucket

  const SHARD_COUNT: nat := 32
  const MAX_ENTRIES: nat := 10000

  type Shard = map<string, Bucket>

  // ----- eviction

  datatype KeyAge = KeyAge(key: string, last: real)

  ghost function Ages(m: Shard): set<KeyAge> {
    set k | k in m :: KeyAge(k, m[k].last)
  }

  /** A list that holds each element of a set once. */
  ghost predicate Lists<T>(s: seq<T>, elements: set<T>) {
    multiset(s) == multiset(elements)
  }

  lemma ListsMeans<T>(s: seq<T>, elements: set<T>)
    requires Lists(s, elements)
    ensures forall i, j :: 0 <= i < j < |s| ==> s[i] != s[j]
    ensures forall x :: x in s <==> x in elements
    ensures |s| == |elements|
  {
    forall i, j | 0 <= i < j < |s|
      ensures s[i] != s[j]
    {
      if s[i] == s[j] { Twice(s, i, j); }
    }
    forall x
      ensures x in s <==> x in elements
    {
      assert x in s <==> x in multiset(s);
    }
    assert |multiset(s)| == |s| && |multiset(elements)| == |elements|;
  }

  lemma Twice<T>(s: seq<T>, i: nat, j: nat)
    requires i < j < |s| && s[i] == s[j]
    ensures multiset(s)[s[i]] >= 2
  {
    assert s == s[..i] + [s[i]] + s[i + 1..j] + [s[j]] + s[j + 1..];
  }

  method AgesOf(m: Shard) returns (entries: seq<KeyAge>)
    ensures Lists(entries, Ages(m))
  {
    entries := [];
    var todo := m.Keys;
    ghost var done: set<KeyAge> := {};
    while todo != {}
      invariant todo <= m.Keys
      invariant done == set k | k in m && k !in todo :: KeyAge(k, m[k].last)
      invariant Lists(entries, done)
    {
      var k :| k in todo;
      var e := KeyAge(k, m[k].last);
      assert e !in done;
      todo := todo - {k};
      entries := entries + [e];
      done := done + {e};
    }
    assert done == Ages(m);
  }

  ghost predicate SameItems(a: seq<KeyAge>, b: seq<KeyAge>) {
    multiset(a) == multiset(b)
  }

  method Swap(a: array<KeyAge>, i: nat, j: nat)
    requires i < j < a.Length
    modifies a
    ensures a[..] == old(a[..])[i := old(a[j])][j := old(a[i])]
    ensures SameItems(a[..], old(a[..]))
  {
    a[i], a[j] := a[j], a[i];
  }

  predicate Oldest(s: seq<KeyAge>, i: nat, upTo: nat)
    requires i < |s| && upTo <= |s|
  {
    forall k :: i < k < upTo ==> s[i].last <= s[k].last
  }

  /** Each of the first `n` entries is no newer than any entry after it. */
  predicate SortedUpTo(s: seq<KeyAge>, n: nat)
    requires n <= |s|
  {
    forall i, k :: 0 <= i < n && i < k < |s| ==> s[i].last <= s[k].last
  }

  /** The exchange sort, oldest first. */
  method SortByAge(a: array<KeyAge>)
    modifies a
    ensures SortedUpTo(a[..], a.Length) && SameItems(a[..], old(a[..]))
  {
    hide SameItems;
    Same(a[..], a[..], a[..]);
    for i := 0 to a.Length
      invariant SortedUpTo(a[..], i) && SameItems(a[..], old(a[..]))
    {
      ghost var before := a[..];
      PullOldest(a, i);
      Same(a[..], before, old(a[..]));
    }
  }

  /** The inner loop: exchanges bring the oldest remaining entry to place `i`. */
  method PullOldest(a: array<KeyAge>, i: nat)
    requires i < a.Length && SortedUpTo(a[..], i)
    modifies a
    ensures SortedUpTo(a[..], i + 1) && SameItems(a[..], old(a[..]))
  {
    hide SameItems;
    Same(a[..], a[..], a[..]);
    for j := i + 1 to a.Length
      invariant SortedUpTo(a[..], i) && Oldest(a[..], i, j) && SameItems(a[..], old(a[..]))
    {
      if a[j].last < a[i].last {
        ghost var before := a[..];
        Swap(a, i, j);
        ExchangeKeeps(before, i, j);
        Same(a[..], before, old(a[..]));
      }
    }
  }

  lemma Same(a: seq<KeyAge>, b: seq<KeyAge>, c: seq<KeyAge>)
    ensures SameItems(a, a)
    ensures SameItems(a, b) && SameItems(b, c) ==> SameItems(a, c)
  {
  }

  lemma ExchangeKeeps(s: seq<KeyAge>, i: nat, j: nat)
    requires i < j < |s| && SortedUpTo(s, i) && Oldest(s, i, j) && s[j].last < s[i].last
    ensures var t := s[i := s[j]][j := s[i]];
            SortedUpTo(t, i) && Oldest(t, i, j + 1)
  {
  }

  /** How many entries an eviction removes. */
  function EvictCount(n: nat): nat {
    var quota := if MAX_ENTRIES / 10 < 1 then 1 else MAX_ENTRIES / 10;
    if n < quota then n else quota
  }

  /** A tenth of the limit goes, oldest first: no removed entry is newer than a survivor. */
  ghost predicate EvictedOldest(m: Shard, kept: Shard) {
    && kept.Keys <= m.Keys && (forall k :: k in kept ==> kept[k] == m[k])
    && |kept| == |m| - EvictCount(|m|)
    && forall gone, k :: gone in m.Keys - kept.Keys && k in kept ==> m[gone].last <= m[k].last
  }

  method EvictOldest(m: Shard) returns (kept: Shard)
    ensures EvictedOldest(m, kept)
  {
    var listed := AgesOf(m);
    var a := new KeyAge[|listed|](i requires 0 <= i < |listed| => listed[i]);
    assert a[..] == listed;
    SortByAge(a);
    var entries := a[..];
    assert Lists(entries, Ages(m));
    kept := DeleteFirst(m, entries, EvictCount(|listed|));
    AgesCount(m);
    ListsMeans(entries, Ages(m));
  }

  lemma AgesCount(m: Shard)
    ensures |Ages(m)| == |m|
  {
    SameSize(m, m.Keys);
  }

  lemma {:induction false} SameSize(m: Shard, keys: set<string>)
    requires keys <= m.Keys
    ensures |set k | k in keys :: KeyAge(k, m[k].last)| == |keys|
    decreases keys
  {
    if keys != {} {
      var k :| k in keys;
      SameSize(m, keys - {k});
      var rest := set x | x in keys - {k} :: KeyAge(x, m[x].last);
      assert (set x | x in keys :: KeyAge(x, m[x].last)) == rest + {KeyAge(k, m[k].last)};
    }
  }

  method DeleteFirst(m: Shard, entries: seq<KeyAge>, n: nat) returns (kept: Shard)
    requires Lists(entries, Ages(m)) && SortedUpTo(entries, |entries|) && n <= |entries|
    ensures kept.Keys <= m.Keys && (forall k :: k in kept ==> kept[k] == m[k]) && |kept| == |m| - n
    ensures forall gone, k :: gone in m.Keys - kept.Keys && k in kept ==> m[gone].last <= m[k].last
  {
    ListsMeans(entries, Ages(m));
    assert forall j :: 0 <= j < |entries| ==> entries[j] in Ages(m);
    kept := m;
    for i := 0 to n
      invariant kept.Keys <= m.Keys && (forall k :: k in kept ==> kept[k] == m[k]) && |kept| == |m| - i
      invariant Remaining(m, kept, entries, i)
    {
      RemoveNext(m, kept, entries, i);
      kept := kept - {entries[i].key};
    }
    RemainingAreNewer(m, kept, entries, n);
  }

  /** The keys left are those of the entries from `i` on. */
  ghost predicate Remaining(m: Shard, kept: Shard, entries: seq<KeyAge>, i: nat)
    requires i <= |entries|
  {
    && (forall j :: 0 <= j < i ==> entries[j].key !in kept)
    && (forall j :: i <= j < |entries| ==> entries[j].key in kept)
  }

  lemma RemoveNext(m: Shard, kept: Shard, entries: seq<KeyAge>, i: nat)
    requires Lists(entries, Ages(m)) && i < |entries| && Remaining(m, kept, entries, i)
    ensures Remaining(m, kept - {entries[i].key}, entries, i + 1)
    ensures |kept - {entries[i].key}| == |kept| - 1
  {
    ListsMeans(entries, Ages(m));
    forall j | 0 <= j < |entries| && j != i
      ensures entries[j].key != entries[i].key
    {
      assert entries[j] in Ages(m) && entries[i] in Ages(m);
    }
    assert (kept - {entries[i].key}).Keys == kept.Keys - {entries[i].key};
  }

  lemma RemainingAreNewer(m: Shard, kept: Shard, entries: seq<KeyAge>, n: nat)
    requires Lists(entries, Ages(m)) && SortedUpTo(entries, |entries|) && n <= |entries|
    requires kept.Keys <= m.Keys && Remaining(m, kept, entries, n)
    ensures forall gone, k :: gone in m.Keys - kept.Keys && k in kept ==> m[gone].last <= m[k].last
  {
    ListsMeans(entries, Ages(m));
    forall gone, k | gone in m.Keys - kept.Keys && k in kept
      ensures m[gone].last <= m[k].last
    {
      var g, s := KeyAge(gone, m[gone].last), KeyAge(k, m[k].last);
      assert g in Ages(m) && s in Ages(m);
      var i :| 0 <= i < |entries| && entries[i] == g;
      var j :| 0 <= j < |entries| && entries[j] == s;
      assert i < n <= j;
    }
  }

  // ----- the store

  lemma AdmitInRange(c: Config, b: Option<Bucket>, now: real)
    requires Sane(c) && (b.Some? ==> InRange(c, b.value))
    ensures InRange(c, Admit(c, b, now).0)
  {
    if b.Some? {
      GainedSum(c, if now - b.value.last < 0.0 then 0.0 else now - b.value.last, 0.0);
    }
  }

  /** Keys live in the shard their hash picks, shards stay within the limit, tokens within the
      burst. */
  ghost predicate Placed(c: Config, hash: string -> nat, shards: seq<Shard>) {
    && |shards| == SHARD_COUNT
    && forall i :: 0 <= i < SHARD_COUNT ==> PlacedShard(c, hash, shards[i], i)
  }

  ghost predicate PlacedShard(c: Config, hash: string -> nat, shard: Shard, i: nat) {
    |shard| <= MAX_ENTRIES && forall k :: k in shard ==> hash(k) % SHARD_COUNT == i && InRange(c, shard[k])
  }

  function Find(hash: string -> nat, shards: seq<Shard>, key: string): Option<Bucket>
    requires |shards| == SHARD_COUNT
  {
    var shard := shards[hash(key) % SHARD_COUNT];
    if key in shard then Some(shard[key]) else None
  }

  lemma PutShard(c: Config, hash: string -> nat, shards: seq<Shard>, i: nat, shard: Shard)
    requires Placed(c, hash, shards) && i < SHARD_COUNT && PlacedShard(c, hash, shard, i)
    ensures Placed(c, hash, shards[i := shard])
    ensures forall k :: Find(hash, shards[i := shard], k) ==
              if hash(k) % SHARD_COUNT != i then Find(hash, shards, k) else if k in shard then Some(shard[k]) else None
  {
  }

  // ----- what has happened to each key

  type Traces = map<string, seq<Event>>

  ghost function TraceOf(trace: Traces, k: string): seq<Event> {
    if k in trace then trace[k] else []
  }

  ghost function WithDrops(trace: Traces, gone: set<string>, now: real): (r: Traces)
    ensures forall k :: TraceOf(r, k) == TraceOf(trace, k) + if k in gone then [Drop(now)] else []
  {
    map k | k in trace.Keys + gone :: TraceOf(trace, k) + if k in gone then [Drop(now)] else []
  }

  /** Every bucket is what its key's trace leads to. */
  ghost predicate Consistent(c: Config, hash: string -> nat, shards: seq<Shard>, trace: Traces)
    requires |shards| == SHARD_COUNT
  {
    forall k :: Find(hash, shards, k) == After(c, None, TraceOf(trace, k))
  }

  /** What a request does to a shard. */
  ghost predicate ShardStep(c: Config, shard: Shard, shard': Shard, key: string, now: real, allowed: bool) {
    var b := if key in shard then Some(shard[key]) else None;
    && key in shard' && (shard'[key], allowed) == Admit(c, b, now)
    && shard'.Keys <= shard.Keys + {key} && (forall k :: k in shard' && k != key ==> shard'[k] == shard[k])
    && (key in shard || |shard| < MAX_ENTRIES ==> shard'.Keys == shard.Keys + {key})
    && (key !in shard && |shard| == MAX_ENTRIES ==> EvictedOldest(shard, shard' - {key}))
  }

  ghost function TraceStep(trace: Traces, shard: Shard, shard': Shard, key: string, now: real): Traces {
    WithDrops(trace, shard.Keys - shard'.Keys, now)[key := TraceOf(trace, key) + [Request(now)]]
  }

  lemma StepKeepsConsistent(c: Config, hash: string -> nat, shards: seq<Shard>, trace: Traces, shard': Shard,
                            key: string, now: real, allowed: bool)
    requires Placed(c, hash, shards) && Consistent(c, hash, shards, trace)
    requires var i := hash(key) % SHARD_COUNT;
             ShardStep(c, shards[i], shard', key, now, allowed) && PlacedShard(c, hash, shard', i)
    ensures var i := hash(key) % SHARD_COUNT;
            var shards' := shards[i := shard'];
            var trace' := TraceStep(trace, shards[i], shard', key, now);
            && Placed(c, hash, shards') && Consistent(c, hash, shards', trace')
            && TraceOf(trace', key) == TraceOf(trace, key) + [Request(now)]
            && (forall k :: k != key ==> KeyUntouched(hash, shards, shards', trace, trace', k)
                                         || KeyEvicted(hash, shards, shards', trace, trace', key, now, k))
  {
    hide Admit, EvictedOldest, After, Placed, PlacedShard, ShardStep, TraceStep, KeyUntouched, KeyEvicted, Find;
    PlacedSize(c, hash, shards);
    var i := hash(key) % SHARD_COUNT;
    PutShard(c, hash, shards, i, shard');
    var shards' := shards[i := shard'];
    var trace' := TraceStep(trace, shards[i], shard', key, now);
    forall k
      ensures Find(hash, shards', k) == After(c, None, TraceOf(trace', k))
      ensures k != key ==> KeyUntouched(hash, shards, shards', trace, trace', k)
                           || KeyEvicted(hash, shards, shards', trace, trace', key, now, k)
    {
      StepAt(c, hash, shards, trace, shard', key, now, allowed, k);
    }
    TraceStepAt(trace, shards[i], shard', key, now, key);
  }

  lemma TraceStepAt(trace: Traces, shard: Shard, shard': Shard, key: string, now: real, k: string)
    ensures TraceOf(TraceStep(trace, shard, shard', key, now), k) ==
            if k == key then TraceOf(trace, k) + [Request(now)]
            else if k in shard.Keys - shard'.Keys then TraceOf(trace, k) + [Drop(now)]
            else TraceOf(trace, k)
  {
    assert TraceOf(trace, k) + [] == TraceOf(trace, k);
  }

  /** The step as one key sees it. */
  lemma StepAt(c: Config, hash: string -> nat, shards: seq<Shard>, trace: Traces, shard': Shard, key: string,
               now: real, allowed: bool, k: string)
    requires Placed(c, hash, shards) && Consistent(c, hash, shards, trace)
    requires var i := hash(key) % SHARD_COUNT;
             ShardStep(c, shards[i], shard', key, now, allowed) && PlacedShard(c, hash, shard', i)
    ensures var i := hash(key) % SHARD_COUNT;
            var shards' := shards[i := shard'];
            var trace' := TraceStep(trace, shards[i], shard', key, now);
            && Find(hash, shards', k) == After(c, None, TraceOf(trace', k))
            && (k != key ==> KeyUntouched(hash, shards, shards', trace, trace', k)
                             || KeyEvicted(hash, shards, shards', trace, trace', key, now, k))
  {
    hide Admit, EvictedOldest, After, Placed, PlacedShard, TraceStep, TraceOf;
    PlacedSize(c, hash, shards);
    var i := hash(key) % SHARD_COUNT;
    assert Find(hash, shards, k) == After(c, None, TraceOf(trace, k));
    OnlyOwnKeys(c, hash, shards, i, k);
    TraceStepAt(trace, shards[i], shard', key, now, k);
    AfterOne(c, TraceOf(trace, k), Drop(now));
    AfterOne(c, TraceOf(trace, k), Request(now));
    if k == key {
      StepDecides(c, shards[i], shard', key, now, allowed);
    } else if hash(k) % SHARD_COUNT == i && k in shards[i] && k !in shard' {
      InShard(c, hash, shards, key);
      StepEvicts(c, shards[i], shard', key, now, allowed, k);
    } else {
      assert KeyUntouched(hash, shards, shards[i := shard'], trace, TraceStep(trace, shards[i], shard', key, now), k);
    }
  }

  lemma StepEvicts(c: Config, shard: Shard, shard': Shard, key: string, now: real, allowed: bool, k: string)
    requires ShardStep(c, shard, shard', key, now, allowed) && k in shard && k !in shard' && |shard| <= MAX_ENTRIES
    ensures key !in shard && |shard| == MAX_ENTRIES
  {
    hide Admit, EvictedOldest;
  }

  ghost predicate KeyUntouched(hash: string -> nat, shards: seq<Shard>, shards': seq<Shard>, trace: Traces,
                               trace': Traces, k: string)
    requires |shards| == |shards'| == SHARD_COUNT
  {
    Find(hash, shards', k) == Find(hash, shards, k) && TraceOf(trace', k) == TraceOf(trace, k)
  }

  /** A key loses its bucket only to a new key of its own full shard. */
  ghost predicate KeyEvicted(hash: string -> nat, shards: seq<Shard>, shards': seq<Shard>, trace: Traces,
                             trace': Traces, key: string, now: real, k: string)
    requires |shards| == |shards'| == SHARD_COUNT
  {
    && Find(hash, shards, k).Some? && Find(hash, shards', k).None?
    && TraceOf(trace', k) == TraceOf(trace, k) + [Drop(now)]
    && hash(k) % SHARD_COUNT == hash(key) % SHARD_COUNT && Find(hash, shards, key).None?
    && |shards[hash(key) % SHARD_COUNT]| == MAX_ENTRIES
  }

  class Store {
    const c: Config
    const ttl: real
    /** The 32-bit FNV-1a hash of a key. */
    const hash: string -> nat
    var shards: seq<Shard>
    /** What has happened to each key: its requests, and the removals of its bucket. */
    ghost var trace: Traces

    constructor (config: Config, timeToLive: real, h: string -> nat)
      requires Sane(config)
      ensures Valid() && c == config && ttl == timeToLive && hash == h && trace == map[]
      ensures shards == seq(SHARD_COUNT, _ => map[])
    {
      c, ttl, hash, trace := config, timeToLive, h, map[];
      shards := seq(SHARD_COUNT, _ => map[]);
    }

    function ShardOf(key: string): nat {
      hash(key) % SHARD_COUNT
    }

    function Lookup(key: string): Option<Bucket>
      requires |shards| == SHARD_COUNT
      reads this
    {
      Find(hash, shards, key)
    }

    ghost function Trace(key: string): seq<Event>
      reads this
    {
      TraceOf(trace, key)
    }

    ghost predicate Valid()
      reads this
    {
      Sane(c) && Placed(c, hash, shards) && Consistent(c, hash, shards, trace)
    }

    method Allow(key: string, now: real) returns (allowed: bool)
      requires Valid()
      modifies this
      ensures Valid()
      ensures allowed == Admit(c, After(c, None, old(Trace(key))), now).1
      ensures Trace(key) == old(Trace(key)) + [Request(now)]
      ensures IdleDrops(c, ttl, old(Trace(key))) ==> IdleDrops(c, ttl, Trace(key))
      ensures forall k :: k != key ==> KeyUntouched(hash, old(shards), shards, old(trace), trace, k)
                                       || KeyEvicted(hash, old(shards), shards, old(trace), trace, key, now, k)
      ensures ShardStep(c, old(shards)[ShardOf(key)], shards[ShardOf(key)], key, now, allowed)
      ensures forall i :: 0 <= i < SHARD_COUNT && i != ShardOf(key) ==> shards[i] == old(shards)[i]
    {
      hide Placed, PlacedShard, After, ShardStep, TraceStep, Admit, KeyUntouched, KeyEvicted, IdleDrops;
      var i := ShardOf(key);
      InShard(c, hash, shards, key);
      var shard: Shard;
      shard, allowed := AllowIn(shards[i], i, key, now);
      StepKeepsConsistent(c, hash, shards, trace, shard, key, now, allowed);
      StepDecides(c, shards[i], shard, key, now, allowed);
      IdleDropsSnoc(c, ttl, Trace(key), Request(now));
      trace := TraceStep(trace, shards[i], shard, key, now);
      shards := shards[i := shard];
    }

    /** The request as it acts on the key's own shard. */
    method AllowIn(shard: Shard, i: nat, key: string, now: real) returns (shard': Shard, allowed: bool)
      requires Sane(c) && PlacedShard(c, hash, shard, i) && ShardOf(key) == i
      ensures PlacedShard(c, hash, shard', i) && ShardStep(c, shard, shard', key, now, allowed)
    {
      hide Admit, EvictedOldest, ShardStep;
      AdmitInRange(c, if key in shard then Some(shard[key]) else None, now);
      if key !in shard {
        var room := MakeRoom(shard);
        var b := Bucket(Cap(c) - 1.0, now);
        FreshBucket(c, now);
        StepNew(c, shard, room, key, b, now);
        PutNew(room, key, b);
        shard' := room[key := b];
        allowed := true;
      } else {
        var b;
        b, allowed := Spend(shard[key], now);
        PutOld(shard, key, b);
        StepOld(c, shard, key, b, now, allowed);
        shard' := shard[key := b];
      }
    }

    static method MakeRoom(shard: Shard) returns (room: Shard)
      requires |shard| <= MAX_ENTRIES
      ensures |shard| < MAX_ENTRIES ==> room == shard
      ensures |shard| == MAX_ENTRIES ==> EvictedOldest(shard, room)
      ensures |room| < MAX_ENTRIES && room.Keys <= shard.Keys && forall k :: k in room ==> room[k] == shard[k]
    {
      room := shard;
      if |shard| >= MAX_ENTRIES {
        room := EvictOldest(shard);
      }
    }

    /** A request against an existing bucket, field by field. */
    method Spend(b: Bucket, now: real) returns (b': Bucket, allowed: bool)
      ensures (b', allowed) == Admit(c, Some(b), now)
    {
      var elapsed := now - b.last;
      if elapsed < 0.0 {
        elapsed := 0.0;
      }
      var tokens := b.tokens + Gained(c, elapsed);
      if tokens > Cap(c) {
        tokens := Cap(c);
      }
      if tokens < 1.0 {
        return Bucket(tokens, now), false;
      }
      tokens := tokens - 1.0;
      return Bucket(tokens, now), true;
    }

    /** The cleanup of one shard, under its lock: exactly the buckets idle for longer than `ttl` go. */
    method CleanShard(i: nat, now: real)
      requires Valid() && i < SHARD_COUNT
      modifies this
      ensures Valid()
      ensures |old(shards)| == SHARD_COUNT && shards == old(shards)[i := Swept(old(shards)[i], now, ttl)]
      ensures forall k :: SweptKey(old(Lookup(k)), Lookup(k), old(Trace(k)), Trace(k), ShardOf(k) == i, now, ttl)
      ensures forall k :: IdleDrops(c, ttl, old(Trace(k))) ==> IdleDrops(c, ttl, Trace(k))
    {
      hide Placed, PlacedShard, After, Swept, Find, IdleDrops;
      var was := shards;
      PlacedSize(c, hash, was);
      var kept := SweepShard(was[i], now);
      ghost var gone := set k | k in was[i] && k !in kept;
      SweptPlaced(c, hash, was, i, now, ttl, gone);
      SweepKeepsConsistent(c, hash, was, was[i := kept], trace, gone, now);
      SweepKeepsIdle(c, hash, was, trace, gone, now, ttl);
      trace := WithDrops(trace, gone, now);
      shards := was[i := kept];
    }

    /** One tick of the background cleanup: the shards one after the other. */
    method Cleanup(now: real)
      requires Valid()
      modifies this
      ensures Valid()
      ensures forall k :: SweptKey(old(Lookup(k)), Lookup(k), old(Trace(k)), Trace(k), true, now, ttl)
      ensures forall k :: IdleDrops(c, ttl, old(Trace(k))) ==> IdleDrops(c, ttl, Trace(k))
    {
      hide Valid, Placed, After, Swept, Find, IdleDrops;
      Sized();
      for i := 0 to SHARD_COUNT
        invariant Valid() && |shards| == SHARD_COUNT
        invariant forall k :: SweptKey(old(Lookup(k)), Lookup(k), old(Trace(k)), Trace(k), ShardOf(k) < i, now, ttl)
        invariant forall k :: IdleDrops(c, ttl, old(Trace(k))) ==> IdleDrops(c, ttl, Trace(k))
      {
        CleanShard(i, now);
      }
    }

    lemma Sized()
      requires Valid()
      ensures |shards| == SHARD_COUNT
    {
    }

    method SweepShard(shard: Shard, now: real) returns (kept: Shard)
      ensures kept == Swept(shard, now, ttl)
    {
      kept := shard;
      var todo := shard.Keys;
      while todo != {}
        invariant todo <= shard.Keys
        invariant kept == map k | k in shard && (k in todo || now - shard[k].last <= ttl) :: shard[k]
      {
        var k :| k in todo;
        todo := todo - {k};
        if now - shard[k].last > ttl {
          kept := kept - {k};
        }
      }
    }
  }

  /** What a sweep does to a key: in a swept shard a bucket idle for longer than `ttl` goes, which
      the trace records; anything else stays. */
  ghost predicate SweptKey(was: Option<Bucket>, b: Option<Bucket>, es: seq<Event>, es': seq<Event>, swept: bool,
                           now: real, ttl: real) {
    var goes := swept && was.Some? && now - was.value.last > ttl;
    b == (if goes then None else was) && es' == if goes then es + [Drop(now)] else es
  }

  function Swept(shard: Shard, now: real, ttl: real): Shard {
    map k | k in shard && now - shard[k].last <= ttl :: shard[k]
  }

  lemma PlacedSize(c: Config, hash: string -> nat, shards: seq<Shard>)
    requires Placed(c, hash, shards)
    ensures |shards| == SHARD_COUNT
  {
  }

  lemma InShard(c: Config, hash: string -> nat, shards: seq<Shard>, k: string)
    requires Placed(c, hash, shards)
    ensures |shards| == SHARD_COUNT && PlacedShard(c, hash, shards[hash(k) % SHARD_COUNT], hash(k) % SHARD_COUNT)
    ensures var shard := shards[hash(k) % SHARD_COUNT];
            && |shard| <= MAX_ENTRIES
            && Find(hash, shards, k) == if k in shard then Some(shard[k]) else None
  {
  }

  lemma OnlyOwnKeys(c: Config, hash: string -> nat, shards: seq<Shard>, i: nat, k: string)
    requires Placed(c, hash, shards) && i < SHARD_COUNT
    ensures |shards| == SHARD_COUNT && (hash(k) % SHARD_COUNT != i ==> k !in shards[i])
  {
  }

  /** One shard swept. */
  lemma SweptPlaced(c: Config, hash: string -> nat, was: seq<Shard>, i: nat, now: real, ttl: real, gone: set<string>)
    requires Placed(c, hash, was) && i < SHARD_COUNT
    requires gone == set k | k in was[i] && k !in Swept(was[i], now, ttl)
    ensures var swept := was[i := Swept(was[i], now, ttl)];
            && Placed(c, hash, swept)
            && (forall k :: k in gone <==> Find(hash, swept, k) != Find(hash, was, k))
            && (forall k :: k in gone ==> Find(hash, swept, k).None?)
            && (forall k :: k in gone <==>
                  hash(k) % SHARD_COUNT == i && Find(hash, was, k).Some? && now - Find(hash, was, k).value.last > ttl)
  {
    var kept := Swept(was[i], now, ttl);
    assert PlacedShard(c, hash, was[i], i);
    assert kept.Keys <= was[i].Keys;
    SubsetSize(kept.Keys, was[i].Keys);
    PutShard(c, hash, was, i, kept);
  }

  lemma SweepKeepsConsistent(c: Config, hash: string -> nat, was: seq<Shard>, swept: seq<Shard>, trace: Traces,
                             gone: set<string>, now: real)
    requires |was| == |swept| == SHARD_COUNT && Consistent(c, hash, was, trace)
    requires forall k :: k in gone <==> Find(hash, swept, k) != Find(hash, was, k)
    requires forall k :: k in gone ==> Find(hash, swept, k).None?
    ensures Consistent(c, hash, swept, WithDrops(trace, gone, now))
  {
    hide After, Find;
    forall k
      ensures Find(hash, swept, k) == After(c, None, TraceOf(WithDrops(trace, gone, now), k))
    {
      assert Find(hash, was, k) == After(c, None, TraceOf(trace, k));
      AfterOne(c, TraceOf(trace, k), Drop(now));
      assert TraceOf(trace, k) + [] == TraceOf(trace, k);
    }
  }

  /** A sweep removes only what has been idle for long enough. */
  lemma SweepKeepsIdle(c: Config, hash: string -> nat, was: seq<Shard>, trace: Traces, gone: set<string>, now: real,
                       ttl: real)
    requires |was| == SHARD_COUNT && Consistent(c, hash, was, trace)
    requires forall k :: k in gone ==> Find(hash, was, k).Some? && now - Find(hash, was, k).value.last > ttl
    ensures forall k :: IdleDrops(c, ttl, TraceOf(trace, k)) ==>
              IdleDrops(c, ttl, TraceOf(WithDrops(trace, gone, now), k))
  {
    hide After, Find, IdleDrops;
    forall k | IdleDrops(c, ttl, TraceOf(trace, k))
      ensures IdleDrops(c, ttl, TraceOf(WithDrops(trace, gone, now), k))
    {
      IdleDropsSnoc(c, ttl, TraceOf(trace, k), Drop(now));
      assert TraceOf(trace, k) + [] == TraceOf(trace, k);
    }
  }

  lemma {:induction false} SubsetSize<T>(a: set<T>, b: set<T>)
    requires a <= b
    ensures |a| <= |b|
    decreases a
  {
    if a != {} {
      var x :| x in a;
      SubsetSize(a - {x}, b - {x});
    }
  }

  lemma AfterOne(c: Config, es: seq<Event>, e: Event)
    ensures After(c, None, es + [e]) == Next(c, After(c, None, es), e)
  {
    assert (es + [e])[..|es|] == es;
  }

  lemma FreshBucket(c: Config, now: real)
    ensures Admit(c, None, now) == (Bucket(Cap(c) - 1.0, now), true)
  {
  }

  lemma PutNew(m: Shard, key: string, b: Bucket)
    requires key !in m
    ensures |m[key := b]| == |m| + 1 && m[key := b] - {key} == m
  {
    assert m[key := b].Keys == m.Keys + {key};
  }

  lemma StepNew(c: Config, shard: Shard, room: Shard, key: string, b: Bucket, now: real)
    requires key !in shard && |shard| <= MAX_ENTRIES && (b, true) == Admit(c, None, now)
    requires |shard| < MAX_ENTRIES ==> room == shard
    requires |shard| == MAX_ENTRIES ==> EvictedOldest(shard, room)
    requires room.Keys <= shard.Keys && forall k :: k in room ==> room[k] == shard[k]
    ensures ShardStep(c, shard, room[key := b], key, now, true)
  {
    hide Admit, EvictedOldest;
    PutNew(room, key, b);
    assert room[key := b].Keys == room.Keys + {key};
  }

  lemma StepOld(c: Config, shard: Shard, key: string, b: Bucket, now: real, allowed: bool)
    requires key in shard && (b, allowed) == Admit(c, Some(shard[key]), now)
    ensures ShardStep(c, shard, shard[key := b], key, now, allowed)
  {
    hide Admit, EvictedOldest;
    PutOld(shard, key, b);
  }

  lemma PutOld(m: Shard, key: string, b: Bucket)
    requires key in m
    ensures |m[key := b]| == |m| && m[key := b].Keys == m.Keys
  {
    assert m[key := b].Keys == m.Keys;
  }

  lemma StepDecides(c: Config, shard: Shard, shard': Shard, key: string, now: real, allowed: bool)
    requires ShardStep(c, shard, shard', key, now, allowed)
    ensures var b := if key in shard then Some(shard[key]) else None;
            allowed == Admit(c, b, now).1 && key in shard' && shard'[key] == Admit(c, b, now).0
  {
  }
}
