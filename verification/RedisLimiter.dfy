/** The Redis limiter: a script over two keys that expire, run step by step. The clock of the
    caller and of the server are taken to be the same, and numbers to survive being stored. */
module RedisLimiter {
  import opened Wrappers
  import opened TokenBucket

  /** A stored number and the time from which it is gone. */
  datatype Entry = Entry(value: real, expires: real)

  function TokensKey(key: string): string {
    key + ":tokens"
  }

  function StampKey(key: string): string {
    key + ":ts"
  }

  /** Expiry in whole seconds. */
  function Ttl(c: Config): real
    requires Sane(c)
  {
    var ttl := (Cap(c) / c.rate).Floor + 2;
    (if ttl < 1 then 1 else ttl) as real
  }

  /** The expiry is longer than a bucket takes to refill. */
  lemma TtlOutlastsRefill(c: Config)
    requires Sane(c)
    ensures Gained(c, Ttl(c)) >= Cap(c) && Ttl(c) >= 2.0
    ensures DropsOnlyFull(c, idle => idle < Ttl(c))
  {
    var full := Cap(c) / c.rate;
    assert full * c.rate == Cap(c);
    assert full >= 0.0;
    assert full.Floor >= 0;
    assert Ttl(c) >= full + 1.0;
    GainedSum(c, full, Ttl(c) - full);
    GainedSum(c, Ttl(c) - full, 0.0);
    assert full + (Ttl(c) - full) == Ttl(c);
    forall idle: real | idle >= Ttl(c)
      ensures Gained(c, idle) >= Cap(c)
    {
      GainedSum(c, Ttl(c), idle - Ttl(c));
      GainedSum(c, idle - Ttl(c), 0.0);
      assert Ttl(c) + (idle - Ttl(c)) == idle;
    }
  }

  lemma KeysApart(key: string, other: string)
    ensures TokensKey(key) != StampKey(other)
    ensures TokensKey(key) == TokensKey(other) ==> key == other
    ensures StampKey(key) == StampKey(other) ==> key == other
  {
    var a, b := TokensKey(key), StampKey(other);
    assert a[|a| - 2] == 'n' && b[|b| - 2] == 't';
    assert TokensKey(key)[..|key|] == key && TokensKey(other)[..|other|] == other;
    assert StampKey(key)[..|key|] == key && StampKey(other)[..|other|] == other;
  }

  class RedisStore {
    const c: Config
    var store: map<string, Entry>
    /** The times at which each key was asked for. */
    ghost var asked: map<string, seq<real>>

    constructor (config: Config)
      requires Sane(config)
      ensures Valid() && c == config && asked == map[]
    {
      c, store, asked := config, map[], map[];
    }

    ghost function Asked(key: string): seq<real>
      reads this
    {
      if key in asked then asked[key] else []
    }

    /** The two stored numbers of a key, expired or not, are the bucket of a limiter that never
        forgets. */
    ghost predicate Stored(key: string)
      requires Sane(c)
      reads this
    {
      var b := Remembered(c, Asked(key));
      && (TokensKey(key) in store <==> b.Some?) && (StampKey(key) in store <==> b.Some?)
      && (b.Some? ==>
            && InRange(c, b.value)
            && store[TokensKey(key)] == Entry(b.value.tokens, b.value.last + Ttl(c))
            && store[StampKey(key)] == Entry(b.value.last, b.value.last + Ttl(c)))
    }

    ghost predicate Valid()
      reads this
    {
      Sane(c) && forall key :: Stored(key)
    }

    method Get(key: string, now: real) returns (v: Option<real>)
      ensures v == if key in store && now < store[key].expires then Some(store[key].value) else None
    {
      v := if key in store && now < store[key].expires then Some(store[key].value) else None;
    }

    method SetEx(key: string, ttl: real, v: real, now: real)
      modifies this`store
      ensures store == old(store)[key := Entry(v, now + ttl)]
    {
      store := store[key := Entry(v, now + ttl)];
    }

    /** The script. Its answer is that of a limiter without expiry, for every key and every
        non-decreasing sequence of request times. */
    method Allow(key: string, now: real) returns (allowed: bool)
      requires Valid() && now >= 0.0
      requires Asked(key) != [] ==> Asked(key)[|Asked(key)| - 1] <= now
      modifies this
      ensures Valid()
      ensures asked == old(asked)[key := old(Asked(key)) + [now]]
      ensures allowed == Admit(c, Remembered(c, old(Asked(key))), now).1
    {
      hide Gained, Refilled, Remembered, Ttl, Cap, TokensKey, StampKey;
      ghost var before := Remembered(c, Asked(key));
      var filled := Fill(key, now);
      allowed := false;
      if filled >= 1.0 {
        allowed := true;
        filled := filled - 1.0;
      }
      AdmitKeepsRange(c, before, now);
      AskedAgain(c, Asked(key), now);
      KeysApart(key, key);
      SetEx(TokensKey(key), Ttl(c), filled, now);
      SetEx(StampKey(key), Ttl(c), now, now);
      asked := asked[key := Asked(key) + [now]];
      forall other
        ensures Stored(other)
      {
        assert old(Stored(other));
        KeysApart(key, other);
        KeysApart(other, key);
      }
    }

    /** The tokens the script finds, a missing or expired key counting as a full bucket. */
    method Fill(key: string, now: real) returns (filled: real)
      requires Valid() && now >= 0.0
      requires Asked(key) != [] ==> Asked(key)[|Asked(key)| - 1] <= now
      ensures Settled(c, Remembered(c, Asked(key)), now)
      ensures filled == Available(c, Remembered(c, Asked(key)), now)
    {
      hide Gained, Refilled, Remembered, Ttl, Cap, TokensKey, StampKey;
      LastAsked(c, Asked(key));
      assert Stored(key);
      var tokens := Get(TokensKey(key), now);
      var lastTokens := if tokens.None? then Cap(c) else tokens.value;
      var stamp := Get(StampKey(key), now);
      var lastRefreshed := if stamp.None? then 0.0 else stamp.value;
      var delta := now - lastRefreshed;
      if delta < 0.0 {
        delta := 0.0;
      }
      filled := Min(Cap(c), lastTokens + Gained(c, delta));
      ScriptFills(c, Remembered(c, Asked(key)), now, delta, lastTokens);
    }
  }

  lemma LastAsked(c: Config, times: seq<real>)
    ensures times == [] ==> Remembered(c, times).None?
    ensures times != [] ==> Remembered(c, times).Some? && Remembered(c, times).value.last == times[|times| - 1]
  {
  }

  lemma AskedAgain(c: Config, times: seq<real>, now: real)
    ensures Remembered(c, times + [now]) == Some(Admit(c, Remembered(c, times), now).0)
  {
    assert (times + [now])[..|times|] == times;
  }

  /** What the script computes from the keys it can still see. */
  lemma ScriptFills(c: Config, b: Option<Bucket>, now: real, delta: real, lastTokens: real)
    requires Sane(c) && now >= 0.0 && Settled(c, b, now)
    requires b.Some? && now < b.value.last + Ttl(c) ==> delta == now - b.value.last && lastTokens == b.value.tokens
    requires b.None? || now >= b.value.last + Ttl(c) ==> delta == now && lastTokens == Cap(c)
    ensures Min(Cap(c), lastTokens + Gained(c, delta)) == Available(c, b, now)
  {
    hide Gained;
    TtlOutlastsRefill(c);
    GainedSum(c, now, 0.0);
    if b.Some? && now >= b.value.last + Ttl(c) {
      GainedSum(c, Ttl(c), now - b.value.last - Ttl(c));
      GainedSum(c, now - b.value.last - Ttl(c), 0.0);
      assert Ttl(c) + (now - b.value.last - Ttl(c)) == now - b.value.last;
      FullAgain(c, b.value, now);
    }
  }
}
