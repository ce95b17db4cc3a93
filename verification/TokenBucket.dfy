/** Token buckets, one key at a time: the admission step shared by the in-memory and the Redis
    limiter, bounds on what a run admits, and when forgetting a bucket can be noticed. Times and
    tokens are real numbers; times are in seconds. */
module TokenBucket {
  import opened Wrappers

  /** `burst` is the configured integer. */
  datatype Config = Config(rate: real, burst: nat)

  predicate Sane(c: Config) {
    c.rate > 0.0 && c.burst >= 1
  }

  function Cap(c: Config): real {
    c.burst as real
  }

  datatype Bucket = Bucket(tokens: real, last: real)

  predicate InRange(c: Config, b: Bucket) {
    0.0 <= b.tokens <= Cap(c)
  }

  function Min(a: real, b: real): real {
    if a <= b then a else b
  }

  /** Tokens that a span of time brings. */
  function Gained(c: Config, span: real): real {
    span * c.rate
  }

  lemma GainedSum(c: Config, x: real, y: real)
    requires Sane(c)
    ensures Gained(c, x + y) == Gained(c, x) + Gained(c, y)
    ensures x >= 0.0 ==> Gained(c, x) >= 0.0
    ensures Gained(c, 0.0) == 0.0
  {
  }

  /** Tokens in a bucket at a time; a clock that went back adds nothing. */
  function Refilled(c: Config, b: Bucket, now: real): real {
    var elapsed := if now - b.last < 0.0 then 0.0 else now - b.last;
    Min(b.tokens + Gained(c, elapsed), Cap(c))
  }

  /** One request: the bucket afterwards and the decision. */
  function Admit(c: Config, b: Option<Bucket>, now: real): (Bucket, bool) {
    match b
    case None => (Bucket(Cap(c) - 1.0, now), true)
    case Some(x) =>
      var filled := Refilled(c, x, now);
      if filled < 1.0 then (Bucket(filled, now), false) else (Bucket(filled - 1.0, now), true)
  }

  // ----- runs of one key

  /** A request, or the removal of the key's bucket by eviction or cleanup. */
  datatype Event = Request(at: real) | Drop(at: real)

  function Next(c: Config, b: Option<Bucket>, e: Event): Option<Bucket> {
    match e
    case Request(t) => Some(Admit(c, b, t).0)
    case Drop(_) => None
  }

  function After(c: Config, b: Option<Bucket>, es: seq<Event>): Option<Bucket> {
    if es == [] then b else Next(c, After(c, b, es[..|es| - 1]), es[|es| - 1])
  }

  function Admitted(c: Config, b: Option<Bucket>, es: seq<Event>): nat {
    if es == [] then 0
    else
      var init, e := es[..|es| - 1], es[|es| - 1];
      Admitted(c, b, init) + if e.Request? && Admit(c, After(c, b, init), e.at).1 then 1 else 0
  }

  function Requests(es: seq<Event>): nat {
    if es == [] then 0 else Requests(es[..|es| - 1]) + if es[|es| - 1].Request? then 1 else 0
  }

  function Drops(es: seq<Event>): nat {
    if es == [] then 0 else Drops(es[..|es| - 1]) + if es[|es| - 1].Drop? then 1 else 0
  }

  /** Request times do not go back and stay within a window. */
  predicate Timely(es: seq<Event>, from: real, to: real) {
    && (forall i :: 0 <= i < |es| && es[i].Request? ==> from <= es[i].at <= to)
    && (forall i, j :: 0 <= i < j < |es| && es[i].Request? && es[j].Request? ==> es[i].at <= es[j].at)
  }

  predicate Settled(c: Config, b: Option<Bucket>, now: real) {
    b.Some? ==> InRange(c, b.value) && b.value.last <= now
  }

  /** What could be spent at once: a missing bucket counts as full. */
  function Available(c: Config, b: Option<Bucket>, now: real): real {
    match b
    case None => Cap(c)
    case Some(x) => Refilled(c, x, now)
  }

  lemma RefillBounds(c: Config, b: Bucket, now: real, later: real)
    requires Sane(c) && InRange(c, b) && b.last <= now <= later
    ensures 0.0 <= Refilled(c, b, now) <= Refilled(c, b, later) <= Cap(c)
    ensures Refilled(c, b, later) <= Refilled(c, b, now) + Gained(c, later - now)
    ensures Refilled(c, b, b.last) == b.tokens
    ensures Gained(c, later - now) >= 0.0
  {
    hide Gained;
    GainedSum(c, now - b.last, later - now);
    GainedSum(c, later - now, 0.0);
  }

  lemma AdmitKeepsRange(c: Config, b: Option<Bucket>, now: real)
    requires Sane(c) && Settled(c, b, now)
    ensures InRange(c, Admit(c, b, now).0) && Admit(c, b, now).0.last == now
    ensures Admit(c, b, now).0.tokens == Available(c, b, now) - if Admit(c, b, now).1 then 1.0 else 0.0
    ensures Admit(c, b, now).1 <==> Available(c, b, now) >= 1.0
  {
    if b.Some? {
      RefillBounds(c, b.value, now, now);
    }
  }

  lemma TimelyInit(es: seq<Event>, from: real, to: real)
    requires es != [] && Timely(es, from, to)
    ensures Timely(es[..|es| - 1], from, if es[|es| - 1].Request? then es[|es| - 1].at else to)
    ensures Timely(es[..|es| - 1], from, to)
  {
  }

  /** Full buckets granted by removals. */
  function Granted(c: Config, k: nat): real {
    k as real * Cap(c)
  }

  lemma GrantedNext(c: Config, k: nat)
    ensures Granted(c, 0) == 0.0 && Granted(c, k + 1) == Granted(c, k) + Cap(c)
  {
    assert (k + 1) as real == k as real + 1.0;
  }

  /** Tokens are conserved: what a run admits and still holds is covered by what it started
      with, what time added, and a full bucket for every removal. */
  lemma {:induction false} Conservation(c: Config, b: Option<Bucket>, es: seq<Event>, from: real, to: real)
    requires Sane(c) && from <= to && Settled(c, b, from) && Timely(es, from, to)
    ensures Settled(c, After(c, b, es), to)
    ensures Admitted(c, b, es) as real + Available(c, After(c, b, es), to) <=
            Available(c, b, from) + Gained(c, to - from) + Granted(c, Drops(es))
    decreases |es|
  {
    hide Gained, Granted, Refilled, Cap, Admit;
    if es == [] {
      GrantedNext(c, 0);
      GainedSum(c, to - from, 0.0);
      if b.Some? {
        RefillBounds(c, b.value, from, to);
      }
    } else {
      var init, e := es[..|es| - 1], es[|es| - 1];
      TimelyInit(es, from, to);
      match e
      case Drop(_) =>
        Conservation(c, b, init, from, to);
        GrantedNext(c, Drops(init));
        AvailableIsNatural(c, After(c, b, init), to);
      case Request(t) =>
        Conservation(c, b, init, from, t);
        var mid := After(c, b, init);
        AdmitKeepsRange(c, mid, t);
        RefillBounds(c, Admit(c, mid, t).0, t, to);
        GainedSum(c, t - from, to - t);
        assert t - from + (to - t) == to - from;
    }
  }

  lemma AvailableIsNatural(c: Config, b: Option<Bucket>, now: real)
    requires Sane(c) && Settled(c, b, now)
    ensures 0.0 <= Available(c, b, now) <= Cap(c)
  {
    if b.Some? {
      RefillBounds(c, b.value, now, now);
    }
  }

  /** Requests admitted in a window are at most (1+k) * burst + rate * length, where k counts
      the removals of the bucket inside the window. */
  lemma WindowBound(c: Config, b: Option<Bucket>, es: seq<Event>, from: real, to: real)
    requires Sane(c) && from <= to && Settled(c, b, from) && Timely(es, from, to)
    ensures Admitted(c, b, es) as real <= Granted(c, 1 + Drops(es)) + Gained(c, to - from)
  {
    hide Gained, Granted, Refilled, Cap, After;
    Conservation(c, b, es, from, to);
    AvailableIsNatural(c, b, from);
    AvailableIsNatural(c, After(c, b, es), to);
    GrantedNext(c, Drops(es));
  }

  /** Requests at least 1/rate apart. */
  predicate Spaced(c: Config, es: seq<Event>) {
    forall i, j :: 0 <= i < j < |es| && es[i].Request? && es[j].Request? ==> Gained(c, es[j].at - es[i].at) >= 1.0
  }

  /** Requests at least 1/rate apart are never refused, whatever is removed in between. */
  lemma {:induction false} SpacedNeverRefused(c: Config, es: seq<Event>)
    requires Sane(c) && Spaced(c, es)
    ensures Admitted(c, None, es) == Requests(es)
    ensures var b := After(c, None, es);
            b.Some? ==> InRange(c, b.value) && exists i :: 0 <= i < |es| && es[i] == Request(b.value.last)
    decreases |es|
  {
    hide Gained, Admit, Refilled;
    if es != [] {
      var init, e := es[..|es| - 1], es[|es| - 1];
      SpacedNeverRefused(c, init);
      var b := After(c, None, init);
      if e.Request? {
        if b.Some? {
          var i :| 0 <= i < |init| && init[i] == Request(b.value.last);
          assert es[i] == init[i];
          EnoughGained(c, b.value, e.at);
        }
        AdmitKeepsRange(c, b, e.at);
        assert es[|es| - 1] == Request(e.at);
      }
    }
  }

  lemma EnoughGained(c: Config, b: Bucket, now: real)
    requires Sane(c) && InRange(c, b) && Gained(c, now - b.last) >= 1.0
    ensures b.last <= now && Available(c, Some(b), now) >= 1.0
  {
    GainedSum(c, now - b.last, b.last - now);
  }

  // ----- forgetting idle buckets

  /** A request, or a sweep that may remove an idle bucket. */
  datatype Visit = Call(at: real) | Sweep(at: real)

  /** `keep` decides from the time since last use whether a sweep leaves a bucket in place. */
  function Visited(c: Config, b: Option<Bucket>, v: Visit, keep: real -> bool): Option<Bucket> {
    match v
    case Call(t) => Some(Admit(c, b, t).0)
    case Sweep(t) => if b.Some? && !keep(t - b.value.last) then None else b
  }

  function AfterVisits(c: Config, b: Option<Bucket>, vs: seq<Visit>, keep: real -> bool): Option<Bucket> {
    if vs == [] then b else Visited(c, AfterVisits(c, b, vs[..|vs| - 1], keep), vs[|vs| - 1], keep)
  }

  function Decisions(c: Config, b: Option<Bucket>, vs: seq<Visit>, keep: real -> bool): seq<bool> {
    if vs == [] then []
    else
      var init, v := vs[..|vs| - 1], vs[|vs| - 1];
      Decisions(c, b, init, keep) + if v.Call? then [Admit(c, AfterVisits(c, b, init, keep), v.at).1] else []
  }

  predicate Forward(vs: seq<Visit>) {
    forall i, j :: 0 <= i < j < |vs| ==> vs[i].at <= vs[j].at
  }

  function Always(idle: real): bool {
    true
  }

  /** A policy that drops a bucket only once it is full again. */
  ghost predicate DropsOnlyFull(c: Config, keep: real -> bool) {
    forall idle: real :: idle >= 0.0 && !keep(idle) ==> Gained(c, idle) >= Cap(c)
  }

  /** The forgetful state is the remembered one, or nothing where that one is full. */
  predicate Alike(c: Config, a: Option<Bucket>, b: Option<Bucket>, now: real) {
    && Settled(c, b, now)
    && (a == b || (a.None? && b.Some? && Refilled(c, b.value, now) == Cap(c)))
  }

  lemma {:induction false} ForgettingStaysAlike(c: Config, vs: seq<Visit>, keep: real -> bool, to: real)
    requires Sane(c) && Forward(vs) && DropsOnlyFull(c, keep)
    requires vs != [] ==> vs[|vs| - 1].at <= to
    ensures Alike(c, AfterVisits(c, None, vs, keep), AfterVisits(c, None, vs, Always), to)
    ensures Decisions(c, None, vs, keep) == Decisions(c, None, vs, Always)
    decreases |vs|
  {
    hide Gained, Admit, Refilled, Cap;
    if vs != [] {
      var init, v := vs[..|vs| - 1], vs[|vs| - 1];
      assert init != [] ==> init[|init| - 1].at <= v.at;
      ForgettingStaysAlike(c, init, keep, v.at);
      var a, b := AfterVisits(c, None, init, keep), AfterVisits(c, None, init, Always);
      match v
      case Call(t) =>
        AdmitKeepsRange(c, b, t);
        AlikeAdmits(c, a, b, t);
      case Sweep(t) =>
        if b.Some? {
          RefillBounds(c, b.value, t, to);
          if !keep(t - b.value.last) {
            FullAgain(c, b.value, t);
          }
        }
    }
  }

  lemma FullAgain(c: Config, b: Bucket, now: real)
    requires Sane(c) && InRange(c, b) && b.last <= now && Gained(c, now - b.last) >= Cap(c)
    ensures Refilled(c, b, now) == Cap(c)
  {
    hide Gained;
  }

  lemma AlikeAdmits(c: Config, a: Option<Bucket>, b: Option<Bucket>, now: real)
    requires Sane(c) && Alike(c, a, b, now)
    ensures Admit(c, a, now) == Admit(c, b, now)
  {
    hide Refilled, Gained;
  }

  /** Cleanup keeps a bucket that has been idle for at most `ttl`. */
  function KeepFor(ttl: real): real -> bool {
    idle => idle <= ttl
  }

  lemma LongEnough(c: Config, ttl: real)
    requires Sane(c) && Gained(c, ttl) >= Cap(c)
    ensures DropsOnlyFull(c, KeepFor(ttl))
  {
    hide Gained;
    forall idle: real | idle >= 0.0 && !KeepFor(ttl)(idle)
      ensures Gained(c, idle) >= Cap(c)
    {
      GainedSum(c, ttl, idle - ttl);
      GainedSum(c, idle - ttl, 0.0);
      assert ttl + (idle - ttl) == idle;
    }
  }

  /** Cleanup is unobservable: no run of requests and sweeps can tell it from a limiter that
      never forgets, exactly when an idle bucket refills within its time to live. */
  lemma CleanupUnobservableExactly(c: Config, ttl: real)
    requires Sane(c) && ttl >= 0.0
    ensures (forall vs :: Forward(vs) ==> Decisions(c, None, vs, KeepFor(ttl)) == Decisions(c, None, vs, Always))
            <==> Gained(c, ttl) >= Cap(c)
  {
    var keep := KeepFor(ttl);
    if Gained(c, ttl) >= Cap(c) {
      LongEnough(c, ttl);
      forall vs: seq<Visit> | Forward(vs)
        ensures Decisions(c, None, vs, keep) == Decisions(c, None, vs, Always)
      {
        ForgettingStaysAlike(c, vs, keep, if vs == [] then 0.0 else vs[|vs| - 1].at);
      }
    } else {
      var vs := TellingRun(c, ttl);
    }
  }

  function Burst(n: nat, t: real): seq<Visit> {
    seq(n, _ => Call(t))
  }

  function Yeses(ds: seq<bool>): nat {
    if ds == [] then 0 else Yeses(ds[..|ds| - 1]) + if ds[|ds| - 1] then 1 else 0
  }

  lemma CallSnoc(c: Config, b: Option<Bucket>, vs: seq<Visit>, t: real, keep: real -> bool)
    ensures var all, mid := vs + [Call(t)], AfterVisits(c, b, vs, keep);
            && AfterVisits(c, b, all, keep) == Some(Admit(c, mid, t).0)
            && Yeses(Decisions(c, b, all, keep)) ==
               Yeses(Decisions(c, b, vs, keep)) + if Admit(c, mid, t).1 then 1 else 0
  {
    hide Admit, Yeses;
    assert (vs + [Call(t)])[..|vs|] == vs;
    YesesSnoc(Decisions(c, b, vs, keep), Admit(c, AfterVisits(c, b, vs, keep), t).1);
  }

  lemma SweepSnoc(c: Config, b: Option<Bucket>, vs: seq<Visit>, t: real, keep: real -> bool)
    ensures var mid := AfterVisits(c, b, vs, keep);
            AfterVisits(c, b, vs + [Sweep(t)], keep) == if mid.Some? && !keep(t - mid.value.last) then None else mid
    ensures Decisions(c, b, vs + [Sweep(t)], keep) == Decisions(c, b, vs, keep)
    ensures Decisions(c, b, [], keep) == []
  {
    hide Admit;
    assert (vs + [Sweep(t)])[..|vs|] == vs;
    assert Decisions(c, b, vs, keep) + [] == Decisions(c, b, vs, keep);
  }

  /** A burst at one instant admits as many requests as there are whole tokens, no more. */
  lemma {:induction false} BurstAdmits(c: Config, b: Option<Bucket>, vs: seq<Visit>, n: nat, t: real,
                                       keep: real -> bool)
    requires Sane(c) && Settled(c, AfterVisits(c, b, vs, keep), t)
    ensures var before, after := AfterVisits(c, b, vs, keep), AfterVisits(c, b, vs + Burst(n, t), keep);
            var yes := Yeses(Decisions(c, b, vs + Burst(n, t), keep)) - Yeses(Decisions(c, b, vs, keep));
            && Settled(c, after, t) && Available(c, after, t) >= 0.0
            && (n > 0 ==> after.Some? && after.value.last == t)
            && yes as real == Available(c, before, t) - Available(c, after, t)
            && (Available(c, before, t) >= n as real ==> yes == n)
    decreases n
  {
    hide Gained, Refilled, Admit, AfterVisits, Decisions, Yeses;
    if n == 0 {
      assert vs + Burst(n, t) == vs;
      AvailableIsNatural(c, AfterVisits(c, b, vs, keep), t);
    } else {
      BurstAdmits(c, b, vs, n - 1, t, keep);
      var less := vs + Burst(n - 1, t);
      assert vs + Burst(n, t) == less + [Call(t)];
      var s := AfterVisits(c, b, less, keep);
      CallSnoc(c, b, less, t, keep);
      AdmitKeepsRange(c, s, t);
      RefillBounds(c, Admit(c, s, t).0, t, t);
    }
  }

  lemma YesesSnoc(ds: seq<bool>, d: bool)
    ensures Yeses(ds + [d]) == Yeses(ds) + if d then 1 else 0
  {
    assert (ds + [d])[..|ds|] == ds;
  }

  /** Empty the bucket, let it be forgotten before it is full, and ask for a full burst. */
  lemma TellingRun(c: Config, ttl: real) returns (vs: seq<Visit>)
    requires Sane(c) && ttl >= 0.0 && Gained(c, ttl) < Cap(c)
    ensures Forward(vs) && Decisions(c, None, vs, KeepFor(ttl)) != Decisions(c, None, vs, Always)
  {
    hide Gained, Refilled, Admit, Decisions, AfterVisits, Yeses;
    var t := MiddleTime(c, ttl);
    var keep := KeepFor(ttl);
    var first := Burst(c.burst, 0.0);
    var swept := first + [Sweep(t)];
    vs := swept + Burst(c.burst, t);
    var a := EmptiedThenSwept(c, t, keep);
    var b := EmptiedThenSwept(c, t, Always);
    RefillBounds(c, b, 0.0, t);
    BurstAdmits(c, None, swept, c.burst, t, keep);
    BurstAdmits(c, None, swept, c.burst, t, Always);
  }

  /** After a full burst the bucket is empty; the sweep changes no decision. */
  lemma EmptiedThenSwept(c: Config, t: real, keep: real -> bool) returns (b: Bucket)
    requires Sane(c) && t > 0.0
    ensures InRange(c, b) && b.tokens == 0.0 && b.last == 0.0
    ensures var swept := Burst(c.burst, 0.0) + [Sweep(t)];
            && AfterVisits(c, None, swept, keep) == (if keep(t) then Some(b) else None)
            && Yeses(Decisions(c, None, swept, keep)) == c.burst
  {
    hide Gained, Refilled, Admit, Decisions;
    var first := Burst(c.burst, 0.0);
    var swept := first + [Sweep(t)];
    assert [] + first == first;
    BurstAdmits(c, None, [], c.burst, 0.0, keep);
    b := AfterVisits(c, None, first, keep).value;
    SweepSnoc(c, None, first, t, keep);
    RefillBounds(c, b, 0.0, 0.0);
  }

  /** A time after the time to live at which the bucket is not yet full. */
  lemma MiddleTime(c: Config, ttl: real) returns (t: real)
    requires Sane(c) && ttl >= 0.0 && Gained(c, ttl) < Cap(c)
    ensures t > ttl && Gained(c, t) < Cap(c) && t > 0.0
  {
    var missing := Cap(c) - Gained(c, ttl);
    var gap := missing / (2.0 * c.rate);
    assert gap > 0.0;
    assert gap * c.rate == missing / 2.0;
    t := ttl + gap;
    GainedSum(c, ttl, gap);
  }

  // ----- two limiters side by side

  /** The request times of a run. */
  function Calls(vs: seq<Visit>): seq<real> {
    if vs == [] then [] else Calls(vs[..|vs| - 1]) + if vs[|vs| - 1].Call? then [vs[|vs| - 1].at] else []
  }

  /** The bucket of a limiter that never forgets, after requests at the given times. */
  function Remembered(c: Config, times: seq<real>): Option<Bucket> {
    if times == [] then None
    else Some(Admit(c, Remembered(c, times[..|times| - 1]), times[|times| - 1]).0)
  }

  function RememberedDecisions(c: Config, times: seq<real>): seq<bool> {
    if times == [] then []
    else
      var init, t := times[..|times| - 1], times[|times| - 1];
      RememberedDecisions(c, init) + [Admit(c, Remembered(c, init), t).1]
  }

  lemma {:induction false} NeverForgetting(c: Config, vs: seq<Visit>)
    ensures AfterVisits(c, None, vs, Always) == Remembered(c, Calls(vs))
    ensures Decisions(c, None, vs, Always) == RememberedDecisions(c, Calls(vs))
    decreases |vs|
  {
    hide Admit;
    if vs != [] {
      var init, v := vs[..|vs| - 1], vs[|vs| - 1];
      NeverForgetting(c, init);
      if v.Call? {
        assert (Calls(init) + [v.at])[..|Calls(init)|] == Calls(init);
      } else {
        assert Calls(init) + [] == Calls(init);
        assert Decisions(c, None, init, Always) + [] == Decisions(c, None, init, Always);
      }
    }
  }

  /** Limiters that drop only full buckets answer the same requests in the same way, however
      differently they forget. */
  lemma SameDecisions(c: Config, vs: seq<Visit>, keep: real -> bool, vs': seq<Visit>, keep': real -> bool)
    requires Sane(c) && Forward(vs) && Forward(vs') && Calls(vs) == Calls(vs')
    requires DropsOnlyFull(c, keep) && DropsOnlyFull(c, keep')
    ensures Decisions(c, None, vs, keep) == Decisions(c, None, vs', keep')
  {
    ForgettingStaysAlike(c, vs, keep, if vs == [] then 0.0 else vs[|vs| - 1].at);
    ForgettingStaysAlike(c, vs', keep', if vs' == [] then 0.0 else vs'[|vs'| - 1].at);
    NeverForgetting(c, vs);
    NeverForgetting(c, vs');
  }

  // ----- traces whose removals are all sweeps

  /** Each removal found a bucket idle for longer than `ttl`. */
  predicate IdleDrops(c: Config, ttl: real, es: seq<Event>) {
    es == [] ||
    (var init, e := es[..|es| - 1], es[|es| - 1];
     && IdleDrops(c, ttl, init)
     && (e.Drop? ==> var b := After(c, None, init); b.Some? && e.at - b.value.last > ttl))
  }

  lemma IdleDropsSnoc(c: Config, ttl: real, es: seq<Event>, e: Event)
    ensures IdleDrops(c, ttl, es + [e]) <==>
            && IdleDrops(c, ttl, es)
            && (e.Drop? ==> var b := After(c, None, es); b.Some? && e.at - b.value.last > ttl)
  {
    assert (es + [e])[..|es|] == es;
  }

  function VisitsOf(es: seq<Event>): seq<Visit> {
    if es == [] then []
    else
      var init, e := es[..|es| - 1], es[|es| - 1];
      VisitsOf(init) + [if e.Request? then Call(e.at) else Sweep(e.at)]
  }

  /** The times of the requests in a trace. */
  function Times(es: seq<Event>): seq<real> {
    Calls(VisitsOf(es))
  }

  lemma {:induction false} IdleDropsAreSweeps(c: Config, ttl: real, es: seq<Event>)
    requires IdleDrops(c, ttl, es)
    ensures AfterVisits(c, None, VisitsOf(es), KeepFor(ttl)) == After(c, None, es)
    decreases |es|
  {
    hide Admit;
    if es != [] {
      var init, e := es[..|es| - 1], es[|es| - 1];
      IdleDropsAreSweeps(c, ttl, init);
      var v := if e.Request? then Call(e.at) else Sweep(e.at);
      assert (VisitsOf(init) + [v])[..|VisitsOf(init)|] == VisitsOf(init);
    }
  }

  /** A key that only ever lost idle buckets is answered as if nothing had been forgotten. */
  lemma SweptAnswersAsRemembered(c: Config, ttl: real, es: seq<Event>, now: real)
    requires Sane(c) && ttl >= 0.0 && Gained(c, ttl) >= Cap(c)
    requires IdleDrops(c, ttl, es) && Forward(VisitsOf(es) + [Call(now)])
    ensures Admit(c, After(c, None, es), now) == Admit(c, Remembered(c, Times(es)), now)
  {
    hide Admit, Gained, Refilled;
    var vs := VisitsOf(es);
    assert vs != [] ==> (vs + [Call(now)])[|vs| - 1].at <= (vs + [Call(now)])[|vs|].at;
    assert Forward(vs) by {
      forall i, j | 0 <= i < j < |vs|
        ensures vs[i].at <= vs[j].at
      {
        assert (vs + [Call(now)])[i].at <= (vs + [Call(now)])[j].at;
      }
    }
    LongEnough(c, ttl);
    ForgettingStaysAlike(c, vs, KeepFor(ttl), now);
    IdleDropsAreSweeps(c, ttl, es);
    NeverForgetting(c, vs);
    AlikeAdmits(c, After(c, None, es), Remembered(c, Times(es)), now);
  }
}
