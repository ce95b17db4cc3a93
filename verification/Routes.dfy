/** Route patterns and the flat meaning of a route table.

    A table is read here as nothing but the list of registrations it accepted, oldest first.
    `Accepts`, `Candidate` and `IsBest` say what registration and lookup promise about that
    list; they know nothing of nodes. */
module Routes {
  import opened Wrappers
  import opened Paths

  /** Handlers are compared only by identity, so they are numbered. */
  type Handler = nat

  /** The part of a node that `sameNode` compares. */
  datatype Label =
    | Static(part: string)
    | Param(name: string)
    | Regex(name: string)
    | Wildcard(name: string)

  /** A parsed segment; `expr` is the compiled expression of a Regex segment. */
  datatype Seg = Seg(kind: Label, expr: string)

  datatype Route = Route(verb: string, pattern: seq<Seg>, handler: Handler)

  datatype Binding = Binding(key: string, value: string)

  /** The regular-expression engine: which expressions compile and which texts they match. */
  datatype Engine = Engine(compiles: string -> bool, matches: (string, string) -> bool)

  // ----- parsing a pattern

  /** strings.SplitN(s, ":", 2)[0] ends here. */
  function FirstColon(s: string): (i: nat)
    ensures i <= |s|
    ensures forall k :: 0 <= k < i ==> s[k] != ':'
    ensures i < |s| ==> s[i] == ':'
  {
    if s == "" || s[0] == ':' then 0 else 1 + FirstColon(s[1..])
  }

  /** A lone `{` makes the slice in `parseSegment` go out of range. */
  predicate Parsable(segs: seq<string>) {
    forall i :: 0 <= i < |segs| ==> segs[i] != "{"
  }

  function ParseSegment(eng: Engine, seg: string): Seg
    requires seg != "{"
  {
    if seg == "" || seg[0] != '{' then Seg(Static(seg), "")
    else
      var body := seg[1..|seg| - 1];
      if |body| > 100 then Seg(Param(body), "")
      else
        var colon := FirstColon(body);
        var name := body[..colon];
        if colon == |body| then Seg(Param(name), "")
        else
          var pattern := body[colon + 1..];
          if pattern == "*" then Seg(Wildcard(name), "")
          else if eng.compiles("^" + pattern + "$") then Seg(Regex(name), "^" + pattern + "$")
          else Seg(Param(name), "")
  }

  /** Everything up to and including the first wildcard. */
  function UpToWildcard(parsed: seq<Seg>): (r: seq<Seg>)
    ensures |r| <= |parsed| && forall i :: 0 <= i < |r| ==> r[i] == parsed[i]
    ensures forall i :: 0 <= i < |r| - 1 ==> !r[i].kind.Wildcard?
    ensures |r| < |parsed| ==> r != [] && r[|r| - 1].kind.Wildcard?
  {
    if parsed == [] then []
    else if parsed[0].kind.Wildcard? then [parsed[0]]
    else [parsed[0]] + UpToWildcard(parsed[1..])
  }

  /** Registration stops at the first wildcard and ignores what follows it. */
  function ParsePattern(eng: Engine, segs: seq<string>): (pattern: seq<Seg>)
    requires Parsable(segs)
    ensures |pattern| <= |segs|
    ensures forall i :: 0 <= i < |pattern| ==> pattern[i] == ParseSegment(eng, segs[i])
    ensures forall i :: 0 <= i < |pattern| - 1 ==> !pattern[i].kind.Wildcard?
    ensures |pattern| < |segs| ==> pattern != [] && pattern[|pattern| - 1].kind.Wildcard?
  {
    UpToWildcard(seq(|segs|, i requires 0 <= i < |segs| && Parsable(segs) => ParseSegment(eng, segs[i])))
  }

  function Labels(pattern: seq<Seg>): (ls: seq<Label>)
    ensures |ls| == |pattern|
    ensures forall i :: 0 <= i < |ls| ==> ls[i] == pattern[i].kind
  {
    seq(|pattern|, i requires 0 <= i < |pattern| => pattern[i].kind)
  }

  predicate WildcardLast(ls: seq<Label>) {
    forall i :: 0 <= i < |ls| - 1 ==> !ls[i].Wildcard?
  }

  // ----- the list of accepted registrations

  predicate Reaches(r: Route, m: string, p: seq<Label>) {
    r.verb == m && |p| <= |r.pattern| && Labels(r.pattern)[..|p|] == p
  }

  ghost predicate Present(log: seq<Route>, m: string, p: seq<Label>) {
    exists i :: 0 <= i < |log| && Reaches(log[i], m, p)
  }

  /** A wildcard node closes its level to named segments, a named segment to other named
      segments; a wildcard may join a named segment but not another wildcard. */
  predicate Clash(prior: Label, added: Label) {
    || (!prior.Static? && (added.Param? || added.Regex?))
    || (prior.Wildcard? && added.Wildcard?)
  }

  /** A pattern is refused exactly when it leaves the known prefixes next to a clashing label. */
  ghost predicate Accepts(log: seq<Route>, m: string, q: seq<Label>) {
    forall i :: 0 <= i < |q| && !Present(log, m, q[..i + 1]) ==> NoClashAt(log, m, q[..i], q[i])
  }

  ghost predicate NoClashAt(log: seq<Route>, m: string, pre: seq<Label>, l: Label) {
    forall prior :: Present(log, m, pre + [prior]) ==> !Clash(prior, l)
  }

  ghost predicate WellFormed(log: seq<Route>) {
    log == [] ||
    (var init, r := log[..|log| - 1], log[|log| - 1];
     WellFormed(init) && WildcardLast(Labels(r.pattern)) && Accepts(init, r.verb, Labels(r.pattern)))
  }

  /** The handler of a pattern is the one registered last. */
  ghost function Latest(log: seq<Route>, m: string, p: seq<Label>): Option<Handler> {
    if log == [] then None
    else
      var r := log[|log| - 1];
      if r.verb == m && Labels(r.pattern) == p then Some(r.handler)
      else Latest(log[..|log| - 1], m, p)
  }

  /** The expression of a regex segment is the one registered first, because `sameNode` does
      not compare expressions. */
  ghost function FirstExpr(log: seq<Route>, m: string, p: seq<Label>): string
    requires p != []
  {
    if log == [] then ""
    else
      var init, r := log[..|log| - 1], log[|log| - 1];
      if Present(init, m, p) then FirstExpr(init, m, p)
      else if Reaches(r, m, p) then r.pattern[|p| - 1].expr
      else ""
  }

  // ----- lookup in the list

  function Rank(l: Label): nat {
    match l
    case Static(_) => 0
    case Regex(_) => 1
    case Param(_) => 2
    case Wildcard(_) => 3
  }

  ghost predicate SegmentFits(eng: Engine, log: seq<Route>, m: string, p: seq<Label>, seg: string)
    requires p != []
  {
    match p[|p| - 1]
    case Static(part) => part == seg
    case Param(_) => true
    case Regex(_) => eng.matches(FirstExpr(log, m, p), seg)
    case Wildcard(_) => true
  }

  /** Whether labels `q`, hanging below the prefix `pre`, match all of `segs`. */
  ghost predicate Matches(eng: Engine, log: seq<Route>, m: string, pre: seq<Label>, q: seq<Label>, segs: seq<string>)
    decreases |q|
  {
    if q == [] then segs == []
    else
      && segs != []
      && SegmentFits(eng, log, m, pre + [q[0]], segs[0])
      && (q[0].Wildcard? || Matches(eng, log, m, pre + [q[0]], q[1..], segs[1..]))
  }

  ghost predicate Candidate(eng: Engine, log: seq<Route>, m: string, pre: seq<Label>, q: seq<Label>,
                            segs: seq<string>) {
    Latest(log, m, pre + q).Some? && Matches(eng, log, m, pre, q, segs)
  }

  /** Lexicographic preference by rank at the first difference. */
  ghost predicate Before(a: seq<Label>, b: seq<Label>) {
    exists i :: 0 <= i < |a| && i < |b| && a[..i] == b[..i] && Rank(a[i]) < Rank(b[i])
  }

  ghost predicate IsBest(eng: Engine, log: seq<Route>, m: string, pre: seq<Label>, q: seq<Label>, segs: seq<string>) {
    && Candidate(eng, log, m, pre, q, segs)
    && forall q' :: Candidate(eng, log, m, pre, q', segs) && q' != q ==> Before(q, q')
  }

  /** The promise of a lookup, in terms of the accepted registrations alone. */
  ghost predicate Serves(eng: Engine, log: seq<Route>, m: string, path: string, h: Option<Handler>,
                         params: seq<Binding>) {
    match h
    case None => params == [] && forall q :: !Candidate(eng, log, m, [], q, Segments(path))
    case Some(_) => exists q :: ServedBy(eng, log, m, path, h, params, q)
  }

  /** Pattern `q` is the best match, `h` its latest handler, and `params` rebuild the path from it. */
  ghost predicate ServedBy(eng: Engine, log: seq<Route>, m: string, path: string, h: Option<Handler>,
                           params: seq<Binding>, q: seq<Label>) {
    && IsBest(eng, log, m, [], q, Segments(path))
    && h == Latest(log, m, q)
    && params == Bindings(q, Segments(path))
    && "/" + Join(Substitute(q, params)) == CleanPath(path)
  }

  /** The parameters captured by a matching pattern. */
  function Bindings(q: seq<Label>, segs: seq<string>): seq<Binding>
    decreases |q|
  {
    if q == [] || segs == [] then []
    else
      match q[0]
      case Static(_) => Bindings(q[1..], segs[1..])
      case Wildcard(name) => [Binding(name, Join(segs))]
      case Param(name) => [Binding(name, segs[0])] + Bindings(q[1..], segs[1..])
      case Regex(name) => [Binding(name, segs[0])] + Bindings(q[1..], segs[1..])
  }

  /** A pattern with its parameters filled in. */
  function Substitute(q: seq<Label>, bs: seq<Binding>): seq<string>
    decreases |q|
  {
    if q == [] then []
    else if q[0].Static? then [q[0].part] + Substitute(q[1..], bs)
    else if bs == [] then []
    else [bs[0].value] + Substitute(q[1..], bs[1..])
  }

  // ----- facts about the list

  lemma LogSnoc(log: seq<Route>, r: Route, m: string, p: seq<Label>)
    ensures Present(log + [r], m, p) <==> Present(log, m, p) || Reaches(r, m, p)
    ensures Latest(log + [r], m, p) ==
            if r.verb == m && Labels(r.pattern) == p then Some(r.handler) else Latest(log, m, p)
    ensures p != [] ==>
              FirstExpr(log + [r], m, p) ==
              (if Present(log, m, p) then FirstExpr(log, m, p)
               else if Reaches(r, m, p) then r.pattern[|p| - 1].expr else "")
  {
    var log' := log + [r];
    assert log'[..|log'| - 1] == log && log'[|log|] == r;
    if Present(log, m, p) {
      var i :| 0 <= i < |log| && Reaches(log[i], m, p);
      assert Reaches(log'[i], m, p);
    }
    if Reaches(r, m, p) {
      assert Reaches(log'[|log|], m, p);
    }
  }

  lemma PresentParent(log: seq<Route>, m: string, p: seq<Label>, l: Label)
    requires Present(log, m, p + [l])
    ensures Present(log, m, p)
  {
    var i :| 0 <= i < |log| && Reaches(log[i], m, p + [l]);
    assert Labels(log[i].pattern)[..|p|] == (p + [l])[..|p|] == p;
    assert Reaches(log[i], m, p);
  }

  lemma {:induction false} LatestIsPresent(log: seq<Route>, m: string, p: seq<Label>)
    requires Latest(log, m, p).Some?
    ensures Present(log, m, p)
  {
    var init, r := log[..|log| - 1], log[|log| - 1];
    assert init + [r] == log;
    LogSnoc(init, r, m, p);
    if r.verb == m && Labels(r.pattern) == p {
      assert Reaches(r, m, p);
    } else {
      LatestIsPresent(init, m, p);
    }
  }

  /** In every reachable table a level holds at most one named segment and at most one wildcard. */
  lemma {:induction false} SiblingsExclusive(log: seq<Route>, m: string, pre: seq<Label>, a: Label, b: Label)
    requires WellFormed(log)
    requires Present(log, m, pre + [a]) && Present(log, m, pre + [b]) && a != b
    ensures !((a.Param? || a.Regex?) && (b.Param? || b.Regex?))
    ensures !(a.Wildcard? && b.Wildcard?)
    decreases |log|
  {
    var init, r := log[..|log| - 1], log[|log| - 1];
    assert init + [r] == log;
    LogSnoc(init, r, m, pre + [a]);
    LogSnoc(init, r, m, pre + [b]);
    var ls := Labels(r.pattern);
    if Present(init, m, pre + [a]) && Present(init, m, pre + [b]) {
      SiblingsExclusive(init, m, pre, a, b);
    } else if Present(init, m, pre + [a]) {
      NewSibling(init, r, pre, a, b);
    } else if Present(init, m, pre + [b]) {
      NewSibling(init, r, pre, b, a);
    } else {
      assert false;
    }
  }

  lemma NewSibling(log: seq<Route>, r: Route, pre: seq<Label>, prior: Label, l: Label)
    requires Accepts(log, r.verb, Labels(r.pattern))
    requires Present(log, r.verb, pre + [prior])
    requires !Present(log, r.verb, pre + [l]) && Reaches(r, r.verb, pre + [l])
    ensures !Clash(prior, l)
  {
    var ls := Labels(r.pattern);
    assert ls[..|pre| + 1] == pre + [l];
    assert ls[|pre|] == (pre + [l])[|pre|] == l;
    assert ls[..|pre|] == (pre + [l])[..|pre|] == pre;
    assert NoClashAt(log, r.verb, ls[..|pre|], ls[|pre|]);
  }

  /** A wildcard node always holds a handler and never has children. */
  lemma {:induction false} WildcardIsFinal(log: seq<Route>, m: string, pre: seq<Label>, w: Label)
    requires WellFormed(log) && w.Wildcard?
    requires Present(log, m, pre + [w])
    ensures Latest(log, m, pre + [w]).Some?
    ensures forall more :: more != [] ==> !Present(log, m, pre + [w] + more)
    decreases |log|
  {
    var init, r := log[..|log| - 1], log[|log| - 1];
    assert init + [r] == log;
    LogSnoc(init, r, m, pre + [w]);
    var ls := Labels(r.pattern);
    if Reaches(r, m, pre + [w]) {
      assert ls[|pre|] == (pre + [w])[|pre|] == w;
      assert |ls| == |pre| + 1;
      assert ls == pre + [w];
    } else {
      WildcardIsFinal(init, m, pre, w);
    }
    forall more | more != []
      ensures !Present(log, m, pre + [w] + more)
    {
      LogSnoc(init, r, m, pre + [w] + more);
      if Reaches(r, m, pre + [w] + more) {
        assert false;
      }
      if Present(init, m, pre + [w] + more) {
        var i :| 0 <= i < |init| && Reaches(init[i], m, pre + [w] + more);
        assert Labels(init[i].pattern)[..|pre| + 1] == (pre + [w] + more)[..|pre| + 1] == pre + [w];
        assert Reaches(init[i], m, pre + [w]);
        WildcardIsFinal(init, m, pre, w);
        assert false;
      }
    }
  }

  // ----- lookup one level at a time

  /** A candidate for a nonempty path starts with a label present at this level. */
  lemma CandidateHead(eng: Engine, log: seq<Route>, m: string, pre: seq<Label>, q: seq<Label>, segs: seq<string>)
    requires WellFormed(log) && segs != [] && Candidate(eng, log, m, pre, q, segs)
    ensures q != [] && Present(log, m, pre + [q[0]])
    ensures SegmentFits(eng, log, m, pre + [q[0]], segs[0])
    ensures q[0].Wildcard? ==> q == [q[0]]
    ensures !q[0].Wildcard? ==> Candidate(eng, log, m, pre + [q[0]], q[1..], segs[1..])
  {
    assert pre + q == pre + [q[0]] + q[1..];
    LatestIsPresent(log, m, pre + q);
    PresentShorter(log, m, pre + [q[0]], q[1..]);
    if q[0].Wildcard? {
      WildcardIsFinal(log, m, pre, q[0]);
    }
  }

  lemma PresentShorter(log: seq<Route>, m: string, p: seq<Label>, more: seq<Label>)
    requires Present(log, m, p + more)
    ensures Present(log, m, p)
  {
    var i :| 0 <= i < |log| && Reaches(log[i], m, p + more);
    assert Labels(log[i].pattern)[..|p|] == (p + more)[..|p|] == p;
    assert Reaches(log[i], m, p);
  }

  lemma CandidateCons(eng: Engine, log: seq<Route>, m: string, pre: seq<Label>, l: Label, q: seq<Label>,
                      segs: seq<string>)
    requires segs != [] && !l.Wildcard? && SegmentFits(eng, log, m, pre + [l], segs[0])
    requires Candidate(eng, log, m, pre + [l], q, segs[1..])
    ensures Candidate(eng, log, m, pre, [l] + q, segs)
  {
    assert pre + ([l] + q) == pre + [l] + q;
    assert ([l] + q)[1..] == q;
  }

  lemma BeforeCons(l: Label, a: seq<Label>, b: seq<Label>)
    requires Before(a, b)
    ensures Before([l] + a, [l] + b)
  {
    var i :| 0 <= i < |a| && i < |b| && a[..i] == b[..i] && Rank(a[i]) < Rank(b[i]);
    assert ([l] + a)[..i + 1] == [l] + a[..i] == [l] + b[..i] == ([l] + b)[..i + 1];
    assert ([l] + a)[i + 1] == a[i] && ([l] + b)[i + 1] == b[i];
  }

  /** When nothing of lower rank can match, the best match below a fitting child is the best here. */
  lemma BestThroughChild(eng: Engine, log: seq<Route>, m: string, pre: seq<Label>, l: Label, best: seq<Label>,
                         segs: seq<string>)
    requires WellFormed(log) && segs != [] && !l.Wildcard? && Present(log, m, pre + [l])
    requires SegmentFits(eng, log, m, pre + [l], segs[0])
    requires IsBest(eng, log, m, pre + [l], best, segs[1..])
    requires forall q :: Candidate(eng, log, m, pre, q, segs) && q != [] ==> Rank(q[0]) >= Rank(l)
    ensures IsBest(eng, log, m, pre, [l] + best, segs)
    ensures Latest(log, m, pre + ([l] + best)) == Latest(log, m, pre + [l] + best)
  {
    hide Matches, Latest, WellFormed, FirstExpr, Present;
    assert pre + ([l] + best) == pre + [l] + best;
    CandidateCons(eng, log, m, pre, l, best, segs);
    forall q | Candidate(eng, log, m, pre, q, segs) && q != [l] + best
      ensures Before([l] + best, q)
    {
      CandidateHead(eng, log, m, pre, q, segs);
      if q[0] == l {
        assert [l] + q[1..] == q;
        BeforeCons(l, best, q[1..]);
      } else {
        SiblingsExclusive(log, m, pre, q[0], l);
        LastOf(pre, q[0]);
        LastOf(pre, l);
        assert Rank(l) < Rank(q[0]);
        assert ([l] + best)[..0] == q[..0];
      }
    }
  }

  /** A child that does not fit, or below which nothing matches, starts no candidate. */
  lemma NoCandidateThrough(eng: Engine, log: seq<Route>, m: string, pre: seq<Label>, l: Label, segs: seq<string>)
    requires WellFormed(log) && segs != [] && !l.Wildcard?
    requires SegmentFits(eng, log, m, pre + [l], segs[0]) ==>
               forall q :: !Candidate(eng, log, m, pre + [l], q, segs[1..])
    ensures forall q :: q != [] && q[0] == l ==> !Candidate(eng, log, m, pre, q, segs)
  {
    forall q | q != [] && q[0] == l
      ensures !Candidate(eng, log, m, pre, q, segs)
    {
      if Candidate(eng, log, m, pre, q, segs) {
        CandidateHead(eng, log, m, pre, q, segs);
      }
    }
  }

  lemma BindingsCons(l: Label, best: seq<Label>, segs: seq<string>)
    requires segs != [] && !l.Wildcard?
    ensures Bindings([l] + best, segs) ==
            (if l.Static? then [] else [Binding(l.name, segs[0])]) + Bindings(best, segs[1..])
  {
    assert ([l] + best)[1..] == best;
  }

  lemma LastOf(pre: seq<Label>, l: Label)
    ensures (pre + [l])[|pre + [l]| - 1] == l
  {
  }

  /** When no named segment can match, the wildcard of this level is the best match. */
  lemma BestWildcard(eng: Engine, log: seq<Route>, m: string, pre: seq<Label>, w: Label, segs: seq<string>)
    requires WellFormed(log) && segs != [] && w.Wildcard? && Present(log, m, pre + [w])
    requires forall q :: Candidate(eng, log, m, pre, q, segs) && q != [] ==> Rank(q[0]) >= 3
    ensures IsBest(eng, log, m, pre, [w], segs)
    ensures Latest(log, m, pre + [w]).Some?
    ensures Bindings([w], segs) == [Binding(w.name, Join(segs))]
  {
    WildcardIsFinal(log, m, pre, w);
    LastOf(pre, w);
    forall q | Candidate(eng, log, m, pre, q, segs)
      ensures q == [w]
    {
      CandidateHead(eng, log, m, pre, q, segs);
      if q[0] != w { SiblingsExclusive(log, m, pre, q[0], w); }
    }
  }

  /** The labels of a handler's pattern have their wildcard, if any, at the end. */
  lemma {:induction false} LatestWildcardLast(log: seq<Route>, m: string, p: seq<Label>)
    requires WellFormed(log) && Latest(log, m, p).Some?
    ensures WildcardLast(p)
  {
    var r := log[|log| - 1];
    if !(r.verb == m && Labels(r.pattern) == p) {
      LatestWildcardLast(log[..|log| - 1], m, p);
    }
  }

  lemma BestServes(eng: Engine, log: seq<Route>, m: string, path: string, q: seq<Label>)
    requires WellFormed(log) && IsBest(eng, log, m, [], q, Segments(path))
    ensures Serves(eng, log, m, path, Latest(log, m, q), Bindings(q, Segments(path)))
  {
    var segs := Segments(path);
    assert [] + q == q;
    SegmentsAreNormalised(path);
    LatestWildcardLast(log, m, q);
    BindingsRebuildPath(eng, log, m, [], q, segs);
    assert ServedBy(eng, log, m, path, Latest(log, m, q), Bindings(q, segs), q);
  }

  lemma ServesMeaning(eng: Engine, log: seq<Route>, m: string, path: string, h: Option<Handler>, params: seq<Binding>)
    requires Serves(eng, log, m, path, h, params)
    ensures h.Some? <==> exists q :: Candidate(eng, log, m, [], q, Segments(path))
  {
  }

  /** The accepted registrations determine the answer. */
  lemma ServesIsUnique(eng: Engine, log: seq<Route>, m: string, path: string, h: Option<Handler>, ps: seq<Binding>,
                       h': Option<Handler>, ps': seq<Binding>)
    requires Serves(eng, log, m, path, h, ps) && Serves(eng, log, m, path, h', ps')
    ensures h == h' && ps == ps'
  {
    hide Matches, Latest;
    var segs := Segments(path);
    if h.Some? && h'.Some? {
      var q :| ServedBy(eng, log, m, path, h, ps, q);
      var q' :| ServedBy(eng, log, m, path, h', ps', q');
      if q != q' {
        BeforeAsymmetric(q, q');
      }
    }
  }

  /** Lookup cannot tell a path from the same path with a trailing slash, or from its cleaned form. */
  lemma NormalisedPathsServeAlike(eng: Engine, log: seq<Route>, m: string, path: string, h: Option<Handler>,
                                  params: seq<Binding>)
    ensures Serves(eng, log, m, path, h, params) <==> Serves(eng, log, m, path + "/", h, params)
    ensures Serves(eng, log, m, path, h, params) <==> Serves(eng, log, m, CleanPath(path), h, params)
  {
    CleaningIsIdempotent(path);
    SegmentsAreNormalised(path);
    SegmentsAreNormalised(path + "/");
    SamePathServesAlike(eng, log, m, path, path + "/", h, params);
    SamePathServesAlike(eng, log, m, path, CleanPath(path), h, params);
  }

  lemma SamePathServesAlike(eng: Engine, log: seq<Route>, m: string, p: string, p': string, h: Option<Handler>,
                            params: seq<Binding>)
    requires Segments(p) == Segments(p') && CleanPath(p) == CleanPath(p')
    ensures Serves(eng, log, m, p, h, params) <==> Serves(eng, log, m, p', h, params)
  {
    hide Segments, CleanPath, Candidate, IsBest, Latest, Bindings, Substitute;
    forall q
      ensures ServedBy(eng, log, m, p, h, params, q) <==> ServedBy(eng, log, m, p', h, params, q)
    {
    }
  }

  /** A registered pattern of static segments only is always the best match for its own path. */
  lemma {:induction false} StaticRouteWins(eng: Engine, log: seq<Route>, m: string, pre: seq<Label>, segs: seq<string>)
    requires WellFormed(log) && Latest(log, m, pre + StaticLabels(segs)).Some?
    ensures IsBest(eng, log, m, pre, StaticLabels(segs), segs)
    decreases |segs|
  {
    hide WellFormed, Latest, Present, IsBest, Candidate;
    var q := StaticLabels(segs);
    if segs == [] {
      OnlyEmptyMatches(eng, log, m, pre);
      assert q == [] && pre + q == pre;
    } else {
      var l := Static(segs[0]);
      var rest := StaticLabels(segs[1..]);
      assert q == [l] + rest;
      assert pre + q == pre + [l] + rest;
      StaticRouteWins(eng, log, m, pre + [l], segs[1..]);
      LatestIsPresent(log, m, pre + q);
      PresentShorter(log, m, pre + [l], rest);
      StaticStep(eng, log, m, pre, rest, segs);
    }
  }

  lemma StaticStep(eng: Engine, log: seq<Route>, m: string, pre: seq<Label>, rest: seq<Label>, segs: seq<string>)
    requires WellFormed(log) && segs != [] && Present(log, m, pre + [Static(segs[0])])
    requires IsBest(eng, log, m, pre + [Static(segs[0])], rest, segs[1..])
    ensures IsBest(eng, log, m, pre, [Static(segs[0])] + rest, segs)
  {
    hide WellFormed, Latest, Present, IsBest, Candidate;
    LastOf(pre, Static(segs[0]));
    BestThroughChild(eng, log, m, pre, Static(segs[0]), rest, segs);
  }

  lemma OnlyEmptyMatches(eng: Engine, log: seq<Route>, m: string, pre: seq<Label>)
    ensures Latest(log, m, pre).Some? ==> IsBest(eng, log, m, pre, [], [])
  {
    assert pre + [] == pre;
  }

  function StaticLabels(segs: seq<string>): (ls: seq<Label>)
    ensures |ls| == |segs|
    ensures forall i :: 0 <= i < |ls| ==> ls[i] == Static(segs[i])
  {
    seq(|segs|, i requires 0 <= i < |segs| => Static(segs[i]))
  }

  lemma BeforeAsymmetric(a: seq<Label>, b: seq<Label>)
    requires Before(a, b)
    ensures !Before(b, a)
  {
    var i :| 0 <= i < |a| && i < |b| && a[..i] == b[..i] && Rank(a[i]) < Rank(b[i]);
    forall j | 0 <= j < |b| && j < |a| && b[..j] == a[..j]
      ensures Rank(b[j]) >= Rank(a[j])
    {
      if j < i {
        assert a[j] == a[..i][j] == b[..i][j] == b[j];
      } else if i < j {
        SamePrefixAt(b, a, j, i);
        assert false;
      }
    }
  }

  lemma SamePrefixAt(a: seq<Label>, b: seq<Label>, n: nat, k: nat)
    requires k < n <= |a| && n <= |b| && a[..n] == b[..n]
    ensures a[k] == b[k]
  {
    assert a[k] == a[..n][k] == b[..n][k] == b[k];
  }

  /** Filling the captured parameters into the matched pattern gives back the request path. */
  lemma {:induction false} BindingsRebuildPath(eng: Engine, log: seq<Route>, m: string, pre: seq<Label>,
                                               q: seq<Label>, segs: seq<string>)
    requires Matches(eng, log, m, pre, q, segs) && WildcardLast(q)
    ensures Join(Substitute(q, Bindings(q, segs))) == Join(segs)
    ensures |q| == 0 <==> |segs| == 0
    ensures |q| == |Substitute(q, Bindings(q, segs))|
    decreases |q|
  {
    if q == [] {
    } else if q[0].Wildcard? {
      assert q == [q[0]];
      assert Substitute(q[1..], []) == [];
      assert Bindings(q, segs)[1..] == [];
      assert Substitute(q, Bindings(q, segs)) == [Join(segs)];
    } else {
      BindingsRebuildPath(eng, log, m, pre + [q[0]], q[1..], segs[1..]);
      var tail := Substitute(q[1..], Bindings(q[1..], segs[1..]));
      if !q[0].Static? {
        assert Bindings(q, segs)[1..] == Bindings(q[1..], segs[1..]);
      }
      assert Substitute(q, Bindings(q, segs)) == [segs[0]] + tail;
      assert ([segs[0]] + tail)[1..] == tail;
      assert [segs[0]] + segs[1..] == segs;
    }
  }
}
