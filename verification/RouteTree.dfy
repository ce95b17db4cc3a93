/** The route tree: nodes linked in the heap, registration by a cursor that appends children,
    and a backtracking search that pushes and pops captured parameters.

    The ghost field `log` is the list of accepted registrations; `Valid` ties every node to it,
    so the contracts of `AddRoute`, `FindRoute` and `AnyMethodExists` speak of that list only. */
module RouteTree {
  import opened Wrappers
  import opened Paths
  import opened Routes

  class Node {
    const kind: Label
    const expr: string
    var children: seq<Node>
    var handler: Option<Handler>

    constructor (seg: Seg)
      ensures kind == seg.kind && expr == seg.expr && children == [] && handler == None
    {
      kind, expr, children, handler := seg.kind, seg.expr, [], None;
    }
  }

  /** The slice that `search` receives by pointer. */
  class ParamList {
    var items: seq<Binding>

    constructor ()
      ensures items == []
    {
      items := [];
    }
  }

  /** The place of a node: its method and the labels on the way down from the root. */
  type Place = (string, seq<Label>)

  ghost function Below(k: Place, l: Label): Place {
    (k.0, k.1 + [l])
  }

  /** The nodes are those of the log and of the first `i` labels of a pattern being added. */
  ghost predicate Placed(index: map<Place, Node>, log: seq<Route>, m: string, pattern: seq<Seg>, i: nat)
    requires i <= |pattern|
  {
    && (forall k :: k in index <==> Present(log, k.0, k.1) || Adding(m, pattern, i, k))
    && (forall k :: k in index && k.1 != [] ==>
          index[k].expr ==
          if Present(log, k.0, k.1) then FirstExpr(log, k.0, k.1) else pattern[|k.1| - 1].expr)
  }

  ghost predicate Adding(m: string, pattern: seq<Seg>, i: nat, k: Place)
    requires i <= |pattern|
  {
    k.0 == m && |k.1| <= i && k.1 == Labels(pattern)[..|k.1|]
  }

  /** The nodes are exactly those of the log. */
  ghost predicate Complete(index: map<Place, Node>, log: seq<Route>) {
    && (forall k :: k in index <==> Present(log, k.0, k.1))
    && (forall k :: k in index && k.1 != [] ==> index[k].expr == FirstExpr(log, k.0, k.1))
  }

  lemma PlacedRoot(index: map<Place, Node>, log: seq<Route>, m: string, pattern: seq<Seg>, root: Node)
    requires Complete(index, log)
    ensures (m, []) in index ==> Placed(index, log, m, pattern, 0)
    ensures (m, []) !in index ==> Placed(index[(m, []) := root], log, m, pattern, 0)
  {
    forall k: Place
      ensures Adding(m, pattern, 0, k) <==> k == (m, [])
    {
    }
  }

  lemma PlacedStep(index: map<Place, Node>, log: seq<Route>, m: string, pattern: seq<Seg>, i: nat, child: Node)
    requires i < |pattern| && Placed(index, log, m, pattern, i)
    ensures var k := (m, Labels(pattern)[..i + 1]);
            && (k in index ==> Placed(index, log, m, pattern, i + 1))
            && (k !in index && child.expr == pattern[i].expr ==> Placed(index[k := child], log, m, pattern, i + 1))
  {
    var at := (m, Labels(pattern)[..i + 1]);
    forall k: Place
      ensures Adding(m, pattern, i + 1, k) <==> Adding(m, pattern, i, k) || k == at
    {
    }
  }

  lemma LogGrows(index: map<Place, Node>, log: seq<Route>, r: Route)
    requires Placed(index, log, r.verb, r.pattern, |r.pattern|)
    ensures Complete(index, log + [r])
    ensures forall k: Place :: Latest(log + [r], k.0, k.1) ==
              if k == (r.verb, Labels(r.pattern)) then Some(r.handler) else Latest(log, k.0, k.1)
    ensures (log + [r])[..|log|] == log
  {
    forall k: Place
      ensures k in index <==> Present(log + [r], k.0, k.1)
      ensures k in index && k.1 != [] ==> index[k].expr == FirstExpr(log + [r], k.0, k.1)
      ensures Latest(log + [r], k.0, k.1) ==
              if k == (r.verb, Labels(r.pattern)) then Some(r.handler) else Latest(log, k.0, k.1)
    {
      LogSnoc(log, r, k.0, k.1);
    }
  }

  ghost predicate Injective(index: map<Place, Node>) {
    forall k, k' :: k in index && k' in index && index[k] == index[k'] ==> k == k'
  }

  ghost predicate LabelsApart(children: seq<Node>) {
    forall i, j :: 0 <= i < j < |children| ==> children[i].kind != children[j].kind
  }

  lemma AppendApart(children: seq<Node>, child: Node)
    requires LabelsApart(children) && forall c :: c in children ==> c.kind != child.kind
    ensures LabelsApart(children + [child]) && LabelsApart([])
  {
  }

  class Tree {
    const eng: Engine
    var roots: map<string, Node>
    ghost var index: map<Place, Node>
    ghost var log: seq<Route>

    /** The nodes form a forest whose edges are exactly the child lists. */
    ghost predicate Linked()
      reads this`roots, this`index, index.Values`children
    {
      Rooted() && Injective(index) && ChildrenIndexed() && IndexedAsChildren() && SiblingsApart()
    }

    ghost predicate Rooted()
      reads this`roots, this`index
    {
      && (forall m :: m in roots <==> (m, []) in index)
      && (forall m :: m in roots ==> roots[m] == index[(m, [])])
    }

    ghost predicate ChildrenIndexed()
      reads this`index, index.Values`children
    {
      forall k, c :: k in index && c in index[k].children ==>
        Below(k, c.kind) in index && index[Below(k, c.kind)] == c
    }

    ghost predicate IndexedAsChildren()
      reads this`index, index.Values`children
    {
      forall k, l :: Below(k, l) in index ==>
        k in index && index[Below(k, l)] in index[k].children && index[Below(k, l)].kind == l
    }

    /** No two entries of a child list carry the same label. */
    ghost predicate SiblingsApart()
      reads this`index, index.Values`children
    {
      forall n :: n in index.Values ==> LabelsApart(n.children)
    }

    /** Every node holds the handler registered last at its place. */
    ghost predicate Handled()
      reads this`index, this`log, index.Values`handler
    {
      forall k :: k in index ==> index[k].handler == Latest(log, k.0, k.1)
    }

    ghost predicate Valid()
      reads this, index.Values
    {
      Linked() && Handled() && Complete(index, log) && WellFormed(log)
    }

    constructor (engine: Engine)
      ensures Valid() && log == [] && eng == engine && index == map[] && roots == map[]
    {
      eng, roots, index, log := engine, map[], map[], [];
    }

    // ----- registration

    method FindChild(n: Node, l: Label) returns (child: Option<Node>)
      ensures child.Some? ==> child.value in n.children && child.value.kind == l
      ensures child.None? ==> forall c :: c in n.children ==> c.kind != l
    {
      for i := 0 to |n.children|
        invariant forall j :: 0 <= j < i ==> n.children[j].kind != l
      {
        if n.children[i].kind == l {
          return Some(n.children[i]);
        }
      }
      return None;
    }

    method HasConflict(n: Node, l: Label) returns (conflict: bool)
      ensures conflict <==> exists c :: c in n.children && Clash(c.kind, l)
    {
      for i := 0 to |n.children|
        invariant forall j :: 0 <= j < i ==> !Clash(n.children[j].kind, l)
      {
        if Clash(n.children[i].kind, l) {
          return true;
        }
      }
      return false;
    }

    /** A method is given its root the first time it is registered. */
    method EnsureRoot(m: string, ghost pattern: seq<Seg>)
      requires Valid()
      modifies this`roots, this`index
      ensures m in roots && Cursor(m, pattern, 0, roots[m])
      ensures forall n :: n in index.Values ==> n in old(index.Values) || fresh(n)
      ensures Present(log, m, []) ==> index == old(index) && roots == old(roots)
    {
      hide Present, Latest, FirstExpr, WellFormed, Linked;
      assert Labels(pattern)[..0] == [];
      if m !in roots {
        assert (m, []) !in index by { LinkedRoot(m); }
        if Latest(log, m, []).Some? { LatestIsPresent(log, m, []); }
        var n := AddRoot(m);
        PlacedRoot(old(index), log, m, pattern, n);
      } else {
        LinkedRoot(m);
        PlacedRoot(index, log, m, pattern, roots[m]);
      }
    }

    lemma LinkedRoot(m: string)
      requires Linked()
      ensures m in roots <==> (m, []) in index
      ensures m in roots ==> roots[m] == index[(m, [])]
    {
    }

    method AddRoot(m: string) returns (n: Node)
      requires Linked() && (m, []) !in index
      modifies this`roots, this`index
      ensures fresh(n) && n.children == [] && n.handler == None
      ensures roots == old(roots)[m := n] && index == old(index)[(m, []) := n]
      ensures Linked()
    {
      n := new Node(Seg(Static(""), ""));
      roots := roots[m := n];
      index := index[(m, []) := n];
      forall k', l | Below(k', l) in index
        ensures k' in index && index[Below(k', l)] in index[k'].children && index[Below(k', l)].kind == l
      {
        BelowNotRoot(k', l);
        assert Below(k', l) in old(index);
      }
    }

    /** A fresh child under the node at `k`. */
    method NewChild(ghost k: Place, current: Node, seg: Seg) returns (child: Node)
      requires Linked() && k in index && index[k] == current
      requires Below(k, seg.kind) !in index
      modifies this`index, current`children
      ensures fresh(child) && child.children == [] && child.handler == None
      ensures child.kind == seg.kind && child.expr == seg.expr
      ensures index == old(index)[Below(k, seg.kind) := child]
      ensures current.children == old(current.children) + [child]
      ensures Rooted() && Injective(index) && SiblingsApart()
    {
      hide ChildrenIndexed, IndexedAsChildren, LabelsApart;
      NewLabel(k, seg.kind);
      child := new Node(seg);
      BelowNotRoot(k, seg.kind);
      AppendApart(current.children, child);
      current.children := current.children + [child];
      index := index[Below(k, seg.kind) := child];
    }

    /** The forest with that child. */
    method AddChild(ghost k: Place, current: Node, seg: Seg) returns (child: Node)
      requires Linked() && k in index && index[k] == current
      requires Below(k, seg.kind) !in index
      modifies this`index, current`children
      ensures fresh(child) && child.children == [] && child.handler == None
      ensures child.kind == seg.kind && child.expr == seg.expr
      ensures index == old(index)[Below(k, seg.kind) := child]
      ensures current.children == old(current.children) + [child]
      ensures Linked()
    {
      hide SiblingsApart;
      ghost var at := Below(k, seg.kind);
      child := NewChild(k, current, seg);
      assert ChildrenIndexed() by {
        hide IndexedAsChildren, Rooted;
        forall k', c | k' in index && c in index[k'].children
          ensures Below(k', c.kind) in index && index[Below(k', c.kind)] == c
        {
          if k' != at {
            assert k' in old(index);
            if c == child {
              assert index[k'] == current && k' == k;
            } else {
              assert c in old(index[k'].children);
            }
          }
        }
      }
      assert IndexedAsChildren() by {
        hide ChildrenIndexed, Rooted;
        forall k', l | Below(k', l) in index
          ensures k' in index && index[Below(k', l)] in index[k'].children && index[Below(k', l)].kind == l
        {
          if Below(k', l) == at {
            BelowInjective(k, seg.kind, k', l);
          } else {
            assert Below(k', l) in old(index);
          }
        }
      }
    }

    lemma NewLabel(k: Place, l: Label)
      requires Linked() && k in index && Below(k, l) !in index
      ensures LabelsApart(index[k].children) && forall c :: c in index[k].children ==> c.kind != l
    {
      forall c | c in index[k].children
        ensures c.kind != l
      {
        assert Below(k, c.kind) in index;
      }
    }

    /** The cursor stands on the node for the first `i` labels of the pattern being added. */
    ghost predicate Cursor(m: string, pattern: seq<Seg>, i: nat, current: Node)
      reads this, index.Values
    {
      && i <= |pattern|
      && Linked() && Handled() && Placed(index, log, m, pattern, i)
      && (m, Labels(pattern)[..i]) in index && index[(m, Labels(pattern)[..i])] == current
      && (!Present(log, m, Labels(pattern)[..i]) ==> current.children == [])
    }

    /** One turn of the registration loop: reuse the child, add one, or report a conflict. */
    method Descend(m: string, ghost pattern: seq<Seg>, ghost i: nat, current: Node,
                   n: Seg) returns (child: Option<Node>)
      requires i < |pattern| && pattern[i] == n && Cursor(m, pattern, i, current)
      modifies this`index, current`children
      ensures child.Some? ==> Cursor(m, pattern, i + 1, child.value)
      ensures child.Some? <==>
              Present(log, m, Labels(pattern)[..i + 1]) || NoClashAt(log, m, Labels(pattern)[..i], n.kind)
      ensures forall n :: n in index.Values ==> n in old(index.Values) || fresh(n)
      ensures child.None? || Present(log, m, Labels(pattern)[..i + 1]) ==> index == old(index) && unchanged(current)
      ensures child.None? ==> Present(log, m, Labels(pattern)[..i])
    {
      hide Present, Latest, FirstExpr, WellFormed, Linked, NoClashAt, Placed;
      ghost var ls := Labels(pattern);
      ghost var k := (m, ls[..i]);
      PrefixSnoc(ls, i);
      assert Below(k, n.kind) == (m, ls[..i + 1]);
      child := FindChild(current, n.kind);
      ChildPresent(k, pattern, i, n.kind);
      if child.None? {
        var conflict := HasConflict(current, n.kind);
        Conflicts(k, pattern, i, n.kind);
        if conflict {
          return None;
        }
        if Latest(log, m, ls[..i + 1]).Some? { LatestIsPresent(log, m, ls[..i + 1]); }
        var added := AddChild(k, current, n);
        PlacedStep(old(index), log, m, pattern, i, added);
        child := Some(added);
      } else {
        PlacedStep(index, log, m, pattern, i, child.value);
        ChildKnown(k, pattern, i, child.value);
      }
    }

    /** The child with a label is the node one step further down. */
    lemma ChildPresent(k: Place, pattern: seq<Seg>, i: nat, l: Label)
      requires i < |pattern| && Linked() && Placed(index, log, k.0, pattern, i) && k in index
      ensures Below(k, l) in index <==> exists c :: c in index[k].children && c.kind == l
      ensures Present(log, k.0, k.1 + [l]) ==> Below(k, l) in index
      ensures (forall c :: c in index[k].children ==> c.kind != l) ==> Below(k, l) !in index
    {
      hide Present, FirstExpr;
      if c :| c in index[k].children && c.kind == l {
        assert Below(k, c.kind) in index;
      }
      if Present(log, k.0, k.1 + [l]) {
        assert (k.0, k.1 + [l]) in index;
      }
    }

    lemma ChildKnown(k: Place, pattern: seq<Seg>, i: nat, c: Node)
      requires i < |pattern| && Linked() && Placed(index, log, k.0, pattern, i) && k in index
      requires c in index[k].children && |k.1| == i
      requires !Present(log, k.0, k.1) ==> index[k].children == []
      ensures Below(k, c.kind) in index && index[Below(k, c.kind)] == c
      ensures Present(log, k.0, k.1 + [c.kind])
    {
      hide Present, FirstExpr;
      assert Below(k, c.kind) in index;
      assert !Adding(k.0, pattern, i, Below(k, c.kind));
    }

    /** A clash among the children is a clash among the registered labels. */
    lemma Conflicts(k: Place, pattern: seq<Seg>, i: nat, l: Label)
      requires i < |pattern| && Linked() && Placed(index, log, k.0, pattern, i) && k in index
      requires |k.1| == i
      requires !Present(log, k.0, k.1) ==> index[k].children == []
      ensures NoClashAt(log, k.0, k.1, l) <==> !exists c :: c in index[k].children && Clash(c.kind, l)
    {
      hide Present, FirstExpr, Linked, Placed;
      forall c | c in index[k].children
        ensures Present(log, k.0, k.1 + [c.kind])
      {
        ChildKnown(k, pattern, i, c);
      }
      forall prior | Present(log, k.0, k.1 + [prior])
        ensures exists c :: c in index[k].children && c.kind == prior
      {
        ChildPresent(k, pattern, i, prior);
      }
    }

    /** The last turn stores the handler; the pattern joins the log. */
    method Finish(m: string, ghost pattern: seq<Seg>, current: Node, h: Handler)
      requires Cursor(m, pattern, |pattern|, current)
      requires WellFormed(log) && WildcardLast(Labels(pattern)) && Accepts(log, m, Labels(pattern))
      modifies this`log, current`handler
      ensures Valid() && log == old(log) + [Route(m, pattern, h)]
    {
      hide Present, Latest, FirstExpr;
      ghost var r := Route(m, pattern, h);
      assert Labels(pattern)[..|pattern|] == Labels(pattern);
      LogGrows(index, log, r);
      log := log + [r];
      current.handler := Some(h);
    }

    /** The registration loop: from the root down to the node that takes the handler. */
    method Walk(m: string, segments: seq<string>, root: Node) returns (last: Option<Node>)
      requires Parsable(segments) && Cursor(m, ParsePattern(eng, segments), 0, root)
      modifies this`index, index.Values`children
      ensures forall n :: n in index.Values ==> n in old(index.Values) || fresh(n)
      ensures last.Some? ==> Cursor(m, ParsePattern(eng, segments), |ParsePattern(eng, segments)|, last.value)
      ensures last.Some? <==> Accepts(log, m, Labels(ParsePattern(eng, segments)))
      ensures last.None? ==> index == old(index) && unchanged(old(index.Values)) && Present(log, m, [])
    {
      hide ParsePattern, ParseSegment, Labels, Present, Accepts, AcceptedUpTo, Latest, FirstExpr, NoClashAt, Linked,
        Handled, Placed;
      ghost var pattern := ParsePattern(eng, segments);
      ghost var ls := Labels(pattern);
      var current := root;
      var i := 0;
      var done := |segments| == 0;
      assert ls[..0] == [];
      AcceptedStart(log, m, ls);
      while !done
        invariant 0 <= i <= |pattern| && (done <==> i == |pattern|)
        invariant Cursor(m, pattern, i, current)
        invariant forall n :: n in index.Values ==> n in old(index.Values) || fresh(n)
        invariant Present(log, m, ls[..i]) ==>
                    index == old(index) && unchanged(old(index.Values)) && Present(log, m, [])
        invariant AcceptedUpTo(log, m, ls, i)
        decreases |pattern| - i
      {
        var n := ParseSegment(eng, segments[i]);
        PrefixSnoc(ls, i);
        if Present(log, m, ls[..i + 1]) { PresentParent(log, m, ls[..i], n.kind); }
        var child := Descend(m, pattern, i, current, n);
        AcceptedStep(log, m, ls, i);
        if child.None? {
          return None;
        }
        current := child.value;
        i := i + 1;
        done := n.kind.Wildcard? || i == |segments|;
      }
      last := Some(current);
    }

    /** Registers `h` under `path`, or refuses and leaves every node as it was. */
    method AddRoute(m: string, path: string, h: Handler) returns (accepted: bool)
      requires Valid() && Parsable(Segments(path))
      modifies this, index.Values
      ensures Valid()
      ensures forall n :: n in index.Values ==> n in old(index.Values) || fresh(n)
      ensures accepted <==> Accepts(old(log), m, Labels(ParsePattern(eng, Segments(path))))
      ensures log == if accepted then old(log) + [Route(m, ParsePattern(eng, Segments(path)), h)] else old(log)
      ensures !accepted ==> roots == old(roots) && index == old(index) && unchanged(old(index.Values))
    {
      hide Segments, Present, Accepts, WellFormed, Latest, FirstExpr, Linked, Handled, Placed, Complete;
      var segments := Segments(path);
      EnsureRoot(m, ParsePattern(eng, segments));
      var last := Walk(m, segments, roots[m]);
      accepted := last.Some?;
      if accepted {
        Finish(m, ParsePattern(eng, segments), last.value, h);
      }
    }

    // ----- lookup

    /** What a search below `k` must report, with the parameter list before and after. */
    ghost predicate Answer(k: Place, segs: seq<string>, h: Option<Handler>, best: seq<Label>, before: seq<Binding>,
                           after: seq<Binding>)
      reads this`log
    {
      match h
      case None => after == before && forall q :: !Candidate(eng, log, k.0, k.1, q, segs)
      case Some(_) =>
        && IsBest(eng, log, k.0, k.1, best, segs)
        && h == Latest(log, k.0, k.1 + best)
        && after == before + Bindings(best, segs)
    }

    lemma ChildFacts(k: Place, c: Node)
      requires Valid() && k in index && c in index[k].children
      ensures Below(k, c.kind) in index && index[Below(k, c.kind)] == c
      ensures Present(log, k.0, k.1 + [c.kind]) && c.expr == FirstExpr(log, k.0, k.1 + [c.kind])
      ensures c.handler == Latest(log, k.0, k.1 + [c.kind])
    {
      assert Below(k, c.kind) in index;
    }

    /** A candidate starts with the label of some child. */
    lemma CandidateHasChild(k: Place, q: seq<Label>, segs: seq<string>) returns (i: nat)
      requires Valid() && k in index && segs != [] && Candidate(eng, log, k.0, k.1, q, segs)
      ensures q != [] && i < |index[k].children| && index[k].children[i].kind == q[0]
    {
      CandidateHead(eng, log, k.0, k.1, q, segs);
      assert Below(k, q[0]) in index;
      var c := index[Below(k, q[0])];
      assert c in index[k].children;
      i :| 0 <= i < |index[k].children| && index[k].children[i] == c;
    }

    method Search(n: Node, ghost k: Place, segs: seq<string>, params: ParamList)
      returns (h: Option<Handler>, ghost best: seq<Label>)
      requires Valid() && k in index && index[k] == n
      modifies params
      ensures Answer(k, segs, h, best, old(params.items), params.items)
      decreases |segs|, 4
    {
      best := [];
      if segs == [] {
        h := n.handler;
        assert k.1 + [] == k.1;
        return;
      }
      h, best := SearchKind(n, k, segs, params, 0);
      if h.Some? { return; }
      h, best := SearchKind(n, k, segs, params, 1);
      if h.Some? { return; }
      h, best := SearchKind(n, k, segs, params, 2);
      if h.Some? { return; }
      h, best := SearchWildcard(n, k, segs, params);
    }

    /** One of the first three loops: the children of one kind, each tried and undone in turn. */
    method SearchKind(n: Node, ghost k: Place, segs: seq<string>, params: ParamList, rank: nat)
      returns (h: Option<Handler>, ghost best: seq<Label>)
      requires Valid() && k in index && index[k] == n && segs != [] && rank < 3
      requires forall q :: Candidate(eng, log, k.0, k.1, q, segs) && q != [] ==> Rank(q[0]) >= rank
      modifies params
      ensures h.Some? ==> Answer(k, segs, h, best, old(params.items), params.items)
      ensures h.None? ==> params.items == old(params.items)
      ensures h.None? ==> forall q :: Candidate(eng, log, k.0, k.1, q, segs) && q != [] ==> Rank(q[0]) > rank
      decreases |segs|, rank
    {
      hide Linked, Handled, Complete, WellFormed, Candidate, Latest, FirstExpr, Present;
      var seg, rest := segs[0], segs[1..];
      best := [];
      for i := 0 to |n.children|
        invariant params.items == old(params.items)
        invariant forall q, j ::
                    0 <= j < i && Rank(n.children[j].kind) == rank && q != [] && q[0] == n.children[j].kind ==>
                    !Candidate(eng, log, k.0, k.1, q, segs)
      {
        var c := n.children[i];
        ChildFacts(k, c);
        LastOf(k.1, c.kind);
        var fits := match c.kind
          case Static(part) => rank == 0 && part == seg
          case Regex(_) => rank == 1 && eng.matches(c.expr, seg)
          case Param(_) => rank == 2
          case Wildcard(_) => false;
        if fits {
          if !c.kind.Static? {
            params.items := params.items + [Binding(c.kind.name, seg)];
          }
          h, best := Search(c, Below(k, c.kind), rest, params);
          if h.Some? {
            BestThroughChild(eng, log, k.0, k.1, c.kind, best, segs);
            BindingsCons(c.kind, best, segs);
            best := [c.kind] + best;
            return;
          }
          if !c.kind.Static? {
            params.items := params.items[..|params.items| - 1];
          }
        }
        if Rank(c.kind) == rank {
          NoCandidateThrough(eng, log, k.0, k.1, c.kind, segs);
        }
      }
      h := None;
      forall q | Candidate(eng, log, k.0, k.1, q, segs) && q != []
        ensures Rank(q[0]) > rank
      {
        var i := CandidateHasChild(k, q, segs);
      }
    }

    method SearchWildcard(n: Node, ghost k: Place, segs: seq<string>, params: ParamList)
      returns (h: Option<Handler>, ghost best: seq<Label>)
      requires Valid() && k in index && index[k] == n && segs != []
      requires forall q :: Candidate(eng, log, k.0, k.1, q, segs) && q != [] ==> Rank(q[0]) >= 3
      modifies params
      ensures Answer(k, segs, h, best, old(params.items), params.items)
    {
      hide Linked, Handled, Complete, WellFormed, Candidate, Latest, FirstExpr, Present;
      best := [];
      for i := 0 to |n.children|
        invariant forall j :: 0 <= j < i ==> !n.children[j].kind.Wildcard?
        invariant params.items == old(params.items)
      {
        var c := n.children[i];
        if c.kind.Wildcard? {
          params.items := params.items + [Binding(c.kind.name, Join(segs))];
          ChildFacts(k, c);
          BestWildcard(eng, log, k.0, k.1, c.kind, segs);
          return c.handler, [c.kind];
        }
      }
      h := None;
      forall q
        ensures !Candidate(eng, log, k.0, k.1, q, segs)
      {
        if Candidate(eng, log, k.0, k.1, q, segs) {
          var i := CandidateHasChild(k, q, segs);
        }
      }
    }

    method FindRoute(m: string, path: string) returns (h: Option<Handler>, bound: seq<Binding>)
      requires Valid()
      ensures Serves(eng, log, m, path, h, bound)
    {
      if m !in roots {
        ghost var segs := Segments(path);
        forall q
          ensures !Candidate(eng, log, m, [], q, segs)
        {
          if Candidate(eng, log, m, [], q, segs) {
            NoRootNoCandidate(m, q);
          }
        }
        return None, [];
      }
      h, bound := FindRouteInRoot(m, roots[m], path);
    }

    method FindRouteInRoot(ghost m: string, root: Node, path: string) returns (h: Option<Handler>, bound: seq<Binding>)
      requires Valid() && m in roots && roots[m] == root
      ensures Serves(eng, log, m, path, h, bound)
    {
      hide Linked, Handled, Complete, WellFormed, Latest, FirstExpr, Present, Candidate, Segments, Bindings;
      assert index[(m, [])] == root by { LinkedRoot(m); }
      var params := new ParamList();
      ghost var best;
      h, best := Search(root, (m, []), Segments(path), params);
      bound := params.items;
      if h.Some? {
        assert [] + best == best && [] + Bindings(best, Segments(path)) == Bindings(best, Segments(path));
        BestServes(eng, log, m, path, best);
      }
    }

    lemma NoRootNoCandidate(m: string, q: seq<Label>)
      requires Valid() && Latest(log, m, [] + q).Some?
      ensures m in roots
    {
      LatestIsPresent(log, m, [] + q);
      PresentShorter(log, m, [], q);
      assert (m, []) in index;
    }

    /** Some method serves the path; decides between 404 and 405. */
    method AnyMethodExists(path: string) returns (any: bool)
      requires Valid()
      ensures any <==> exists m, q :: Candidate(eng, log, m, [], q, Segments(path))
    {
      hide Linked, Handled, Complete, WellFormed, Latest, FirstExpr, Present, Matches, Segments, Serves;
      ghost var segs := Segments(path);
      var todo := roots.Keys;
      while todo != {}
        invariant todo <= roots.Keys
        invariant forall m, q :: m in roots.Keys - todo ==> !Candidate(eng, log, m, [], q, segs)
      {
        var m :| m in todo;
        var h, params := FindRouteInRoot(m, roots[m], path);
        ServesMeaning(eng, log, m, path, h, params);
        if h.Some? {
          return true;
        }
        todo := todo - {m};
      }
      forall m, q
        ensures !Candidate(eng, log, m, [], q, segs)
      {
        if Candidate(eng, log, m, [], q, segs) {
          NoRootNoCandidate(m, q);
        }
      }
      return false;
    }
  }

  lemma BelowInjective(k: Place, l: Label, k': Place, l': Label)
    requires Below(k, l) == Below(k', l')
    ensures k == k' && l == l'
  {
    assert (k.1 + [l])[..|k.1|] == k.1 && (k'.1 + [l'])[..|k'.1|] == k'.1;
    assert (k.1 + [l])[|k.1|] == l && (k'.1 + [l'])[|k'.1|] == l';
  }

  /** `Accepts` for the first `i` labels. */
  ghost predicate AcceptedUpTo(log: seq<Route>, m: string, q: seq<Label>, i: nat)
    requires i <= |q|
  {
    forall j :: 0 <= j < i && !Present(log, m, q[..j + 1]) ==> NoClashAt(log, m, q[..j], q[j])
  }

  lemma AcceptedStart(log: seq<Route>, m: string, q: seq<Label>)
    ensures AcceptedUpTo(log, m, q, 0)
    ensures AcceptedUpTo(log, m, q, |q|) <==> Accepts(log, m, q)
  {
  }

  lemma AcceptedStep(log: seq<Route>, m: string, q: seq<Label>, i: nat)
    requires i < |q| && AcceptedUpTo(log, m, q, i)
    ensures AcceptedUpTo(log, m, q, i + 1) <==> Present(log, m, q[..i + 1]) || NoClashAt(log, m, q[..i], q[i])
    ensures !AcceptedUpTo(log, m, q, i + 1) ==> !Accepts(log, m, q)
  {
  }

  lemma PrefixSnoc(ls: seq<Label>, i: nat)
    requires i < |ls|
    ensures ls[..i + 1] == ls[..i] + [ls[i]]
  {
  }

  lemma BelowNotRoot(k: Place, l: Label)
    ensures Below(k, l).1 != []
  {
  }
}
