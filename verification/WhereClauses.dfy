/** The WHERE text the builder prints, as a function of its clause list, and what that text
    means under SQL precedence. `QueryBuilder` proves its loops against these functions. */
module WhereClauses {
  import opened Wrappers
  import opened Conditions
  import SqlText

  datatype Clause = Clause(boolean: Connective, expr: seq<Tok>, args: seq<Value>)

  // ----- text and arguments

  function Spelling(t: Tok): string {
    match t
    case Atom(p) => p.text
    case AndTok => " AND "
    case OrTok => " OR "
    case NotTok => "NOT "
    case Open => "("
    case Close => ")"
  }

  function PartOf(t: Tok): SqlText.Part<Value> {
    SqlText.Part(Spelling(t), if t.Atom? then t.p.args else [])
  }

  function Parts(toks: seq<Tok>): (ps: seq<SqlText.Part<Value>>)
    ensures |ps| == |toks|
    ensures forall i :: 0 <= i < |ps| ==> ps[i] == PartOf(toks[i])
  {
    seq(|toks|, i requires 0 <= i < |toks| => PartOf(toks[i]))
  }

  function Text(toks: seq<Tok>): string {
    SqlText.TextOf(Parts(toks))
  }

  function Args(toks: seq<Tok>): seq<Value> {
    SqlText.ArgsOf(Parts(toks))
  }

  lemma TextConcat(a: seq<Tok>, b: seq<Tok>)
    ensures Text(a + b) == Text(a) + Text(b) && Args(a + b) == Args(a) + Args(b)
  {
    assert Parts(a + b) == Parts(a) + Parts(b);
    SqlText.PartsConcat(Parts(a), Parts(b));
  }

  lemma TextOfOne(t: Tok)
    ensures Text([t]) == Spelling(t) && Args([t]) == if t.Atom? then t.p.args else []
  {
    hide SqlText.Aligned, SqlText.Whole, Spelling;
    assert Parts([t]) == [] + [PartOf(t)];
    SqlText.PartsSnoc([], PartOf(t));
    assert "" + Spelling(t) == Spelling(t);
    assert [] + PartOf(t).args == PartOf(t).args;
  }

  lemma NoTokens()
    ensures Text([]) == "" && Args([]) == []
  {
  }

  /** A clause whose text is a condition, given with the arguments of its predicates. */
  predicate Sound(w: Clause) {
    Parse(w.expr).Some? && w.args == Args(w.expr)
  }

  predicate AllSound(ws: seq<Clause>) {
    forall i :: 0 <= i < |ws| ==> Sound(ws[i])
  }

  function Tree(w: Clause): Cond
    requires Sound(w)
  {
    Parse(w.expr).value
  }

  // ----- the loops of buildWheres and applyScope as functions

  /** Clauses joined by their own connectives; the first connective is not printed. */
  function Joined(ws: seq<Clause>): seq<Tok> {
    if ws == [] then []
    else if |ws| == 1 then ws[0].expr
    else Joined(ws[..|ws| - 1]) + [Tokens(ws[|ws| - 1].boolean)] + ws[|ws| - 1].expr
  }

  /** Clauses each preceded by AND. */
  function Anded(ws: seq<Clause>): seq<Tok> {
    if ws == [] then [] else Anded(ws[..|ws| - 1]) + [AndTok] + ws[|ws| - 1].expr
  }

  function ClauseArgs(ws: seq<Clause>): seq<Value> {
    if ws == [] then [] else ClauseArgs(ws[..|ws| - 1]) + ws[|ws| - 1].args
  }

  predicate HasOr(ws: seq<Clause>) {
    exists i :: 0 <= i < |ws| && ws[i].boolean == Or
  }

  /** The tokens after WHERE. */
  function WhereTokens(soft: Option<Predicate>, ws: seq<Clause>): seq<Tok> {
    match soft
    case None => Joined(ws)
    case Some(p) =>
      if ws == [] then [Atom(p)]
      else if HasOr(ws) then [Atom(p), AndTok, Open] + Joined(ws) + [Close]
      else [Atom(p)] + Anded(ws)
  }

  function ScopePredicate(k: string, v: Value): Predicate {
    Predicate(k + " = ?", [v])
  }

  /** One equality per scope column, in key order. */
  function ScopeTokens(keys: seq<string>, conds: map<string, Value>): seq<Tok>
    requires forall k :: k in keys ==> k in conds
  {
    if keys == [] then []
    else
      var init, k := keys[..|keys| - 1], keys[|keys| - 1];
      (if init == [] then [] else ScopeTokens(init, conds) + [AndTok]) + [Atom(ScopePredicate(k, conds[k]))]
  }

  function ScopeArgs(keys: seq<string>, conds: map<string, Value>): seq<Value>
    requires forall k :: k in keys ==> k in conds
  {
    if keys == [] then [] else ScopeArgs(keys[..|keys| - 1], conds) + [conds[keys[|keys| - 1]]]
  }

  /** The clause list after applyScope has folded the scope columns in. */
  function Folded(ws: seq<Clause>, keys: seq<string>, conds: map<string, Value>): seq<Clause>
    requires forall k :: k in keys ==> k in conds
  {
    var scope := Clause(And, [Open] + ScopeTokens(keys, conds) + [Close], ScopeArgs(keys, conds));
    if keys == [] then ws
    else if ws == [] then [scope]
    else [Clause(And, [Open] + Joined(ws) + [Close], ClauseArgs(ws)), scope]
  }

  // ----- reading the printed text

  function Links(ws: seq<Clause>): (ls: seq<(Connective, Cond)>)
    requires AllSound(ws)
    ensures |ls| == |ws|
    ensures forall i :: 0 <= i < |ls| ==> ls[i] == (ws[i].boolean, Tree(ws[i]))
  {
    seq(|ws|, i requires 0 <= i < |ws| => (ws[i].boolean, Tree(ws[i])))
  }

  function AndLinks(ws: seq<Clause>): (ls: seq<(Connective, Cond)>)
    requires AllSound(ws)
    ensures |ls| == |ws|
    ensures forall i :: 0 <= i < |ls| ==> ls[i] == (And, Tree(ws[i]))
  {
    seq(|ws|, i requires 0 <= i < |ws| => (And, Tree(ws[i])))
  }

  /** The user's own chain of clauses, as SQL reads it. */
  function UserTree(ws: seq<Clause>): Cond
    requires ws != [] && AllSound(ws)
  {
    Chain(Tree(ws[0]), Links(ws[1..]))
  }

  lemma {:induction false} JoinedReads(ws: seq<Clause>)
    requires ws != [] && AllSound(ws)
    ensures Parse(Joined(ws)) == Some(UserTree(ws)) && Joined(ws) == Flat(UserTree(ws))
    decreases |ws|
  {
    hide Parse, Flat, Append;
    if |ws| > 1 {
      var init, last := ws[..|ws| - 1], ws[|ws| - 1];
      JoinedReads(init);
      var ls := Links(ws[1..]);
      assert ls[..|ls| - 1] == Links(init[1..]) && ls[|ls| - 1] == (last.boolean, Tree(last));
      AppendFlat(UserTree(init), last.boolean, Tree(last));
      ParseMeansFlat(last.expr, Tree(last));
    }
    ParseMeansFlat(Joined(ws), UserTree(ws));
    ParseMeansFlat(ws[0].expr, Tree(ws[0]));
  }

  lemma {:induction false} AndedReads(c: Cond, ws: seq<Clause>)
    requires AllSound(ws)
    ensures Flat(c) + Anded(ws) == Flat(Chain(c, AndLinks(ws)))
    decreases |ws|
  {
    hide Flat, Parse, Append, Chain;
    if ws == [] {
      ChainEnds(c, AndLinks(ws));
      assert Flat(c) + [] == Flat(c);
    } else {
      var init, last := ws[..|ws| - 1], ws[|ws| - 1];
      AndedReads(c, init);
      var ls := AndLinks(ws);
      assert ls[..|ls| - 1] == AndLinks(init) && ls[|ls| - 1] == (And, Tree(last));
      ChainEnds(c, ls);
      AppendFlat(Chain(c, AndLinks(init)), And, Tree(last));
      ParseMeansFlat(last.expr, Tree(last));
      Regrouped(Flat(c), Anded(init), [AndTok], last.expr);
    }
  }

  lemma Regrouped(a: seq<Tok>, b: seq<Tok>, c: seq<Tok>, d: seq<Tok>)
    ensures a + (b + c + d) == a + b + c + d
  {
  }

  function WhereTree(soft: Option<Predicate>, ws: seq<Clause>): Cond
    requires AllSound(ws) && (soft.Some? || ws != [])
  {
    match soft
    case None => UserTree(ws)
    case Some(p) =>
      if ws == [] then Only(Last(Pred(p)))
      else if HasOr(ws) then AppendAnd(Only(Last(Pred(p))), Paren(UserTree(ws)))
      else Chain(Only(Last(Pred(p))), AndLinks(ws))
  }

  /** The printed text is a condition, and this is its one reading. */
  lemma WhereReads(soft: Option<Predicate>, ws: seq<Clause>)
    requires AllSound(ws) && (soft.Some? || ws != [])
    ensures Parse(WhereTokens(soft, ws)) == Some(WhereTree(soft, ws))
  {
    hide Flat, Parse, UserTree, Joined, Anded, Chain;
    if ws != [] { JoinedReads(ws); }
    if soft.Some? {
      var guard := Only(Last(Pred(soft.value)));
      SingleFlat(soft.value);
      if ws == [] {
      } else if HasOr(ws) {
        AppendFlat(guard, And, Paren(UserTree(ws)));
        ParenFlat(UserTree(ws));
        assert WhereTokens(soft, ws) == [Atom(soft.value)] + [AndTok] + ([Open] + Joined(ws) + [Close]);
      } else {
        AndedReads(guard, ws);
      }
      ParseMeansFlat(WhereTokens(soft, ws), WhereTree(soft, ws));
    }
  }

  // ----- arguments follow their predicates

  lemma {:induction false} JoinedArgs(ws: seq<Clause>)
    requires AllSound(ws)
    ensures Args(Joined(ws)) == ClauseArgs(ws) && Args(Anded(ws)) == ClauseArgs(ws)
    decreases |ws|
  {
    hide Args, Text, Parse;
    if ws == [] {
      NoTokens();
    } else {
      var init, last := ws[..|ws| - 1], ws[|ws| - 1];
      JoinedArgs(init);
      TextConcat(Anded(init) + [AndTok], last.expr);
      TextConcat(Anded(init), [AndTok]);
      TextOfOne(AndTok);
      if |ws| == 1 {
        assert init == [];
        assert [] + last.args == last.args;
      } else {
        var t := Tokens(last.boolean);
        TextConcat(Joined(init) + [t], last.expr);
        TextConcat(Joined(init), [t]);
        TextOfOne(t);
      }
    }
  }

  /** The argument list of the WHERE clause is its predicates' arguments, in printed order. */
  lemma WhereArgs(soft: Option<Predicate>, ws: seq<Clause>)
    requires AllSound(ws) && (soft.Some? ==> soft.value.args == [])
    ensures Args(WhereTokens(soft, ws)) == ClauseArgs(ws)
  {
    hide Args, Text, Parse, Joined, Anded;
    JoinedArgs(ws);
    if soft.Some? {
      var a := Atom(soft.value);
      TextOfOne(a);
      TextOfOne(AndTok);
      TextOfOne(Open);
      TextOfOne(Close);
      if ws == [] {
        JoinedArgs([]);
        NoTokens();
      } else if HasOr(ws) {
        TextConcat([a, AndTok, Open] + Joined(ws), [Close]);
        TextConcat([a, AndTok, Open], Joined(ws));
        TextConcat([a], [AndTok, Open]);
        TextConcat([AndTok], [Open]);
        assert [AndTok] + [Open] == [AndTok, Open];
        assert [a] + [AndTok, Open] == [a, AndTok, Open];
      } else {
        TextConcat([a], Anded(ws));
      }
    }
  }

  // ----- soft delete

  predicate NoOuterOr(ws: seq<Clause>)
    requires AllSound(ws)
  {
    forall i :: 0 <= i < |ws| ==> Tree(ws[i]).Only?
  }

  /** With parentheses, or with nothing to parenthesise, the text means soft-delete AND the
      user's chain. */
  lemma SoftDeleteMeaning(p: Predicate, ws: seq<Clause>, row: Row)
    requires ws != [] && AllSound(ws) && (HasOr(ws) || NoOuterOr(ws))
    ensures Eval(WhereTree(Some(p), ws), row) == KAnd(row(p), Eval(UserTree(ws), row))
  {
    hide Parse, AppendAnd;
    var guard := Last(Pred(p));
    SingleEval(p, row);
    if HasOr(ws) {
      ParenEval(UserTree(ws), row);
      AppendAndEval(Only(guard), Paren(UserTree(ws)), row);
    } else {
      UnbrokenChainEval(guard, AndLinks(ws), row);
      assert Links(ws[1..]) == AndLinks(ws)[1..];
      UnbrokenChainEval(Tree(ws[0]).t, Links(ws[1..]), row);
      ConjoinHead(AndLinks(ws), row);
    }
  }

  lemma {:induction false} ConjoinHead(ls: seq<(Connective, Cond)>, row: Row)
    requires ls != []
    ensures ConjoinAll(ls, row) == KAnd(Eval(ls[0].1, row), ConjoinAll(ls[1..], row))
    decreases |ls|
  {
    var init, last := ls[..|ls| - 1], ls[|ls| - 1];
    if |ls| == 1 {
      assert init == [] && ls[1..] == [];
    } else {
      ConjoinHead(init, row);
      assert init[1..] == ls[1..][..|ls| - 2];
    }
  }

  /** No deleted row is selected when some connective is OR or no clause has an OR of its own at the
      outer level. If no predicate occurs twice, it is exactly then. */
  lemma SoftDeleteExactly(p: Predicate, ws: seq<Clause>)
    requires AllSound(ws)
    ensures HasOr(ws) || NoOuterOr(ws) ==>
              forall row: Row :: Eval(WhereTree(Some(p), ws), row) == Yes ==> row(p) == Yes
    ensures Distinct(Atoms(WhereTree(Some(p), ws))) && !HasOr(ws) && !NoOuterOr(ws) ==>
              exists row: Row :: Eval(WhereTree(Some(p), ws), row) == Yes && row(p) == No
  {
    hide Parse, Eval, UserTree, Atoms, Chain;
    if HasOr(ws) || NoOuterOr(ws) {
      forall row: Row
        ensures Eval(WhereTree(Some(p), ws), row) == Yes ==> row(p) == Yes
      {
        if ws == [] {
          SingleEval(p, row);
        } else {
          SoftDeleteMeaning(p, ws, row);
        }
      }
    } else if Distinct(Atoms(WhereTree(Some(p), ws))) {
      var row := GuardEscapes(Last(Pred(p)), Pred(p), AndLinks(ws), _ => Unknown);
      assert EvalFactor(Pred(p), row) == row(p);
    }
  }

  // ----- tenant scope

  function ScopeTree(keys: seq<string>, conds: map<string, Value>): Term
    requires keys != [] && forall k :: k in keys ==> k in conds
  {
    var init, k := keys[..|keys| - 1], keys[|keys| - 1];
    var last := Last(Pred(ScopePredicate(k, conds[k])));
    if init == [] then last else AppendTerm(ScopeTree(init, conds), last)
  }

  lemma {:induction false} ScopeReads(keys: seq<string>, conds: map<string, Value>)
    requires keys != [] && forall k :: k in keys ==> k in conds
    ensures ScopeTokens(keys, conds) == Flat(Only(ScopeTree(keys, conds)))
    ensures Args(ScopeTokens(keys, conds)) == ScopeArgs(keys, conds)
    decreases |keys|
  {
    hide Text, Args, FlatTerm, AppendTerm;
    var init, k := keys[..|keys| - 1], keys[|keys| - 1];
    var a := Atom(ScopePredicate(k, conds[k]));
    TextOfOne(a);
    SingleFlat(a.p);
    if init == [] {
      assert [] + [a] == [a];
    } else {
      ScopeReads(init, conds);
      AppendTermFlat(ScopeTree(init, conds), Last(Pred(a.p)));
      TextConcat(ScopeTokens(init, conds) + [AndTok], [a]);
      TextConcat(ScopeTokens(init, conds), [AndTok]);
      TextOfOne(AndTok);
    }
  }

  /** Every scope column equals its value. */
  function InScope(keys: seq<string>, conds: map<string, Value>, row: Row): Truth
    requires forall k :: k in keys ==> k in conds
  {
    if keys == [] then Yes
    else
      var k := keys[|keys| - 1];
      KAnd(InScope(keys[..|keys| - 1], conds, row), row(ScopePredicate(k, conds[k])))
  }

  lemma {:induction false} ScopeEval(keys: seq<string>, conds: map<string, Value>, row: Row)
    requires keys != [] && forall k :: k in keys ==> k in conds
    ensures EvalTerm(ScopeTree(keys, conds), row) == InScope(keys, conds, row)
    decreases |keys|
  {
    var init, k := keys[..|keys| - 1], keys[|keys| - 1];
    if init != [] {
      ScopeEval(init, conds, row);
      AppendTermEval(ScopeTree(init, conds), Last(Pred(ScopePredicate(k, conds[k]))), row);
    }
  }

  lemma ParenReads(toks: seq<Tok>, c: Cond)
    requires toks == Flat(c)
    ensures Parse([Open] + toks + [Close]) == Some(Paren(c))
    ensures Args([Open] + toks + [Close]) == Args(toks)
  {
    ParenFlat(c);
    ParseMeansFlat([Open] + toks + [Close], Paren(c));
    hide Args, Text;
    TextConcat([Open] + toks, [Close]);
    TextConcat([Open], toks);
    TextOfOne(Open);
    TextOfOne(Close);
  }

  /** The folded clauses are sound, joined by AND, and read as two parenthesised groups. */
  lemma FoldedReads(ws: seq<Clause>, keys: seq<string>, conds: map<string, Value>)
    requires AllSound(ws) && keys != [] && forall k :: k in keys ==> k in conds
    ensures var f := Folded(ws, keys, conds);
            && AllSound(f) && NoOuterOr(f) && !HasOr(f) && f != []
            && Tree(f[|f| - 1]) == Paren(Only(ScopeTree(keys, conds)))
            && (ws != [] ==> |f| == 2 && Tree(f[0]) == Paren(UserTree(ws)))
            && (ws == [] ==> |f| == 1)
  {
    hide Parse, Args, ScopeTree, ScopeTokens, ScopeArgs, UserTree, Joined, ClauseArgs;
    ScopeReads(keys, conds);
    ParenReads(ScopeTokens(keys, conds), Only(ScopeTree(keys, conds)));
    if ws != [] {
      JoinedReads(ws);
      JoinedArgs(ws);
      ParenReads(Joined(ws), UserTree(ws));
    }
  }

  function SoftTruth(soft: Option<Predicate>, row: Row): Truth {
    match soft
    case None => Yes
    case Some(p) => row(p)
  }

  function UserTruth(ws: seq<Clause>, row: Row): Truth
    requires AllSound(ws)
  {
    if ws == [] then Yes else Eval(UserTree(ws), row)
  }

  /** After folding, the text means soft-delete AND the user's chain AND every scope equality,
      whatever connectives and parentheses the clauses contain. */
  lemma ScopedMeaning(soft: Option<Predicate>, ws: seq<Clause>, keys: seq<string>, conds: map<string, Value>, row: Row)
    requires AllSound(ws) && keys != [] && forall k :: k in keys ==> k in conds
    ensures AllSound(Folded(ws, keys, conds)) && Folded(ws, keys, conds) != []
    ensures Eval(WhereTree(soft, Folded(ws, keys, conds)), row) ==
            KAnd(SoftTruth(soft, row), KAnd(UserTruth(ws, row), InScope(keys, conds, row)))
  {
    hide Parse, Folded, InScope, ScopeTree, UserTree, WhereTree;
    var f := Folded(ws, keys, conds);
    FoldedReads(ws, keys, conds);
    FoldedTree(ws, keys, conds);
    FoldGuardEval(ws, keys, conds, row);
    if soft.Some? {
      SoftDeleteMeaning(soft.value, f, row);
    } else {
      NoSoftDelete(f);
    }
  }

  lemma NoSoftDelete(ws: seq<Clause>)
    requires AllSound(ws) && ws != []
    ensures WhereTree(None, ws) == UserTree(ws)
  {
  }

  /** The one term the folded clauses make. */
  function FoldGuard(ws: seq<Clause>, keys: seq<string>, conds: map<string, Value>): Term
    requires AllSound(ws) && keys != [] && forall k :: k in keys ==> k in conds
  {
    var scope := Last(Group(Only(ScopeTree(keys, conds))));
    if ws == [] then scope else AndThen(Group(UserTree(ws)), scope)
  }

  lemma FoldedTree(ws: seq<Clause>, keys: seq<string>, conds: map<string, Value>)
    requires AllSound(ws) && keys != [] && forall k :: k in keys ==> k in conds
    requires AllSound(Folded(ws, keys, conds)) && Folded(ws, keys, conds) != []
    ensures UserTree(Folded(ws, keys, conds)) == Only(FoldGuard(ws, keys, conds))
  {
    hide Parse, Folded, ScopeTree;
    var f := Folded(ws, keys, conds);
    FoldedReads(ws, keys, conds);
    if ws == [] {
      assert Links(f[1..]) == [];
    } else {
      var link := (And, Tree(f[1]));
      assert Links(f[1..]) == [link];
      assert [link][..0] == [];
      assert Chain(Tree(f[0]), []) == Tree(f[0]);
      assert Chain(Tree(f[0]), [link]) == AppendAnd(Tree(f[0]), Tree(f[1]));
      assert AppendTerm(Last(Group(UserTree(ws))), Tree(f[1]).t) == AndThen(Group(UserTree(ws)), Tree(f[1]).t);
    }
  }

  lemma FoldGuardEval(ws: seq<Clause>, keys: seq<string>, conds: map<string, Value>, row: Row)
    requires AllSound(ws) && keys != [] && forall k :: k in keys ==> k in conds
    ensures EvalTerm(FoldGuard(ws, keys, conds), row) == KAnd(UserTruth(ws, row), InScope(keys, conds, row))
    ensures EvalFactor(Group(Only(ScopeTree(keys, conds))), row) == InScope(keys, conds, row)
  {
    hide Parse, InScope, ScopeTree, UserTree;
    var scope := Group(Only(ScopeTree(keys, conds)));
    ScopeEval(keys, conds, row);
    assert EvalFactor(scope, row) == Eval(Only(ScopeTree(keys, conds)), row);
    if ws != [] {
      assert EvalTerm(Last(scope), row) == EvalFactor(scope, row);
      assert EvalFactor(Group(UserTree(ws)), row) == Eval(UserTree(ws), row);
    }
  }

  lemma UserTreeSplit(a: seq<Clause>, b: seq<Clause>)
    requires AllSound(a) && AllSound(b) && AllSound(a + b) && a != []
    ensures UserTree(a + b) == Chain(UserTree(a), Links(b))
  {
    hide Parse;
    assert Links((a + b)[1..]) == Links(a[1..]) + Links(b);
    ChainSplit(Tree(a[0]), Links(a[1..]), Links(b));
  }

  /** The folded clauses behind a soft-delete condition are one term. */
  lemma SoftFoldedTree(p: Predicate, ws: seq<Clause>, keys: seq<string>, conds: map<string, Value>)
    requires AllSound(ws) && keys != [] && forall k :: k in keys ==> k in conds
    requires AllSound(Folded(ws, keys, conds))
    ensures Chain(Only(Last(Pred(p))), AndLinks(Folded(ws, keys, conds))) ==
            Only(AndThen(Pred(p), FoldGuard(ws, keys, conds)))
  {
    hide Parse, Folded, ScopeTree, UserTree;
    var f, first := Folded(ws, keys, conds), Only(Last(Pred(p)));
    FoldedReads(ws, keys, conds);
    ChainEnds(first, []);
    var l0 := (And, Tree(f[0]));
    assert [l0][..0] == [];
    ChainEnds(first, [l0]);
    if ws == [] {
      assert AndLinks(f) == [l0];
    } else {
      var links := [l0, (And, Tree(f[1]))];
      assert AndLinks(f) == links;
      assert links[..1] == [l0];
      ChainEnds(first, links);
      var group, scope := Group(UserTree(ws)), Last(Group(Only(ScopeTree(keys, conds))));
      assert AppendTerm(Last(Pred(p)), Last(group)) == AndThen(Pred(p), Last(group));
      assert AppendTerm(AndThen(Pred(p), Last(group)), scope) == AndThen(Pred(p), AndThen(group, scope));
    }
  }

  /** Folding happens once. Clauses added after it by AND, without an OR of their own at the outer
      level, only narrow the selection: the text means soft-delete AND the user's chain AND every
      scope equality AND each of them. */
  lemma LateClausesMeaning(soft: Option<Predicate>, ws: seq<Clause>, keys: seq<string>, conds: map<string, Value>,
                           late: seq<Clause>, row: Row)
    requires AllSound(ws) && AllSound(late) && keys != [] && forall k :: k in keys ==> k in conds
    requires !HasOr(late) && NoOuterOr(late)
    ensures AllSound(Folded(ws, keys, conds) + late) && Folded(ws, keys, conds) != []
    ensures Eval(WhereTree(soft, Folded(ws, keys, conds) + late), row) ==
            KAnd(KAnd(SoftTruth(soft, row), KAnd(UserTruth(ws, row), InScope(keys, conds, row))),
                 ConjoinAll(Links(late), row))
  {
    hide Parse, Folded, InScope, ScopeTree, UserTree, Eval, EvalFactor, Chain, WhereTree, FoldGuard, ConjoinAll;
    FoldedReads(ws, keys, conds);
    OrOfBoth(Folded(ws, keys, conds), late);
    var guard, links := LateChain(soft, ws, keys, conds, late);
    assert links == Links(late);
    UnbrokenChainEval(guard, links, row);
    FoldGuardEval(ws, keys, conds, row);
    if soft.Some? {
      SoftGuardEval(soft.value, FoldGuard(ws, keys, conds), row);
    }
  }

  lemma SoftGuardEval(p: Predicate, guard: Term, row: Row)
    ensures EvalTerm(AndThen(Pred(p), guard), row) == KAnd(row(p), EvalTerm(guard, row))
  {
  }

  /** Late clauses keep every selected row in scope when they are joined by AND and have no OR of
      their own at the outer level. If no predicate occurs twice, it is exactly then. */
  lemma LateClausesExactly(soft: Option<Predicate>, ws: seq<Clause>, keys: seq<string>, conds: map<string, Value>,
                           late: seq<Clause>)
    requires AllSound(ws) && AllSound(late) && keys != [] && forall k :: k in keys ==> k in conds
    ensures AllSound(Folded(ws, keys, conds) + late) && Folded(ws, keys, conds) != []
    ensures !HasOr(late) && NoOuterOr(late) ==>
              forall row: Row :: Eval(WhereTree(soft, Folded(ws, keys, conds) + late), row) == Yes ==>
                                   InScope(keys, conds, row) == Yes
    ensures Distinct(Atoms(WhereTree(soft, Folded(ws, keys, conds) + late))) && (HasOr(late) || !NoOuterOr(late)) ==>
              exists row: Row :: Eval(WhereTree(soft, Folded(ws, keys, conds) + late), row) == Yes &&
                                   InScope(keys, conds, row) == No
  {
    hide Parse, Folded, InScope, ScopeTree, UserTree, Eval, EvalFactor, Atoms, Chain, WhereTree, FoldGuard, ConjoinAll;
    var all := Folded(ws, keys, conds) + late;
    FoldedReads(ws, keys, conds);
    OrOfBoth(Folded(ws, keys, conds), late);
    if !HasOr(late) && NoOuterOr(late) {
      forall row: Row
        ensures Eval(WhereTree(soft, all), row) == Yes ==> InScope(keys, conds, row) == Yes
      {
        LateClausesMeaning(soft, ws, keys, conds, late, row);
      }
    } else if Distinct(Atoms(WhereTree(soft, all))) {
      if soft.Some? && HasOr(late) {
        var row := LateOrEscapes(soft.value, ws, keys, conds, late);
      } else {
        var guard, links := LateChain(soft, ws, keys, conds, late);
        var row := GuardEscapes(guard, Group(Only(ScopeTree(keys, conds))), links, _ => Yes);
        FoldGuardEval(ws, keys, conds, row);
      }
    }
  }

  lemma OrOfBoth(a: seq<Clause>, b: seq<Clause>)
    ensures HasOr(a + b) <==> HasOr(a) || HasOr(b)
  {
    if HasOr(a) {
      var i :| 0 <= i < |a| && a[i].boolean == Or;
      assert (a + b)[i] == a[i];
    }
    if HasOr(b) {
      var i :| 0 <= i < |b| && b[i].boolean == Or;
      assert (a + b)[|a| + i] == b[i];
    }
  }

  /** Unless parentheses enclose them all, the late clauses stand in one chain behind the guard. */
  lemma LateChain(soft: Option<Predicate>, ws: seq<Clause>, keys: seq<string>, conds: map<string, Value>,
                  late: seq<Clause>) returns (guard: Term, links: seq<(Connective, Cond)>)
    requires AllSound(ws) && AllSound(late) && keys != [] && forall k :: k in keys ==> k in conds
    requires AllSound(Folded(ws, keys, conds) + late) && Folded(ws, keys, conds) != []
    requires soft.Some? ==> !HasOr(Folded(ws, keys, conds) + late)
    ensures HasFactor(guard, Group(Only(ScopeTree(keys, conds))))
    ensures WhereTree(soft, Folded(ws, keys, conds) + late) == Chain(Only(guard), links)
    ensures Unbroken(links) <==> !HasOr(late) && NoOuterOr(late)
    ensures links == if soft.None? then Links(late) else AndLinks(late)
    ensures var fold := FoldGuard(ws, keys, conds);
            guard == match soft { case None => fold case Some(p) => AndThen(Pred(p), fold) }
  {
    hide Parse, Folded, ScopeTree, UserTree, Chain;
    var f, scope := Folded(ws, keys, conds), Group(Only(ScopeTree(keys, conds)));
    FoldedReads(ws, keys, conds);
    assert HasFactor(Last(scope), scope);
    assert HasFactor(FoldGuard(ws, keys, conds), scope);
    if soft.None? {
      guard, links := FoldGuard(ws, keys, conds), Links(late);
      FoldedTree(ws, keys, conds);
      UserTreeSplit(f, late);
    } else {
      guard, links := AndThen(Pred(soft.value), FoldGuard(ws, keys, conds)), AndLinks(late);
      OrOfBoth(f, late);
      SoftFoldedTree(soft.value, ws, keys, conds);
      assert AndLinks(f + late) == AndLinks(f) + AndLinks(late);
      ChainSplit(Only(Last(Pred(soft.value))), AndLinks(f), AndLinks(late));
    }
  }

  /** An OR connective among the late clauses lets a live row out of the scope. */
  lemma LateOrEscapes(p: Predicate, ws: seq<Clause>, keys: seq<string>, conds: map<string, Value>, late: seq<Clause>)
    returns (row: Row)
    requires AllSound(ws) && AllSound(late) && keys != [] && forall k :: k in keys ==> k in conds
    requires AllSound(Folded(ws, keys, conds) + late) && Folded(ws, keys, conds) != []
    requires HasOr(late) && HasOr(Folded(ws, keys, conds) + late)
    requires Distinct(Atoms(WhereTree(Some(p), Folded(ws, keys, conds) + late)))
    ensures Eval(WhereTree(Some(p), Folded(ws, keys, conds) + late), row) == Yes
    ensures InScope(keys, conds, row) == No && row(p) == Yes
  {
    hide Parse, Folded, InScope, ScopeTree, UserTree, Eval, Chain, FoldGuard, EvalFactor;
    var f := Folded(ws, keys, conds);
    var all, scope := f + late, Group(Only(ScopeTree(keys, conds)));
    var user := UserTree(all);
    var guard, links := LateChain(None, ws, keys, conds, late);
    NoSoftDelete(all);
    SoftAtoms(p, all);
    DistinctSplit([p], Atoms(user));
    assert p in [p];
    row := GuardEscapes(guard, scope, links, _ => Yes);
    SoftDeleteMeaning(p, all, row);
    FoldGuardEval(ws, keys, conds, row);
  }

  lemma SoftAtoms(p: Predicate, ws: seq<Clause>)
    requires AllSound(ws) && HasOr(ws)
    ensures Atoms(WhereTree(Some(p), ws)) == [p] + Atoms(UserTree(ws))
  {
    hide Parse, UserTree;
    var user := UserTree(ws);
    assert AtomsTerm(Last(Group(user))) == AtomsFactor(Group(user)) == Atoms(user);
    assert AtomsTerm(AndThen(Pred(p), Last(Group(user)))) == [p] + Atoms(user);
  }

  // ----- the text is aligned with its arguments

  predicate WholePredicate(p: Predicate) {
    SqlText.Whole(SqlText.Part(p.text, p.args))
  }

  predicate WholeAtoms(toks: seq<Tok>) {
    forall i :: 0 <= i < |toks| && toks[i].Atom? ==> WholePredicate(toks[i].p)
  }

  /** Predicates never touch. */
  predicate Spaced(toks: seq<Tok>) {
    forall i :: 0 <= i < |toks| - 1 ==> !(toks[i].Atom? && toks[i + 1].Atom?)
  }

  lemma SpacedConcat(a: seq<Tok>, b: seq<Tok>)
    requires Spaced(a) && Spaced(b)
    requires a == [] || b == [] || !(a[|a| - 1].Atom? && b[0].Atom?)
    ensures Spaced(a + b)
  {
  }

  lemma {:induction false} FactorSpaced(f: Factor)
    ensures Spaced(FlatFactor(f))
    decreases f, 0
  {
    match f
    case Pred(p) =>
    case Neg(inner) =>
      FactorSpaced(inner);
      SpacedConcat([NotTok], FlatFactor(inner));
    case Group(cond) =>
      CondSpaced(cond);
      SpacedConcat([Open], Flat(cond));
      SpacedConcat([Open] + Flat(cond), [Close]);
  }

  lemma {:induction false} TermSpaced(t: Term)
    ensures Spaced(FlatTerm(t))
    decreases t, 1
  {
    match t
    case Last(f) => FactorSpaced(f);
    case AndThen(f, rest) =>
      FactorSpaced(f);
      TermSpaced(rest);
      SpacedConcat(FlatFactor(f), [AndTok]);
      SpacedConcat(FlatFactor(f) + [AndTok], FlatTerm(rest));
  }

  lemma {:induction false} CondSpaced(c: Cond)
    ensures Spaced(Flat(c))
    decreases c, 2
  {
    match c
    case Only(t) => TermSpaced(t);
    case OrElse(t, more) =>
      TermSpaced(t);
      CondSpaced(more);
      SpacedConcat(FlatTerm(t), [OrTok]);
      SpacedConcat(FlatTerm(t) + [OrTok], Flat(more));
  }

  /** A condition after a separator keeps predicates and separators in turn. */
  lemma TokensInterleave(sep: SqlText.Part<Value>, toks: seq<Tok>)
    requires SqlText.Opens(sep) && SqlText.Ends(sep) && Spaced(toks)
    ensures SqlText.Interleaved([sep] + Parts(toks))
  {
    var ps := [sep] + Parts(toks);
    forall i | 0 < i < |ps|
      ensures SqlText.Ends(ps[i - 1]) || SqlText.Opens(ps[i])
    {
      assert ps[i] == PartOf(toks[i - 1]);
      if i > 1 {
        assert ps[i - 1] == PartOf(toks[i - 2]);
      }
    }
  }

  lemma TokensWhole(toks: seq<Tok>)
    requires WholeAtoms(toks)
    ensures SqlText.AllWhole(Parts(toks))
  {
    hide SqlText.Whole;
    forall i | 0 <= i < |toks|
      ensures SqlText.Whole(PartOf(toks[i]))
    {
      if !toks[i].Atom? {
        SqlText.InertIsWhole(Spelling(toks[i]));
        SqlText.WholeMeans(PartOf(toks[i]));
      } else {
        assert WholePredicate(toks[i].p);
      }
    }
  }
}
