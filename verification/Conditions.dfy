/** The WHERE grammar of SQL, restricted to what precedence decides: predicates, NOT,
    parentheses, AND, and OR, with AND binding tighter than OR.

    A condition text is a list of tokens in which a predicate is one indivisible token. A
    `Cond` is a concrete syntax tree: `Flat` writes it out and `ParseCond` reads it back. Truth
    is three-valued because SQL comparisons with NULL are unknown. */
module Conditions {
  import opened Wrappers

  /** A value handed to the database driver. */
  datatype Value = Null | Number(n: int) | Str(s: string)

  /** A predicate as written, with the arguments for its placeholders. */
  datatype Predicate = Predicate(text: string, args: seq<Value>)

  datatype Tok = Atom(p: Predicate) | AndTok | OrTok | NotTok | Open | Close

  datatype Factor = Pred(p: Predicate) | Neg(inner: Factor) | Group(cond: Cond)
  datatype Term = Last(f: Factor) | AndThen(f: Factor, rest: Term)
  datatype Cond = Only(t: Term) | OrElse(t: Term, more: Cond)

  // ----- writing and reading

  function FlatFactor(f: Factor): (toks: seq<Tok>)
    ensures toks != [] && toks[0] != AndTok && toks[0] != OrTok && toks[0] != Close
  {
    match f
    case Pred(p) => [Atom(p)]
    case Neg(inner) => [NotTok] + FlatFactor(inner)
    case Group(cond) => [Open] + Flat(cond) + [Close]
  }

  function FlatTerm(t: Term): seq<Tok> {
    match t
    case Last(f) => FlatFactor(f)
    case AndThen(f, rest) => FlatFactor(f) + [AndTok] + FlatTerm(rest)
  }

  function Flat(c: Cond): seq<Tok> {
    match c
    case Only(t) => FlatTerm(t)
    case OrElse(t, more) => FlatTerm(t) + [OrTok] + Flat(more)
  }

  /** Recursive descent; each function also returns the tokens it left. */
  function ParseFactor(toks: seq<Tok>): (r: Option<(Factor, seq<Tok>)>)
    ensures r.Some? ==> |r.value.1| < |toks|
    decreases |toks|, 0
  {
    if toks == [] then None
    else
      match toks[0]
      case Atom(p) => Some((Pred(p), toks[1..]))
      case NotTok =>
        (match ParseFactor(toks[1..])
         case None => None
         case Some((f, rest)) => Some((Neg(f), rest)))
      case Open =>
        (match ParseCond(toks[1..])
         case None => None
         case Some((c, rest)) => if rest != [] && rest[0] == Close then Some((Group(c), rest[1..])) else None)
      case _ => None
  }

  function ParseTerm(toks: seq<Tok>): (r: Option<(Term, seq<Tok>)>)
    ensures r.Some? ==> |r.value.1| < |toks|
    decreases |toks|, 1
  {
    match ParseFactor(toks)
    case None => None
    case Some((f, rest)) =>
      if rest != [] && rest[0] == AndTok then
        match ParseTerm(rest[1..])
        case None => None
        case Some((t, rest')) => Some((AndThen(f, t), rest'))
      else Some((Last(f), rest))
  }

  function ParseCond(toks: seq<Tok>): (r: Option<(Cond, seq<Tok>)>)
    ensures r.Some? ==> |r.value.1| < |toks|
    decreases |toks|, 2
  {
    match ParseTerm(toks)
    case None => None
    case Some((t, rest)) =>
      if rest != [] && rest[0] == OrTok then
        match ParseCond(rest[1..])
        case None => None
        case Some((c, rest')) => Some((OrElse(t, c), rest'))
      else Some((Only(t), rest))
  }

  /** The reading of a whole text. */
  function Parse(toks: seq<Tok>): Option<Cond> {
    match ParseCond(toks)
    case Some((c, rest)) => if rest == [] then Some(c) else None
    case None => None
  }

  predicate Stops(rest: seq<Tok>, atAnd: bool, atOr: bool) {
    rest == [] || !((atAnd && rest[0] == AndTok) || (atOr && rest[0] == OrTok))
  }

  lemma {:induction false} FactorReadsBack(f: Factor, rest: seq<Tok>)
    ensures ParseFactor(FlatFactor(f) + rest) == Some((f, rest))
    decreases f, 0
  {
    var toks := FlatFactor(f) + rest;
    match f
    case Pred(p) =>
      assert toks[1..] == rest;
    case Neg(inner) =>
      assert toks[1..] == FlatFactor(inner) + rest;
      FactorReadsBack(inner, rest);
    case Group(cond) =>
      assert toks[1..] == Flat(cond) + ([Close] + rest);
      CondReadsBack(cond, [Close] + rest);
      assert ([Close] + rest)[1..] == rest;
  }

  lemma {:induction false} TermReadsBack(t: Term, rest: seq<Tok>)
    requires Stops(rest, true, false)
    ensures ParseTerm(FlatTerm(t) + rest) == Some((t, rest))
    decreases t, 1
  {
    match t
    case Last(f) =>
      FactorReadsBack(f, rest);
    case AndThen(f, more) =>
      var tail := [AndTok] + (FlatTerm(more) + rest);
      assert FlatTerm(t) + rest == FlatFactor(f) + tail;
      FactorReadsBack(f, tail);
      TermReadsBack(more, rest);
      assert tail[1..] == FlatTerm(more) + rest;
  }

  lemma {:induction false} CondReadsBack(c: Cond, rest: seq<Tok>)
    requires Stops(rest, true, true)
    ensures ParseCond(Flat(c) + rest) == Some((c, rest))
    decreases c, 2
  {
    match c
    case Only(t) =>
      TermReadsBack(t, rest);
    case OrElse(t, more) =>
      var tail := [OrTok] + (Flat(more) + rest);
      assert Flat(c) + rest == FlatTerm(t) + tail;
      TermReadsBack(t, tail);
      CondReadsBack(more, rest);
      assert tail[1..] == Flat(more) + rest;
  }

  /** Every syntax tree is the one reading of its own text. */
  lemma FlatReadsBack(c: Cond)
    ensures Parse(Flat(c)) == Some(c)
  {
    CondReadsBack(c, []);
    assert Flat(c) + [] == Flat(c);
  }

  lemma {:induction false} FactorSound(toks: seq<Tok>)
    ensures ParseFactor(toks).Some? ==>
              toks == FlatFactor(ParseFactor(toks).value.0) + ParseFactor(toks).value.1
    decreases |toks|, 0
  {
    if ParseFactor(toks).Some? {
      match toks[0]
      case Atom(p) =>
      case NotTok => FactorSound(toks[1..]);
      case Open => CondSound(toks[1..]);
    }
  }

  lemma {:induction false} TermSound(toks: seq<Tok>)
    ensures ParseTerm(toks).Some? ==>
              toks == FlatTerm(ParseTerm(toks).value.0) + ParseTerm(toks).value.1
    decreases |toks|, 1
  {
    if ParseTerm(toks).Some? {
      FactorSound(toks);
      var (f, rest) := ParseFactor(toks).value;
      if rest != [] && rest[0] == AndTok {
        TermSound(rest[1..]);
        assert rest == [AndTok] + rest[1..];
      }
    }
  }

  /** Whatever the parser accepts is the text of the tree it returns. */
  lemma {:induction false} CondSound(toks: seq<Tok>)
    ensures ParseCond(toks).Some? ==>
              toks == Flat(ParseCond(toks).value.0) + ParseCond(toks).value.1
    decreases |toks|, 2
  {
    if ParseCond(toks).Some? {
      TermSound(toks);
      var (t, rest) := ParseTerm(toks).value;
      if rest != [] && rest[0] == OrTok {
        CondSound(rest[1..]);
        assert rest == [OrTok] + rest[1..];
      }
    }
  }

  lemma ParseMeansFlat(toks: seq<Tok>, c: Cond)
    ensures Parse(toks) == Some(c) <==> toks == Flat(c)
  {
    CondSound(toks);
    FlatReadsBack(c);
    if Parse(toks) == Some(c) {
      assert Flat(c) + [] == Flat(c);
    }
  }

  // ----- truth

  datatype Truth = Yes | No | Unknown

  function KNot(a: Truth): Truth {
    match a
    case Yes => No
    case No => Yes
    case Unknown => Unknown
  }

  function KAnd(a: Truth, b: Truth): Truth {
    if a == No || b == No then No else if a == Yes && b == Yes then Yes else Unknown
  }

  function KOr(a: Truth, b: Truth): Truth {
    if a == Yes || b == Yes then Yes else if a == No && b == No then No else Unknown
  }

  /** What each predicate says about the row at hand. */
  type Row = Predicate -> Truth

  function EvalFactor(f: Factor, row: Row): Truth {
    match f
    case Pred(p) => row(p)
    case Neg(inner) => KNot(EvalFactor(inner, row))
    case Group(cond) => Eval(cond, row)
  }

  function EvalTerm(t: Term, row: Row): Truth {
    match t
    case Last(f) => EvalFactor(f, row)
    case AndThen(f, rest) => KAnd(EvalFactor(f, row), EvalTerm(rest, row))
  }

  function Eval(c: Cond, row: Row): Truth {
    match c
    case Only(t) => EvalTerm(t, row)
    case OrElse(t, more) => KOr(EvalTerm(t, row), Eval(more, row))
  }

  // ----- gluing texts together with a connective

  datatype Connective = And | Or

  function Tokens(b: Connective): Tok {
    if b == And then AndTok else OrTok
  }

  function AppendTerm(t: Term, u: Term): Term {
    match t
    case Last(f) => AndThen(f, u)
    case AndThen(f, rest) => AndThen(f, AppendTerm(rest, u))
  }

  /** The tree of `c AND d` written without parentheses: the last term of `c` and the first
      term of `d` become one. */
  function AppendAnd(c: Cond, d: Cond): Cond {
    match c
    case OrElse(t, more) => OrElse(t, AppendAnd(more, d))
    case Only(t) =>
      match d
      case Only(u) => Only(AppendTerm(t, u))
      case OrElse(u, more) => OrElse(AppendTerm(t, u), more)
  }

  function AppendOr(c: Cond, d: Cond): Cond {
    match c
    case OrElse(t, more) => OrElse(t, AppendOr(more, d))
    case Only(t) => OrElse(t, d)
  }

  function Append(c: Cond, b: Connective, d: Cond): Cond {
    if b == And then AppendAnd(c, d) else AppendOr(c, d)
  }

  lemma {:induction false} AppendTermFlat(t: Term, u: Term)
    ensures FlatTerm(AppendTerm(t, u)) == FlatTerm(t) + [AndTok] + FlatTerm(u)
  {
    match t
    case Last(f) =>
    case AndThen(f, rest) =>
      AppendTermFlat(rest, u);
  }

  lemma {:induction false} AppendFlat(c: Cond, b: Connective, d: Cond)
    ensures Flat(Append(c, b, d)) == Flat(c) + [Tokens(b)] + Flat(d)
    decreases c
  {
    match c
    case OrElse(t, more) =>
      AppendFlat(more, b, d);
      assert Append(c, b, d) == OrElse(t, Append(more, b, d));
      assert FlatTerm(t) + [OrTok] + (Flat(more) + [Tokens(b)] + Flat(d)) == Flat(c) + [Tokens(b)] + Flat(d);
    case Only(t) =>
      if b == And {
        match d
        case Only(u) => AppendTermFlat(t, u);
        case OrElse(u, more) =>
          AppendTermFlat(t, u);
          assert Flat(d) == FlatTerm(u) + [OrTok] + Flat(more);
      }
  }

  lemma {:induction false} AppendTermEval(t: Term, u: Term, row: Row)
    ensures EvalTerm(AppendTerm(t, u), row) == KAnd(EvalTerm(t, row), EvalTerm(u, row))
  {
    match t
    case Last(f) =>
    case AndThen(f, rest) => AppendTermEval(rest, u, row);
  }

  lemma {:induction false} AppendOrEval(c: Cond, d: Cond, row: Row)
    ensures Eval(AppendOr(c, d), row) == KOr(Eval(c, row), Eval(d, row))
  {
    match c
    case Only(t) =>
    case OrElse(t, more) => AppendOrEval(more, d, row);
  }

  /** Two texts without an outer OR combine as their AND. */
  lemma AppendAndEval(c: Cond, d: Cond, row: Row)
    requires c.Only? && d.Only?
    ensures AppendAnd(c, d).Only?
    ensures Eval(AppendAnd(c, d), row) == KAnd(Eval(c, row), Eval(d, row))
  {
    AppendTermEval(c.t, d.t, row);
  }

  function Paren(c: Cond): Cond {
    Only(Last(Group(c)))
  }

  lemma ParenFlat(c: Cond)
    ensures Flat(Paren(c)) == [Open] + Flat(c) + [Close]
  {
    assert FlatTerm(Last(Group(c))) == FlatFactor(Group(c));
  }

  lemma ParenEval(c: Cond, row: Row)
    ensures Eval(Paren(c), row) == Eval(c, row)
  {
    assert EvalTerm(Last(Group(c)), row) == EvalFactor(Group(c), row);
  }

  lemma SingleFlat(p: Predicate)
    ensures Flat(Only(Last(Pred(p)))) == [Atom(p)]
  {
    assert FlatTerm(Last(Pred(p))) == FlatFactor(Pred(p));
  }

  lemma SingleEval(p: Predicate, row: Row)
    ensures EvalTerm(Last(Pred(p)), row) == row(p) && Eval(Only(Last(Pred(p))), row) == row(p)
  {
    assert EvalTerm(Last(Pred(p)), row) == EvalFactor(Pred(p), row);
  }

  // ----- predicates can be made true or false at will

  function AtomsFactor(f: Factor): seq<Predicate> {
    match f
    case Pred(p) => [p]
    case Neg(inner) => AtomsFactor(inner)
    case Group(cond) => Atoms(cond)
  }

  function AtomsTerm(t: Term): seq<Predicate> {
    match t
    case Last(f) => AtomsFactor(f)
    case AndThen(f, rest) => AtomsFactor(f) + AtomsTerm(rest)
  }

  function Atoms(c: Cond): seq<Predicate> {
    match c
    case Only(t) => AtomsTerm(t)
    case OrElse(t, more) => AtomsTerm(t) + Atoms(more)
  }

  predicate Distinct(names: seq<Predicate>) {
    forall i, j :: 0 <= i < j < |names| ==> names[i] != names[j]
  }

  /** Rows that differ only on the given predicates. */
  ghost predicate Elsewhere(a: Row, b: Row, names: seq<Predicate>) {
    forall x :: x !in names ==> a(x) == b(x)
  }

  lemma {:induction false} FactorLocal(f: Factor, a: Row, b: Row, names: seq<Predicate>)
    requires Elsewhere(a, b, names) && forall x :: x in AtomsFactor(f) ==> x !in names
    ensures EvalFactor(f, a) == EvalFactor(f, b)
    decreases f, 0
  {
    match f
    case Pred(p) => assert p in AtomsFactor(f);
    case Neg(inner) => FactorLocal(inner, a, b, names);
    case Group(cond) => CondLocal(cond, a, b, names);
  }

  lemma {:induction false} TermLocal(t: Term, a: Row, b: Row, names: seq<Predicate>)
    requires Elsewhere(a, b, names) && forall x :: x in AtomsTerm(t) ==> x !in names
    ensures EvalTerm(t, a) == EvalTerm(t, b)
    decreases t, 1
  {
    match t
    case Last(f) => FactorLocal(f, a, b, names);
    case AndThen(f, rest) =>
      FactorLocal(f, a, b, names);
      TermLocal(rest, a, b, names);
  }

  lemma {:induction false} CondLocal(c: Cond, a: Row, b: Row, names: seq<Predicate>)
    requires Elsewhere(a, b, names) && forall x :: x in Atoms(c) ==> x !in names
    ensures Eval(c, a) == Eval(c, b)
    decreases c, 2
  {
    match c
    case Only(t) => TermLocal(t, a, b, names);
    case OrElse(t, more) =>
      TermLocal(t, a, b, names);
      CondLocal(more, a, b, names);
  }

  lemma DistinctSplit(x: seq<Predicate>, y: seq<Predicate>)
    requires Distinct(x + y)
    ensures Distinct(x) && Distinct(y) && forall s :: s in x ==> s !in y
  {
    forall i, j | 0 <= i < |x| && 0 <= j < |y|
      ensures x[i] != y[j]
    {
      assert (x + y)[i] == x[i] && (x + y)[|x| + j] == y[j];
    }
    forall i, j | 0 <= i < j < |y|
      ensures y[i] != y[j]
    {
      assert (x + y)[|x| + i] == y[i] && (x + y)[|x| + j] == y[j];
    }
    forall i, j | 0 <= i < j < |x|
      ensures x[i] != x[j]
    {
      assert (x + y)[i] == x[i] && (x + y)[j] == x[j];
    }
  }

  predicate HasFactor(t: Term, f: Factor) {
    match t
    case Last(g) => f == g
    case AndThen(g, rest) => f == g || HasFactor(rest, f)
  }

  /** A row on which a condition comes out as wanted, unchanged outside its own predicates. */
  lemma {:induction false} SetFactor(f: Factor, want: bool, row: Row) returns (row': Row)
    requires Distinct(AtomsFactor(f))
    ensures EvalFactor(f, row') == (if want then Yes else No) && Elsewhere(row, row', AtomsFactor(f))
    decreases f, 0
  {
    match f
    case Pred(p) =>
      row' := x => if x == p then (if want then Yes else No) else row(x);
    case Neg(inner) =>
      row' := SetFactor(inner, !want, row);
    case Group(cond) =>
      row' := SetCond(cond, want, row);
  }

  lemma {:induction false} SetTerm(t: Term, want: bool, row: Row) returns (row': Row)
    requires Distinct(AtomsTerm(t))
    ensures EvalTerm(t, row') == (if want then Yes else No) && Elsewhere(row, row', AtomsTerm(t))
    ensures forall f :: HasFactor(t, f) ==> EvalFactor(f, row') == if want then Yes else No
    decreases t, 1
  {
    match t
    case Last(f) =>
      row' := SetFactor(f, want, row);
    case AndThen(f, rest) =>
      DistinctSplit(AtomsFactor(f), AtomsTerm(rest));
      var mid := SetFactor(f, want, row);
      row' := SetTerm(rest, want, mid);
      FactorLocal(f, mid, row', AtomsTerm(rest));
  }

  lemma {:induction false} SetCond(c: Cond, want: bool, row: Row) returns (row': Row)
    requires Distinct(Atoms(c))
    ensures Eval(c, row') == (if want then Yes else No) && Elsewhere(row, row', Atoms(c))
    decreases c, 2
  {
    match c
    case Only(t) =>
      row' := SetTerm(t, want, row);
    case OrElse(t, more) =>
      DistinctSplit(AtomsTerm(t), Atoms(more));
      var mid := SetTerm(t, want, row);
      row' := SetCond(more, want, mid);
      TermLocal(t, mid, row', Atoms(more));
  }

  // ----- a guard in front of a text

  /** Texts glued in turn to what stands before them. */
  function Chain(c: Cond, rest: seq<(Connective, Cond)>): Cond
    decreases |rest|
  {
    if rest == [] then c
    else Append(Chain(c, rest[..|rest| - 1]), rest[|rest| - 1].0, rest[|rest| - 1].1)
  }

  lemma ChainEnds(c: Cond, rest: seq<(Connective, Cond)>)
    ensures rest == [] ==> Chain(c, rest) == c
    ensures rest != [] ==>
              Chain(c, rest) == Append(Chain(c, rest[..|rest| - 1]), rest[|rest| - 1].0, rest[|rest| - 1].1)
  {
  }

  predicate Unbroken(rest: seq<(Connective, Cond)>) {
    forall i :: 0 <= i < |rest| ==> rest[i].0 == And && rest[i].1.Only?
  }

  function ConjoinAll(rest: seq<(Connective, Cond)>, row: Row): Truth {
    if rest == [] then Yes
    else KAnd(ConjoinAll(rest[..|rest| - 1], row), Eval(rest[|rest| - 1].1, row))
  }

  /** A chain has an outer OR exactly when a connective or a glued text brings one in. */
  lemma {:induction false} ChainUnbroken(guard: Term, rest: seq<(Connective, Cond)>)
    ensures Chain(Only(guard), rest).Only? <==> Unbroken(rest)
    decreases |rest|
  {
    if rest != [] {
      var init, last := rest[..|rest| - 1], rest[|rest| - 1];
      ChainUnbroken(guard, init);
      assert Unbroken(rest) <==> Unbroken(init) && last.0 == And && last.1.Only?;
    }
  }

  /** Without an outer OR the guard is one conjunct among the others. */
  lemma {:induction false} UnbrokenChainEval(guard: Term, rest: seq<(Connective, Cond)>, row: Row)
    requires Unbroken(rest)
    ensures Eval(Chain(Only(guard), rest), row) == KAnd(EvalTerm(guard, row), ConjoinAll(rest, row))
    decreases |rest|
  {
    if rest != [] {
      var init, last := rest[..|rest| - 1], rest[|rest| - 1];
      ChainUnbroken(guard, init);
      UnbrokenChainEval(guard, init, row);
      AppendAndEval(Chain(Only(guard), init), last.1, row);
    }
  }

  /** The guard stays in the first term of the chain. */
  function FirstTerm(c: Cond): Term {
    c.t
  }

  ghost predicate StartsWith(t: Term, guard: Term)
  {
    t == guard || exists u :: t == AppendTerm(guard, u)
  }

  lemma {:induction false} AppendTermAssoc(t: Term, u: Term, v: Term)
    ensures AppendTerm(AppendTerm(t, u), v) == AppendTerm(t, AppendTerm(u, v))
  {
    match t
    case Last(f) =>
    case AndThen(f, rest) => AppendTermAssoc(rest, u, v);
  }

  lemma {:induction false} ChainStarts(guard: Term, rest: seq<(Connective, Cond)>)
    ensures StartsWith(FirstTerm(Chain(Only(guard), rest)), guard)
    decreases |rest|
  {
    if rest != [] {
      var init, last := rest[..|rest| - 1], rest[|rest| - 1];
      ChainStarts(guard, init);
      var c := Chain(Only(guard), init);
      if c.Only? && last.0 == And {
        var u := FirstTerm(last.1);
        assert FirstTerm(Chain(Only(guard), rest)) == AppendTerm(c.t, u);
        if c.t != guard {
          var v :| c.t == AppendTerm(guard, v);
          AppendTermAssoc(guard, v, u);
        }
      }
    }
  }

  lemma {:induction false} AppendTermAtoms(t: Term, u: Term)
    ensures AtomsTerm(AppendTerm(t, u)) == AtomsTerm(t) + AtomsTerm(u)
  {
    match t
    case Last(f) =>
    case AndThen(f, rest) =>
      AppendTermAtoms(rest, u);
  }

  lemma {:induction false} FactorOfTrueTerm(t: Term, f: Factor, row: Row)
    requires HasFactor(t, f) && EvalTerm(t, row) == Yes
    ensures EvalFactor(f, row) == Yes
  {
    match t
    case Last(g) =>
    case AndThen(g, rest) =>
      if f != g { FactorOfTrueTerm(rest, f, row); }
  }

  /** Every row the chain selects satisfies each conjunct of the guard in front of it when no OR at
      the outer level breaks the chain. If no predicate occurs twice, so that each is free to hold
      or not, it is exactly then. */
  lemma GuardHoldsExactly(guard: Term, f: Factor, rest: seq<(Connective, Cond)>)
    requires HasFactor(guard, f)
    ensures Unbroken(rest) ==>
              forall row: Row :: Eval(Chain(Only(guard), rest), row) == Yes ==> EvalFactor(f, row) == Yes
    ensures Distinct(Atoms(Chain(Only(guard), rest))) && !Unbroken(rest) ==>
              exists row: Row :: Eval(Chain(Only(guard), rest), row) == Yes && EvalFactor(f, row) == No
  {
    var c := Chain(Only(guard), rest);
    if Unbroken(rest) {
      forall row: Row | Eval(c, row) == Yes
        ensures EvalFactor(f, row) == Yes
      {
        UnbrokenChainEval(guard, rest, row);
        FactorOfTrueTerm(guard, f, row);
      }
    } else if Distinct(Atoms(c)) {
      var row := GuardEscapes(guard, f, rest, _ => Unknown);
    }
  }

  /** Behind an outer OR there is a row that the guard rejects and the chain selects; outside the
      chain it is as any given row. */
  lemma GuardEscapes(guard: Term, f: Factor, rest: seq<(Connective, Cond)>, base: Row) returns (row: Row)
    requires HasFactor(guard, f) && !Unbroken(rest) && Distinct(Atoms(Chain(Only(guard), rest)))
    ensures Eval(Chain(Only(guard), rest), row) == Yes && EvalFactor(f, row) == No
    ensures Elsewhere(base, row, Atoms(Chain(Only(guard), rest)))
  {
    var c := Chain(Only(guard), rest);
    ChainUnbroken(guard, rest);
    ChainStarts(guard, rest);
    DistinctSplit(AtomsTerm(c.t), Atoms(c.more));
    GuardAtoms(guard, c.t);
    var low := SetTerm(guard, false, base);
    row := SetCond(c.more, true, low);
    FactorAtoms(guard, f);
    FactorLocal(f, low, row, Atoms(c.more));
  }

  lemma {:induction false} FactorAtoms(t: Term, f: Factor)
    requires HasFactor(t, f)
    ensures forall x :: x in AtomsFactor(f) ==> x in AtomsTerm(t)
  {
    match t
    case Last(g) =>
    case AndThen(g, rest) =>
      if f != g { FactorAtoms(rest, f); }
  }

  lemma GuardAtoms(guard: Term, t: Term)
    requires StartsWith(t, guard) && Distinct(AtomsTerm(t))
    ensures Distinct(AtomsTerm(guard)) && forall x :: x in AtomsTerm(guard) ==> x in AtomsTerm(t)
  {
    if t != guard {
      var u :| t == AppendTerm(guard, u);
      AppendTermAtoms(guard, u);
      DistinctSplit(AtomsTerm(guard), AtomsTerm(u));
    }
  }

  lemma {:induction false} ChainSplit(c: Cond, a: seq<(Connective, Cond)>, b: seq<(Connective, Cond)>)
    ensures Chain(c, a + b) == Chain(Chain(c, a), b)
    decreases |b|
  {
    if b == [] {
      assert a + b == a;
    } else {
      ChainSplit(c, a, b[..|b| - 1]);
      assert (a + b)[..|a + b| - 1] == a + b[..|b| - 1];
    }
  }
}
