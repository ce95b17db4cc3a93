/** SQL text as the placeholder scanner of the Postgres dialect sees it.

    `Lex` is the regular expression of the dialect read as a scanner: quoted literals, `$$`
    literals and placeholders, tried in that order at every position, with the same
    backtracking. `Bind` is the meaning of a statement with its arguments: each placeholder
    takes the next argument. */
module SqlText {
  import opened Wrappers
  import opened Decimal

  datatype Token = Plain(c: char) | Quoted(text: string) | Hole

  function Plus(n: nat, o: Option<nat>): Option<nat> {
    match o
    case None => None
    case Some(k) => Some(n + k)
  }

  /** Length of the rest of a quoted literal after its opening quote. A doubled quote stays
      inside the literal unless the text after it never closes. */
  function CloseQuote(s: string): (r: Option<nat>)
    ensures r.Some? ==> 1 <= r.value <= |s| && s[r.value - 1] == '\''
  {
    if s == "" then None
    else if s[0] != '\'' then Plus(1, CloseQuote(s[1..]))
    else if |s| > 1 && s[1] == '\'' then
      match CloseQuote(s[2..])
      case Some(n) => Some(n + 2)
      case None => Some(1)
    else Some(1)
  }

  /** Length of the rest of a `$$` literal, which may not span lines. */
  function CloseDollar(s: string): (r: Option<nat>)
    ensures r.Some? ==> 2 <= r.value <= |s| && s[r.value - 1] == '$'
  {
    if |s| >= 2 && s[0] == '$' && s[1] == '$' then Some(2)
    else if s == "" || s[0] == '\n' then None
    else Plus(1, CloseDollar(s[1..]))
  }

  /** Length of the literal at the start of `s`, if there is one. */
  function Literal(s: string): (r: Option<nat>)
    ensures r.Some? ==> 2 <= r.value <= |s| && s[r.value - 1] == s[0] && (s[0] == '\'' || s[0] == '$')
  {
    if s != "" && s[0] == '\'' then Plus(1, CloseQuote(s[1..]))
    else if |s| >= 2 && s[0] == '$' && s[1] == '$' then Plus(2, CloseDollar(s[2..]))
    else None
  }

  /** The token at the start of a text, and how many characters it takes. */
  function First(s: string): (t: Token)
    requires s != ""
  {
    match Literal(s)
    case Some(n) => Quoted(s[..n])
    case None => if s[0] == '?' then Hole else Plain(s[0])
  }

  function Width(s: string): (n: nat)
    requires s != ""
    ensures 1 <= n <= |s|
  {
    match Literal(s)
    case Some(n) => n
    case None => 1
  }

  function Lex(s: string): seq<Token>
    decreases |s|
  {
    if s == "" then [] else [First(s)] + Lex(s[Width(s)..])
  }

  function Count(toks: seq<Token>): nat {
    if toks == [] then 0 else (if toks[0].Hole? then 1 else 0) + Count(toks[1..])
  }

  /** The number of live placeholders in a text. */
  function Holes(s: string): nat {
    Count(Lex(s))
  }

  // ----- the Postgres dialect

  /** What conversion writes for one token, `k` placeholders having gone before. */
  function Written(t: Token, k: nat): string {
    match t
    case Plain(c) => [c]
    case Quoted(text) => text
    case Hole => "$" + Print(k + 1)
  }

  function Next(t: Token, k: nat): nat {
    if t.Hole? then k + 1 else k
  }

  /** The text with its placeholders numbered onward from `k`. */
  function Numbered(toks: seq<Token>, k: nat): string {
    if toks == [] then ""
    else Written(toks[0], k) + Numbered(toks[1..], Next(toks[0], k))
  }

  lemma NumberedStep(s: string, k: nat)
    requires s != ""
    ensures Numbered(Lex(s), k) == Written(First(s), k) + Numbered(Lex(s[Width(s)..]), Next(First(s), k))
    ensures Lex(s) != [] && Lex(s)[0] == First(s) && Lex(s)[1..] == Lex(s[Width(s)..])
  {
  }

  /** PostgresDialect.ConvertPlaceholders: scan, copy, and number what is left of `?`. */
  method ConvertPlaceholders(query: string) returns (r: string)
    ensures r == Numbered(Lex(query), 0)
  {
    hide Lex, Numbered, Literal;
    var i, k := 0, 0;
    r := "";
    assert query[0..] == query;
    while i < |query|
      invariant 0 <= i <= |query|
      invariant r + Numbered(Lex(query[i..]), k) == Numbered(Lex(query), 0)
    {
      var rest := query[i..];
      NumberedStep(rest, k);
      var n := Width(rest);
      assert rest[n..] == query[i + n..];
      var t := First(rest);
      Associative(r, Written(t, k), Numbered(Lex(rest[n..]), Next(t, k)));
      match t {
        case Quoted(text) =>
          r := r + text;
        case Plain(c) =>
          r := r + [c];
        case Hole =>
          r := r + ("$" + Print(k + 1));
          k := k + 1;
      }
      i := i + n;
    }
    EmptyText(k);
    assert query[i..] == "";
    assert r + "" == r;
  }

  lemma EmptyText(k: nat)
    ensures Lex("") == [] && Numbered([], k) == ""
  {
  }

  lemma Associative(a: string, b: string, c: string)
    ensures a + b + c == a + (b + c)
  {
  }

  // ----- what a numbered statement means to the server

  datatype PgToken = PgPlain(c: char) | PgQuoted(text: string) | PgParam(index: nat)

  function DigitSpan(s: string): (n: nat)
    ensures n <= |s| && AllDigits(s[..n]) && (n < |s| ==> !IsDigit(s[n]))
  {
    if s == "" || !IsDigit(s[0]) then 0 else 1 + DigitSpan(s[1..])
  }

  /** Postgres reads `$` and the digits after it as one numbered parameter. */
  function PgFirst(s: string): PgToken
    requires s != ""
  {
    match Literal(s)
    case Some(n) => PgQuoted(s[..n])
    case None =>
      var n := DigitSpan(s[1..]);
      if s[0] == '$' && n > 0 then PgParam(Value(s[1..][..n])) else PgPlain(s[0])
  }

  function PgWidth(s: string): (n: nat)
    requires s != ""
    ensures 1 <= n <= |s|
  {
    match Literal(s)
    case Some(n) => n
    case None => if s[0] == '$' then 1 + DigitSpan(s[1..]) else 1
  }

  function ReadPg(s: string): seq<PgToken>
    decreases |s|
  {
    if s == "" then [] else [PgFirst(s)] + ReadPg(s[PgWidth(s)..])
  }

  function Wanted(t: Token, k: nat): PgToken {
    match t
    case Plain(c) => PgPlain(c)
    case Quoted(text) => PgQuoted(text)
    case Hole => PgParam(k + 1)
  }

  /** The reading that conversion aims at: the k-th placeholder is parameter k. */
  function InOrder(toks: seq<Token>, k: nat): seq<PgToken> {
    if toks == [] then [] else [Wanted(toks[0], k)] + InOrder(toks[1..], Next(toks[0], k))
  }

  /** No stray quote and no stray dollar sign: nothing that later text could complete. */
  predicate Settled(toks: seq<Token>) {
    forall i :: 0 <= i < |toks| ==> toks[i] != Plain('\'') && toks[i] != Plain('$')
  }

  predicate Closed(s: string) {
    Settled(Lex(s))
  }

  /** No placeholder runs straight into a digit. */
  predicate HolesEnd(toks: seq<Token>) {
    forall i :: 0 <= i < |toks| - 1 && toks[i].Hole? ==> !(toks[i + 1].Plain? && IsDigit(toks[i + 1].c))
  }

  /** Concatenating the two texts cannot glue a closing quote to an opening one. */
  predicate Separate(a: string, b: string) {
    a == "" || b == "" || a[|a| - 1] != '\'' || b[0] != '\''
  }

  lemma {:induction false} CloseQuoteStable(t: string, b: string)
    requires CloseQuote(t).Some?
    requires var n := CloseQuote(t).value;
             if n < |t| then t[n] != '\'' else b == "" || b[0] != '\''
    ensures CloseQuote(t + b) == CloseQuote(t)
    decreases |t|
  {
    var n := CloseQuote(t).value;
    if t[0] != '\'' {
      assert (t + b)[1..] == t[1..] + b;
      CloseQuoteStable(t[1..], b);
    } else if |t| > 1 && t[1] == '\'' {
      assert (t + b)[2..] == t[2..] + b;
      if CloseQuote(t[2..]).Some? {
        CloseQuoteStable(t[2..], b);
      }
    }
  }

  /** A literal that gave a doubled quote back leaves a stray quote behind. */
  lemma {:induction false} GivenBackQuoteIsStray(t: string)
    requires CloseQuote(t).Some? && CloseQuote(t).value < |t| && t[CloseQuote(t).value] == '\''
    ensures CloseQuote(t[CloseQuote(t).value + 1..]) == None
    decreases |t|
  {
    var n := CloseQuote(t).value;
    if t[0] != '\'' {
      assert CloseQuote(t[1..]) == Some(n - 1) && t[1..][n - 1] == t[n];
      GivenBackQuoteIsStray(t[1..]);
      assert t[1..][n..] == t[n + 1..];
    } else if CloseQuote(t[2..]).Some? {
      assert CloseQuote(t[2..]) == Some(n - 2) && t[2..][n - 2] == t[n];
      GivenBackQuoteIsStray(t[2..]);
      assert t[2..][n - 1..] == t[n + 1..];
    } else {
      assert n == 1;
    }
  }

  lemma {:induction false} CloseDollarStable(t: string, b: string)
    requires CloseDollar(t).Some?
    ensures CloseDollar(t + b) == CloseDollar(t)
  {
    if !(t[0] == '$' && t[1] == '$') {
      assert (t + b)[1..] == t[1..] + b;
      CloseDollarStable(t[1..], b);
    }
  }

  lemma ClosedTail(s: string)
    requires s != "" && Closed(s)
    ensures Closed(s[Width(s)..]) && First(s) != Plain('\'') && First(s) != Plain('$')
  {
    assert Lex(s)[1..] == Lex(s[Width(s)..]);
    assert Lex(s)[0] == First(s);
  }

  /** In closed text a quoted literal is not followed by another quote. */
  lemma NoQuoteAfterLiteral(s: string)
    requires s != "" && s[0] == '\'' && Closed(s)
    ensures Literal(s).Some?
    ensures Literal(s).value < |s| ==> s[Literal(s).value] != '\''
  {
    hide Lex, CloseQuote, CloseDollar;
    ClosedTail(s);
    var n := Width(s);
    if n < |s| && s[n] == '\'' {
      ClosedTail(s[n..]);
      assert s[1..][n - 1..] == s[n..];
      GivenBackQuoteIsStray(s[1..]);
    }
  }

  /** The first token of a closed text does not depend on what follows the text. */
  lemma LiteralStable(a: string, b: string)
    requires a != "" && Closed(a) && Separate(a, b)
    ensures Literal(a + b) == Literal(a)
    ensures Width(a + b) == Width(a) && First(a + b) == First(a)
  {
    hide Lex, CloseQuote, CloseDollar;
    ClosedTail(a);
    assert (a + b)[1..] == a[1..] + b;
    if Literal(a).Some? {
      if a[0] == '\'' {
        NoQuoteAfterLiteral(a);
        CloseQuoteStable(a[1..], b);
      } else {
        assert (a + b)[2..] == a[2..] + b;
        CloseDollarStable(a[2..], b);
      }
      assert (a + b)[..Width(a)] == a[..Width(a)];
    }
  }

  lemma LexStep(s: string)
    requires s != ""
    ensures Lex(s) == [First(s)] + Lex(s[Width(s)..])
  {
  }

  /** Closed text is scanned the same way wherever it stands. */
  lemma {:induction false} LexConcat(a: string, b: string)
    requires Closed(a) && Separate(a, b)
    ensures Lex(a + b) == Lex(a) + Lex(b)
    decreases |a|
  {
    hide Lex, Literal, Closed, First, Width;
    if a == "" {
      assert a + b == b;
      EmptyText(0);
    } else {
      var n := Width(a);
      LiteralStable(a, b);
      ClosedTail(a);
      LexConcat(a[n..], b);
      LexStep(a);
      LexStep(a + b);
      assert (a + b)[n..] == a[n..] + b;
      assert [First(a)] + (Lex(a[n..]) + Lex(b)) == [First(a)] + Lex(a[n..]) + Lex(b);
    }
  }

  lemma ClosedConcat(a: string, b: string)
    requires Closed(a) && Closed(b) && Separate(a, b)
    ensures Closed(a + b) && Holes(a + b) == Holes(a) + Holes(b)
  {
    LexConcat(a, b);
    CountConcat(Lex(a), Lex(b));
  }

  lemma {:induction false} CountConcat(x: seq<Token>, y: seq<Token>)
    ensures Count(x + y) == Count(x) + Count(y)
  {
    if x == [] {
      assert x + y == y;
    } else {
      CountConcat(x[1..], y);
      assert (x + y)[1..] == x[1..] + y;
    }
  }

  // ----- conversion preserves the meaning

  lemma {:induction false} DigitSpanConcat(p: string, s: string)
    requires AllDigits(p)
    ensures DigitSpan(p + s) == |p| + DigitSpan(s)
  {
    if p == "" {
      assert p + s == s;
    } else {
      DigitSpanConcat(p[1..], s);
      assert (p + s)[1..] == p[1..] + s;
    }
  }

  /** The converted text starts with the same character as the original, or with `$` for `?`. */
  lemma NumberedHead(s: string, k: nat)
    requires s != ""
    ensures Numbered(Lex(s), k) != ""
    ensures Numbered(Lex(s), k)[0] == if s[0] == '?' then '$' else s[0]
  {
    NumberedStep(s, k);
  }

  /** A numbered placeholder is read back as itself unless digits follow it. */
  lemma ReadHole(k: nat, tail: string)
    ensures var out := "$" + Print(k + 1) + tail;
            && PgWidth(out) == 1 + |Print(k + 1)| + DigitSpan(tail)
            && (PgFirst(out) == PgParam(k + 1) <==> DigitSpan(tail) == 0)
  {
    var p := Print(k + 1);
    var out := "$" + p + tail;
    DigitSpanConcat(p, tail);
    assert out[1..] == p + tail;
    assert out[1] == p[0] && IsDigit(p[0]);
    var n := DigitSpan(tail);
    assert (p + tail)[..|p| + n] == p + tail[..n];
    ValueOfPrint(k + 1);
    if n > 0 {
      ValueGrows(p, tail[..n]);
    } else {
      assert p + tail[..n] == p;
    }
  }

  /** Any other token is read back as itself. */
  lemma ReadOther(s: string, k: nat)
    requires s != "" && Closed(s) && s[0] != '?'
    ensures var out := Written(First(s), k) + Numbered(Lex(s[Width(s)..]), k);
            PgWidth(out) == Width(s) && PgFirst(out) == Wanted(First(s), k)
  {
    hide Lex, Numbered, CloseQuote, CloseDollar;
    var n := Width(s);
    var head, rest := s[..n], s[n..];
    var tail := Numbered(Lex(rest), k);
    ClosedTail(s);
    if Literal(s).Some? {
      HeadLiteral(s, n);
      if rest != "" { NumberedHead(rest, k); }
      assert rest == "" ==> tail == "" by { EmptyText(k); }
      if s[0] == '\'' { NoQuoteAfterLiteral(s); }
      LiteralStable(head, tail);
      assert (head + tail)[..n] == head;
    }
  }

  /** A literal on its own is one closed token. */
  lemma HeadLiteral(s: string, n: nat)
    requires Closed(s) && s != "" && Literal(s) == Some(n)
    ensures Literal(s[..n]) == Some(n) && Closed(s[..n])
  {
    var head := s[..n];
    if s[0] == '\'' {
      NoQuoteAfterLiteral(s);
      assert head[1..] == s[1..][..n - 1];
      CloseQuotePrefix(s[1..]);
    } else {
      assert head[2..] == s[2..][..n - 2];
      CloseDollarPrefix(s[2..]);
    }
    assert head[n..] == "";
  }

  lemma {:induction false} CloseQuotePrefix(t: string)
    requires CloseQuote(t).Some?
    requires CloseQuote(t).value < |t| ==> t[CloseQuote(t).value] != '\''
    ensures CloseQuote(t[..CloseQuote(t).value]) == CloseQuote(t)
    decreases |t|
  {
    var n := CloseQuote(t).value;
    if t[0] != '\'' {
      assert t[..n][1..] == t[1..][..n - 1];
      CloseQuotePrefix(t[1..]);
    } else if |t| > 1 && t[1] == '\'' {
      assert CloseQuote(t[2..]).Some?;
      assert t[..n][2..] == t[2..][..n - 2];
      CloseQuotePrefix(t[2..]);
    }
  }

  lemma {:induction false} CloseDollarPrefix(t: string)
    requires CloseDollar(t).Some?
    ensures CloseDollar(t[..CloseDollar(t).value]) == CloseDollar(t)
  {
    var n := CloseDollar(t).value;
    if !(t[0] == '$' && t[1] == '$') {
      assert t[..n][1..] == t[1..][..n - 1];
      CloseDollarPrefix(t[1..]);
    }
  }

  /** The server reads the k-th placeholder of a closed text as parameter k exactly when no
      placeholder runs into a digit; everything else is read as it was written. */
  lemma {:induction false} ConversionKeepsOrder(s: string, k: nat)
    requires Closed(s)
    ensures ReadPg(Numbered(Lex(s), k)) == InOrder(Lex(s), k) <==> HolesEnd(Lex(s))
    decreases |s|
  {
    hide Lex, Numbered, Closed, Literal, HolesEnd, PgFirst, PgWidth, ReadPg, InOrder;
    if s == "" {
      EmptyText(k);
      EmptyReading(k);
    } else {
      var t, rest := First(s), s[Width(s)..];
      var k' := Next(t, k);
      var tail := Numbered(Lex(rest), k');
      var out := Written(t, k) + tail;
      NumberedStep(s, k);
      ClosedTail(s);
      ConversionKeepsOrder(rest, k');
      HolesEndCons(Lex(s));
      InOrderStep(Lex(s), k);
      ReadPgStep(out);
      ConsEqual(PgFirst(out), ReadPg(out[PgWidth(out)..]), Wanted(t, k), InOrder(Lex(rest), k'));
      if t.Hole? {
        ReadHole(k, tail);
        TailDigit(s, k);
        assert DigitSpan(tail) == 0 ==> out[PgWidth(out)..] == tail;
      } else {
        ReadOther(s, k);
        assert |Written(t, k)| == Width(s);
        assert out[PgWidth(out)..] == tail;
      }
    }
  }

  lemma ConsEqual<T>(a: T, x: seq<T>, b: T, y: seq<T>)
    ensures [a] + x == [b] + y <==> a == b && x == y
  {
    if [a] + x == [b] + y {
      assert ([a] + x)[0] == a && ([b] + y)[0] == b;
      assert ([a] + x)[1..] == x && ([b] + y)[1..] == y;
    }
  }

  lemma EmptyReading(k: nat)
    ensures ReadPg("") == [] && InOrder([], k) == [] && HolesEnd([])
  {
  }

  /** The converted text after a placeholder starts with a digit just when the original does. */
  lemma TailDigit(s: string, k: nat)
    requires s != "" && First(s).Hole?
    ensures var toks := Lex(s);
            DigitSpan(Numbered(toks[1..], k + 1)) > 0 <==>
            |toks| > 1 && toks[1].Plain? && IsDigit(toks[1].c)
  {
    var rest := s[Width(s)..];
    NumberedStep(s, k);
    if rest != "" {
      NumberedHead(rest, k + 1);
      NumberedStep(rest, k + 1);
      FirstDigit(rest);
    } else {
      EmptyText(k + 1);
    }
  }

  lemma FirstDigit(s: string)
    requires s != ""
    ensures First(s).Plain? && IsDigit(First(s).c) <==> IsDigit(s[0])
  {
  }

  lemma ReadPgStep(s: string)
    requires s != ""
    ensures ReadPg(s) == [PgFirst(s)] + ReadPg(s[PgWidth(s)..])
  {
  }

  lemma InOrderStep(toks: seq<Token>, k: nat)
    requires toks != []
    ensures InOrder(toks, k) == [Wanted(toks[0], k)] + InOrder(toks[1..], Next(toks[0], k))
  {
  }

  lemma HolesEndCons(toks: seq<Token>)
    requires toks != []
    ensures HolesEnd(toks) <==>
            && HolesEnd(toks[1..])
            && (toks[0].Hole? && |toks| > 1 ==> !(toks[1].Plain? && IsDigit(toks[1].c)))
  {
    if HolesEnd(toks[1..]) && (toks[0].Hole? && |toks| > 1 ==> !(toks[1].Plain? && IsDigit(toks[1].c))) {
      forall i | 0 <= i < |toks| - 1 && toks[i].Hole?
        ensures !(toks[i + 1].Plain? && IsDigit(toks[i + 1].c))
      {
        if i > 0 { assert toks[1..][i - 1] == toks[i] && toks[1..][i] == toks[i + 1]; }
      }
    }
    if HolesEnd(toks) {
      forall i | 0 <= i < |toks[1..]| - 1 && toks[1..][i].Hole?
        ensures !(toks[1..][i + 1].Plain? && IsDigit(toks[1..][i + 1].c))
      {
        assert toks[1..][i] == toks[i + 1] && toks[1..][i + 1] == toks[i + 2];
      }
    }
  }

  // ----- arguments

  datatype Cell<V> = Raw(t: Token) | Arg(v: V)

  /** The k-th placeholder takes the k-th argument. */
  function Bind<V>(toks: seq<Token>, args: seq<V>): seq<Cell<V>>
    requires Count(toks) == |args|
  {
    if toks == [] then []
    else if toks[0].Hole? then [Arg(args[0])] + Bind(toks[1..], args[1..])
    else [Raw(toks[0])] + Bind(toks[1..], args)
  }

  function ServerCell<V>(t: PgToken, args: seq<V>): Cell<V> {
    match t
    case PgPlain(c) => Raw(Plain(c))
    case PgQuoted(text) => Raw(Quoted(text))
    case PgParam(i) => if 1 <= i <= |args| then Arg(args[i - 1]) else Raw(Hole)
  }

  /** The server's view of a numbered statement and its arguments. */
  function ServerBind<V>(toks: seq<PgToken>, args: seq<V>): seq<Cell<V>> {
    if toks == [] then [] else [ServerCell(toks[0], args)] + ServerBind(toks[1..], args)
  }

  lemma {:induction false} InOrderBinds<V>(toks: seq<Token>, k: nat, args: seq<V>)
    requires k + Count(toks) == |args|
    ensures ServerBind(InOrder(toks, k), args) == Bind(toks, args[k..])
    decreases |toks|
  {
    if toks != [] {
      InOrderBinds(toks[1..], Next(toks[0], k), args);
      InOrderStep(toks, k);
      var w := InOrder(toks, k);
      assert w[1..] == InOrder(toks[1..], Next(toks[0], k));
      if toks[0].Hole? {
        assert args[k..][1..] == args[k + 1..];
      }
    }
  }

  /** Converting a closed statement for Postgres changes nothing that its arguments mean. */
  lemma ConversionPreservesBinding<V>(s: string, args: seq<V>)
    requires Closed(s) && HolesEnd(Lex(s)) && Holes(s) == |args|
    ensures ServerBind(ReadPg(Numbered(Lex(s), 0)), args) == Bind(Lex(s), args)
  {
    ConversionKeepsOrder(s, 0);
    InOrderBinds(Lex(s), 0, args);
    assert args[0..] == args;
  }

  lemma BindStep<V>(toks: seq<Token>, args: seq<V>)
    requires toks != [] && Count(toks) == |args|
    ensures toks[0].Hole? ==> args != [] && Count(toks[1..]) == |args[1..]|
                              && Bind(toks, args) == [Arg(args[0])] + Bind(toks[1..], args[1..])
    ensures !toks[0].Hole? ==> Count(toks[1..]) == |args| && Bind(toks, args) == [Raw(toks[0])] + Bind(toks[1..], args)
  {
  }

  lemma {:induction false} BindConcat<V>(x: seq<Token>, y: seq<Token>, p: seq<V>, q: seq<V>)
    requires Count(x) == |p| && Count(y) == |q|
    ensures Count(x + y) == |p + q| && Bind(x + y, p + q) == Bind(x, p) + Bind(y, q)
    decreases |x|
  {
    hide Bind, Count;
    CountConcat(x, y);
    if x == [] {
      assert x + y == y;
      EmptyCount();
      assert p + q == q;
      EmptyBind<V>();
      assert [] + Bind(y, q) == Bind(y, q);
    } else {
      BindStep(x, p);
      BindStep(x + y, p + q);
      assert (x + y)[1..] == x[1..] + y;
      if x[0].Hole? {
        assert (p + q)[1..] == p[1..] + q;
        BindConcat(x[1..], y, p[1..], q);
        ConsConcat(Arg(p[0]), Bind(x[1..], p[1..]), Bind(y, q));
      } else {
        BindConcat(x[1..], y, p, q);
        ConsConcat(Raw(x[0]), Bind(x[1..], p), Bind(y, q));
      }
    }
  }

  lemma ConsConcat<T>(t: T, a: seq<T>, b: seq<T>)
    ensures [t] + (a + b) == [t] + a + b
  {
  }

  lemma EmptyCount()
    ensures Count([]) == 0
  {
  }

  // ----- statements in parts

  /** A piece of a statement with the arguments that go with it. */
  datatype Part<V> = Part(text: string, args: seq<V>)

  function TextOf<V>(parts: seq<Part<V>>): string {
    if parts == [] then "" else TextOf(parts[..|parts| - 1]) + parts[|parts| - 1].text
  }

  function ArgsOf<V>(parts: seq<Part<V>>): seq<V> {
    if parts == [] then [] else ArgsOf(parts[..|parts| - 1]) + parts[|parts| - 1].args
  }

  /** No question mark runs straight into a digit. */
  predicate Unglued(s: string) {
    forall i :: 0 <= i < |s| - 1 && s[i] == '?' ==> !IsDigit(s[i + 1])
  }

  /** A closed piece with as many placeholders as arguments. */
  predicate Whole<V>(p: Part<V>) {
    Closed(p.text) && Unglued(p.text) && Holes(p.text) == |p.args|
  }

  /** The two texts meet neither in two quotes nor in a placeholder and a digit. */
  predicate Joins(a: string, b: string) {
    Separate(a, b) && (a == "" || b == "" || a[|a| - 1] != '?' || !IsDigit(b[0]))
  }

  predicate Aligned<V>(parts: seq<Part<V>>) {
    parts == [] ||
    (var init, last := parts[..|parts| - 1], parts[|parts| - 1];
     Aligned(init) && Whole(last) && Joins(TextOf(init), last.text))
  }

  function BoundParts<V>(parts: seq<Part<V>>): seq<Cell<V>>
    requires Aligned(parts)
  {
    if parts == [] then []
    else BoundParts(parts[..|parts| - 1]) + Bind(Lex(parts[|parts| - 1].text), parts[|parts| - 1].args)
  }

  /** In a statement put together from aligned pieces, the placeholder count is the argument
      count, and each placeholder takes the argument that came with its own piece. */
  lemma {:induction false} PartsBindSeparately<V>(parts: seq<Part<V>>)
    requires Aligned(parts)
    ensures Closed(TextOf(parts)) && Unglued(TextOf(parts)) && Holes(TextOf(parts)) == |ArgsOf(parts)|
    ensures Bind(Lex(TextOf(parts)), ArgsOf(parts)) == BoundParts(parts)
    decreases |parts|
  {
    hide Lex, Bind, Separate;
    if parts == [] {
      EmptyText(0);
      EmptyBind<V>();
    } else {
      var init, last := parts[..|parts| - 1], parts[|parts| - 1];
      PartsBindSeparately(init);
      LexConcat(TextOf(init), last.text);
      ClosedConcat(TextOf(init), last.text);
      BindConcat(Lex(TextOf(init)), Lex(last.text), ArgsOf(init), last.args);
    }
  }

  /** Text in which no question mark runs into a digit has no such placeholder either. */
  lemma {:induction false} UngluedHolesEnd(s: string)
    requires Unglued(s)
    ensures HolesEnd(Lex(s))
    decreases |s|
  {
    if s != "" {
      var rest := s[Width(s)..];
      UngluedHolesEnd(rest);
      LexStep(s);
      if rest != "" {
        LexStep(rest);
      }
      HolesEndCons(Lex(s));
    }
  }

  /** The same statement sent to Postgres binds the same values in the same places. */
  lemma AlignedBinds<V>(parts: seq<Part<V>>)
    requires Aligned(parts)
    ensures Holes(TextOf(parts)) == |ArgsOf(parts)|
    ensures ServerBind(ReadPg(Numbered(Lex(TextOf(parts)), 0)), ArgsOf(parts)) == BoundParts(parts)
  {
    hide *;
    PartsBindSeparately(parts);
    UngluedHolesEnd(TextOf(parts));
    ConversionPreservesBinding(TextOf(parts), ArgsOf(parts));
  }

  lemma UngluedConcat(a: string, b: string)
    requires Unglued(a) && Unglued(b) && Joins(a, b)
    ensures Unglued(a + b)
  {
  }

  lemma EmptyBind<V>()
    ensures Bind<V>([], []) == []
  {
  }

  lemma {:induction false} PartsConcat<V>(a: seq<Part<V>>, b: seq<Part<V>>)
    ensures TextOf(a + b) == TextOf(a) + TextOf(b) && ArgsOf(a + b) == ArgsOf(a) + ArgsOf(b)
    decreases |b|
  {
    if b == [] {
      assert a + b == a;
      assert TextOf(a) + "" == TextOf(a) && ArgsOf(a) + [] == ArgsOf(a);
    } else {
      var init, last := b[..|b| - 1], b[|b| - 1];
      PartsConcat(a, init);
      assert (a + b)[..|a + b| - 1] == a + init && (a + b)[|a + b| - 1] == last;
      assert TextOf(a) + TextOf(init) + last.text == TextOf(a) + (TextOf(init) + last.text);
      assert ArgsOf(a) + ArgsOf(init) + last.args == ArgsOf(a) + (ArgsOf(init) + last.args);
    }
  }

  lemma PartsSnoc<V>(a: seq<Part<V>>, p: Part<V>)
    ensures TextOf(a + [p]) == TextOf(a) + p.text && ArgsOf(a + [p]) == ArgsOf(a) + p.args
    ensures Aligned(a + [p]) <==> Aligned(a) && Whole(p) && Joins(TextOf(a), p.text)
  {
    assert (a + [p])[..|a|] == a;
  }

  lemma WholeMeans<V>(p: Part<V>)
    ensures Whole(p) <==> Closed(p.text) && Unglued(p.text) && Holes(p.text) == |p.args|
  {
  }

  predicate AllWhole<V>(parts: seq<Part<V>>) {
    forall i :: 0 <= i < |parts| ==> Whole(parts[i])
  }

  /** Text that may follow any other. */
  predicate Opens<V>(p: Part<V>) {
    p.text != "" && p.text[0] != '\'' && !IsDigit(p.text[0])
  }

  /** Text that any other may follow. */
  predicate Ends<V>(p: Part<V>) {
    p.text != "" && p.text[|p.text| - 1] != '\'' && p.text[|p.text| - 1] != '?'
  }

  /** Wherever two pieces meet, one of them keeps the other apart; so does the first piece. */
  predicate Interleaved<V>(parts: seq<Part<V>>) {
    && (parts != [] ==> Opens(parts[0]))
    && forall i :: 0 < i < |parts| ==> Ends(parts[i - 1]) || Opens(parts[i])
  }

  lemma InterleavedConcat<V>(a: seq<Part<V>>, b: seq<Part<V>>)
    requires Interleaved(a) && Interleaved(b)
    ensures Interleaved(a + b)
    ensures AllWhole(a) && AllWhole(b) ==> AllWhole(a + b)
  {
    hide Whole, Opens, Ends;
  }

  lemma {:induction false} InterleavedIsAligned<V>(parts: seq<Part<V>>)
    requires Interleaved(parts) && AllWhole(parts)
    ensures Aligned(parts)
    decreases |parts|
  {
    hide Whole, TextOf;
    if parts != [] {
      var init, last := parts[..|parts| - 1], parts[|parts| - 1];
      InterleavedIsAligned(init);
      if !Opens(last) {
        assert Ends(init[|init| - 1]);
        LastText(init);
      }
    }
  }

  lemma LastText<V>(parts: seq<Part<V>>)
    requires parts != [] && Ends(parts[|parts| - 1])
    ensures var text := TextOf(parts); text != "" && text[|text| - 1] != '\'' && text[|text| - 1] != '?'
  {
  }

  /** Plain text without quotes, dollar signs or placeholders. */
  predicate Inert(s: string) {
    forall i :: 0 <= i < |s| ==> s[i] != '\'' && s[i] != '$' && s[i] != '?'
  }

  lemma {:induction false} InertIsWhole(s: string)
    requires Inert(s)
    ensures Closed(s) && Unglued(s) && Holes(s) == 0
    decreases |s|
  {
    if s != "" {
      InertIsWhole(s[1..]);
      assert Lex(s) == [Plain(s[0])] + Lex(s[1..]);
      assert Lex(s)[1..] == Lex(s[1..]);
    }
  }
}
