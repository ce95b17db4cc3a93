/** The statements the builder prints, as lists of pieces: literal SQL, user fragments, and the
    arguments that belong to each. `QueryBuilder` proves its string building against these
    lists; here they are shown to keep placeholders and arguments together. */
module Statements {
  import opened Wrappers
  import opened Conditions
  import opened SqlText
  import opened WhereClauses
  import opened Names
  import opened Decimal

  datatype Dialect = MySQL | Postgres

  type Piece = Part<Value>

  datatype Join = Join(typ: string, table: string, on: string)

  /** The parts of a SELECT, in the order of the builder's fields. */
  datatype Select = Select(
    table: string,
    selects: seq<Piece>,
    joins: seq<Join>,
    soft: Option<Predicate>,
    wheres: seq<Clause>,
    groupBys: seq<string>,
    havings: seq<Clause>,
    orderBys: seq<string>,
    limit: Option<int>,
    offset: Option<int>,
    lock: bool)

  function Lit(s: string): Piece {
    Part(s, [])
  }

  /** Pieces with a separator between them. */
  function Separated(items: seq<Piece>): seq<Piece> {
    if items == [] then []
    else if |items| == 1 then items
    else Separated(items[..|items| - 1]) + [Lit(", "), items[|items| - 1]]
  }

  function Lits(names: seq<string>): (ps: seq<Piece>)
    ensures |ps| == |names|
    ensures forall i :: 0 <= i < |ps| ==> ps[i] == Lit(names[i])
  {
    seq(|names|, i requires 0 <= i < |names| => Lit(names[i]))
  }

  function JoinPiece(j: Join): Piece {
    Lit(" " + j.typ + " JOIN " + j.table + " ON " + j.on)
  }

  function JoinPieces(joins: seq<Join>): (ps: seq<Piece>)
    ensures |ps| == |joins|
    ensures forall i :: 0 <= i < |ps| ==> ps[i] == JoinPiece(joins[i])
  {
    seq(|joins|, i requires 0 <= i < |joins| => JoinPiece(joins[i]))
  }

  function FromText(table: string): string {
    if table == "" then " FROM undefined_table " else " FROM " + table
  }

  function WherePieces(soft: Option<Predicate>, ws: seq<Clause>): seq<Piece> {
    if soft.None? && ws == [] then [] else [Lit(" WHERE ")] + Parts(WhereTokens(soft, ws))
  }

  function ListPieces(head: string, names: seq<string>): seq<Piece> {
    if names == [] then [] else [Lit(head)] + Separated(Lits(names))
  }

  function HavingPieces(hs: seq<Clause>): seq<Piece> {
    if hs == [] then [] else [Lit(" HAVING ")] + Parts(Joined(hs))
  }

  function NumberPieces(head: string, n: Option<int>): seq<Piece> {
    match n
    case None => []
    case Some(k) => [Part(head, [Number(k)])]
  }

  function HeadPieces(q: Select): seq<Piece> {
    [Lit("SELECT ")] + (if q.selects == [] then [Lit("*")] else Separated(q.selects))
    + [Lit(FromText(q.table))] + JoinPieces(q.joins)
  }

  function TailPieces(q: Select): seq<Piece> {
    ListPieces(" GROUP BY ", q.groupBys) + HavingPieces(q.havings) + ListPieces(" ORDER BY ", q.orderBys)
    + NumberPieces(" LIMIT ?", q.limit) + NumberPieces(" OFFSET ?", q.offset)
    + (if q.lock then [Lit(" FOR UPDATE")] else [])
  }

  function SelectPieces(q: Select): seq<Piece> {
    HeadPieces(q) + WherePieces(q.soft, q.wheres) + TailPieces(q)
  }

  /** One assignment per column, in key order. */
  function SetPieces(keys: seq<string>, m: map<string, Value>): (ps: seq<Piece>)
    requires forall k :: k in keys ==> k in m
    ensures |ps| == |keys|
    ensures forall i :: 0 <= i < |ps| ==> ps[i] == Part(keys[i] + " = ?", [m[keys[i]]])
  {
    seq(|keys|, i requires 0 <= i < |keys| => Part(keys[i] + " = ?", [m[keys[i]]]))
  }

  function UpdatePieces(table: string, keys: seq<string>, m: map<string, Value>, soft: Option<Predicate>,
                        ws: seq<Clause>): seq<Piece>
    requires forall k :: k in keys ==> k in m
  {
    if keys == [] then []
    else [Lit("UPDATE " + table + " SET ")] + Separated(SetPieces(keys, m)) + WherePieces(soft, ws)
  }

  function DeletePieces(table: string, soft: Option<Predicate>, ws: seq<Clause>): seq<Piece> {
    [Lit("DELETE FROM " + table)] + WherePieces(soft, ws)
  }

  /** The value of a column; a row without it gives Go's nil. */
  function Field(row: map<string, Value>, col: string): Value {
    if col in row then row[col] else Null
  }

  function Marks(cols: seq<string>, row: map<string, Value>): (ps: seq<Piece>)
    ensures |ps| == |cols|
    ensures forall i :: 0 <= i < |ps| ==> ps[i] == Part("?", [Field(row, cols[i])])
  {
    seq(|cols|, i requires 0 <= i < |cols| => Part("?", [Field(row, cols[i])]))
  }

  function RowPieces(cols: seq<string>, row: map<string, Value>): seq<Piece> {
    [Lit("(")] + Separated(Marks(cols, row)) + [Lit(")")]
  }

  function RowsPieces(cols: seq<string>, rows: seq<map<string, Value>>): seq<Piece> {
    if rows == [] then []
    else if |rows| == 1 then RowPieces(cols, rows[0])
    else RowsPieces(cols, rows[..|rows| - 1]) + [Lit(", ")] + RowPieces(cols, rows[|rows| - 1])
  }

  /** A single-row INSERT is the batch of one row. */
  function InsertPieces(table: string, cols: seq<string>, rows: seq<map<string, Value>>): seq<Piece> {
    if cols == [] || rows == [] then []
    else [Lit("INSERT INTO " + table + " (")] + Separated(Lits(cols)) + [Lit(") VALUES ")] + RowsPieces(cols, rows)
  }

  /** The INSERT with its upsert and RETURNING suffix. */
  function InsertWith(table: string, cols: seq<string>, rows: seq<map<string, Value>>, suffix: string): seq<Piece> {
    InsertPieces(table, cols, rows) + if cols == [] || rows == [] || suffix == "" then [] else [Lit(suffix)]
  }

  // ----- what the caller's fragments must satisfy

  predicate InertAll(names: seq<string>) {
    forall i :: 0 <= i < |names| ==> Inert(names[i])
  }

  predicate GoodClauses(ws: seq<Clause>) {
    AllSound(ws) && forall i :: 0 <= i < |ws| ==> WholeAtoms(ws[i].expr)
  }

  /** The soft-delete condition is bare text, so it brings no arguments. */
  predicate GoodSoft(soft: Option<Predicate>) {
    soft.Some? ==> soft.value.args == [] && WholePredicate(soft.value)
  }

  /** Fragments are closed and bring as many arguments as placeholders. */
  predicate Good(q: Select) {
    && AllWhole(q.selects) && AllWhole(JoinPieces(q.joins)) && Interleaved(JoinPieces(q.joins))
    && Inert(q.table) && InertAll(q.groupBys) && InertAll(q.orderBys)
    && GoodClauses(q.wheres) && GoodClauses(q.havings) && GoodSoft(q.soft)
  }

  /** Folding the scope in keeps the clauses good. */
  lemma FoldedGood(ws: seq<Clause>, keys: seq<string>, conds: map<string, Value>)
    requires GoodClauses(ws) && forall k :: k in keys ==> k in conds && ValidIdent(k)
    ensures GoodClauses(Folded(ws, keys, conds))
  {
    hide WholePredicate, Parse, Joined, ScopeTokens, ScopeArgs, ClauseArgs;
    if keys != [] {
      FoldedReads(ws, keys, conds);
      ScopeTokensWhole(keys, conds);
      JoinedWhole(ws);
    }
  }

  lemma {:induction false} ScopeTokensWhole(keys: seq<string>, conds: map<string, Value>)
    requires forall k :: k in keys ==> k in conds && ValidIdent(k)
    ensures WholeAtoms(ScopeTokens(keys, conds))
    decreases |keys|
  {
    hide WholePredicate;
    if keys != [] {
      var init, k := keys[..|keys| - 1], keys[|keys| - 1];
      ScopeTokensWhole(init, conds);
      ScopePredicateWhole(k, conds[k]);
    }
  }

  lemma ScopePredicateWhole(k: string, v: Value)
    requires ValidIdent(k)
    ensures WholePredicate(ScopePredicate(k, v))
  {
    hide SqlText.Whole;
    IdentIsInert(k);
    assert k + " = " + "?" == k + " = ?";
    MarkedIsGood(k + " = ", v);
  }

  // ----- alignment

  lemma LitIsGood(s: string)
    requires Inert(s)
    ensures Whole(Lit(s)) && (s != "" ==> Ends(Lit(s))) && (s != "" && !IsDigit(s[0]) ==> Opens(Lit(s)))
  {
    hide Whole, Closed, Holes;
    InertIsWhole(s);
    WholeMeans(Lit(s));
  }

  lemma {:induction false} SeparatedGood(sep: Piece, items: seq<Piece>)
    requires Opens(sep) && Ends(sep) && AllWhole(items)
    ensures Interleaved([sep] + Separated(items)) && AllWhole(Separated(items))
    decreases |items|
  {
    hide Whole, Opens, Ends;
    if |items| > 1 {
      var init, last := items[..|items| - 1], items[|items| - 1];
      SeparatedGood(sep, init);
      LitIsGood(", ");
      assert [sep] + Separated(items) == [sep] + Separated(init) + [Lit(", "), last];
      InterleavedConcat([sep] + Separated(init), [Lit(", "), last]);
    }
  }

  lemma InertLits(names: seq<string>)
    requires InertAll(names)
    ensures AllWhole(Lits(names))
  {
    hide Whole;
    forall i | 0 <= i < |names|
      ensures Whole(Lits(names)[i])
    {
      LitIsGood(names[i]);
    }
  }

  lemma ListGood(head: string, names: seq<string>)
    requires Inert(head) && head != "" && !IsDigit(head[0]) && InertAll(names)
    ensures Interleaved(ListPieces(head, names)) && AllWhole(ListPieces(head, names))
  {
    hide Whole, Opens, Ends;
    LitIsGood(head);
    InertLits(names);
    SeparatedGood(Lit(head), Lits(names));
  }

  lemma {:induction false} JoinedWhole(ws: seq<Clause>)
    requires GoodClauses(ws)
    ensures WholeAtoms(Joined(ws)) && WholeAtoms(Anded(ws))
    decreases |ws|
  {
    hide WholePredicate, Parse;
    if ws != [] {
      JoinedWhole(ws[..|ws| - 1]);
    }
  }

  lemma WhereTokensGood(soft: Option<Predicate>, ws: seq<Clause>)
    requires GoodClauses(ws) && GoodSoft(soft) && (soft.Some? || ws != [])
    ensures Spaced(WhereTokens(soft, ws)) && WholeAtoms(WhereTokens(soft, ws))
  {
    hide WholePredicate, Parse, Joined, Anded;
    WhereReads(soft, ws);
    ParseMeansFlat(WhereTokens(soft, ws), WhereTree(soft, ws));
    CondSpaced(WhereTree(soft, ws));
    JoinedWhole(ws);
  }

  lemma TokensGood(head: string, toks: seq<Tok>)
    requires Inert(head) && head != "" && !IsDigit(head[0]) && Spaced(toks) && WholeAtoms(toks)
    ensures Interleaved([Lit(head)] + Parts(toks)) && AllWhole([Lit(head)] + Parts(toks))
  {
    hide Whole, Opens, Ends;
    LitIsGood(head);
    TokensInterleave(Lit(head), toks);
    TokensWhole(toks);
  }

  lemma WhereGood(soft: Option<Predicate>, ws: seq<Clause>)
    requires GoodClauses(ws) && GoodSoft(soft)
    ensures Interleaved(WherePieces(soft, ws)) && AllWhole(WherePieces(soft, ws))
  {
    if soft.Some? || ws != [] {
      hide WhereTokens, Whole, Opens, Ends, Parse;
      WhereTokensGood(soft, ws);
      TokensGood(" WHERE ", WhereTokens(soft, ws));
    }
  }

  lemma HavingGood(hs: seq<Clause>)
    requires GoodClauses(hs)
    ensures Interleaved(HavingPieces(hs)) && AllWhole(HavingPieces(hs))
  {
    hide Joined, Whole, Opens, Ends, Parse;
    if hs != [] {
      JoinedReads(hs);
      CondSpaced(UserTree(hs));
      JoinedWhole(hs);
      TokensGood(" HAVING ", Joined(hs));
    }
  }

  /** Text ending in a single `?`. */
  lemma MarkedIsGood(head: string, v: Value)
    requires Inert(head)
    ensures Whole(Part(head + "?", [v])) && (head != "" && !IsDigit(head[0]) ==> Opens(Part(head + "?", [v])))
  {
    InertIsWhole(head);
    assert Lex("?") == [Hole] + Lex("");
    assert Lex("?")[1..] == Lex("") == [];
    ClosedConcat(head, "?");
  }

  lemma NumberGood(head: string, n: Option<int>)
    requires Inert(head) && head != "" && !IsDigit(head[0])
    ensures Interleaved(NumberPieces(head + "?", n)) && AllWhole(NumberPieces(head + "?", n))
  {
    hide Whole, Opens, Ends;
    if n.Some? {
      MarkedIsGood(head, Number(n.value));
    }
  }

  predicate Ready(ps: seq<Piece>) {
    Interleaved(ps) && AllWhole(ps)
  }

  lemma ReadyConcat(a: seq<Piece>, b: seq<Piece>)
    requires Ready(a) && Ready(b)
    ensures Ready(a + b)
  {
    InterleavedConcat(a, b);
  }

  lemma HeadGood(q: Select)
    requires Good(q)
    ensures Ready(HeadPieces(q))
  {
    hide Whole, Opens, Ends, Separated, Parse;
    LitIsGood("SELECT ");
    LitIsGood("*");
    LitIsGood(FromText(q.table));
    var cols := if q.selects == [] then [Lit("*")] else Separated(q.selects);
    SeparatedGood(Lit("SELECT "), q.selects);
    assert Ready([Lit("SELECT ")] + cols);
    ReadyConcat([Lit("SELECT ")] + cols, [Lit(FromText(q.table))]);
    ReadyConcat([Lit("SELECT ")] + cols + [Lit(FromText(q.table))], JoinPieces(q.joins));
  }

  lemma TailGood(q: Select)
    requires Good(q)
    ensures Ready(TailPieces(q))
  {
    hide Whole, Opens, Ends, ListPieces, HavingPieces, NumberPieces, Parse;
    var group, order := ListPieces(" GROUP BY ", q.groupBys), ListPieces(" ORDER BY ", q.orderBys);
    var having := HavingPieces(q.havings);
    var limit, offset := NumberPieces(" LIMIT ?", q.limit), NumberPieces(" OFFSET ?", q.offset);
    ListGood(" GROUP BY ", q.groupBys);
    HavingGood(q.havings);
    ListGood(" ORDER BY ", q.orderBys);
    assert " LIMIT " + "?" == " LIMIT ?" && " OFFSET " + "?" == " OFFSET ?";
    NumberGood(" LIMIT ", q.limit);
    NumberGood(" OFFSET ", q.offset);
    LitIsGood(" FOR UPDATE");
    ReadyConcat(group, having);
    ReadyConcat(group + having, order);
    ReadyConcat(group + having + order, limit);
    ReadyConcat(group + having + order + limit, offset);
    ReadyConcat(group + having + order + limit + offset, if q.lock then [Lit(" FOR UPDATE")] else []);
  }

  /** In every SELECT of sound fragments the k-th argument belongs to the k-th placeholder. */
  lemma SelectAligned(q: Select)
    requires Good(q)
    ensures Aligned(SelectPieces(q))
  {
    hide HeadPieces, TailPieces, WherePieces, Whole, Opens, Ends, Aligned, Parse;
    HeadGood(q);
    TailGood(q);
    WhereGood(q.soft, q.wheres);
    ReadyConcat(HeadPieces(q), WherePieces(q.soft, q.wheres));
    ReadyConcat(HeadPieces(q) + WherePieces(q.soft, q.wheres), TailPieces(q));
    InterleavedIsAligned(SelectPieces(q));
  }

  lemma IdentIsInert(s: string)
    requires ValidIdent(s)
    ensures Inert(s) && s != ""
  {
  }

  lemma SetGood(keys: seq<string>, m: map<string, Value>)
    requires forall k :: k in keys ==> k in m && ValidIdent(k)
    ensures AllWhole(SetPieces(keys, m))
  {
    hide Whole, Opens, Ends;
    forall i | 0 <= i < |keys|
      ensures Whole(SetPieces(keys, m)[i])
    {
      IdentIsInert(keys[i]);
      assert keys[i] + " = " + "?" == keys[i] + " = ?";
      MarkedIsGood(keys[i] + " = ", m[keys[i]]);
    }
  }

  lemma UpdateAligned(table: string, keys: seq<string>, m: map<string, Value>, soft: Option<Predicate>, ws: seq<Clause>)
    requires Inert(table) && GoodClauses(ws) && GoodSoft(soft)
    requires forall k :: k in keys ==> k in m && ValidIdent(k)
    ensures Aligned(UpdatePieces(table, keys, m, soft, ws))
  {
    hide WherePieces, Whole, Opens, Ends, Aligned, Separated, Parse;
    if keys != [] {
      var head := Lit("UPDATE " + table + " SET ");
      LitIsGood(head.text);
      SetGood(keys, m);
      SeparatedGood(head, SetPieces(keys, m));
      WhereGood(soft, ws);
      assert Ready([head] + Separated(SetPieces(keys, m)));
      ReadyConcat([head] + Separated(SetPieces(keys, m)), WherePieces(soft, ws));
    } else {
      assert Ready([]);
    }
    InterleavedIsAligned(UpdatePieces(table, keys, m, soft, ws));
  }

  lemma DeleteAligned(table: string, soft: Option<Predicate>, ws: seq<Clause>)
    requires Inert(table) && GoodClauses(ws) && GoodSoft(soft)
    ensures Aligned(DeletePieces(table, soft, ws))
  {
    hide WherePieces, Whole, Opens, Ends, Aligned, Parse;
    LitIsGood("DELETE FROM " + table);
    WhereGood(soft, ws);
    ReadyConcat([Lit("DELETE FROM " + table)], WherePieces(soft, ws));
    InterleavedIsAligned(DeletePieces(table, soft, ws));
  }

  lemma RowGood(cols: seq<string>, row: map<string, Value>)
    ensures Ready(RowPieces(cols, row))
  {
    hide Whole, Opens, Ends, Separated;
    LitIsGood("(");
    LitIsGood(")");
    forall i | 0 <= i < |cols|
      ensures Whole(Marks(cols, row)[i])
    {
      assert "" + "?" == "?";
      MarkedIsGood("", Field(row, cols[i]));
    }
    SeparatedGood(Lit("("), Marks(cols, row));
    assert Ready([Lit("(")] + Separated(Marks(cols, row)));
    ReadyConcat([Lit("(")] + Separated(Marks(cols, row)), [Lit(")")]);
  }

  lemma {:induction false} RowsGood(cols: seq<string>, rows: seq<map<string, Value>>)
    ensures Ready(RowsPieces(cols, rows))
    decreases |rows|
  {
    hide Whole, Opens, Ends, RowPieces;
    if rows != [] {
      var init, last := rows[..|rows| - 1], rows[|rows| - 1];
      RowsGood(cols, init);
      RowGood(cols, last);
      LitIsGood(", ");
      ReadyConcat(RowsPieces(cols, init), [Lit(", ")]);
      ReadyConcat(RowsPieces(cols, init) + [Lit(", ")], RowPieces(cols, last));
    }
  }

  /** A single or batch INSERT, whatever text without placeholders ends it. */
  lemma InsertAligned(table: string, cols: seq<string>, rows: seq<map<string, Value>>, suffix: string)
    requires Inert(table) && (forall c :: c in cols ==> ValidIdent(c)) && Inert(suffix)
    requires suffix != "" ==> suffix[0] == ' '
    ensures Aligned(InsertWith(table, cols, rows, suffix))
  {
    hide InsertPieces, Whole, Opens, Ends, Aligned;
    InsertReady(table, cols, rows);
    LitIsGood(suffix);
    var end := if cols == [] || rows == [] || suffix == "" then [] else [Lit(suffix)];
    ReadyConcat(InsertPieces(table, cols, rows), end);
    InterleavedIsAligned(InsertWith(table, cols, rows, suffix));
  }

  lemma InsertReady(table: string, cols: seq<string>, rows: seq<map<string, Value>>)
    requires Inert(table) && forall c :: c in cols ==> ValidIdent(c)
    ensures Ready(InsertPieces(table, cols, rows))
  {
    hide Whole, Opens, Ends, RowsPieces, Separated;
    if cols != [] && rows != [] {
      var head, mid := Lit("INSERT INTO " + table + " ("), Lit(") VALUES ");
      LitIsGood(head.text);
      LitIsGood(mid.text);
      forall i | 0 <= i < |cols|
        ensures Inert(cols[i])
      {
        IdentIsInert(cols[i]);
      }
      InertLits(cols);
      SeparatedGood(head, Lits(cols));
      RowsGood(cols, rows);
      assert Ready([head] + Separated(Lits(cols)));
      ReadyConcat([head] + Separated(Lits(cols)), [mid]);
      ReadyConcat([head] + Separated(Lits(cols)) + [mid], RowsPieces(cols, rows));
    } else {
      assert Ready([]);
    }
  }

  // ----- batch arguments by row and column

  lemma {:induction false} SeparatedArgs(items: seq<Piece>, n: nat)
    requires forall i :: 0 <= i < |items| ==> |items[i].args| == 1
    ensures |ArgsOf(Separated(items))| == |items|
    ensures n < |items| ==> ArgsOf(Separated(items))[n] == items[n].args[0]
    decreases |items|
  {
    if |items| == 1 {
      assert items[..0] == [];
      assert ArgsOf(items) == [] + items[0].args;
    } else if |items| > 1 {
      var init, last := items[..|items| - 1], items[|items| - 1];
      SeparatedArgs(init, if n < |init| then n else 0);
      PartsSnoc(Separated(init), Lit(", "));
      PartsSnoc(Separated(init) + [Lit(", ")], last);
      assert Separated(items) == Separated(init) + [Lit(", ")] + [last];
    }
  }

  lemma RowArgs(cols: seq<string>, row: map<string, Value>, c: nat)
    ensures |ArgsOf(RowPieces(cols, row))| == |cols|
    ensures c < |cols| ==> ArgsOf(RowPieces(cols, row))[c] == Field(row, cols[c])
  {
    var marks := Marks(cols, row);
    SeparatedArgs(marks, c);
    PartsConcat([Lit("(")] + Separated(marks), [Lit(")")]);
    PartsConcat([Lit("(")], Separated(marks));
    OneLit("(");
    OneLit(")");
  }

  lemma OneLit(s: string)
    ensures ArgsOf([Lit(s)]) == [] && TextOf([Lit(s)]) == s
  {
    assert [Lit(s)][..0] == [];
    assert "" + s == s;
  }

  /** Argument r*|cols|+c of a batch insert is column c of row r. */
  lemma {:induction false} BatchArgument(cols: seq<string>, rows: seq<map<string, Value>>, r: nat, c: nat)
    requires r < |rows| && c < |cols|
    ensures |ArgsOf(RowsPieces(cols, rows))| == |rows| * |cols|
    ensures r * |cols| + c < |rows| * |cols|
    ensures ArgsOf(RowsPieces(cols, rows))[r * |cols| + c] == Field(rows[r], cols[c])
    decreases |rows|
  {
    hide RowsPieces, RowPieces, Field, ArgsOf;
    var init, last := rows[..|rows| - 1], rows[|rows| - 1];
    RowArgs(cols, last, c);
    RowsStep(cols, rows);
    RowMajor(r, |init|, |cols|, c);
    if |rows| > 1 {
      BatchArgument(cols, init, if r < |init| then r else 0, c);
    }
  }

  lemma RowsStep(cols: seq<string>, rows: seq<map<string, Value>>)
    requires rows != []
    ensures ArgsOf(RowsPieces(cols, rows)) ==
            ArgsOf(RowsPieces(cols, rows[..|rows| - 1])) + ArgsOf(RowPieces(cols, rows[|rows| - 1]))
    ensures ArgsOf(RowsPieces(cols, [])) == []
  {
    hide RowPieces, ArgsOf, TextOf, Aligned;
    var init, last := rows[..|rows| - 1], rows[|rows| - 1];
    NoPieces();
    if |rows| == 1 {
      assert init == [];
      assert [] + ArgsOf(RowPieces(cols, last)) == ArgsOf(RowPieces(cols, last));
    } else {
      PartsConcat(RowsPieces(cols, init) + [Lit(", ")], RowPieces(cols, last));
      PartsSnoc(RowsPieces(cols, init), Lit(", "));
    }
  }

  lemma NoPieces()
    ensures ArgsOf<Value>([]) == [] && TextOf<Value>([]) == ""
  {
  }

  lemma RowMajor(r: nat, n: nat, w: nat, c: nat)
    requires c < w && r <= n
    ensures (n + 1) * w == n * w + w
    ensures r < n ==> r * w + c < n * w
    ensures r == n ==> r * w + c == n * w + c < (n + 1) * w
  {
    if r < n {
      assert (r + 1) * w <= n * w;
    }
  }
}
