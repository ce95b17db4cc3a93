/** The texts of statements, section by section: what the builder's loops append, related to the
    piece lists of `Statements`. */
module StatementText {
  import opened Wrappers
  import opened Conditions
  import opened Names
  import opened SqlText
  import opened Statements
  import opened WhereClauses

  /** strings.Join(names, ", ") */
  function CommaJoin(names: seq<string>): string {
    if names == [] then ""
    else if |names| == 1 then names[0]
    else CommaJoin(names[..|names| - 1]) + ", " + names[|names| - 1]
  }

  // ----- the suffixes of an INSERT

  function Assignment(d: Dialect, col: string): string {
    if d == MySQL then col + " = VALUES(" + col + ")" else col + " = EXCLUDED." + col
  }

  /** One assignment for each valid column name. */
  function Assignments(d: Dialect, cols: seq<string>): seq<string> {
    if cols == [] then []
    else
      var init, last := cols[..|cols| - 1], cols[|cols| - 1];
      Assignments(d, init) + if ValidIdent(last) then [Assignment(d, last)] else []
  }

  function UpsertText(d: Dialect, cols: seq<string>, keys: seq<string>): string {
    var sets := CommaJoin(Assignments(d, cols));
    if Assignments(d, cols) == [] then ""
    else if d == MySQL then " ON DUPLICATE KEY UPDATE " + sets
    else " ON CONFLICT (" + (if keys == [] then "id" else CommaJoin(keys)) + ") DO UPDATE SET " + sets
  }

  function ReturningText(d: Dialect, col: string): string {
    if d == MySQL || col == "" then "" else " RETURNING " + if ValidIdent(col) then col else ""
  }

  lemma {:induction false} CommaJoinInert(names: seq<string>)
    requires InertAll(names)
    ensures Inert(CommaJoin(names))
    decreases |names|
  {
    if |names| > 1 {
      CommaJoinInert(names[..|names| - 1]);
    }
  }

  lemma {:induction false} AssignmentsInert(d: Dialect, cols: seq<string>)
    ensures InertAll(Assignments(d, cols))
    decreases |cols|
  {
    if cols != [] {
      AssignmentsInert(d, cols[..|cols| - 1]);
      var last := cols[|cols| - 1];
      if ValidIdent(last) {
        IdentIsInert(last);
        assert Inert(" = VALUES(") && Inert(")") && Inert(" = EXCLUDED.");
      }
    }
  }

  lemma InertConcat(a: string, b: string)
    requires Inert(a) && Inert(b)
    ensures Inert(a + b)
  {
  }

  /** The suffixes hold neither placeholders nor quotes. */
  lemma UpsertInert(d: Dialect, cols: seq<string>, keys: seq<string>)
    requires InertAll(keys)
    ensures var text := UpsertText(d, cols, keys); Inert(text) && (text != "" ==> text[0] == ' ')
  {
    hide CommaJoin, Assignments;
    var sets := CommaJoin(Assignments(d, cols));
    var key := if keys == [] then "id" else CommaJoin(keys);
    AssignmentsInert(d, cols);
    CommaJoinInert(Assignments(d, cols));
    CommaJoinInert(keys);
    InertConcat(" ON DUPLICATE KEY UPDATE ", sets);
    InertConcat(" ON CONFLICT (", key);
    InertConcat(" ON CONFLICT (" + key, ") DO UPDATE SET ");
    InertConcat(" ON CONFLICT (" + key + ") DO UPDATE SET ", sets);
  }

  lemma ReturningInert(d: Dialect, col: string)
    ensures var text := ReturningText(d, col); Inert(text) && (text != "" ==> text[0] == ' ')
  {
    if ValidIdent(col) {
      IdentIsInert(col);
      InertConcat(" RETURNING ", col);
    }
  }

  // ----- lists and clauses

  lemma {:induction false} CommaJoinIsSeparated(names: seq<string>)
    ensures CommaJoin(names) == TextOf(Separated(Lits(names))) && ArgsOf(Separated(Lits(names))) == []
    decreases |names|
  {
    hide Aligned;
    if names == [] {
      NoPieces();
    } else if |names| == 1 {
      OneLit(names[0]);
      assert Lits(names) == [Lit(names[0])];
    } else {
      var init, last := names[..|names| - 1], names[|names| - 1];
      CommaJoinIsSeparated(init);
      assert Lits(names)[..|names| - 1] == Lits(init);
      SeparatedStep(Lits(names));
      assert TextOf(Separated(Lits(init))) + ", " + last == CommaJoin(names);
    }
  }

  /** One more item in a separated list. */
  lemma SeparatedStep(items: seq<Piece>)
    requires |items| > 0
    ensures var init, last := items[..|items| - 1], items[|items| - 1];
            && TextOf(Separated(items)) == TextOf(Separated(init)) + (if init == [] then "" else ", ") + last.text
            && ArgsOf(Separated(items)) == ArgsOf(Separated(init)) + last.args
  {
    hide Aligned;
    var init, last := items[..|items| - 1], items[|items| - 1];
    NoPieces();
    if init == [] {
      assert items == [] + [last];
      PartsSnoc([], last);
      assert "" + "" + last.text == "" + last.text;
    } else {
      PartsSnoc(Separated(init), Lit(", "));
      PartsSnoc(Separated(init) + [Lit(", ")], last);
      assert Separated(items) == Separated(init) + [Lit(", ")] + [last];
      assert ArgsOf(Separated(init)) + [] == ArgsOf(Separated(init));
    }
  }

  lemma JoinedStep(ws: seq<Clause>, i: nat)
    requires i < |ws|
    ensures Text(Joined(ws[..i + 1])) ==
            Text(Joined(ws[..i])) + (if i > 0 then Spelling(Tokens(ws[i].boolean)) else "") + Text(ws[i].expr)
    ensures Text(Anded(ws[..i + 1])) == Text(Anded(ws[..i])) + " AND " + Text(ws[i].expr)
    ensures ClauseArgs(ws[..i + 1]) == ClauseArgs(ws[..i]) + ws[i].args
  {
    hide Text, Args;
    var init := ws[..i];
    assert ws[..i + 1][..i] == init;
    TextConcat(Anded(init) + [AndTok], ws[i].expr);
    TextConcat(Anded(init), [AndTok]);
    TextOfOne(AndTok);
    if i > 0 {
      var t := Tokens(ws[i].boolean);
      TextConcat(Joined(init) + [t], ws[i].expr);
      TextConcat(Joined(init), [t]);
      TextOfOne(t);
    } else {
      NoTokens();
      assert ws[..1] == [ws[0]];
    }
  }

  /** The connective as the clause stores it. */
  function Word(b: Connective): string {
    if b == And then "AND" else "OR"
  }

  lemma JoinedAfter(sql: string, vals: seq<Value>, ws: seq<Clause>, i: nat)
    requires i < |ws|
    ensures var before := sql + Text(Joined(ws[..i]));
            sql + Text(Joined(ws[..i + 1])) ==
            (if i > 0 then before + (" " + Word(ws[i].boolean) + " ") else before) + Text(ws[i].expr)
    ensures vals + ClauseArgs(ws[..i + 1]) == vals + ClauseArgs(ws[..i]) + ws[i].args
  {
    hide Text, Joined, ClauseArgs, Anded;
    JoinedStep(ws, i);
    var glue := if i > 0 then " " + Word(ws[i].boolean) + " " else "";
    assert i > 0 ==> Spelling(Tokens(ws[i].boolean)) == glue;
    Regroup(sql, Text(Joined(ws[..i])), glue, Text(ws[i].expr), [], [], []);
    Regroup(vals, ClauseArgs(ws[..i]), ws[i].args, [], [], [], []);
    assert i == 0 ==> sql + Text(Joined(ws[..i])) + glue == sql + Text(Joined(ws[..i]));
  }

  function ColumnPieces(selects: seq<Piece>): seq<Piece> {
    if selects == [] then [Lit("*")] else Separated(selects)
  }

  /** The fragments' own argument lists can be trusted. */
  predicate ArgsKnown(ws: seq<Clause>, hs: seq<Clause>, soft: Option<Predicate>) {
    AllSound(ws) && AllSound(hs) && (soft.Some? ==> soft.value.args == [])
  }

  function NumberArgs(n: Option<int>): seq<Value> {
    match n
    case None => []
    case Some(k) => [Number(k)]
  }

  function TailArgs(q: Select): seq<Value> {
    ClauseArgs(q.havings) + NumberArgs(q.limit) + NumberArgs(q.offset)
  }

  lemma NoItems(items: seq<Piece>)
    requires items == []
    ensures TextOf(Separated(items)) == "" && SqlText.ArgsOf(Separated(items)) == []
  {
  }

  lemma NoRows(cols: seq<string>, rows: seq<map<string, Value>>)
    requires rows == []
    ensures TextOf(RowsPieces(cols, rows)) == "" && SqlText.ArgsOf(RowsPieces(cols, rows)) == []
  {
  }

  lemma {:induction false} SeparatedTexts(items: seq<Piece>, texts: seq<string>)
    requires |items| == |texts| && forall i :: 0 <= i < |items| ==> items[i].text == texts[i]
    ensures CommaJoin(texts) == TextOf(Separated(items))
    decreases |items|
  {
    hide TextOf, SqlText.ArgsOf, Separated;
    if items == [] {
      NoItems(items);
    } else {
      SeparatedTexts(items[..|items| - 1], texts[..|texts| - 1]);
      SeparatedStep(items);
    }
  }

  lemma WhereArguments(soft: Option<Predicate>, ws: seq<Clause>)
    requires ArgsKnown(ws, [], soft)
    ensures SqlText.ArgsOf(WherePieces(soft, ws)) == ClauseArgs(ws)
  {
    hide TextOf, SqlText.ArgsOf, Aligned, Args, ClauseArgs, Text, Parse;
    NoPieces();
    if soft.None? && ws == [] {
      NoClauses(ws);
    } else {
      PartsConcat([Lit(" WHERE ")], Parts(WhereTokens(soft, ws)));
      OneLit(" WHERE ");
      TextMeans(WhereTokens(soft, ws));
      WhereArgs(soft, ws);
    }
  }

  /** The text of a SELECT, section by section. */
  lemma SelectSections(q: Select)
    ensures TextOf(SelectPieces(q)) ==
            "SELECT " + TextOf(ColumnPieces(q.selects)) + FromText(q.table) + TextOf(JoinPieces(q.joins))
            + TextOf(WherePieces(q.soft, q.wheres)) + TextOf(TailPieces(q))
    ensures ArgsKnown(q.wheres, q.havings, q.soft) && SqlText.ArgsOf(JoinPieces(q.joins)) == [] ==>
              SqlText.ArgsOf(SelectPieces(q)) ==
              SqlText.ArgsOf(ColumnPieces(q.selects)) + ClauseArgs(q.wheres) + TailArgs(q)
  {
    hide TextOf, SqlText.ArgsOf, Aligned, TailPieces, WherePieces, JoinPieces, ColumnPieces, FromText, TailArgs,
      ClauseArgs, ArgsKnown;
    var cols, from, js := ColumnPieces(q.selects), [Lit(FromText(q.table))], JoinPieces(q.joins);
    HeadMeans(q);
    OneLit("SELECT ");
    OneLit(FromText(q.table));
    PartsConcat([Lit("SELECT ")], cols);
    PartsConcat([Lit("SELECT ")] + cols, from);
    PartsConcat([Lit("SELECT ")] + cols + from, js);
    PartsConcat(HeadPieces(q), WherePieces(q.soft, q.wheres));
    PartsConcat(HeadPieces(q) + WherePieces(q.soft, q.wheres), TailPieces(q));
    if ArgsKnown(q.wheres, q.havings, q.soft) {
      KnownParts(q.wheres, q.havings, q.soft);
      TailText(q);
      WhereArguments(q.soft, q.wheres);
      var none: seq<Value> := [];
      Regroup(none, none, SqlText.ArgsOf(cols), none, none, none, none);
      assert SqlText.ArgsOf(cols) + none == SqlText.ArgsOf(cols);
    }
  }

  lemma HeadMeans(q: Select)
    ensures HeadPieces(q) == [Lit("SELECT ")] + ColumnPieces(q.selects) + [Lit(FromText(q.table))] + JoinPieces(q.joins)
  {
  }

  lemma KnownParts(ws: seq<Clause>, hs: seq<Clause>, soft: Option<Predicate>)
    requires ArgsKnown(ws, hs, soft)
    ensures AllSound(ws) && AllSound(hs) && ArgsKnown(ws, [], soft)
  {
  }

  function ListText(head: string, names: seq<string>): string {
    if names == [] then "" else head + CommaJoin(names)
  }

  function NumberText(head: string, n: Option<int>): string {
    if n.None? then "" else head
  }

  function HavingText(hs: seq<Clause>): string {
    if hs == [] then "" else " HAVING " + Text(Joined(hs))
  }

  function LockText(lock: bool): string {
    if lock then " FOR UPDATE" else ""
  }

  /** Appending a concatenation is appending its parts in turn. */
  lemma Regroup<T>(z: seq<T>, a: seq<T>, b: seq<T>, c: seq<T>, d: seq<T>, e: seq<T>, f: seq<T>)
    ensures z + (a + b + c + d + e + f) == z + a + b + c + d + e + f
    ensures z + (a + b + c + d + e) == z + a + b + c + d + e
    ensures z + (a + b + c + d) == z + a + b + c + d
    ensures z + (a + b + c) == z + a + b + c
    ensures z + (a + b) == z + a + b
    ensures a == [] ==> z + a == z && a + b == b
  {
  }

  lemma ListSection(head: string, names: seq<string>)
    ensures TextOf(ListPieces(head, names)) == ListText(head, names) && SqlText.ArgsOf(ListPieces(head, names)) == []
  {
    hide TextOf, SqlText.ArgsOf, Aligned, Separated;
    NoPieces();
    OneLit(head);
    CommaJoinIsSeparated(names);
    PartsConcat([Lit(head)], Separated(Lits(names)));
  }

  lemma NumberSection(head: string, n: Option<int>)
    ensures TextOf(NumberPieces(head, n)) == NumberText(head, n)
    ensures SqlText.ArgsOf(NumberPieces(head, n)) == NumberArgs(n)
  {
    hide TextOf, SqlText.ArgsOf, Aligned;
    NoPieces();
    if n.Some? {
      var p := Part(head, [Number(n.value)]);
      PartsSnoc([], p);
      assert [] + [p] == [p];
      assert "" + head == head && [] + p.args == p.args;
    }
  }

  lemma HavingSection(hs: seq<Clause>)
    ensures TextOf(HavingPieces(hs)) == HavingText(hs)
    ensures AllSound(hs) ==> SqlText.ArgsOf(HavingPieces(hs)) == ClauseArgs(hs)
  {
    hide TextOf, SqlText.ArgsOf, Aligned, Args, Text, Joined, ClauseArgs, Parse;
    NoPieces();
    if hs == [] {
      NoClauses(hs);
    } else {
      PartsConcat([Lit(" HAVING ")], Parts(Joined(hs)));
      OneLit(" HAVING ");
      TextMeans(Joined(hs));
      if AllSound(hs) { JoinedArgs(hs); }
    }
  }

  lemma TailText(q: Select)
    ensures TextOf(TailPieces(q)) ==
            ListText(" GROUP BY ", q.groupBys)
            + HavingText(q.havings)
            + ListText(" ORDER BY ", q.orderBys)
            + NumberText(" LIMIT ?", q.limit) + NumberText(" OFFSET ?", q.offset)
            + LockText(q.lock)
    ensures AllSound(q.havings) ==> SqlText.ArgsOf(TailPieces(q)) == TailArgs(q)
  {
    hide TextOf, SqlText.ArgsOf, Aligned, ListPieces, HavingPieces, NumberPieces, HavingText, ClauseArgs, ListText,
      NumberText, NumberArgs, Parse;
    var group, order := ListPieces(" GROUP BY ", q.groupBys), ListPieces(" ORDER BY ", q.orderBys);
    var having := HavingPieces(q.havings);
    var limit, offset := NumberPieces(" LIMIT ?", q.limit), NumberPieces(" OFFSET ?", q.offset);
    var lock := if q.lock then [Lit(" FOR UPDATE")] else [];
    NoPieces();
    OneLit(" FOR UPDATE");
    ListSection(" GROUP BY ", q.groupBys);
    HavingSection(q.havings);
    ListSection(" ORDER BY ", q.orderBys);
    NumberSection(" LIMIT ?", q.limit);
    NumberSection(" OFFSET ?", q.offset);
    PartsConcat(group, having);
    PartsConcat(group + having, order);
    PartsConcat(group + having + order, limit);
    PartsConcat(group + having + order + limit, offset);
    PartsConcat(group + having + order + limit + offset, lock);
  }

  lemma UpdateSections(table: string, keys: seq<string>, m: map<string, Value>, soft: Option<Predicate>,
                       ws: seq<Clause>)
    requires forall k :: k in keys ==> k in m
    ensures keys == [] ==>
              var pieces := UpdatePieces(table, keys, m, soft, ws);
              TextOf(pieces) == "" && SqlText.ArgsOf(pieces) == []
    ensures keys != [] ==>
              TextOf(UpdatePieces(table, keys, m, soft, ws)) ==
              "UPDATE " + table + " SET " + TextOf(Separated(SetPieces(keys, m))) + TextOf(WherePieces(soft, ws))
    ensures keys != [] && ArgsKnown(ws, [], soft) ==>
              SqlText.ArgsOf(UpdatePieces(table, keys, m, soft, ws)) ==
              SqlText.ArgsOf(Separated(SetPieces(keys, m))) + ClauseArgs(ws)
  {
    hide TextOf, SqlText.ArgsOf, Aligned, WherePieces, Separated, SetPieces, Parse;
    NoPieces();
    var head, sets := Lit("UPDATE " + table + " SET "), Separated(SetPieces(keys, m));
    OneLit(head.text);
    PartsConcat([head], sets);
    PartsConcat([head] + sets, WherePieces(soft, ws));
    if ArgsKnown(ws, [], soft) { WhereArguments(soft, ws); }
  }

  lemma InsertSections(table: string, cols: seq<string>, rows: seq<map<string, Value>>)
    ensures cols == [] || rows == [] ==>
              var pieces := InsertPieces(table, cols, rows);
              TextOf(pieces) == "" && SqlText.ArgsOf(pieces) == []
    ensures cols != [] && rows != [] ==>
              && TextOf(InsertPieces(table, cols, rows)) ==
                 "INSERT INTO " + table + " (" + CommaJoin(cols) + ") VALUES " + TextOf(RowsPieces(cols, rows))
              && SqlText.ArgsOf(InsertPieces(table, cols, rows)) == SqlText.ArgsOf(RowsPieces(cols, rows))
  {
    hide TextOf, SqlText.ArgsOf, Aligned, Separated, RowsPieces;
    NoPieces();
    var head, mid, list := Lit("INSERT INTO " + table + " ("), Lit(") VALUES "), Separated(Lits(cols));
    OneLit(head.text);
    OneLit(mid.text);
    CommaJoinIsSeparated(cols);
    PartsConcat([head], list);
    PartsConcat([head] + list, [mid]);
    PartsConcat([head] + list + [mid], RowsPieces(cols, rows));
  }

  lemma InsertWithText(table: string, cols: seq<string>, rows: seq<map<string, Value>>, suffix: string)
    ensures TextOf(InsertWith(table, cols, rows, suffix)) ==
            TextOf(InsertPieces(table, cols, rows)) + if cols == [] || rows == [] then "" else suffix
    ensures SqlText.ArgsOf(InsertWith(table, cols, rows, suffix)) == SqlText.ArgsOf(InsertPieces(table, cols, rows))
  {
    hide TextOf, SqlText.ArgsOf, Aligned, InsertPieces;
    var none: seq<Value> := [];
    var pieces := InsertPieces(table, cols, rows);
    NoPieces();
    OneLit(suffix);
    PartsConcat(pieces, if cols == [] || rows == [] || suffix == "" then [] else [Lit(suffix)]);
    assert SqlText.ArgsOf(pieces) + none == SqlText.ArgsOf(pieces);
  }

  lemma RowSections(cols: seq<string>, row: map<string, Value>)
    ensures TextOf(RowPieces(cols, row)) == "(" + TextOf(Separated(Marks(cols, row))) + ")"
    ensures SqlText.ArgsOf(RowPieces(cols, row)) == SqlText.ArgsOf(Separated(Marks(cols, row)))
    ensures RowsPieces(cols, [row]) == RowPieces(cols, row)
  {
    hide TextOf, SqlText.ArgsOf, Aligned, Separated;
    var marks := Separated(Marks(cols, row));
    OneLit("(");
    OneLit(")");
    PartsConcat([Lit("(")], marks);
    PartsConcat([Lit("(")] + marks, [Lit(")")]);
  }

  lemma RowsAppend(cols: seq<string>, rows: seq<map<string, Value>>)
    requires rows != []
    ensures var init, last := rows[..|rows| - 1], rows[|rows| - 1];
            && TextOf(RowsPieces(cols, rows)) ==
               TextOf(RowsPieces(cols, init)) + (if init == [] then "" else ", ") + TextOf(RowPieces(cols, last))
            && SqlText.ArgsOf(RowsPieces(cols, rows)) ==
               SqlText.ArgsOf(RowsPieces(cols, init)) + SqlText.ArgsOf(RowPieces(cols, last))
  {
    hide TextOf, SqlText.ArgsOf, Aligned, RowPieces;
    var init, last := rows[..|rows| - 1], rows[|rows| - 1];
    RowsStep(cols, rows);
    NoPieces();
    if init == [] {
      assert rows == [last];
      assert "" + "" + TextOf(RowPieces(cols, last)) == TextOf(RowPieces(cols, last));
    } else {
      PartsConcat(RowsPieces(cols, init) + [Lit(", ")], RowPieces(cols, last));
      PartsSnoc(RowsPieces(cols, init), Lit(", "));
    }
  }

  function Exprs(items: seq<Piece>): seq<string> {
    seq(|items|, i requires 0 <= i < |items| => items[i].text)
  }

  function Questions(n: nat): seq<string> {
    seq(n, _ => "?")
  }

  /** The clause for a membership test, with a fixed text for the empty list. */
  function InClause(col: string, op: string, vals: seq<Value>, empty: string): Clause {
    var text := if vals == [] then empty else col + op + CommaJoin(Questions(|vals|)) + ")";
    Clause(And, [Atom(Predicate(text, vals))], vals)
  }

  /** n question marks joined by commas are n placeholders. */
  lemma {:induction false} QuestionsCount(n: nat)
    ensures WholeMarks(CommaJoin(Questions(n)), n)
    decreases n
  {
    hide WholeMarks;
    if n == 0 {
      NoMarks();
    } else if n == 1 {
      OneMark();
    } else {
      QuestionsCount(n - 1);
      assert Questions(n)[..n - 1] == Questions(n - 1);
      OneMoreMark(CommaJoin(Questions(n - 1)), n - 1);
    }
  }

  predicate WholeMarks(s: string, n: nat) {
    SqlText.Closed(s) && Holes(s) == n && Unglued(s)
  }

  lemma NoMarks()
    ensures WholeMarks("", 0)
  {
    InertIsWhole("");
  }

  lemma OneMark()
    ensures WholeMarks("?", 1)
  {
    hide Lex, SqlText.Closed, Holes, Unglued;
    MarkedIsGood("", Null);
    assert "" + "?" == "?";
  }

  lemma OneMoreMark(s: string, n: nat)
    requires WholeMarks(s, n)
    ensures WholeMarks(s + ", " + "?", n + 1)
  {
    hide Lex, SqlText.Closed, Holes, Unglued;
    InertIsWhole(", ");
    OneMark();
    ClosedConcat(s, ", ");
    UngluedConcat(s, ", ");
    ClosedConcat(s + ", ", "?");
    UngluedConcat(s + ", ", "?");
  }

  /** A membership clause is one predicate with exactly one placeholder per value. */
  lemma InClauseIsGood(col: string, op: string, vals: seq<Value>, empty: string)
    requires ValidIdent(col) && Inert(op) && Inert(empty)
    ensures GoodClauses([InClause(col, op, vals, empty)])
  {
    hide Lex, SqlText.Closed, Holes, Unglued, CommaJoin, Parse, Text, Args;
    var w := InClause(col, op, vals, empty);
    var p := w.expr[0].p;
    assert w.expr == [Atom(p)] == FlatFactor(Pred(p)) == FlatTerm(Last(Pred(p)));
    ParseMeansFlat(w.expr, Only(Last(Pred(p))));
    TextOfOne(Atom(p));
    if vals == [] {
      InertIsWhole(empty);
    } else {
      var marks := CommaJoin(Questions(|vals|));
      QuestionsCount(|vals|);
      InertIsWhole(col + op);
      InertIsWhole(")");
      ClosedConcat(col + op, marks);
      UngluedConcat(col + op, marks);
      ClosedConcat(col + op + marks, ")");
      UngluedConcat(col + op + marks, ")");
      assert p == Predicate(col + op + marks + ")", vals);
    }
    assert WholePredicate(p);
  }

  lemma InClauseKeepsGood(ws: seq<Clause>, col: string, op: string, vals: seq<Value>, empty: string)
    requires ValidIdent(col) && Inert(op) && Inert(empty)
    ensures GoodClauses(ws) ==> GoodClauses(ws + [InClause(col, op, vals, empty)])
  {
    hide InClause, WholeAtoms;
    InClauseIsGood(col, op, vals, empty);
    var w := InClause(col, op, vals, empty);
    assert GoodClauses([w]) && [w][0] == w;
  }

  lemma NoClauses(ws: seq<Clause>)
    requires ws == []
    ensures Text(Joined(ws)) == "" && Text(Anded(ws)) == "" && ClauseArgs(ws) == []
  {
  }

  /** The WHERE pieces as one text, case by case. */
  lemma WhereText(soft: Option<Predicate>, ws: seq<Clause>)
    ensures TextOf(WherePieces(soft, ws)) ==
            if soft.None? && ws == [] then ""
            else if soft.None? then " WHERE " + Text(Joined(ws))
            else if ws == [] then " WHERE " + soft.value.text
            else if HasOr(ws) then " WHERE " + soft.value.text + " AND (" + Text(Joined(ws)) + ")"
            else " WHERE " + soft.value.text + Text(Anded(ws))
  {
    hide Text, Joined, Anded, TextOf, Aligned;
    NoPieces();
    if soft.Some? || ws != [] {
      var toks := WhereTokens(soft, ws);
      PartsConcat([Lit(" WHERE ")], Parts(toks));
      OneLit(" WHERE ");
      TextMeans(toks);
      if soft.Some? {
        TextOfOne(Atom(soft.value));
        if ws != [] && HasOr(ws) {
          ParenthesisedText(soft.value, ws);
        } else if ws != [] {
          TextConcat([Atom(soft.value)], Anded(ws));
        }
      }
    }
  }

  lemma ParenthesisedText(p: Predicate, ws: seq<Clause>)
    ensures Text([Atom(p), AndTok, Open] + Joined(ws) + [Close]) == p.text + " AND (" + Text(Joined(ws)) + ")"
  {
    hide Text, Joined;
    TextOfOne(Atom(p));
    TextOfOne(AndTok);
    TextOfOne(Open);
    TextOfOne(Close);
    TextConcat([Atom(p), AndTok, Open] + Joined(ws), [Close]);
    TextConcat([Atom(p), AndTok, Open], Joined(ws));
    TextConcat([Atom(p), AndTok], [Open]);
    TextConcat([Atom(p)], [AndTok]);
    assert [Atom(p)] + [AndTok] == [Atom(p), AndTok];
    assert [Atom(p), AndTok] + [Open] == [Atom(p), AndTok, Open];
    assert p.text + " AND " + "(" == p.text + " AND (";
  }

  lemma TextMeans(toks: seq<Tok>)
    ensures Text(toks) == TextOf(Parts(toks)) && Args(toks) == SqlText.ArgsOf(Parts(toks))
  {
  }
}
