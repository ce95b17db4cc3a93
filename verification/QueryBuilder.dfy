/** The mutable query builder: clause lists, one-shot scope folding, and string building.

    `sql` is the text of the strings.Builder, passed along; `args` is the builder's own field, as
    in the source. The scope callback is a pure function from the selected columns to the tenant
    columns and values; a missing callback and a missing request are both `None`. */
module QueryBuilder {
  import opened Wrappers
  import opened Conditions
  import opened Names
  import opened SqlText
  import opened Statements
  import opened StatementText
  import opened WhereClauses
  import opened Pagination

  datatype Action = SelectRows | InsertRow | InsertRows | UpdateRows | DeleteRows

  /** The bound model, as far as the scope looks at it. */
  datatype Dest = NoDest | NilPointer | Model(columns: seq<string>) | OtherDest

  type Scope = seq<string> -> map<string, Value>

  class Builder {
    var table: string
    var selects: seq<Piece>
    var joins: seq<Join>
    var wheres: seq<Clause>
    var groupBys: seq<string>
    var havings: seq<Clause>
    var orderBys: seq<string>
    var limit: Option<int>
    var offset: Option<int>
    var args: seq<Value>

    var action: Action
    var inserts: map<string, Value>
    var updates: map<string, Value>
    var batchCols: seq<string>
    var batchPlaceholders: seq<string>
    var batchArgs: seq<Value>
    /** The rows the batch fields spell. */
    ghost var batchRows: seq<map<string, Value>>

    var onDuplicate: seq<string>
    var primaryKeys: seq<string>
    var autoIncCol: string

    var rawQuery: string
    var rawArgs: seq<Value>
    var dialect: Dialect

    var soft: Option<Predicate>
    var scope: Option<Scope>
    var dest: Dest
    var scopeSkipped: bool
    var scopeApplied: bool
    var lockForUpdate: bool
    var allowEmptyWhere: bool

    constructor (name: string, d: Dialect)
      ensures table == name && dialect == d && action == SelectRows && rawQuery == ""
      ensures selects == [] && joins == [] && wheres == [] && groupBys == [] && havings == [] && orderBys == []
      ensures limit == None && offset == None && soft == None && scope == None
      ensures dest == NoDest && !scopeSkipped && !scopeApplied && !lockForUpdate && !allowEmptyWhere
      ensures BatchReady() && batchRows == [] && onDuplicate == [] && primaryKeys == [] && autoIncCol == ""
    {
      table, dialect, action, rawQuery, rawArgs := name, d, SelectRows, "", [];
      selects, joins, wheres, groupBys, havings, orderBys := [], [], [], [], [], [];
      limit, offset, args, soft, scope := None, None, [], None, None;
      inserts, updates, batchCols, batchPlaceholders, batchArgs := map[], map[], [], [], [];
      batchRows, onDuplicate, primaryKeys, autoIncCol := [], [], [], "";
      dest, scopeSkipped, scopeApplied, lockForUpdate, allowEmptyWhere := NoDest, false, false, false, false;
    }

    constructor Copy(b: Builder)
      ensures table == b.table && selects == b.selects && joins == b.joins && wheres == b.wheres
      ensures groupBys == b.groupBys && havings == b.havings && orderBys == b.orderBys
      ensures limit == b.limit && offset == b.offset && args == b.args && action == b.action
      ensures inserts == b.inserts && updates == b.updates
      ensures batchCols == b.batchCols && batchPlaceholders == b.batchPlaceholders && batchArgs == b.batchArgs
      ensures batchRows == b.batchRows && onDuplicate == b.onDuplicate
      ensures primaryKeys == b.primaryKeys && autoIncCol == b.autoIncCol
      ensures rawQuery == b.rawQuery && rawArgs == b.rawArgs && dialect == b.dialect
      ensures soft == b.soft && scope == b.scope && dest == b.dest
      ensures scopeSkipped == b.scopeSkipped && scopeApplied == b.scopeApplied
      ensures lockForUpdate == b.lockForUpdate && allowEmptyWhere == b.allowEmptyWhere
    {
      table, selects, joins, wheres := b.table, b.selects, b.joins, b.wheres;
      groupBys, havings, orderBys := b.groupBys, b.havings, b.orderBys;
      limit, offset, args, action := b.limit, b.offset, b.args, b.action;
      inserts, updates := b.inserts, b.updates;
      batchCols, batchPlaceholders, batchArgs := b.batchCols, b.batchPlaceholders, b.batchArgs;
      batchRows, onDuplicate := b.batchRows, b.onDuplicate;
      primaryKeys, autoIncCol := b.primaryKeys, b.autoIncCol;
      rawQuery, rawArgs, dialect := b.rawQuery, b.rawArgs, b.dialect;
      soft, scope, dest := b.soft, b.scope, b.dest;
      scopeSkipped, scopeApplied := b.scopeSkipped, b.scopeApplied;
      lockForUpdate, allowEmptyWhere := b.lockForUpdate, b.allowEmptyWhere;
    }

    /** The SELECT that the fields describe. */
    function Query(): Select
      reads this
    {
      Select(table, selects, joins, soft, wheres, groupBys, havings, orderBys, limit, offset, lockForUpdate)
    }

    // ----- conditions

    method Where(expr: seq<Tok>, vals: seq<Value>)
      modifies this`wheres
      ensures wheres == old(wheres) + [Clause(And, expr, vals)]
    {
      wheres := wheres + [Clause(And, expr, vals)];
    }

    method OrWhere(expr: seq<Tok>, vals: seq<Value>)
      modifies this`wheres
      ensures wheres == old(wheres) + [Clause(Or, expr, vals)]
    {
      wheres := wheres + [Clause(Or, expr, vals)];
    }

    /** One placeholder per value; an empty list matches no row. */
    method WhereIn(col: string, vals: seq<Value>)
      modifies this`wheres
      ensures wheres == old(wheres) + (if ValidIdent(col) then [InClause(col, " IN (", vals, "1 = 0")] else [])
      ensures old(GoodClauses(wheres)) ==> GoodClauses(wheres)
    {
      hide GoodClauses;
      if !ValidIdent(col) {
        return;
      }
      InClauseKeepsGood(wheres, col, " IN (", vals, "1 = 0");
      if |vals| == 0 {
        Where([Atom(Predicate("1 = 0", []))], []);
        return;
      }
      var marks := Placeholders(|vals|);
      Where([Atom(Predicate(col + " IN (" + CommaJoin(marks) + ")", vals))], vals);
    }

    /** An empty list excludes nothing and adds no clause. */
    method WhereNotIn(col: string, vals: seq<Value>)
      modifies this`wheres
      ensures wheres == old(wheres) +
              (if ValidIdent(col) && vals != [] then [InClause(col, " NOT IN (", vals, "")] else [])
      ensures old(GoodClauses(wheres)) ==> GoodClauses(wheres)
    {
      hide GoodClauses;
      if !ValidIdent(col) || |vals| == 0 {
        return;
      }
      InClauseKeepsGood(wheres, col, " NOT IN (", vals, "");
      var marks := Placeholders(|vals|);
      Where([Atom(Predicate(col + " NOT IN (" + CommaJoin(marks) + ")", vals))], vals);
    }

    static method Placeholders(n: nat) returns (marks: seq<string>)
      ensures marks == Questions(n)
    {
      marks := [];
      for i := 0 to n
        invariant marks == Questions(i)
      {
        marks := marks + ["?"];
      }
    }

    // ----- scope

    /** The columns shown to the scope callback, or None when the bound model is a nil pointer. */
    function ScopeFields(): Option<seq<string>>
      reads this`selects, this`dest
    {
      if selects != [] then Some(Exprs(selects))
      else
        match dest
        case NilPointer => None
        case Model(columns) => Some(columns)
        case _ => Some([])
    }

    /** The conditions the scope callback gives, none when the scope does not apply. */
    ghost function ScopeConds(): map<string, Value>
      reads this
    {
      if scopeApplied || scope.None? || scopeSkipped || ScopeFields().None? then map[]
      else scope.value(ScopeFields().value)
    }

    ghost function ScopeKeys(): (keys: seq<string>)
      reads this
      ensures forall k :: k in keys ==> k in ScopeConds() && ValidIdent(k)
    {
      KeyList(set k | k in ScopeConds() && ValidIdent(k))
    }

    /** The clause list that applyScope leaves. */
    ghost function ScopedWheres(): seq<Clause>
      reads this
    {
      Folded(wheres, ScopeKeys(), ScopeConds())
    }

    /** Folds the scope once. Sound clauses then select the rows of the user's chain that are in
        scope and not deleted, and good clauses stay good. */
    method ApplyScope()
      modifies this`wheres, this`scopeApplied
      ensures scopeApplied && wheres == old(ScopedWheres())
      ensures old(AllSound(wheres) && ScopeKeys() != []) ==>
                Restricts(soft, old(wheres), old(ScopeKeys()), old(ScopeConds()), wheres)
      ensures old(GoodClauses(wheres)) ==> GoodClauses(wheres)
    {
      hide Restricts, GoodClauses, Folded;
      ScopedMeans();
      if scopeApplied {
        NothingToFold();
        return;
      }
      var fields := ScopeFields();
      if scope.None? || scopeSkipped || fields.None? {
        NothingToFold();
        scopeApplied := true;
        return;
      }
      var conds := scope.value(fields.value);
      var keys := SortedKeys(conds);
      wheres := FoldScope(keys, conds);
      scopeApplied := true;
    }

    lemma NothingToFold()
      requires scopeApplied || scope.None? || scopeSkipped || ScopeFields().None?
      ensures ScopeKeys() == [] && ScopedWheres() == wheres
    {
      assert ScopeConds() == map[];
      KeyListUnique(ScopeKeys(), []);
    }

    lemma ScopedMeans()
      ensures AllSound(wheres) && ScopeKeys() != [] ==>
                Restricts(soft, wheres, ScopeKeys(), ScopeConds(), ScopedWheres())
      ensures GoodClauses(wheres) ==> GoodClauses(ScopedWheres())
    {
      hide Restricts, GoodClauses, Folded, KeyList;
      if GoodClauses(wheres) {
        FoldedGood(wheres, ScopeKeys(), ScopeConds());
      }
      if AllSound(wheres) && ScopeKeys() != [] {
        FoldedRestricts(soft, wheres, ScopeKeys(), ScopeConds());
      }
    }

    method FoldScope(keys: seq<string>, conds: map<string, Value>) returns (ws: seq<Clause>)
      requires forall k :: k in keys ==> k in conds
      ensures ws == Folded(wheres, keys, conds)
    {
      var group, groupArgs := ScopeGroup(keys, conds);
      if keys == [] {
        return wheres;
      }
      var scopeClause := Clause(And, [Open] + group + [Close], groupArgs);
      if |wheres| > 0 {
        var existing, existingArgs := Existing();
        ws := [Clause(And, [Open] + existing + [Close], existingArgs), scopeClause];
      } else {
        ws := [scopeClause];
      }
    }

    static method ScopeGroup(keys: seq<string>, conds: map<string, Value>) returns (group: seq<Tok>, vals: seq<Value>)
      requires forall k :: k in keys ==> k in conds
      ensures group == ScopeTokens(keys, conds) && vals == ScopeArgs(keys, conds)
    {
      group, vals := [], [];
      assert keys[..0] == [];
      for i := 0 to |keys|
        invariant group == ScopeTokens(keys[..i], conds) && vals == ScopeArgs(keys[..i], conds)
      {
        assert keys[..i + 1][..i] == keys[..i];
        if i > 0 {
          group := group + [AndTok];
        }
        group := group + [Atom(ScopePredicate(keys[i], conds[keys[i]]))];
        vals := vals + [conds[keys[i]]];
      }
      assert keys[..|keys|] == keys;
    }

    method Existing() returns (toks: seq<Tok>, vals: seq<Value>)
      ensures toks == Joined(wheres) && vals == ClauseArgs(wheres)
    {
      toks, vals := [], [];
      for i := 0 to |wheres|
        invariant toks == Joined(wheres[..i]) && vals == ClauseArgs(wheres[..i])
      {
        assert wheres[..i + 1][..i] == wheres[..i];
        if i > 0 {
          toks := toks + [Tokens(wheres[i].boolean)];
        }
        toks := toks + wheres[i].expr;
        vals := vals + wheres[i].args;
      }
      assert wheres[..|wheres|] == wheres;
    }

    // ----- printing

    /** The loop that prints clauses with their own connectives; `ws` is `wheres` or `havings`. */
    method WriteJoined(sql: string, ws: seq<Clause>) returns (out: string)
      modifies this`args
      ensures out == sql + Text(Joined(ws)) && args == old(args) + ClauseArgs(ws)
    {
      hide Text, Joined, Anded, ClauseArgs, Word;
      out := sql;
      assert Text(Joined(ws[..0])) == "" && ClauseArgs(ws[..0]) == [] by { NoClauses(ws[..0]); }
      for i := 0 to |ws|
        invariant out == sql + Text(Joined(ws[..i])) && args == old(args) + ClauseArgs(ws[..i])
      {
        JoinedAfter(sql, old(args), ws, i);
        if i > 0 {
          out := out + (" " + Word(ws[i].boolean) + " ");
        }
        out := out + Text(ws[i].expr);
        args := args + ws[i].args;
      }
      assert ws[..|ws|] == ws;
    }

    method WriteAnded(sql: string) returns (out: string)
      modifies this`args
      ensures out == sql + Text(Anded(wheres)) && args == old(args) + ClauseArgs(wheres)
    {
      hide Text, Joined, Anded;
      out := sql;
      assert Text(Anded(wheres[..0])) == "" && ClauseArgs(wheres[..0]) == [] by { NoClauses(wheres[..0]); }
      for i := 0 to |wheres|
        invariant out == sql + Text(Anded(wheres[..i])) && args == old(args) + ClauseArgs(wheres[..i])
      {
        JoinedStep(wheres, i);
        out := out + " AND " + Text(wheres[i].expr);
        args := args + wheres[i].args;
      }
      assert wheres[..|wheres|] == wheres;
    }

    method BuildWheres(sql: string) returns (out: string)
      modifies this`args
      ensures out == sql + TextOf(WherePieces(soft, wheres)) && args == old(args) + ClauseArgs(wheres)
    {
      hide Text, Joined, Anded, TextOf, WherePieces, ClauseArgs;
      WhereText(soft, wheres);
      if |wheres| == 0 && soft.None? {
        NoClauses(wheres);
        return sql;
      }
      if soft.Some? {
        Regroup(sql, " WHERE ", soft.value.text, " AND (", Text(Joined(wheres)), ")", []);
        Regroup(sql, " WHERE ", soft.value.text, Text(Anded(wheres)), [], [], []);
      } else {
        Regroup(sql, " WHERE ", Text(Joined(wheres)), [], [], [], []);
      }
      out := sql + " WHERE ";
      if soft.Some? {
        out := out + soft.value.text;
        if |wheres| > 0 {
          var hasOr := AnyOr();
          if hasOr {
            out := WriteJoined(out + " AND (", wheres);
            out := out + ")";
          } else {
            out := WriteAnded(out);
          }
        } else {
          NoClauses(wheres);
        }
      } else {
        out := WriteJoined(out, wheres);
      }
    }

    method AnyOr() returns (hasOr: bool)
      ensures hasOr <==> HasOr(wheres)
    {
      for i := 0 to |wheres|
        invariant forall j :: 0 <= j < i ==> wheres[j].boolean != Or
      {
        if wheres[i].boolean == Or {
          return true;
        }
      }
      return false;
    }

    method WriteColumns(sql: string) returns (out: string)
      modifies this`args
      ensures out == sql + TextOf(ColumnPieces(selects)) && args == old(args) + SqlText.ArgsOf(ColumnPieces(selects))
    {
      hide TextOf, SqlText.ArgsOf, Separated;
      out := sql;
      if |selects| > 0 {
        assert TextOf(Separated(selects[..0])) == "" && SqlText.ArgsOf(Separated(selects[..0])) == [] by {
          NoItems(selects[..0]);
        }
        for i := 0 to |selects|
          invariant out == sql + TextOf(Separated(selects[..i]))
          invariant args == old(args) + SqlText.ArgsOf(Separated(selects[..i]))
        {
          assert selects[..i + 1][..i] == selects[..i];
          SeparatedStep(selects[..i + 1]);
          if i > 0 {
            out := out + ", ";
          }
          out := out + selects[i].text;
          if |selects[i].args| > 0 {
            args := args + selects[i].args;
          }
        }
        assert selects[..|selects|] == selects;
      } else {
        OneLit("*");
        out := out + "*";
      }
    }

    method WriteJoins(sql: string) returns (out: string)
      ensures out == sql + TextOf(JoinPieces(joins)) && SqlText.ArgsOf(JoinPieces(joins)) == []
    {
      hide TextOf, SqlText.ArgsOf, Aligned;
      out := sql;
      NoPieces();
      for i := 0 to |joins|
        invariant out == sql + TextOf(JoinPieces(joins[..i])) && SqlText.ArgsOf(JoinPieces(joins[..i])) == []
      {
        assert JoinPieces(joins[..i + 1]) == JoinPieces(joins[..i]) + [JoinPiece(joins[i])];
        PartsSnoc(JoinPieces(joins[..i]), JoinPiece(joins[i]));
        out := out + (" " + joins[i].typ + " JOIN " + joins[i].table + " ON " + joins[i].on);
      }
      assert joins[..|joins|] == joins;
    }

    method BuildSelect(sql: string) returns (out: string)
      modifies this`args
      ensures out == sql + TextOf(SelectPieces(old(Query())))
      ensures ArgsKnown(wheres, havings, soft) ==> args == old(args) + SqlText.ArgsOf(SelectPieces(old(Query())))
    {
      hide TextOf, SqlText.ArgsOf, ColumnPieces, JoinPieces, WherePieces, TailPieces, SelectPieces, ClauseArgs,
        TailArgs, ArgsKnown;
      SelectSections(Query());
      Regroup(sql, "SELECT ", TextOf(ColumnPieces(selects)), FromText(table), TextOf(JoinPieces(joins)),
              TextOf(WherePieces(soft, wheres)), TextOf(TailPieces(Query())));
      Regroup(args, [], SqlText.ArgsOf(ColumnPieces(selects)), ClauseArgs(wheres), TailArgs(Query()), [], []);
      out := WriteColumns(sql + "SELECT ");
      if table == "" {
        out := out + " FROM undefined_table ";
      } else {
        Regroup(out, " FROM ", table, [], [], [], []);
        out := out + " FROM ";
        out := out + table;
      }
      out := WriteJoins(out);
      out := BuildWheres(out);
      out := WriteTail(out);
    }

    /** Grouping, ordering and the row window. */
    method WriteTail(sql: string) returns (out: string)
      modifies this`args
      ensures out == sql + TextOf(TailPieces(old(Query()))) && args == old(args) + TailArgs(old(Query()))
    {
      hide TextOf, TailPieces, ClauseArgs, ListText, HavingText, NumberText, NumberArgs, LockText;
      TailText(Query());
      Regroup(sql, ListText(" GROUP BY ", groupBys), HavingText(havings), ListText(" ORDER BY ", orderBys),
              NumberText(" LIMIT ?", limit), NumberText(" OFFSET ?", offset), LockText(lockForUpdate));
      Regroup(args, ClauseArgs(havings), NumberArgs(limit), NumberArgs(offset), [], [], []);
      out := WriteList(sql, " GROUP BY ", groupBys);
      out := WriteHaving(out);
      out := WriteList(out, " ORDER BY ", orderBys);
      out := WriteNumber(out, " LIMIT ?", limit);
      out := WriteNumber(out, " OFFSET ?", offset);
      out := out + LockText(lockForUpdate);
    }

    static method WriteList(sql: string, head: string, names: seq<string>) returns (out: string)
      ensures out == sql + ListText(head, names)
    {
      out := sql;
      if |names| > 0 {
        out := out + head;
        out := out + CommaJoin(names);
      }
    }

    method WriteHaving(sql: string) returns (out: string)
      modifies this`args
      ensures out == sql + HavingText(havings) && args == old(args) + ClauseArgs(havings)
    {
      hide Text, Joined, ClauseArgs;
      out := sql;
      if |havings| > 0 {
        out := WriteJoined(out + " HAVING ", havings);
      } else {
        NoClauses(havings);
      }
    }

    method WriteNumber(sql: string, head: string, n: Option<int>) returns (out: string)
      modifies this`args
      ensures out == sql + NumberText(head, n) && args == old(args) + NumberArgs(n)
    {
      out := sql;
      if n.Some? {
        out := out + head;
        args := args + [Number(n.value)];
      }
    }

    method BuildUpdate(sql: string) returns (out: string)
      modifies this`args
      ensures var pieces := UpdatePieces(table, KeyList(set k | k in updates && ValidIdent(k)), updates, soft, wheres);
              && out == sql + TextOf(pieces)
              && (ArgsKnown(wheres, [], soft) ==> args == old(args) + SqlText.ArgsOf(pieces))
    {
      hide *;
      var keys := SortedKeys(updates);
      var sets := SetList(keys);
      ghost var setPieces := Separated(SetPieces(keys, updates));
      UpdateSections(table, keys, updates, soft, wheres);
      if |sets| == 0 {
        NoItems(SetPieces(keys, updates));
        Regroup(sql, [], [], [], [], [], []);
        return sql;
      }
      Regroup(sql, "UPDATE " + table + " SET ", TextOf(setPieces), TextOf(WherePieces(soft, wheres)), [], [], []);
      Regroup(old(args), SqlText.ArgsOf(setPieces), ClauseArgs(wheres), [], [], [], []);
      out := sql + ("UPDATE " + table + " SET ") + CommaJoin(sets);
      out := BuildWheres(out);
    }

    method SetList(keys: seq<string>) returns (sets: seq<string>)
      requires forall i :: 0 <= i < |keys| ==> keys[i] in updates
      modifies this`args
      ensures |sets| == |keys| && CommaJoin(sets) == TextOf(Separated(SetPieces(keys, updates)))
      ensures args == old(args) + SqlText.ArgsOf(Separated(SetPieces(keys, updates)))
    {
      hide TextOf, SqlText.ArgsOf, Separated, CommaJoin;
      ghost var pieces := SetPieces(keys, updates);
      sets := [];
      NoItems(pieces[..0]);
      for i := 0 to |keys|
        invariant |sets| == i && forall j :: 0 <= j < i ==> sets[j] == pieces[j].text
        invariant args == old(args) + SqlText.ArgsOf(Separated(pieces[..i]))
      {
        assert pieces[..i + 1][..i] == pieces[..i];
        SeparatedStep(pieces[..i + 1]);
        sets := sets + [keys[i] + " = ?"];
        args := args + [updates[keys[i]]];
      }
      assert pieces[..|pieces|] == pieces;
      SeparatedTexts(pieces, sets);
    }

    method BuildDelete(sql: string) returns (out: string)
      modifies this`args
      ensures var pieces := DeletePieces(table, soft, wheres);
              && out == sql + TextOf(pieces)
              && (ArgsKnown(wheres, [], soft) ==> args == old(args) + SqlText.ArgsOf(pieces))
    {
      hide TextOf, SqlText.ArgsOf, WherePieces, ClauseArgs;
      PartsConcat([Lit("DELETE FROM " + table)], WherePieces(soft, wheres));
      OneLit("DELETE FROM " + table);
      if ArgsKnown(wheres, [], soft) { WhereArguments(soft, wheres); }
      out := sql + "DELETE FROM ";
      out := out + table;
      out := BuildWheres(out);
    }

    ghost function InsertSuffix(): string
      reads this
    {
      UpsertText(dialect, onDuplicate, primaryKeys) + ReturningText(dialect, autoIncCol)
    }

    method BuildInsert(sql: string) returns (out: string)
      modifies this`args
      ensures var keys := KeyList(set k | k in inserts && ValidIdent(k));
              var pieces := InsertWith(table, keys, [inserts], InsertSuffix());
              out == sql + TextOf(pieces) && args == old(args) + SqlText.ArgsOf(pieces)
    {
      hide *;
      var keys := SortedKeys(inserts);
      var cols, placeholders := InsertLists(keys);
      InsertWithText(table, keys, [inserts], InsertSuffix());
      InsertSections(table, keys, [inserts]);
      RowSections(keys, inserts);
      Regroup(sql, [], [], [], [], [], []);
      Regroup(old(args), [], [], [], [], [], []);
      if |cols| == 0 {
        NoItems(Marks(keys, inserts));
        return sql;
      }
      var values := "(" + CommaJoin(placeholders) + ")";
      out := sql + ("INSERT INTO " + table + " (" + CommaJoin(cols) + ") VALUES " + values);
      out := WriteUpsert(out);
      out := out + ReturningText(dialect, autoIncCol);
      SuffixMeans(sql, TextOf(InsertPieces(table, keys, [inserts])));
    }

    lemma SuffixMeans(sql: string, text: string)
      ensures sql + text + UpsertText(dialect, onDuplicate, primaryKeys) + ReturningText(dialect, autoIncCol)
              == sql + (text + InsertSuffix())
    {
      hide UpsertText, ReturningText;
    }

    /** The two upsert branches of buildInsert and buildInsertBatch. */
    method WriteUpsert(sql: string) returns (out: string)
      ensures out == sql + UpsertText(dialect, onDuplicate, primaryKeys)
    {
      hide CommaJoin;
      var sets := [];
      for i := 0 to |onDuplicate|
        invariant sets == Assignments(dialect, onDuplicate[..i])
      {
        assert onDuplicate[..i + 1][..i] == onDuplicate[..i];
        if ValidIdent(onDuplicate[i]) {
          sets := sets + [Assignment(dialect, onDuplicate[i])];
        }
      }
      assert onDuplicate[..|onDuplicate|] == onDuplicate;
      if |sets| == 0 {
        return sql;
      }
      if dialect == MySQL {
        out := sql + (" ON DUPLICATE KEY UPDATE " + CommaJoin(sets));
      } else {
        var conflict := if |primaryKeys| > 0 then CommaJoin(primaryKeys) else "id";
        out := sql + (" ON CONFLICT (" + conflict + ") DO UPDATE SET " + CommaJoin(sets));
      }
    }

    method InsertLists(keys: seq<string>) returns (cols: seq<string>, placeholders: seq<string>)
      requires forall i :: 0 <= i < |keys| ==> keys[i] in inserts
      modifies this`args
      ensures cols == keys && CommaJoin(placeholders) == TextOf(Separated(Marks(keys, inserts)))
      ensures args == old(args) + SqlText.ArgsOf(Separated(Marks(keys, inserts)))
    {
      hide TextOf, SqlText.ArgsOf, Separated, CommaJoin;
      cols, placeholders := [], [];
      ghost var marks := Marks(keys, inserts);
      NoItems(marks[..0]);
      for i := 0 to |keys|
        invariant cols == keys[..i] && placeholders == Questions(i)
        invariant args == old(args) + SqlText.ArgsOf(Separated(marks[..i]))
      {
        assert marks[..i + 1][..i] == marks[..i];
        SeparatedStep(marks[..i + 1]);
        cols := cols + [keys[i]];
        placeholders := placeholders + ["?"];
        args := args + [inserts[keys[i]]];
      }
      assert marks[..|marks|] == marks;
      SeparatedTexts(marks, placeholders);
    }

    /** The batch fields spell `batchRows`: a tuple of marks per row, and the values row by row. */
    ghost predicate BatchReady()
      reads this`batchCols, this`batchPlaceholders, this`batchArgs, this`batchRows
    {
      && |batchPlaceholders| == |batchRows|
      && CommaJoin(batchPlaceholders) == TextOf(RowsPieces(batchCols, batchRows))
      && batchArgs == SqlText.ArgsOf(RowsPieces(batchCols, batchRows))
      && forall c :: c in batchCols ==> ValidIdent(c)
    }

    /** Prints the INSERT of the prepared rows, or nothing when there are none. */
    method BuildInsertBatch(sql: string) returns (out: string)
      modifies this`args
      ensures old(BatchReady()) ==>
                var pieces := InsertWith(table, batchCols, batchRows, UpsertText(dialect, onDuplicate, primaryKeys));
                out == sql + TextOf(pieces) && args == old(args) + SqlText.ArgsOf(pieces)
    {
      hide TextOf, SqlText.ArgsOf, CommaJoin, RowsPieces, InsertPieces, InsertWith, UpsertText;
      InsertWithText(table, batchCols, batchRows, UpsertText(dialect, onDuplicate, primaryKeys));
      InsertSections(table, batchCols, batchRows);
      Regroup(sql, [], [], [], [], [], []);
      Regroup(args, [], [], [], [], [], []);
      if |batchCols| == 0 || |batchPlaceholders| == 0 {
        return sql;
      }
      var text := "INSERT INTO " + table + " (" + CommaJoin(batchCols) + ") VALUES " + CommaJoin(batchPlaceholders);
      out := sql + text;
      args := args + batchArgs;
      out := WriteUpsert(out);
      Regroup(sql, text, UpsertText(dialect, onDuplicate, primaryKeys), [], [], [], []);
    }

    /** Fills the batch fields row by row; the columns are those of the first row. */
    method PrepareBatch(rows: seq<map<string, Value>>)
      requires rows != []
      modifies this`action, this`batchCols, this`batchPlaceholders, this`batchArgs, this`batchRows
      ensures action == InsertRows && batchCols == KeyList(set k | k in rows[0] && ValidIdent(k))
      ensures BatchReady() && batchRows == rows
    {
      hide TextOf, SqlText.ArgsOf, Separated, RowPieces;
      var cols := SortedKeys(rows[0]);
      var placeholders, vals := [], [];
      NoRows(cols, rows[..0]);
      for r := 0 to |rows|
        invariant |placeholders| == r
        invariant CommaJoin(placeholders) == TextOf(RowsPieces(cols, rows[..r]))
        invariant vals == SqlText.ArgsOf(RowsPieces(cols, rows[..r]))
      {
        var rowPh, rowVals := RowText(cols, rows[r]);
        assert rows[..r + 1][..r] == rows[..r];
        RowsAppend(cols, rows[..r + 1]);
        assert (placeholders + [rowPh])[..r] == placeholders;
        placeholders := placeholders + [rowPh];
        vals := vals + rowVals;
      }
      assert rows[..|rows|] == rows;
      action, batchCols, batchPlaceholders, batchArgs := InsertRows, cols, placeholders, vals;
      batchRows := rows;
    }

    static method RowText(cols: seq<string>, row: map<string, Value>) returns (ph: string, vals: seq<Value>)
      ensures ph == TextOf(RowPieces(cols, row)) && vals == SqlText.ArgsOf(RowPieces(cols, row))
    {
      hide TextOf, SqlText.ArgsOf, Separated;
      var marks := [];
      vals := [];
      ghost var ms := Marks(cols, row);
      NoItems(ms[..0]);
      for i := 0 to |cols|
        invariant marks == Questions(i) && vals == SqlText.ArgsOf(Separated(ms[..i]))
      {
        assert ms[..i + 1][..i] == ms[..i];
        SeparatedStep(ms[..i + 1]);
        marks := marks + ["?"];
        vals := vals + [Field(row, cols[i])];
      }
      assert ms[..|ms|] == ms;
      SeparatedTexts(ms, marks);
      RowSections(cols, row);
      ph := "(" + CommaJoin(marks) + ")";
    }

    /** The pieces of the statement for the current action. */
    ghost function Pieces(): seq<Piece>
      reads this
    {
      match action
      case SelectRows => SelectPieces(Query())
      case InsertRow => InsertWith(table, KeyList(set k | k in inserts && ValidIdent(k)), [inserts], InsertSuffix())
      case InsertRows => InsertWith(table, batchCols, batchRows, UpsertText(dialect, onDuplicate, primaryKeys))
      case UpdateRows => UpdatePieces(table, KeyList(set k | k in updates && ValidIdent(k)), updates, soft, wheres)
      case DeleteRows => DeletePieces(table, soft, wheres)
    }

    /** The clauses that the current action prints bring their predicates' own arguments. */
    predicate ArgsTrusted()
      reads this
    {
      match action
      case SelectRows => ArgsKnown(wheres, havings, soft)
      case UpdateRows => ArgsKnown(wheres, [], soft)
      case DeleteRows => ArgsKnown(wheres, [], soft)
      case _ => true
    }

    /** Prints the statement for the current action, starting from an empty argument list. */
    method BuildRaw() returns (sql: string, vals: seq<Value>)
      modifies this`args
      ensures rawQuery != "" ==> sql == rawQuery && vals == rawArgs
      ensures rawQuery == "" && (action == InsertRows ==> old(BatchReady())) ==>
                && sql == TextOf(old(Pieces()))
                && (old(ArgsTrusted()) ==> vals == SqlText.ArgsOf(old(Pieces())))
    {
      hide TextOf, SqlText.ArgsOf, SelectPieces, InsertWith, UpdatePieces, DeletePieces, UpsertText, BatchReady;
      if rawQuery != "" {
        return rawQuery, rawArgs;
      }
      args := [];
      match action {
        case InsertRow => sql := BuildInsert("");
        case InsertRows => sql := BuildInsertBatch("");
        case UpdateRows => sql := BuildUpdate("");
        case DeleteRows => sql := BuildDelete("");
        case SelectRows => sql := BuildSelect("");
      }
      vals := args;
    }

    /** The fragments of the statement are closed texts with as many arguments as placeholders;
        names that the builder does not check itself hold neither. */
    ghost predicate Sendable()
      reads this
    {
      match action
      case SelectRows => Good(Query())
      case InsertRow => Inert(table) && InertAll(primaryKeys)
      case InsertRows => Inert(table) && InertAll(primaryKeys) && BatchReady()
      case _ => Inert(table) && GoodClauses(wheres) && GoodSoft(soft)
    }

    lemma SendableIsAligned()
      requires Sendable()
      ensures Aligned(Pieces())
      ensures ArgsTrusted()
    {
      hide Aligned, SelectPieces, InsertWith, UpdatePieces, DeletePieces, UpsertText, ReturningText, WholeAtoms,
        WholePredicate, AllWhole, Interleaved, TextOf, SqlText.ArgsOf, Inert, Sound;
      match action
      case SelectRows => SelectAligned(Query());
      case InsertRow =>
        UpsertInert(dialect, onDuplicate, primaryKeys);
        ReturningInert(dialect, autoIncCol);
        SuffixInert();
        InsertAligned(table, KeyList(set k | k in inserts && ValidIdent(k)), [inserts], InsertSuffix());
      case InsertRows =>
        UpsertInert(dialect, onDuplicate, primaryKeys);
        InsertAligned(table, batchCols, batchRows, UpsertText(dialect, onDuplicate, primaryKeys));
      case UpdateRows =>
        UpdateAligned(table, KeyList(set k | k in updates && ValidIdent(k)), updates, soft, wheres);
      case DeleteRows => DeleteAligned(table, soft, wheres);
    }

    lemma SuffixInert()
      requires InertAll(primaryKeys)
      ensures Inert(InsertSuffix()) && (InsertSuffix() != "" ==> InsertSuffix()[0] == ' ')
    {
      hide UpsertText, ReturningText, Inert;
      UpsertInert(dialect, onDuplicate, primaryKeys);
      ReturningInert(dialect, autoIncCol);
      InertConcat(UpsertText(dialect, onDuplicate, primaryKeys), ReturningText(dialect, autoIncCol));
    }

    /** The statement in the dialect of the database. For every action the server binds each
        argument to the placeholder of its own piece. */
    method Build() returns (sql: string, vals: seq<Value>)
      modifies this`args
      ensures rawQuery != "" ==> sql == InDialect(dialect, rawQuery) && vals == rawArgs
      ensures rawQuery == "" && (action == InsertRows ==> old(BatchReady())) ==>
                && sql == InDialect(dialect, TextOf(old(Pieces())))
                && (old(ArgsTrusted()) ==> vals == SqlText.ArgsOf(old(Pieces())))
      ensures rawQuery == "" && old(Sendable()) ==> Binds(dialect, sql, vals, old(Pieces()))
    {
      hide TextOf, SqlText.ArgsOf, Pieces, Aligned, BatchReady, Good, GoodClauses, Received, Binds;
      ghost var pieces := Pieces();
      if Sendable() {
        SendableIsAligned();
        StatementsBind(dialect, pieces);
      }
      sql, vals := BuildRaw();
      if dialect == Postgres {
        sql := ConvertPlaceholders(sql);
      }
    }

    // ----- terminal operations

    method Clone() returns (c: Builder)
      ensures fresh(c) && c.Query() == Query() && c.args == args && c.action == action
      ensures c.inserts == inserts && c.updates == updates
      ensures c.batchCols == batchCols && c.batchPlaceholders == batchPlaceholders && c.batchArgs == batchArgs
      ensures c.rawQuery == rawQuery && c.rawArgs == rawArgs && c.dialect == dialect
      ensures c.scope == scope && c.dest == dest && c.scopeSkipped == scopeSkipped && c.scopeApplied == scopeApplied
      ensures c.allowEmptyWhere == allowEmptyWhere
    {
      c := new Builder.Copy(this);
    }

    /** The query of the builder once the scope is folded in. */
    ghost function ScopedQuery(): Select
      reads this
    {
      Query().(wheres := ScopedWheres())
    }

    /** Folding the scope keeps a good query good, also under the columns of the probes. */
    lemma ScopedGood()
      requires Good(Query())
      ensures Good(ScopedQuery()) && Good(CountQuery(ScopedQuery())) && Good(ExistQuery(ScopedQuery()))
    {
      hide GoodClauses, Good, ScopedWheres, ScopeKeys, ScopeConds, Restricts, AllSound;
      ProbesGood(Query(), wheres);
      ScopedMeans();
      ProbesGood(Query(), ScopedWheres());
    }

    /** The statement of a SELECT, handed to the driver. */
    method Send() returns (r: Issued)
      requires rawQuery == "" && action == SelectRows
      modifies this`args
      ensures r.Statement? && Issues(r, dialect, Query())
    {
      hide TextOf, SqlText.ArgsOf, SelectPieces, ArgsKnown, InDialect, Binds, Good;
      var sql, vals := Build();
      r := Statement(sql, vals);
    }

    /** Folds the scope in and copies the builder. */
    method ScopedClone() returns (c: Builder)
      modifies this`wheres, this`scopeApplied
      ensures scopeApplied && Query() == old(ScopedQuery())
      ensures fresh(c) && c.Query() == Query() && c.rawQuery == rawQuery && c.action == action && c.dialect == dialect
    {
      hide Restricts, GoodClauses, ScopedWheres, AllSound;
      ApplyScope();
      c := Clone();
    }

    method Count() returns (r: Issued)
      requires rawQuery == "" && action == SelectRows
      modifies this`wheres, this`scopeApplied
      ensures scopeApplied && Query() == old(ScopedQuery())
      ensures r.Refused? <==> table == ""
      ensures r.Statement? ==> Issues(r, dialect, CountQuery(Query()))
      ensures r.Statement? && old(Good(Query())) ==> Bound(r, dialect, CountQuery(Query()))
    {
      hide Issues, Bound, Good, ScopedQuery;
      if Good(Query()) { ScopedGood(); }
      var clone := ScopedClone();
      clone.selects := [Lit("COUNT(*)")];
      if clone.table == "" {
        return Refused;
      }
      r := clone.Send();
      IssuesBound(r, dialect, CountQuery(Query()));
    }

    method Exist() returns (r: Issued)
      requires rawQuery == "" && action == SelectRows
      modifies this`wheres, this`scopeApplied
      ensures scopeApplied && Query() == old(ScopedQuery())
      ensures r.Refused? <==> table == ""
      ensures r.Statement? ==> Issues(r, dialect, ExistQuery(Query()))
      ensures r.Statement? && old(Good(Query())) ==> Bound(r, dialect, ExistQuery(Query()))
    {
      hide Issues, Bound, Good, ScopedQuery;
      if Good(Query()) { ScopedGood(); }
      var clone := ScopedClone();
      clone.selects := [Lit("1")];
      clone.limit := Some(1);
      if clone.table == "" {
        return Refused;
      }
      r := clone.Send();
      IssuesBound(r, dialect, ExistQuery(Query()));
    }

    static method AllColumns(columns: seq<string>) returns (cols: seq<Piece>)
      ensures cols == Lits(columns)
    {
      cols := [];
      for i := 0 to |columns|
        invariant cols == Lits(columns[..i])
      {
        cols := cols + [Lit(columns[i])];
      }
      assert columns[..|columns|] == columns;
    }

    /** Columns and table default to those of the destination model. */
    method ShapeFor(model: ModelInfo, one: bool)
      modifies this`limit, this`selects, this`table
      ensures Query() == ForModel(old(Query()), model, one)
    {
      if one {
        limit := Some(1);
      }
      if |selects| == 0 {
        selects := AllColumns(model.columns);
      }
      if table == "" {
        table := if ValidIdent(model.name) then model.name else "";
      }
    }

    /** Find, and FindAll when `one` is false. */
    method Fetch(model: ModelInfo, one: bool) returns (r: Issued)
      requires rawQuery == "" && action == SelectRows
      modifies this`wheres, this`scopeApplied
      ensures scopeApplied && Query() == old(ScopedQuery())
      ensures r.Refused? <==> table == "" && !ValidIdent(model.name)
      ensures r.Statement? ==> Issues(r, dialect, ForModel(Query(), model, one))
      ensures r.Statement? && old(Good(Query())) && InertAll(model.columns) ==>
                Bound(r, dialect, ForModel(Query(), model, one))
    {
      hide Issues, Bound, Good, ScopedQuery, InertAll;
      if Good(Query()) && InertAll(model.columns) {
        ScopedGood();
        ForModelGood(ScopedQuery(), model, one);
      }
      var clone := ScopedClone();
      clone.ShapeFor(model, one);
      if clone.table == "" {
        return Refused;
      }
      r := clone.Send();
      IssuesBound(r, dialect, ForModel(Query(), model, one));
    }

    /** Any run of terminal reads folds the scope once and leaves the same query behind. */
    method RunTerminals(ops: seq<Terminal>)
      requires rawQuery == "" && action == SelectRows
      modifies this`wheres, this`scopeApplied
      ensures ops != [] ==> scopeApplied && Query() == old(ScopedQuery())
      ensures ops == [] ==> Query() == old(Query()) && scopeApplied == old(scopeApplied)
    {
      hide ScopedWheres, Issues, Bound, Good;
      for i := 0 to |ops|
        invariant i == 0 ==> Query() == old(Query()) && scopeApplied == old(scopeApplied) && wheres == old(wheres)
        invariant i == 0 ==> ScopedWheres() == old(ScopedWheres())
        invariant i > 0 ==> scopeApplied && Query() == old(ScopedQuery())
      {
        if scopeApplied { NothingToFold(); }
        match ops[i] {
          case CountRows => var _ := Count();
          case ExistRow => var _ := Exist();
          case FindOne(m) => var _ := Fetch(m, true);
          case FindEvery(m) => var _ := Fetch(m, false);
        }
      }
    }

    // ----- pages

    /** The total comes from the counted statement, the rows from the fetched one. */
    method Paginate<R>(model: ModelInfo, page: int, perPage: int, server: Server<R>)
      returns (p: Page<R>, counted: Issued, fetched: Option<Issued>)
      requires rawQuery == "" && action == SelectRows
      modifies this`wheres, this`scopeApplied, this`limit, this`offset
      ensures p == PageOf(server, dialect, old(ScopedQuery()), model, PageNumber(page), ClampPerPage(perPage))
      ensures counted.Refused? <==> table == ""
      ensures counted.Statement? ==> Issues(counted, dialect, CountQuery(old(ScopedQuery())))
      ensures fetched.Some? <==> p.NoFetch? || (p.Rows? && p.total > 0)
      ensures var next := PageQuery(old(ScopedQuery()), model, PageNumber(page), ClampPerPage(perPage));
              fetched.Some? ==> fetched.value.Statement? && Issues(fetched.value, dialect, next)
      ensures Query() == if fetched.None? then old(ScopedQuery())
                         else Paged(old(ScopedQuery()), PageNumber(page), ClampPerPage(perPage))
      ensures scopeApplied
    {
      hide ScopedWheres, ScopedQuery, Issues, LastPage, PageOffset, CountAnswer, FetchAnswer, Bound, Good;
      var at := if page < 1 then 1 else page;
      var size := perPage;
      if size < 1 {
        size := 10;
      }
      if size > 100 {
        size := 100;
      }
      counted := Count();
      if counted.Refused? {
        return NoCount, counted, None;
      }
      var total := CountAnswer(server, dialect, CountQuery(Query()));
      if total.None? {
        return NoCount, counted, None;
      }
      var last := LastPage(total.value, size);
      if total.value == 0 {
        return Rows(0, at, size, last, []), counted, None;
      }
      limit, offset := Some(size), Some(PageOffset(at, size));
      NothingToFold();
      ScopedIs();
      var issued := Fetch(model, false);
      var rows := FetchAnswer(server, ForModel(Query(), model, false));
      if rows.None? {
        return NoFetch, counted, Some(issued);
      }
      return Rows(total.value, at, size, last, rows.value), counted, Some(issued);
    }

    lemma ScopedIs()
      ensures ScopedQuery() == Query().(wheres := ScopedWheres())
    {
    }
  }

  /** The rows selected by `ws'` are those of the user's chain `ws` that satisfy the soft-delete
      condition and every scope equality, however SQL reads the printed text. */
  ghost predicate Restricts(soft: Option<Predicate>, ws: seq<Clause>, keys: seq<string>, conds: map<string, Value>,
                            ws': seq<Clause>)
    requires AllSound(ws) && forall k :: k in keys ==> k in conds
  {
    && AllSound(ws') && ws' != []
    && Parse(WhereTokens(soft, ws')) == Some(WhereTree(soft, ws'))
    && forall row: Row :: Eval(WhereTree(soft, ws'), row) ==
         KAnd(SoftTruth(soft, row), KAnd(UserTruth(ws, row), InScope(keys, conds, row)))
  }

  lemma FoldedRestricts(soft: Option<Predicate>, ws: seq<Clause>, keys: seq<string>, conds: map<string, Value>)
    requires AllSound(ws) && keys != [] && forall k :: k in keys ==> k in conds
    ensures Restricts(soft, ws, keys, conds, Folded(ws, keys, conds))
  {
    hide Parse, Folded, InScope, Eval, WhereTree, WhereTokens, SoftTruth, UserTruth;
    var f := Folded(ws, keys, conds);
    FoldedReads(ws, keys, conds);
    WhereReads(soft, f);
    forall row: Row
      ensures Eval(WhereTree(soft, f), row) ==
              KAnd(SoftTruth(soft, row), KAnd(UserTruth(ws, row), InScope(keys, conds, row)))
    {
      ScopedMeaning(soft, ws, keys, conds, row);
    }
  }

  function InDialect(d: Dialect, s: string): string {
    if d == Postgres then Numbered(Lex(s), 0) else s
  }

  /** What the server makes of a statement and its arguments: MySQL takes the arguments in order,
      Postgres by number. */
  function Received(d: Dialect, sql: string, vals: seq<Value>): seq<SqlText.Cell<Value>> {
    if d == Postgres then ServerBind(ReadPg(sql), vals)
    else if Holes(sql) == |vals| then Bind(Lex(sql), vals)
    else []
  }

  /** Every argument of the statement reaches the placeholder of its own piece. */
  ghost predicate Binds(d: Dialect, sql: string, vals: seq<Value>, pieces: seq<Piece>) {
    Aligned(pieces) && Received(d, sql, vals) == BoundParts(pieces)
  }

  /** In either dialect a statement built from aligned pieces binds every argument to the
      placeholder of its own piece. */
  lemma StatementsBind(d: Dialect, pieces: seq<Piece>)
    requires Aligned(pieces)
    ensures Binds(d, InDialect(d, TextOf(pieces)), SqlText.ArgsOf(pieces), pieces)
  {
    hide Bind, Lex, Aligned, BoundParts, ServerBind, ReadPg, Numbered, TextOf, SqlText.ArgsOf;
    PartsBindSeparately(pieces);
    AlignedBinds(pieces);
  }

  /** The statement handed to the driver, or the missing-table error. */
  datatype Issued = Statement(sql: string, vals: seq<Value>) | Refused

  ghost predicate Issues(r: Issued, d: Dialect, q: Select)
    requires r.Statement?
  {
    && r.sql == InDialect(d, TextOf(SelectPieces(q)))
    && (ArgsKnown(q.wheres, q.havings, q.soft) ==> r.vals == SqlText.ArgsOf(SelectPieces(q)))
    && (Good(q) ==> Binds(d, r.sql, r.vals, SelectPieces(q)))
  }

  /** Every argument of the issued statement reaches the placeholder of its own piece. */
  ghost predicate Bound(r: Issued, d: Dialect, q: Select)
    requires r.Statement?
  {
    Binds(d, r.sql, r.vals, SelectPieces(q))
  }

  lemma IssuesBound(r: Issued, d: Dialect, q: Select)
    requires r.Statement? && Issues(r, d, q)
    ensures Good(q) ==> Bound(r, d, q)
  {
  }

  /** The destination: its table name and its columns; one that is no struct, nor a slice of them,
      has no columns. */
  datatype ModelInfo = ModelInfo(name: string, columns: seq<string>)

  datatype Terminal = CountRows | ExistRow | FindOne(m: ModelInfo) | FindEvery(m: ModelInfo)

  function ForModel(q: Select, model: ModelInfo, one: bool): Select {
    q.(selects := if q.selects == [] then Lits(model.columns) else q.selects,
       table := if q.table != "" then q.table else if ValidIdent(model.name) then model.name else "",
       limit := if one then Some(1) else q.limit)
  }

  lemma ForModelGood(q: Select, model: ModelInfo, one: bool)
    requires Good(q) && InertAll(model.columns)
    ensures Good(ForModel(q, model, one))
  {
    hide GoodClauses, Interleaved, GoodSoft;
    InertLits(model.columns);
    if ValidIdent(model.name) { IdentIsInert(model.name); }
  }

  lemma ProbesGood(q: Select, ws: seq<Clause>)
    requires Good(q)
    ensures GoodClauses(q.wheres)
    ensures GoodClauses(ws) ==> var r := q.(wheres := ws); Good(r) && Good(CountQuery(r)) && Good(ExistQuery(r))
  {
    hide GoodClauses, Interleaved, AllWhole, Whole;
    LitIsGood("COUNT(*)");
    LitIsGood("1");
    OnlyWhole(Lit("COUNT(*)"));
    OnlyWhole(Lit("1"));
  }

  lemma OnlyWhole(p: Piece)
    requires Whole(p)
    ensures AllWhole([p])
  {
  }

  function ExistQuery(q: Select): Select {
    q.(selects := [Lit("1")], limit := Some(1))
  }

  function CountQuery(q: Select): Select {
    q.(selects := [Lit("COUNT(*)")])
  }

  function PageNumber(page: int): int {
    if page < 1 then 1 else page
  }

  function Paged(q: Select, at: int, size: nat): Select
    requires at >= 1
  {
    q.(limit := Some(size), offset := Some(PageOffset(at, size)))
  }

  function PageQuery(q: Select, model: ModelInfo, at: int, size: nat): Select
    requires at >= 1
  {
    ForModel(Paged(q, at, size), model, false)
  }

  /** What the caller gets for a page of the scoped query. */
  function PageOf<R>(server: Server<R>, d: Dialect, q: Select, model: ModelInfo, at: int, size: nat): Page<R>
    requires at >= 1 && size >= 1
  {
    var total := CountAnswer(server, d, CountQuery(q));
    if q.table == "" || total.None? then NoCount
    else if total.value == 0 then Rows(0, at, size, LastPage(0, size), [])
    else
      match FetchAnswer(server, PageQuery(q, model, at, size))
      case None => NoFetch
      case Some(rows) => Rows(total.value, at, size, LastPage(total.value, size), rows)
  }

  // ----- what the database answers

  /** A database. `matching` are the rows a query without grouping selects, in order; `grouped` the
      rows of one with GROUP BY or HAVING, if it accepts it; `groups` the counts per group; `having`
      whether the one group of an ungrouped aggregate passes; `ordersAggregate` whether it accepts
      the ORDER BY of an aggregate. */
  datatype Server<!R> = Server(
    matching: Select -> seq<R>,
    grouped: Select -> Option<seq<R>>,
    groups: Select -> seq<nat>,
    having: Select -> bool,
    ordersAggregate: Select -> bool)

  /** The part of a query that decides which rows there are and in what order. */
  function Core(q: Select): Select {
    q.(selects := [], limit := None, offset := None, lock := false)
  }

  predicate Ungrouped(q: Select) {
    q.groupBys == [] && q.havings == []
  }

  /** The rows of a COUNT(*) query before its window; None is an error. Postgres does not lock the
      rows of an aggregate. */
  function Counts<R>(server: Server<R>, d: Dialect, q: Select): Option<seq<nat>> {
    if d == Postgres && q.lock then None
    else if q.orderBys != [] && !server.ordersAggregate(Core(q)) then None
    else if q.groupBys != [] then Some(server.groups(Core(q)))
    else if q.havings != [] && !server.having(Core(q)) then Some([])
    else Some([|server.matching(Core(q))|])
  }

  /** LIMIT and OFFSET; a negative number is an error. */
  function Cut<T>(rows: seq<T>, limit: Option<int>, offset: Option<int>): Option<seq<T>> {
    if (limit.Some? && limit.value < 0) || (offset.Some? && offset.value < 0) then None
    else
      var start := if offset.Some? then offset.value else 0;
      Some(if limit.Some? then Window(rows, start, limit.value) else if start >= |rows| then [] else rows[start..])
  }

  /** The first row of the counting statement, as a single-row read returns it. */
  function CountAnswer<R>(server: Server<R>, d: Dialect, q: Select): Option<nat> {
    match Counts(server, d, q)
    case None => None
    case Some(rows) =>
      var seen := Cut(rows, q.limit, q.offset);
      if seen.None? || seen.value == [] then None else Some(seen.value[0])
  }

  function FetchAnswer<R>(server: Server<R>, q: Select): Option<seq<R>> {
    if Ungrouped(q) then Cut(server.matching(Core(q)), q.limit, q.offset)
    else
      match server.grouped(q.(limit := None, offset := None))
      case None => None
      case Some(rows) => Cut(rows, q.limit, q.offset)
  }

  /** COUNT(*) gives one row; the builder's own window may cut it off. */
  predicate CountVisible(limit: Option<int>, offset: Option<int>) {
    (limit.None? || limit.value >= 1) && (offset.None? || offset.value == 0)
  }

  /** The count and the page look at the same table, joins, conditions and order. */
  lemma OnePredicate(q: Select, model: ModelInfo, at: int, size: nat)
    requires at >= 1 && q.table != ""
    ensures Core(CountQuery(q)) == Core(PageQuery(q, model, at, size)) == Core(q)
  {
  }

  /** An ungrouped query gets no count exactly when Postgres is asked to lock, the order is not
      accepted, HAVING drops the one group, or the builder's window hides its row. */
  lemma NoCountExactly<R>(server: Server<R>, d: Dialect, q: Select)
    requires q.groupBys == []
    ensures CountAnswer(server, d, CountQuery(q)).None? <==>
            || (d == Postgres && q.lock)
            || (q.orderBys != [] && !server.ordersAggregate(Core(q)))
            || (q.havings != [] && !server.having(Core(q)))
            || !CountVisible(q.limit, q.offset)
    ensures CountAnswer(server, d, CountQuery(q)).Some? ==>
              CountAnswer(server, d, CountQuery(q)).value == |server.matching(Core(q))|
  {
  }

  /** Without grouping, a counted page has the size of the result as its total and exactly the
      rows of that page. */
  lemma UngroupedPage<R>(server: Server<R>, d: Dialect, q: Select, model: ModelInfo, at: int, size: nat)
    requires Ungrouped(q) && q.table != "" && at >= 1 && size >= 1
    ensures var result := server.matching(Core(q));
            PageOf(server, d, q, model, at, size) ==
            if CountAnswer(server, d, CountQuery(q)).None? then NoCount
            else Rows(|result|, at, size, LastPage(|result|, size), PageRows(result, at, size))
  {
    hide LastPage, PageRows;
    var result := server.matching(Core(q));
    NoCountExactly(server, d, q);
    OnePredicate(q, model, at, size);
    PageIsWindow(result, at, size);
    if result == [] { EmptyPage(result, at, size); }
  }

  /** The rows of pages 1 to `n`, each asked of a builder with the same query. */
  function PagesOf<R>(server: Server<R>, d: Dialect, q: Select, model: ModelInfo, size: nat, n: nat): seq<R>
    requires size >= 1
  {
    if n == 0 then []
    else
      var page := PageOf(server, d, q, model, n, size);
      PagesOf(server, d, q, model, size, n - 1) + if page.Rows? then page.rows else []
  }

  /** The pages of a counted query without grouping tile its result: up to the last page, as every
      one of them reports it, they hold each selected row once and in order. */
  lemma PagesTileResult<R>(server: Server<R>, d: Dialect, q: Select, model: ModelInfo, size: nat, at: int)
    requires Ungrouped(q) && q.table != "" && size >= 1 && at >= 1
    requires CountAnswer(server, d, CountQuery(q)).Some?
    ensures var page := PageOf(server, d, q, model, at, size);
            page.Rows? && page.lastPage >= 0 &&
            PagesOf(server, d, q, model, size, page.lastPage) == server.matching(Core(q))
  {
    hide LastPage, PageRows, PageOf, PagesUpTo;
    var result := server.matching(Core(q));
    var last := LastPage(|result|, size);
    UngroupedPage(server, d, q, model, at, size);
    PagesAreWindows(server, d, q, model, size, last);
    PagesCoverResult(result, size, 1);
  }

  lemma {:induction false} PagesAreWindows<R>(server: Server<R>, d: Dialect, q: Select, model: ModelInfo, size: nat,
                                              n: nat)
    requires Ungrouped(q) && q.table != "" && size >= 1
    requires CountAnswer(server, d, CountQuery(q)).Some?
    ensures PagesOf(server, d, q, model, size, n) == PagesUpTo(server.matching(Core(q)), n, size)
  {
    hide LastPage, PageRows, PageOf;
    if n > 0 {
      PagesAreWindows(server, d, q, model, size, n - 1);
      UngroupedPage(server, d, q, model, n, size);
    }
  }

  // ----- two pages from one builder

  /** Once a count was seen, the window of a page hides the next count exactly when the page starts
      past the rows of the count: for one without GROUP BY, when it is not page one. */
  lemma WindowHidesCountExactly<R>(server: Server<R>, d: Dialect, q: Select, at: int, size: nat)
    requires at >= 1 && size >= 1 && CountAnswer(server, d, CountQuery(q)).Some?
    ensures Counts(server, d, CountQuery(q)).Some?
    ensures CountAnswer(server, d, CountQuery(Paged(q, at, size))).None? <==>
            PageOffset(at, size) >= |Counts(server, d, CountQuery(q)).value|
    ensures q.groupBys == [] ==> (CountAnswer(server, d, CountQuery(Paged(q, at, size))).None? <==> at > 1)
  {
    hide PageOffset;
    assert Core(CountQuery(Paged(q, at, size))) == Core(CountQuery(q));
    LaterPagesStartLater(at, size);
  }

  /** Whether a page was fetched, which is when the builder's window was set. */
  predicate Fetched<R>(page: Page<R>) {
    page.NoFetch? || (page.Rows? && page.total > 0)
  }

  lemma SecondPage<R>(server: Server<R>, d: Dialect, q: Select, model: ModelInfo, at: int, size: nat, model2: ModelInfo,
                      at2: int, size2: nat)
    requires at >= 1 && size >= 1 && at2 >= 1 && size2 >= 1
    ensures PageOf(server, d, q, model, at, size).NoCount? <==> PageOf(server, d, q, model2, at2, size2).NoCount?
    ensures !PageOf(server, d, q, model, at, size).NoCount? ==>
              && Counts(server, d, CountQuery(q)).Some?
              && (PageOf(server, d, Paged(q, at, size), model2, at2, size2).NoCount? <==>
                    PageOffset(at, size) >= |Counts(server, d, CountQuery(q)).value|)
              && (Ungrouped(q) ==>
                    PageOf(server, d, Paged(q, at, size), model2, at2, size2) ==
                    if at > 1 then NoCount else PageOf(server, d, q, model2, at2, size2))
  {
    hide PageOffset, CountAnswer, Counts, LastPage, PageRows;
    if !PageOf(server, d, q, model, at, size).NoCount? {
      WindowHidesCountExactly(server, d, q, at, size);
      if Ungrouped(q) {
        assert Core(Paged(q, at, size)) == Core(q);
        UngroupedPage(server, d, q, model2, at2, size2);
        UngroupedPage(server, d, Paged(q, at, size), model2, at2, size2);
      }
    }
  }

  /** Two pages asked of the same builder. The second gets no count exactly when the first got none,
      or fetched a page that starts past the rows of its count. Without grouping that is a page
      after the first of a result that is not empty, and otherwise the second call answers what a
      new builder would. */
  method PaginateTwice<R>(b: Builder, model: ModelInfo, page: int, perPage: int, model2: ModelInfo, page2: int,
                          perPage2: int, server: Server<R>)
    returns (first: Page<R>, second: Page<R>)
    requires b.rawQuery == "" && b.action == SelectRows
    modifies b`wheres, b`scopeApplied, b`limit, b`offset
    ensures first == PageOf(server, b.dialect, old(b.ScopedQuery()), model, PageNumber(page), ClampPerPage(perPage))
    ensures first.NoCount? ==> second.NoCount?
    ensures var counts := Counts(server, b.dialect, CountQuery(old(b.ScopedQuery())));
            !first.NoCount? ==>
              && counts.Some?
              && (second.NoCount? <==>
                    Fetched(first) && PageOffset(PageNumber(page), ClampPerPage(perPage)) >= |counts.value|)
    ensures var again := PageOf(server, b.dialect, old(b.ScopedQuery()), model2, PageNumber(page2),
                                ClampPerPage(perPage2));
            Ungrouped(b.Query()) && !first.NoCount? ==>
              second == if Fetched(first) && PageNumber(page) > 1 then NoCount else again
  {
    hide Issues, Bound, Good, PageOf, Counts, PageOffset, Builder.ScopedWheres;
    var counted, fetched;
    ghost var q := b.ScopedQuery();
    first, counted, fetched := b.Paginate(model, page, perPage, server);
    b.NothingToFold();
    b.ScopedIs();
    ghost var at, size := PageNumber(page), ClampPerPage(perPage);
    second, counted, fetched := b.Paginate(model2, page2, perPage2, server);
    SecondPage(server, b.dialect, q, model, at, size, model2, PageNumber(page2), ClampPerPage(perPage2));
  }

  /** Eleven rows: page two is served, and then page one of the same builder is refused. */
  method SecondPaginateFails() returns (first: Page<int>, second: Page<int>)
    ensures first == Rows(11, 2, 10, 2, [10]) && second == NoCount
  {
    hide Issues, Bound, Good;
    var b := new Builder("t", MySQL);
    var model := ModelInfo("t", ["id"]);
    var server: Server<int> := Server(_ => seq(11, i => i), _ => None, _ => [], _ => true, _ => true);
    b.NothingToFold();
    UngroupedPage(server, MySQL, b.ScopedQuery(), model, 2, 10);
    NoCountExactly(server, MySQL, b.ScopedQuery());
    first, second := PaginateTwice(b, model, 2, 10, model, 1, 10, server);
  }

  lemma LaterPagesStartLater(at: int, size: nat)
    requires at >= 1 && size >= 1
    ensures PageOffset(at, size) == 0 <==> at == 1
  {
    if at > 1 {
      Monotone(1, at - 1, size);
    }
  }

  datatype Page<R> = Rows(total: int, page: int, perPage: int, lastPage: int, rows: seq<R>) | NoCount | NoFetch
}
