/** The audit trail of one row: what each history-writing operation stores and records.

    A row is the columns of a model plus its decoded history. `Apply` is one operation inside its
    transaction, from the locked row to the written row; it fails where the source returns an
    error and rolls back. The actor columns and NoHistory are left out. */
module HistoryRows {
  import opened Wrappers
  import opened Conditions
  import opened Names

  const DELETED_AT := "deleted_at"
  const HISTORY := "history"

  /** What reflection finds in a model type. `columns` are its columns other than the history
      column; `historyTracked` tells whether that one lacks the history:"-" tag. */
  datatype Schema = Schema(
    columns: set<string>,
    keys: set<string>,
    autoIncrement: set<string>,
    excluded: set<string>,
    autofill: set<string>,
    nullable: set<string>,
    historyTracked: bool,
    zero: map<string, Value>,
    defaults: map<string, Value>)

  predicate WellFormed(sc: Schema) {
    && DELETED_AT in sc.columns && HISTORY !in sc.columns && (forall c :: c in sc.columns ==> ValidIdent(c))
    && sc.zero.Keys == sc.columns && sc.defaults.Keys == sc.columns
    && sc.autoIncrement <= sc.keys && DELETED_AT !in sc.keys
    && sc.zero[DELETED_AT] == Null && sc.defaults[DELETED_AT] == Null
  }

  datatype Action = Created | Modified | Deleted | Restored

  /** `ofHistory`: the changes also list the history column itself. */
  datatype Entry = Entry(action: Action, changes: map<string, Value>, ofHistory: bool)

  datatype Row = Row(cols: map<string, Value>, history: seq<Entry>)

  /** A struct operand. */
  datatype Model = Model(cols: map<string, Value>, history: seq<Entry>)

  predicate Fits(sc: Schema, m: Model)
    requires WellFormed(sc)
  {
    m.cols.Keys == sc.columns && forall c :: c in m.cols && m.cols[c] == Null ==> sc.zero[c] == Null
  }

  /** `sel` are the selected columns, empty for all; `all` lifts the soft-delete condition; `nul`
      are the columns the builder was told to treat as nullable. */
  datatype Op =
    | InsertModel(self: Model, sel: set<string>)
    | InsertMap(data: map<string, Value>, nul: set<string>, sel: set<string>)
    | UpdateModel(self: Model, sel: set<string>, all: bool)
    | UpdateMap(data: map<string, Value>, nul: set<string>, all: bool)
    | Delete(now: int, all: bool)
    | Restore
    | Purge

  predicate Proper(sc: Schema, op: Op)
    requires WellFormed(sc)
  {
    (op.InsertModel? || op.UpdateModel? ==> Fits(sc, op.self))
  }

  // ----- reflection helpers

  predicate Tracked(sc: Schema, c: string) {
    c in sc.columns && c !in sc.keys && c !in sc.excluded
  }

  predicate Selected(sel: set<string>, c: string) {
    sel == {} || c in sel
  }

  /** structToMap: the columns a struct operand writes. */
  predicate Written(sc: Schema, sel: set<string>, c: string) {
    c in sc.columns && if sel == {} then c !in sc.autofill && c !in sc.autoIncrement else c in sel
  }

  function StoredValue(sc: Schema, c: string, v: Value): Value
    requires c in sc.zero
  {
    if c in sc.nullable && v == sc.zero[c] then Null else v
  }

  /** A zero value under a column named nullable is stored as NULL. */
  function StoredMapValue(sc: Schema, nul: set<string>, c: string, v: Value): Value
    requires c in sc.zero
  {
    if c in nul && v == sc.zero[c] then Null else v
  }

  /** scanMapToStruct leaves a field alone when the column is NULL. */
  function LoadedValue(sc: Schema, c: string, v: Value): Value
    requires c in sc.zero
  {
    if v == Null then sc.zero[c] else v
  }

  /** StructToHistoryMap. */
  function HistoryMap(sc: Schema, m: Model, sel: set<string>): map<string, Value> {
    map c | c in m.cols && Tracked(sc, c) && Selected(sel, c) :: m.cols[c]
  }

  predicate FullRow(sc: Schema, row: Row) {
    row.cols.Keys == sc.columns
  }

  function Load(sc: Schema, row: Row): Model
    requires WellFormed(sc) && FullRow(sc, row)
  {
    Model(map c | c in row.cols :: LoadedValue(sc, c, row.cols[c]), row.history)
  }

  /** diffForHistory: the tracked, selected columns whose value differs. */
  function Diff(sc: Schema, was: Model, m: Model, sel: set<string>): map<string, Value>
    requires was.cols.Keys == m.cols.Keys
  {
    var after := HistoryMap(sc, m, sel);
    map c | c in after && after[c] != was.cols[c] :: after[c]
  }

  predicate HistoryDiffers(sc: Schema, was: Model, m: Model, sel: set<string>) {
    sc.historyTracked && Selected(sel, HISTORY) && was.history != m.history
  }

  // ----- the operations

  predicate Found(row: Option<Row>, all: bool) {
    row.Some? && (all || (DELETED_AT in row.value.cols && row.value.cols[DELETED_AT] == Null))
  }

  /** The keys of a map operand that reach the statement; a key that is no identifier is skipped,
      and the operand's own history is replaced. */
  function WrittenKeys(data: map<string, Value>): set<string> {
    set k | k in data && ValidIdent(k) && k != HISTORY
  }

  /** The selection leaves nothing to write. */
  predicate Unselected(cols: set<string>, sel: set<string>) {
    sel != {} && sel !! cols + {HISTORY}
  }

  function InsertedModel(sc: Schema, m: Model, sel: set<string>): Row
    requires WellFormed(sc) && Fits(sc, m)
  {
    Row(map c | c in sc.columns :: if Written(sc, sel, c) then StoredValue(sc, c, m.cols[c]) else sc.defaults[c],
        [Entry(Created, HistoryMap(sc, m, sel), sc.historyTracked && Selected(sel, HISTORY))])
  }

  /** The selection filters what is stored, the history column included, but not what is recorded,
      and neither does the skipping of keys that are no identifiers. */
  function InsertedMap(sc: Schema, data: map<string, Value>, nul: set<string>, sel: set<string>): Row
    requires WellFormed(sc)
  {
    Row(map c | c in sc.columns ::
          if c in data && Selected(sel, c) then StoredMapValue(sc, nul, c, data[c]) else sc.defaults[c],
        if Selected(sel, HISTORY) then [Entry(Created, data, false)] else [])
  }

  /** An entry is appended only when something tracked changed; otherwise a selected history
      column is overwritten with the operand's own. */
  function UpdatedModel(sc: Schema, row: Row, m: Model, sel: set<string>): Row
    requires WellFormed(sc) && FullRow(sc, row) && Fits(sc, m)
  {
    var was := Load(sc, row);
    var changes := Diff(sc, was, m, sel);
    var ofHistory := HistoryDiffers(sc, was, m, sel);
    Row(map c | c in sc.columns :: if Written(sc, sel, c) then StoredValue(sc, c, m.cols[c]) else row.cols[c],
        if changes != map[] || ofHistory then row.history + [Entry(Modified, changes, ofHistory)]
        else if Selected(sel, HISTORY) then m.history
        else row.history)
  }

  function UpdatedMap(sc: Schema, row: Row, data: map<string, Value>, nul: set<string>): Row
    requires WellFormed(sc) && FullRow(sc, row)
  {
    Row(map c | c in sc.columns ::
          if c in data then StoredMapValue(sc, nul, c, data[c]) else row.cols[c],
        row.history + [Entry(Modified, data, false)])
  }

  /** None is an error, which changes nothing; Some(None) is a removed row. */
  function Apply(sc: Schema, op: Op, row: Option<Row>): (r: Option<Option<Row>>)
    requires WellFormed(sc) && Proper(sc, op) && (row.Some? ==> FullRow(sc, row.value))
    ensures r.Some? && r.value.Some? ==> FullRow(sc, r.value.value)
  {
    match op
    case InsertModel(m, sel) =>
      if row.Some? then None else Some(Some(InsertedModel(sc, m, sel)))
    case InsertMap(data, nul, sel) =>
      if row.Some? || !(WrittenKeys(data) <= sc.columns) || Unselected(WrittenKeys(data), sel) then None
      else Some(Some(InsertedMap(sc, data, nul, sel)))
    case UpdateModel(m, sel, all) =>
      if !Found(row, all) || Unselected(sc.columns, sel) then None
      else Some(Some(UpdatedModel(sc, row.value, m, sel)))
    case UpdateMap(data, nul, all) =>
      if !Found(row, all) || !(WrittenKeys(data) <= sc.columns) then None
      else Some(Some(UpdatedMap(sc, row.value, data, nul)))
    case Delete(now, all) =>
      if !Found(row, all) then None
      else if all then Some(None)
      else
        var entry := Entry(Deleted, map[], false);
        Some(Some(Row(row.value.cols[DELETED_AT := Number(now)], row.value.history + [entry])))
    case Restore =>
      if row.None? then None
      else Some(Some(Row(row.value.cols[DELETED_AT := Null], row.value.history + [Entry(Restored, map[], false)])))
    case Purge =>
      if row.None? then None else Some(None)
  }

  // ----- what an operation records

  /** The entry an operation ought to add, if any. */
  function EntryOf(sc: Schema, op: Op, row: Option<Row>): seq<Entry>
    requires WellFormed(sc) && Proper(sc, op) && (row.Some? ==> FullRow(sc, row.value))
  {
    match op
    case InsertModel(m, sel) => [Entry(Created, HistoryMap(sc, m, sel), sc.historyTracked && Selected(sel, HISTORY))]
    case InsertMap(data, nul, sel) => [Entry(Created, data, false)]
    case UpdateModel(m, sel, all) =>
      if row.None? then []
      else
        var was := Load(sc, row.value);
        var changes := Diff(sc, was, m, sel);
        var ofHistory := HistoryDiffers(sc, was, m, sel);
        if changes != map[] || ofHistory then [Entry(Modified, changes, ofHistory)] else []
    case UpdateMap(data, nul, all) => [Entry(Modified, data, false)]
    case Delete(now, all) => [Entry(Deleted, map[], false)]
    case Restore => [Entry(Restored, map[], false)]
    case Purge => []
  }

  function HistoryOf(row: Option<Row>): seq<Entry> {
    if row.Some? then row.value.history else []
  }

  /** The trail is safe from this operation: a map insert selects the history column if it
      selects anything, and a struct update that changes nothing tracked does not write a
      history of its own. */
  predicate KeepsTrail(sc: Schema, op: Op, row: Option<Row>)
    requires WellFormed(sc) && Proper(sc, op) && (row.Some? ==> FullRow(sc, row.value))
  {
    match op
    case InsertMap(data, nul, sel) => Selected(sel, HISTORY)
    case UpdateModel(m, sel, all) =>
      row.Some? ==>
        || EntryOf(sc, op, row) != []
        || !Selected(sel, HISTORY)
        || m.history == row.value.history
    case _ => true
  }

  /** The stored history is the earlier one plus the operation's entry, exactly when the trail is
      safe from the operation. */
  lemma StepExtendsHistoryExactly(sc: Schema, op: Op, row: Option<Row>)
    requires WellFormed(sc) && Proper(sc, op) && (row.Some? ==> FullRow(sc, row.value))
    requires Apply(sc, op, row).Some? && Apply(sc, op, row).value.Some?
    ensures Apply(sc, op, row).value.value.history == HistoryOf(row) + EntryOf(sc, op, row)
            <==> KeepsTrail(sc, op, row)
  {
    if row.Some? {
      assert row.value.history + [] == row.value.history;
    }
  }

  /** With an untracked history column, saving an unchanged struct with a stale history erases
      every entry. */
  lemma UntrackedHistoryCanBeLost(sc: Schema, row: Row)
    requires WellFormed(sc) && FullRow(sc, row) && !sc.historyTracked
    requires row.cols[DELETED_AT] == Null && row.history != []
    ensures var m := Load(sc, row).(history := []);
            && Fits(sc, m)
            && Apply(sc, UpdateModel(m, {}, false), Some(row)).Some?
            && HistoryOf(Apply(sc, UpdateModel(m, {}, false), Some(row)).value) == []
  {
    var m := Load(sc, row).(history := []);
    var changes := Diff(sc, Load(sc, row), m, {});
    assert changes == map[];
  }

  // ----- runs

  /** Failed operations leave the row as it was. */
  function Step(sc: Schema, row: Option<Row>, op: Op): (r: Option<Row>)
    requires WellFormed(sc) && Proper(sc, op) && (row.Some? ==> FullRow(sc, row.value))
    ensures r.Some? ==> FullRow(sc, r.value)
  {
    var a := Apply(sc, op, row);
    if a.Some? then a.value else row
  }

  predicate AllProper(sc: Schema, ops: seq<Op>)
    requires WellFormed(sc)
  {
    forall i :: 0 <= i < |ops| ==> Proper(sc, ops[i])
  }

  function Fold(sc: Schema, row: Option<Row>, ops: seq<Op>): (r: Option<Row>)
    requires WellFormed(sc) && AllProper(sc, ops) && (row.Some? ==> FullRow(sc, row.value))
    ensures r.Some? ==> FullRow(sc, r.value)
    decreases |ops|
  {
    if ops == [] then row else Step(sc, Fold(sc, row, ops[..|ops| - 1]), ops[|ops| - 1])
  }

  /** The entries of the operations that took effect, in order. */
  function Entries(sc: Schema, row: Option<Row>, ops: seq<Op>): seq<Entry>
    requires WellFormed(sc) && AllProper(sc, ops) && (row.Some? ==> FullRow(sc, row.value))
    decreases |ops|
  {
    if ops == [] then []
    else
      var init, op := ops[..|ops| - 1], ops[|ops| - 1];
      var before := Fold(sc, row, init);
      Entries(sc, row, init) + if Apply(sc, op, before).Some? then EntryOf(sc, op, before) else []
  }

  /** Each operation that takes effect meets its row on terms that keep the trail. */
  predicate TrailRun(sc: Schema, row: Option<Row>, ops: seq<Op>)
    requires WellFormed(sc) && AllProper(sc, ops) && (row.Some? ==> FullRow(sc, row.value))
    decreases |ops|
  {
    ops == [] ||
    (var init, op := ops[..|ops| - 1], ops[|ops| - 1];
     var before := Fold(sc, row, init);
     TrailRun(sc, row, init) && (Apply(sc, op, before).Some? ==> KeepsTrail(sc, op, before)))
  }

  predicate Removes(op: Op) {
    op.Purge? || (op.Delete? && op.all)
  }

  predicate NoRemoval(ops: seq<Op>) {
    forall i :: 0 <= i < |ops| ==> !Removes(ops[i])
  }

  /** The history is one entry per operation that took effect, in order, after what was there. */
  predicate Complete(sc: Schema, row: Option<Row>, ops: seq<Op>)
    requires WellFormed(sc) && AllProper(sc, ops) && (row.Some? ==> FullRow(sc, row.value))
  {
    HistoryOf(Fold(sc, row, ops)) == HistoryOf(row) + Entries(sc, row, ops)
  }

  /** One more operation, from a complete trail. */
  lemma CompleteStep(sc: Schema, row: Option<Row>, ops: seq<Op>)
    requires WellFormed(sc) && AllProper(sc, ops) && (row.Some? ==> FullRow(sc, row.value))
    requires ops != [] && NoRemoval(ops) && Complete(sc, row, ops[..|ops| - 1])
    ensures var op, before := ops[|ops| - 1], Fold(sc, row, ops[..|ops| - 1]);
            Complete(sc, row, ops) <==> (Apply(sc, op, before).Some? ==> KeepsTrail(sc, op, before))
  {
    hide Apply, EntryOf, KeepsTrail;
    var init, op := ops[..|ops| - 1], ops[|ops| - 1];
    var before := Fold(sc, row, init);
    if Apply(sc, op, before).Some? {
      RowStays(sc, op, before);
      StepExtendsHistoryExactly(sc, op, before);
      assert HistoryOf(row) + Entries(sc, row, init) + EntryOf(sc, op, before)
          == HistoryOf(row) + Entries(sc, row, ops);
    } else {
      assert Entries(sc, row, init) + [] == Entries(sc, row, init);
    }
  }

  /** Over a run that does not remove the row, the history is complete after every step exactly
      when each operation that takes effect keeps the trail. */
  lemma {:induction false} TrailIsCompleteExactly(sc: Schema, row: Option<Row>, ops: seq<Op>)
    requires WellFormed(sc) && AllProper(sc, ops) && (row.Some? ==> FullRow(sc, row.value)) && NoRemoval(ops)
    ensures (forall n :: 0 <= n <= |ops| ==> Complete(sc, row, ops[..n])) <==> TrailRun(sc, row, ops)
    decreases |ops|
  {
    hide Apply, KeepsTrail, Complete;
    if ops == [] {
      assert Complete(sc, row, []) by { CompleteEmpty(sc, row); }
    } else {
      var init := ops[..|ops| - 1];
      TrailIsCompleteExactly(sc, row, init);
      assert forall n :: 0 <= n < |ops| ==> ops[..n] == init[..n];
      assert init[..|init|] == init && ops[..|ops|] == ops;
      if Complete(sc, row, init) {
        CompleteStep(sc, row, ops);
      }
    }
  }

  lemma CompleteEmpty(sc: Schema, row: Option<Row>)
    requires WellFormed(sc) && (row.Some? ==> FullRow(sc, row.value))
    ensures Complete(sc, row, [])
  {
    assert HistoryOf(row) + [] == HistoryOf(row);
  }

  lemma TrailIsComplete(sc: Schema, row: Option<Row>, ops: seq<Op>)
    requires WellFormed(sc) && AllProper(sc, ops) && (row.Some? ==> FullRow(sc, row.value))
    requires NoRemoval(ops) && TrailRun(sc, row, ops)
    ensures Complete(sc, row, ops)
  {
    hide TrailRun, Complete;
    TrailIsCompleteExactly(sc, row, ops);
    assert ops[..|ops|] == ops;
  }

  /** With a tracked history column, as in the documented standard model, and map inserts that
      are not restricted, no run can lose an entry. */
  lemma {:induction false} TrackedRunsKeepTrail(sc: Schema, row: Option<Row>, ops: seq<Op>)
    requires WellFormed(sc) && AllProper(sc, ops) && (row.Some? ==> FullRow(sc, row.value))
    requires sc.historyTracked && forall i :: 0 <= i < |ops| && ops[i].InsertMap? ==> ops[i].sel == {}
    ensures TrailRun(sc, row, ops)
    decreases |ops|
  {
    hide Apply;
    if ops != [] {
      TrackedRunsKeepTrail(sc, row, ops[..|ops| - 1]);
    }
  }

  lemma RowStays(sc: Schema, op: Op, row: Option<Row>)
    requires WellFormed(sc) && Proper(sc, op) && (row.Some? ==> FullRow(sc, row.value))
    requires Apply(sc, op, row).Some? && !Removes(op)
    ensures Apply(sc, op, row).value.Some?
  {
  }

  /** Every operation of the run succeeds where it stands. */
  predicate Effective(sc: Schema, row: Option<Row>, ops: seq<Op>)
    requires WellFormed(sc) && AllProper(sc, ops) && (row.Some? ==> FullRow(sc, row.value))
    decreases |ops|
  {
    ops == [] ||
    (var init, op := ops[..|ops| - 1], ops[|ops| - 1];
     Effective(sc, row, init) && Apply(sc, op, Fold(sc, row, init)).Some?)
  }

  /** The operations of the run that have something to record. */
  function Recorders(sc: Schema, row: Option<Row>, ops: seq<Op>): seq<Op>
    requires WellFormed(sc) && AllProper(sc, ops) && (row.Some? ==> FullRow(sc, row.value))
    decreases |ops|
  {
    if ops == [] then []
    else
      var init, op := ops[..|ops| - 1], ops[|ops| - 1];
      Recorders(sc, row, init) + if EntryOf(sc, op, Fold(sc, row, init)) != [] then [op] else []
  }

  function ActionOf(op: Op): Action {
    match op
    case InsertModel(_, _) => Created
    case InsertMap(_, _, _) => Created
    case Delete(_, _) => Deleted
    case Restore => Restored
    case _ => Modified
  }

  lemma EntryOfAction(sc: Schema, op: Op, row: Option<Row>)
    requires WellFormed(sc) && Proper(sc, op) && (row.Some? ==> FullRow(sc, row.value))
    ensures |EntryOf(sc, op, row)| <= 1
    ensures EntryOf(sc, op, row) != [] ==> EntryOf(sc, op, row)[0].action == ActionOf(op)
  {
  }

  /** One entry for each operation with something to record, in the same order. */
  lemma {:induction false} OneEntryEach(sc: Schema, row: Option<Row>, ops: seq<Op>)
    requires WellFormed(sc) && AllProper(sc, ops) && (row.Some? ==> FullRow(sc, row.value))
    requires Effective(sc, row, ops)
    ensures |Entries(sc, row, ops)| == |Recorders(sc, row, ops)|
    ensures forall i :: 0 <= i < |Entries(sc, row, ops)| ==>
              Entries(sc, row, ops)[i].action == ActionOf(Recorders(sc, row, ops)[i])
    decreases |ops|
  {
    hide Apply, EntryOf, ActionOf, Fold;
    if ops != [] {
      var init, op := ops[..|ops| - 1], ops[|ops| - 1];
      OneEntryEach(sc, row, init);
      EntryOfAction(sc, op, Fold(sc, row, init));
    }
  }

  // ----- replaying the trail

  function Replay(h: seq<Entry>): map<string, Value>
    decreases |h|
  {
    if h == [] then map[] else Replay(h[..|h| - 1]) + h[|h| - 1].changes
  }

  lemma ReplaySnoc(h: seq<Entry>, e: Entry)
    ensures Replay(h + [e]) == Replay(h) + e.changes
  {
    assert (h + [e])[..|h|] == h;
  }

  /** Columns whose every change is both stored and recorded. */
  predicate Replayable(sc: Schema, c: string) {
    Tracked(sc, c) && c !in sc.autofill && c != DELETED_AT
  }

  /** Replaying gives each such column its current value, as a load reads it; a column the trail
      never mentions still has its database default. */
  ghost predicate Reconstructs(sc: Schema, row: Row)
    requires WellFormed(sc) && FullRow(sc, row)
  {
    forall c :: Replayable(sc, c) ==> ReconstructsAt(sc, row, c)
  }

  ghost predicate ReconstructsAt(sc: Schema, row: Row, c: string)
    requires WellFormed(sc) && FullRow(sc, row) && c in sc.columns
  {
    var r := Replay(row.history);
    if c in r then LoadedValue(sc, c, r[c]) == LoadedValue(sc, c, row.cols[c])
    else LoadedValue(sc, c, sc.defaults[c]) == LoadedValue(sc, c, row.cols[c])
  }

  /** A map insert records what it stores. */
  predicate RecordsWhatItStores(op: Op) {
    op.InsertMap? ==> op.sel == {} || WrittenKeys(op.data) <= op.sel
  }

  /** Every operation that keeps the trail keeps it a faithful record of the row. */
  lemma StepKeepsReconstruction(sc: Schema, op: Op, row: Option<Row>)
    requires WellFormed(sc) && Proper(sc, op)
    requires row.Some? ==> FullRow(sc, row.value) && Reconstructs(sc, row.value)
    requires KeepsTrail(sc, op, row) && RecordsWhatItStores(op)
    requires Apply(sc, op, row).Some? && Apply(sc, op, row).value.Some?
    ensures Reconstructs(sc, Apply(sc, op, row).value.value)
  {
    hide Apply, KeepsTrail, ReconstructsAt;
    forall c | Replayable(sc, c)
      ensures ReconstructsAt(sc, Apply(sc, op, row).value.value, c)
    {
      StepKeepsColumn(sc, op, row, c);
    }
  }

  lemma StepKeepsColumn(sc: Schema, op: Op, row: Option<Row>, c: string)
    requires WellFormed(sc) && Proper(sc, op)
    requires row.Some? ==> FullRow(sc, row.value)
    requires Replayable(sc, c) && (row.Some? ==> ReconstructsAt(sc, row.value, c))
    requires KeepsTrail(sc, op, row) && RecordsWhatItStores(op)
    requires Apply(sc, op, row).Some? && Apply(sc, op, row).value.Some?
    ensures ReconstructsAt(sc, Apply(sc, op, row).value.value, c)
  {
    hide Replay, Apply, KeepsTrail, EntryOf, LoadedValue;
    var h, es := HistoryOf(row), EntryOf(sc, op, row);
    StepExtendsHistoryExactly(sc, op, row);
    ColumnStep(sc, op, row, c);
    ReplayEmpty();
    if es == [] {
      assert h + es == h;
    } else {
      assert es == [es[0]];
      ReplaySnoc(h, es[0]);
    }
  }

  lemma ReplayEmpty()
    ensures Replay([]) == map[]
  {
  }

  /** What an operation does to one replayable column, next to what it records of it. */
  lemma ColumnStep(sc: Schema, op: Op, row: Option<Row>, c: string)
    requires WellFormed(sc) && Proper(sc, op) && (row.Some? ==> FullRow(sc, row.value))
    requires Replayable(sc, c) && RecordsWhatItStores(op)
    requires Apply(sc, op, row).Some? && Apply(sc, op, row).value.Some?
    ensures var v := Apply(sc, op, row).value.value.cols[c];
            var es := EntryOf(sc, op, row);
            if es != [] && c in es[0].changes then LoadedValue(sc, c, v) == LoadedValue(sc, c, es[0].changes[c])
            else if row.None? then v == sc.defaults[c]
            else LoadedValue(sc, c, v) == LoadedValue(sc, c, row.value.cols[c])
    ensures |EntryOf(sc, op, row)| <= 1
  {
    if op.UpdateModel? {
      var was := Load(sc, row.value);
      assert was.cols[c] == LoadedValue(sc, c, row.value.cols[c]);
      if Written(sc, op.sel, c) {
        assert c in HistoryMap(sc, op.self, op.sel);
        if c !in Diff(sc, was, op.self, op.sel) {
          assert op.self.cols[c] == was.cols[c];
        }
      }
    }
  }

  /** A map insert that records columns its selection kept out of the row still reconstructs
      exactly when each of them has the value the database defaults to. */
  lemma MapInsertReconstructsExactly(sc: Schema, data: map<string, Value>, nul: set<string>, sel: set<string>)
    requires WellFormed(sc) && Selected(sel, HISTORY)
    ensures Reconstructs(sc, InsertedMap(sc, data, nul, sel)) <==>
            forall c :: c in data && Replayable(sc, c) && !Selected(sel, c) ==>
              LoadedValue(sc, c, data[c]) == LoadedValue(sc, c, sc.defaults[c])
  {
    hide Replay;
    var row := InsertedMap(sc, data, nul, sel);
    ReplayEmpty();
    ReplaySnoc([], Entry(Created, data, false));
    assert row.history == [] + [Entry(Created, data, false)];
    assert Replay(row.history) == data;
    if Reconstructs(sc, row) {
      forall c | c in data && Replayable(sc, c) && !Selected(sel, c)
        ensures LoadedValue(sc, c, data[c]) == LoadedValue(sc, c, sc.defaults[c])
      {
        assert ReconstructsAt(sc, row, c);
      }
    }
  }

  // ----- the life of a row

  /** Whether the trail ends with the row deleted. */
  predicate Gone(h: seq<Entry>)
    decreases |h|
  {
    h != [] &&
    match h[|h| - 1].action
    case Deleted => true
    case Modified => Gone(h[..|h| - 1])
    case _ => false
  }

  lemma GoneSnoc(h: seq<Entry>, e: Entry)
    ensures Gone(h + [e]) <==> e.action == Deleted || (e.action == Modified && Gone(h))
  {
    assert (h + [e])[..|h|] == h;
  }

  /** The trail and deleted_at tell the same story. */
  predicate LifeAgrees(sc: Schema, row: Row)
    requires WellFormed(sc) && FullRow(sc, row)
  {
    Gone(row.history) <==> row.cols[DELETED_AT] != Null
  }

  /** The operation leaves deleted_at to Delete and Restore: an insert stores NULL, an update
      that writes the column keeps it null or keeps it set. */
  predicate KeepsLife(sc: Schema, op: Op, row: Option<Row>)
    requires WellFormed(sc) && Proper(sc, op) && (row.Some? ==> FullRow(sc, row.value))
  {
    match op
    case InsertModel(m, sel) => Written(sc, sel, DELETED_AT) ==> m.cols[DELETED_AT] == Null
    case InsertMap(data, nul, sel) => DELETED_AT in data && Selected(sel, DELETED_AT) ==> data[DELETED_AT] == Null
    case UpdateModel(m, sel, all) =>
      row.Some? && Written(sc, sel, DELETED_AT) ==>
        (m.cols[DELETED_AT] == Null <==> row.value.cols[DELETED_AT] == Null)
    case UpdateMap(data, nul, all) =>
      row.Some? && DELETED_AT in data ==>
        (data[DELETED_AT] == Null <==> row.value.cols[DELETED_AT] == Null)
    case _ => true
  }

  /** From agreement, an operation that keeps the trail leads to agreement exactly when it leaves
      deleted_at to Delete and Restore. */
  lemma StepKeepsLifeExactly(sc: Schema, op: Op, row: Option<Row>)
    requires WellFormed(sc) && Proper(sc, op)
    requires row.Some? ==> FullRow(sc, row.value) && LifeAgrees(sc, row.value)
    requires KeepsTrail(sc, op, row)
    requires Apply(sc, op, row).Some? && Apply(sc, op, row).value.Some?
    ensures LifeAgrees(sc, Apply(sc, op, row).value.value) <==> KeepsLife(sc, op, row)
  {
    hide Gone, KeepsTrail, HistoryMap, Diff, HistoryDiffers;
    var h, es := HistoryOf(row), EntryOf(sc, op, row);
    StepExtendsHistoryExactly(sc, op, row);
    GoneEmpty();
    if es == [] {
      assert h + es == h;
    } else {
      assert es == [es[0]];
      GoneSnoc(h, es[0]);
    }
  }

  lemma GoneEmpty()
    ensures !Gone([])
  {
  }

  /** Trails as the documentation describes them: created first and only first, and neither a
      modification nor a second deletion of a deleted row before it is restored. */
  predicate Ordered(h: seq<Entry>)
    decreases |h|
  {
    h != [] &&
    var init, action := h[..|h| - 1], h[|h| - 1].action;
    if init == [] then action == Created
    else
      && Ordered(init)
      && action != Created
      && (action == Restored || !Gone(init))
  }

  lemma OrderedSnoc(h: seq<Entry>, e: Entry)
    requires h != []
    ensures Ordered(h + [e]) <==> Ordered(h) && e.action != Created && (e.action == Restored || !Gone(h))
  {
    assert (h + [e])[..|h|] == h;
  }

  lemma OrderedFirst(e: Entry)
    ensures Ordered([e]) <==> e.action == Created
  {
  }

  /** The operation records a modification of a row that stands deleted. */
  predicate ModifiesDeleted(sc: Schema, op: Op, row: Option<Row>)
    requires WellFormed(sc) && Proper(sc, op) && (row.Some? ==> FullRow(sc, row.value))
  {
    && (op.UpdateModel? || op.UpdateMap?)
    && op.all
    && row.Some? && row.value.cols[DELETED_AT] != Null
    && EntryOf(sc, op, row) != []
  }

  /** The trail stays in order exactly when the operation does not modify a deleted row. */
  lemma StepKeepsOrderExactly(sc: Schema, op: Op, row: Option<Row>)
    requires WellFormed(sc) && Proper(sc, op)
    requires row.Some? ==> FullRow(sc, row.value) && LifeAgrees(sc, row.value) && Ordered(row.value.history)
    requires KeepsTrail(sc, op, row)
    requires Apply(sc, op, row).Some? && Apply(sc, op, row).value.Some?
    ensures Ordered(Apply(sc, op, row).value.value.history) <==> !ModifiesDeleted(sc, op, row)
  {
    hide Gone, Ordered, KeepsTrail, HistoryMap, Diff, HistoryDiffers;
    var h, es := HistoryOf(row), EntryOf(sc, op, row);
    StepExtendsHistoryExactly(sc, op, row);
    OrderedNonempty(h);
    if es == [] {
      assert h + es == h;
    } else if row.None? {
      assert h + es == [es[0]];
      OrderedFirst(es[0]);
    } else {
      assert es == [es[0]];
      OrderedSnoc(h, es[0]);
    }
  }

  lemma OrderedNonempty(h: seq<Entry>)
    ensures Ordered(h) ==> h != []
  {
  }

  /** Deleting a live row and restoring it gives back every column and adds the two entries. */
  lemma RestoreUndoesDelete(sc: Schema, row: Row, now: int)
    requires WellFormed(sc) && FullRow(sc, row) && row.cols[DELETED_AT] == Null
    ensures var gone := Step(sc, Some(row), Delete(now, false));
            && gone.Some? && !Found(gone, false)
            && Step(sc, gone, Restore)
               == Some(Row(row.cols, row.history + [Entry(Deleted, map[], false), Entry(Restored, map[], false)]))
  {
    var gone := Step(sc, Some(row), Delete(now, false));
    assert gone.value.cols[DELETED_AT := Null] == row.cols;
    assert row.history + [Entry(Deleted, map[], false)] + [Entry(Restored, map[], false)]
        == row.history + [Entry(Deleted, map[], false), Entry(Restored, map[], false)];
  }

  // ----- audited runs

  ghost predicate Audited(sc: Schema, row: Row)
    requires WellFormed(sc) && FullRow(sc, row)
  {
    Reconstructs(sc, row) && LifeAgrees(sc, row) && Ordered(row.history)
  }

  /** The trail, deleted_at and the order of the entries tell one story. */
  predicate InLife(sc: Schema, row: Option<Row>)
    requires WellFormed(sc) && (row.Some? ==> FullRow(sc, row.value))
  {
    row.Some? ==> LifeAgrees(sc, row.value) && Ordered(row.value.history)
  }

  /** Each operation that takes effect leaves deleted_at to Delete and Restore and does not modify
      a deleted row. */
  predicate LifeRun(sc: Schema, row: Option<Row>, ops: seq<Op>)
    requires WellFormed(sc) && AllProper(sc, ops) && (row.Some? ==> FullRow(sc, row.value))
    decreases |ops|
  {
    ops == [] ||
    (var init, op := ops[..|ops| - 1], ops[|ops| - 1];
     var before := Fold(sc, row, init);
     && LifeRun(sc, row, init)
     && (Apply(sc, op, before).Some? ==> KeepsLife(sc, op, before) && !ModifiesDeleted(sc, op, before)))
  }

  lemma LifeStep(sc: Schema, op: Op, row: Option<Row>)
    requires WellFormed(sc) && Proper(sc, op) && (row.Some? ==> FullRow(sc, row.value)) && InLife(sc, row)
    requires Apply(sc, op, row).Some? ==> KeepsTrail(sc, op, row)
    ensures InLife(sc, Step(sc, row, op)) <==>
            (Apply(sc, op, row).Some? ==> KeepsLife(sc, op, row) && !ModifiesDeleted(sc, op, row))
  {
    hide KeepsTrail, LifeAgrees, Ordered, EntryOf, ModifiesDeleted, KeepsLife, Apply;
    if Apply(sc, op, row).Some? {
      if Apply(sc, op, row).value.Some? {
        StepKeepsLifeExactly(sc, op, row);
        StepKeepsOrderExactly(sc, op, row);
      } else {
        RemovalIsFree(sc, op, row);
      }
    }
  }

  lemma RemovalIsFree(sc: Schema, op: Op, row: Option<Row>)
    requires WellFormed(sc) && Proper(sc, op) && (row.Some? ==> FullRow(sc, row.value))
    requires Apply(sc, op, row).Some? && Apply(sc, op, row).value.None?
    ensures KeepsLife(sc, op, row) && !ModifiesDeleted(sc, op, row)
  {
  }

  /** Over every run that keeps the trail, every state agrees with its trail and the trail is in
      order, exactly when each operation that takes effect leaves deleted_at to Delete and Restore
      and does not modify a deleted row. */
  lemma {:induction false} LifecycleExactly(sc: Schema, row: Option<Row>, ops: seq<Op>)
    requires WellFormed(sc) && AllProper(sc, ops) && (row.Some? ==> FullRow(sc, row.value))
    requires InLife(sc, row) && TrailRun(sc, row, ops)
    ensures (forall n :: 0 <= n <= |ops| ==> InLife(sc, Fold(sc, row, ops[..n]))) <==> LifeRun(sc, row, ops)
    decreases |ops|
  {
    hide Apply, KeepsTrail, KeepsLife, ModifiesDeleted, InLife;
    if ops != [] {
      var init, op := ops[..|ops| - 1], ops[|ops| - 1];
      LifecycleExactly(sc, row, init);
      assert forall n :: 0 <= n < |ops| ==> ops[..n] == init[..n];
      assert init[..|init|] == init && ops[..|ops|] == ops;
      if InLife(sc, Fold(sc, row, init)) {
        LifeStep(sc, op, Fold(sc, row, init));
      }
    }
  }

  /** Every operation that takes effect keeps the trail, records what it stores, leaves deleted_at
      to Delete and Restore, and does not modify a deleted row. Purges and re-insertions are free. */
  predicate AuditedRun(sc: Schema, row: Option<Row>, ops: seq<Op>)
    requires WellFormed(sc) && AllProper(sc, ops) && (row.Some? ==> FullRow(sc, row.value))
    decreases |ops|
  {
    ops == [] ||
    (var init, op := ops[..|ops| - 1], ops[|ops| - 1];
     var before := Fold(sc, row, init);
     && AuditedRun(sc, row, init)
     && (Apply(sc, op, before).Some? ==>
           && KeepsTrail(sc, op, before) && RecordsWhatItStores(op)
           && KeepsLife(sc, op, before) && !ModifiesDeleted(sc, op, before)))
  }

  /** After any audited run the trail is in order, it reconstructs the row, and a default query
      finds the row exactly when the trail does not end with a deletion. */
  lemma {:induction false} AuditedRunsReconstruct(sc: Schema, row: Option<Row>, ops: seq<Op>)
    requires WellFormed(sc) && AllProper(sc, ops)
    requires row.Some? ==> FullRow(sc, row.value) && Audited(sc, row.value)
    requires AuditedRun(sc, row, ops)
    ensures var last := Fold(sc, row, ops);
            last.Some? ==> Audited(sc, last.value) && (Found(last, false) <==> !Gone(last.value.history))
    decreases |ops|
  {
    hide Apply, KeepsTrail, RecordsWhatItStores, KeepsLife, ModifiesDeleted, Reconstructs, Gone, Ordered;
    if ops != [] {
      var init, op := ops[..|ops| - 1], ops[|ops| - 1];
      var before := Fold(sc, row, init);
      AuditedRunsReconstruct(sc, row, init);
      if Apply(sc, op, before).Some? && Apply(sc, op, before).value.Some? {
        StepKeepsReconstruction(sc, op, before);
        StepKeepsLifeExactly(sc, op, before);
        StepKeepsOrderExactly(sc, op, before);
      }
    }
  }
}
