/** Concurrent history-writing transactions.

    Each operation locks its row, reads it, and later writes a row computed from what it read;
    an insert takes its row at once. Steps of different transactions interleave freely. The
    result: every row's committed value is the serial run, in the order of the writes, of exactly
    the operations whose transactions committed. */
module HistoryLocks {
  import opened Wrappers
  import Conditions
  import opened HistoryRows

  type Tx = nat
  type Key = nat

  /** One row slot. While `holder` is set, `view` is what that transaction has made of the row. */
  datatype Cell = Cell(committed: Option<Row>, holder: Option<Tx>, view: Option<Row>)

  /** A write that took effect inside its transaction. */
  datatype Done = Done(tx: Tx, op: Op)

  /** The writes to one row in order: `past` by finished transactions, `mine` by the holder. */
  datatype Track = Track(start: Option<Row>, past: seq<Done>, mine: seq<Done>)

  ghost predicate ProperLog(sc: Schema, log: seq<Done>)
    requires WellFormed(sc)
  {
    forall i :: 0 <= i < |log| ==> Proper(sc, log[i].op)
  }

  /** The operations of the transactions in `who`, in the order of the log. */
  ghost function OpsBy(sc: Schema, log: seq<Done>, who: set<Tx>): (ops: seq<Op>)
    requires WellFormed(sc) && ProperLog(sc, log)
    ensures AllProper(sc, ops)
    decreases |log|
  {
    if log == [] then []
    else
      var init, last := log[..|log| - 1], log[|log| - 1];
      OpsBy(sc, init, who) + if last.tx in who then [last.op] else []
  }

  lemma {:induction false} OpsByConcat(sc: Schema, a: seq<Done>, b: seq<Done>, who: set<Tx>)
    requires WellFormed(sc) && ProperLog(sc, a) && ProperLog(sc, b)
    ensures OpsBy(sc, a + b, who) == OpsBy(sc, a, who) + OpsBy(sc, b, who)
    decreases |b|
  {
    if b == [] {
      assert a + b == a;
    } else {
      var init, last := b[..|b| - 1], b[|b| - 1];
      assert (a + b)[..|a + b| - 1] == a + init;
      OpsByConcat(sc, a, init, who);
    }
  }

  lemma {:induction false} OpsByAgree(sc: Schema, log: seq<Done>, who: set<Tx>, who': set<Tx>)
    requires WellFormed(sc) && ProperLog(sc, log)
    requires forall i :: 0 <= i < |log| ==> (log[i].tx in who <==> log[i].tx in who')
    ensures OpsBy(sc, log, who) == OpsBy(sc, log, who')
    decreases |log|
  {
    if log != [] {
      OpsByAgree(sc, log[..|log| - 1], who, who');
    }
  }

  // ----- one row

  ghost predicate Full(sc: Schema, row: Option<Row>) {
    row.Some? ==> FullRow(sc, row.value)
  }

  /** The row is the outcome of the serial run, in which every operation succeeds. */
  ghost predicate Reaches(sc: Schema, start: Option<Row>, ops: seq<Op>, row: Option<Row>)
    requires WellFormed(sc) && Full(sc, start) && AllProper(sc, ops)
  {
    Effective(sc, start, ops) && row == Fold(sc, start, ops)
  }

  lemma ReachesSnoc(sc: Schema, start: Option<Row>, ops: seq<Op>, op: Op, row: Option<Row>)
    requires WellFormed(sc) && Full(sc, start) && Full(sc, row) && AllProper(sc, ops) && Proper(sc, op)
    requires Reaches(sc, start, ops, row) && Apply(sc, op, row).Some?
    ensures Reaches(sc, start, ops + [op], Apply(sc, op, row).value)
  {
    hide Apply, Proper;
    assert (ops + [op])[..|ops|] == ops;
  }

  /** The row tells the same story as its track; `open`, `ended` and `done` are the transactions
      running, finished, and finished by a commit. */
  ghost predicate Consistent(sc: Schema, cell: Cell, track: Track, open: set<Tx>, ended: set<Tx>, done: set<Tx>)
    requires WellFormed(sc)
  {
    && Full(sc, track.start) && ProperLog(sc, track.past) && ProperLog(sc, track.mine)
    && (forall i :: 0 <= i < |track.past| ==> track.past[i].tx in ended)
    && Reaches(sc, track.start, OpsBy(sc, track.past, done), cell.committed)
    && (cell.holder.None? ==> track.mine == [])
    && (cell.holder.Some? ==>
          && cell.holder.value in open
          && (forall i :: 0 <= i < |track.mine| ==> track.mine[i].tx == cell.holder.value)
          && Reaches(sc, track.start, OpsBy(sc, track.past + track.mine, done + {cell.holder.value}), cell.view))
  }

  lemma LockKeeps(sc: Schema, cell: Cell, track: Track, open: set<Tx>, ended: set<Tx>, done: set<Tx>, tx: Tx)
    requires WellFormed(sc) && Consistent(sc, cell, track, open, ended, done)
    requires cell.holder.None? && tx in open && open !! ended
    ensures Consistent(sc, Cell(cell.committed, Some(tx), cell.committed), track, open, ended, done)
  {
    hide Reaches, OpsBy;
    assert track.past + track.mine == track.past;
    OpsByAgree(sc, track.past, done, done + {tx});
  }

  lemma WriteKeeps(sc: Schema, cell: Cell, track: Track, open: set<Tx>, ended: set<Tx>, done: set<Tx>, tx: Tx, op: Op)
    requires WellFormed(sc) && Consistent(sc, cell, track, open, ended, done)
    requires cell.holder == Some(tx) && Proper(sc, op) && Full(sc, cell.view)
    requires Apply(sc, op, cell.view).Some?
    ensures Consistent(sc, cell.(view := Apply(sc, op, cell.view).value), track.(mine := track.mine + [Done(tx, op)]),
                       open, ended, done)
  {
    hide Apply, Proper, Reaches;
    var log, who := track.past + track.mine, done + {tx};
    var log' := track.past + (track.mine + [Done(tx, op)]);
    assert log' == log + [Done(tx, op)];
    assert log'[..|log'| - 1] == log;
    var ops := OpsBy(sc, log, who);
    assert OpsBy(sc, log', who) == ops + [op];
    ReachesSnoc(sc, track.start, ops, op, cell.view);
  }

  lemma CommitKeeps(sc: Schema, cell: Cell, track: Track, open: set<Tx>, ended: set<Tx>, done: set<Tx>, tx: Tx)
    requires WellFormed(sc) && Consistent(sc, cell, track, open, ended, done)
    requires cell.holder == Some(tx)
    ensures Consistent(sc, Cell(cell.view, None, cell.view), Track(track.start, track.past + track.mine, []),
                       open - {tx}, ended + {tx}, done + {tx})
  {
    hide Reaches, OpsBy;
  }

  lemma AbortKeeps(sc: Schema, cell: Cell, track: Track, open: set<Tx>, ended: set<Tx>, done: set<Tx>, tx: Tx)
    requires WellFormed(sc) && Consistent(sc, cell, track, open, ended, done)
    requires cell.holder == Some(tx) && done <= ended && open !! ended
    ensures Consistent(sc, Cell(cell.committed, None, cell.committed), Track(track.start, track.past + track.mine, []),
                       open - {tx}, ended + {tx}, done)
  {
    hide Reaches;
    OpsByConcat(sc, track.past, track.mine, done);
    OpsByAgree(sc, track.mine, done, {});
    OpsByNone(sc, track.mine);
    assert OpsBy(sc, track.past, done) + [] == OpsBy(sc, track.past, done);
  }

  lemma {:induction false} OpsByNone(sc: Schema, log: seq<Done>)
    requires WellFormed(sc) && ProperLog(sc, log)
    ensures OpsBy(sc, log, {}) == []
    decreases |log|
  {
    if log != [] {
      OpsByNone(sc, log[..|log| - 1]);
    }
  }

  /** A transaction that does not hold the row ends without touching it. */
  lemma OthersKeep(sc: Schema, cell: Cell, track: Track, open: set<Tx>, ended: set<Tx>, done: set<Tx>, tx: Tx,
                   done': set<Tx>)
    requires WellFormed(sc) && Consistent(sc, cell, track, open, ended, done)
    requires cell.holder != Some(tx) && tx in open && open !! ended
    requires done' == done || done' == done + {tx}
    ensures Consistent(sc, cell, track, open - {tx}, ended + {tx}, done')
  {
    hide Reaches, OpsBy;
    OpsByAgree(sc, track.past, done, done');
    if cell.holder.Some? {
      var t := cell.holder.value;
      OpsByAgree(sc, track.past + track.mine, done + {t}, done' + {t});
    }
  }

  // ----- the database

  ghost predicate AllConsistent(sc: Schema, cells: map<Key, Cell>, tracks: map<Key, Track>,
                                open: set<Tx>, ended: set<Tx>, done: set<Tx>)
    requires WellFormed(sc)
  {
    && tracks.Keys == cells.Keys
    && forall k :: k in cells ==> Consistent(sc, cells[k], tracks[k], open, ended, done)
  }

  /** Every locked read is still what its transaction would see now. */
  ghost predicate ReadsCurrent(cells: map<Key, Cell>, found: map<Tx, (Key, Option<Row>)>) {
    forall tx :: tx in found ==>
      var (k, row) := found[tx];
      k in cells && cells[k].holder == Some(tx) && cells[k].view == row
  }

  /** The row left behind by a transaction that commits or aborts. */
  function Released(cell: Cell, tx: Tx, commit: bool): Cell {
    if cell.holder != Some(tx) then cell
    else if commit then Cell(cell.view, None, cell.view)
    else Cell(cell.committed, None, cell.committed)
  }

  ghost function Closed(cell: Cell, track: Track, tx: Tx): Track {
    if cell.holder == Some(tx) then Track(track.start, track.past + track.mine, []) else track
  }

  function ReleasedAll(cells: map<Key, Cell>, tx: Tx, commit: bool): map<Key, Cell> {
    map k | k in cells :: Released(cells[k], tx, commit)
  }

  ghost function ClosedAll(cells: map<Key, Cell>, tracks: map<Key, Track>, tx: Tx): map<Key, Track> {
    map k | k in tracks && k in cells :: Closed(cells[k], tracks[k], tx)
  }

  lemma ReleaseKeeps(sc: Schema, cell: Cell, track: Track, open: set<Tx>, ended: set<Tx>, done: set<Tx>,
                     tx: Tx, commit: bool)
    requires WellFormed(sc) && Consistent(sc, cell, track, open, ended, done)
    requires tx in open && open !! ended && done <= ended
    ensures Consistent(sc, Released(cell, tx, commit), Closed(cell, track, tx),
                       open - {tx}, ended + {tx}, if commit then done + {tx} else done)
  {
    hide Consistent;
    if cell.holder != Some(tx) {
      OthersKeep(sc, cell, track, open, ended, done, tx, if commit then done + {tx} else done);
    } else if commit {
      CommitKeeps(sc, cell, track, open, ended, done, tx);
    } else {
      AbortKeeps(sc, cell, track, open, ended, done, tx);
    }
  }

  lemma ReleaseAllKeeps(sc: Schema, cells: map<Key, Cell>, tracks: map<Key, Track>,
                        open: set<Tx>, ended: set<Tx>, done: set<Tx>, tx: Tx, commit: bool)
    requires WellFormed(sc) && AllConsistent(sc, cells, tracks, open, ended, done)
    requires tx in open && open !! ended && done <= ended
    ensures AllConsistent(sc, ReleasedAll(cells, tx, commit), ClosedAll(cells, tracks, tx),
                          open - {tx}, ended + {tx}, if commit then done + {tx} else done)
  {
    hide Consistent, Released, Closed;
    var done' := if commit then done + {tx} else done;
    var cells', tracks' := ReleasedAll(cells, tx, commit), ClosedAll(cells, tracks, tx);
    forall k | k in cells'
      ensures Consistent(sc, cells'[k], tracks'[k], open - {tx}, ended + {tx}, done')
    {
      ReleaseKeeps(sc, cells[k], tracks[k], open, ended, done, tx, commit);
    }
  }

  lemma ReleaseKeepsReads(cells: map<Key, Cell>, found: map<Tx, (Key, Option<Row>)>, tx: Tx, commit: bool)
    requires ReadsCurrent(cells, found)
    ensures ReadsCurrent(ReleasedAll(cells, tx, commit), found - {tx})
  {
  }

  datatype Outcome = Blocked | Failed | Ok

  datatype Move =
    | Begin(tx: Tx)
    | Lock(tx: Tx, k: Key, all: bool)
    | Write(tx: Tx, op: Op)
    | Insert(tx: Tx, k: Key, op: Op)
    | Commit(tx: Tx)
    | Abort(tx: Tx)

  ghost predicate ProperMove(sc: Schema, move: Move)
    requires WellFormed(sc)
  {
    (move.Write? || move.Insert?) ==> Proper(sc, move.op)
  }

  ghost predicate SameStarts(tracks: map<Key, Track>, tracks': map<Key, Track>) {
    tracks.Keys == tracks'.Keys && forall k :: k in tracks ==> tracks'[k].start == tracks[k].start
  }

  lemma ClosingKeepsStarts(cells: map<Key, Cell>, tracks: map<Key, Track>, tx: Tx)
    requires tracks.Keys == cells.Keys
    ensures SameStarts(tracks, ClosedAll(cells, tracks, tx))
  {
  }

  /** The committed row is the serial run of the committed operations in the order of their
      writes; its history grew by one entry for each of them that had something to record. */
  ghost predicate Serialised(sc: Schema, cell: Cell, track: Track, done: set<Tx>)
    requires WellFormed(sc)
  {
    && Full(sc, track.start) && ProperLog(sc, track.past)
    && var ops := OpsBy(sc, track.past, done);
    && Reaches(sc, track.start, ops, cell.committed)
    && (NoRemoval(ops) && TrailRun(sc, track.start, ops) ==>
          && var entries := Entries(sc, track.start, ops);
             var recorders := Recorders(sc, track.start, ops);
          && HistoryOf(cell.committed) == HistoryOf(track.start) + entries
          && |entries| == |recorders|
          && forall i :: 0 <= i < |entries| ==> entries[i].action == ActionOf(recorders[i]))
    && ((track.start.Some? ==> Audited(sc, track.start.value)) && AuditedRun(sc, track.start, ops) ==>
          (cell.committed.Some? ==> FullRow(sc, cell.committed.value) && Audited(sc, cell.committed.value)))
  }

  lemma ConsistentIsSerialised(sc: Schema, cell: Cell, track: Track, open: set<Tx>, ended: set<Tx>, done: set<Tx>)
    requires WellFormed(sc) && Consistent(sc, cell, track, open, ended, done)
    ensures Serialised(sc, cell, track, done)
  {
    hide OpsBy, Fold, Effective, Entries, Recorders, ActionOf, TrailRun, AuditedRun, Audited, ProperLog;
    var ops := OpsBy(sc, track.past, done);
    OneEntryEach(sc, track.start, ops);
    if NoRemoval(ops) && TrailRun(sc, track.start, ops) {
      TrailIsComplete(sc, track.start, ops);
    }
    if (track.start.Some? ==> Audited(sc, track.start.value)) && AuditedRun(sc, track.start, ops) {
      AuditedRunsReconstruct(sc, track.start, ops);
    }
  }

  lemma AllSerialised(sc: Schema, cells: map<Key, Cell>, tracks: map<Key, Track>,
                      open: set<Tx>, ended: set<Tx>, done: set<Tx>)
    requires WellFormed(sc) && AllConsistent(sc, cells, tracks, open, ended, done)
    ensures tracks.Keys == cells.Keys
    ensures forall k :: k in cells ==> Serialised(sc, cells[k], tracks[k], done)
  {
    hide Consistent, Serialised;
    forall k | k in cells
      ensures Serialised(sc, cells[k], tracks[k], done)
    {
      ConsistentIsSerialised(sc, cells[k], tracks[k], open, ended, done);
    }
  }

  /** Without the lock, two updates of the same read lose the first one's entry. */
  lemma UnlockedWritesLoseAnEntry(sc: Schema, row: Row, first: map<string, Conditions.Value>,
                                  second: map<string, Conditions.Value>)
    requires WellFormed(sc) && FullRow(sc, row) && row.cols[DELETED_AT] == Conditions.Null
    requires first.Keys + second.Keys <= sc.columns - {DELETED_AT}
    ensures var one, two := UpdateMap(first, {}, false), UpdateMap(second, {}, false);
            && Apply(sc, two, Some(row)).Some?
            && |HistoryOf(Apply(sc, two, Some(row)).value)| == |row.history| + 1
            && |HistoryOf(Fold(sc, Some(row), [one, two]))| == |row.history| + 2
  {
    var one, two := UpdateMap(first, {}, false), UpdateMap(second, {}, false);
    assert [one, two][..1] == [one] && [one][..0] == [];
    assert Fold(sc, Some(row), [one]) == Some(UpdatedMap(sc, row, first, {}));
  }

  /** The whole database as a value. */
  datatype State = State(cells: map<Key, Cell>, open: set<Tx>, ended: set<Tx>, found: map<Tx, (Key, Option<Row>)>,
                         done: set<Tx>, tracks: map<Key, Track>)

  ghost function SeenIn(cell: Cell): Option<Row> {
    if cell.holder.Some? then cell.view else cell.committed
  }

  ghost predicate Free(cells: map<Key, Cell>, tx: Tx, k: Key) {
    k in cells && (cells[k].holder.None? || cells[k].holder.value == tx)
  }

  /** The row after one write, logged, if the operation succeeds on it. */
  ghost function WrittenBy(sc: Schema, s: State, tx: Tx, k: Key, op: Op, row: Option<Row>): State
    requires WellFormed(sc) && Proper(sc, op)
  {
    if k !in s.cells || k !in s.tracks || !Full(sc, row) || Apply(sc, op, row).None? then s
    else
      var t := s.tracks[k];
      s.(cells := s.cells[k := Cell(s.cells[k].committed, Some(tx), Apply(sc, op, row).value)],
         tracks := s.tracks[k := t.(mine := t.mine + [Done(tx, op)])])
  }

  /** One move as a function of the state; a move that is blocked or out of place changes nothing. */
  ghost function Next(sc: Schema, s: State, move: Move): State
    requires WellFormed(sc) && ProperMove(sc, move)
  {
    match move
    case Begin(tx) =>
      if tx in s.open || tx in s.ended then s else s.(open := s.open + {tx})
    case Lock(tx, k, all) =>
      if tx !in s.open || !Free(s.cells, tx, k) || !Found(SeenIn(s.cells[k]), all) then s
      else
        var row := SeenIn(s.cells[k]);
        s.(cells := s.cells[k := Cell(s.cells[k].committed, Some(tx), row)], found := s.found[tx := (k, row)])
    case Write(tx, op) =>
      if tx !in s.found then s else WrittenBy(sc, s.(found := s.found - {tx}), tx, s.found[tx].0, op, s.found[tx].1)
    case Insert(tx, k, op) =>
      if tx !in s.open || tx in s.found || !Free(s.cells, tx, k) then s
      else WrittenBy(sc, s, tx, k, op, SeenIn(s.cells[k]))
    case Commit(tx) => if tx in s.open then Ended(s, tx, true) else s
    case Abort(tx) => if tx in s.open then Ended(s, tx, false) else s
  }

  ghost function Ended(s: State, tx: Tx, commit: bool): State {
    State(ReleasedAll(s.cells, tx, commit), s.open - {tx}, s.ended + {tx}, s.found - {tx},
          if commit then s.done + {tx} else s.done, ClosedAll(s.cells, s.tracks, tx))
  }

  ghost function NextAll(sc: Schema, s: State, moves: seq<Move>): State
    requires WellFormed(sc) && forall i :: 0 <= i < |moves| ==> ProperMove(sc, moves[i])
    decreases |moves|
  {
    if moves == [] then s else Next(sc, NextAll(sc, s, moves[..|moves| - 1]), moves[|moves| - 1])
  }

  class Database {
    const sc: Schema
    var cells: map<Key, Cell>
    /** The running and the finished transactions; identities are not reused. */
    var open: set<Tx>
    var ended: set<Tx>
    /** What a transaction's locked read returned, until it writes. */
    var found: map<Tx, (Key, Option<Row>)>

    ghost var done: set<Tx>
    ghost var tracks: map<Key, Track>

    ghost predicate Valid()
      reads this
    {
      && WellFormed(sc)
      && open !! ended && done <= ended
      && found.Keys <= open
      && AllConsistent(sc, cells, tracks, open, ended, done)
      && ReadsCurrent(cells, found)
    }

    constructor (sc: Schema, rows: map<Key, Option<Row>>)
      requires WellFormed(sc) && forall k :: k in rows ==> Full(sc, rows[k])
      ensures Valid() && this.sc == sc && open == {} && done == {}
      ensures tracks == map k | k in rows :: Track(rows[k], [], [])
    {
      this.sc := sc;
      cells := map k | k in rows :: Cell(rows[k], None, rows[k]);
      open, found := {}, map[];
      ended, done := {}, {};
      tracks := map k | k in rows :: Track(rows[k], [], []);
    }

    method BeginTx(tx: Tx)
      requires Valid() && tx !in open && tx !in ended
      modifies this`open
      ensures Valid() && open == old(open) + {tx}
    {
      open := open + {tx};
    }

    /** SELECT ... FOR UPDATE: waits for another holder, otherwise reads the row and keeps it
        locked; a row the query does not find is not locked. */
    method LockRow(tx: Tx, k: Key, all: bool) returns (o: Outcome)
      requires Valid() && tx in open && k in cells
      modifies this`cells, this`found
      ensures Valid()
      ensures o.Blocked? <==> !Free(old(cells), tx, k)
      ensures o.Ok? <==> !o.Blocked? && Found(SeenIn(old(cells[k])), all)
      ensures !o.Ok? ==> cells == old(cells) && found == old(found)
      ensures o.Ok? ==> found == old(found)[tx := (k, SeenIn(old(cells[k])))]
      ensures o.Ok? ==> cells == old(cells)[k := Cell(old(cells[k].committed), Some(tx), SeenIn(old(cells[k])))]
    {
      hide Consistent, Found;
      var cell := cells[k];
      if cell.holder.Some? && cell.holder.value != tx { return Blocked; }
      var row := if cell.holder.Some? then cell.view else cell.committed;
      if !Found(row, all) { return Failed; }
      if cell.holder.None? {
        LockKeeps(sc, cell, tracks[k], open, ended, done, tx);
      }
      cells := cells[k := Cell(cell.committed, Some(tx), row)];
      found := found[tx := (k, row)];
      return Ok;
    }

    /** The UPDATE or DELETE computed from the locked read, which is still current. */
    method WriteRow(tx: Tx, op: Op) returns (o: Outcome)
      requires Valid() && tx in found && Proper(sc, op)
      modifies this`cells, this`found, this`tracks
      ensures Valid() && SameStarts(old(tracks), tracks)
      ensures found == old(found) - {tx}
      ensures var (k, row) := old(found[tx]);
              && k in old(cells) && k in old(tracks) && SeenIn(old(cells)[k]) == row && Full(sc, row)
              && old(cells)[k].holder == Some(tx)
              && (o.Ok? <==> Apply(sc, op, row).Some?)
              && (!o.Ok? ==> o.Failed? && cells == old(cells) && tracks == old(tracks))
              && (o.Ok? ==>
                    && cells == old(cells)[k := old(cells)[k].(view := Apply(sc, op, row).value)]
                    && tracks == old(tracks)[k := old(tracks)[k].(mine := old(tracks)[k].mine + [Done(tx, op)])])
    {
      hide Apply, Proper, Consistent;
      var (k, row) := found[tx];
      var cell := cells[k];
      SeesFull(sc, cell, tracks[k], open, ended, done);
      var r := Apply(sc, op, row);
      found := found - {tx};
      if r.None? { return Failed; }
      WriteKeeps(sc, cell, tracks[k], open, ended, done, tx, op);
      cells := cells[k := cell.(view := r.value)];
      tracks := tracks[k := tracks[k].(mine := tracks[k].mine + [Done(tx, op)])];
      return Ok;
    }

    /** An INSERT waits for another holder of the key, then keeps the row locked if it succeeds. */
    method InsertRow(tx: Tx, k: Key, op: Op) returns (o: Outcome)
      requires Valid() && tx in open && tx !in found && k in cells && Proper(sc, op)
      modifies this`cells, this`tracks
      ensures Valid() && SameStarts(old(tracks), tracks)
      ensures o.Blocked? <==> !Free(old(cells), tx, k)
      ensures k in old(tracks) && Full(sc, SeenIn(old(cells[k])))
      ensures o.Ok? <==> !o.Blocked? && Apply(sc, op, SeenIn(old(cells[k]))).Some?
      ensures !o.Ok? ==> cells == old(cells) && tracks == old(tracks)
      ensures o.Ok? ==>
                && (var row := Apply(sc, op, SeenIn(old(cells[k]))).value;
                    cells == old(cells)[k := Cell(old(cells[k].committed), Some(tx), row)])
                && tracks == old(tracks)[k := old(tracks)[k].(mine := old(tracks)[k].mine + [Done(tx, op)])]
    {
      hide Apply, Proper, Consistent;
      var cell := cells[k];
      SeesFull(sc, cell, tracks[k], open, ended, done);
      if cell.holder.Some? && cell.holder.value != tx { return Blocked; }
      var row := if cell.holder.Some? then cell.view else cell.committed;
      var r := Apply(sc, op, row);
      if r.None? { return Failed; }
      if cell.holder.None? {
        LockKeeps(sc, cell, tracks[k], open, ended, done, tx);
      }
      var held := Cell(cell.committed, Some(tx), row);
      WriteKeeps(sc, held, tracks[k], open, ended, done, tx, op);
      cells := cells[k := held.(view := r.value)];
      tracks := tracks[k := tracks[k].(mine := tracks[k].mine + [Done(tx, op)])];
      return Ok;
    }

    /** COMMIT keeps what the transaction made of its rows, ROLLBACK drops it; both release them. */
    method EndTx(tx: Tx, commit: bool)
      requires Valid() && tx in open
      modifies this
      ensures Valid() && SameStarts(old(tracks), tracks)
      ensures open == old(open) - {tx} && ended == old(ended) + {tx}
      ensures done == if commit then old(done) + {tx} else old(done)
      ensures found == old(found) - {tx}
      ensures cells == ReleasedAll(old(cells), tx, commit)
      ensures tracks == ClosedAll(old(cells), old(tracks), tx)
    {
      hide ReadsCurrent, ReleasedAll, ClosedAll, Consistent, SameStarts;
      ReleaseAllKeeps(sc, cells, tracks, open, ended, done, tx, commit);
      ReleaseKeepsReads(cells, found, tx, commit);
      ClosingKeepsStarts(cells, tracks, tx);
      tracks := ClosedAll(cells, tracks, tx);
      cells := ReleasedAll(cells, tx, commit);
      open, found := open - {tx}, found - {tx};
      ended, done := ended + {tx}, if commit then done + {tx} else done;
    }

    ghost function Snapshot(): State
      reads this
    {
      State(cells, open, ended, found, done, tracks)
    }

    method Do(move: Move)
      requires Valid() && ProperMove(sc, move)
      modifies this
      ensures Valid() && SameStarts(old(tracks), tracks)
      ensures Snapshot() == Next(sc, old(Snapshot()), move)
    {
      hide AllConsistent, ReadsCurrent, Apply, Found, ReleasedAll, ClosedAll, Full, Proper;
      match move
      case Begin(tx) =>
        if tx !in open && tx !in ended { BeginTx(tx); }
      case Lock(tx, k, all) =>
        if tx in open && k in cells { var _ := LockRow(tx, k, all); }
      case Write(tx, op) =>
        if tx in found { var _ := WriteRow(tx, op); }
      case Insert(tx, k, op) =>
        if tx in open && tx !in found && k in cells { var _ := InsertRow(tx, k, op); }
      case Commit(tx) =>
        if tx in open { EndTx(tx, true); }
      case Abort(tx) =>
        if tx in open { EndTx(tx, false); }
    }

    /** Any schedule: each row ends as the serial run of exactly its committed operations, and
        holds one more entry for each of them that had something to record. */
    method Run(moves: seq<Move>)
      requires Valid() && forall i :: 0 <= i < |moves| ==> ProperMove(sc, moves[i])
      modifies this
      ensures Valid() && SameStarts(old(tracks), tracks)
      ensures Snapshot() == NextAll(sc, old(Snapshot()), moves)
      ensures forall k :: k in cells ==> Serialised(sc, cells[k], tracks[k], done)
    {
      hide AllConsistent, ReadsCurrent, Next;
      for i := 0 to |moves|
        invariant Valid() && SameStarts(old(tracks), tracks)
        invariant Snapshot() == NextAll(sc, old(Snapshot()), moves[..i])
      {
        Do(moves[i]);
        assert moves[..i + 1][..i] == moves[..i];
      }
      assert moves[..|moves|] == moves;
      AllSerialised(sc, cells, tracks, open, ended, done);
    }
  }

  lemma SeesFull(sc: Schema, cell: Cell, track: Track, open: set<Tx>, ended: set<Tx>, done: set<Tx>)
    requires WellFormed(sc) && Consistent(sc, cell, track, open, ended, done)
    ensures Full(sc, cell.committed) && (cell.holder.Some? ==> Full(sc, cell.view))
  {
  }
}
