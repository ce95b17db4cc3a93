/** Nested transactions compiled to savepoints.

    `Connection` is the database session: current rows, a stack of savepoints and, on servers
    that have it, the aborted state that follows a failed statement. `SqlxTx` issues the
    SAVEPOINT, RELEASE and ROLLBACK TO commands with names from its shared counter. `Run` is
    what nesting is supposed to mean; it knows nothing of names or savepoints. */
module Savepoints {
  import opened Wrappers
  import opened Decimal

  type Rows = map<string, int>

  /** `aborts`: a failed statement blocks the transaction until a rollback (Postgres).
      `dedupes`: a savepoint deletes an older one of the same name (MySQL). */
  datatype Server = Server(aborts: bool, dedupes: bool)

  /** What a transaction body did: writes, statements that failed, and nested transactions with
      the outcome their function reported. */
  datatype Step = Write(key: string, val: int) | Bad | Nested(body: Script, ok: bool)
  datatype Script = End | Then(step: Step, rest: Script)

  // ----- the intended meaning

  datatype World = World(rows: Rows, aborted: bool)

  /** A failed nested transaction is undone exactly, a successful one is kept; in an aborted
      transaction nothing runs. */
  function RunStep(server: Server, st: Step, w: World): World
    decreases st, 0
  {
    match st
    case Write(k, v) => if w.aborted then w else w.(rows := w.rows[k := v])
    case Bad => if server.aborts then w.(aborted := true) else w
    case Nested(body, ok) => if w.aborted || !ok then w else Run(server, body, w)
  }

  function Run(server: Server, s: Script, w: World): World
    decreases s, 1
  {
    match s
    case End => w
    case Then(st, rest) => Run(server, rest, RunStep(server, st, w))
  }

  /** The outermost transaction commits only when its function succeeds and nothing has aborted it. */
  function Outcome(server: Server, before: Rows, s: Script, ok: bool): Rows {
    var w := Run(server, s, World(before, false));
    if ok && !w.aborted then w.rows else before
  }

  // ----- the same meaning without nesting

  function Concat(a: Script, b: Script): Script {
    match a
    case End => b
    case Then(st, rest) => Then(st, Concat(rest, b))
  }

  /** Failed nested transactions dropped, successful ones written in line. */
  function Effective(s: Script): Script
    decreases s
  {
    match s
    case End => End
    case Then(Nested(body, ok), rest) =>
      if ok then Concat(Effective(body), Effective(rest)) else Effective(rest)
    case Then(st, rest) => Then(st, Effective(rest))
  }

  predicate NoNesting(s: Script) {
    match s
    case End => true
    case Then(st, rest) => !st.Nested? && NoNesting(rest)
  }

  lemma {:induction false} RunConcat(server: Server, a: Script, b: Script, w: World)
    ensures Run(server, Concat(a, b), w) == Run(server, b, Run(server, a, w))
    ensures NoNesting(a) && NoNesting(b) ==> NoNesting(Concat(a, b))
    decreases a
  {
    match a
    case End =>
    case Then(st, rest) => RunConcat(server, rest, b, RunStep(server, st, w));
  }

  lemma {:induction false} AbortedStays(server: Server, s: Script, w: World)
    requires w.aborted
    ensures Run(server, s, w) == w
    decreases s
  {
    match s
    case End =>
    case Then(st, rest) => AbortedStays(server, rest, w);
  }

  /** Nesting only decides which writes count: the result is that of the flat list of writes in
      which failed nested transactions are missing. */
  lemma {:induction false} RunIsEffective(server: Server, s: Script, w: World)
    ensures Run(server, s, w) == Run(server, Effective(s), w) && NoNesting(Effective(s))
    decreases s
  {
    match s
    case End =>
    case Then(Nested(body, ok), rest) =>
      if w.aborted {
        AbortedStays(server, s, w);
        AbortedStays(server, Effective(s), w);
        RunIsEffective(server, rest, w);
        if ok {
          RunIsEffective(server, body, w);
          RunConcat(server, Effective(body), Effective(rest), w);
        }
      } else if ok {
        var mid := Run(server, body, w);
        RunIsEffective(server, body, w);
        RunIsEffective(server, rest, mid);
        RunConcat(server, Effective(body), Effective(rest), w);
      } else {
        RunIsEffective(server, rest, w);
      }
    case Then(st, rest) =>
      RunIsEffective(server, rest, RunStep(server, st, w));
  }

  // ----- the database session

  datatype Mark = Mark(name: string, rows: Rows)

  /** The newest savepoint with a name. */
  function FindMark(marks: seq<Mark>, name: string): (r: Option<nat>)
    ensures r.Some? ==> r.value < |marks| && marks[r.value].name == name
    ensures r.Some? ==> forall i :: r.value < i < |marks| ==> marks[i].name != name
    ensures r.None? ==> forall i :: 0 <= i < |marks| ==> marks[i].name != name
  {
    if marks == [] then None
    else if marks[|marks| - 1].name == name then Some(|marks| - 1)
    else FindMark(marks[..|marks| - 1], name)
  }

  class Connection {
    const server: Server
    var committed: Rows
    var rows: Rows
    var marks: seq<Mark>
    var aborted: bool

    constructor (s: Server, initial: Rows)
      ensures server == s && committed == initial && rows == initial && marks == [] && !aborted
    {
      server, committed, rows, marks, aborted := s, initial, initial, [], false;
    }

    function State(): World
      reads this
    {
      World(rows, aborted)
    }

    method BeginTx()
      modifies this
      ensures committed == old(committed) && rows == committed && marks == [] && !aborted
    {
      rows, marks, aborted := committed, [], false;
    }

    /** COMMIT of an aborted transaction is a rollback. */
    method CommitTx()
      modifies this
      ensures committed == (if old(aborted) then old(committed) else old(rows))
      ensures rows == committed && marks == [] && !aborted
    {
      if !aborted {
        committed := rows;
      }
      rows, marks, aborted := committed, [], false;
    }

    method RollbackTx()
      modifies this
      ensures committed == old(committed) && rows == committed && marks == [] && !aborted
    {
      rows, marks, aborted := committed, [], false;
    }

    method Exec(st: Step) returns (ok: bool)
      requires !st.Nested?
      modifies this`rows, this`aborted
      ensures State() == RunStep(server, st, old(State()))
      ensures ok <==> st.Write? && !old(aborted)
    {
      match st {
        case Write(k, v) =>
          if aborted {
            return false;
          }
          rows := rows[k := v];
          ok := true;
        case Bad =>
          aborted := aborted || server.aborts;
          ok := false;
      }
    }

    method Savepoint(name: string) returns (ok: bool)
      modifies this`marks
      ensures ok <==> !aborted
      ensures !ok ==> marks == old(marks)
      ensures ok && FindMark(old(marks), name).None? ==> marks == old(marks) + [Mark(name, rows)]
    {
      if aborted {
        return false;
      }
      var found := FindMark(marks, name);
      if server.dedupes && found.Some? {
        marks := marks[..found.value] + marks[found.value + 1..];
      }
      marks := marks + [Mark(name, rows)];
      ok := true;
    }

    /** Forgets the savepoint and those above it. */
    method Release(name: string) returns (ok: bool)
      modifies this`marks, this`aborted
      ensures ok <==> !old(aborted) && FindMark(old(marks), name).Some?
      ensures ok ==> marks == old(marks)[..FindMark(old(marks), name).value] && !aborted
      ensures !ok ==> marks == old(marks) && aborted == (old(aborted) || server.aborts)
    {
      var found := FindMark(marks, name);
      if aborted || found.None? {
        aborted := aborted || server.aborts;
        return false;
      }
      marks := marks[..found.value];
      ok := true;
    }

    /** Goes back to the savepoint, which stays; those above it are gone. */
    method RollbackTo(name: string) returns (ok: bool)
      modifies this`rows, this`marks, this`aborted
      ensures ok <==> FindMark(old(marks), name).Some?
      ensures ok ==> var i := FindMark(old(marks), name).value;
                     rows == old(marks)[i].rows && marks == old(marks)[..i + 1] && !aborted
      ensures !ok ==> rows == old(rows) && marks == old(marks) && aborted == (old(aborted) || server.aborts)
    {
      var found := FindMark(marks, name);
      if found.None? {
        aborted := aborted || server.aborts;
        return false;
      }
      rows := marks[found.value].rows;
      marks := marks[..found.value + 1];
      aborted := false;
      ok := true;
    }
  }

  // ----- the transaction layer

  function Name(n: nat): string {
    "kiya_sp_" + Print(n)
  }

  lemma NameInjective(m: nat, n: nat)
    requires Name(m) == Name(n)
    ensures m == n
  {
    assert Name(m)[8..] == Print(m) && Name(n)[8..] == Print(n);
    PrintInjective(m, n);
  }

  /** Every savepoint on the stack was named by a number in (low, high]. */
  ghost predicate NamedWithin(marks: seq<Mark>, low: nat, high: nat) {
    forall i :: 0 <= i < |marks| ==> NumberedIn(marks[i].name, low, high)
  }

  ghost predicate NumberedIn(name: string, low: nat, high: nat) {
    exists n :: low < n <= high && name == Name(n)
  }

  lemma FreshName(marks: seq<Mark>, low: nat, high: nat, n: nat)
    requires NamedWithin(marks, low, high) && (n <= low || n > high)
    ensures forall i :: 0 <= i < |marks| ==> marks[i].name != Name(n)
  {
    forall i | 0 <= i < |marks|
      ensures marks[i].name != Name(n)
    {
      assert NumberedIn(marks[i].name, low, high);
      var k :| low < k <= high && marks[i].name == Name(k);
      if Name(k) == Name(n) { NameInjective(k, n); }
    }
  }

  /** The savepoint of a nested transaction is found under whatever its body left above it. */
  lemma FindOwnMark(below: seq<Mark>, own: Mark, above: seq<Mark>, n: nat, high: nat)
    requires own.name == Name(n) && NamedWithin(above, n, high)
    ensures FindMark(below + [own] + above, Name(n)) == Some(|below|)
  {
    var marks := below + [own] + above;
    FreshName(above, n, high, n);
    assert marks[|below|] == own;
    forall i | |below| < i < |marks|
      ensures marks[i].name != Name(n)
    {
      assert marks[i] == above[i - |below| - 1];
    }
  }

  lemma NamedWithinWider(marks: seq<Mark>, low: nat, high: nat, low': nat, high': nat)
    requires NamedWithin(marks, low, high) && low' <= low && high <= high'
    ensures NamedWithin(marks, low', high')
  {
    forall i | 0 <= i < |marks|
      ensures NumberedIn(marks[i].name, low', high')
    {
      assert NumberedIn(marks[i].name, low, high);
    }
  }

  class SqlxTx {
    const conn: Connection
    /** Shared by the transaction and every savepoint nested in it. */
    var spCount: nat

    constructor (c: Connection)
      ensures conn == c && spCount == 0
    {
      conn, spCount := c, 0;
    }

    /** Opens a nested transaction; its handle is the savepoint name. */
    method Begin() returns (name: Option<string>)
      modifies this`spCount, conn`marks
      ensures spCount == old(spCount) + 1
      ensures name.Some? <==> !conn.aborted
      ensures name.Some? ==> name.value == Name(spCount)
      ensures name.None? ==> conn.marks == old(conn.marks)
      ensures name.Some? && NamedWithin(old(conn.marks), 0, old(spCount)) ==>
                conn.marks == old(conn.marks) + [Mark(Name(spCount), conn.rows)]
    {
      spCount := spCount + 1;
      var n := Name(spCount);
      ghost var before := conn.marks;
      var ok := conn.Savepoint(n);
      if !ok {
        return None;
      }
      if NamedWithin(before, 0, old(spCount)) {
        FreshName(before, 0, old(spCount), spCount);
      }
      name := Some(n);
    }

    /** A body runs as it is meant to, whatever stale savepoints it leaves on the stack: they lie
        above those it found and carry newer numbers. */
    method Execute(s: Script)
      requires NamedWithin(conn.marks, 0, spCount)
      modifies this`spCount, conn`rows, conn`marks, conn`aborted
      ensures conn.State() == Run(conn.server, s, old(conn.State()))
      ensures spCount >= old(spCount)
      ensures old(conn.marks) <= conn.marks
      ensures NamedWithin(conn.marks[|old(conn.marks)|..], old(spCount), spCount)
      ensures NamedWithin(conn.marks, 0, spCount)
      decreases s, 1
    {
      match s
      case End =>
        assert conn.marks[|conn.marks|..] == [];
      case Then(st, rest) =>
        ExecuteStep(st);
        ghost var mid, midCount := conn.marks, spCount;
        Execute(rest);
        StackGrows(old(conn.marks), mid, conn.marks, old(spCount), midCount, spCount);
    }

    method ExecuteStep(st: Step)
      requires NamedWithin(conn.marks, 0, spCount)
      modifies this`spCount, conn`rows, conn`marks, conn`aborted
      ensures conn.State() == RunStep(conn.server, st, old(conn.State()))
      ensures spCount >= old(spCount)
      ensures old(conn.marks) <= conn.marks
      ensures NamedWithin(conn.marks[|old(conn.marks)|..], old(spCount), spCount)
      ensures NamedWithin(conn.marks, 0, spCount)
      decreases st, 0
    {
      if !st.Nested? {
        var _ := conn.Exec(st);
        assert conn.marks[|conn.marks|..] == [];
        return;
      }
      ExecuteNested(st.body, st.ok);
    }

    method ExecuteNested(body: Script, ok: bool)
      requires NamedWithin(conn.marks, 0, spCount)
      modifies this`spCount, conn`rows, conn`marks, conn`aborted
      ensures conn.State() == if old(conn.aborted) || !ok then old(conn.State())
                              else Run(conn.server, body, old(conn.State()))
      ensures spCount >= old(spCount)
      ensures old(conn.marks) <= conn.marks
      ensures NamedWithin(conn.marks[|old(conn.marks)|..], old(spCount), spCount)
      ensures NamedWithin(conn.marks, 0, spCount)
      decreases body, 2
    {
      hide NamedWithin, Run, Name;
      ghost var below, count := conn.marks, spCount;
      var name := Begin();
      NamedWithinWider(below, 0, count, 0, spCount);
      if name.None? {
        NothingAbove(below, count, spCount);
        return;
      }
      ghost var n, own := spCount, Mark(Name(spCount), conn.rows);
      NamedPush(below, own, n);
      Execute(body);
      ghost var above := conn.marks[|below| + 1..];
      assert conn.marks == below + [own] + above;
      FindOwnMark(below, own, above, n, spCount);
      AfterNested(below, own, above, count, n, spCount);
      if ok {
        var _ := conn.Release(name.value);
      } else {
        var _ := conn.RollbackTo(name.value);
      }
    }

    /** DB.Transaction over this layer: begin, run, commit or roll back. */
    method Transaction(s: Script, ok: bool)
      modifies this`spCount, conn
      ensures conn.committed == Outcome(conn.server, old(conn.committed), s, ok)
      ensures conn.rows == conn.committed && conn.marks == [] && !conn.aborted
    {
      conn.BeginTx();
      Execute(s);
      if ok {
        conn.CommitTx();
      } else {
        conn.RollbackTx();
      }
    }
  }

  lemma NothingAbove(marks: seq<Mark>, low: nat, high: nat)
    ensures NamedWithin(marks[|marks|..], low, high)
  {
  }

  /** The three stacks a nested transaction can leave: all of it, its own savepoint, or nothing. */
  lemma AfterNested(below: seq<Mark>, own: Mark, above: seq<Mark>, count: nat, n: nat, high: nat)
    requires NamedWithin(below, 0, count) && own.name == Name(n) && NamedWithin(above, n, high)
    requires count < n <= high
    ensures var all := below + [own] + above;
            && all[..|below|] == below && all[..|below| + 1] == below + [own] && all[|below|] == own
            && NamedWithin(below, 0, high) && NamedWithin(below[|below|..], count, high)
            && NamedWithin(below + [own], 0, high) && NamedWithin((below + [own])[|below|..], count, high)
            && NamedWithin(all, 0, high) && NamedWithin(all[|below|..], count, high)
  {
    var all := below + [own] + above;
    NamedWithinWider(below, 0, count, 0, high);
    NamedWithinWider(above, n, high, count, high);
    assert NumberedIn(own.name, count, high);
    NamedConcat([own], above, count, high);
    NamedWithinWider([own] + above, count, high, 0, high);
    NamedConcat(below, [own] + above, 0, high);
    assert all == below + ([own] + above) && all[|below|..] == [own] + above;
    assert (below + [own])[|below|..] == [own];
    NamedWithinWider([own], count, high, 0, high);
    NamedConcat(below, [own], 0, high);
  }

  lemma NamedConcat(a: seq<Mark>, b: seq<Mark>, low: nat, high: nat)
    requires NamedWithin(a, low, high) && NamedWithin(b, low, high)
    ensures NamedWithin(a + b, low, high)
  {
  }

  lemma NamedPush(below: seq<Mark>, own: Mark, n: nat)
    requires NamedWithin(below, 0, n) && own.name == Name(n) && n > 0
    ensures NamedWithin(below + [own], 0, n)
  {
    assert NumberedIn(own.name, 0, n);
  }

  lemma StackGrows(a: seq<Mark>, b: seq<Mark>, c: seq<Mark>, low: nat, mid: nat, high: nat)
    requires a <= b <= c && low <= mid <= high
    requires NamedWithin(b[|a|..], low, mid) && NamedWithin(c[|b|..], mid, high)
    ensures NamedWithin(c[|a|..], low, high)
  {
    NamedWithinWider(b[|a|..], low, mid, low, high);
    NamedWithinWider(c[|b|..], mid, high, low, high);
    forall i | 0 <= i < |c[|a|..]|
      ensures NumberedIn(c[|a|..][i].name, low, high)
    {
      if i + |a| < |b| {
        assert c[|a|..][i] == b[|a|..][i];
      } else {
        assert c[|a|..][i] == c[|b|..][i + |a| - |b|];
      }
    }
  }

  // ----- the logging layer

  /** What is left of a body when nested transactions are refused before they start. */
  function Prune(s: Script): Script {
    match s
    case End => End
    case Then(st, rest) => if st.Nested? then Prune(rest) else Then(st, Prune(rest))
  }

  /** The transaction that DB hands out: `Begin` inside it always fails. */
  class LoggedTx {
    const inner: SqlxTx

    constructor (t: SqlxTx)
      ensures inner == t
    {
      inner := t;
    }

    method Begin() returns (name: Option<string>)
      ensures name.None?
    {
      name := None;
    }

    method Execute(s: Script)
      modifies inner.conn`rows, inner.conn`aborted
      ensures inner.conn.State() == Run(inner.conn.server, Prune(s), old(inner.conn.State()))
      decreases s
    {
      match s
      case End =>
      case Then(st, rest) =>
        if st.Nested? {
          var refused := Begin();
        } else {
          var _ := inner.conn.Exec(st);
        }
        Execute(rest);
    }

    method Transaction(s: Script, ok: bool)
      modifies inner.conn
      ensures inner.conn.committed == Outcome(inner.conn.server, old(inner.conn.committed), Prune(s), ok)
    {
      inner.conn.BeginTx();
      Execute(s);
      if ok {
        inner.conn.CommitTx();
      } else {
        inner.conn.RollbackTx();
      }
    }
  }

  /** Through DB a nested transaction has the effect of a failed one: refusing it up front and
      rolling it back are the same. */
  function FailNested(s: Script): Script {
    match s
    case End => End
    case Then(Nested(body, ok), rest) => Then(Nested(body, false), FailNested(rest))
    case Then(st, rest) => Then(st, FailNested(rest))
  }

  lemma {:induction false} LoggedFailsNested(server: Server, s: Script, w: World)
    ensures Run(server, Prune(s), w) == Run(server, FailNested(s), w)
    decreases s
  {
    match s
    case End =>
    case Then(Nested(body, ok), rest) =>
      LoggedFailsNested(server, rest, w);
    case Then(st, rest) =>
      LoggedFailsNested(server, rest, RunStep(server, st, w));
  }

  // ----- when the logging layer keeps the documented meaning

  /** The last value written to each key by a body without nesting. */
  function NetWrites(s: Script): Rows {
    match s
    case End => map[]
    case Then(Write(k, v), rest) => map[k := v] + NetWrites(rest)
    case Then(_, rest) => NetWrites(rest)
  }

  predicate HasBad(s: Script) {
    match s
    case End => false
    case Then(st, rest) => st.Bad? || HasBad(rest)
  }

  /** What a body without nesting commits: nothing if a failed statement aborts it. */
  function NetEffect(server: Server, s: Script): Rows {
    if server.aborts && HasBad(s) then map[] else NetWrites(s)
  }

  lemma {:induction false} FlatRun(server: Server, s: Script, w: World)
    requires NoNesting(s) && !w.aborted
    ensures if server.aborts && HasBad(s) then Run(server, s, w).aborted
            else Run(server, s, w) == World(w.rows + NetWrites(s), false)
    decreases s
  {
    match s
    case End =>
      assert w.rows + map[] == w.rows;
    case Then(Write(k, v), rest) =>
      FlatRun(server, rest, RunStep(server, s.step, w));
      assert w.rows[k := v] + NetWrites(rest) == w.rows + NetWrites(s);
    case Then(Bad, rest) =>
      if server.aborts {
        AbortedStays(server, rest, RunStep(server, Bad, w));
      } else {
        FlatRun(server, rest, w);
      }
    case Then(Nested(_, _), rest) =>
      assert false;
  }

  lemma FlatOutcome(server: Server, before: Rows, s: Script)
    requires NoNesting(s)
    ensures Outcome(server, before, s, true) == before + NetEffect(server, s)
  {
    FlatRun(server, s, World(before, false));
    assert before + map[] == before;
  }

  lemma {:induction false} PruneIsFlat(s: Script)
    ensures NoNesting(Prune(s))
  {
    match s
    case End =>
    case Then(st, rest) => PruneIsFlat(rest);
  }

  /** Through DB a successful transaction commits what the documentation says, whatever the rows
      before it, exactly when its own writes and the writes of the whole tree have the same net
      effect: dropping the nested transactions must lose no last write and no failed statement. */
  lemma LoggedAgreesExactly(server: Server, s: Script)
    ensures (forall before :: Outcome(server, before, Prune(s), true) == Outcome(server, before, s, true))
            <==> NetEffect(server, Prune(s)) == NetEffect(server, Effective(s))
  {
    hide NetEffect;
    forall before
      ensures Outcome(server, before, Prune(s), true) == before + NetEffect(server, Prune(s))
      ensures Outcome(server, before, s, true) == before + NetEffect(server, Effective(s))
    {
      PruneIsFlat(s);
      FlatOutcome(server, before, Prune(s));
      RunIsEffective(server, s, World(before, false));
      FlatOutcome(server, before, Effective(s));
    }
    var none: Rows := map[];
    assert none + NetEffect(server, Prune(s)) == NetEffect(server, Prune(s));
    assert none + NetEffect(server, Effective(s)) == NetEffect(server, Effective(s));
    assert Outcome(server, none, Prune(s), true) == none + NetEffect(server, Prune(s));
  }

  /** One write in a nested transaction is enough to miss it. */
  lemma LoggedLosesNestedWrite(server: Server, k: string, v: int)
    ensures var s := Then(Nested(Then(Write(k, v), End), true), End);
            exists before :: Outcome(server, before, Prune(s), true) != Outcome(server, before, s, true)
  {
    var inner := Then(Write(k, v), End);
    var s := Then(Nested(inner, true), End);
    assert Effective(End) == End;
    assert Effective(inner) == Then(Write(k, v), Effective(End));
    assert Effective(s) == Concat(Effective(inner), Effective(End));
    assert Concat(inner, End) == Then(Write(k, v), Concat(End, End));
    assert Concat(End, End) == End;
    assert Effective(s) == inner;
    assert !HasBad(End) && !HasBad(inner);
    assert NetWrites(inner) == map[k := v] + NetWrites(End);
    assert k in NetEffect(server, Effective(s)) && Prune(s) == End;
    LoggedAgreesExactly(server, s);
  }
}
