/** The slices and maps of a builder in the heap, and what `clone` does to them.

    A Go slice is an array with a length; its capacity is the length of the array, so an append
    may write in place. `QueryBuilder` works on the contents of these fields; that it may treat
    them as values rests on the results here: a clone shares no array and no map with its
    original, so nothing done through one is seen through the other. */
module BuilderMemory {
  import opened Wrappers
  import opened Conditions
  import opened Statements

  /** An element: a string, an argument, a join, or a clause, which has a slice of its own. */
  datatype Cell =
    | Word(s: string)
    | Arg(v: Value)
    | OnJoin(j: Join)
    | Clause(boolean: string, expr: string, args: Slice)

  datatype Slice = Nil | Slice(arr: array<Cell>, len: nat)

  /** What can be read through a cell. */
  datatype Seen =
    | SeenWord(s: string)
    | SeenArg(v: Value)
    | SeenJoin(j: Join)
    | SeenClause(boolean: string, expr: string, args: seq<Value>)

  // ----- slices of arguments

  ghost function Array(a: Slice): set<object> {
    if a.Nil? then {} else {a.arr}
  }

  ghost predicate ArgsFit(a: Slice)
    reads Array(a)
  {
    a.Slice? ==> a.len <= a.arr.Length && forall j :: 0 <= j < a.len ==> a.arr[j].Arg?
  }

  function Values(cells: seq<Cell>): seq<Value>
    requires forall j :: 0 <= j < |cells| ==> cells[j].Arg?
  {
    seq(|cells|, j requires 0 <= j < |cells| => cells[j].v)
  }

  ghost function SeenArgs(a: Slice): seq<Value>
    requires ArgsFit(a)
    reads Array(a)
  {
    if a.Nil? then [] else Values(a.arr[..a.len])
  }

  /** make and copy. */
  method CopyArgs(a: Slice) returns (r: Slice)
    requires ArgsFit(a) && a.Slice?
    ensures r.Slice? && fresh(r.arr) && r.len == r.arr.Length == a.len
    ensures ArgsFit(r) && SeenArgs(r) == SeenArgs(a)
  {
    var arr := new Cell[a.len](_ => Word(""));
    for i := 0 to a.len
      invariant arr[..i] == a.arr[..i]
      invariant a.arr[..] == old(a.arr[..])
    {
      arr[i] := a.arr[i];
    }
    assert arr[..a.len] == a.arr[..a.len];
    r := Slice(arr, a.len);
    forall j | 0 <= j < a.len
      ensures arr[j].Arg?
    {
      assert arr[j] == arr[..a.len][j] == a.arr[..a.len][j] == a.arr[j];
    }
  }

  // ----- slices whose clauses have slices of their own

  ghost function Inner(c: Cell): Slice {
    if c.Clause? then c.args else Nil
  }

  /** Every array that a read of the slice touches. */
  ghost function Live(s: Slice): set<object>
    reads Array(s)
  {
    if s.Nil? then {}
    else {s.arr} + set i, o | 0 <= i < s.len && i < s.arr.Length && o in Array(Inner(s.arr[i])) :: o
  }

  ghost predicate Fits(s: Slice)
    reads Live(s)
  {
    s.Slice? ==> s.len <= s.arr.Length && forall i :: 0 <= i < s.len ==> ArgsFit(Inner(s.arr[i]))
  }

  ghost function SeenCell(c: Cell): Seen
    requires ArgsFit(Inner(c))
    reads Array(Inner(c))
  {
    match c
    case Word(s) => SeenWord(s)
    case Arg(v) => SeenArg(v)
    case OnJoin(j) => SeenJoin(j)
    case Clause(boolean, expr, args) => SeenClause(boolean, expr, SeenArgs(args))
  }

  ghost function SeenIn(s: Slice): seq<Seen>
    requires Fits(s)
    reads Live(s)
  {
    if s.Nil? then [] else seq(s.len, i requires 0 <= i < s.len reads Live(s) requires Fits(s) => SeenCell(s.arr[i]))
  }

  /** No two clauses share their arguments, and none keeps them in the slice's own array. */
  ghost predicate Sole(s: Slice)
    reads Live(s)
  {
    s.Slice? ==>
      && s.len <= s.arr.Length
      && (forall i :: 0 <= i < s.len ==> s.arr !in Array(Inner(s.arr[i])))
      && (forall i, j :: 0 <= i < j < s.len ==> Array(Inner(s.arr[i])) !! Array(Inner(s.arr[j])))
  }

  method CopyCell(c: Cell) returns (r: Cell)
    requires ArgsFit(Inner(c))
    ensures ArgsFit(Inner(r)) && SeenCell(r) == SeenCell(c) && fresh(Array(Inner(r)))
  {
    match c
    case Clause(boolean, expr, args) =>
      if args.Slice? && args.len > 0 {
        var copied := CopyArgs(args);
        r := Clause(boolean, expr, copied);
      } else {
        r := Clause(boolean, expr, Nil);
      }
    case _ => r := c;
  }

  ghost predicate Shows(c: Cell, seen: Seen)
    reads Array(Inner(c))
  {
    ArgsFit(Inner(c)) && SeenCell(c) == seen
  }

  ghost predicate Apart(cells: seq<Cell>) {
    forall i, j :: 0 <= i < j < |cells| ==> Array(Inner(cells[i])) !! Array(Inner(cells[j]))
  }

  ghost function Inners(cells: seq<Cell>): set<object> {
    set i, o | 0 <= i < |cells| && o in Array(Inner(cells[i])) :: o
  }

  lemma InnersSnoc(cells: seq<Cell>, c: Cell)
    ensures Inners(cells + [c]) == Inners(cells) + Array(Inner(c))
    ensures Apart(cells) && Array(Inner(c)) !! Inners(cells) ==> Apart(cells + [c])
  {
    var all := cells + [c];
    forall o | o in Array(Inner(c))
      ensures o in Inners(all)
    {
      assert all[|cells|] == c;
    }
    forall o | o in Inners(cells)
      ensures o in Inners(all)
    {
      var i :| 0 <= i < |cells| && o in Array(Inner(cells[i]));
      assert all[i] == cells[i];
    }
    forall i, j | 0 <= i < j < |all| && Apart(cells) && Array(Inner(c)) !! Inners(cells)
      ensures Array(Inner(all[i])) !! Array(Inner(all[j]))
    {
      if j == |cells| {
        assert Array(Inner(cells[i])) <= Inners(cells);
      }
    }
  }

  /** The copy loops for selects, wheres and havings, cell by cell; in the other fields the cells
      are copied as they are. */
  method CopyCells(s: Slice) returns (cells: seq<Cell>)
    requires Fits(s) && s.Slice?
    ensures |cells| == s.len && Apart(cells) && fresh(Inners(cells))
    ensures forall i :: 0 <= i < s.len ==> Shows(cells[i], SeenIn(s)[i])
  {
    hide Shows, Apart, Inners;
    NoInners();
    cells := [];
    ghost var seen := SeenIn(s);
    for i := 0 to s.len
      invariant |cells| == i && Apart(cells) && fresh(Inners(cells))
      invariant forall j :: 0 <= j < i ==> Shows(cells[j], seen[j])
    {
      ghost var prior := Inners(cells);
      InnersCover(cells);
      var c := CopyCell(s.arr[i]);
      assert Shows(c, seen[i]) by { ShowsMeans(c, seen[i]); }
      assert forall o :: o in Array(Inner(c)) ==> o !in prior;
      InnersSnoc(cells, c);
      cells := cells + [c];
    }
  }

  lemma InnersCover(cells: seq<Cell>)
    ensures forall i :: 0 <= i < |cells| ==> Array(Inner(cells[i])) <= Inners(cells)
    ensures forall o :: o in Inners(cells) ==> allocated(o)
  {
  }

  lemma NoInners()
    ensures Inners([]) == {} && Apart([])
  {
  }

  lemma ShowsMeans(c: Cell, seen: Seen)
    ensures Shows(c, seen) <==> ArgsFit(Inner(c)) && SeenCell(c) == seen
  {
  }

  /** A nil slice stays nil; any other gets an array of its own. */
  method CopySlice(s: Slice) returns (r: Slice)
    requires Fits(s)
    ensures r.Nil? <==> s.Nil?
    ensures fresh(Live(r)) && Fits(r) && Sole(r) && SeenIn(r) == SeenIn(s)
  {
    hide Apart, Inners, Shows, Sole, SeenIn, Fits;
    if s.Nil? {
      NilSlice();
      return Nil;
    }
    ghost var seen := SeenIn(s);
    SeenSize(s);
    LiveAllocated(s);
    var cells := CopyCells(s);
    ghost var inners := Inners(cells);
    InnersCover(cells);
    label copied:
    var arr := new Cell[s.len](i requires 0 <= i < |cells| => cells[i]);
    assert arr[..] == cells;
    r := Slice(arr, s.len);
    forall i | 0 <= i < |cells|
      ensures Shows(cells[i], seen[i])
    {
      assert old@copied(Shows(cells[i], seen[i]));
    }
    assert SeenIn(s) == old@copied(SeenIn(s)) == seen;
    assert arr[..|cells|] == cells;
    OwnedSlice(arr, cells, seen);
  }

  lemma NilSlice()
    ensures Fits(Nil) && Sole(Nil) && SeenIn(Nil) == []
  {
  }

  lemma LiveAllocated(s: Slice)
    ensures forall o :: o in Live(s) ==> allocated(o)
  {
  }

  lemma SeenSize(s: Slice)
    requires Fits(s)
    ensures |SeenIn(s)| == if s.Nil? then 0 else s.len
  {
  }

  /** The cells of a slice that owns all its arrays. */
  ghost predicate OwnCells(arr: array<Cell>, cells: seq<Cell>, seen: seq<Seen>)
    reads Inners(cells)
  {
    arr !in Inners(cells) && CellsShow(cells, seen)
  }

  ghost predicate CellsShow(cells: seq<Cell>, seen: seq<Seen>)
    reads Inners(cells)
  {
    |seen| == |cells| && Apart(cells) && forall i :: 0 <= i < |cells| ==> Shows(cells[i], seen[i])
  }

  lemma OwnedSlice(arr: array<Cell>, cells: seq<Cell>, seen: seq<Seen>)
    requires |cells| <= arr.Length && arr[..|cells|] == cells && OwnCells(arr, cells, seen)
    ensures var r := Slice(arr, |cells|);
            Live(r) == {arr} + Inners(cells) && Fits(r) && Sole(r) && SeenIn(r) == seen
  {
    hide Shows;
    var r := Slice(arr, |cells|);
    forall i | 0 <= i < |cells|
      ensures arr[i] == cells[i] && ArgsFit(Inner(arr[i])) && SeenCell(arr[i]) == seen[i]
      ensures arr !in Array(Inner(arr[i]))
    {
      assert arr[..|cells|][i] == arr[i];
      ShowsMeans(cells[i], seen[i]);
      InnersCover(cells);
    }
    assert SeenIn(r) == seen;
  }

  lemma OwnedCells(s: Slice, seen: seq<Seen>)
    requires s.Slice? && Owns(s, seen)
    ensures s.len <= s.arr.Length && OwnCells(s.arr, s.arr[..s.len], seen)
    ensures Live(s) == {s.arr} + Inners(s.arr[..s.len])
  {
    var cells := s.arr[..s.len];
    forall i | 0 <= i < s.len
      ensures Shows(cells[i], seen[i]) && s.arr !in Array(Inner(cells[i]))
    {
      assert cells[i] == s.arr[i];
    }
    forall i, j | 0 <= i < j < s.len
      ensures Array(Inner(cells[i])) !! Array(Inner(cells[j]))
    {
      assert cells[i] == s.arr[i] && cells[j] == s.arr[j];
    }
  }

  // ----- all slices of a builder

  /** The fields of slice type. */
  datatype Field =
    | Selects | Joins | Wheres | GroupBys | Havings | OrderBys | Args | OnDuplicate | PrimaryKeys
    | RawArgs | BatchCols | BatchPlaceholders | BatchArgs

  const FIELDS := [Selects, Wheres, Joins, GroupBys, Havings, OrderBys, Args, OnDuplicate, PrimaryKeys,
                   RawArgs, BatchCols, BatchPlaceholders, BatchArgs]

  lemma EveryField(f: Field)
    ensures f in FIELDS
  {
    assert FIELDS[0] == Selects && FIELDS[1] == Wheres && FIELDS[2] == Joins && FIELDS[3] == GroupBys
        && FIELDS[4] == Havings && FIELDS[5] == OrderBys && FIELDS[6] == Args && FIELDS[7] == OnDuplicate
        && FIELDS[8] == PrimaryKeys && FIELDS[9] == RawArgs && FIELDS[10] == BatchCols
        && FIELDS[11] == BatchPlaceholders && FIELDS[12] == BatchArgs;
  }

  /** A slice that owns all its arrays and shows the given contents. */
  ghost predicate Owns(s: Slice, seen: seq<Seen>)
    reads Live(s)
  {
    Fits(s) && Sole(s) && SeenIn(s) == seen
  }

  ghost predicate Contains(s: Slice, seen: seq<Seen>)
    reads Live(s)
  {
    Fits(s) && SeenIn(s) == seen
  }

  /** What can be read through each slice field. */
  type Contents = map<Field, seq<Seen>>

  /** The slices show the given contents; everything read through them lies in `repr`. */
  ghost predicate ContainsAll(slices: map<Field, Slice>, contents: Contents, repr: set<object>)
    reads repr
  {
    && (forall f :: f in slices ==> f in contents && Array(slices[f]) <= repr)
    && (forall f :: f in slices ==> Live(slices[f]) <= repr)
    && (forall f :: f in slices ==> Contains(slices[f], contents[f]))
  }

  /** Besides, no array belongs to two owners. */
  ghost predicate OwnAll(slices: map<Field, Slice>, contents: Contents, repr: set<object>)
    reads repr
  {
    && ContainsAll(slices, contents, repr)
    && (forall f :: f in slices ==> Sole(slices[f]))
    && (forall f, g :: f in slices && g in slices && f != g ==> Live(slices[f]) !! Live(slices[g]))
  }

  method CopyField(s: Slice, ghost seen: seq<Seen>) returns (t: Slice)
    requires Contains(s, seen)
    ensures Owns(t, seen) && fresh(Live(t)) && Contains(s, seen) && (t.Nil? <==> s.Nil?)
  {
    hide Fits, Sole, SeenIn;
    LiveAllocated(s);
    t := CopySlice(s);
  }

  lemma OwnOneMore(slices: map<Field, Slice>, contents: Contents, repr: set<object>, f: Field, t: Slice)
    requires OwnAll(slices, contents, repr) && f in contents && f !in slices
    requires Owns(t, contents[f]) && Live(t) !! repr
    ensures OwnAll(slices[f := t], contents, repr + Live(t))
  {
    hide Fits, Sole, SeenIn, Live;
    LiveArray(t);
  }

  lemma LiveArray(s: Slice)
    ensures Array(s) <= Live(s)
  {
  }

  lemma ContainsOne(slices: map<Field, Slice>, contents: Contents, repr: set<object>, f: Field)
    requires ContainsAll(slices, contents, repr) && f in slices
    ensures f in contents && Contains(slices[f], contents[f])
  {
  }

  /** The copy of one more field. */
  method CopyNext(slices: map<Field, Slice>, ghost contents: Contents, ghost source: set<object>,
                  done: map<Field, Slice>, ghost repr: set<object>, f: Field)
    returns (r: map<Field, Slice>, ghost more: set<object>)
    requires ContainsAll(slices, contents, source) && f in slices && f !in done
    requires OwnAll(done, contents, repr)
    ensures ContainsAll(slices, contents, source) && r.Keys == done.Keys + {f} && OwnAll(r, contents, more)
    ensures repr <= more && fresh(more - repr)
  {
    hide *;
    ContainsOne(slices, contents, source, f);
    var t := CopyField(slices[f], contents[f]);
    OwnOneMore(done, contents, repr, f, t);
    r, more := done[f := t], repr + Live(t);
  }

  // ----- edits of one slice

  lemma OwnCellsSnoc(arr: array<Cell>, cells: seq<Cell>, seen: seq<Seen>, c: Cell, shown: Seen)
    requires OwnCells(arr, cells, seen) && Shows(c, shown) && Array(Inner(c)) !! {arr} + Inners(cells)
    ensures OwnCells(arr, cells + [c], seen + [shown])
    ensures Inners(cells + [c]) == Inners(cells) + Array(Inner(c))
  {
    hide Shows, Apart, Inners;
    InnersSnoc(cells, c);
  }

  method PushInPlace(s: Slice, c: Cell, ghost seen: seq<Seen>, ghost shown: Seen) returns (t: Slice)
    requires s.Slice? && s.len < s.arr.Length
    requires Owns(s, seen) && Shows(c, shown) && Array(Inner(c)) !! Live(s)
    modifies s.arr
    ensures t == Slice(s.arr, s.len + 1) && Owns(t, seen + [shown]) && Live(t) == old(Live(s)) + Array(Inner(c))
  {
    hide Shows, OwnCells, Fits, Sole, SeenIn, Live, Inners;
    OwnedCells(s, seen);
    ghost var cells := s.arr[..s.len];
    OwnCellsSnoc(s.arr, cells, seen, c, shown);
    InnersCover(cells + [c]);
    assert s.arr !in Inners(cells + [c]) by { OwnCellsMeans(s.arr, cells + [c], seen + [shown]); }
    s.arr[s.len] := c;
    t := Slice(s.arr, s.len + 1);
    assert t.arr[..t.len] == cells + [c];
    OwnedSlice(t.arr, cells + [c], seen + [shown]);
  }

  lemma OwnCellsMeans(arr: array<Cell>, cells: seq<Cell>, seen: seq<Seen>)
    requires OwnCells(arr, cells, seen)
    ensures arr !in Inners(cells) && |seen| == |cells| && Apart(cells)
    ensures forall i :: 0 <= i < |cells| ==> Shows(cells[i], seen[i])
  {
  }

  /** A larger array with the same elements. */
  method Grow(s: Slice, ghost seen: seq<Seen>) returns (t: Slice)
    requires Owns(s, seen)
    ensures t.Slice? && fresh(t.arr) && t.len < t.arr.Length
    ensures Owns(t, seen) && Live(t) <= {t.arr} + old(Live(s))
  {
    hide Shows, CellsShow, Fits, Sole, SeenIn, Live, Inners;
    ghost var cells: seq<Cell> := [];
    var n := 0;
    if s.Slice? {
      OwnedCells(s, seen);
      cells, n := s.arr[..s.len], s.len;
    } else {
      NoCells(seen);
      NoInners();
    }
    InnersCover(cells);
    var arr := new Cell[2 * n + 1](_ => Word(""));
    for i := 0 to n
      invariant arr[..i] == cells[..i]
      invariant s.Slice? ==> s.arr[..] == old(s.arr[..])
      modifies arr
    {
      arr[i] := s.arr[i];
    }
    t := Slice(arr, n);
    assert arr[..n] == cells;
    assert CellsShow(cells, seen);
    OwnedSlice(arr, cells, seen);
  }

  lemma NoCells(seen: seq<Seen>)
    requires Owns(Nil, seen)
    ensures seen == [] && CellsShow([], seen)
  {
  }

  /** append: in place when there is room behind the length, otherwise into a larger array. */
  method Push(s: Slice, c: Cell, ghost seen: seq<Seen>, ghost shown: Seen) returns (t: Slice)
    requires Owns(s, seen) && Shows(c, shown) && Array(Inner(c)) !! Live(s)
    modifies Array(s)
    ensures Owns(t, seen + [shown])
    ensures fresh(Live(t) - old(Live(s)) - Array(Inner(c)))
  {
    hide Shows, Owns, Live;
    LiveArray(s);
    var room := s;
    if s.Nil? || s.len >= s.arr.Length {
      CellAllocated(c);
      room := Grow(s, seen);
    }
    t := PushInPlace(room, c, seen, shown);
  }

  lemma CellAllocated(c: Cell)
    ensures forall o :: o in Array(Inner(c)) ==> allocated(o)
  {
  }

  /** s[i] = c */
  method Put(s: Slice, i: nat, c: Cell, ghost seen: seq<Seen>, ghost shown: Seen)
    requires s.Slice? && i < s.len && Owns(s, seen) && |seen| == s.len && Shows(c, shown) && Inner(c).Nil?
    modifies Array(s)
    ensures Owns(s, seen[i := shown]) && Live(s) <= old(Live(s))
  {
    hide Shows, CellsShow, Fits, Sole, SeenIn, Live, Inners;
    OwnedCells(s, seen);
    ghost var cells := s.arr[..s.len];
    CellsShowPut(cells, seen, i, c, shown);
    s.arr[i] := c;
    assert s.arr[..s.len] == cells[i := c];
    OwnedSlice(s.arr, cells[i := c], seen[i := shown]);
  }

  lemma CellsShowPut(cells: seq<Cell>, seen: seq<Seen>, i: nat, c: Cell, shown: Seen)
    requires CellsShow(cells, seen) && i < |cells| && Shows(c, shown) && Inner(c).Nil?
    ensures CellsShow(cells[i := c], seen[i := shown]) && Inners(cells[i := c]) <= Inners(cells)
  {
    hide Shows;
    var cells', seen' := cells[i := c], seen[i := shown];
    forall o | o in Inners(cells')
      ensures o in Inners(cells)
    {
      var j :| 0 <= j < |cells'| && o in Array(Inner(cells'[j]));
      assert cells'[j] == cells[j];
    }
    forall j | 0 <= j < |cells'|
      ensures Shows(cells'[j], seen'[j])
    {
    }
  }

  /** s[i].args[j] = v */
  method PutArg(s: Slice, i: nat, j: nat, v: Value, ghost seen: seq<Seen>)
    requires s.Slice? && i < s.len && Owns(s, seen) && |seen| == s.len
    requires seen[i].SeenClause? && j < |seen[i].args|
    modifies Live(s)
    ensures Owns(s, seen[i := seen[i].(args := seen[i].args[j := v])]) && Live(s) == old(Live(s))
  {
    hide Fits, Sole, SeenIn, Live, Inners, CellsShow, Apart;
    OwnedCells(s, seen);
    ghost var cells := s.arr[..s.len];
    ghost var seen' := seen[i := seen[i].(args := seen[i].args[j := v])];
    var c := s.arr[i];
    OwnArgs(cells, seen, i);
    InnersCover(cells);
    CellsShowMeans(cells, seen);
    ApartFrom(cells, i);
    label before:
    c.args.arr[j] := Arg(v);
    assert s.arr[..s.len] == cells;
    forall k | 0 <= k < |cells|
      ensures Shows(cells[k], seen'[k])
    {
      if k == i {
        assert SeenArgs(c.args) == seen[i].args[j := v];
      } else {
        assert old@before(Shows(cells[k], seen[k]));
      }
    }
    CellsShowMeans(cells, seen');
    OwnedSlice(s.arr, cells, seen');
  }

  lemma CellsShowMeans(cells: seq<Cell>, seen: seq<Seen>)
    ensures CellsShow(cells, seen) <==>
            |seen| == |cells| && Apart(cells) && forall i :: 0 <= i < |cells| ==> Shows(cells[i], seen[i])
  {
  }

  lemma ApartFrom(cells: seq<Cell>, i: nat)
    requires Apart(cells) && i < |cells|
    ensures forall k :: 0 <= k < |cells| && k != i ==> Array(Inner(cells[k])) !! Array(Inner(cells[i]))
  {
    forall k | 0 <= k < |cells| && k != i
      ensures Array(Inner(cells[k])) !! Array(Inner(cells[i]))
    {
      assert k < i ==> Array(Inner(cells[k])) !! Array(Inner(cells[i]));
      assert i < k ==> Array(Inner(cells[i])) !! Array(Inner(cells[k]));
    }
  }

  lemma OwnArgs(cells: seq<Cell>, seen: seq<Seen>, i: nat)
    requires CellsShow(cells, seen) && i < |cells| && seen[i].SeenClause?
    ensures var c := cells[i];
            c.Clause? && ArgsFit(c.args) && SeenArgs(c.args) == seen[i].args
            && (seen[i].args != [] ==> c.args.Slice? && c.args.len == |seen[i].args|)
  {
    assert Shows(cells[i], seen[i]);
  }

  // ----- maps

  class GoMap {
    var m: map<string, Value>

    constructor (init: map<string, Value>)
      ensures m == init
    {
      m := init;
    }
  }

  datatype MapField = Inserts | Updates | NullableCols | NamedArgs

  const MAP_FIELDS := [NullableCols, Inserts, Updates, NamedArgs]

  lemma EveryMapField(f: MapField)
    ensures f in MAP_FIELDS
  {
    assert MAP_FIELDS[0] == NullableCols && MAP_FIELDS[1] == Inserts && MAP_FIELDS[2] == Updates
        && MAP_FIELDS[3] == NamedArgs;
  }

  type MapContents = map<MapField, Option<map<string, Value>>>

  /** make, and one assignment per key, in any order. */
  method CopyMap(g: GoMap) returns (r: GoMap)
    ensures fresh(r) && r.m == g.m
  {
    r := new GoMap(map[]);
    var todo := g.m.Keys;
    while todo != {}
      invariant todo <= g.m.Keys && r.m.Keys == g.m.Keys - todo
      invariant forall k :: k in r.m ==> r.m[k] == g.m[k]
      invariant g.m == old(g.m) && r != g
      decreases |todo|
    {
      var k :| k in todo;
      r.m := r.m[k := g.m[k]];
      todo := todo - {k};
    }
  }

  ghost predicate MapShows(g: GoMap?, c: Option<map<string, Value>>)
    reads if g == null then {} else {g}
  {
    if g == null then c == None else c == Some(g.m)
  }

  ghost predicate MapsShow(maps: map<MapField, GoMap?>, contents: MapContents, boxes: set<object>)
    reads boxes
  {
    && (forall f :: f in maps ==> f in contents && (maps[f] != null ==> maps[f] in boxes))
    && (forall f :: f in maps ==> MapShows(maps[f], contents[f]))
  }

  ghost predicate MapsApart(maps: map<MapField, GoMap?>) {
    forall f, g :: f in maps && g in maps && f != g && maps[f] != null ==> maps[f] != maps[g]
  }

  /** clone's copies of the map fields; a nil map stays nil. */
  method CopyMaps(maps: map<MapField, GoMap?>, ghost contents: MapContents, ghost boxes: set<object>)
    returns (r: map<MapField, GoMap?>, ghost own: set<object>)
    requires MapsShow(maps, contents, boxes) && forall f :: f in maps
    ensures (forall f :: f in r) && MapsShow(r, contents, own) && MapsApart(r) && fresh(own)
    ensures forall o :: o in own ==> o is GoMap
  {
    r, own := map[], {};
    for i := 0 to |MAP_FIELDS|
      invariant MapsShow(maps, contents, boxes)
      invariant r.Keys == set f | f in MAP_FIELDS[..i]
      invariant MapsShow(r, contents, own) && MapsApart(r) && fresh(own)
      invariant forall o :: o in own ==> o is GoMap && allocated(o)
    {
      var f := MAP_FIELDS[i];
      var copied: GoMap? := null;
      if maps[f] != null {
        copied := CopyMap(maps[f]);
        own := own + {copied};
      }
      assert MapShows(copied, contents[f]);
      r := r[f := copied];
    }
    forall f: MapField
      ensures f in r
    {
      EveryMapField(f);
    }
  }

  /** All slice fields. */
  method CopySlices(slices: map<Field, Slice>, ghost contents: Contents, ghost source: set<object>)
    returns (r: map<Field, Slice>, ghost own: set<object>)
    requires ContainsAll(slices, contents, source) && forall f :: f in slices
    ensures (forall f :: f in r) && OwnAll(r, contents, own) && fresh(own)
  {
    hide ContainsAll, OwnAll;
    r, own := map[], {};
    OwnNone(contents);
    for i := 0 to |FIELDS|
      invariant ContainsAll(slices, contents, source) && OwnAll(r, contents, own) && fresh(own)
      invariant r.Keys == set f | f in FIELDS[..i]
    {
      r, own := CopyNext(slices, contents, source, r, own, FIELDS[i]);
    }
    forall f: Field
      ensures f in r
    {
      EveryField(f);
    }
  }

  lemma OwnNone(contents: Contents)
    ensures OwnAll(map[], contents, {})
  {
  }

  // ----- the builder

  /** The fields that hold no reference to a slice or a map. */
  datatype Scalars = Scalars(table: string, limit: Option<int>, offset: Option<int>, action: string, rawQuery: string)

  /** Everything that can be read through a builder. */
  datatype View = View(contents: Contents, maps: MapContents, scalars: Scalars)

  /** What callers and the builder do to the fields: append, element writes, assignment of a new
      slice, map writes, assignment of a new map, and the scalar fields. */
  datatype Edit =
    | Append(f: Field, x: Seen)
    | SetCell(f: Field, i: nat, x: Seen)
    | SetArg(f: Field, i: nat, j: nat, v: Value)
    | Clear(f: Field)
    | SetKey(mf: MapField, k: string, v: Value)
    | SetMap(mf: MapField, m: map<string, Value>)
    | SetScalars(to: Scalars)

  /** The edit as the builder shows it; an element write out of range or of the wrong kind is none. */
  function Edited(v: View, e: Edit): View
    requires (forall f :: f in v.contents) && forall f :: f in v.maps
  {
    match e
    case Append(f, x) => v.(contents := v.contents[f := v.contents[f] + [x]])
    case SetCell(f, i, x) =>
      if i >= |v.contents[f]| || x.SeenClause? then v else v.(contents := v.contents[f := v.contents[f][i := x]])
    case SetArg(f, i, j, x) =>
      var was := v.contents[f];
      if i >= |was| || !was[i].SeenClause? || j >= |was[i].args| then v
      else v.(contents := v.contents[f := was[i := was[i].(args := was[i].args[j := x])]])
    case Clear(f) => v.(contents := v.contents[f := []])
    case SetKey(mf, k, x) =>
      v.(maps := v.maps[mf := Some(if v.maps[mf].Some? then v.maps[mf].value[k := x] else map[k := x])])
    case SetMap(mf, m) => v.(maps := v.maps[mf := Some(m)])
    case SetScalars(x) => v.(scalars := x)
  }

  /** A new cell; the arguments of a clause get an array of their own. */
  method Make(x: Seen) returns (c: Cell)
    ensures Shows(c, x) && fresh(Array(Inner(c))) && (x.SeenClause? || Inner(c).Nil?)
  {
    match x
    case SeenWord(s) => c := Word(s);
    case SeenArg(v) => c := Arg(v);
    case SeenJoin(j) => c := OnJoin(j);
    case SeenClause(boolean, expr, args) =>
      var arr := new Cell[|args|](i requires 0 <= i < |args| => Arg(args[i]));
      c := Clause(boolean, expr, Slice(arr, |args|));
      assert arr[..|args|] == arr[..];
  }

  /** One field set aside. */
  lemma TakeOut(slices: map<Field, Slice>, contents: Contents, arrays: set<object>, f: Field, seen: seq<Seen>)
    requires OwnAll(slices, contents, arrays) && f in slices
    ensures f in contents && Owns(slices[f], contents[f]) && Live(slices[f]) <= arrays
    ensures OwnAll(slices - {f}, contents[f := seen], arrays - Live(slices[f]))
  {
    hide Fits, Sole, SeenIn, Live;
    var rest, left := slices - {f}, arrays - Live(slices[f]);
    forall g | g in rest
      ensures Array(rest[g]) <= left && Live(rest[g]) <= left
    {
      LiveArray(rest[g]);
    }
  }

  lemma PutBack(slices: map<Field, Slice>, contents: Contents, left: set<object>, f: Field, t: Slice, seen: seq<Seen>)
    requires OwnAll(slices - {f}, contents[f := seen], left) && Owns(t, seen) && Live(t) !! left
    ensures OwnAll(slices[f := t], contents[f := seen], left + Live(t))
    ensures ContainsAll(slices[f := t], contents[f := seen], left + Live(t))
  {
    hide Owns, Live;
    OwnOneMore(slices - {f}, contents[f := seen], left, f, t);
    assert (slices - {f})[f := t] == slices[f := t];
  }

  class HeapBuilder {
    var slices: map<Field, Slice>
    var maps: map<MapField, GoMap?>
    var scalars: Scalars

    /** What is read through the fields, and the arrays and maps this touches. */
    ghost var contents: Contents
    ghost var mapContents: MapContents
    ghost var arrays: set<object>
    ghost var boxes: set<object>

    ghost function Repr(): set<object>
      reads this
    {
      {this} + arrays + boxes
    }

    /** Reading the fields gives `contents` and `mapContents`. Arrays may be shared. */
    ghost predicate Readable()
      reads Repr()
    {
      && (forall f :: f in slices && f in contents) && (forall f :: f in maps && f in mapContents)
      && this !in arrays && this !in boxes && arrays !! boxes
      && ContainsAll(slices, contents, arrays) && MapsShow(maps, mapContents, boxes)
    }

    /** Besides, no array and no map has two owners inside the builder. */
    ghost predicate Valid()
      reads Repr()
    {
      Readable() && OwnAll(slices, contents, arrays) && MapsApart(maps)
    }

    ghost function Seen(): View
      reads this
    {
      View(contents, mapContents, scalars)
    }

    constructor (slices: map<Field, Slice>, maps: map<MapField, GoMap?>, scalars: Scalars, ghost contents: Contents,
                 ghost mapContents: MapContents, ghost arrays: set<object>, ghost boxes: set<object>)
      requires (forall f :: f in slices && f in contents) && (forall f :: f in maps && f in mapContents)
      requires arrays !! boxes
      requires OwnAll(slices, contents, arrays) && MapsShow(maps, mapContents, boxes) && MapsApart(maps)
      ensures Valid() && this.arrays == arrays && this.boxes == boxes
      ensures Seen() == View(contents, mapContents, scalars)
    {
      this.slices, this.maps, this.scalars := slices, maps, scalars;
      this.contents, this.mapContents, this.arrays, this.boxes := contents, mapContents, arrays, boxes;
    }

    /** What the ghost fields say is what a reader finds. */
    lemma ReadsAre()
      requires Readable()
      ensures forall f :: f in slices && f in contents && Fits(slices[f]) && SeenIn(slices[f]) == contents[f]
    {
    }

    /** The copy shows the same and is made of new arrays and maps only. */
    method Clone() returns (c: HeapBuilder)
      requires Readable()
      ensures Readable() && c.Valid() && fresh(c.Repr()) && c.Seen() == Seen()
    {
      hide ContainsAll, OwnAll, MapsShow, MapsApart, Valid;
      var newSlices, own := CopySlices(slices, contents, arrays);
      var newMaps, ownBoxes := CopyMaps(maps, mapContents, boxes);
      c := new HeapBuilder(newSlices, newMaps, scalars, contents, mapContents, own, ownBoxes);
    }

    /** Everything about the builder but one slice field. */
    ghost predicate Without(f: Field, seen: seq<Seen>, left: set<object>)
      reads {this} + left + boxes
    {
      && (forall g :: g in slices && g in contents) && (forall g :: g in maps && g in mapContents)
      && this !in left && this !in boxes && left !! boxes
      && OwnAll(slices - {f}, contents[f := seen], left)
      && MapsShow(maps, mapContents, boxes) && MapsApart(maps)
    }

    lemma SetAside(f: Field, seen: seq<Seen>)
      requires Valid()
      ensures Without(f, seen, arrays - Live(slices[f]))
      ensures Owns(slices[f], contents[f]) && Array(slices[f]) <= Live(slices[f]) <= arrays
    {
      hide ContainsAll, OwnAll, MapsShow, MapsApart, Owns, Live;
      TakeOut(slices, contents, arrays, f, seen);
      LiveArray(slices[f]);
    }

    /** b.f = t */
    method Adopt(f: Field, t: Slice, ghost seen: seq<Seen>, ghost left: set<object>)
      requires Without(f, seen, left) && Owns(t, seen) && Live(t) !! {this} + left + boxes
      modifies this`slices, this`contents, this`arrays
      ensures Valid() && contents == old(contents)[f := seen] && arrays == left + old(Live(t))
    {
      hide ContainsAll, OwnAll, MapsShow, MapsApart, Owns, Live;
      ghost var live := Live(t);
      PutBack(slices, contents, left, f, t, seen);
      slices, contents, arrays := slices[f := t], contents[f := seen], left + live;
    }

    /** append(b.f, x) */
    method DoAppend(f: Field, x: Seen)
      requires Valid()
      modifies this, arrays
      ensures Valid() && fresh(Repr() - old(Repr())) && Seen() == Edited(old(Seen()), Append(f, x))
    {
      hide ContainsAll, OwnAll, MapsShow, MapsApart, Without, Owns, Live, Shows;
      Totals();
      var c := Make(x);
      ghost var seen := contents[f] + [x];
      SetAside(f, seen);
      ghost var left := arrays - Live(slices[f]);
      assert Array(Inner(c)) !! Repr();
      var t := Push(slices[f], c, contents[f], x);
      Adopt(f, t, seen, left);
    }

    lemma Totals()
      requires Valid()
      ensures (forall f :: f in slices && f in contents) && (forall f :: f in maps && f in mapContents)
      ensures this !in arrays && this !in boxes && arrays !! boxes
    {
    }

    /** b.f[i] = x */
    method DoSetCell(f: Field, i: nat, x: Seen)
      requires Valid()
      modifies this, arrays
      ensures Valid() && fresh(Repr() - old(Repr())) && Seen() == Edited(old(Seen()), SetCell(f, i, x))
    {
      hide ContainsAll, OwnAll, MapsShow, MapsApart, Without, Owns, Live, Shows;
      Totals();
      var s := slices[f];
      SetAside(f, contents[f]);
      OwnsSize(s, contents[f]);
      if s.Nil? || i >= s.len || x.SeenClause? {
        return;
      }
      var c := Make(x);
      ghost var seen := contents[f][i := x];
      SetAside(f, seen);
      ghost var left := arrays - Live(s);
      Put(s, i, c, contents[f], x);
      Adopt(f, s, seen, left);
    }

    /** b.f[i].args[j] = v */
    method DoSetArg(f: Field, i: nat, j: nat, v: Value)
      requires Valid()
      modifies this, arrays
      ensures Valid() && fresh(Repr() - old(Repr())) && Seen() == Edited(old(Seen()), SetArg(f, i, j, v))
    {
      hide ContainsAll, OwnAll, MapsShow, MapsApart, Without, Owns, Live, Shows, ArgsFit;
      Totals();
      var s := slices[f];
      SetAside(f, contents[f]);
      OwnsSize(s, contents[f]);
      if s.Nil? || i >= s.len {
        return;
      }
      OwnsArgs(s, contents[f], i);
      var c := s.arr[i];
      if !c.Clause? || c.args.Nil? || j >= c.args.len {
        return;
      }
      ghost var was := contents[f];
      ghost var seen := was[i := was[i].(args := was[i].args[j := v])];
      SetAside(f, seen);
      ghost var left := arrays - Live(s);
      PutArg(s, i, j, v, was);
      Adopt(f, s, seen, left);
    }

    /** b.f = nil */
    method DoClear(f: Field)
      requires Valid()
      modifies this
      ensures Valid() && fresh(Repr() - old(Repr())) && Seen() == Edited(old(Seen()), Clear(f))
    {
      hide ContainsAll, OwnAll, MapsShow, MapsApart, Without, Owns, Live;
      Totals();
      SetAside(f, []);
      NilOwned();
      Adopt(f, Nil, [], arrays - Live(slices[f]));
    }

    /** b.f = m for a map of its own */
    method DoSetMap(f: MapField, m: map<string, Value>)
      requires Valid()
      modifies this
      ensures Valid() && fresh(Repr() - old(Repr())) && Seen() == Edited(old(Seen()), SetMap(f, m))
    {
      hide ContainsAll, OwnAll, MapsShow, MapsApart;
      var box := new GoMap(m);
      MapsPut(maps, mapContents, boxes, f, box);
      maps, mapContents, boxes := maps[f := box], mapContents[f := Some(m)], boxes + {box};
    }

    /** b.f[k] = v, the map being made first if there is none */
    method DoSetKey(f: MapField, k: string, v: Value)
      requires Valid()
      modifies this, boxes
      ensures Valid() && fresh(Repr() - old(Repr())) && Seen() == Edited(old(Seen()), SetKey(f, k, v))
    {
      hide ContainsAll, OwnAll, MapsShow, MapsApart;
      MapAt(maps, mapContents, boxes, f);
      if maps[f] == null {
        DoSetMap(f, map[k := v]);
      } else {
        WriteKey(maps, mapContents, boxes, f, k, v);
        mapContents := mapContents[f := Some(mapContents[f].value[k := v])];
      }
    }

    method Do(e: Edit)
      requires Valid()
      modifies Repr()
      ensures Valid() && fresh(Repr() - old(Repr())) && Seen() == Edited(old(Seen()), e)
    {
      hide ContainsAll, OwnAll, MapsShow, MapsApart;
      match e
      case Append(f, x) => DoAppend(f, x);
      case SetCell(f, i, x) => DoSetCell(f, i, x);
      case SetArg(f, i, j, v) => DoSetArg(f, i, j, v);
      case Clear(f) => DoClear(f);
      case SetKey(f, k, v) => DoSetKey(f, k, v);
      case SetMap(f, m) => DoSetMap(f, m);
      case SetScalars(x) => scalars := x;
    }
  }

  // ----- a clone and its original

  function EditedAll(v: View, es: seq<Edit>): (r: View)
    requires (forall f :: f in v.contents) && forall f :: f in v.maps
    ensures (forall f :: f in r.contents) && forall f :: f in r.maps
    decreases |es|
  {
    if es == [] then v else Edited(EditedAll(v, es[..|es| - 1]), es[|es| - 1])
  }

  /** Any edits through one builder show there and leave everything that is read through another
      builder as it was, if the two share no array and no map. */
  method EditAll(c: HeapBuilder, es: seq<Edit>, ghost other: HeapBuilder)
    requires c.Valid() && other.Readable() && c.Repr() !! other.Repr()
    modifies c.Repr()
    ensures c.Valid() && c.Seen() == EditedAll(old(c.Seen()), es)
    ensures other.Readable() && other.Repr() == old(other.Repr()) && other.Seen() == old(other.Seen())
    ensures c.Repr() !! other.Repr() && fresh(c.Repr() - old(c.Repr()))
  {
    hide ContainsAll, OwnAll, MapsShow, MapsApart, Edited;
    for i := 0 to |es|
      invariant c.Valid() && c.Seen() == EditedAll(old(c.Seen()), es[..i])
      invariant fresh(c.Repr() - old(c.Repr()))
      invariant other.Readable() && other.Repr() == old(other.Repr()) && other.Seen() == old(other.Seen())
      invariant c.Repr() !! other.Repr()
    {
      c.Do(es[i]);
      assert es[..i + 1][..i] == es[..i];
    }
    assert es[..|es|] == es;
  }

  /** Edits of a clone never reach the original, and edits of the original never reach a clone. */
  method CloneIsIsolated(b: HeapBuilder, es: seq<Edit>, more: seq<Edit>) returns (c: HeapBuilder)
    requires b.Valid()
    modifies b.Repr()
    ensures b.Valid() && c.Valid() && fresh(c.Repr())
    ensures c.Seen() == EditedAll(old(b.Seen()), es) && b.Seen() == EditedAll(old(b.Seen()), more)
    ensures forall f :: f in c.slices && Fits(c.slices[f]) && SeenIn(c.slices[f]) == c.Seen().contents[f]
    ensures forall f :: f in b.slices && Fits(b.slices[f]) && SeenIn(b.slices[f]) == b.Seen().contents[f]
  {
    hide ContainsAll, OwnAll, MapsShow, MapsApart, EditedAll;
    c := b.Clone();
    EditAll(c, es, b);
    EditAll(b, more, c);
    c.ReadsAre();
    b.ReadsAre();
  }

  lemma MapsPut(maps: map<MapField, GoMap?>, contents: MapContents, boxes: set<object>, f: MapField, box: GoMap)
    requires MapsShow(maps, contents, boxes) && MapsApart(maps) && box !in boxes
    ensures MapsShow(maps[f := box], contents[f := Some(box.m)], boxes + {box}) && MapsApart(maps[f := box])
  {
  }

  method WriteKey(maps: map<MapField, GoMap?>, ghost contents: MapContents, ghost boxes: set<object>, f: MapField,
                  k: string, v: Value)
    requires MapsShow(maps, contents, boxes) && MapsApart(maps) && f in maps && maps[f] != null
    modifies maps[f]
    ensures f in contents && contents[f].Some?
    ensures MapsShow(maps, contents[f := Some(contents[f].value[k := v])], boxes)
  {
    MapAt(maps, contents, boxes, f);
    var box := maps[f];
    box.m := box.m[k := v];
    forall g | g in maps && g != f
      ensures MapShows(maps[g], contents[g])
    {
      assert maps[g] != box;
    }
  }

  lemma MapAt(maps: map<MapField, GoMap?>, contents: MapContents, boxes: set<object>, f: MapField)
    requires MapsShow(maps, contents, boxes) && f in maps
    ensures f in contents && MapShows(maps[f], contents[f]) && (maps[f] != null ==> maps[f] in boxes)
  {
  }

  lemma NilOwned()
    ensures Owns(Nil, []) && Live(Nil) == {}
  {
  }

  lemma OwnsArgs(s: Slice, seen: seq<Seen>, i: nat)
    requires s.Slice? && Owns(s, seen) && i < s.len
    ensures i < s.arr.Length && i < |seen|
    ensures var c := s.arr[i];
            && (c.Clause? <==> seen[i].SeenClause?)
            && (c.Clause? && c.args.Nil? ==> seen[i].args == [])
            && (c.Clause? && c.args.Slice? ==> |seen[i].args| == c.args.len)
  {
    assert seen[i] == SeenCell(s.arr[i]);
    assert ArgsFit(Inner(s.arr[i]));
  }

  lemma OwnsSize(s: Slice, seen: seq<Seen>)
    requires Owns(s, seen)
    ensures |seen| == if s.Nil? then 0 else s.len
  {
  }
}
