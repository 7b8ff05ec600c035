/** The MIB as registered: sorted scalar modules and conceptual tables whose rows depend on the MIB state, the
    lexicographic view they present, and exact lookup in it. S is whatever state the callbacks read and write. */
module Mib {
  import opened Types
  import opened Ber
  import opened Oids
  import opened Codec

  datatype MibResult = MibOk | NoSuchObject | NoSuchInstance | EndOfView | WrongType | WrongValue | NotWritable | GenErr
  datatype Access = RO | RW

  /** What a getter reports; the value counts only with MibOk. */
  datatype Answer = Answer(result: MibResult, value: Value)

  datatype Object<!S> = Object(
    oid: Oid, tag: byte, access: Access,
    getter: S -> Answer,
    setter: Option<(S, Value) -> (S, MibResult)>)

  datatype Column = Column(number: uint32, tag: byte, access: Access)

  datatype Table<!S> = Table(
    entry: Oid,
    columns: seq<Column>,
    first: S -> Option<uint32>,
    next: (S, uint32) -> Option<uint32>,
    getCell: (S, uint32, uint32) -> Answer,
    setCell: Option<(S, uint32, uint32, Value) -> (S, MibResult)>)

  datatype Registered<!S> = Registered(modules: seq<seq<Object<S>>>, tables: seq<Table<S>>)

  // ---------------------------------------------------------------- what registration must respect

  ghost predicate Sorted<S(!new)>(objs: seq<Object<S>>) {
    forall i, j | 0 <= i < j < |objs| :: Less(objs[i].oid, objs[j].oid)
  }

  ghost predicate ColumnsAscend<S(!new)>(t: Table<S>) {
    forall i, j | 0 <= i < j < |t.columns| :: t.columns[i].number < t.columns[j].number
  }

  /** next_index only moves up, in whatever state it is asked. */
  ghost predicate RowsAscend<S(!new)>(t: Table<S>) {
    forall st: S, i: uint32 | t.next(st, i).Some? :: i < t.next(st, i).value
  }

  predicate HasColumn<S(!new)>(t: Table<S>, number: uint32) {
    exists c | 0 <= c < |t.columns| :: t.columns[c].number == number
  }

  /** No column is claimed twice: two tables under the same entry have different columns. */
  ghost predicate TablesDisjoint<S(!new)>(tables: seq<Table<S>>) {
    forall i, j, n: uint32 | 0 <= i < j < |tables| && tables[i].entry == tables[j].entry && HasColumn(tables[i], n) ::
      !HasColumn(tables[j], n)
  }

  /** Every name there can be fits an OID array of 20 arcs. */
  ghost predicate NamesFit<S>(mib: Registered<S>) {
    && (forall m, k | 0 <= m < |mib.modules| && 0 <= k < |mib.modules[m]| :: |mib.modules[m][k].oid| <= MAX_OID_LEN)
    && forall t | 0 <= t < |mib.tables| :: |mib.tables[t].entry| + 2 <= MAX_OID_LEN
  }

  ghost predicate WellFormed<S(!new)>(mib: Registered<S>) {
    && (forall m | 0 <= m < |mib.modules| :: Sorted(mib.modules[m]))
    && (forall t | 0 <= t < |mib.tables| :: ColumnsAscend(mib.tables[t]) && RowsAscend(mib.tables[t]))
    && TablesDisjoint(mib.tables)
    && NamesFit(mib)
  }

  // ---------------------------------------------------------------- the view

  /** The rows from cur on, in the order the callbacks produce them. */
  function RowsFrom<S(!new)>(t: Table<S>, st: S, cur: Option<uint32>): seq<uint32>
    requires RowsAscend(t)
    decreases if cur.None? then 0 else SIZE_LIMIT - cur.value
  {
    if cur.None? then [] else [cur.value] + RowsFrom(t, st, t.next(st, cur.value))
  }

  function Rows<S(!new)>(t: Table<S>, st: S): seq<uint32>
    requires RowsAscend(t)
  {
    RowsFrom(t, st, t.first(st))
  }

  ghost predicate Ascending(s: seq<uint32>) {
    forall i, j | 0 <= i < j < |s| :: s[i] < s[j]
  }

  lemma {:induction false} RowsFromAscend<S(!new)>(t: Table<S>, st: S, cur: Option<uint32>)
    requires RowsAscend(t)
    ensures Ascending(RowsFrom(t, st, cur))
    decreases if cur.None? then 0 else SIZE_LIMIT - cur.value
  {
    if cur.Some? {
      var next := t.next(st, cur.value);
      RowsFromAscend(t, st, next);
      var rest := RowsFrom(t, st, next);
      if next.Some? {
        assert cur.value < next.value == rest[0];
      }
    }
  }

  /** Each row is followed by the one that next gives, and the last by none. */
  ghost predicate Linked<S(!new)>(t: Table<S>, st: S, rows: seq<uint32>) {
    && (forall k | 0 <= k < |rows| - 1 :: t.next(st, rows[k]) == Some(rows[k + 1]))
    && (rows != [] ==> t.next(st, rows[|rows| - 1]) == None)
  }

  lemma {:induction false} RowsFromExact<S(!new)>(t: Table<S>, st: S, cur: Option<uint32>)
    requires RowsAscend(t)
    ensures RowsFrom(t, st, cur) == [] ==> cur == None
    ensures RowsFrom(t, st, cur) != [] ==> cur == Some(RowsFrom(t, st, cur)[0])
    ensures Linked(t, st, RowsFrom(t, st, cur))
    decreases if cur.None? then 0 else SIZE_LIMIT - cur.value
  {
    if cur.Some? {
      var next := t.next(st, cur.value);
      RowsFromExact(t, st, next);
      var rows, rest := RowsFrom(t, st, cur), RowsFrom(t, st, next);
      forall k | 0 <= k < |rows| - 1 ensures t.next(st, rows[k]) == Some(rows[k + 1]) {
        assert rows[k + 1] == rest[k];
        if k > 0 {
          assert rows[k] == rest[k - 1];
        }
      }
      if rest != [] {
        assert rows[|rows| - 1] == rest[|rest| - 1];
      }
    }
  }

  /** The rows are what first and next say: they begin with the row that first gives, each is followed by the one that
      next gives, and they end where next gives none. */
  lemma RowsExact<S(!new)>(t: Table<S>, st: S)
    requires RowsAscend(t)
    ensures Rows(t, st) == [] <==> t.first(st) == None
    ensures Rows(t, st) != [] ==> t.first(st) == Some(Rows(t, st)[0])
    ensures forall k | 0 <= k < |Rows(t, st)| - 1 :: t.next(st, Rows(t, st)[k]) == Some(Rows(t, st)[k + 1])
    ensures Rows(t, st) != [] ==> t.next(st, Rows(t, st)[|Rows(t, st)| - 1]) == None
  {
    RowsFromExact(t, st, t.first(st));
  }

  function CellOid<S(!new)>(t: Table<S>, column: uint32, index: uint32): Oid {
    t.entry + [column, index]
  }

  ghost function OidsOf<S(!new)>(objs: seq<Object<S>>): set<Oid> {
    set k | 0 <= k < |objs| :: objs[k].oid
  }

  ghost function Scalars<S(!new)>(modules: seq<seq<Object<S>>>): set<Oid> {
    set m, o | 0 <= m < |modules| && o in OidsOf(modules[m]) :: o
  }

  ghost function Cells<S(!new)>(t: Table<S>, st: S): set<Oid>
    requires RowsAscend(t)
  {
    set c, r | 0 <= c < |t.columns| && r in Rows(t, st) :: CellOid(t, t.columns[c].number, r)
  }

  ghost function AllCells<S(!new)>(tables: seq<Table<S>>, st: S): set<Oid>
    requires forall t | 0 <= t < |tables| :: RowsAscend(tables[t])
  {
    set t, o | 0 <= t < |tables| && o in Cells(tables[t], st) :: o
  }

  /** Everything there is to read in state st. */
  ghost function View<S(!new)>(mib: Registered<S>, st: S): set<Oid>
    requires WellFormed(mib)
  {
    Scalars(mib.modules) + AllCells(mib.tables, st)
  }

  // ---------------------------------------------------------------- exact lookup by linear scan

  /** A pointer to an object, or a cell of a table. */
  datatype Target = ScalarAt(m: nat, k: nat) | CellAt(t: nat, column: uint32, index: uint32)

  datatype Resolved = Resolved(oid: Oid, tag: byte, access: Access, target: Target)

  datatype Lookup = Found(r: Resolved) | NotFound(why: MibResult)

  function IndexOf<S(!new)>(objs: seq<Object<S>>, oid: Oid): (k: Option<nat>)
    ensures k.Some? ==> k.value < |objs| && objs[k.value].oid == oid
    ensures k.None? <==> oid !in OidsOf(objs)
  {
    if objs == [] then None
    else
      var k := IndexOf(objs[..|objs| - 1], oid);
      if k.Some? then k else if objs[|objs| - 1].oid == oid then Some(|objs| - 1) else None
  }

  /** The first module that has the OID. */
  function FindScalar<S(!new)>(modules: seq<seq<Object<S>>>, oid: Oid): (r: Option<Target>)
    ensures r.Some? ==> r.value.ScalarAt? && r.value.m < |modules| && r.value.k < |modules[r.value.m]|
                        && modules[r.value.m][r.value.k].oid == oid
    ensures r.Some? <==> oid in Scalars(modules)
  {
    if modules == [] then None
    else
      var last := |modules| - 1;
      var r := FindScalar(modules[..last], oid);
      var k := IndexOf(modules[last], oid);
      if r.Some? then r else if k.Some? then Some(ScalarAt(last, k.value)) else None
  }

  function ScalarResolved<S(!new)>(obj: Object<S>, target: Target): Resolved {
    Resolved(obj.oid, obj.tag, obj.access, target)
  }

  function CellResolved<S(!new)>(t: Table<S>, ti: nat, col: Column, index: uint32): Resolved {
    Resolved(CellOid(t, col.number, index), col.tag, col.access, CellAt(ti, col.number, index))
  }

  /** The position of a column number. */
  function ColumnAt(columns: seq<Column>, number: uint32): (c: Option<nat>)
    ensures c.Some? ==> c.value < |columns| && columns[c.value].number == number
    ensures c.None? ==> forall i | 0 <= i < |columns| :: columns[i].number != number
  {
    if columns == [] then None
    else if columns[0].number == number then Some(0)
    else
      var c := ColumnAt(columns[1..], number);
      if c.Some? then Some(c.value + 1) else None
  }

  /** Is oid one of this table's cells, one of its absent cells, or none of its business? */
  function ResolveCell<S(!new)>(t: Table<S>, ti: nat, st: S, oid: Oid): Lookup
    requires RowsAscend(t)
  {
    var n := |t.entry|;
    if |oid| != n + 2 || oid[..n] != t.entry then NotFound(NoSuchObject)
    else
      var c := ColumnAt(t.columns, oid[n]);
      if c.None? then NotFound(NoSuchObject)
      else if oid[n + 1] !in Rows(t, st) then NotFound(NoSuchInstance)
      else Found(CellResolved(t, ti, t.columns[c.value], oid[n + 1]))
  }

  /** The first table with something to say about oid. */
  function ResolveCells<S(!new)>(tables: seq<Table<S>>, st: S, oid: Oid): Lookup
    requires forall t | 0 <= t < |tables| :: RowsAscend(tables[t])
  {
    if tables == [] then NotFound(NoSuchObject)
    else
      var last := |tables| - 1;
      var r := ResolveCells(tables[..last], st, oid);
      if r != NotFound(NoSuchObject) then r else ResolveCell(tables[last], last, st, oid)
  }

  function Resolve<S(!new)>(mib: Registered<S>, st: S, oid: Oid): Lookup
    requires WellFormed(mib)
  {
    var r := FindScalar(mib.modules, oid);
    if r.Some? then Found(ScalarResolved(mib.modules[r.value.m][r.value.k], r.value))
    else ResolveCells(mib.tables, st, oid)
  }

  /** The object or cell with the least OID above bound, if any. */
  ghost function ResolveNext<S(!new)>(mib: Registered<S>, st: S, bound: Oid): Lookup
    requires WellFormed(mib)
  {
    var n := Successor(View(mib, st), bound);
    if n.Some? then Resolve(mib, st, n.value) else NotFound(EndOfView)
  }

  /** The target points into the registry. */
  predicate ValidTarget<S(!new)>(mib: Registered<S>, target: Target) {
    match target
    case ScalarAt(m, k) => m < |mib.modules| && k < |mib.modules[m]|
    case CellAt(t, _, _) => t < |mib.tables|
  }

  /** mib_resolved_get. */
  function Get<S(!new)>(mib: Registered<S>, st: S, target: Target): Answer
    requires ValidTarget(mib, target)
  {
    match target
    case ScalarAt(m, k) => mib.modules[m][k].getter(st)
    case CellAt(t, column, index) => mib.tables[t].getCell(st, column, index)
  }

  /** mib_resolved_set. */
  function Set<S(!new)>(mib: Registered<S>, st: S, target: Target, v: Value): (S, MibResult)
    requires ValidTarget(mib, target)
  {
    match target
    case ScalarAt(m, k) =>
      var f := mib.modules[m][k].setter;
      if f.None? then (st, NotWritable) else f.value(st, v)
    case CellAt(t, column, index) =>
      var f := mib.tables[t].setCell;
      if f.None? then (st, NotWritable) else f.value(st, column, index, v)
  }

  // ---------------------------------------------------------------- lookup and view agree

  /** oid names column number of t, whether or not the row is there. */
  predicate CellShaped<S(!new)>(t: Table<S>, oid: Oid) {
    var n := |t.entry|;
    |oid| == n + 2 && oid[..n] == t.entry && HasColumn(t, oid[n])
  }

  lemma CellShape<S(!new)>(t: Table<S>, st: S, oid: Oid)
    requires RowsAscend(t)
    ensures oid in Cells(t, st) <==> CellShaped(t, oid) && oid[|t.entry| + 1] in Rows(t, st)
  {
    var n := |t.entry|;
    if oid in Cells(t, st) {
      var c, r :| 0 <= c < |t.columns| && r in Rows(t, st) && CellOid(t, t.columns[c].number, r) == oid;
      assert oid[..n] == t.entry && oid[n] == t.columns[c].number && oid[n + 1] == r;
    }
    if CellShaped(t, oid) && oid[n + 1] in Rows(t, st) {
      var c :| 0 <= c < |t.columns| && t.columns[c].number == oid[n];
      assert oid == oid[..n] + [oid[n], oid[n + 1]];
      assert CellOid(t, t.columns[c].number, oid[n + 1]) == oid;
    }
  }

  lemma ResolveCellMeans<S(!new)>(t: Table<S>, ti: nat, st: S, oid: Oid)
    requires RowsAscend(t)
    ensures var r := ResolveCell(t, ti, st, oid);
            && (r == NotFound(NoSuchObject) <==> !CellShaped(t, oid))
            && (r == NotFound(NoSuchInstance) <==> CellShaped(t, oid) && oid !in Cells(t, st))
            && (r.Found? <==> oid in Cells(t, st))
            && (r.Found? ==> r.r.oid == oid && r.r.target.CellAt? && r.r.target.t == ti)
  {
    CellShape(t, st, oid);
    var n := |t.entry|;
    if CellShaped(t, oid) {
      assert oid == t.entry + [oid[n], oid[n + 1]];
    }
  }

  lemma CellShapedOnce<S(!new)>(tables: seq<Table<S>>, i: nat, j: nat, oid: Oid)
    requires TablesDisjoint(tables) && i < j < |tables|
    requires CellShaped(tables[j], oid)
    ensures !CellShaped(tables[i], oid)
  {
    var number := oid[|tables[j].entry|];
    assert HasColumn(tables[j], number);
    assert tables[i].entry == tables[j].entry ==> !HasColumn(tables[i], number);
  }

  lemma OneTableShapes<S(!new)>(tables: seq<Table<S>>, i: nat, j: nat, oid: Oid)
    requires TablesDisjoint(tables) && i < |tables| && j < |tables|
    requires CellShaped(tables[i], oid) && CellShaped(tables[j], oid)
    ensures i == j
  {
    if i < j {
      CellShapedOnce(tables, i, j, oid);
    } else if j < i {
      CellShapedOnce(tables, j, i, oid);
    }
  }

  lemma {:induction false} ResolveCellsMeans<S(!new)>(tables: seq<Table<S>>, st: S, oid: Oid)
    requires forall t | 0 <= t < |tables| :: RowsAscend(tables[t])
    requires TablesDisjoint(tables)
    ensures var r := ResolveCells(tables, st, oid);
            && (r == NotFound(NoSuchObject) <==> forall t | 0 <= t < |tables| :: !CellShaped(tables[t], oid))
            && (r == NotFound(NoSuchObject) || r == NotFound(NoSuchInstance) || r.Found?)
            && (r.Found? <==> oid in AllCells(tables, st))
            && (r.Found? ==> r.r.oid == oid && r.r.target.CellAt? && r.r.target.t < |tables|)
  {
    if tables == [] {
      assert AllCells(tables, st) == {};
    } else {
      hide CellShaped, ResolveCell, AllCells, Cells, TablesDisjoint;
      var last := |tables| - 1;
      var before := tables[..last];
      DisjointBefore(tables);
      ResolveCellsMeans(before, st, oid);
      ResolveCellMeans(tables[last], last, st, oid);
      AllCellsLast(tables, st, oid);
      ShapedBefore(tables, st, oid);
      assert forall i | 0 <= i < last :: before[i] == tables[i];
    }
  }

  lemma DisjointBefore<S(!new)>(tables: seq<Table<S>>)
    requires tables != [] && TablesDisjoint(tables)
    ensures TablesDisjoint(tables[..|tables| - 1])
  {
    var before := tables[..|tables| - 1];
    assert forall i | 0 <= i < |before| :: before[i] == tables[i];
  }

  /** What one table more adds to the cells. */
  lemma AllCellsLast<S(!new)>(tables: seq<Table<S>>, st: S, oid: Oid)
    requires tables != [] && forall t | 0 <= t < |tables| :: RowsAscend(tables[t])
    ensures var last := |tables| - 1;
            oid in AllCells(tables, st) <==> oid in AllCells(tables[..last], st) || oid in Cells(tables[last], st)
  {
    hide Cells;
    var last := |tables| - 1;
    assert forall i | 0 <= i < last :: tables[..last][i] == tables[i];
  }

  /** No earlier table shapes or has what the last one shapes. */
  lemma ShapedBefore<S(!new)>(tables: seq<Table<S>>, st: S, oid: Oid)
    requires tables != [] && (forall t | 0 <= t < |tables| :: RowsAscend(tables[t])) && TablesDisjoint(tables)
    ensures CellShaped(tables[|tables| - 1], oid) ==>
              forall i | 0 <= i < |tables| - 1 :: !CellShaped(tables[i], oid)
    ensures oid in Cells(tables[|tables| - 1], st) ==> CellShaped(tables[|tables| - 1], oid)
  {
    var last := |tables| - 1;
    CellShape(tables[last], st, oid);
    if CellShaped(tables[last], oid) {
      forall i | 0 <= i < last ensures !CellShaped(tables[i], oid) {
        CellShapedOnce(tables, i, last, oid);
      }
    }
  }

  /** resolve succeeds exactly on the view, and with the OID it was asked for. */
  lemma ResolveIsMembership<S(!new)>(mib: Registered<S>, st: S, oid: Oid)
    requires WellFormed(mib)
    ensures Resolve(mib, st, oid).Found? <==> oid in View(mib, st)
    ensures Resolve(mib, st, oid).Found? ==>
              Resolve(mib, st, oid).r.oid == oid && ValidTarget(mib, Resolve(mib, st, oid).r.target)
  {
    ResolveCellsMeans(mib.tables, st, oid);
  }

  /** noSuchInstance is for a known column of a known table whose row is absent, and for nothing else; a scalar
      never yields it. Every other OID outside the view is noSuchObject. */
  lemma NoSuchInstanceExact<S(!new)>(mib: Registered<S>, st: S, oid: Oid)
    requires WellFormed(mib)
    ensures Resolve(mib, st, oid) == NotFound(NoSuchInstance) <==>
            oid !in View(mib, st) && exists t | 0 <= t < |mib.tables| :: CellShaped(mib.tables[t], oid)
    ensures Resolve(mib, st, oid).NotFound? ==>
              Resolve(mib, st, oid).why == NoSuchInstance || Resolve(mib, st, oid).why == NoSuchObject
  {
    ResolveCellsMeans(mib.tables, st, oid);
  }

  /** Successor lookup finds something exactly when something lies above, and exact lookup of what it found gives
      the same object or cell. */
  lemma ResolveNextAgrees<S(!new)>(mib: Registered<S>, st: S, bound: Oid)
    requires WellFormed(mib)
    ensures var r := ResolveNext(mib, st, bound);
            && LeastAbove(View(mib, st), bound, if r.Found? then Some(r.r.oid) else None)
            && (r.Found? ==> Resolve(mib, st, r.r.oid) == r)
            && (r.NotFound? ==> r.why == EndOfView)
  {
    var n := Successor(View(mib, st), bound);
    if n.Some? {
      ResolveIsMembership(mib, st, n.value);
    }
  }

  /** No name in the view is longer than the arrays it is copied into. */
  lemma ViewFits<S(!new)>(mib: Registered<S>, st: S, oid: Oid)
    requires WellFormed(mib) && oid in View(mib, st)
    ensures |oid| <= MAX_OID_LEN
  {
    if oid in AllCells(mib.tables, st) {
      var t :| 0 <= t < |mib.tables| && oid in Cells(mib.tables[t], st);
      CellShape(mib.tables[t], st, oid);
    }
  }

  /** What a successful lookup describes: an object of that name with its tag and access, or a row of a table under a
      column of that number with the column's tag and access. */
  ghost predicate Describes<S(!new)>(mib: Registered<S>, st: S, oid: Oid, r: Resolved)
    requires WellFormed(mib)
  {
    && r.oid == oid
    && match r.target
       case ScalarAt(m, k) =>
         && m < |mib.modules| && k < |mib.modules[m]|
         && mib.modules[m][k].oid == oid && mib.modules[m][k].tag == r.tag && mib.modules[m][k].access == r.access
       case CellAt(t, column, index) =>
         && t < |mib.tables| && CellOid(mib.tables[t], column, index) == oid && index in Rows(mib.tables[t], st)
         && Column(column, r.tag, r.access) in mib.tables[t].columns
  }

  lemma {:induction false} ResolveCellsDescribes<S(!new)>(mib: Registered<S>, st: S, oid: Oid, n: nat)
    requires WellFormed(mib) && n <= |mib.tables| && ResolveCells(mib.tables[..n], st, oid).Found?
    ensures Describes(mib, st, oid, ResolveCells(mib.tables[..n], st, oid).r)
  {
    var before := mib.tables[..n - 1];
    assert mib.tables[..n][..n - 1] == before;
    if ResolveCells(before, st, oid) != NotFound(NoSuchObject) {
      ResolveCellsDescribes(mib, st, oid, n - 1);
    } else {
      ResolveCellDescribes(mib, n - 1, st, oid);
    }
  }

  lemma ResolveCellDescribes<S(!new)>(mib: Registered<S>, ti: nat, st: S, oid: Oid)
    requires WellFormed(mib) && ti < |mib.tables| && ResolveCell(mib.tables[ti], ti, st, oid).Found?
    ensures Describes(mib, st, oid, ResolveCell(mib.tables[ti], ti, st, oid).r)
  {
    var t, n := mib.tables[ti], |mib.tables[ti].entry|;
    assert oid == t.entry + [oid[n], oid[n + 1]];
    var c := ColumnAt(t.columns, oid[n]).value;
    assert t.columns[c] == Column(oid[n], t.columns[c].tag, t.columns[c].access);
  }

  lemma ResolveDescribes<S(!new)>(mib: Registered<S>, st: S, oid: Oid)
    requires WellFormed(mib) && Resolve(mib, st, oid).Found?
    ensures Describes(mib, st, oid, Resolve(mib, st, oid).r)
  {
    if FindScalar(mib.modules, oid).None? {
      assert mib.tables[..|mib.tables|] == mib.tables;
      ResolveCellsDescribes(mib, st, oid, |mib.tables|);
    }
  }

  lemma FoundAt<S(!new)>(objs: seq<Object<S>>, k: nat)
    requires Sorted(objs) && k < |objs|
    ensures IndexOf(objs, objs[k].oid) == Some(k)
  {
    var i := IndexOf(objs, objs[k].oid);
    assert objs[k].oid in OidsOf(objs);
    Trichotomy(objs[k].oid, objs[k].oid);
  }

  lemma {:induction false} FindScalarFirst<S(!new)>(modules: seq<seq<Object<S>>>, oid: Oid, m: nat, k: nat)
    requires m < |modules| && FindScalar(modules[..m], oid) == None && IndexOf(modules[m], oid) == Some(k)
    ensures FindScalar(modules, oid) == Some(ScalarAt(m, k))
    decreases |modules|
  {
    var last := |modules| - 1;
    if m < last {
      assert modules[..last][..m] == modules[..m];
      FindScalarFirst(modules[..last], oid, m, k);
    }
  }

  /** The view, from the registered entries: the names of all objects, and under every column of every table one cell
      for each row. */
  lemma ViewExact<S(!new)>(mib: Registered<S>, st: S, oid: Oid)
    requires WellFormed(mib)
    ensures oid in View(mib, st) <==>
            || (exists m, k | 0 <= m < |mib.modules| && 0 <= k < |mib.modules[m]| :: mib.modules[m][k].oid == oid)
            || (exists t, c, r: uint32 | 0 <= t < |mib.tables| && 0 <= c < |mib.tables[t].columns| ::
                  r in Rows(mib.tables[t], st) && oid == mib.tables[t].entry + [mib.tables[t].columns[c].number, r])
  {
    hide Rows, Sorted, ColumnsAscend, TablesDisjoint, NamesFit;
    if oid in Scalars(mib.modules) {
      var m :| 0 <= m < |mib.modules| && oid in OidsOf(mib.modules[m]);
      var k :| 0 <= k < |mib.modules[m]| && mib.modules[m][k].oid == oid;
    }
    if m, k :| 0 <= m < |mib.modules| && 0 <= k < |mib.modules[m]| && mib.modules[m][k].oid == oid {
      assert oid in OidsOf(mib.modules[m]);
    }
    if oid in AllCells(mib.tables, st) {
      var t :| 0 <= t < |mib.tables| && oid in Cells(mib.tables[t], st);
      var c, r :| 0 <= c < |mib.tables[t].columns| && r in Rows(mib.tables[t], st)
                  && CellOid(mib.tables[t], mib.tables[t].columns[c].number, r) == oid;
    }
    if t, c, r: uint32 :| 0 <= t < |mib.tables| && 0 <= c < |mib.tables[t].columns| && r in Rows(mib.tables[t], st)
                          && oid == mib.tables[t].entry + [mib.tables[t].columns[c].number, r] {
      assert CellOid(mib.tables[t], mib.tables[t].columns[c].number, r) in Cells(mib.tables[t], st);
    }
  }

  // ---------------------------------------------------------------- whose callbacks a name reaches

  /** The one object or cell that answers to oid: the object of that name in the first module that has one, or the
      cell of that name if no scalar has it. */
  ghost predicate Owns<S(!new)>(mib: Registered<S>, st: S, oid: Oid, target: Target)
    requires WellFormed(mib)
  {
    match target
    case ScalarAt(m, k) =>
      && m < |mib.modules| && k < |mib.modules[m]| && mib.modules[m][k].oid == oid
      && forall i | 0 <= i < m :: oid !in OidsOf(mib.modules[i])
    case CellAt(t, column, index) =>
      && oid !in Scalars(mib.modules)
      && t < |mib.tables| && HasColumn(mib.tables[t], column) && index in Rows(mib.tables[t], st)
      && CellOid(mib.tables[t], column, index) == oid
  }

  /** Exact lookup leads to the owner and to nothing else, so no name has two. */
  lemma OwnerIsFound<S(!new)>(mib: Registered<S>, st: S, oid: Oid, target: Target)
    requires WellFormed(mib)
    ensures Owns(mib, st, oid, target) <==>
            Resolve(mib, st, oid).Found? && Resolve(mib, st, oid).r.target == target
  {
    ResolveIsMembership(mib, st, oid);
    NotBeforeFound(mib.modules, oid);
    if Resolve(mib, st, oid).Found? {
      ResolveDescribes(mib, st, oid);
    }
    if Owns(mib, st, oid, target) {
      match target
      case ScalarAt(m, k) =>
        FoundAt(mib.modules[m], k);
        NotInEarlierModules(mib.modules, oid, m);
        FindScalarFirst(mib.modules, oid, m, k);
      case CellAt(t, column, index) => OwnCellIsFound(mib, st, t, column, index);
    }
  }

  lemma {:induction false} NotBeforeFound<S(!new)>(modules: seq<seq<Object<S>>>, oid: Oid)
    ensures var r := FindScalar(modules, oid); r.Some? ==> forall i | 0 <= i < r.value.m :: oid !in OidsOf(modules[i])
  {
    if modules != [] {
      var before := modules[..|modules| - 1];
      NotBeforeFound(before, oid);
      assert forall i | 0 <= i < |before| :: before[i] == modules[i];
      if FindScalar(before, oid).None? {
        assert forall i | 0 <= i < |before| && oid in OidsOf(before[i]) :: oid in Scalars(before);
      }
    }
  }

  lemma NotInEarlierModules<S(!new)>(modules: seq<seq<Object<S>>>, oid: Oid, m: nat)
    requires m <= |modules| && forall i | 0 <= i < m :: oid !in OidsOf(modules[i])
    ensures FindScalar(modules[..m], oid) == None
  {
  }

  lemma OwnCellIsFound<S(!new)>(mib: Registered<S>, st: S, t: nat, column: uint32, index: uint32)
    requires WellFormed(mib) && t < |mib.tables|
    requires Owns(mib, st, CellOid(mib.tables[t], column, index), CellAt(t, column, index))
    ensures var r := Resolve(mib, st, CellOid(mib.tables[t], column, index));
            r.Found? && r.r.target == CellAt(t, column, index)
  {
    var oid, n := CellOid(mib.tables[t], column, index), |mib.tables[t].entry|;
    assert oid[..n] == mib.tables[t].entry && oid[n] == column && oid[n + 1] == index;
    CellShape(mib.tables[t], st, oid);
    assert oid in AllCells(mib.tables, st);
    ResolveIsMembership(mib, st, oid);
    ResolveDescribes(mib, st, oid);
    ResolveCellsMeans(mib.tables, st, oid);
    var found := Resolve(mib, st, oid).r.target;
    var other := mib.tables[found.t];
    assert |other.entry| == n && oid[n] == found.column && oid[n + 1] == found.index;
    assert CellShaped(other, oid) by {
      assert oid[..n] == other.entry;
      var c: Column :| c in other.columns && c.number == found.column;
      assert HasColumn(other, oid[n]);
    }
    OneTableShapes(mib.tables, found.t, t, oid);
  }

  /** The owner of oid has this tag and this access. */
  ghost predicate Offers<S(!new)>(mib: Registered<S>, st: S, oid: Oid, tag: byte, access: Access)
    requires WellFormed(mib)
  {
    exists target :: Owns(mib, st, oid, target) && TargetHas(mib, target, tag, access)
  }

  predicate TargetHas<S(!new)>(mib: Registered<S>, target: Target, tag: byte, access: Access)
    requires ValidTarget(mib, target)
  {
    match target
    case ScalarAt(m, k) => mib.modules[m][k].tag == tag && mib.modules[m][k].access == access
    case CellAt(t, column, _) => Column(column, tag, access) in mib.tables[t].columns
  }

  /** What lookup reports of a name is what its owner offers, and a name is in the view if its owner offers anything. */
  lemma OffersExact<S(!new)>(mib: Registered<S>, st: S, oid: Oid, tag: byte, access: Access)
    requires WellFormed(mib)
    ensures Offers(mib, st, oid, tag, access) <==>
            var r := Resolve(mib, st, oid); r.Found? && r.r.tag == tag && r.r.access == access
    ensures Offers(mib, st, oid, tag, access) ==> oid in View(mib, st)
  {
    var r := Resolve(mib, st, oid);
    ResolveIsMembership(mib, st, oid);
    if r.Found? {
      ResolveDescribes(mib, st, oid);
      OwnerIsFound(mib, st, oid, r.r.target);
      OneColumnEach(mib, r.r.target, r.r.tag, r.r.access, tag, access);
      if r.r.tag == tag && r.r.access == access {
        assert TargetHas(mib, r.r.target, tag, access);
      }
    }
    forall target | Owns(mib, st, oid, target) && TargetHas(mib, target, tag, access)
      ensures r.Found? && r.r.tag == tag && r.r.access == access
    {
      OwnerIsFound(mib, st, oid, target);
    }
  }

  lemma OneColumnEach<S(!new)>(mib: Registered<S>, target: Target, tag: byte, access: Access,
                               otherTag: byte, otherAccess: Access)
    requires WellFormed(mib) && ValidTarget(mib, target) && TargetHas(mib, target, tag, access)
    ensures TargetHas(mib, target, otherTag, otherAccess) ==> otherTag == tag && otherAccess == access
  {
  }

  /** Reading a name calls the getter of its owner, in the state as it is. */
  lemma GetIsByName<S(!new)>(mib: Registered<S>, st: S, oid: Oid, target: Target)
    requires WellFormed(mib) && Owns(mib, st, oid, target)
    ensures var r := Resolve(mib, st, oid);
            && r.Found? && ValidTarget(mib, r.r.target)
            && Get(mib, st, r.r.target) ==
               match target
               case ScalarAt(m, k) => mib.modules[m][k].getter(st)
               case CellAt(t, column, index) => mib.tables[t].getCell(st, column, index)
  {
    OwnerIsFound(mib, st, oid, target);
  }

  /** Writing a name calls the setter of its owner; where the owner has none, nothing changes. */
  lemma SetIsByName<S(!new)>(mib: Registered<S>, st: S, oid: Oid, target: Target, v: Value)
    requires WellFormed(mib) && Owns(mib, st, oid, target)
    ensures var r := Resolve(mib, st, oid);
            && r.Found? && ValidTarget(mib, r.r.target)
            && match target
               case ScalarAt(m, k) =>
                 var f := mib.modules[m][k].setter;
                 Set(mib, st, r.r.target, v) == if f.Some? then f.value(st, v) else (st, NotWritable)
               case CellAt(t, column, index) =>
                 var f := mib.tables[t].setCell;
                 Set(mib, st, r.r.target, v) == if f.Some? then f.value(st, column, index, v) else (st, NotWritable)
  {
    OwnerIsFound(mib, st, oid, target);
  }
}
