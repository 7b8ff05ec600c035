/** The registry: binary search over sorted scalar modules, column-major row iteration over tables, and the unified
    exact and successor lookup built from them. The state field stands for everything the callbacks read and write. */
module Registry {
  import opened Types
  import opened Ber
  import opened Oids
  import opened Codec
  import opened Mib

  const MAX_MODULES := 4
  const MAX_TABLES := 4

  /** Two cells of one table compare by column first, row second. */
  lemma CellOrder<S(!new)>(t: Table<S>, c: uint32, i: uint32, c': uint32, i': uint32)
    ensures Less(CellOid(t, c, i), CellOid(t, c', i')) <==> c < c' || (c == c' && i < i')
  {
    CommonPrefix(t.entry, [c, i], [c', i']);
    var a: Oid, b: Oid := [c, i], [c', i'];
    assert a[1..] == [i] && b[1..] == [i'] && a[1..][1..] == [] == b[1..][1..];
    assert Less(a[1..], b[1..]) <==> i < i';
  }

  /** The first element above bound of a sorted module is its least one above bound. */
  lemma FirstAbove<S(!new)>(objs: seq<Object<S>>, bound: Oid, lo: nat)
    requires Sorted(objs) && lo <= |objs|
    requires forall k | 0 <= k < lo :: !Less(bound, objs[k].oid)
    requires lo < |objs| ==> Less(bound, objs[lo].oid)
    ensures LeastAbove(OidsOf(objs), bound, if lo < |objs| then Some(objs[lo].oid) else None)
  {
    forall k | lo <= k < |objs| ensures !Less(objs[k].oid, objs[lo].oid) {
      Trichotomy(objs[k].oid, objs[lo].oid);
    }
  }

  /** Why the search may stop at the first column with a candidate: everything above bound in this column comes no
      earlier than the candidate, and everything in later columns comes after it. */
  lemma FirstCellAbove<S(!new)>(t: Table<S>, st: S, bound: Oid, ci: nat, k: nat)
    requires ColumnsAscend(t) && RowsAscend(t)
    requires ci < |t.columns| && k < |Rows(t, st)|
    requires NoneAboveBefore(t, st, bound, ci, k)
    requires Less(bound, CellOid(t, t.columns[ci].number, Rows(t, st)[k]))
    ensures LeastAbove(Cells(t, st), bound, Some(CellOid(t, t.columns[ci].number, Rows(t, st)[k])))
  {
    var rows := Rows(t, st);
    var cand := CellOid(t, t.columns[ci].number, rows[k]);
    RowsFromAscend(t, st, t.first(st));
    assert rows[k] in rows;
    forall c, j | 0 <= c < |t.columns| && 0 <= j < |rows| && Less(bound, CellOid(t, t.columns[c].number, rows[j]))
      ensures !Less(CellOid(t, t.columns[c].number, rows[j]), cand)
    {
      CellOrder(t, t.columns[c].number, rows[j], t.columns[ci].number, rows[k]);
    }
  }

  /** Nothing above bound in the columns before ci, nor in column ci among the first k rows. */
  ghost predicate NoneAboveBefore<S(!new)>(t: Table<S>, st: S, bound: Oid, ci: nat, k: nat)
    requires RowsAscend(t)
  {
    var rows := Rows(t, st);
    forall c, j | 0 <= c < |t.columns| && 0 <= j < |rows| && (c < ci || (c == ci && j < k)) ::
      !Less(bound, CellOid(t, t.columns[c].number, rows[j]))
  }

  /** r is the least scalar above oid in the first m modules, the one exact search finds under its name. */
  ghost predicate BestScalar<S(!new)>(modules: seq<seq<Object<S>>>, oid: Oid, m: nat, r: Option<Target>)
    requires m <= |modules|
  {
    match r
    case None => LeastAbove(Scalars(modules[..m]), oid, None)
    case Some(target) =>
      && target.ScalarAt? && target.m < m && target.k < |modules[target.m]|
      && var name := modules[target.m][target.k].oid;
         FindScalar(modules[..m], name) == r && LeastAbove(Scalars(modules[..m]), oid, Some(name))
  }

  lemma NoScalarYet<S(!new)>(modules: seq<seq<Object<S>>>, oid: Oid)
    ensures BestScalar(modules, oid, 0, None)
  {
  }

  lemma BestScalarStep<S(!new)>(modules: seq<seq<Object<S>>>, oid: Oid, m: nat, r: Option<Target>, lo: nat)
    requires m < |modules| && Sorted(modules[m]) && BestScalar(modules, oid, m, r) && lo <= |modules[m]|
    requires LeastAbove(OidsOf(modules[m]), oid, if lo < |modules[m]| then Some(modules[m][lo].oid) else None)
    ensures var objs := modules[m];
            var smaller := lo < |objs| && (r.None? || Less(objs[lo].oid, modules[r.value.m][r.value.k].oid));
            BestScalar(modules, oid, m + 1, if smaller then Some(ScalarAt(m, lo)) else r)
  {
    hide Less;
    var objs, before := modules[m], Scalars(modules[..m]);
    var found := if lo < |objs| then Some(objs[lo].oid) else None;
    var best := if r.Some? then Some(modules[r.value.m][r.value.k].oid) else None;
    LeastOfUnion(before, OidsOf(objs), oid, best, found);
    ScalarsSplit(modules, m);
    assert modules[..m + 1][..m] == modules[..m];
    if Smaller(best, found) != best {
      FoundAt(objs, lo);
      assert objs[lo].oid !in before;
    }
  }

  class Registry<S(!new)> {
    var modules: seq<seq<Object<S>>>
    var tables: seq<Table<S>>
    var state: S

    function Entries(): Registered<S>
      reads this
    {
      Registered(modules, tables)
    }

    ghost predicate Valid()
      reads this
    {
      |modules| <= MAX_MODULES && |tables| <= MAX_TABLES && WellFormed(Entries())
    }

    constructor (initial: S)
      ensures Valid() && modules == [] && tables == [] && state == initial
    {
      modules, tables, state := [], [], initial;
    }

    method RegisterModule(objects: seq<Object<S>>) returns (ok: bool)
      requires Valid() && Sorted(objects) && forall k | 0 <= k < |objects| :: |objects[k].oid| <= MAX_OID_LEN
      modifies this
      ensures Valid() && tables == old(tables) && state == old(state)
      ensures ok <==> |old(modules)| < 4
      ensures modules == if ok then old(modules) + [objects] else old(modules)
    {
      if |modules| >= MAX_MODULES {
        return false;
      }
      modules := modules + [objects];
      return true;
    }

    method RegisterTable(table: Table<S>) returns (ok: bool)
      requires Valid() && ColumnsAscend(table) && RowsAscend(table) && |table.entry| + 2 <= MAX_OID_LEN
      requires TablesDisjoint(tables + [table])
      modifies this
      ensures Valid() && modules == old(modules) && state == old(state)
      ensures ok <==> |old(tables)| < 4
      ensures tables == if ok then old(tables) + [table] else old(tables)
    {
      if |tables| >= MAX_TABLES {
        return false;
      }
      tables := tables + [table];
      return true;
    }

    /** Binary search in each module in turn agrees with a linear scan over all of them. */
    method Find(oid: Oid) returns (r: Option<Target>)
      requires Valid()
      ensures r == FindScalar(modules, oid)
    {
      for m := 0 to |modules|
        invariant FindScalar(modules[..m], oid) == None
      {
        var objs := modules[m];
        var lo, hi := 0, |objs|;
        while lo < hi
          invariant lo <= hi <= |objs|
          invariant forall k | 0 <= k < lo :: Less(objs[k].oid, oid)
          invariant forall k | hi <= k < |objs| :: Less(oid, objs[k].oid)
        {
          var mid := lo + (hi - lo) / 2;
          var c := Compare(objs[mid].oid, oid);
          if c == 0 {
            FoundAt(objs, mid);
            FindScalarFirst(modules, oid, m, mid);
            return Some(ScalarAt(m, mid));
          }
          if c < 0 {
            forall k | 0 <= k <= mid ensures Less(objs[k].oid, oid) {
              if k < mid {
                Transitive(objs[k].oid, objs[mid].oid, oid);
              }
            }
            lo := mid + 1;
          } else {
            forall k | mid <= k < |objs| ensures Less(oid, objs[k].oid) {
              if k > mid {
                Transitive(oid, objs[mid].oid, objs[k].oid);
              }
            }
            hi := mid;
          }
        }
        Trichotomy(oid, oid);
        assert oid !in OidsOf(objs);
        assert modules[..m + 1][..m] == modules[..m];
      }
      assert modules[..|modules|] == modules;
      return None;
    }

    /** The inner search of FindNext: the first position in one module that is above oid. */
    method UpperBound(objs: seq<Object<S>>, oid: Oid) returns (lo: nat)
      requires Sorted(objs)
      ensures lo <= |objs| && (lo < |objs| ==> Less(oid, objs[lo].oid))
      ensures LeastAbove(OidsOf(objs), oid, if lo < |objs| then Some(objs[lo].oid) else None)
    {
      lo := 0;
      var hi := |objs|;
      while lo < hi
        invariant lo <= hi <= |objs|
        invariant forall k | 0 <= k < lo :: !Less(oid, objs[k].oid)
        invariant forall k | hi <= k < |objs| :: Less(oid, objs[k].oid)
      {
        var mid := lo + (hi - lo) / 2;
        var c := Compare(objs[mid].oid, oid);
        if c > 0 {
          forall k | mid <= k < |objs| ensures Less(oid, objs[k].oid) {
            if k > mid {
              Transitive(oid, objs[mid].oid, objs[k].oid);
            }
          }
          hi := mid;
        } else {
          forall k | 0 <= k <= mid ensures !Less(oid, objs[k].oid) {
            Trichotomy(objs[k].oid, objs[mid].oid);
            NotBelow(oid, objs[mid].oid, objs[k].oid);
          }
          lo := mid + 1;
        }
      }
      FirstAbove(objs, oid, lo);
    }

    /** The least scalar above oid over all modules; among equals the one exact search would find. */
    method FindNext(oid: Oid) returns (r: Option<Target>)
      requires Valid()
      ensures r.Some? ==> r.value.ScalarAt? && r.value.m < |modules| && r.value.k < |modules[r.value.m]|
      ensures r.Some? ==> FindScalar(modules, modules[r.value.m][r.value.k].oid) == r
      ensures LeastAbove(Scalars(modules), oid, if r.Some? then Some(modules[r.value.m][r.value.k].oid) else None)
    {
      hide Less, LeastAbove, FindScalar, Scalars, OidsOf;
      r := None;
      NoScalarYet(modules, oid);
      for m := 0 to |modules|
        invariant BestScalar(modules, oid, m, r)
      {
        var objs := modules[m];
        var lo := UpperBound(objs, oid);
        BestScalarStep(modules, oid, m, r, lo);
        if lo < |objs| {
          var smaller := r.None?;
          if r.Some? {
            var c := Compare(objs[lo].oid, modules[r.value.m][r.value.k].oid);
            smaller := c < 0;
          }
          if smaller {
            r := Some(ScalarAt(m, lo));
          }
        }
      }
      assert modules[..|modules|] == modules;
    }

    /** Walks the rows until the index is found or passed. */
    method RowExists(t: Table<S>, index: uint32) returns (found: bool)
      requires RowsAscend(t)
      ensures found <==> index in Rows(t, state)
    {
      var cur: Option<uint32> := t.first(state);
      RowsFromAscend(t, state, cur);
      ghost var rows, k := Rows(t, state), 0;
      while cur.Some?
        invariant k <= |rows| && RowsFrom(t, state, cur) == rows[k..]
        invariant forall j | 0 <= j < k :: rows[j] < index
        decreases |rows| - k
      {
        assert rows[k] == cur.value && rows[k..][1..] == rows[k + 1..];
        if cur.value == index {
          return true;
        }
        if cur.value > index {
          return false;
        }
        cur := t.next(state, cur.value);
        k := k + 1;
      }
      return false;
    }

    method FindColumn(columns: seq<Column>, number: uint32) returns (c: Option<nat>)
      ensures c == ColumnAt(columns, number)
    {
      var i := 0;
      while i < |columns| && columns[i].number != number
        invariant i <= |columns|
        invariant ColumnAt(columns, number) ==
                  var c := ColumnAt(columns[i..], number); if c.Some? then Some(c.value + i) else None
      {
        assert columns[i..][1..] == columns[i + 1..];
        i := i + 1;
      }
      return if i < |columns| then Some(i) else None;
    }

    method TableFindExact(ti: nat, oid: Oid) returns (r: Lookup)
      requires Valid() && ti < |tables|
      ensures r == ResolveCell(tables[ti], ti, state, oid)
    {
      var t := tables[ti];
      var n := |t.entry|;
      if |oid| != n + 2 {
        return NotFound(NoSuchObject);
      }
      var c := Compare(oid[..n], t.entry);
      if c != 0 {
        return NotFound(NoSuchObject);
      }
      var colNum, idx := oid[n], oid[n + 1];
      var i := FindColumn(t.columns, colNum);
      if i.None? {
        return NotFound(NoSuchObject);
      }
      var there := RowExists(t, idx);
      if !there {
        return NotFound(NoSuchInstance);
      }
      return Found(CellResolved(t, ti, t.columns[i.value], idx));
    }

    /** The least cell of one table above oid. */
    method TableFindNext(ti: nat, oid: Oid) returns (r: Option<Resolved>)
      requires Valid() && ti < |tables|
      ensures LeastAbove(Cells(tables[ti], state), oid, if r.Some? then Some(r.value.oid) else None)
      ensures r.Some? ==> ResolveCell(tables[ti], ti, state, r.value.oid) == Found(r.value)
    {
      var t := tables[ti];
      ghost var rows := Rows(t, state);
      for ci := 0 to |t.columns|
        invariant NoneAboveBefore(t, state, oid, ci, 0)
      {
        var col := t.columns[ci];
        var cur: Option<uint32> := t.first(state);
        ghost var k := 0;
        while cur.Some?
          invariant k <= |rows| && RowsFrom(t, state, cur) == rows[k..]
          invariant NoneAboveBefore(t, state, oid, ci, k)
          decreases |rows| - k
        {
          assert rows[k] == cur.value && rows[k..][1..] == rows[k + 1..];
          var cand := t.entry + [col.number, cur.value];
          var c := Compare(cand, oid);
          if c > 0 {
            FirstCellAbove(t, state, oid, ci, k);
            ResolveOwnCell(t, ti, state, ci, cur.value);
            return Some(CellResolved(t, ti, col, cur.value));
          }
          cur := t.next(state, cur.value);
          k := k + 1;
        }
      }
      return None;
    }

    method Resolve(oid: Oid) returns (r: Lookup)
      requires Valid()
      ensures r == Mib.Resolve(Entries(), state, oid)
    {
      var scalar := Find(oid);
      if scalar.Some? {
        return Found(ScalarResolved(modules[scalar.value.m][scalar.value.k], scalar.value));
      }
      for i := 0 to |tables|
        invariant ResolveCells(tables[..i], state, oid) == NotFound(NoSuchObject)
      {
        r := TableFindExact(i, oid);
        assert tables[..i + 1][..i] == tables[..i];
        if r.Found? || r == NotFound(NoSuchInstance) {
          ResolveCellsFirst(tables, state, oid, i + 1);
          return r;
        }
      }
      assert tables[..|tables|] == tables;
      return NotFound(NoSuchObject);
    }

    /** The least scalar or cell above oid: the best scalar, replaced by the best cell of each table in turn whenever
        that one is strictly smaller. */
    method ResolveNext(oid: Oid) returns (r: Lookup)
      requires Valid()
      ensures r == Mib.ResolveNext(Entries(), state, oid)
    {
      hide BestSoFar, LeastAbove, ResolveCell, TablesDisjoint, Sorted, RowsAscend, ColumnsAscend;
      r := NotFound(EndOfView);
      var scalar := FindNext(oid);
      if scalar.Some? {
        r := Found(ScalarResolved(modules[scalar.value.m][scalar.value.k], scalar.value));
      }
      BestOfScalars(Entries(), state, oid, r);
      for i := 0 to |tables|
        invariant BestSoFar(Entries(), state, oid, i, r)
      {
        var cand := TableFindNext(i, oid);
        var smaller := cand.Some? && r.NotFound?;
        if cand.Some? && r.Found? {
          var c := Compare(cand.value.oid, r.r.oid);
          smaller := c < 0;
        }
        BestStep(Entries(), state, oid, i, r, cand);
        if smaller {
          r := Found(cand.value);
        }
      }
      BestOfAll(Entries(), state, oid, r);
    }

    method Get(target: Target) returns (a: Answer)
      requires Mib.ValidTarget(Entries(), target)
      ensures a == Mib.Get(Entries(), state, target)
    {
      match target
      case ScalarAt(m, k) => a := modules[m][k].getter(state);
      case CellAt(t, column, index) => a := tables[t].getCell(state, column, index);
    }

    method Set(target: Target, v: Value) returns (result: MibResult)
      requires Mib.ValidTarget(Entries(), target)
      modifies this`state
      ensures (state, result) == Mib.Set(Entries(), old(state), target, v)
    {
      match target
      case ScalarAt(m, k) =>
        if modules[m][k].setter.None? {
          return NotWritable;
        }
        var after := modules[m][k].setter.value(state, v);
        state, result := after.0, after.1;
      case CellAt(t, column, index) =>
        if tables[t].setCell.None? {
          return NotWritable;
        }
        var after := tables[t].setCell.value(state, column, index, v);
        state, result := after.0, after.1;
    }
  }

  function NameOf(r: Lookup): Option<Oid> {
    if r.Found? then Some(r.r.oid) else None
  }

  /** r is what exact lookup finds under its name, consulting the first n tables only. */
  ghost predicate ResolvesTo<S(!new)>(mib: Registered<S>, st: S, n: nat, r: Lookup)
    requires WellFormed(mib) && n <= |mib.tables|
  {
    r.Found? && Mib.Resolve(FirstTables(mib, n), st, r.r.oid) == r
  }

  ghost function FirstTables<S(!new)>(mib: Registered<S>, n: nat): (r: Registered<S>)
    requires WellFormed(mib) && n <= |mib.tables|
    ensures WellFormed(r)
  {
    mib.(tables := mib.tables[..n])
  }

  /** r is the least thing above bound among the scalars and the first n tables, and what exact lookup finds there. */
  ghost predicate BestSoFar<S(!new)>(mib: Registered<S>, st: S, bound: Oid, n: nat, r: Lookup)
    requires WellFormed(mib) && n <= |mib.tables|
  {
    && (r == NotFound(EndOfView) || ResolvesTo(mib, st, n, r))
    && LeastAbove(Scalars(mib.modules) + AllCells(mib.tables[..n], st), bound, NameOf(r))
  }

  lemma BestOfScalars<S(!new)>(mib: Registered<S>, st: S, bound: Oid, r: Lookup)
    requires WellFormed(mib) && LeastAbove(Scalars(mib.modules), bound, NameOf(r))
    requires r == NotFound(EndOfView) ||
             (r.Found? && FindScalar(mib.modules, r.r.oid) == Some(r.r.target) && r.r.target.ScalarAt?
              && r.r == ScalarResolved(mib.modules[r.r.target.m][r.r.target.k], r.r.target))
    ensures BestSoFar(mib, st, bound, 0, r)
  {
    assert Scalars(mib.modules) + AllCells(mib.tables[..0], st) == Scalars(mib.modules);
  }

  lemma BestStep<S(!new)>(mib: Registered<S>, st: S, bound: Oid, n: nat, r: Lookup, cand: Option<Resolved>)
    requires WellFormed(mib) && n < |mib.tables| && BestSoFar(mib, st, bound, n, r)
    requires LeastAbove(Cells(mib.tables[n], st), bound, if cand.Some? then Some(cand.value.oid) else None)
    requires cand.Some? ==> ResolveCell(mib.tables[n], n, st, cand.value.oid) == Found(cand.value)
    ensures var smaller := cand.Some? && (r.NotFound? || Less(cand.value.oid, r.r.oid));
            BestSoFar(mib, st, bound, n + 1, if smaller then Found(cand.value) else r)
  {
    var before := Scalars(mib.modules) + AllCells(mib.tables[..n], st);
    var candOid := if cand.Some? then Some(cand.value.oid) else None;
    LeastOfUnion(before, Cells(mib.tables[n], st), bound, NameOf(r), candOid);
    AllCellsSplit(mib.tables, st, n);
    assert Scalars(mib.modules) + AllCells(mib.tables[..n + 1], st) == before + Cells(mib.tables[n], st);
    if cand.Some? && (r.NotFound? || Less(cand.value.oid, r.r.oid)) {
      assert cand.value.oid !in before;
      NewBest(mib, st, n, cand.value);
    } else if r.Found? {
      ResolvesToGrows(mib, st, n, r);
    }
  }

  lemma BestOfAll<S(!new)>(mib: Registered<S>, st: S, bound: Oid, r: Lookup)
    requires WellFormed(mib) && BestSoFar(mib, st, bound, |mib.tables|, r)
    ensures r == Mib.ResolveNext(mib, st, bound)
  {
    assert mib.tables[..|mib.tables|] == mib.tables;
    ResolveNextAgrees(mib, st, bound);
    LeastIsUnique(View(mib, st), bound, NameOf(r), NameOf(Mib.ResolveNext(mib, st, bound)));
  }

  lemma ResolvesToGrows<S(!new)>(mib: Registered<S>, st: S, n: nat, r: Lookup)
    requires WellFormed(mib) && n < |mib.tables| && ResolvesTo(mib, st, n, r)
    ensures ResolvesTo(mib, st, n + 1, r)
  {
    assert mib.tables[..n + 1][..n] == mib.tables[..n];
  }

  /** A cell that no earlier scalar or cell shares its name with is what exact lookup finds. */
  lemma NewBest<S(!new)>(mib: Registered<S>, st: S, n: nat, cell: Resolved)
    requires WellFormed(mib) && n < |mib.tables|
    requires ResolveCell(mib.tables[n], n, st, cell.oid) == Found(cell)
    requires cell.oid !in Scalars(mib.modules) + AllCells(mib.tables[..n], st)
    ensures ResolvesTo(mib, st, n + 1, Found(cell))
  {
    var before := mib.tables[..n];
    assert mib.tables[..n + 1][..n] == before;
    ResolveCellsMeans(FirstTables(mib, n).tables, st, cell.oid);
    ResolveCellMeans(mib.tables[n], n, st, cell.oid);
    CellShape(mib.tables[n], st, cell.oid);
    forall i | 0 <= i < n ensures !CellShaped(before[i], cell.oid) {
      CellShapedOnce(mib.tables, i, n, cell.oid);
    }
  }

  lemma AllCellsSplit<S(!new)>(tables: seq<Table<S>>, st: S, n: nat)
    requires forall t | 0 <= t < |tables| :: RowsAscend(tables[t])
    requires n < |tables|
    ensures AllCells(tables[..n + 1], st) == AllCells(tables[..n], st) + Cells(tables[n], st)
  {
  }

  lemma ScalarsSplit<S(!new)>(modules: seq<seq<Object<S>>>, m: nat)
    requires m < |modules|
    ensures Scalars(modules[..m + 1]) == Scalars(modules[..m]) + OidsOf(modules[m])
  {
  }

  lemma ResolveOwnCell<S(!new)>(t: Table<S>, ti: nat, st: S, ci: nat, index: uint32)
    requires ColumnsAscend(t) && RowsAscend(t) && ci < |t.columns| && index in Rows(t, st)
    ensures ResolveCell(t, ti, st, CellOid(t, t.columns[ci].number, index)) ==
            Found(CellResolved(t, ti, t.columns[ci], index))
  {
    var oid, n := CellOid(t, t.columns[ci].number, index), |t.entry|;
    assert oid[..n] == t.entry && oid[n] == t.columns[ci].number && oid[n + 1] == index;
    var c := ColumnAt(t.columns, oid[n]);
    assert c.Some? && c.value == ci;
  }

  lemma {:induction false} ResolveCellsFirst<S(!new)>(tables: seq<Table<S>>, st: S, oid: Oid, n: nat)
    requires forall t | 0 <= t < |tables| :: RowsAscend(tables[t])
    requires n <= |tables| && ResolveCells(tables[..n], st, oid) != NotFound(NoSuchObject)
    ensures ResolveCells(tables, st, oid) == ResolveCells(tables[..n], st, oid)
    decreases |tables|
  {
    if n < |tables| {
      var last := |tables| - 1;
      assert tables[..last][..n] == tables[..n];
      ResolveCellsFirst(tables[..last], st, oid, n);
    } else {
      assert tables[..n] == tables;
    }
  }
}
