/** A walk: repeated successor lookup, each step in whatever view there is by then. */
module Walk {
  import opened Types
  import opened Oids
  import opened Mib

  /** names[0] is where the walk starts; in views[k], the least name above names[k] is names[k + 1]. Views need not be
      related: rows may come and go between steps. */
  ghost predicate IsWalk(views: seq<set<Oid>>, names: seq<Oid>) {
    && |views| == |names| > 0
    && forall k | 0 <= k < |names| - 1 :: LeastAbove(views[k], names[k], Some(names[k + 1]))
  }

  /** The last step finds nothing more. */
  ghost predicate Complete(views: seq<set<Oid>>, names: seq<Oid>)
    requires IsWalk(views, names)
  {
    LeastAbove(views[|views| - 1], names[|names| - 1], None)
  }

  /** The names of a walk strictly ascend, whatever happens to the rows. */
  lemma {:induction false} WalkAscends(views: seq<set<Oid>>, names: seq<Oid>, i: nat, j: nat)
    requires IsWalk(views, names) && i < j < |names|
    ensures Less(names[i], names[j])
    decreases j
  {
    hide Less;
    assert LeastAbove(views[j - 1], names[j - 1], Some(names[j]));
    if i < j - 1 {
      WalkAscends(views, names, i, j - 1);
      Transitive(names[i], names[j - 1], names[j]);
    }
  }

  lemma {:induction false} DistinctAreFew(names: seq<Oid>, universe: set<Oid>)
    requires forall i | 0 <= i < |names| :: names[i] in universe
    requires forall i, j | 0 <= i < j < |names| :: names[i] != names[j]
    ensures |names| <= |universe|
  {
    if names != [] {
      var last := names[|names| - 1];
      DistinctAreFew(names[..|names| - 1], universe - {last});
    }
  }

  /** A walk ends: it takes no more steps than there are names it could ever meet. */
  lemma WalkIsFinite(views: seq<set<Oid>>, names: seq<Oid>, universe: set<Oid>)
    requires IsWalk(views, names) && forall k | 0 <= k < |views| :: views[k] <= universe
    ensures |names| - 1 <= |universe|
  {
    var met := names[1..];
    forall i | 0 <= i < |met| ensures met[i] in universe {
      assert LeastAbove(views[i], names[i], Some(names[i + 1]));
      assert names[i + 1] in views[i];
    }
    forall i, j | 0 <= i < j < |met| ensures met[i] != met[j] {
      WalkAscends(views, names, i + 1, j + 1);
      Trichotomy(met[i], met[j]);
    }
    DistinctAreFew(met, universe);
  }

  /** Until it is met, a name present throughout stays ahead of the walk. */
  lemma {:induction false} StaysAhead(views: seq<set<Oid>>, names: seq<Oid>, x: Oid, n: nat)
    requires IsWalk(views, names) && n < |names|
    requires forall k | 0 <= k < |views| :: x in views[k]
    requires Less(names[0], x) && forall k | 0 < k <= n :: names[k] != x
    ensures Less(names[n], x)
  {
    if n > 0 {
      StaysAhead(views, names, x, n - 1);
      assert LeastAbove(views[n - 1], names[n - 1], Some(names[n]));
      Trichotomy(names[n], x);
    }
  }

  /** A completed walk returns every name that lies ahead of its start and exists throughout, exactly once. */
  lemma WalkReturnsEverything(views: seq<set<Oid>>, names: seq<Oid>, x: Oid)
    requires IsWalk(views, names) && Complete(views, names)
    requires forall k | 0 <= k < |views| :: x in views[k]
    requires Less(names[0], x)
    ensures exists k | 0 < k < |names| :: names[k] == x
    ensures forall i, j | 0 < i < |names| && 0 < j < |names| && names[i] == x == names[j] :: i == j
  {
    var last := |names| - 1;
    if forall k | 0 < k < |names| :: names[k] != x {
      StaysAhead(views, names, x, last);
      assert false;
    }
    forall i, j | 0 < i < j < |names| ensures names[i] != names[j] {
      WalkAscends(views, names, i, j);
      Trichotomy(names[i], names[j]);
    }
  }

  // ---------------------------------------------------------------- what a walk of the MIB can meet

  /** Every name the registered modules and tables could ever show, with any row index. */
  ghost function Universe<S(!new)>(mib: Registered<S>): set<Oid> {
    Scalars(mib.modules) +
    (set t, c, i | 0 <= t < |mib.tables| && 0 <= c < |mib.tables[t].columns| && 0 <= i < SIZE_LIMIT ::
       CellOid(mib.tables[t], mib.tables[t].columns[c].number, i))
  }

  lemma ViewInUniverse<S(!new)>(mib: Registered<S>, st: S)
    requires WellFormed(mib)
    ensures View(mib, st) <= Universe(mib)
  {
    forall o | o in AllCells(mib.tables, st) ensures o in Universe(mib) {
      var t :| 0 <= t < |mib.tables| && o in Cells(mib.tables[t], st);
      var c, r :| 0 <= c < |mib.tables[t].columns| && r in Rows(mib.tables[t], st)
                  && CellOid(mib.tables[t], mib.tables[t].columns[c].number, r) == o;
    }
  }
}
