/** Small registries for the lemmas that exhibit an input: one module with the scalars 1.3.0, 1.3.1, and so on. */
module Examples {
  import opened Types
  import opened Oids
  import opened Mib

  function ScalarName(i: uint32): Oid {
    [1, 3, i]
  }

  predicate Numbered<S(!new)>(objs: seq<Object<S>>) {
    |objs| < SIZE_LIMIT && forall i | 0 <= i < |objs| :: objs[i].oid == ScalarName(i)
  }

  function OneModule<S(!new)>(objs: seq<Object<S>>): Registered<S> {
    Registered([objs], [])
  }

  lemma NameOrder(i: uint32, j: uint32)
    ensures Less(ScalarName(i), ScalarName(j)) <==> i < j
    ensures Less([1, 3], ScalarName(j))
  {
    CommonPrefix([1, 3], [i], [j]);
    CommonPrefix([1, 3], [], [j]);
    assert [1, 3] + [i] == ScalarName(i) && [1, 3] + [j] == ScalarName(j) && [1, 3] + [] == [1, 3];
  }

  lemma NumberedIsWellFormed<S(!new)>(objs: seq<Object<S>>)
    requires Numbered(objs)
    ensures Sorted(objs) && WellFormed(OneModule(objs))
  {
    forall i, j | 0 <= i < j < |objs| ensures Less(objs[i].oid, objs[j].oid) {
      NameOrder(i, j);
    }
  }

  lemma NumberedView<S(!new)>(objs: seq<Object<S>>, st: S)
    requires Numbered(objs)
    ensures WellFormed(OneModule(objs))
    ensures forall o :: o in View(OneModule(objs), st) <==> exists i: uint32 | i < |objs| :: o == ScalarName(i)
  {
    NumberedIsWellFormed(objs);
    var view := View(OneModule(objs), st);
    forall i: uint32 | i < |objs| ensures ScalarName(i) in view {
      assert OneModule(objs).modules[0] == objs && objs[i].oid in OidsOf(OneModule(objs).modules[0]);
    }
    forall o | o in view ensures exists i: uint32 | i < |objs| :: o == ScalarName(i) {
      var i :| 0 <= i < |objs| && objs[i].oid == o;
      assert o == ScalarName(i);
    }
  }

  lemma NumberedLookup<S(!new)>(objs: seq<Object<S>>, st: S, k: uint32)
    requires Numbered(objs) && k < |objs|
    ensures WellFormed(OneModule(objs))
    ensures Resolve(OneModule(objs), st, ScalarName(k)) == Found(ScalarResolved(objs[k], ScalarAt(0, k)))
  {
    NumberedIsWellFormed(objs);
    FoundAt(objs, k);
    assert OneModule(objs).modules[..0] == [];
  }

  /** From 1.3 the next name is 1.3.0, from there 1.3.1, and so on to the end of the view. */
  lemma NumberedNext<S(!new)>(objs: seq<Object<S>>, st: S, bound: Oid, k: uint32)
    requires Numbered(objs) && k <= |objs|
    requires bound == if k == 0 then [1, 3] else ScalarName(k - 1)
    ensures WellFormed(OneModule(objs))
    ensures Successor(View(OneModule(objs), st), bound) == if k < |objs| then Some(ScalarName(k)) else None
    ensures ResolveNext(OneModule(objs), st, bound) ==
            if k < |objs| then Found(ScalarResolved(objs[k], ScalarAt(0, k))) else NotFound(EndOfView)
  {
    NumberedView(objs, st);
    var view := View(OneModule(objs), st);
    var next: Option<Oid> := if k < |objs| then Some(ScalarName(k)) else None;
    forall i: uint32 | i < |objs| ensures Less(bound, ScalarName(i)) <==> k <= i {
      if k > 0 {
        NameOrder(k - 1, i);
      } else {
        NameOrder(0, i);
      }
    }
    forall i: uint32 | k <= i < |objs| ensures !Less(ScalarName(i), ScalarName(k)) {
      NameOrder(i, k);
    }
    hide Less, View, WellFormed;
    assert LeastAbove(view, bound, next);
    LeastIsUnique(view, bound, next, Successor(view, bound));
    if k < |objs| {
      NumberedLookup(objs, st, k);
    }
  }
}
