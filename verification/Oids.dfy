/** Lexicographic order on object identifiers, and least elements above a bound. */
module Oids {
  import opened Types

  /** Arc by arc; a proper prefix comes first. */
  predicate Less(a: Oid, b: Oid)
    decreases |a|
  {
    b != [] && (a == [] || a[0] < b[0] || (a[0] == b[0] && Less(a[1..], b[1..])))
  }

  /** The order told apart from its recursion: where the names first differ the smaller arc decides, and if they do not
      the shorter name comes first. */
  lemma {:induction false} LessExact(a: Oid, b: Oid)
    ensures Less(a, b) <==>
            exists k | 0 <= k <= |a| && k < |b| :: a[..k] == b[..k] && (k == |a| || a[k] < b[k])
    decreases |a|
  {
    if a == [] {
      assert b != [] ==> a[..0] == b[..0];
    } else if b != [] && a[0] == b[0] {
      var c, d := a[1..], b[1..];
      LessExact(c, d);
      if Less(a, b) {
        var k :| 0 <= k <= |c| && k < |d| && c[..k] == d[..k] && (k == |c| || c[k] < d[k]);
        assert a[..k + 1] == [a[0]] + c[..k] && b[..k + 1] == [b[0]] + d[..k];
      }
      forall k | 0 <= k <= |a| && k < |b| && a[..k] == b[..k] && (k == |a| || a[k] < b[k]) ensures Less(a, b) {
        assert c[..k - 1] == a[..k][1..] && d[..k - 1] == b[..k][1..];
      }
    } else if b != [] {
      assert a[..0] == b[..0];
      forall k | 0 < k <= |a| && k < |b| ensures a[..k] != b[..k] {
        assert a[..k][0] != b[..k][0];
      }
    }
  }

  lemma {:induction false} Trichotomy(a: Oid, b: Oid)
    ensures a == b || Less(a, b) || Less(b, a)
    ensures !(Less(a, b) && Less(b, a))
    ensures !Less(a, a)
    decreases |a|
  {
    if a != [] {
      assert a == [a[0]] + a[1..];
      if b != [] {
        assert b == [b[0]] + b[1..];
        Trichotomy(a[1..], b[1..]);
      }
      Trichotomy(a[1..], a[1..]);
    }
  }

  lemma {:induction false} Transitive(a: Oid, b: Oid, c: Oid)
    requires Less(a, b) && Less(b, c)
    ensures Less(a, c)
    decreases |a|
  {
    if a != [] && a[0] == b[0] == c[0] {
      Transitive(a[1..], b[1..], c[1..]);
    }
  }

  /** A common prefix does not matter. */
  lemma {:induction false} CommonPrefix(p: Oid, a: Oid, b: Oid)
    ensures Less(p + a, p + b) <==> Less(a, b)
  {
    if p == [] {
      assert p + a == a && p + b == b;
    } else {
      assert (p + a)[1..] == p[1..] + a && (p + b)[1..] == p[1..] + b;
      CommonPrefix(p[1..], a, b);
    }
  }

  /** mib_oid_compare. */
  method Compare(a: Oid, b: Oid) returns (c: int)
    ensures c == -1 || c == 0 || c == 1
    ensures c < 0 <==> Less(a, b)
    ensures c == 0 <==> a == b
    ensures c > 0 <==> Less(b, a)
  {
    var n := if |a| < |b| then |a| else |b|;
    Trichotomy(a, b);
    for i := 0 to n
      invariant a[..i] == b[..i]
      invariant Less(a, b) <==> Less(a[i..], b[i..])
      invariant Less(b, a) <==> Less(b[i..], a[i..])
    {
      if a[i] < b[i] {
        return -1;
      }
      if a[i] > b[i] {
        return 1;
      }
      assert a[i..][1..] == a[i + 1..] && b[i..][1..] == b[i + 1..];
    }
    if |a| < |b| {
      return -1;
    }
    if |a| > |b| {
      return 1;
    }
    assert a == a[..n] && b == b[..n];
    return 0;
  }

  /** r is the least element of view above bound, or None if there is nothing above it. */
  ghost predicate LeastAbove(view: set<Oid>, bound: Oid, r: Option<Oid>) {
    match r
    case None => forall x | x in view :: !Less(bound, x)
    case Some(n) => n in view && Less(bound, n) && forall x | x in view && Less(bound, x) :: !Less(x, n)
  }

  lemma LeastIsUnique(view: set<Oid>, bound: Oid, r: Option<Oid>, s: Option<Oid>)
    requires LeastAbove(view, bound, r) && LeastAbove(view, bound, s)
    ensures r == s
  {
    if r.Some? && s.Some? {
      Trichotomy(r.value, s.value);
    }
  }

  /** The earlier candidate wins unless the later one is strictly smaller. */
  function Smaller(first: Option<Oid>, second: Option<Oid>): Option<Oid> {
    if second.Some? && (first.None? || Less(second.value, first.value)) then second else first
  }

  lemma LeastOfUnion(a: set<Oid>, b: set<Oid>, bound: Oid, ra: Option<Oid>, rb: Option<Oid>)
    requires LeastAbove(a, bound, ra) && LeastAbove(b, bound, rb)
    ensures LeastAbove(a + b, bound, Smaller(ra, rb))
  {
    forall x | x in a + b && Less(bound, x)
      ensures Smaller(ra, rb).Some? && !Less(x, Smaller(ra, rb).value)
    {
      if ra.Some? && rb.Some? {
        NotBelow(x, ra.value, rb.value);
        NotBelow(x, rb.value, ra.value);
        Trichotomy(ra.value, rb.value);
      }
    }
  }

  /** What is not below m is not below anything up to m. */
  lemma NotBelow(x: Oid, m: Oid, n: Oid)
    ensures !Less(x, m) && !Less(m, n) ==> !Less(x, n)
  {
    if Less(x, n) && !Less(m, n) {
      Trichotomy(m, n);
      if m != n {
        Transitive(x, n, m);
      }
    }
  }

  /** Every finite view has one. */
  ghost function Successor(view: set<Oid>, bound: Oid): (r: Option<Oid>)
    ensures LeastAbove(view, bound, r)
  {
    if view == {} then None
    else
      var x :| x in view;
      var one := if Less(bound, x) then Some(x) else None;
      var rest := Successor(view - {x}, bound);
      assert LeastAbove({x}, bound, one) by { Trichotomy(x, x); }
      LeastOfUnion({x}, view - {x}, bound, one, rest);
      assert {x} + (view - {x}) == view;
      Smaller(one, rest)
  }
}
