/** What the agent serves, from the datagram to what the registered callbacks do: each answer told by names, owners and
    numbers alone. */
module Service {
  import opened Types
  import opened Oids
  import opened Codec
  import opened PduCodec
  import opened Mib
  import opened ReadPdu
  import opened SetPdu
  import opened BulkPdu
  import opened Community
  import opened Agent

  // ---------------------------------------------------------------- what a name reads as

  /** The getter of the owner of oid reports a. */
  ghost predicate Reports<S(!new)>(mib: Registered<S>, st: S, oid: Oid, a: Answer)
    requires WellFormed(mib)
  {
    exists target :: Owns(mib, st, oid, target) && GetterGives(mib, st, target, a)
  }

  ghost predicate GetterGives<S(!new)>(mib: Registered<S>, st: S, target: Target, a: Answer)
    requires ValidTarget(mib, target)
  {
    match target
    case ScalarAt(m, k) => mib.modules[m][k].getter(st) == a
    case CellAt(t, column, index) => mib.tables[t].getCell(st, column, index) == a
  }

  lemma ReportsExact<S(!new)>(mib: Registered<S>, st: S, oid: Oid, a: Answer)
    requires WellFormed(mib)
    ensures Reports(mib, st, oid, a) <==>
            var r := Mib.Resolve(mib, st, oid);
            r.Found? && ValidTarget(mib, r.r.target) && a == Mib.Get(mib, st, r.r.target)
    ensures Reports(mib, st, oid, a) ==> oid in View(mib, st)
  {
    var r := Mib.Resolve(mib, st, oid);
    ResolveIsMembership(mib, st, oid);
    if r.Found? {
      OwnerIsFound(mib, st, oid, r.r.target);
      GetIsByName(mib, st, oid, r.r.target);
    }
    forall target | Owns(mib, st, oid, target) && GetterGives(mib, st, target, a)
      ensures r.Found? && a == Mib.Get(mib, st, r.r.target)
    {
      OwnerIsFound(mib, st, oid, target);
      GetIsByName(mib, st, oid, target);
    }
  }

  /** vb is a name in the view with the value that its owner's getter reports. */
  ghost predicate Holds<S(!new)>(mib: Registered<S>, st: S, vb: Varbind)
    requires WellFormed(mib)
  {
    Reports(mib, st, vb.oid, Answer(MibOk, vb.value))
  }

  /** The owner's getter does not answer, for this reason. */
  ghost predicate FailsWith<S(!new)>(mib: Registered<S>, st: S, oid: Oid, why: MibResult)
    requires WellFormed(mib)
  {
    why != MibOk && exists v :: Reports(mib, st, oid, Answer(why, v))
  }

  /** oid spells a cell, there or not, under a column that some table has. */
  predicate KnownColumn<S(!new)>(mib: Registered<S>, oid: Oid) {
    exists t, c, r: uint32 | 0 <= t < |mib.tables| && 0 <= c < |mib.tables[t].columns| ::
      Spells(oid, mib.tables[t].entry, mib.tables[t].columns[c].number, r)
  }

  predicate Spells(oid: Oid, entry: Oid, column: uint32, row: uint32) {
    oid == entry + [column, row]
  }

  lemma KnownColumnExact<S(!new)>(mib: Registered<S>, oid: Oid)
    ensures KnownColumn(mib, oid) <==> exists t | 0 <= t < |mib.tables| :: CellShaped(mib.tables[t], oid)
  {
    if t, c, r: uint32 :| 0 <= t < |mib.tables| && 0 <= c < |mib.tables[t].columns|
                          && Spells(oid, mib.tables[t].entry, mib.tables[t].columns[c].number, r) {
      var n := |mib.tables[t].entry|;
      assert oid[..n] == mib.tables[t].entry && oid[n] == mib.tables[t].columns[c].number;
      assert CellShaped(mib.tables[t], oid);
    }
    if t :| 0 <= t < |mib.tables| && CellShaped(mib.tables[t], oid) {
      var n := |mib.tables[t].entry|;
      var c :| 0 <= c < |mib.tables[t].columns| && mib.tables[t].columns[c].number == oid[n];
      assert oid == oid[..n] + [oid[n], oid[n + 1]];
      assert Spells(oid, mib.tables[t].entry, mib.tables[t].columns[c].number, oid[n + 1]);
    }
  }

  /** What looking a name up and reading it gives, in v2c. */
  lemma FetchExact<S(!new)>(mib: Registered<S>, st: S, oid: Oid)
    requires WellFormed(mib)
    ensures var o := Fetch(mib, st, V2C, ExactMatch, oid);
            && (o.Good? ==> o.vb.oid == oid && Holds(mib, st, o.vb))
            && (o.Bad? && oid in View(mib, st) ==> FailsWith(mib, st, oid, o.why))
            && (oid !in View(mib, st) ==> o == Bad(if KnownColumn(mib, oid) then NoSuchInstance else NoSuchObject))
  {
    var r := Mib.Resolve(mib, st, oid);
    ResolveIsMembership(mib, st, oid);
    NoSuchInstanceExact(mib, st, oid);
    KnownColumnExact(mib, oid);
    hide WellFormed, View, Mib.Resolve, KnownColumn, CellShaped, Reports, Mib.Get;
    if r.Found? {
      var a := Mib.Get(mib, st, r.r.target);
      ReportsExact(mib, st, oid, a);
      assert a == Answer(a.result, a.value);
    }
  }

  /** v1 does not see a Counter64. */
  ghost predicate Hidden<S(!new)>(mib: Registered<S>, st: S, oid: Oid)
    requires WellFormed(mib)
  {
    exists access :: Offers(mib, st, oid, 0x46, access)
  }

  lemma HiddenExact<S(!new)>(mib: Registered<S>, st: S, oid: Oid)
    requires WellFormed(mib)
    ensures Hidden(mib, st, oid) <==> var r := Mib.Resolve(mib, st, oid); r.Found? && r.r.tag == 0x46
    ensures oid in VisibleView(mib, st) <==> oid in View(mib, st) && !Hidden(mib, st, oid)
  {
    var r := Mib.Resolve(mib, st, oid);
    ResolveIsMembership(mib, st, oid);
    hide WellFormed, View, Mib.Resolve, Offers;
    forall access ensures Offers(mib, st, oid, 0x46, access) <==> r.Found? && r.r.tag == 0x46 && r.r.access == access {
      OffersExact(mib, st, oid, 0x46, access);
    }
    if r.Found? && r.r.tag == 0x46 {
      assert Offers(mib, st, oid, 0x46, r.r.access);
    }
  }

  lemma V1FetchExact<S(!new)>(mib: Registered<S>, st: S, oid: Oid)
    requires WellFormed(mib)
    ensures Fetch(mib, st, V1, ExactMatch, oid) ==
            if Hidden(mib, st, oid) then Bad(NoSuchObject) else Fetch(mib, st, V2C, ExactMatch, oid)
  {
    HiddenExact(mib, st, oid);
    hide WellFormed, View, Mib.Resolve, Hidden;
  }

  // ---------------------------------------------------------------- numbers and exceptions

  /** The error-status that v1 gives a failure. */
  predicate V1Number(why: MibResult, status: int) {
    match why
    case MibOk => false
    case NoSuchObject => status == 2
    case NoSuchInstance => status == 2
    case EndOfView => status == 2
    case WrongType => status == 3
    case WrongValue => status == 3
    case NotWritable => status == 4
    case GenErr => status == 5
  }

  lemma V1NumberExact(why: MibResult)
    ensures why != MibOk ==> V1Number(why, V1Status(why))
  {
  }

  /** The exception that v2c gives a failure, if there is one for it. */
  predicate V2cException(why: MibResult, value: Value) {
    match why
    case NoSuchObject => value == Exception(NoSuchObjectValue)
    case NoSuchInstance => value == Exception(NoSuchInstanceValue)
    case EndOfView => value == Exception(EndOfMibViewValue)
    case _ => false
  }

  lemma V2cExceptionExact(why: MibResult, e: ExceptionKind)
    ensures Translate(V2C, why) == Substitute(e) ==> V2cException(why, Exception(e))
  {
  }

  // ---------------------------------------------------------------- GET

  /** A v1 manager can read oid. */
  ghost predicate V1Readable<S(!new)>(mib: Registered<S>, st: S, oid: Oid)
    requires WellFormed(mib)
  {
    !Hidden(mib, st, oid) && exists v :: Reports(mib, st, oid, Answer(MibOk, v))
  }

  /** A v1 manager cannot, and is told this number: there is no such name that it could see, or the getter fails. */
  ghost predicate V1Unreadable<S(!new)>(mib: Registered<S>, st: S, oid: Oid, status: int)
    requires WellFormed(mib)
  {
    if oid !in View(mib, st) || Hidden(mib, st, oid) then status == 2
    else exists why :: FailsWith(mib, st, oid, why) && V1Number(why, status)
  }

  lemma V1GetExact<S(!new)>(mib: Registered<S>, st: S, oid: Oid)
    requires WellFormed(mib)
    ensures var o := Fetch(mib, st, V1, ExactMatch, oid);
            && (o.Good? ==> o.vb.oid == oid && Holds(mib, st, o.vb) && V1Readable(mib, st, oid))
            && (o.Bad? ==> V1Unreadable(mib, st, oid, V1Status(o.why)))
  {
    FetchExact(mib, st, oid);
    V1FetchExact(mib, st, oid);
    hide WellFormed, View, Fetch, Hidden, Reports, KnownColumn;
    var o := Fetch(mib, st, V1, ExactMatch, oid);
    if o.Bad? {
      V1NumberExact(o.why);
    }
  }

  /** One v2c answer to a GET of a name: the name and what its owner reports, or the exception that says why not. */
  ghost predicate V2cGets<S(!new)>(mib: Registered<S>, st: S, oid: Oid, vb: Varbind)
    requires WellFormed(mib)
  {
    && vb.oid == oid
    && if oid !in View(mib, st) then
         vb.value == Exception(if KnownColumn(mib, oid) then NoSuchInstanceValue else NoSuchObjectValue)
       else Holds(mib, st, vb) || exists why :: FailsWith(mib, st, oid, why) && V2cException(why, vb.value)
  }

  /** The getter fails in a way that v2c has no exception for. */
  ghost predicate V2cFails<S(!new)>(mib: Registered<S>, st: S, oid: Oid)
    requires WellFormed(mib)
  {
    exists why :: FailsWith(mib, st, oid, why) &&
                  (why == WrongType || why == WrongValue || why == NotWritable || why == GenErr)
  }

  /** What every answer to a request has of it. */
  predicate Replies(f: Fields, reply: Fields) {
    reply.tag == 0xA2 && reply.requestId == f.requestId
  }

  /** The answer to a GET. In v1: every name asked for with what its owner reports; or the request itself, with the
      place and the reason of the first name that cannot be read. In v2c: varbind by varbind, up to the first whose
      getter fails outright, which is reported with status 5; that one and the rest are as they came. */
  ghost predicate IsGetReply<S(!new)>(mib: Registered<S>, st: S, version: Version, f: Fields, reply: Fields)
    requires WellFormed(mib)
  {
    var n, k := |f.varbinds|, reply.errorIndex - 1;
    Replies(f, reply) && |reply.varbinds| == n &&
    match version
    case V1 =>
      if reply.errorStatus == 0 then
        && reply.errorIndex == 0
        && forall i | 0 <= i < n ::
             && reply.varbinds[i].oid == f.varbinds[i].oid
             && Holds(mib, st, reply.varbinds[i]) && V1Readable(mib, st, f.varbinds[i].oid)
      else
        && reply.varbinds == f.varbinds && 0 <= k < n
        && V1Unreadable(mib, st, f.varbinds[k].oid, reply.errorStatus)
        && forall i | 0 <= i < k :: V1Readable(mib, st, f.varbinds[i].oid)
    case V2C =>
      if reply.errorStatus == 0 then
        && reply.errorIndex == 0
        && forall i | 0 <= i < n :: V2cGets(mib, st, f.varbinds[i].oid, reply.varbinds[i])
      else
        && reply.errorStatus == 5 && 0 <= k < n && V2cFails(mib, st, f.varbinds[k].oid)
        && (forall i | 0 <= i < k :: V2cGets(mib, st, f.varbinds[i].oid, reply.varbinds[i]))
        && forall i | k <= i < n :: reply.varbinds[i] == f.varbinds[i]
  }

  lemma GetReplyExact<S(!new)>(mib: Registered<S>, st: S, version: Version, f: Fields)
    requires WellFormed(mib) && |f.varbinds| <= MAX_VARBINDS
    ensures IsGetReply(mib, st, version, f, ReadReply(mib, st, version, ExactMatch, f))
  {
    if version == V1 {
      V1GetReplyExact(mib, st, f);
    } else {
      V2cGetReplyExact(mib, st, f);
    }
  }

  lemma V1GetReplyExact<S(!new)>(mib: Registered<S>, st: S, f: Fields)
    requires WellFormed(mib) && |f.varbinds| <= MAX_VARBINDS
    ensures IsGetReply(mib, st, V1, f, ReadReply(mib, st, V1, ExactMatch, f))
  {
    hide WellFormed, Fetch, Holds, V1Readable, V1Unreadable, ReadReply;
    forall i | 0 <= i < |f.varbinds|
      ensures var o, oid := Fetch(mib, st, V1, ExactMatch, f.varbinds[i].oid), f.varbinds[i].oid;
              && (o.Good? ==> o.vb.oid == oid && Holds(mib, st, o.vb) && V1Readable(mib, st, oid))
              && (o.Bad? ==> V1Unreadable(mib, st, oid, V1Status(o.why)))
    {
      V1GetExact(mib, st, f.varbinds[i].oid);
    }
    V1AllOrNothing(mib, st, ExactMatch, f);
    V1ErrorStatus(mib, st, ExactMatch, f);
    ReadReplyHead(mib, st, V1, ExactMatch, f);
  }

  lemma ReadReplyHead<S(!new)>(mib: Registered<S>, st: S, version: Version, mode: Mode, f: Fields)
    requires WellFormed(mib) && |f.varbinds| <= MAX_VARBINDS
    ensures var reply := ReadReply(mib, st, version, mode, f);
            && Replies(f, reply) && (reply.errorStatus == 0 ==> reply.errorIndex == 0)
  {
    hide WellFormed, Outcomes, AnsweredUpTo, FirstAbort;
  }

  lemma V2cGetReplyExact<S(!new)>(mib: Registered<S>, st: S, f: Fields)
    requires WellFormed(mib) && |f.varbinds| <= MAX_VARBINDS
    ensures IsGetReply(mib, st, V2C, f, ReadReply(mib, st, V2C, ExactMatch, f))
  {
    hide WellFormed, IsV2cAnswer, GetterFails, V2cGets, V2cFails, ReadReply;
    V2cPartialAnswer(mib, st, ExactMatch, f);
    ReadReplyHead(mib, st, V2C, ExactMatch, f);
    forall i, vb | 0 <= i < |f.varbinds| && IsV2cAnswer(mib, st, ExactMatch, f.varbinds[i].oid, vb)
      ensures V2cGets(mib, st, f.varbinds[i].oid, vb)
    {
      V2cGetsExact(mib, st, f.varbinds[i].oid, vb);
    }
    forall i | 0 <= i < |f.varbinds| && GetterFails(mib, st, ExactMatch, f.varbinds[i].oid)
      ensures V2cFails(mib, st, f.varbinds[i].oid)
    {
      FetchExact(mib, st, f.varbinds[i].oid);
      V2cFailsExact(mib, st, f.varbinds[i].oid);
    }
  }

  lemma V2cGetsExact<S(!new)>(mib: Registered<S>, st: S, oid: Oid, vb: Varbind)
    requires WellFormed(mib) && IsV2cAnswer(mib, st, ExactMatch, oid, vb)
    ensures V2cGets(mib, st, oid, vb)
  {
    FetchExact(mib, st, oid);
    KnownColumnExact(mib, oid);
    hide WellFormed, View, Fetch, Holds, KnownColumn, FailsWith, CellShaped;
    var o := Fetch(mib, st, V2C, ExactMatch, oid);
    if o.Bad? && vb.value.Exception? {
      V2cExceptionExact(o.why, vb.value.exception);
    }
  }

  lemma V2cFailsExact<S(!new)>(mib: Registered<S>, st: S, oid: Oid)
    requires WellFormed(mib) && GetterFails(mib, st, ExactMatch, oid)
    ensures V2cFails(mib, st, oid)
  {
    FetchExact(mib, st, oid);
    hide WellFormed, View, Fetch, FailsWith;
  }

  // ---------------------------------------------------------------- GETNEXT

  /** What v1 sees. */
  ghost function Seen<S(!new)>(mib: Registered<S>, st: S): set<Oid>
    requires WellFormed(mib)
  {
    set o | o in View(mib, st) && !Hidden(mib, st, o)
  }

  /** The Counter64 instances between oid and the next name that v1 sees. */
  ghost function HiddenAhead<S(!new)>(mib: Registered<S>, st: S, oid: Oid): set<Oid>
    requires WellFormed(mib)
  {
    set o | o in View(mib, st) && Hidden(mib, st, o) && Less(oid, o)
            && forall seen | seen in Seen(mib, st) && Less(oid, seen) :: Less(o, seen)
  }

  lemma SeenExact<S(!new)>(mib: Registered<S>, st: S)
    requires WellFormed(mib)
    ensures Seen(mib, st) == VisibleView(mib, st)
  {
    forall o | o in View(mib, st) ensures o in VisibleView(mib, st) <==> !Hidden(mib, st, o) {
      HiddenExact(mib, st, o);
    }
    hide VisibleView, Hidden, View, WellFormed;
    assert VisibleView(mib, st) <= View(mib, st) by { VisibleIsInView(mib, st); }
  }

  lemma VisibleIsInView<S(!new)>(mib: Registered<S>, st: S)
    requires WellFormed(mib)
    ensures VisibleView(mib, st) <= View(mib, st)
  {
  }

  lemma HiddenAheadExact<S(!new)>(mib: Registered<S>, st: S, oid: Oid)
    requires WellFormed(mib)
    ensures HiddenAhead(mib, st, oid) == Skipped(mib, st, oid)
  {
    SeenExact(mib, st);
    hide VisibleView, Hidden, View, WellFormed, Less;
    var next := Successor(VisibleView(mib, st), oid);
    forall o | o in View(mib, st)
      ensures (forall seen | seen in Seen(mib, st) && Less(oid, seen) :: Less(o, seen)) <==>
              (next.Some? ==> Less(o, next.value))
    {
      if next.Some? && Less(o, next.value) {
        forall seen | seen in Seen(mib, st) && Less(oid, seen) ensures Less(o, seen) {
          Trichotomy(seen, next.value);
          if Less(next.value, seen) {
            Transitive(o, next.value, seen);
          }
        }
      }
    }
  }

  /** vb is the next name after oid that v1 sees, with what its owner reports. */
  ghost predicate V1Nexts<S(!new)>(mib: Registered<S>, st: S, oid: Oid, vb: Varbind)
    requires WellFormed(mib)
  {
    LeastAbove(Seen(mib, st), oid, Some(vb.oid)) && Holds(mib, st, vb)
  }

  ghost predicate HasNext<S(!new)>(mib: Registered<S>, st: S, oid: Oid)
    requires WellFormed(mib)
  {
    exists vb :: V1Nexts(mib, st, oid, vb)
  }

  /** There is none, and the manager is told this number: nothing follows, its getter fails, or 64 Counter64 instances
      or more lie before it. */
  ghost predicate V1NoNext<S(!new)>(mib: Registered<S>, st: S, oid: Oid, status: int)
    requires WellFormed(mib)
  {
    if |HiddenAhead(mib, st, oid)| >= 64 then status == 5
    else if LeastAbove(Seen(mib, st), oid, None) then status == 2
    else exists next, why ::
           LeastAbove(Seen(mib, st), oid, Some(next)) && FailsWith(mib, st, next, why) && V1Number(why, status)
  }

  lemma V1NextExact<S(!new)>(mib: Registered<S>, st: S, oid: Oid)
    requires WellFormed(mib)
    ensures var o := Fetch(mib, st, V1, NextMatch, oid);
            && (o.Good? ==> V1Nexts(mib, st, oid, o.vb))
            && (o.Bad? ==> V1NoNext(mib, st, oid, V1Status(o.why)))
  {
    hide WellFormed, VisibleView, View, Skipped, Fetch, Holds, FailsWith, LeastAbove, Seen, HiddenAhead;
    SeenExact(mib, st);
    HiddenAheadExact(mib, st, oid);
    V1NextFetch(mib, st, oid);
    var o, next := Fetch(mib, st, V1, NextMatch, oid), Successor(VisibleView(mib, st), oid);
    if |Skipped(mib, st, oid)| <= 63 {
      if next.Some? {
        NotNone(VisibleView(mib, st), oid, next.value);
        VisibleIsInView(mib, st);
        assert next.value in View(mib, st) by { InLeast(VisibleView(mib, st), oid, next.value); }
        FetchExact(mib, st, next.value);
      }
      if o.Bad? {
        V1NumberExact(o.why);
      }
    }
  }

  lemma NotNone(view: set<Oid>, bound: Oid, n: Oid)
    requires LeastAbove(view, bound, Some(n))
    ensures !LeastAbove(view, bound, None)
  {
  }

  lemma InLeast(view: set<Oid>, bound: Oid, n: Oid)
    requires LeastAbove(view, bound, Some(n))
    ensures n in view
  {
  }

  /** The v1 lookup as a v2c read of the next visible name. */
  lemma V1NextFetch<S(!new)>(mib: Registered<S>, st: S, oid: Oid)
    requires WellFormed(mib)
    ensures var next := Successor(VisibleView(mib, st), oid);
            Fetch(mib, st, V1, NextMatch, oid) ==
            if |Skipped(mib, st, oid)| > 63 then Bad(GenErr)
            else if next.None? then Bad(EndOfView)
            else Fetch(mib, st, V2C, ExactMatch, next.value)
  {
    hide WellFormed, VisibleView, View, Skipped, LeastAbove, Mib.Resolve;
    V1NextIsVisibleSuccessor(mib, st, oid);
  }

  /** One v2c answer to a GETNEXT: the next name with what its owner reports, the exception that says why not under the
      name asked for, or that the view ends. */
  ghost predicate V2cNexts<S(!new)>(mib: Registered<S>, st: S, oid: Oid, vb: Varbind)
    requires WellFormed(mib)
  {
    if LeastAbove(View(mib, st), oid, None) then vb == Varbind(oid, Exception(EndOfMibViewValue))
    else exists next | LeastAbove(View(mib, st), oid, Some(next)) ::
           || (vb.oid == next && Holds(mib, st, vb))
           || (vb.oid == oid && exists why :: FailsWith(mib, st, next, why) && V2cException(why, vb.value))
  }

  ghost predicate V2cNextFails<S(!new)>(mib: Registered<S>, st: S, oid: Oid)
    requires WellFormed(mib)
  {
    exists next :: LeastAbove(View(mib, st), oid, Some(next)) && V2cFails(mib, st, next)
  }

  lemma V2cNextsExact<S(!new)>(mib: Registered<S>, st: S, oid: Oid, vb: Varbind)
    requires WellFormed(mib)
    ensures IsV2cAnswer(mib, st, NextMatch, oid, vb) ==> V2cNexts(mib, st, oid, vb)
    ensures GetterFails(mib, st, NextMatch, oid) ==> V2cNextFails(mib, st, oid)
  {
    hide WellFormed, View, Fetch, Holds, FailsWith, LeastAbove;
    var next := Successor(View(mib, st), oid);
    if next.Some? {
      NotNone(View(mib, st), oid, next.value);
      InLeast(View(mib, st), oid, next.value);
      FetchExact(mib, st, next.value);
      var o := Fetch(mib, st, V2C, ExactMatch, next.value);
      if o.Bad? && vb.value.Exception? {
        V2cExceptionExact(o.why, vb.value.exception);
      }
    }
  }

  /** The answer to a GETNEXT, by the same rules as for a GET. */
  ghost predicate IsNextReply<S(!new)>(mib: Registered<S>, st: S, version: Version, f: Fields, reply: Fields)
    requires WellFormed(mib)
  {
    var n, k := |f.varbinds|, reply.errorIndex - 1;
    Replies(f, reply) && |reply.varbinds| == n &&
    match version
    case V1 =>
      if reply.errorStatus == 0 then
        && reply.errorIndex == 0
        && forall i | 0 <= i < n :: V1Nexts(mib, st, f.varbinds[i].oid, reply.varbinds[i])
      else
        && reply.varbinds == f.varbinds && 0 <= k < n
        && V1NoNext(mib, st, f.varbinds[k].oid, reply.errorStatus)
        && forall i | 0 <= i < k :: HasNext(mib, st, f.varbinds[i].oid)
    case V2C =>
      if reply.errorStatus == 0 then
        && reply.errorIndex == 0
        && forall i | 0 <= i < n :: V2cNexts(mib, st, f.varbinds[i].oid, reply.varbinds[i])
      else
        && reply.errorStatus == 5 && 0 <= k < n && V2cNextFails(mib, st, f.varbinds[k].oid)
        && (forall i | 0 <= i < k :: V2cNexts(mib, st, f.varbinds[i].oid, reply.varbinds[i]))
        && forall i | k <= i < n :: reply.varbinds[i] == f.varbinds[i]
  }

  lemma NextReplyExact<S(!new)>(mib: Registered<S>, st: S, version: Version, f: Fields)
    requires WellFormed(mib) && |f.varbinds| <= MAX_VARBINDS
    ensures IsNextReply(mib, st, version, f, ReadReply(mib, st, version, NextMatch, f))
  {
    hide WellFormed, Fetch, V1Nexts, V1NoNext, V2cNexts, V2cNextFails, IsV2cAnswer, GetterFails, ReadReply;
    ReadReplyHead(mib, st, version, NextMatch, f);
    if version == V1 {
      forall i | 0 <= i < |f.varbinds|
        ensures var o := Fetch(mib, st, V1, NextMatch, f.varbinds[i].oid);
                && (o.Good? ==> V1Nexts(mib, st, f.varbinds[i].oid, o.vb))
                && (o.Good? ==> HasNext(mib, st, f.varbinds[i].oid))
                && (o.Bad? ==> V1NoNext(mib, st, f.varbinds[i].oid, V1Status(o.why)))
      {
        V1NextExact(mib, st, f.varbinds[i].oid);
      }
      V1AllOrNothing(mib, st, NextMatch, f);
      V1ErrorStatus(mib, st, NextMatch, f);
    } else {
      V2cPartialAnswer(mib, st, NextMatch, f);
      forall i, vb | 0 <= i < |f.varbinds| && IsV2cAnswer(mib, st, NextMatch, f.varbinds[i].oid, vb)
        ensures V2cNexts(mib, st, f.varbinds[i].oid, vb)
      {
        V2cNextsExact(mib, st, f.varbinds[i].oid, vb);
      }
      forall i | 0 <= i < |f.varbinds| && GetterFails(mib, st, NextMatch, f.varbinds[i].oid)
        ensures V2cNextFails(mib, st, f.varbinds[i].oid)
      {
        V2cNextsExact(mib, st, f.varbinds[i].oid, f.varbinds[i]);
      }
    }
  }

  // ---------------------------------------------------------------- from datagram to datagram

  /** What accounts for an answer: the rounds of a GETBULK, or the states a SET went through and how it ended. */
  datatype Account<S> = Account(rounds: nat, states: seq<S>, result: MibResult)

  /** reply is what request q deserves in state st, and after is what becomes of the state. */
  ghost predicate IsAnswer<S(!new)>(mib: Registered<S>, st: S, q: Request, after: S, reply: Fields, how: Account<S>)
    requires WellFormed(mib)
  {
    var f := q.pdu;
    || (f.tag == 0xA0 && after == st && IsGetReply(mib, st, q.version, f, reply))
    || (f.tag == 0xA1 && after == st && IsNextReply(mib, st, q.version, f, reply))
    || (f.tag == 0xA3 && q.access == ReadWrite && IsSetReply(mib, st, f, after, reply, how.states, how.result))
    || (f.tag == 0xA5 && q.version == V2C && after == st
        && Replies(f, reply) && reply.errorStatus == 0 && reply.errorIndex == 0
        && IsBulkReply(mib, st, f, reply.varbinds, how.rounds))
  }

  /** Every handler's reply is the answer its request deserves. */
  lemma DispatchExact<S(!new)>(mib: Registered<S>, st: S, q: Request) returns (how: Account<S>)
    requires WellFormed(mib) && |q.pdu.varbinds| <= MAX_VARBINDS
    ensures var h := Dispatch(mib, st, q.version, q.access, q.pdu);
            h.reply.Some? ==> IsAnswer(mib, st, q, h.st, h.reply.value, how)
  {
    hide WellFormed, IsGetReply, IsNextReply, IsSetReply, IsBulkReply, ReadReply, SetReply, BulkReply;
    GetReplyExact(mib, st, q.version, q.pdu);
    NextReplyExact(mib, st, q.version, q.pdu);
    var states, result := SetReplyExact(mib, st, q.pdu);
    var rounds := BulkGrid(mib, st, q.pdu);
    BulkReplyHead(mib, st, q.pdu);
    how := Account(rounds, states, result);
  }

  lemma BulkReplyHead<S(!new)>(mib: Registered<S>, st: S, f: Fields)
    requires WellFormed(mib)
    ensures var reply := BulkReply(mib, st, f); Replies(f, reply) && reply.errorStatus == 0 && reply.errorIndex == 0
  {
    hide WellFormed, Uncapped;
  }

  /** Every datagram sent is the encoding of the answer that the request in the datagram received deserves, in its
      version and under its community. */
  lemma ServedExact<S(!new)>(cfg: Config, mib: Registered<S>, st: S, msg: Bytes, cap: nat)
    returns (reply: Fields, how: Account<S>)
    requires WellFormed(mib) && Respond(cfg, mib, st, msg, cap).datagram.Some?
    ensures RequestIn(cfg, msg).Some?
    ensures var q, served := RequestIn(cfg, msg).value, Respond(cfg, mib, st, msg, cap);
            && EncMessage(q.version, q.community, reply) == served.datagram
            && IsAnswer(mib, st, q, served.st, reply, how)
  {
    hide WellFormed, RequestIn, Dispatch, EncMessage, IsAnswer;
    var q := RequestIn(cfg, msg).value;
    how := DispatchExact(mib, st, q);
    reply := Dispatch(mib, st, q.version, q.access, q.pdu).reply.value;
  }
}
