/** GetRequest and GetNextRequest: the lookup with the SNMPv1 rule for Counter64, and the in-place handler. */
module ReadPdu {
  import opened Types
  import opened Ber
  import opened Oids
  import opened Codec
  import opened PduCodec
  import opened Mib
  import opened Registry
  import opened Examples

  const SKIP_GUARD: nat := 64

  const NO_ERROR: int32 := 0
  const NO_SUCH_NAME: int32 := 2
  const BAD_VALUE: int32 := 3
  const READ_ONLY: int32 := 4
  const GEN_ERR: int32 := 5

  datatype Mode = ExactMatch | NextMatch

  // ---------------------------------------------------------------- error translation

  /** A PDU-level abort with a status, or for v2c an exception value for one varbind, or neither. */
  datatype Translation = Fine | Abort(status: int32) | Substitute(exception: ExceptionKind)

  function V1Status(result: MibResult): int32 {
    match result
    case MibOk => NO_ERROR
    case NoSuchObject => NO_SUCH_NAME
    case NoSuchInstance => NO_SUCH_NAME
    case EndOfView => NO_SUCH_NAME
    case WrongType => BAD_VALUE
    case WrongValue => BAD_VALUE
    case NotWritable => READ_ONLY
    case GenErr => GEN_ERR
  }

  function Translate(version: Version, result: MibResult): Translation {
    if result == MibOk then Fine
    else if version == V1 then Abort(V1Status(result))
    else match result
      case NoSuchObject => Substitute(NoSuchObjectValue)
      case NoSuchInstance => Substitute(NoSuchInstanceValue)
      case EndOfView => Substitute(EndOfMibViewValue)
      case _ => Abort(GEN_ERR)
  }

  // ---------------------------------------------------------------- one lookup

  /** A filled varbind, or why there is none. */
  datatype Outcome = Good(vb: Varbind) | Bad(why: MibResult)

  /** Successor lookup that passes over Counter64 instances, at most guard lookups in all. */
  ghost function NextSkipping<S(!new)>(mib: Registered<S>, st: S, bound: Oid, guard: nat): Lookup
    requires WellFormed(mib)
    decreases guard
  {
    if guard == 0 then NotFound(GenErr)
    else
      var r := Mib.ResolveNext(mib, st, bound);
      if r.Found? && r.r.tag == TAG_COUNTER64 then NextSkipping(mib, st, r.r.oid, guard - 1) else r
  }

  /** What a read request for oid addresses. Counter64 does not exist for v1. */
  ghost function Address<S(!new)>(mib: Registered<S>, st: S, version: Version, mode: Mode, oid: Oid): Lookup
    requires WellFormed(mib)
  {
    match mode
    case ExactMatch =>
      var r := Mib.Resolve(mib, st, oid);
      if version == V1 && r.Found? && r.r.tag == TAG_COUNTER64 then NotFound(NoSuchObject) else r
    case NextMatch =>
      if version == V1 then NextSkipping(mib, st, oid, SKIP_GUARD) else Mib.ResolveNext(mib, st, oid)
  }

  lemma {:induction false} NextSkippingTarget<S(!new)>(mib: Registered<S>, st: S, bound: Oid, guard: nat)
    requires WellFormed(mib)
    ensures var r := NextSkipping(mib, st, bound, guard);
            && (r.Found? ==> ValidTarget(mib, r.r.target) && r == Mib.Resolve(mib, st, r.r.oid))
            && (r.Found? ==> r.r.tag != TAG_COUNTER64)
            && (r.NotFound? ==> r.why != MibOk)
    decreases guard
  {
    hide WellFormed, Mib.Resolve, View;
    ResolveNextAgrees(mib, st, bound);
    var r := Mib.ResolveNext(mib, st, bound);
    if r.Found? {
      ResolveIsMembership(mib, st, r.r.oid);
      if guard > 0 {
        NextSkippingTarget(mib, st, r.r.oid, guard - 1);
      }
    }
  }

  lemma AddressTarget<S(!new)>(mib: Registered<S>, st: S, version: Version, mode: Mode, oid: Oid)
    requires WellFormed(mib)
    ensures var r := Address(mib, st, version, mode, oid);
            && (r.Found? ==> ValidTarget(mib, r.r.target) && r == Mib.Resolve(mib, st, r.r.oid))
            && (r.NotFound? ==> r.why != MibOk)
  {
    hide WellFormed, Mib.Resolve, View, NextSkipping;
    NoSuchInstanceExact(mib, st, oid);
    ResolveIsMembership(mib, st, oid);
    ResolveNextAgrees(mib, st, oid);
    NextSkippingTarget(mib, st, oid, SKIP_GUARD);
    var r := Mib.ResolveNext(mib, st, oid);
    if r.Found? {
      ResolveIsMembership(mib, st, r.r.oid);
    }
  }

  /** Reads the value of what was addressed, under its own name. */
  ghost function ReadAt<S(!new)>(mib: Registered<S>, st: S, r: Lookup): Outcome
    requires r.Found? ==> ValidTarget(mib, r.r.target)
  {
    if r.NotFound? then Bad(r.why)
    else
      var a := Mib.Get(mib, st, r.r.target);
      if a.result == MibOk then Good(Varbind(r.r.oid, a.value)) else Bad(a.result)
  }

  ghost function Fetch<S(!new)>(mib: Registered<S>, st: S, version: Version, mode: Mode, oid: Oid): (o: Outcome)
    requires WellFormed(mib)
    ensures o.Bad? ==> o.why != MibOk
  {
    AddressTarget(mib, st, version, mode, oid);
    ReadAt(mib, st, Address(mib, st, version, mode, oid))
  }

  /** Exact or successor lookup, by mode. */
  ghost function Looked<S(!new)>(mib: Registered<S>, st: S, mode: Mode, name: Oid): Lookup
    requires WellFormed(mib)
  {
    if mode == ExactMatch then Mib.Resolve(mib, st, name) else Mib.ResolveNext(mib, st, name)
  }

  /** Where the loop stands: it has come to current, and there are left lookups to go. Only v1 GETNEXT gets further than
      the first. */
  ghost predicate AtName<S(!new)>(mib: Registered<S>, st: S, version: Version, mode: Mode, oid: Oid, current: Oid,
                                  left: nat)
    requires WellFormed(mib)
  {
    if mode == NextMatch && version == V1 then
      NextSkipping(mib, st, oid, SKIP_GUARD) == NextSkipping(mib, st, current, left)
    else current == oid && left == SKIP_GUARD
  }

  lemma AtStart<S(!new)>(mib: Registered<S>, st: S, version: Version, mode: Mode, oid: Oid)
    requires WellFormed(mib)
    ensures AtName(mib, st, version, mode, oid, oid, SKIP_GUARD)
  {
  }

  lemma AtEnd<S(!new)>(mib: Registered<S>, st: S, version: Version, mode: Mode, oid: Oid, current: Oid)
    requires WellFormed(mib) && AtName(mib, st, version, mode, oid, current, 0)
    ensures Address(mib, st, version, mode, oid) == NotFound(GenErr)
  {
  }

  /** What one lookup of the loop means: it is the answer, or a Counter64 that v1 refuses or passes over. */
  lemma LookupStep<S(!new)>(mib: Registered<S>, st: S, version: Version, mode: Mode, oid: Oid, current: Oid, left: nat)
    requires WellFormed(mib) && left > 0 && AtName(mib, st, version, mode, oid, current, left)
    ensures var whole, r := Address(mib, st, version, mode, oid), Looked(mib, st, mode, current);
            if r.NotFound? || version != V1 || r.r.tag != TAG_COUNTER64 then whole == r
            else if mode == ExactMatch then whole == NotFound(NoSuchObject)
            else AtName(mib, st, version, mode, oid, r.r.oid, left - 1)
  {
    hide WellFormed, Mib.Resolve, Mib.ResolveNext;
  }

  /** What is addressed is read. */
  lemma AddressedIsRead<S(!new)>(mib: Registered<S>, st: S, version: Version, mode: Mode, oid: Oid)
    requires WellFormed(mib)
    ensures var r, o := Address(mib, st, version, mode, oid), Fetch(mib, st, version, mode, oid);
            && (r.NotFound? ==> o == Bad(r.why))
            && (r.Found? ==>
                  && ValidTarget(mib, r.r.target)
                  && var a := Mib.Get(mib, st, r.r.target);
                     o == if a.result == MibOk then Good(Varbind(r.r.oid, a.value)) else Bad(a.result))
  {
    hide WellFormed, Address, Mib.Get;
    AddressTarget(mib, st, version, mode, oid);
  }

  method LookUp<S(!new)>(reg: Registry<S>, mode: Mode, name: Oid) returns (r: Lookup)
    requires reg.Valid()
    ensures r == Looked(reg.Entries(), reg.state, mode, name)
  {
    hide Mib.Resolve, Mib.ResolveNext;
    if mode == ExactMatch {
      r := reg.Resolve(name);
    } else {
      r := reg.ResolveNext(name);
    }
  }

  /** lookup_and_fetch: the bounded skip loop. */
  method LookupAndFetch<S(!new)>(reg: Registry<S>, version: Version, mode: Mode, oid: Oid) returns (o: Outcome)
    requires reg.Valid()
    ensures o == Fetch(reg.Entries(), reg.state, version, mode, oid)
  {
    hide Mib.Resolve, Mib.ResolveNext, Mib.Get, Fetch, Address, NextSkipping, Looked, WellFormed;
    var addressed := FindAddressed(reg, version, mode, oid);
    AddressedIsRead(reg.Entries(), reg.state, version, mode, oid);
    if addressed.NotFound? {
      return Bad(addressed.why);
    }
    var a := reg.Get(addressed.r.target);
    return if a.result == MibOk then Good(Varbind(addressed.r.oid, a.value)) else Bad(a.result);
  }

  /** The loop up to what is to be read. */
  method FindAddressed<S(!new)>(reg: Registry<S>, version: Version, mode: Mode, oid: Oid) returns (r: Lookup)
    requires reg.Valid()
    ensures r == Address(reg.Entries(), reg.state, version, mode, oid)
  {
    hide AtName, Address, Looked, WellFormed;
    ghost var mib, st := reg.Entries(), reg.state;
    AtStart(mib, st, version, mode, oid);
    var current := oid;
    for guard := 0 to SKIP_GUARD
      invariant AtName(mib, st, version, mode, oid, current, SKIP_GUARD - guard)
    {
      r := LookUp(reg, mode, current);
      LookupStep(mib, st, version, mode, oid, current, SKIP_GUARD - guard);
      if r.NotFound? || version != V1 || r.r.tag != TAG_COUNTER64 {
        return;
      }
      if mode == ExactMatch {
        return NotFound(NoSuchObject);
      }
      current := r.r.oid;
    }
    AtEnd(mib, st, version, mode, oid, current);
    return NotFound(GenErr);
  }

  // ---------------------------------------------------------------- Counter64 is invisible to v1

  /** The view with every Counter64 instance taken out. */
  ghost function VisibleView<S(!new)>(mib: Registered<S>, st: S): set<Oid>
    requires WellFormed(mib)
  {
    set o | o in View(mib, st) && Mib.Resolve(mib, st, o).Found? && Mib.Resolve(mib, st, o).r.tag != TAG_COUNTER64
  }

  /** The Counter64 instances a v1 walk has to step over from bound: all those before the next visible name. */
  ghost function Skipped<S(!new)>(mib: Registered<S>, st: S, bound: Oid): set<Oid>
    requires WellFormed(mib)
  {
    var next := Successor(VisibleView(mib, st), bound);
    set o | o in View(mib, st) && o !in VisibleView(mib, st) && Less(bound, o) && (next.Some? ==> Less(o, next.value))
  }

  /** What section 4.2.2 of RFC 3584 asks for: the successor in the visible view. */
  ghost function NextVisible<S(!new)>(mib: Registered<S>, st: S, bound: Oid): Lookup
    requires WellFormed(mib)
  {
    var next := Successor(VisibleView(mib, st), bound);
    if next.Some? then Mib.Resolve(mib, st, next.value) else NotFound(EndOfView)
  }

  /** Stepping over one Counter64 instance leaves the next visible name and takes one off the skipped ones. */
  lemma SkipOne<S(!new)>(mib: Registered<S>, st: S, bound: Oid, hidden: Oid)
    requires WellFormed(mib)
    requires var r := Mib.ResolveNext(mib, st, bound); r.Found? && r.r.oid == hidden && r.r.tag == TAG_COUNTER64
    ensures NextVisible(mib, st, hidden) == NextVisible(mib, st, bound)
    ensures hidden in Skipped(mib, st, bound) && Skipped(mib, st, hidden) == Skipped(mib, st, bound) - {hidden}
  {
    hide WellFormed, Mib.Resolve;
    var visible := VisibleView(mib, st);
    var next := Successor(visible, hidden);
    ResolveNextAgrees(mib, st, bound);
    assert hidden !in visible;
    forall x | x in View(mib, st) ensures Less(bound, x) <==> x == hidden || Less(hidden, x) {
      Trichotomy(x, hidden);
      if Less(hidden, x) {
        Transitive(bound, hidden, x);
      }
    }
    assert LeastAbove(visible, bound, next);
    LeastIsUnique(visible, bound, next, Successor(visible, bound));
    Trichotomy(hidden, hidden);
  }

  lemma NothingSkipped<S(!new)>(mib: Registered<S>, st: S, bound: Oid)
    requires WellFormed(mib)
    requires var r := Mib.ResolveNext(mib, st, bound); r.NotFound? || r.r.tag != TAG_COUNTER64
    ensures Skipped(mib, st, bound) == {}
    ensures NextVisible(mib, st, bound) == Mib.ResolveNext(mib, st, bound)
  {
    var visible, r := VisibleView(mib, st), Mib.ResolveNext(mib, st, bound);
    ResolveNextAgrees(mib, st, bound);
    var name := if r.Found? then Some(r.r.oid) else None;
    if r.Found? {
      assert r.r.oid in visible;
    }
    assert LeastAbove(visible, bound, name);
    LeastIsUnique(visible, bound, name, Successor(visible, bound));
  }

  /** The bounded loop gives the successor in the visible view exactly when fewer than guard Counter64 instances lie
      before it; otherwise it gives up with genErr. */
  lemma {:induction false} NextSkippingExact<S(!new)>(mib: Registered<S>, st: S, bound: Oid, guard: nat)
    requires WellFormed(mib)
    ensures NextSkipping(mib, st, bound, guard) ==
            if |Skipped(mib, st, bound)| < guard then NextVisible(mib, st, bound) else NotFound(GenErr)
    decreases guard
  {
    hide VisibleView, Skipped, NextVisible, Mib.ResolveNext, WellFormed;
    if guard > 0 {
      var r := Mib.ResolveNext(mib, st, bound);
      if r.Found? && r.r.tag == TAG_COUNTER64 {
        SkipOne(mib, st, bound, r.r.oid);
        NextSkippingExact(mib, st, r.r.oid, guard - 1);
      } else {
        NothingSkipped(mib, st, bound);
      }
    }
  }

  /** A v1 GETNEXT sees the view without Counter64, as long as at most 63 consecutive Counter64 instances follow. */
  lemma V1NextIsVisibleSuccessor<S(!new)>(mib: Registered<S>, st: S, oid: Oid)
    requires WellFormed(mib)
    ensures Address(mib, st, V1, NextMatch, oid) == NextVisible(mib, st, oid) <==> |Skipped(mib, st, oid)| <= 63
    ensures |Skipped(mib, st, oid)| > 63 ==> Address(mib, st, V1, NextMatch, oid) == NotFound(GenErr)
    ensures var r := NextVisible(mib, st, oid);
            && LeastAbove(VisibleView(mib, st), oid, NameOf(r))
            && (r.NotFound? ==> r.why == EndOfView)
  {
    NextSkippingExact(mib, st, oid, SKIP_GUARD);
    var next := Successor(VisibleView(mib, st), oid);
    if next.Some? {
      ResolveIsMembership(mib, st, next.value);
    }
  }

  /** n Counter64 scalars in a row, then an INTEGER. */
  function CounterRun(n: nat): seq<Object<int>>
    requires n + 1 < SIZE_LIMIT
  {
    seq(n + 1, i requires 0 <= i < n + 1 =>
      if i < n then Object(ScalarName(i), TAG_COUNTER64, RO, (st: int) => Answer(MibOk, Counter64(0)), None)
      else Object(ScalarName(i), TAG_INTEGER, RO, (st: int) => Answer(MibOk, Integer(0)), None))
  }

  lemma {:induction false} CounterRunSkips(n: nat, k: nat, guard: nat)
    requires n + 1 < SIZE_LIMIT && k <= n
    ensures WellFormed(OneModule(CounterRun(n)))
    ensures var bound := if k == 0 then [1, 3] else ScalarName(k - 1);
            NextSkipping(OneModule(CounterRun(n)), 0, bound, guard) ==
            if n - k < guard then Found(ScalarResolved(CounterRun(n)[n], ScalarAt(0, n))) else NotFound(GenErr)
    decreases guard
  {
    hide Mib.ResolveNext, WellFormed;
    NumberedNext(CounterRun(n), 0, if k == 0 then [1, 3] else ScalarName(k - 1), k);
    if guard > 0 && k < n {
      CounterRunSkips(n, k + 1, guard - 1);
    }
  }

  /** The guard can be exhausted: behind 64 Counter64 instances a v1 GETNEXT is genErr although a visible name follows,
      behind any smaller number it finds that name. */
  lemma GuardExhausted(n: nat)
    requires n + 1 < SIZE_LIMIT
    ensures var objs := CounterRun(n);
            && WellFormed(OneModule(objs))
            && Address(OneModule(objs), 0, V1, NextMatch, [1, 3]) ==
               if n < 64 then Found(ScalarResolved(objs[n], ScalarAt(0, n))) else NotFound(GenErr)
  {
    CounterRunSkips(n, 0, SKIP_GUARD);
  }

  // ---------------------------------------------------------------- the whole PDU

  ghost function Outcomes<S(!new)>(mib: Registered<S>, st: S, version: Version, mode: Mode, vbs: seq<Varbind>)
    : (os: seq<Outcome>)
    requires WellFormed(mib)
    ensures |os| == |vbs|
  {
    seq(|vbs|, i requires 0 <= i < |vbs| => Fetch(mib, st, version, mode, vbs[i].oid))
  }

  predicate Aborts(version: Version, o: Outcome) {
    o.Bad? && Translate(version, o.why).Abort?
  }

  /** The first outcome that aborts the PDU, or the number of outcomes. */
  function FirstAbort(version: Version, os: seq<Outcome>): (k: nat)
    ensures k <= |os|
    ensures forall i | 0 <= i < k :: !Aborts(version, os[i])
    ensures k < |os| ==> Aborts(version, os[k])
  {
    if os == [] || Aborts(version, os[0]) then 0 else 1 + FirstAbort(version, os[1..])
  }

  /** One answered varbind; an exception keeps the name that was asked for. */
  function Answered(version: Version, request: Varbind, o: Outcome): Varbind {
    match o
    case Good(vb) => vb
    case Bad(why) =>
      var tr := Translate(version, why);
      if tr.Substitute? then Varbind(request.oid, Exception(tr.exception)) else request
  }

  /** The reply to f, given the outcome of every lookup. In v1 an abort leaves every varbind as requested; in v2c the
      ones before it are already answered. */
  function ReplyOf(version: Version, f: Fields, os: seq<Outcome>): Fields
    requires |os| == |f.varbinds| <= MAX_VARBINDS
  {
    var k := FirstAbort(version, os);
    if k < |os| then
      var answered := if version == V1 then 0 else k;
      Fields(PDU_RESPONSE, f.requestId, Translate(version, os[k].why).status, k + 1,
             AnsweredUpTo(version, f.varbinds, os, answered))
    else
      Fields(PDU_RESPONSE, f.requestId, NO_ERROR, 0, AnsweredUpTo(version, f.varbinds, os, k))
  }

  function AnsweredUpTo(version: Version, vbs: seq<Varbind>, os: seq<Outcome>, k: nat): (r: seq<Varbind>)
    requires k <= |os| == |vbs|
    ensures |r| == |vbs|
    ensures forall i | 0 <= i < k :: r[i] == Answered(version, vbs[i], os[i])
    ensures forall i | k <= i < |r| :: r[i] == vbs[i]
  {
    seq(|os|, i requires 0 <= i < |os| => if i < k then Answered(version, vbs[i], os[i]) else vbs[i])
  }

  ghost function ReadReply<S(!new)>(mib: Registered<S>, st: S, version: Version, mode: Mode, f: Fields): Fields
    requires WellFormed(mib) && |f.varbinds| <= MAX_VARBINDS
  {
    ReplyOf(version, f, Outcomes(mib, st, version, mode, f.varbinds))
  }

  lemma {:induction false} FirstAbortIs(version: Version, os: seq<Outcome>, k: nat)
    requires k <= |os| && (forall i | 0 <= i < k :: !Aborts(version, os[i]))
    requires k < |os| ==> Aborts(version, os[k])
    ensures FirstAbort(version, os) == k
  {
    if k > 0 {
      FirstAbortIs(version, os[1..], k - 1);
    }
  }

  /** What a handler leaves alone. */
  twostate predicate KeepsEnvelope(ctx: PduCtx)
    reads ctx
  {
    && ctx.version == old(ctx.version) && ctx.requestId == old(ctx.requestId)
    && ctx.accessMode == old(ctx.accessMode) && ctx.principal == old(ctx.principal)
  }

  /** process_read_pdu. */
  method ProcessRead<S(!new)>(ctx: PduCtx, reg: Registry<S>, mode: Mode)
    requires ctx.Valid() && reg.Valid()
    modifies ctx, ctx.varbinds
    ensures ctx.Valid() && KeepsEnvelope(ctx)
    ensures ctx.Pdu() == ReadReply(reg.Entries(), reg.state, old(ctx.version), mode, old(ctx.Pdu()))
  {
    if ctx.version == V1 {
      ProcessReadV1(ctx, reg, mode);
    } else {
      ProcessReadV2c(ctx, reg, mode);
    }
  }

  /** Pass 1 probes every varbind and stops at the first failure; pass 2 overwrites each varbind with its lookup. */
  method ProcessReadV1<S(!new)>(ctx: PduCtx, reg: Registry<S>, mode: Mode)
    requires ctx.Valid() && reg.Valid() && ctx.version == V1
    modifies ctx, ctx.varbinds
    ensures ctx.Valid() && KeepsEnvelope(ctx)
    ensures ctx.Pdu() == ReadReply(reg.Entries(), reg.state, V1, mode, old(ctx.Pdu()))
  {
    hide Fetch, WellFormed, FirstAbort, AnsweredUpTo;
    ghost var vbs := ctx.Varbinds();
    ghost var os := Outcomes(reg.Entries(), reg.state, V1, mode, vbs);
    var n := ctx.varbindCount;
    for i := 0 to n
      invariant ctx.Valid() && KeepsEnvelope(ctx) && ctx.Pdu() == old(ctx.Pdu())
      invariant forall j | 0 <= j < i :: !Aborts(V1, os[j])
    {
      assert ctx.varbinds[i] == vbs[i];
      var o := LookupAndFetch(reg, V1, mode, ctx.varbinds[i].oid);
      if o.Bad? && Translate(V1, o.why).Abort? {
        FirstAbortIs(V1, os, i);
        ctx.pduTag := PDU_RESPONSE;
        ctx.errorStatus := Translate(V1, o.why).status;
        ctx.errorIndex := i + 1;
        assert ctx.Varbinds() == AnsweredUpTo(V1, vbs, os, 0);
        return;
      }
    }
    FirstAbortIs(V1, os, n);
    forall i | 0 <= i < n
      ensures Fetch(reg.Entries(), reg.state, V1, mode, ctx.varbinds[i].oid) == os[i] && os[i].Good?
    {
      assert ctx.varbinds[i] == ctx.Varbinds()[i] == vbs[i];
      assert !Aborts(V1, os[i]);
    }
    CommitReads(ctx, reg, mode);
    assert forall i | 0 <= i < n :: !Aborts(V1, os[i]) && ctx.varbinds[i] == Answered(V1, vbs[i], os[i]);
    assert ctx.Varbinds() == AnsweredUpTo(V1, vbs, os, n);
    ctx.pduTag := PDU_RESPONSE;
    ctx.errorStatus := NO_ERROR;
    ctx.errorIndex := 0;
  }

  /** Pass 2: each varbind is read from the array and overwritten there. */
  method CommitReads<S(!new)>(ctx: PduCtx, reg: Registry<S>, mode: Mode)
    requires ctx.Valid() && reg.Valid()
    requires forall i | 0 <= i < ctx.varbindCount ::
               Fetch(reg.Entries(), reg.state, V1, mode, ctx.varbinds[i].oid).Good?
    modifies ctx.varbinds
    ensures forall i | 0 <= i < ctx.varbindCount ::
              Fetch(reg.Entries(), reg.state, V1, mode, old(ctx.varbinds[i]).oid) == Good(ctx.varbinds[i])
  {
    hide Fetch, WellFormed;
    ghost var vbs := ctx.Varbinds();
    for i := 0 to ctx.varbindCount
      invariant forall j | 0 <= j < i :: Fetch(reg.Entries(), reg.state, V1, mode, vbs[j].oid) == Good(ctx.varbinds[j])
      invariant forall j | i <= j < ctx.varbindCount :: ctx.varbinds[j] == vbs[j]
    {
      var o := LookupAndFetch(reg, V1, mode, ctx.varbinds[i].oid);
      ctx.varbinds[i] := o.vb;
    }
    assert forall i | 0 <= i < ctx.varbindCount :: vbs[i] == old(ctx.varbinds[i]);
  }

  /** A single pass that overwrites as it goes; only a failing getter stops it. */
  method ProcessReadV2c<S(!new)>(ctx: PduCtx, reg: Registry<S>, mode: Mode)
    requires ctx.Valid() && reg.Valid() && ctx.version == V2C
    modifies ctx, ctx.varbinds
    ensures ctx.Valid() && KeepsEnvelope(ctx)
    ensures ctx.Pdu() == ReadReply(reg.Entries(), reg.state, V2C, mode, old(ctx.Pdu()))
  {
    hide Fetch, WellFormed, FirstAbort, AnsweredUpTo;
    ghost var vbs := ctx.Varbinds();
    ghost var os := Outcomes(reg.Entries(), reg.state, V2C, mode, vbs);
    var n := ctx.varbindCount;
    for i := 0 to n
      invariant ctx.Valid() && KeepsEnvelope(ctx) && ctx.varbindCount == n
      invariant forall j | 0 <= j < i :: !Aborts(V2C, os[j])
      invariant ctx.Varbinds() == AnsweredUpTo(V2C, vbs, os, i)
    {
      assert ctx.varbinds[i] == ctx.Varbinds()[i] == vbs[i];
      var o := LookupAndFetch(reg, V2C, mode, ctx.varbinds[i].oid);
      assert o == os[i];
      if o.Good? {
        ctx.varbinds[i] := o.vb;
      } else {
        var tr := Translate(V2C, o.why);
        if tr.Abort? {
          FirstAbortIs(V2C, os, i);
          ctx.pduTag := PDU_RESPONSE;
          ctx.errorStatus := tr.status;
          ctx.errorIndex := i + 1;
          return;
        }
        ctx.varbinds[i] := ctx.varbinds[i].(value := Exception(tr.exception));
      }
      AnswerOne(V2C, vbs, os, i, ctx.Varbinds());
    }
    FirstAbortIs(V2C, os, n);
    ctx.pduTag := PDU_RESPONSE;
    ctx.errorStatus := NO_ERROR;
    ctx.errorIndex := 0;
  }

  lemma AnswerOne(version: Version, vbs: seq<Varbind>, os: seq<Outcome>, i: nat, after: seq<Varbind>)
    requires i < |os| == |vbs|
    requires after == AnsweredUpTo(version, vbs, os, i)[i := Answered(version, vbs[i], os[i])]
    ensures after == AnsweredUpTo(version, vbs, os, i + 1)
  {
  }

  /** v1 is all or nothing: either the request comes back with the index of the first varbind that cannot be read, or
      every varbind is the lookup of what was asked for, although request and reply share one array. */
  lemma V1AllOrNothing<S(!new)>(mib: Registered<S>, st: S, mode: Mode, f: Fields)
    requires WellFormed(mib) && |f.varbinds| <= MAX_VARBINDS
    ensures var reply := ReadReply(mib, st, V1, mode, f);
            && |reply.varbinds| == |f.varbinds|
            && (reply.errorStatus == NO_ERROR ==>
                  && reply.errorIndex == 0
                  && forall i | 0 <= i < |f.varbinds| ::
                       Fetch(mib, st, V1, mode, f.varbinds[i].oid) == Good(reply.varbinds[i]))
            && (reply.errorStatus != NO_ERROR ==>
                  && reply.varbinds == f.varbinds
                  && 1 <= reply.errorIndex <= |f.varbinds|
                  && Fetch(mib, st, V1, mode, f.varbinds[reply.errorIndex - 1].oid).Bad?
                  && forall i | 0 <= i < reply.errorIndex - 1 :: Fetch(mib, st, V1, mode, f.varbinds[i].oid).Good?)
  {
    hide Fetch, WellFormed;
    var os := Outcomes(mib, st, V1, mode, f.varbinds);
    var reply := ReadReply(mib, st, V1, mode, f);
    assert forall i | 0 <= i < |os| ::
        os[i] == Fetch(mib, st, V1, mode, f.varbinds[i].oid) && (os[i].Bad? ==> os[i].why != MibOk);
    V1ReplyShape(f, os);
  }

  lemma V1ReplyShape(f: Fields, os: seq<Outcome>)
    requires |os| == |f.varbinds| <= MAX_VARBINDS
    requires forall i | 0 <= i < |os| :: os[i].Bad? ==> os[i].why != MibOk
    ensures var reply := ReplyOf(V1, f, os);
            && |reply.varbinds| == |f.varbinds|
            && (reply.errorStatus == NO_ERROR ==>
                  reply.errorIndex == 0 && forall i | 0 <= i < |os| :: os[i] == Good(reply.varbinds[i]))
            && (reply.errorStatus != NO_ERROR ==>
                  && reply.varbinds == f.varbinds && 1 <= reply.errorIndex <= |os|
                  && os[reply.errorIndex - 1].Bad?
                  && forall i | 0 <= i < reply.errorIndex - 1 :: os[i].Good?)
  {
    var k := FirstAbort(V1, os);
    assert forall i | 0 <= i < k :: !Aborts(V1, os[i]) && os[i].Good?;
  }

  // ---------------------------------------------------------------- v2c, in terms of the view

  /** The name a v2c read request for oid is about, if the view has it. */
  ghost function Addressed<S(!new)>(mib: Registered<S>, st: S, mode: Mode, oid: Oid): Option<Oid>
    requires WellFormed(mib)
  {
    match mode
    case ExactMatch => if oid in View(mib, st) then Some(oid) else None
    case NextMatch => Successor(View(mib, st), oid)
  }

  /** What is answered when the view does not have it. */
  ghost function Missing<S(!new)>(mib: Registered<S>, mode: Mode, oid: Oid): ExceptionKind {
    match mode
    case ExactMatch =>
      if exists t | 0 <= t < |mib.tables| :: CellShaped(mib.tables[t], oid) then NoSuchInstanceValue
      else NoSuchObjectValue
    case NextMatch => EndOfMibViewValue
  }

  /** GETNEXT of a name is GET of its successor, and a successful GET keeps the name. */
  lemma V2cFetchMeans<S(!new)>(mib: Registered<S>, st: S, mode: Mode, oid: Oid)
    requires WellFormed(mib)
    ensures var o, a := Fetch(mib, st, V2C, mode, oid), Addressed(mib, st, mode, oid);
            && (a.Some? ==> a.value in View(mib, st) && o == Fetch(mib, st, V2C, ExactMatch, a.value))
            && (a.Some? && o.Good? ==> o.vb.oid == a.value)
            && (a.None? ==> o.Bad? && Translate(V2C, o.why) == Substitute(Missing(mib, mode, oid)))
  {
    hide WellFormed, View, Mib.Resolve;
    ResolveIsMembership(mib, st, oid);
    NoSuchInstanceExact(mib, st, oid);
    ResolveNextAgrees(mib, st, oid);
    var a := Addressed(mib, st, mode, oid);
    if a.Some? {
      ResolveIsMembership(mib, st, a.value);
    }
  }

  /** Results that v2c has no exception value for. */
  predicate Fatal(why: MibResult) {
    why == WrongType || why == WrongValue || why == NotWritable || why == GenErr
  }

  /** The request is about a name whose getter fails outright. */
  ghost predicate GetterFails<S(!new)>(mib: Registered<S>, st: S, mode: Mode, oid: Oid)
    requires WellFormed(mib)
  {
    var a := Addressed(mib, st, mode, oid);
    a.Some? && var o := Fetch(mib, st, V2C, ExactMatch, a.value); o.Bad? && Fatal(o.why)
  }

  /** vb answers a v2c request for oid, as sections 4.2.1 and 4.2.2 of RFC 3416 have it: the name in the view with its
      value, or an exception under the name asked for. */
  ghost predicate IsV2cAnswer<S(!new)>(mib: Registered<S>, st: S, mode: Mode, oid: Oid, vb: Varbind)
    requires WellFormed(mib)
  {
    var a := Addressed(mib, st, mode, oid);
    if a.None? then vb == Varbind(oid, Exception(Missing(mib, mode, oid)))
    else
      var o := Fetch(mib, st, V2C, ExactMatch, a.value);
      if o.Good? then o.vb == vb && vb.oid == a.value
      else vb.oid == oid && vb.value.Exception? && Translate(V2C, o.why) == Substitute(vb.value.exception)
  }

  lemma V2cAnswerOne<S(!new)>(mib: Registered<S>, st: S, mode: Mode, request: Varbind)
    requires WellFormed(mib)
    ensures var o := Fetch(mib, st, V2C, mode, request.oid);
            && (Aborts(V2C, o) <==> GetterFails(mib, st, mode, request.oid))
            && (Aborts(V2C, o) ==> Translate(V2C, o.why).status == GEN_ERR)
            && (!Aborts(V2C, o) ==> IsV2cAnswer(mib, st, mode, request.oid, Answered(V2C, request, o)))
  {
    hide WellFormed, Fetch, Addressed, Missing;
    V2cFetchMeans(mib, st, mode, request.oid);
  }

  /** v2c answers varbind by varbind, and the reply is a success exactly when no getter that the request needs fails.
      Otherwise it is genErr for the first such varbind; those before it are answered all the same, it and the later
      ones stay as requested. */
  lemma V2cPartialAnswer<S(!new)>(mib: Registered<S>, st: S, mode: Mode, f: Fields)
    requires WellFormed(mib) && |f.varbinds| <= MAX_VARBINDS
    ensures var reply, n := ReadReply(mib, st, V2C, mode, f), |f.varbinds|;
            var k := if reply.errorStatus == NO_ERROR then n else reply.errorIndex - 1;
            && |reply.varbinds| == n && 0 <= k <= n
            && (reply.errorStatus == NO_ERROR <==>
                forall i | 0 <= i < n :: !GetterFails(mib, st, mode, f.varbinds[i].oid))
            && (reply.errorStatus == NO_ERROR || reply.errorStatus == GEN_ERR)
            && (k < n ==> GetterFails(mib, st, mode, f.varbinds[k].oid))
            && (forall i | 0 <= i < k ::
                  && !GetterFails(mib, st, mode, f.varbinds[i].oid)
                  && IsV2cAnswer(mib, st, mode, f.varbinds[i].oid, reply.varbinds[i]))
            && (forall i | k <= i < n :: reply.varbinds[i] == f.varbinds[i])
  {
    hide WellFormed, Fetch, GetterFails, IsV2cAnswer;
    var os := Outcomes(mib, st, V2C, mode, f.varbinds);
    forall i | 0 <= i < |f.varbinds|
      ensures Aborts(V2C, os[i]) <==> GetterFails(mib, st, mode, f.varbinds[i].oid)
      ensures Aborts(V2C, os[i]) ==> Translate(V2C, os[i].why).status == GEN_ERR
      ensures !Aborts(V2C, os[i]) ==>
                IsV2cAnswer(mib, st, mode, f.varbinds[i].oid, Answered(V2C, f.varbinds[i], os[i]))
    {
      V2cAnswerOne(mib, st, mode, f.varbinds[i]);
    }
  }

  /** Does an error reply echo the request, as it does in v1? If the first varbind came with NULL, as managers send it,
      and its name does not read as NULL, exactly when it is the getter of the first varbind that fails. */
  lemma V2cEchoExact<S(!new)>(mib: Registered<S>, st: S, mode: Mode, f: Fields)
    requires WellFormed(mib) && 1 <= |f.varbinds| <= MAX_VARBINDS
    requires f.varbinds[0].value == Null
    requires var o := Fetch(mib, st, V2C, mode, f.varbinds[0].oid); o.Good? ==> o.vb.value != Null
    requires ReadReply(mib, st, V2C, mode, f).errorStatus != NO_ERROR
    ensures ReadReply(mib, st, V2C, mode, f).varbinds == f.varbinds <==> GetterFails(mib, st, mode, f.varbinds[0].oid)
  {
    hide WellFormed, ReadReply, Fetch, Addressed;
    V2cPartialAnswer(mib, st, mode, f);
    V2cFetchMeans(mib, st, mode, f.varbinds[0].oid);
  }

  /** 1.3.0 reads as 7, 1.3.1 cannot be read, 1.3.2 reads as 9. */
  function FaultyScalars(): seq<Object<int>> {
    [Object(ScalarName(0), TAG_INTEGER, RO, (st: int) => Answer(MibOk, Integer(7)), None),
     Object(ScalarName(1), TAG_INTEGER, RO, (st: int) => Answer(GenErr, Null), None),
     Object(ScalarName(2), TAG_INTEGER, RO, (st: int) => Answer(MibOk, Integer(9)), None)]
  }

  lemma NumberedFetch<S(!new)>(objs: seq<Object<S>>, st: S, bound: Oid, k: uint32)
    requires Numbered(objs) && k < |objs| && bound == if k == 0 then [1, 3] else ScalarName(k - 1)
    ensures WellFormed(OneModule(objs))
    ensures var a := objs[k].getter(st);
            var o := if a.result == MibOk then Good(Varbind(ScalarName(k), a.value)) else Bad(a.result);
            && Fetch(OneModule(objs), st, V2C, ExactMatch, ScalarName(k)) == o
            && Fetch(OneModule(objs), st, V2C, NextMatch, bound) == o
  {
    NumberedLookup(objs, st, k);
    NumberedNext(objs, st, bound, k);
    hide WellFormed, Mib.Resolve, Mib.ResolveNext;
  }

  lemma GoodThenFatal<S(!new)>(mib: Registered<S>, st: S, id: int32, a: Varbind, b: Varbind, vb: Varbind)
    requires WellFormed(mib)
    requires Fetch(mib, st, V2C, ExactMatch, a.oid) == Good(vb) && Fetch(mib, st, V2C, ExactMatch, b.oid) == Bad(GenErr)
    ensures ReadReply(mib, st, V2C, ExactMatch, Fields(PDU_GET, id, 0, 0, [a, b])) ==
            Fields(PDU_RESPONSE, id, GEN_ERR, 2, [vb, b])
  {
    hide Fetch, WellFormed, FirstAbort;
    var os := Outcomes(mib, st, V2C, ExactMatch, [a, b]);
    assert os[0] == Good(vb) && os[1] == Bad(GenErr);
    FirstAbortIs(V2C, os, 1);
  }

  /** An error reply that does not echo the request: a GET of 1.3.0 and 1.3.1 comes back with genErr for the second
      varbind and the first one answered. */
  lemma HalfAnswered()
    ensures WellFormed(OneModule(FaultyScalars()))
    ensures var f := Fields(PDU_GET, 7, 0, 0, [Varbind(ScalarName(0), Null), Varbind(ScalarName(1), Null)]);
            ReadReply(OneModule(FaultyScalars()), 0, V2C, ExactMatch, f) ==
            Fields(PDU_RESPONSE, 7, GEN_ERR, 2, [Varbind(ScalarName(0), Integer(7)), Varbind(ScalarName(1), Null)])
  {
    var mib, a, b := OneModule(FaultyScalars()), Varbind(ScalarName(0), Null), Varbind(ScalarName(1), Null);
    hide Fetch, WellFormed, OneModule, ReadReply;
    NumberedFetch(FaultyScalars(), 0, [1, 3], 0);
    NumberedFetch(FaultyScalars(), 0, ScalarName(0), 1);
    GoodThenFatal(mib, 0, 7, a, b, Varbind(ScalarName(0), Integer(7)));
  }

  // ---------------------------------------------------------------- GETNEXT replies as steps of a walk

  /** The name, if there is one, is not reported missing, and its value is not an exception. Its getter may fail. */
  ghost predicate Honest<S(!new)>(mib: Registered<S>, st: S, name: Option<Oid>)
    requires WellFormed(mib)
  {
    name.Some? ==>
      var o := Fetch(mib, st, V2C, ExactMatch, name.value);
      if o.Good? then !o.vb.value.Exception? else Fatal(o.why)
  }

  /** What a v2c GETNEXT that is not an error says about each name asked for: an answer under another name is one step
      of a walk, and if the next name is honest there is one unless the view ends, which is when the answer is
      endOfMibView. */
  lemma V2cNextReply<S(!new)>(mib: Registered<S>, st: S, f: Fields, i: nat)
    requires WellFormed(mib) && i < |f.varbinds| <= MAX_VARBINDS
    requires ReadReply(mib, st, V2C, NextMatch, f).errorStatus == NO_ERROR
    ensures |ReadReply(mib, st, V2C, NextMatch, f).varbinds| == |f.varbinds|
    ensures var oid, vb := f.varbinds[i].oid, ReadReply(mib, st, V2C, NextMatch, f).varbinds[i];
            && (vb.oid == oid ==> vb.value.Exception?)
            && (vb.oid != oid ==> LeastAbove(View(mib, st), oid, Some(vb.oid)))
            && (LeastAbove(View(mib, st), oid, None) ==> vb == Varbind(oid, Exception(EndOfMibViewValue)))
            && (Honest(mib, st, Successor(View(mib, st), oid)) ==>
                  && (vb.oid == oid <==> LeastAbove(View(mib, st), oid, None))
                  && (vb.value.Exception? <==> vb.oid == oid))
  {
    hide WellFormed, ReadReply, Fetch, View, Less;
    var oid := f.varbinds[i].oid;
    var next := Successor(View(mib, st), oid);
    V2cPartialAnswer(mib, st, NextMatch, f);
    V2cFetchMeans(mib, st, NextMatch, oid);
    Trichotomy(oid, oid);
  }

  /** Every name a successful v1 GETNEXT reports is the least visible one above the name asked for. If the next visible
      name is honest, noSuchName means that there is none. */
  lemma V1NextReply<S(!new)>(mib: Registered<S>, st: S, f: Fields, i: nat)
    requires WellFormed(mib) && |f.varbinds| <= MAX_VARBINDS && i < |f.varbinds|
    ensures var reply := ReadReply(mib, st, V1, NextMatch, f);
            && |reply.varbinds| == |f.varbinds|
            && (reply.errorStatus == NO_ERROR ==>
                  LeastAbove(VisibleView(mib, st), f.varbinds[i].oid, Some(reply.varbinds[i].oid)))
            && (Honest(mib, st, Successor(VisibleView(mib, st), f.varbinds[i].oid)) ==>
                  reply.errorStatus == NO_SUCH_NAME && reply.errorIndex == i + 1 ==>
                    LeastAbove(VisibleView(mib, st), f.varbinds[i].oid, None))
  {
    hide WellFormed, VisibleView, ReadReply, LeastAbove, View, Fetch, Honest;
    V1AllOrNothing(mib, st, NextMatch, f);
    V1ErrorStatus(mib, st, NextMatch, f);
    V1NextOutcome(mib, st, f.varbinds[i].oid);
  }

  /** What one v1 GETNEXT lookup says about the visible view. */
  lemma V1NextOutcome<S(!new)>(mib: Registered<S>, st: S, oid: Oid)
    requires WellFormed(mib)
    ensures var o := Fetch(mib, st, V1, NextMatch, oid);
            && (o.Good? ==> LeastAbove(VisibleView(mib, st), oid, Some(o.vb.oid)))
            && (Honest(mib, st, Successor(VisibleView(mib, st), oid)) && o.Bad? && V1Status(o.why) == NO_SUCH_NAME ==>
                  LeastAbove(VisibleView(mib, st), oid, None))
  {
    hide WellFormed, VisibleView, LeastAbove, NextVisible, Skipped, View, Mib.Resolve;
    V1NextIsVisibleSuccessor(mib, st, oid);
    AddressTarget(mib, st, V1, NextMatch, oid);
    var r := Address(mib, st, V1, NextMatch, oid);
    if r.Found? {
      ResolveIsMembership(mib, st, r.r.oid);
      LeastIsUnique(VisibleView(mib, st), oid, Some(r.r.oid), Successor(VisibleView(mib, st), oid));
      assert Fetch(mib, st, V2C, ExactMatch, r.r.oid) == Fetch(mib, st, V1, NextMatch, oid);
    }
  }

  /** And it is the answer there, provided the varbinds before can be read and the loop gets that far. */
  lemma V1NextAtEnd<S(!new)>(mib: Registered<S>, st: S, f: Fields, i: nat)
    requires WellFormed(mib) && |f.varbinds| <= MAX_VARBINDS && i < |f.varbinds|
    requires LeastAbove(VisibleView(mib, st), f.varbinds[i].oid, None) && |Skipped(mib, st, f.varbinds[i].oid)| <= 63
    requires forall j | 0 <= j < i :: Fetch(mib, st, V1, NextMatch, f.varbinds[j].oid).Good?
    ensures ReadReply(mib, st, V1, NextMatch, f) == Fields(PDU_RESPONSE, f.requestId, NO_SUCH_NAME, i + 1, f.varbinds)
  {
    hide WellFormed, VisibleView, Skipped, View, Less;
    var oid := f.varbinds[i].oid;
    V1NextIsVisibleSuccessor(mib, st, oid);
    LeastIsUnique(VisibleView(mib, st), oid, None, NameOf(NextVisible(mib, st, oid)));
    assert Fetch(mib, st, V1, NextMatch, oid) == Bad(EndOfView);
    V1FailsAt(mib, st, NextMatch, f, i);
  }

  /** The status of a v1 error is that of the first lookup that fails. */
  lemma V1ErrorStatus<S(!new)>(mib: Registered<S>, st: S, mode: Mode, f: Fields)
    requires WellFormed(mib) && |f.varbinds| <= MAX_VARBINDS
    ensures var reply := ReadReply(mib, st, V1, mode, f);
            reply.errorStatus != NO_ERROR ==>
              && 1 <= reply.errorIndex <= |f.varbinds|
              && var o := Fetch(mib, st, V1, mode, f.varbinds[reply.errorIndex - 1].oid);
                 o.Bad? && reply.errorStatus == V1Status(o.why)
  {
    hide WellFormed, Fetch;
  }

  /** When varbind i is the first that cannot be read, the reply is the request with its status and index. */
  lemma V1FailsAt<S(!new)>(mib: Registered<S>, st: S, mode: Mode, f: Fields, i: nat)
    requires WellFormed(mib) && |f.varbinds| <= MAX_VARBINDS && i < |f.varbinds|
    requires Fetch(mib, st, V1, mode, f.varbinds[i].oid).Bad?
    requires forall j | 0 <= j < i :: Fetch(mib, st, V1, mode, f.varbinds[j].oid).Good?
    ensures var why := Fetch(mib, st, V1, mode, f.varbinds[i].oid).why;
            ReadReply(mib, st, V1, mode, f) == Fields(PDU_RESPONSE, f.requestId, V1Status(why), i + 1, f.varbinds)
  {
    hide WellFormed, Fetch;
    var os := Outcomes(mib, st, V1, mode, f.varbinds);
    assert forall j | 0 <= j < i :: os[j].Good?;
    assert os[i] == Fetch(mib, st, V1, mode, f.varbinds[i].oid) && os[i].why != MibOk;
    FirstAbortIs(V1, os, i);
    assert AnsweredUpTo(V1, f.varbinds, os, 0) == f.varbinds;
  }

  /** A v1 GET of a Counter64, at any place in the request, is an error that echoes the request: noSuchName for that
      varbind if those before it can be read, else an error for one of those. */
  lemma V1GetOfCounter64<S(!new)>(mib: Registered<S>, st: S, f: Fields, i: nat)
    requires WellFormed(mib) && |f.varbinds| <= MAX_VARBINDS && i < |f.varbinds|
    requires var r := Mib.Resolve(mib, st, f.varbinds[i].oid); r.Found? && r.r.tag == 0x46
    ensures var reply := ReadReply(mib, st, V1, ExactMatch, f);
            && reply.errorStatus != NO_ERROR && 1 <= reply.errorIndex <= i + 1 && reply.varbinds == f.varbinds
            && ((forall j | 0 <= j < i :: Fetch(mib, st, V1, ExactMatch, f.varbinds[j].oid).Good?) ==>
                  reply == Fields(PDU_RESPONSE, f.requestId, NO_SUCH_NAME, i + 1, f.varbinds))
  {
    assert Fetch(mib, st, V1, ExactMatch, f.varbinds[i].oid) == Bad(NoSuchObject);
    hide WellFormed, ReadReply, Fetch;
    V1AllOrNothing(mib, st, ExactMatch, f);
    if forall j | 0 <= j < i :: Fetch(mib, st, V1, ExactMatch, f.varbinds[j].oid).Good? {
      V1FailsAt(mib, st, ExactMatch, f, i);
    }
  }
}
