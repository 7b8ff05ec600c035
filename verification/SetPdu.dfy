/** SetRequest: validate every varbind, then commit them in order. */
module SetPdu {
  import opened Types
  import opened Ber
  import opened Codec
  import opened PduCodec
  import opened Mib
  import opened Registry
  import opened ReadPdu
  import opened Examples

  // ---------------------------------------------------------------- specification

  /** Exists, is writable, and the value has the right type. */
  function Check<S(!new)>(mib: Registered<S>, st: S, vb: Varbind): MibResult
    requires WellFormed(mib)
  {
    var r := Mib.Resolve(mib, st, vb.oid);
    if r.NotFound? then r.why
    else if r.r.access != RW then NotWritable
    else if vb.value.Tag() != r.r.tag then WrongType
    else MibOk
  }

  /** The first varbind that does not pass, or their number. */
  function FirstInvalid<S(!new)>(mib: Registered<S>, st: S, vbs: seq<Varbind>): (k: nat)
    requires WellFormed(mib)
    ensures k <= |vbs|
    ensures forall i | 0 <= i < k :: Check(mib, st, vbs[i]) == MibOk
    ensures k < |vbs| ==> Check(mib, st, vbs[k]) != MibOk
  {
    if vbs == [] || Check(mib, st, vbs[0]) != MibOk then 0 else 1 + FirstInvalid(mib, st, vbs[1..])
  }

  /** One commit step: look the name up again in the state as it is now, and call the setter. */
  function SetOne<S(!new)>(mib: Registered<S>, st: S, vb: Varbind): (S, MibResult)
    requires WellFormed(mib)
  {
    var r := Mib.Resolve(mib, st, vb.oid);
    ResolveIsMembership(mib, st, vb.oid);
    if r.NotFound? then (st, r.why) else Mib.Set(mib, st, r.r.target, vb.value)
  }

  /** The state after a run of setters and how many of them succeeded before the run ended. */
  datatype Run<S> = Run(st: S, done: nat)

  /** Commits until a step fails. */
  function Commit<S(!new)>(mib: Registered<S>, st: S, vbs: seq<Varbind>): (r: Run<S>)
    requires WellFormed(mib)
    ensures r.done <= |vbs|
  {
    if vbs == [] then Run(st, 0)
    else
      var (next, result) := SetOne(mib, st, vbs[0]);
      if result != MibOk then Run(next, 0)
      else
        var rest := Commit(mib, next, vbs[1..]);
        Run(rest.st, rest.done + 1)
  }

  /** The MIB state and the reply after a SetRequest. */
  function SetReply<S(!new)>(mib: Registered<S>, st: S, f: Fields): (S, Fields)
    requires WellFormed(mib) && |f.varbinds| <= MAX_VARBINDS
  {
    var n := |f.varbinds|;
    var bad := FirstInvalid(mib, st, f.varbinds);
    if bad < n then
      (st, Fields(PDU_RESPONSE, f.requestId, V1Status(Check(mib, st, f.varbinds[bad])), bad + 1, f.varbinds))
    else
      var run := Commit(mib, st, f.varbinds);
      if run.done < n then (run.st, Fields(PDU_RESPONSE, f.requestId, GEN_ERR, run.done + 1, f.varbinds))
      else (run.st, Fields(PDU_RESPONSE, f.requestId, NO_ERROR, 0, f.varbinds))
  }

  // ---------------------------------------------------------------- the handler

  /** Pass 1. */
  method Validate<S(!new)>(ctx: PduCtx, reg: Registry<S>) returns (bad: nat, why: MibResult)
    requires ctx.Valid() && reg.Valid()
    ensures bad == FirstInvalid(reg.Entries(), reg.state, ctx.Varbinds())
    ensures bad < ctx.varbindCount ==> why == Check(reg.Entries(), reg.state, ctx.varbinds[bad])
  {
    ghost var vbs := ctx.Varbinds();
    why := MibOk;
    bad := 0;
    while bad < ctx.varbindCount
      invariant bad <= ctx.varbindCount
      invariant FirstInvalid(reg.Entries(), reg.state, vbs) == bad + FirstInvalid(reg.Entries(), reg.state, vbs[bad..])
    {
      var vb := ctx.varbinds[bad];
      assert vb == vbs[bad] && vbs[bad..][1..] == vbs[bad + 1..];
      var res := reg.Resolve(vb.oid);
      why := MibOk;
      if res.NotFound? {
        why := res.why;
      } else if res.r.access != RW {
        why := NotWritable;
      } else if vb.value.Tag() != res.r.tag {
        why := WrongType;
      }
      if why != MibOk {
        return;
      }
      bad := bad + 1;
    }
  }

  /** Pass 2. */
  method CommitAll<S(!new)>(ctx: PduCtx, reg: Registry<S>) returns (done: nat)
    requires ctx.Valid() && reg.Valid()
    modifies reg`state
    ensures Run(reg.state, done) == Commit(reg.Entries(), old(reg.state), ctx.Varbinds())
  {
    ghost var vbs, start := ctx.Varbinds(), reg.state;
    done := 0;
    while done < ctx.varbindCount
      invariant done <= ctx.varbindCount
      invariant var rest := Commit(reg.Entries(), reg.state, vbs[done..]);
                Commit(reg.Entries(), start, vbs) == Run(rest.st, rest.done + done)
    {
      var vb := ctx.varbinds[done];
      assert vb == vbs[done] && vbs[done..][1..] == vbs[done + 1..];
      ResolveIsMembership(reg.Entries(), reg.state, vb.oid);
      var resolved := reg.Resolve(vb.oid);
      if resolved.NotFound? {
        NoSuchInstanceExact(reg.Entries(), reg.state, vb.oid);
        return;
      }
      var result := reg.Set(resolved.r.target, vb.value);
      if result != MibOk {
        return;
      }
      done := done + 1;
    }
  }

  /** Both passes: what is to be reported. */
  method ValidateAndCommit<S(!new)>(ctx: PduCtx, reg: Registry<S>) returns (status: int32, index: int32)
    requires ctx.Valid() && reg.Valid()
    modifies reg`state
    ensures var (after, reply) := SetReply(reg.Entries(), old(reg.state), ctx.Pdu());
            reg.state == after && status == reply.errorStatus && index == reply.errorIndex
  {
    hide Check, FirstInvalid, Commit, V1Status, WellFormed;
    status, index := NO_ERROR, 0;
    var bad, why := Validate(ctx, reg);
    if bad < ctx.varbindCount {
      status, index := V1Status(why), bad + 1;
    } else {
      var done := CommitAll(ctx, reg);
      if done < ctx.varbindCount {
        status, index := GEN_ERR, done + 1;
      }
    }
  }

  /** snmp_pdu_handle_set. Without write access there is no reply at all. */
  method HandleSet<S(!new)>(ctx: PduCtx, reg: Registry<S>) returns (r: Result<()>)
    requires ctx.Valid() && reg.Valid()
    modifies ctx, reg`state
    ensures ctx.Valid() && KeepsEnvelope(ctx)
    ensures r.Ok? <==> old(ctx.accessMode) == ReadWrite
    ensures r.Err? ==> reg.state == old(reg.state)
    ensures r.Ok? ==> (reg.state, ctx.Pdu()) == SetReply(reg.Entries(), old(reg.state), old(ctx.Pdu()))
  {
    if ctx.accessMode != ReadWrite {
      return Err(BadArgs);
    }
    ghost var f := ctx.Pdu();
    var status, index := ValidateAndCommit(ctx, reg);
    SetReplyShape(reg.Entries(), old(reg.state), f);
    hide SetReply, WellFormed;
    ctx.pduTag, ctx.errorStatus, ctx.errorIndex := PDU_RESPONSE, status, index;
    assert ctx.Varbinds() == f.varbinds;
    return Ok(());
  }

  /** A SET reply is the request with a status and an index of one octet each. */
  lemma SetReplyShape<S(!new)>(mib: Registered<S>, st: S, f: Fields)
    requires WellFormed(mib) && |f.varbinds| <= MAX_VARBINDS
    ensures var reply := SetReply(mib, st, f).1;
            && reply == Fields(PDU_RESPONSE, f.requestId, reply.errorStatus, reply.errorIndex, f.varbinds)
            && 0 <= reply.errorStatus <= 5 && 0 <= reply.errorIndex <= MAX_VARBINDS
  {
    hide FirstInvalid, Check, Commit;
  }

  // ---------------------------------------------------------------- what it promises

  lemma ChecksFirst<S(!new)>(mib: Registered<S>, st: S, f: Fields)
    requires WellFormed(mib) && |f.varbinds| <= MAX_VARBINDS
    ensures var (after, reply) := SetReply(mib, st, f);
            && reply.varbinds == f.varbinds && reply.requestId == f.requestId
            && ((exists i | 0 <= i < |f.varbinds| :: Check(mib, st, f.varbinds[i]) != MibOk) ==>
                  && after == st
                  && 1 <= reply.errorIndex <= |f.varbinds|
                  && Check(mib, st, f.varbinds[reply.errorIndex - 1]) != MibOk
                  && reply.errorStatus == V1Status(Check(mib, st, f.varbinds[reply.errorIndex - 1])) != NO_ERROR
                  && forall i | 0 <= i < reply.errorIndex - 1 :: Check(mib, st, f.varbinds[i]) == MibOk)
  {
  }

  /** Which varbinds pass: those that name something in the view, writable, of the type of the value sent. */
  lemma CheckExact<S(!new)>(mib: Registered<S>, st: S, vb: Varbind)
    requires WellFormed(mib)
    ensures Check(mib, st, vb) == MibOk <==>
            vb.oid in View(mib, st) && var r := Mib.Resolve(mib, st, vb.oid);
                                       r.Found? && r.r.access == RW && r.r.tag == vb.value.Tag()
    ensures vb.oid !in View(mib, st) <==> V1Status(Check(mib, st, vb)) == NO_SUCH_NAME
  {
    ResolveIsMembership(mib, st, vb.oid);
    NoSuchInstanceExact(mib, st, vb.oid);
  }

  /** Why vb cannot be set, with the number the manager is told: its name is outside the view (2); what owns the name is
      not writable, whatever the type sent (4); or it is writable, and of another type (3). */
  ghost predicate RefusedFor<S(!new)>(mib: Registered<S>, st: S, vb: Varbind, status: int)
    requires WellFormed(mib)
  {
    || (status == 2 && vb.oid !in View(mib, st))
    || (status == 4 && exists tag :: Offers(mib, st, vb.oid, tag, RO))
    || (status == 3 && exists tag :: tag != vb.value.Tag() && Offers(mib, st, vb.oid, tag, RW))
  }

  lemma RefusedExact<S(!new)>(mib: Registered<S>, st: S, vb: Varbind)
    requires WellFormed(mib)
    ensures forall status: int ::
              RefusedFor(mib, st, vb, status) <==>
              Check(mib, st, vb) != MibOk && status == V1Status(Check(mib, st, vb))
  {
    var r := Mib.Resolve(mib, st, vb.oid);
    ResolveIsMembership(mib, st, vb.oid);
    NoSuchInstanceExact(mib, st, vb.oid);
    hide WellFormed, Mib.Resolve, View, Offers;
    forall tag, access
      ensures Offers(mib, st, vb.oid, tag, access) <==> r.Found? && r.r.tag == tag && r.r.access == access
    {
      OffersExact(mib, st, vb.oid, tag, access);
    }
    if r.Found? {
      assert Offers(mib, st, vb.oid, r.r.tag, r.r.access);
    }
  }

  /** There is one reason at most. */
  lemma RefusedOnce<S(!new)>(mib: Registered<S>, st: S, vb: Varbind, a: int, b: int)
    requires WellFormed(mib) && RefusedFor(mib, st, vb, a) && RefusedFor(mib, st, vb, b)
    ensures a == b
  {
    hide RefusedFor, WellFormed, Check;
    RefusedExact(mib, st, vb);
  }

  /** Something in the request cannot be set. */
  ghost predicate AnyRefused<S(!new)>(mib: Registered<S>, st: S, vbs: seq<Varbind>)
    requires WellFormed(mib)
  {
    exists i, status | 0 <= i < |vbs| :: RefusedFor(mib, st, vbs[i], status)
  }

  /** Nothing is written before everything has been checked: a varbind that cannot be set leaves the state alone, and
      the first one is reported with its reason. Whatever happens, the reply carries the request's varbinds. */
  lemma ValidatesFirst<S(!new)>(mib: Registered<S>, st: S, f: Fields)
    requires WellFormed(mib) && |f.varbinds| <= MAX_VARBINDS
    ensures var (after, reply) := SetReply(mib, st, f);
            && reply.varbinds == f.varbinds && reply.requestId == f.requestId
            && (AnyRefused(mib, st, f.varbinds) ==>
                  && after == st
                  && 1 <= reply.errorIndex <= |f.varbinds|
                  && RefusedFor(mib, st, f.varbinds[reply.errorIndex - 1], reply.errorStatus)
                  && forall i, status: int | 0 <= i < reply.errorIndex - 1 ::
                       !RefusedFor(mib, st, f.varbinds[i], status))
  {
    hide WellFormed, SetReply, Check, RefusedFor;
    ChecksFirst(mib, st, f);
    forall i | 0 <= i < |f.varbinds|
      ensures forall status: int ::
                RefusedFor(mib, st, f.varbinds[i], status) <==>
                Check(mib, st, f.varbinds[i]) != MibOk && status == V1Status(Check(mib, st, f.varbinds[i]))
    {
      RefusedExact(mib, st, f.varbinds[i]);
    }
  }

  // ---------------------------------------------------------------- the writes one by one

  /** One write: the owner of the name runs its setter, if it has one. In pass 2 the name may have gone. */
  ghost predicate OneWrite<S(!new)>(mib: Registered<S>, st: S, vb: Varbind, next: S, result: MibResult)
    requires WellFormed(mib)
  {
    if vb.oid !in View(mib, st) then next == st && (result == NoSuchObject || result == NoSuchInstance)
    else exists target :: Owns(mib, st, vb.oid, target) && SetterGives(mib, st, target, vb.value, next, result)
  }

  ghost predicate SetterGives<S(!new)>(mib: Registered<S>, st: S, target: Target, v: Value, next: S, result: MibResult)
    requires ValidTarget(mib, target)
  {
    match target
    case ScalarAt(m, k) =>
      var f := mib.modules[m][k].setter;
      (next, result) == if f.Some? then f.value(st, v) else (st, NotWritable)
    case CellAt(t, column, index) =>
      var f := mib.tables[t].setCell;
      (next, result) == if f.Some? then f.value(st, column, index, v) else (st, NotWritable)
  }

  lemma SetOneExact<S(!new)>(mib: Registered<S>, st: S, vb: Varbind)
    requires WellFormed(mib)
    ensures OneWrite(mib, st, vb, SetOne(mib, st, vb).0, SetOne(mib, st, vb).1)
  {
    ResolveIsMembership(mib, st, vb.oid);
    NoSuchInstanceExact(mib, st, vb.oid);
    var r := Mib.Resolve(mib, st, vb.oid);
    if r.Found? {
      OwnerIsFound(mib, st, vb.oid, r.r.target);
      SetIsByName(mib, st, vb.oid, r.r.target, vb.value);
    }
  }

  /** The states that a row of successful writes goes through. */
  ghost predicate WriteTrace<S(!new)>(mib: Registered<S>, vbs: seq<Varbind>, states: seq<S>)
    requires WellFormed(mib)
  {
    && 1 <= |states| <= |vbs| + 1
    && forall i | 0 <= i < |states| - 1 :: OneWrite(mib, states[i], vbs[i], states[i + 1], MibOk)
  }

  lemma {:induction false} CommitTrace<S(!new)>(mib: Registered<S>, st: S, vbs: seq<Varbind>)
    returns (states: seq<S>, result: MibResult)
    requires WellFormed(mib)
    ensures var run := Commit(mib, st, vbs);
            && WriteTrace(mib, vbs, states) && states[0] == st && |states| == run.done + 1
            && (run.done == |vbs| ==> run.st == states[run.done])
            && (run.done < |vbs| ==> result != MibOk && OneWrite(mib, states[run.done], vbs[run.done], run.st, result))
    decreases |vbs|
  {
    hide WellFormed, SetOne, OneWrite;
    states, result := [st], MibOk;
    if vbs != [] {
      SetOneExact(mib, st, vbs[0]);
      var (next, first) := SetOne(mib, st, vbs[0]);
      result := first;
      if first == MibOk {
        var rest;
        rest, result := CommitTrace(mib, next, vbs[1..]);
        states := [st] + rest;
      }
    }
  }

  /** What a SetRequest makes of the state and what is told: nothing is written and the first varbind that cannot be set
      is reported; or the setters run in order, and either all succeed, which is status 0 and index 0, or the first that
      does not is reported with status 5, the state being what it left. */
  ghost predicate IsSetReply<S(!new)>(mib: Registered<S>, st: S, f: Fields, after: S, reply: Fields, states: seq<S>,
                                      result: MibResult)
    requires WellFormed(mib)
  {
    var k, n := reply.errorIndex - 1, |f.varbinds|;
    && reply.tag == 0xA2 && reply.requestId == f.requestId && reply.varbinds == f.varbinds
    && if AnyRefused(mib, st, f.varbinds) then
         && after == st && 0 <= k < n && RefusedFor(mib, st, f.varbinds[k], reply.errorStatus)
         && forall i, status: int | 0 <= i < k :: !RefusedFor(mib, st, f.varbinds[i], status)
       else
         && WriteTrace(mib, f.varbinds, states) && states[0] == st
         && if |states| == n + 1 then reply.errorStatus == 0 && reply.errorIndex == 0 && after == states[n]
            else
              && reply.errorStatus == 5 && k == |states| - 1
              && result != MibOk && OneWrite(mib, states[k], f.varbinds[k], after, result)
  }

  lemma SetReplyExact<S(!new)>(mib: Registered<S>, st: S, f: Fields) returns (states: seq<S>, result: MibResult)
    requires WellFormed(mib) && |f.varbinds| <= MAX_VARBINDS
    ensures IsSetReply(mib, st, f, SetReply(mib, st, f).0, SetReply(mib, st, f).1, states, result)
  {
    hide WellFormed, RefusedFor, OneWrite, Commit, Check;
    SetReplyShape(mib, st, f);
    ValidatesFirst(mib, st, f);
    states, result := CommitTrace(mib, st, f.varbinds);
    forall i | 0 <= i < |f.varbinds|
      ensures (exists status: int :: RefusedFor(mib, st, f.varbinds[i], status)) <==>
              Check(mib, st, f.varbinds[i]) != MibOk
    {
      RefusedExact(mib, st, f.varbinds[i]);
      assert RefusedFor(mib, st, f.varbinds[i], V1Status(Check(mib, st, f.varbinds[i]))) <==>
             Check(mib, st, f.varbinds[i]) != MibOk;
    }
  }

  // ---------------------------------------------------------------- the fold

  /** A setter together with its argument, as pass 1 resolved it. */
  datatype Action = Action(target: Target, value: Value)

  /** The actions pass 1 could have kept. */
  ghost function Actions<S(!new)>(mib: Registered<S>, st: S, vbs: seq<Varbind>): (a: seq<Action>)
    requires WellFormed(mib)
    requires forall i | 0 <= i < |vbs| :: Mib.Resolve(mib, st, vbs[i].oid).Found?
    ensures |a| == |vbs| && forall i | 0 <= i < |a| :: ValidTarget(mib, a[i].target)
  {
    forall i | 0 <= i < |vbs| ensures ValidTarget(mib, Mib.Resolve(mib, st, vbs[i].oid).r.target) {
      ResolveIsMembership(mib, st, vbs[i].oid);
    }
    seq(|vbs|, i requires 0 <= i < |vbs| => Action(Mib.Resolve(mib, st, vbs[i].oid).r.target, vbs[i].value))
  }

  /** The left-to-right fold of the setters, stopping at the first that fails. */
  function RunSetters<S(!new)>(mib: Registered<S>, st: S, actions: seq<Action>): (r: Run<S>)
    requires forall i | 0 <= i < |actions| :: ValidTarget(mib, actions[i].target)
    ensures r.done <= |actions|
  {
    if actions == [] then Run(st, 0)
    else
      var (next, result) := Mib.Set(mib, st, actions[0].target, actions[0].value);
      if result != MibOk then Run(next, 0)
      else
        var rest := RunSetters(mib, next, actions[1..]);
        Run(rest.st, rest.done + 1)
  }

  /** As the setters run, every name still means what it meant in state start. */
  ghost predicate KeepsShape<S(!new)>(mib: Registered<S>, start: S, st: S, vbs: seq<Varbind>)
    requires WellFormed(mib)
  {
    vbs != [] ==>
      && Mib.Resolve(mib, st, vbs[0].oid) == Mib.Resolve(mib, start, vbs[0].oid)
      && (SetOne(mib, st, vbs[0]).1 == MibOk ==> KeepsShape(mib, start, SetOne(mib, st, vbs[0]).0, vbs[1..]))
  }

  lemma {:induction false} CommitIsFold<S(!new)>(mib: Registered<S>, start: S, st: S, vbs: seq<Varbind>)
    requires WellFormed(mib) && KeepsShape(mib, start, st, vbs)
    requires forall i | 0 <= i < |vbs| :: Mib.Resolve(mib, start, vbs[i].oid).Found?
    ensures Commit(mib, st, vbs) == RunSetters(mib, st, Actions(mib, start, vbs))
    decreases |vbs|
  {
    hide Mib.Resolve, Mib.Set, WellFormed;
    if vbs != [] {
      var actions := Actions(mib, start, vbs);
      var (next, result) := SetOne(mib, st, vbs[0]);
      assert actions[1..] == Actions(mib, start, vbs[1..]);
      if result == MibOk {
        CommitIsFold(mib, start, next, vbs[1..]);
      }
    }
  }

  /** When every varbind is valid and the setters keep the shape of the view, looking names up again in pass 2 is the
      same as having kept pass 1's results: the new state is the fold of all setters, and the reply is a success
      exactly when all of them succeed. */
  lemma SetIsFold<S(!new)>(mib: Registered<S>, st: S, f: Fields)
    requires WellFormed(mib) && |f.varbinds| <= MAX_VARBINDS
    requires forall i | 0 <= i < |f.varbinds| :: Check(mib, st, f.varbinds[i]) == MibOk
    requires KeepsShape(mib, st, st, f.varbinds)
    ensures forall i | 0 <= i < |f.varbinds| :: Mib.Resolve(mib, st, f.varbinds[i].oid).Found?
    ensures var (after, reply) := SetReply(mib, st, f);
            var fold := RunSetters(mib, st, Actions(mib, st, f.varbinds));
            && after == fold.st
            && (reply.errorStatus == NO_ERROR <==> fold.done == |f.varbinds|)
            && (fold.done < |f.varbinds| ==> reply.errorStatus == GEN_ERR && reply.errorIndex == fold.done + 1)
  {
    forall i | 0 <= i < |f.varbinds| ensures Mib.Resolve(mib, st, f.varbinds[i].oid).Found? {
      CheckedIsFound(mib, st, f.varbinds[i]);
    }
    CommitIsFold(mib, st, st, f.varbinds);
  }

  lemma CheckedIsFound<S(!new)>(mib: Registered<S>, st: S, vb: Varbind)
    requires WellFormed(mib) && Check(mib, st, vb) == MibOk
    ensures Mib.Resolve(mib, st, vb.oid).Found?
  {
    NoSuchInstanceExact(mib, st, vb.oid);
  }

  /** There is no rollback. When pass 2 fails at varbind k, the state is what the first k setters made of it, then
      whatever the failing step did. */
  lemma {:induction false} CommitStops<S(!new)>(mib: Registered<S>, st: S, vbs: seq<Varbind>)
    requires WellFormed(mib) && Commit(mib, st, vbs).done < |vbs|
    ensures var k := Commit(mib, st, vbs).done;
            var before := Commit(mib, st, vbs[..k]);
            && before.done == k
            && SetOne(mib, before.st, vbs[k]).1 != MibOk
            && Commit(mib, st, vbs).st == SetOne(mib, before.st, vbs[k]).0
  {
    hide SetOne, WellFormed;
    var k := Commit(mib, st, vbs).done;
    if k > 0 {
      var next := SetOne(mib, st, vbs[0]).0;
      CommitStops(mib, next, vbs[1..]);
      assert vbs[..k][1..] == vbs[1..][..k - 1];
    }
  }

  /** A setter that refuses has done nothing. */
  ghost predicate RefusalsWriteNothing<S(!new)>(mib: Registered<S>) {
    forall st: S, target, v | ValidTarget(mib, target) && Mib.Set(mib, st, target, v).1 != MibOk ::
      Mib.Set(mib, st, target, v).0 == st
  }

  /** Setters that succeed one after the other do not cancel out. */
  ghost predicate WritesStick<S(!new)>(mib: Registered<S>, st: S, vbs: seq<Varbind>)
    requires WellFormed(mib)
  {
    forall k | 0 < k <= |vbs| && Commit(mib, st, vbs[..k]).done == k :: Commit(mib, st, vbs[..k]).st != st
  }

  lemma RefusedStepWritesNothing<S(!new)>(mib: Registered<S>, st: S, vb: Varbind)
    requires WellFormed(mib) && RefusalsWriteNothing(mib)
    ensures SetOne(mib, st, vb).1 != MibOk ==> SetOne(mib, st, vb).0 == st
  {
    ResolveIsMembership(mib, st, vb.oid);
  }

  /** When does an error reply mean that nothing has changed? Where refusals write nothing, an error reply to a valid
      request leaves what the accepted setters made of the state. So if the first setter refuses, nothing has changed,
      and where writes stick, only then. */
  lemma SetAtomicExact<S(!new)>(mib: Registered<S>, st: S, f: Fields)
    requires WellFormed(mib) && |f.varbinds| <= MAX_VARBINDS && RefusalsWriteNothing(mib)
    requires FirstInvalid(mib, st, f.varbinds) == |f.varbinds|
    requires SetReply(mib, st, f).1.errorStatus != NO_ERROR
    ensures |f.varbinds| > 0
    ensures SetOne(mib, st, f.varbinds[0]).1 != MibOk ==> SetReply(mib, st, f).0 == st
    ensures WritesStick(mib, st, f.varbinds) ==>
              (SetReply(mib, st, f).0 == st <==> SetOne(mib, st, f.varbinds[0]).1 != MibOk)
  {
    hide WellFormed, SetOne, RefusalsWriteNothing;
    var vbs := f.varbinds;
    var k := Commit(mib, st, vbs).done;
    CommitStops(mib, st, vbs);
    RefusedStepWritesNothing(mib, Commit(mib, st, vbs[..k]).st, vbs[k]);
  }

  /** A SetRequest with one varbind is atomic wherever refusals write nothing, whatever is wrong with it. */
  lemma SingleSetIsAtomic<S(!new)>(mib: Registered<S>, st: S, f: Fields)
    requires WellFormed(mib) && |f.varbinds| == 1 && RefusalsWriteNothing(mib)
    ensures SetReply(mib, st, f).1.errorStatus != NO_ERROR ==> SetReply(mib, st, f).0 == st
  {
    hide WellFormed, SetOne, RefusalsWriteNothing, Check;
    if SetReply(mib, st, f).1.errorStatus != NO_ERROR && FirstInvalid(mib, st, f.varbinds) == 1 {
      SetAtomicExact(mib, st, f);
      CommitStops(mib, st, f.varbinds);
      assert Commit(mib, st, f.varbinds[..0]).st == st;
    }
  }

  /** Two writable scalars; setting the first stores 1 in the state, setting the second is refused. */
  function RefusingScalars(): seq<Object<int>> {
    var getter := (st: int) => Answer(MibOk, Null);
    [Object(ScalarName(0), TAG_NULL, RW, getter, Some((st: int, v: Value) => (1, MibOk))),
     Object(ScalarName(1), TAG_NULL, RW, getter, Some((st: int, v: Value) => (st, WrongValue)))]
  }

  lemma NumberedSet<S(!new)>(objs: seq<Object<S>>, st: S, k: uint32, v: Value)
    requires Numbered(objs) && k < |objs|
    ensures WellFormed(OneModule(objs))
    ensures objs[k].access == RW && v.Tag() == objs[k].tag ==>
              Check(OneModule(objs), st, Varbind(ScalarName(k), v)) == MibOk
    ensures objs[k].setter.Some? ==>
              SetOne(OneModule(objs), st, Varbind(ScalarName(k), v)) == objs[k].setter.value(st, v)
  {
    NumberedLookup(objs, st, k);
    hide Mib.Resolve, WellFormed;
  }

  lemma RefusingScalarsSet(st: int)
    ensures WellFormed(OneModule(RefusingScalars())) && RefusalsWriteNothing(OneModule(RefusingScalars()))
    ensures var mib, a, b := OneModule(RefusingScalars()), Varbind(ScalarName(0), Null), Varbind(ScalarName(1), Null);
            && Check(mib, st, a) == Check(mib, st, b) == MibOk
            && SetOne(mib, st, a) == (1, MibOk) && SetOne(mib, st, b) == (st, WrongValue)
  {
    hide WellFormed, Check, SetOne;
    NumberedSet(RefusingScalars(), st, 0, Null);
    NumberedSet(RefusingScalars(), st, 1, Null);
  }

  lemma SecondRefuses<S(!new)>(mib: Registered<S>, st: S, mid: S, id: int32, a: Varbind, b: Varbind, why: MibResult)
    requires WellFormed(mib) && why != MibOk && Check(mib, st, a) == Check(mib, st, b) == MibOk
    requires SetOne(mib, st, a) == (mid, MibOk) && SetOne(mib, mid, b) == (mid, why)
    ensures FirstInvalid(mib, st, [a, b]) == 2
    ensures SetReply(mib, st, Fields(PDU_SET, id, 0, 0, [a, b])) == (mid, Fields(PDU_RESPONSE, id, GEN_ERR, 2, [a, b]))
  {
    hide SetOne, Check, WellFormed;
    assert [a, b][1..] == [b] && [b][1..] == [];
    assert FirstInvalid(mib, st, [b]) == 1;
    assert Commit(mib, mid, [b]) == Run(mid, 0);
  }

  /** A valid request that is not atomic, although refusals write nothing: the first setter takes effect, the second
      refuses, the manager is told genErr. */
  lemma NoRollback()
    ensures var mib := OneModule(RefusingScalars());
            var f := Fields(PDU_SET, 7, 0, 0, [Varbind(ScalarName(0), Null), Varbind(ScalarName(1), Null)]);
            && WellFormed(mib) && RefusalsWriteNothing(mib)
            && FirstInvalid(mib, 0, f.varbinds) == 2
            && SetReply(mib, 0, f) == (1, Fields(PDU_RESPONSE, 7, GEN_ERR, 2, f.varbinds))
  {
    hide SetOne, Check, WellFormed, RefusalsWriteNothing, RefusingScalars, FirstInvalid, SetReply, OneModule;
    RefusingScalarsSet(0);
    RefusingScalarsSet(1);
    SecondRefuses(OneModule(RefusingScalars()), 0, 1, 7, Varbind(ScalarName(0), Null), Varbind(ScalarName(1), Null),
                  WrongValue);
  }
}
