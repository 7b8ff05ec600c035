/** GetBulkRequest: non-repeaters once, repeaters round by round, written over the request's own array. */
module BulkPdu {
  import opened Types
  import opened Codec
  import opened PduCodec
  import opened Oids
  import opened Mib
  import opened Registry
  import opened Walk
  import opened ReadPdu
  import opened Examples

  const MAX_REPEATERS: nat := 16

  // ---------------------------------------------------------------- specification

  /** One GETNEXT step of a bulk request. */
  ghost function Next<S(!new)>(mib: Registered<S>, st: S, oid: Oid): Outcome
    requires WellFormed(mib)
  {
    Fetch(mib, st, V2C, NextMatch, oid)
  }

  /** What is appended for an outcome: a failing getter reads as endOfMibView, and so does the end of the view; either
      way the name is the one that was reached. */
  function Slot(current: Varbind, o: Outcome): Varbind {
    match o
    case Good(vb) => vb
    case Bad(why) =>
      var tr := Translate(V2C, why);
      Varbind(current.oid, Exception(if tr.Substitute? then tr.exception else EndOfMibViewValue))
  }

  /** Where a repeater stands: the last varbind it reached, and whether it has stopped moving. */
  datatype Cursor = Cursor(at: Varbind, exhausted: bool)

  ghost function StepOutcome<S(!new)>(mib: Registered<S>, st: S, c: Cursor): Outcome
    requires WellFormed(mib)
  {
    if c.exhausted then Bad(EndOfView) else Next(mib, st, c.at.oid)
  }

  ghost function StepSlot<S(!new)>(mib: Registered<S>, st: S, c: Cursor): Varbind
    requires WellFormed(mib)
  {
    Slot(c.at, StepOutcome(mib, st, c))
  }

  ghost function Step<S(!new)>(mib: Registered<S>, st: S, c: Cursor): Cursor
    requires WellFormed(mib)
  {
    var o := StepOutcome(mib, st, c);
    if o.Good? then Cursor(o.vb, false) else Cursor(c.at, true)
  }

  ghost function RoundSlots<S(!new)>(mib: Registered<S>, st: S, cs: seq<Cursor>): (r: seq<Varbind>)
    requires WellFormed(mib)
    ensures |r| == |cs|
  {
    seq(|cs|, i requires 0 <= i < |cs| => StepSlot(mib, st, cs[i]))
  }

  ghost function RoundNext<S(!new)>(mib: Registered<S>, st: S, cs: seq<Cursor>): (r: seq<Cursor>)
    requires WellFormed(mib)
    ensures |r| == |cs|
  {
    seq(|cs|, i requires 0 <= i < |cs| => Step(mib, st, cs[i]))
  }

  predicate AnyActive(cs: seq<Cursor>) {
    exists i | 0 <= i < |cs| :: !cs[i].exhausted
  }

  /** At most m rounds, one slot per repeater each, ending after the first round in which no repeater moved. */
  ghost function Rounds<S(!new)>(mib: Registered<S>, st: S, cs: seq<Cursor>, m: nat): seq<Varbind>
    requires WellFormed(mib)
    decreases m
  {
    if m == 0 then []
    else
      var next := RoundNext(mib, st, cs);
      RoundSlots(mib, st, cs) + if AnyActive(next) then Rounds(mib, st, next, m - 1) else []
  }

  /** Non-repeaters and max-repetitions as the handler reads them. */
  function NonRepeaters(f: Fields): nat {
    var n := if f.errorStatus < 0 then 0 else f.errorStatus;
    if n > |f.varbinds| then |f.varbinds| else n
  }

  function MaxRepetitions(f: Fields): nat {
    if f.errorIndex < 0 then 0 else f.errorIndex
  }

  function Repeaters(f: Fields): nat {
    var r := |f.varbinds| - NonRepeaters(f);
    if r > MAX_REPEATERS then MAX_REPEATERS else r
  }

  function StartCursors(f: Fields): (cs: seq<Cursor>)
    ensures |cs| == Repeaters(f)
  {
    seq(Repeaters(f), r requires 0 <= r < Repeaters(f) => Cursor(f.varbinds[NonRepeaters(f) + r], false))
  }

  ghost function FirstPart<S(!new)>(mib: Registered<S>, st: S, f: Fields): (r: seq<Varbind>)
    requires WellFormed(mib)
    ensures |r| == NonRepeaters(f)
  {
    seq(NonRepeaters(f), i requires 0 <= i < NonRepeaters(f) => Slot(f.varbinds[i], Next(mib, st, f.varbinds[i].oid)))
  }

  /** The reply varbinds if there were no limit on their number, built apart from the request. */
  ghost function Uncapped<S(!new)>(mib: Registered<S>, st: S, f: Fields): seq<Varbind>
    requires WellFormed(mib)
  {
    FirstPart(mib, st, f) + Rounds(mib, st, StartCursors(f), MaxRepetitions(f))
  }

  function Take(vbs: seq<Varbind>, n: nat): seq<Varbind> {
    if |vbs| <= n then vbs else vbs[..n]
  }

  ghost function BulkReply<S(!new)>(mib: Registered<S>, st: S, f: Fields): Fields
    requires WellFormed(mib)
  {
    Fields(PDU_RESPONSE, f.requestId, NO_ERROR, 0, Take(Uncapped(mib, st, f), MAX_VARBINDS))
  }

  // ---------------------------------------------------------------- the handler

  method GetNextInto<S(!new)>(reg: Registry<S>, oid: Oid) returns (o: Outcome)
    requires reg.Valid()
    ensures o == Next(reg.Entries(), reg.state, oid)
  {
    ResolveNextAgrees(reg.Entries(), reg.state, oid);
    var r := reg.ResolveNext(oid);
    if r.NotFound? {
      return Bad(r.why);
    }
    ResolveIsMembership(reg.Entries(), reg.state, r.r.oid);
    var a := reg.Get(r.r.target);
    return if a.result == MibOk then Good(Varbind(r.r.oid, a.value)) else Bad(a.result);
  }

  /** append_result: writes straight into the response array unless it is full. */
  method AppendResult(varbinds: array<Varbind>, respCount: nat, current: Varbind, o: Outcome) returns (ok: bool, n: nat)
    requires respCount <= MAX_VARBINDS == varbinds.Length
    modifies varbinds
    ensures ok <==> respCount < MAX_VARBINDS
    ensures n == (if ok then respCount + 1 else respCount)
    ensures ok ==> varbinds[..] == old(varbinds[..])[respCount := Slot(current, o)]
    ensures !ok ==> varbinds[..] == old(varbinds[..])
  {
    if respCount >= MAX_VARBINDS {
      return false, respCount;
    }
    match o {
      case Good(fetched) => varbinds[respCount] := fetched;
      case Bad(why) =>
        varbinds[respCount] := current;
        var tr := Translate(V2C, why);
        var exception := if tr.Substitute? then tr.exception else EndOfMibViewValue;
        varbinds[respCount] := varbinds[respCount].(value := Exception(exception));
    }
    return true, respCount + 1;
  }

  /** Each of the first n varbinds is read and then overwritten where it stands. */
  method FillNonRepeaters<S(!new)>(ctx: PduCtx, reg: Registry<S>, n: nat)
    requires ctx.Valid() && reg.Valid() && n == NonRepeaters(ctx.Pdu())
    modifies ctx.varbinds
    ensures ctx.varbinds[..n] == FirstPart(reg.Entries(), reg.state, old(ctx.Pdu()))
    ensures forall i | n <= i < MAX_VARBINDS :: ctx.varbinds[i] == old(ctx.varbinds[i])
  {
    hide Next, Slot, WellFormed;
    ghost var f, all := ctx.Pdu(), ctx.varbinds[..];
    ghost var front := FirstPart(reg.Entries(), reg.state, f);
    for i := 0 to n
      invariant ctx.varbinds[..i] == front[..i]
      invariant ctx.varbinds[i..] == all[i..]
    {
      ghost var before := ctx.varbinds[..];
      assert before[i..][0] == all[i..][0] && ctx.varbinds[i] == before[i] && all[i] == f.varbinds[i];
      var current := ctx.varbinds[i];
      var o := GetNextInto(reg, current.oid);
      var ok, count := AppendResult(ctx.varbinds, i, current, o);
      assert ctx.varbinds[..i + 1] == before[..i] + [front[i]];
      assert ctx.varbinds[i + 1..] == before[i..][1..];
    }
    assert forall i | n <= i < MAX_VARBINDS :: ctx.varbinds[i] == ctx.varbinds[n..][i - n] == all[i];
  }

  /** One lookup for repeater r, unless it has already run out, and its result appended under the name where the
      repeater then stands. The cursor moves only on success. */
  method RepeatOnce<S(!new)>(reg: Registry<S>, varbinds: array<Varbind>, count: nat, cursors: array<Cursor>, r: nat)
    returns (ok: bool, moved: bool)
    requires reg.Valid() && count <= MAX_VARBINDS == varbinds.Length && r < cursors.Length
    modifies varbinds, cursors
    ensures cursors[..] == old(cursors[..])[r := Step(reg.Entries(), reg.state, old(cursors[r]))]
    ensures moved <==> !Step(reg.Entries(), reg.state, old(cursors[r])).exhausted
    ensures ok <==> count < MAX_VARBINDS
    ensures !ok ==> varbinds[..count] == old(varbinds[..count])
    ensures ok ==>
              varbinds[..count + 1] == old(varbinds[..count]) + [StepSlot(reg.Entries(), reg.state, old(cursors[r]))]
  {
    hide Next, WellFormed;
    var o := Bad(EndOfView);
    if !cursors[r].exhausted {
      o := GetNextInto(reg, cursors[r].at.oid);
      if o.Good? {
        cursors[r] := Cursor(o.vb, false);
      } else {
        cursors[r] := cursors[r].(exhausted := true);
      }
    }
    moved := o.Good?;
    ghost var before := varbinds[..];
    var after;
    ok, after := AppendResult(varbinds, count, cursors[r].at, o);
    assert varbinds[..count] == before[..count];
    if ok {
      assert varbinds[count] == varbinds[..][count] && varbinds[..count + 1] == varbinds[..count] + [varbinds[count]];
    }
  }

  /** Repeater r's turn in a round that began with cursors cs and behind the varbinds w. */
  method TakeTurn<S(!new)>(reg: Registry<S>, varbinds: array<Varbind>, count: nat, cursors: array<Cursor>, r: nat,
                           active: bool, ghost w: seq<Varbind>, ghost cs: seq<Cursor>)
    returns (ok: bool, anyActive: bool)
    requires reg.Valid() && count <= MAX_VARBINDS == varbinds.Length && r < cursors.Length == |cs|
    requires InRound(reg.Entries(), reg.state, w, cs, r, varbinds[..count], cursors[..], active)
    modifies varbinds, cursors
    ensures ok <==> count < MAX_VARBINDS
    ensures !ok ==> varbinds[..count] == w + RoundSlots(reg.Entries(), reg.state, cs)[..r]
    ensures ok ==> InRound(reg.Entries(), reg.state, w, cs, r + 1, varbinds[..count + 1], cursors[..], anyActive)
  {
    assert WellFormed(reg.Entries());
    hide *;
    RoundStep(reg.Entries(), reg.state, w, cs, r, varbinds[..count], cursors[..], active);
    assert cursors[r] == cursors[..][r];
    var moved;
    ok, moved := RepeatOnce(reg, varbinds, count, cursors, r);
    anyActive := active || moved;
  }

  /** One repetition round: a slot for every repeater in turn, until the response is full. */
  method RunRound<S(!new)>(reg: Registry<S>, varbinds: array<Varbind>, start: nat, cursors: array<Cursor>)
    returns (full: bool, count: nat, anyActive: bool)
    requires reg.Valid() && start <= MAX_VARBINDS == varbinds.Length
    modifies varbinds, cursors
    ensures full <==> start + cursors.Length > MAX_VARBINDS
    ensures count == if full then MAX_VARBINDS else start + cursors.Length
    ensures var slots := RoundSlots(reg.Entries(), reg.state, old(cursors[..]));
            varbinds[..count] == old(varbinds[..start]) + slots[..count - start]
    ensures var next := RoundNext(reg.Entries(), reg.state, old(cursors[..]));
            !full ==> cursors[..] == next && (anyActive <==> AnyActive(next))
  {
    ghost var mib, st, w, cs := reg.Entries(), reg.state, varbinds[..start], cursors[..];
    assert WellFormed(mib);
    hide *;
    full, count, anyActive := false, start, false;
    RoundStart(mib, st, w, cs);
    for r := 0 to cursors.Length
      invariant !full && count == start + r <= MAX_VARBINDS
      invariant InRound(mib, st, w, cs, r, varbinds[..count], cursors[..], anyActive)
    {
      var ok;
      ok, anyActive := TakeTurn(reg, varbinds, count, cursors, r, anyActive, w, cs);
      if !ok {
        return true, count, anyActive;
      }
      count := count + 1;
    }
    RoundEnd(mib, st, w, cs, varbinds[..count], cursors[..], anyActive);
  }

  /** The first r repeaters have moved and their slots are written behind w. */
  ghost predicate InRound<S(!new)>(mib: Registered<S>, st: S, w: seq<Varbind>, cs: seq<Cursor>, r: nat,
                                   written: seq<Varbind>, cursors: seq<Cursor>, active: bool)
    requires WellFormed(mib) && r <= |cs|
  {
    var slots, next := RoundSlots(mib, st, cs), RoundNext(mib, st, cs);
    written == w + slots[..r] && cursors == next[..r] + cs[r..] && (active <==> AnyActive(next[..r]))
  }

  lemma RoundStep<S(!new)>(mib: Registered<S>, st: S, w: seq<Varbind>, cs: seq<Cursor>, r: nat,
                           written: seq<Varbind>, cursors: seq<Cursor>, active: bool)
    requires WellFormed(mib) && r < |cs| && InRound(mib, st, w, cs, r, written, cursors, active)
    ensures |cursors| == |cs| && cursors[r] == cs[r] && written == w + RoundSlots(mib, st, cs)[..r]
    ensures var next := Step(mib, st, cs[r]);
            InRound(mib, st, w, cs, r + 1, written + [StepSlot(mib, st, cs[r])], cursors[r := next],
                    active || !next.exhausted)
  {
    hide Step, StepSlot, WellFormed;
    var next := RoundNext(mib, st, cs);
    assert next[..r + 1] == next[..r] + [next[r]];
    AnyActiveSnoc(next[..r], next[r]);
  }

  lemma RoundEnd<S(!new)>(mib: Registered<S>, st: S, w: seq<Varbind>, cs: seq<Cursor>,
                          written: seq<Varbind>, cursors: seq<Cursor>, active: bool)
    requires WellFormed(mib) && InRound(mib, st, w, cs, |cs|, written, cursors, active)
    ensures var slots, next := RoundSlots(mib, st, cs), RoundNext(mib, st, cs);
            && written == w + slots && slots[..|slots|] == slots && cursors == next && (active <==> AnyActive(next))
  {
    hide RoundSlots, RoundNext, WellFormed;
    var next := RoundNext(mib, st, cs);
    assert next[..|cs|] == next;
  }

  lemma RoundStart<S(!new)>(mib: Registered<S>, st: S, w: seq<Varbind>, cs: seq<Cursor>)
    requires WellFormed(mib)
    ensures InRound(mib, st, w, cs, 0, w, cs, false)
  {
  }

  lemma AnyActiveSnoc(cs: seq<Cursor>, c: Cursor)
    ensures AnyActive(cs + [c]) <==> AnyActive(cs) || !c.exhausted
  {
    if !c.exhausted {
      assert !(cs + [c])[|cs|].exhausted;
    }
    if AnyActive(cs) {
      var i :| 0 <= i < |cs| && !cs[i].exhausted;
      assert !(cs + [c])[i].exhausted;
    }
  }

  lemma RoundsUnfold<S(!new)>(mib: Registered<S>, st: S, w: seq<Varbind>, cs: seq<Cursor>, m: nat)
    requires WellFormed(mib) && m > 0
    ensures var next := RoundNext(mib, st, cs);
            w + Rounds(mib, st, cs, m) ==
            (w + RoundSlots(mib, st, cs)) + if AnyActive(next) then Rounds(mib, st, next, m - 1) else []
  {
    hide RoundSlots, RoundNext, AnyActive, WellFormed;
  }

  lemma RoundsNone<S(!new)>(mib: Registered<S>, st: S)
    requires WellFormed(mib)
    ensures forall cs :: Rounds(mib, st, cs, 0) == []
  {
  }

  /** All rounds. */
  method RunRounds<S(!new)>(reg: Registry<S>, varbinds: array<Varbind>, start: nat,
                            cursors: array<Cursor>, maxRepetitions: nat)
    returns (count: nat)
    requires reg.Valid() && start <= MAX_VARBINDS == varbinds.Length
    modifies varbinds, cursors
    ensures count <= MAX_VARBINDS
    ensures varbinds[..count] == Take(old(varbinds[..start]) +
              Rounds(reg.Entries(), reg.state, old(cursors[..]), maxRepetitions), MAX_VARBINDS)
  {
    hide Next, Slot, WellFormed, RoundSlots, RoundNext, AnyActive, Rounds;
    ghost var mib, st, n := reg.Entries(), reg.state, cursors.Length;
    ghost var whole := varbinds[..start] + Rounds(mib, st, cursors[..], maxRepetitions);
    count := start;
    RoundsNone(mib, st);
    for rep := 0 to maxRepetitions
      invariant count <= MAX_VARBINDS
      invariant whole == varbinds[..count] + Rounds(mib, st, cursors[..], maxRepetitions - rep)
    {
      ghost var w, cs := varbinds[..count], cursors[..];
      var full, anyActive;
      ghost var slots := RoundSlots(mib, st, cs);
      full, count, anyActive := RunRound(reg, varbinds, count, cursors);
      RoundsUnfold(mib, st, w, cs, maxRepetitions - rep);
      if full {
        assert whole[..count] == w + slots[..count - |w|];
        return;
      }
      assert slots[..n] == slots;
      if !anyActive {
        return;
      }
    }
  }

  /** The repeating part: copies the start of every repeater out of the array before anything is written over it. */
  method Repeat<S(!new)>(reg: Registry<S>, varbinds: array<Varbind>, start: nat, repeaters: nat, maxRepetitions: nat,
                         ghost cs: seq<Cursor>)
    returns (count: nat)
    requires reg.Valid() && start + repeaters <= MAX_VARBINDS == varbinds.Length && repeaters <= MAX_REPEATERS
    requires |cs| == repeaters && forall r | 0 <= r < repeaters :: cs[r] == Cursor(varbinds[start + r], false)
    modifies varbinds
    ensures count <= MAX_VARBINDS
    ensures varbinds[..count] ==
            Take(old(varbinds[..start]) + Rounds(reg.Entries(), reg.state, cs, maxRepetitions), MAX_VARBINDS)
  {
    hide Rounds, WellFormed;
    count := start;
    if repeaters > 0 && maxRepetitions > 0 {
      var cursors := new Cursor[repeaters];
      forall r | 0 <= r < repeaters {
        cursors[r] := Cursor(varbinds[start + r], false);
      }
      assert cursors[..] == cs;
      count := RunRounds(reg, varbinds, start, cursors, maxRepetitions);
    } else {
      NoRounds(reg.Entries(), reg.state, cs, maxRepetitions);
    }
  }

  /** Clamps non-repeaters, repetitions and repeaters, and writes the response over the request. */
  method BuildResponse<S(!new)>(ctx: PduCtx, reg: Registry<S>) returns (respCount: nat)
    requires ctx.Valid() && reg.Valid()
    modifies ctx.varbinds
    ensures respCount <= MAX_VARBINDS
    ensures ctx.varbinds[..respCount] == Take(Uncapped(reg.Entries(), reg.state, old(ctx.Pdu())), MAX_VARBINDS)
  {
    hide WellFormed, Rounds, Take, FirstPart;
    ghost var f := ctx.Pdu();
    var total := ctx.varbindCount;
    var nonRepeaters: nat := if ctx.errorStatus < 0 then 0 else ctx.errorStatus;
    if nonRepeaters > total {
      nonRepeaters := total;
    }
    var maxRepetitions: nat := if ctx.errorIndex < 0 then 0 else ctx.errorIndex;
    var repeaters := total - nonRepeaters;
    if repeaters > MAX_REPEATERS {
      repeaters := MAX_REPEATERS;
    }
    FillNonRepeaters(ctx, reg, nonRepeaters);
    respCount := Repeat(reg, ctx.varbinds, nonRepeaters, repeaters, maxRepetitions, StartCursors(f));
  }

  /** snmp_pdu_handle_getbulk. */
  method HandleGetBulk<S(!new)>(ctx: PduCtx, reg: Registry<S>) returns (r: Result<()>)
    requires ctx.Valid() && reg.Valid()
    modifies ctx, ctx.varbinds
    ensures ctx.Valid() && KeepsEnvelope(ctx)
    ensures r.Ok? <==> old(ctx.version) == V2C
    ensures r.Ok? ==> ctx.Pdu() == BulkReply(reg.Entries(), reg.state, old(ctx.Pdu()))
  {
    if ctx.version != V2C {
      return Err(BadTag);
    }
    hide WellFormed, Uncapped;
    var respCount := BuildResponse(ctx, reg);
    ctx.varbindCount := respCount;
    ctx.pduTag := PDU_RESPONSE;
    ctx.errorStatus := NO_ERROR;
    ctx.errorIndex := 0;
    return Ok(());
  }

  lemma NoRounds<S(!new)>(mib: Registered<S>, st: S, cs: seq<Cursor>, m: nat)
    requires WellFormed(mib) && (cs == [] || m == 0)
    ensures Rounds(mib, st, cs, m) == []
  {
  }

  // ---------------------------------------------------------------- the grid

  /** Where a repeater stands after k rounds. */
  ghost function CursorAt<S(!new)>(mib: Registered<S>, st: S, c: Cursor, k: nat): Cursor
    requires WellFormed(mib)
    decreases k
  {
    if k == 0 then c else CursorAt(mib, st, Step(mib, st, c), k - 1)
  }

  /** How many rounds are run: all m, or those up to and including the first in which nothing moves. */
  ghost function RoundsRun<S(!new)>(mib: Registered<S>, st: S, cs: seq<Cursor>, m: nat): (k: nat)
    requires WellFormed(mib)
    ensures k <= m
    decreases m
  {
    if m == 0 then 0
    else if AnyActive(RoundNext(mib, st, cs)) then 1 + RoundsRun(mib, st, RoundNext(mib, st, cs), m - 1)
    else 1
  }

  /** Repeater r still moves in round k, counting from 0. */
  ghost predicate Moves<S(!new)>(mib: Registered<S>, st: S, cs: seq<Cursor>, r: nat, k: nat)
    requires WellFormed(mib) && r < |cs|
  {
    !CursorAt(mib, st, cs[r], k + 1).exhausted
  }

  ghost predicate RoundMoves<S(!new)>(mib: Registered<S>, st: S, cs: seq<Cursor>, k: nat)
    requires WellFormed(mib)
  {
    exists r | 0 <= r < |cs| :: Moves(mib, st, cs, r, k)
  }

  lemma RoundMovesNext<S(!new)>(mib: Registered<S>, st: S, cs: seq<Cursor>, k: nat)
    requires WellFormed(mib)
    ensures RoundMoves(mib, st, cs, 0) <==> AnyActive(RoundNext(mib, st, cs))
    ensures k > 0 ==> (RoundMoves(mib, st, cs, k) <==> RoundMoves(mib, st, RoundNext(mib, st, cs), k - 1))
  {
    hide Step, WellFormed;
    var next := RoundNext(mib, st, cs);
    forall r | 0 <= r < |cs| ensures Moves(mib, st, cs, r, 0) <==> !next[r].exhausted {
      assert CursorAt(mib, st, cs[r], 1) == CursorAt(mib, st, next[r], 0);
    }
    if k > 0 {
      forall r | 0 <= r < |cs| ensures Moves(mib, st, cs, r, k) <==> Moves(mib, st, next, r, k - 1) {
      }
      if RoundMoves(mib, st, cs, k) {
        var r :| 0 <= r < |cs| && Moves(mib, st, cs, r, k);
        assert Moves(mib, st, next, r, k - 1);
      }
      if RoundMoves(mib, st, next, k - 1) {
        var r :| 0 <= r < |next| && Moves(mib, st, next, r, k - 1);
        assert Moves(mib, st, cs, r, k);
      }
    }
  }

  /** Every round before the last moved some repeater; if rounds were left over, the last one moved none. */
  lemma {:induction false} RoundsRunExact<S(!new)>(mib: Registered<S>, st: S, cs: seq<Cursor>, m: nat)
    requires WellFormed(mib)
    ensures var n := RoundsRun(mib, st, cs, m);
            && (m > 0 ==> n > 0)
            && (forall k | 0 <= k < n - 1 :: RoundMoves(mib, st, cs, k))
            && (0 < n < m ==> !RoundMoves(mib, st, cs, n - 1))
    decreases m
  {
    hide RoundNext, RoundMoves, AnyActive, WellFormed;
    if m > 0 {
      var next, n := RoundNext(mib, st, cs), RoundsRun(mib, st, cs, m);
      RoundMovesNext(mib, st, cs, n - 1);
      if AnyActive(next) {
        RoundsRunExact(mib, st, next, m - 1);
        forall k | 0 <= k < n - 1 ensures RoundMoves(mib, st, cs, k) {
          RoundMovesNext(mib, st, cs, k);
        }
      }
    }
  }

  lemma RoundAt<S(!new)>(mib: Registered<S>, st: S, cs: seq<Cursor>, r: nat)
    requires WellFormed(mib) && r < |cs|
    ensures RoundSlots(mib, st, cs)[r] == StepSlot(mib, st, cs[r])
    ensures RoundNext(mib, st, cs)[r] == Step(mib, st, cs[r])
  {
  }

  /** Row k, column r of the rounds holds what repeater r yields in its round k. */
  lemma {:induction false} GridSlot<S(!new)>(mib: Registered<S>, st: S, cs: seq<Cursor>, m: nat, k: nat, r: nat)
    requires WellFormed(mib) && k < RoundsRun(mib, st, cs, m) && r < |cs|
    ensures 0 <= k * |cs| + r < |Rounds(mib, st, cs, m)|
    ensures Rounds(mib, st, cs, m)[k * |cs| + r] == StepSlot(mib, st, CursorAt(mib, st, cs[r], k))
    decreases k
  {
    hide Step, StepSlot, WellFormed, RoundSlots, RoundNext, AnyActive, Rounds, RoundsRun, CursorAt;
    var slots, next := RoundSlots(mib, st, cs), RoundNext(mib, st, cs);
    RoundAt(mib, st, cs, r);
    GridStep(mib, st, cs, m);
    CursorStep(mib, st, cs[r], k);
    if k > 0 {
      GridSlot(mib, st, next, m - 1, k - 1, r);
      RowIndex(slots, Rounds(mib, st, next, m - 1), k, r);
    } else {
      FirstRow(slots, if AnyActive(next) then Rounds(mib, st, next, m - 1) else [], r);
    }
  }

  lemma GridStep<S(!new)>(mib: Registered<S>, st: S, cs: seq<Cursor>, m: nat)
    requires WellFormed(mib) && m > 0
    ensures var next := RoundNext(mib, st, cs);
            && Rounds(mib, st, cs, m) ==
               RoundSlots(mib, st, cs) + (if AnyActive(next) then Rounds(mib, st, next, m - 1) else [])
            && RoundsRun(mib, st, cs, m) == if AnyActive(next) then 1 + RoundsRun(mib, st, next, m - 1) else 1
  {
  }

  lemma CursorStep<S(!new)>(mib: Registered<S>, st: S, c: Cursor, k: nat)
    requires WellFormed(mib)
    ensures CursorAt(mib, st, c, 0) == c
    ensures k > 0 ==> CursorAt(mib, st, c, k) == CursorAt(mib, st, Step(mib, st, c), k - 1)
  {
  }

  /** Behind the first row, row k is row k - 1. */
  lemma RowIndex(slots: seq<Varbind>, rest: seq<Varbind>, k: nat, r: nat)
    requires k > 0 && 0 <= (k - 1) * |slots| + r < |rest|
    ensures 0 <= k * |slots| + r < |slots + rest|
    ensures (slots + rest)[k * |slots| + r] == rest[(k - 1) * |slots| + r]
  {
    assert k * |slots| == |slots| + (k - 1) * |slots|;
  }

  lemma FirstRow(slots: seq<Varbind>, rest: seq<Varbind>, r: nat)
    requires r < |slots|
    ensures 0 <= 0 * |slots| + r < |slots + rest| && (slots + rest)[0 * |slots| + r] == slots[r]
  {
  }

  // ---------------------------------------------------------------- the grid in terms of successors

  /** The first k iterates of successor lookup from oid exist and can be read. */
  ghost predicate ReadsThrough<S(!new)>(mib: Registered<S>, st: S, oid: Oid, k: nat)
    requires WellFormed(mib)
    decreases k
  {
    k > 0 ==>
      var next := Successor(View(mib, st), oid);
      next.Some? && Fetch(mib, st, V2C, ExactMatch, next.value).Good? && ReadsThrough(mib, st, next.value, k - 1)
  }

  /** The last of the first k iterates that exists and can be read, along with all before it. */
  ghost function LastRead<S(!new)>(mib: Registered<S>, st: S, oid: Oid, k: nat): Oid
    requires WellFormed(mib)
    decreases k
  {
    if ReadsThrough(mib, st, oid, 1) && k > 0 then
      LastRead(mib, st, Successor(View(mib, st), oid).value, k - 1)
    else oid
  }

  /** Why a repeater that has reached a name cannot go on: the view ends there, or the getter of the next name does not
      answer. A getter that reports the name missing is passed on, any other failure reads as endOfMibView. */
  ghost function StopReason<S(!new)>(mib: Registered<S>, st: S, at: Oid): ExceptionKind
    requires WellFormed(mib)
  {
    var next := Successor(View(mib, st), at);
    if next.None? then EndOfMibViewValue
    else
      match Fetch(mib, st, V2C, ExactMatch, next.value)
      case Bad(NoSuchObject) => NoSuchObjectValue
      case Bad(NoSuchInstance) => NoSuchInstanceValue
      case _ => EndOfMibViewValue
  }

  /** What a repeater that was asked for name should yield in round k, counting from 0: the varbind of its (k+1)-th
      iterate while everything up to it can be read; otherwise an exception under the last name it reached, which gives
      the reason in the round in which it stops and is endOfMibView in all later ones. */
  ghost predicate IsRoundSlot<S(!new)>(mib: Registered<S>, st: S, name: Oid, k: nat, slot: Varbind)
    requires WellFormed(mib)
  {
    var last := LastRead(mib, st, name, k);
    if ReadsThrough(mib, st, name, k + 1) then
      slot.oid == LastRead(mib, st, name, k + 1) && Fetch(mib, st, V2C, ExactMatch, slot.oid) == Good(slot)
    else if ReadsThrough(mib, st, name, k) then slot == Varbind(last, Exception(StopReason(mib, st, last)))
    else slot == Varbind(last, Exception(EndOfMibViewValue))
  }

  lemma {:induction false} ExhaustedStays<S(!new)>(mib: Registered<S>, st: S, c: Cursor, k: nat)
    requires WellFormed(mib) && c.exhausted
    ensures CursorAt(mib, st, c, k) == c
    decreases k
  {
    if k > 0 {
      ExhaustedStays(mib, st, c, k - 1);
    }
  }

  /** One step from a name, in terms of the view. */
  lemma StepFrom<S(!new)>(mib: Registered<S>, st: S, vb: Varbind)
    requires WellFormed(mib)
    ensures var c, next := Cursor(vb, false), Successor(View(mib, st), vb.oid);
            && (ReadsThrough(mib, st, vb.oid, 1) ==>
                  && !Step(mib, st, c).exhausted && Step(mib, st, c).at == StepSlot(mib, st, c)
                  && StepSlot(mib, st, c).oid == next.value
                  && Fetch(mib, st, V2C, ExactMatch, next.value) == Good(StepSlot(mib, st, c)))
            && (!ReadsThrough(mib, st, vb.oid, 1) ==>
                  && Step(mib, st, c) == Cursor(vb, true)
                  && StepSlot(mib, st, c) == Varbind(vb.oid, Exception(StopReason(mib, st, vb.oid))))
  {
    hide WellFormed, View, Fetch;
    V2cFetchMeans(mib, st, NextMatch, vb.oid);
    var next := Successor(View(mib, st), vb.oid);
    assert next.Some? ==> ReadsThrough(mib, st, next.value, 0);
  }

  lemma {:induction false} SlotIsIterate<S(!new)>(mib: Registered<S>, st: S, vb: Varbind, k: nat)
    requires WellFormed(mib)
    ensures IsRoundSlot(mib, st, vb.oid, k, StepSlot(mib, st, CursorAt(mib, st, Cursor(vb, false), k)))
    ensures !CursorAt(mib, st, Cursor(vb, false), k + 1).exhausted <==> ReadsThrough(mib, st, vb.oid, k + 1)
    decreases k
  {
    hide Fetch, WellFormed, View, Step, StepSlot, StopReason;
    var c := Cursor(vb, false);
    var step := Step(mib, st, c);
    StepFrom(mib, st, vb);
    assert CursorAt(mib, st, c, 1) == CursorAt(mib, st, step, 0);
    if ReadsThrough(mib, st, vb.oid, 1) {
      if k > 0 {
        SlotIsIterate(mib, st, step.at, k - 1);
      } else {
        assert LastRead(mib, st, vb.oid, 1) == LastRead(mib, st, step.at.oid, 0);
      }
    } else if k > 0 {
      ExhaustedStays(mib, st, step, k - 1);
      ExhaustedStays(mib, st, step, k);
      ExhaustedYields(mib, st, step);
    }
  }

  lemma ExhaustedYields<S(!new)>(mib: Registered<S>, st: S, c: Cursor)
    requires WellFormed(mib) && c.exhausted
    ensures StepSlot(mib, st, c) == Varbind(c.at.oid, Exception(EndOfMibViewValue))
  {
  }

  /** The number of varbinds before the cap. */
  ghost function GridSize<S(!new)>(mib: Registered<S>, st: S, f: Fields): nat
    requires WellFormed(mib)
  {
    NonRepeaters(f) + Area(RoundsRun(mib, st, StartCursors(f), MaxRepetitions(f)), Repeaters(f))
  }

  function Area(rows: nat, columns: nat): nat {
    rows * columns
  }

  lemma {:induction false} RoundsLength<S(!new)>(mib: Registered<S>, st: S, cs: seq<Cursor>, m: nat)
    requires WellFormed(mib)
    ensures |Rounds(mib, st, cs, m)| == Area(RoundsRun(mib, st, cs, m), |cs|)
    decreases m
  {
    hide WellFormed, RoundSlots, RoundNext, AnyActive;
    if m > 0 {
      RoundsLength(mib, st, RoundNext(mib, st, cs), m - 1);
    }
  }

  /** The reply is as long as the grid, up to 50, also where there are no repeaters or no rounds. */
  lemma BulkReplyLength<S(!new)>(mib: Registered<S>, st: S, f: Fields)
    requires WellFormed(mib)
    ensures |BulkReply(mib, st, f).varbinds| ==
            if GridSize(mib, st, f) <= MAX_VARBINDS then GridSize(mib, st, f) else MAX_VARBINDS
  {
    hide WellFormed, Rounds, RoundsRun, Area;
    RoundsLength(mib, st, StartCursors(f), MaxRepetitions(f));
  }

  /** Row k, column j of the grid, behind n non-repeaters and as far as the reply goes. */
  ghost predicate GridCell<S(!new)>(mib: Registered<S>, st: S, f: Fields, n: nat, width: nat, reply: seq<Varbind>,
                                    k: nat, j: nat)
    requires WellFormed(mib) && n + j < |f.varbinds|
  {
    var i := n + (k * width + j);
    i < |reply| ==> IsRoundSlot(mib, st, f.varbinds[n + j].oid, k, reply[i])
  }

  /** Column j moves in round k, counting from 0: all names up to there can be read. */
  ghost predicate ColumnMoves<S(!new)>(mib: Registered<S>, st: S, f: Fields, n: nat, k: nat, j: nat)
    requires WellFormed(mib) && n + j < |f.varbinds|
  {
    ReadsThrough(mib, st, f.varbinds[n + j].oid, k + 1)
  }

  ghost predicate SomeMoves<S(!new)>(mib: Registered<S>, st: S, f: Fields, n: nat, width: nat, k: nat)
    requires WellFormed(mib) && n + width <= |f.varbinds|
  {
    exists j | 0 <= j < width :: ColumnMoves(mib, st, f, n, k, j)
  }

  /** Section 4.2.3 of RFC 3416, from the fields of the request: n non-repeaters, the rest repeaters of which 16 are
      served, and the given number of rounds. The reply has n slots, then one row for each round, and is cut at 50;
      every round before the last moves somebody, and if repetitions are left over the last round moves nobody. */
  ghost predicate IsBulkReply<S(!new)>(mib: Registered<S>, st: S, f: Fields, reply: seq<Varbind>, rounds: nat)
    requires WellFormed(mib)
  {
    var total := |f.varbinds|;
    var n := if f.errorStatus <= 0 then 0 else if f.errorStatus >= total then total else f.errorStatus;
    var width := if total - n >= 16 then 16 else total - n;
    var size := n + rounds * width;
    && |reply| == (if size <= 50 then size else 50)
    && (forall i | 0 <= i < n && i < |reply| :: IsRoundSlot(mib, st, f.varbinds[i].oid, 0, reply[i]))
    && (forall k, j | 0 <= k < rounds && 0 <= j < width :: GridCell(mib, st, f, n, width, reply, k, j))
    && (if f.errorIndex <= 0 then rounds == 0 else 1 <= rounds <= f.errorIndex)
    && (forall k | 0 <= k < rounds - 1 :: SomeMoves(mib, st, f, n, width, k))
    && (0 < rounds < f.errorIndex ==> !SomeMoves(mib, st, f, n, width, rounds - 1))
  }

  /** Slot r of round k, if it is not cut off. */
  lemma BulkSlot<S(!new)>(mib: Registered<S>, st: S, f: Fields, k: nat, r: nat, i: nat)
    requires WellFormed(mib)
    requires r < Repeaters(f) && k < RoundsRun(mib, st, StartCursors(f), MaxRepetitions(f))
    requires i == NonRepeaters(f) + (k * Repeaters(f) + r)
    ensures var reply := BulkReply(mib, st, f).varbinds;
            i < |reply| ==> IsRoundSlot(mib, st, f.varbinds[NonRepeaters(f) + r].oid, k, reply[i])
    ensures Moves(mib, st, StartCursors(f), r, k) <==>
            ReadsThrough(mib, st, f.varbinds[NonRepeaters(f) + r].oid, k + 1)
  {
    hide WellFormed, Rounds, StepSlot, IsRoundSlot, RoundsRun, CursorAt, ReadsThrough;
    var cs, n := StartCursors(f), NonRepeaters(f);
    GridSlot(mib, st, cs, MaxRepetitions(f), k, r);
    SlotIsIterate(mib, st, f.varbinds[n + r], k);
    assert Uncapped(mib, st, f)[i] == Rounds(mib, st, cs, MaxRepetitions(f))[i - n];
  }

  /** Who moves, in terms of what can be read. */
  lemma RoundMovesExact<S(!new)>(mib: Registered<S>, st: S, f: Fields, k: nat)
    requires WellFormed(mib)
    ensures RoundMoves(mib, st, StartCursors(f), k) <==>
            SomeMoves(mib, st, f, NonRepeaters(f), Repeaters(f), k)
  {
    hide WellFormed, ReadsThrough, CursorAt, StepSlot, IsRoundSlot;
    var cs, n := StartCursors(f), NonRepeaters(f);
    forall r | 0 <= r < |cs|
      ensures Moves(mib, st, cs, r, k) <==> ColumnMoves(mib, st, f, n, k, r)
    {
      SlotIsIterate(mib, st, f.varbinds[n + r], k);
    }
    if RoundMoves(mib, st, cs, k) {
      var r :| 0 <= r < |cs| && Moves(mib, st, cs, r, k);
      assert ColumnMoves(mib, st, f, n, k, r);
    }
    if SomeMoves(mib, st, f, n, Repeaters(f), k) {
      var r :| 0 <= r < Repeaters(f) && ColumnMoves(mib, st, f, n, k, r);
      assert Moves(mib, st, cs, r, k);
    }
  }

  /** The reply to every GETBULK is the grid that section 4.2.3 of RFC 3416 asks for. */
  lemma BulkGrid<S(!new)>(mib: Registered<S>, st: S, f: Fields) returns (rounds: nat)
    requires WellFormed(mib) && |f.varbinds| <= MAX_VARBINDS
    ensures IsBulkReply(mib, st, f, BulkReply(mib, st, f).varbinds, rounds)
  {
    hide WellFormed, Rounds, IsRoundSlot, RoundsRun, SomeMoves, RoundMoves, FirstPart, GridCell, BulkReply;
    rounds := RoundsRun(mib, st, StartCursors(f), MaxRepetitions(f));
    BulkReplyLength(mib, st, f);
    GridCells(mib, st, f);
    GridRounds(mib, st, f);
  }

  lemma GridCells<S(!new)>(mib: Registered<S>, st: S, f: Fields)
    requires WellFormed(mib) && |f.varbinds| <= MAX_VARBINDS
    ensures var reply := BulkReply(mib, st, f).varbinds;
            && (forall i | 0 <= i < NonRepeaters(f) && i < |reply| ::
                  IsRoundSlot(mib, st, f.varbinds[i].oid, 0, reply[i]))
            && (forall k, j |
                  0 <= k < RoundsRun(mib, st, StartCursors(f), MaxRepetitions(f)) && 0 <= j < Repeaters(f) ::
                  GridCell(mib, st, f, NonRepeaters(f), Repeaters(f), reply, k, j))
  {
    hide WellFormed, IsRoundSlot, RoundsRun, BulkReply;
    var reply, n, width := BulkReply(mib, st, f).varbinds, NonRepeaters(f), Repeaters(f);
    forall i | 0 <= i < n && i < |reply| ensures IsRoundSlot(mib, st, f.varbinds[i].oid, 0, reply[i]) {
      FrontSlot(mib, st, f, i);
    }
    forall k, j | 0 <= k < RoundsRun(mib, st, StartCursors(f), MaxRepetitions(f)) && 0 <= j < width
      ensures GridCell(mib, st, f, n, width, reply, k, j)
    {
      BulkSlot(mib, st, f, k, j, n + (k * width + j));
    }
  }

  lemma GridRounds<S(!new)>(mib: Registered<S>, st: S, f: Fields)
    requires WellFormed(mib)
    ensures var rounds := RoundsRun(mib, st, StartCursors(f), MaxRepetitions(f));
            && (if MaxRepetitions(f) == 0 then rounds == 0 else 1 <= rounds <= MaxRepetitions(f))
            && (forall k | 0 <= k < rounds - 1 :: SomeMoves(mib, st, f, NonRepeaters(f), Repeaters(f), k))
            && (0 < rounds < MaxRepetitions(f) ==>
                  !SomeMoves(mib, st, f, NonRepeaters(f), Repeaters(f), rounds - 1))
  {
    hide WellFormed, SomeMoves, RoundMoves, RoundsRun;
    RoundsRunExact(mib, st, StartCursors(f), MaxRepetitions(f));
    forall k: nat
      ensures RoundMoves(mib, st, StartCursors(f), k) <==>
              SomeMoves(mib, st, f, NonRepeaters(f), Repeaters(f), k)
    {
      RoundMovesExact(mib, st, f, k);
    }
  }

  lemma FrontSlot<S(!new)>(mib: Registered<S>, st: S, f: Fields, i: nat)
    requires WellFormed(mib) && i < NonRepeaters(f) && |f.varbinds| <= MAX_VARBINDS
    ensures var reply := BulkReply(mib, st, f).varbinds;
            i < |reply| && IsRoundSlot(mib, st, f.varbinds[i].oid, 0, reply[i])
  {
    hide WellFormed, Rounds, IsRoundSlot;
    SlotIsIterate(mib, st, f.varbinds[i], 0);
  }

  /** As many names as the request calls non-repeaters are looked up once each, at the front of the reply. */
  lemma BulkFront<S(!new)>(mib: Registered<S>, st: S, f: Fields, i: nat)
    requires WellFormed(mib) && i < |f.varbinds| <= MAX_VARBINDS && i < f.errorStatus
    ensures var reply := BulkReply(mib, st, f).varbinds;
            i < |reply| && IsRoundSlot(mib, st, f.varbinds[i].oid, 0, reply[i])
  {
    hide WellFormed, BulkReply, IsRoundSlot;
    FrontSlot(mib, st, f, i);
  }

  // ---------------------------------------------------------------- endOfMibView where the view does not end

  lemma {:induction false} ReadsOneMore<S(!new)>(mib: Registered<S>, st: S, name: Oid, k: nat)
    requires WellFormed(mib)
    ensures var last := LastRead(mib, st, name, k);
            && (ReadsThrough(mib, st, name, k + 1) <==>
                ReadsThrough(mib, st, name, k) && ReadsThrough(mib, st, last, 1))
            && LastRead(mib, st, name, k + 1) ==
               if ReadsThrough(mib, st, name, k + 1) then Successor(View(mib, st), last).value else last
    decreases k
  {
    hide WellFormed, View, Fetch;
    var next := Successor(View(mib, st), name);
    if next.Some? {
      assert ReadsThrough(mib, st, next.value, 0);
      assert LastRead(mib, st, next.value, 0) == next.value;
    }
    if k > 0 && ReadsThrough(mib, st, name, 1) {
      ReadsOneMore(mib, st, next.value, k - 1);
    }
  }

  lemma {:induction false} ReadsPrefix<S(!new)>(mib: Registered<S>, st: S, name: Oid, k: nat, j: nat)
    requires WellFormed(mib) && j <= k && ReadsThrough(mib, st, name, k)
    ensures ReadsThrough(mib, st, name, j)
    decreases k
  {
    hide ReadsThrough, WellFormed;
    if j < k {
      ReadsOneMore(mib, st, name, k - 1);
      ReadsPrefix(mib, st, name, k - 1, j);
    }
  }

  /** The names a repeater reads are a walk, the same that GETNEXT takes step by step. */
  lemma RepeaterWalks<S(!new)>(mib: Registered<S>, st: S, name: Oid, n: nat)
    requires WellFormed(mib) && ReadsThrough(mib, st, name, n)
    ensures IsWalk(seq(n + 1, k => View(mib, st)), seq(n + 1, k requires 0 <= k => LastRead(mib, st, name, k)))
  {
    hide ReadsThrough, WellFormed, View, LeastAbove;
    forall k | 0 <= k < n ensures
      LeastAbove(View(mib, st), LastRead(mib, st, name, k), Some(LastRead(mib, st, name, k + 1)))
    {
      ReadsPrefix(mib, st, name, n, k + 1);
      ReadsOneMore(mib, st, name, k);
      ReadsOn(mib, st, LastRead(mib, st, name, k));
    }
  }

  lemma ReadsOn<S(!new)>(mib: Registered<S>, st: S, name: Oid)
    requires WellFormed(mib) && ReadsThrough(mib, st, name, 1)
    ensures Successor(View(mib, st), name).Some?
  {
  }

  /** The round in which a repeater stopped; it has stood still since. */
  lemma {:induction false} StoppedIn<S(!new)>(mib: Registered<S>, st: S, name: Oid, k: nat) returns (j: nat)
    requires WellFormed(mib) && !ReadsThrough(mib, st, name, k + 1)
    ensures j <= k && ReadsThrough(mib, st, name, j) && !ReadsThrough(mib, st, name, j + 1)
    ensures LastRead(mib, st, name, k) == LastRead(mib, st, name, j)
    decreases k
  {
    hide WellFormed, View, Fetch, LastRead;
    j := k;
    if k > 0 && !ReadsThrough(mib, st, name, k) {
      j := StoppedIn(mib, st, name, k - 1);
      ReadsOneMore(mib, st, name, k - 1);
    }
  }

  /** There is a next name, but it cannot be read. */
  ghost predicate Blocked<S(!new)>(mib: Registered<S>, st: S, at: Oid)
    requires WellFormed(mib)
  {
    var next := Successor(View(mib, st), at);
    next.Some? && Fetch(mib, st, V2C, ExactMatch, next.value).Bad?
  }

  /** The repeater is blocked in round k or before, and if only now, not because a getter says that the name is
      missing. */
  ghost predicate StopsShort<S(!new)>(mib: Registered<S>, st: S, name: Oid, k: nat)
    requires WellFormed(mib)
  {
    exists j | 0 <= j <= k :: ReadsThrough(mib, st, name, j) && BlockedIn(mib, st, name, j, k)
  }

  ghost predicate BlockedIn<S(!new)>(mib: Registered<S>, st: S, name: Oid, j: nat, k: nat)
    requires WellFormed(mib)
  {
    var at := LastRead(mib, st, name, j);
    Blocked(mib, st, at) && (j == k ==> StopReason(mib, st, at) == EndOfMibViewValue)
  }

  /** A slot that is not the value of a name says endOfMibView although names lie above the one it is under exactly when
      the repeater stopped short: a getter on the way failed, now or in an earlier round. */
  lemma FalseEndExact<S(!new)>(mib: Registered<S>, st: S, name: Oid, k: nat, slot: Varbind)
    requires WellFormed(mib) && IsRoundSlot(mib, st, name, k, slot)
    requires ReadsThrough(mib, st, name, k + 1) ==> slot.value != Exception(EndOfMibViewValue)
    ensures slot.value == Exception(EndOfMibViewValue) && !LeastAbove(View(mib, st), slot.oid, None) <==>
            StopsShort(mib, st, name, k)
  {
    hide WellFormed, View, Less, ReadsThrough, LastRead, Fetch, StopReason, Blocked;
    if ReadsThrough(mib, st, name, k + 1) {
      NotBlockedBefore(mib, st, name, k + 1);
    } else {
      var j := StoppedIn(mib, st, name, k);
      StopsAt(mib, st, name, j);
      NotBlockedBefore(mib, st, name, j);
      forall i | 0 <= i <= k && ReadsThrough(mib, st, name, i) ensures i <= j {
        if j < i {
          ReadsPrefix(mib, st, name, i, j + 1);
          assert false;
        }
      }
      assert StopsShort(mib, st, name, k) <==> BlockedIn(mib, st, name, j, k);
    }
  }

  lemma NotBlockedBefore<S(!new)>(mib: Registered<S>, st: S, name: Oid, k: nat)
    requires WellFormed(mib) && ReadsThrough(mib, st, name, k)
    ensures forall j | 0 <= j < k :: !Blocked(mib, st, LastRead(mib, st, name, j))
  {
    hide WellFormed, View, Fetch, LastRead;
    forall j | 0 <= j < k ensures !Blocked(mib, st, LastRead(mib, st, name, j)) {
      ReadsPrefix(mib, st, name, k, j + 1);
      ReadsOneMore(mib, st, name, j);
    }
  }

  /** A repeater stops because it is blocked or because the view ends. */
  lemma StopsAt<S(!new)>(mib: Registered<S>, st: S, name: Oid, j: nat)
    requires WellFormed(mib)
    requires ReadsThrough(mib, st, name, j) && !ReadsThrough(mib, st, name, j + 1)
    ensures var last := LastRead(mib, st, name, j);
            && (LeastAbove(View(mib, st), last, None) <==> !Blocked(mib, st, last))
            && (LeastAbove(View(mib, st), last, None) ==> StopReason(mib, st, last) == EndOfMibViewValue)
  {
    hide WellFormed, View, Fetch, LastRead, Less;
    var last := LastRead(mib, st, name, j);
    var next := Successor(View(mib, st), last);
    ReadsOneMore(mib, st, name, j);
    if next.Some? {
      assert ReadsThrough(mib, st, next.value, 0);
      assert next.value in View(mib, st);
    }
  }

  /** A repeater that starts at 1.3: it reaches 1.3.0 and stops there. */
  lemma FaultyScalarsSteps(start: Cursor)
    requires start == Cursor(Varbind([1, 3], Null), false)
    ensures WellFormed(OneModule(FaultyScalars()))
    ensures var mib, first := OneModule(FaultyScalars()), Varbind(ScalarName(0), Integer(7));
            && StepSlot(mib, 0, start) == first && Step(mib, 0, start) == Cursor(first, false)
            && StepSlot(mib, 0, Cursor(first, false)) == Varbind(ScalarName(0), Exception(EndOfMibViewValue))
            && Step(mib, 0, Cursor(first, false)) == Cursor(first, true)
  {
    hide Fetch, WellFormed, OneModule;
    NumberedFetch(FaultyScalars(), 0, [1, 3], 0);
    NumberedFetch(FaultyScalars(), 0, ScalarName(0), 1);
  }

  lemma OneRepeater<S(!new)>(mib: Registered<S>, st: S, c: Cursor, m: nat)
    requires WellFormed(mib) && m > 0
    ensures Rounds(mib, st, [c], m) ==
            [StepSlot(mib, st, c)] +
            if Step(mib, st, c).exhausted then [] else Rounds(mib, st, [Step(mib, st, c)], m - 1)
  {
    hide Step, StepSlot, WellFormed;
    var next := Step(mib, st, c);
    assert RoundNext(mib, st, [c]) == [next] && RoundSlots(mib, st, [c]) == [StepSlot(mib, st, c)];
    AnyActiveSnoc([], next);
    assert [] + [next] == [next];
  }

  lemma OnlyRepeaterTwoRounds<S(!new)>(mib: Registered<S>, st: S, vb: Varbind, first: Varbind, last: Varbind)
    requires WellFormed(mib)
    requires StepSlot(mib, st, Cursor(vb, false)) == first && Step(mib, st, Cursor(vb, false)) == Cursor(first, false)
    requires StepSlot(mib, st, Cursor(first, false)) == last && Step(mib, st, Cursor(first, false)).exhausted
    ensures BulkReply(mib, st, Fields(PDU_GET_BULK, 7, 0, 5, [vb])) ==
            Fields(PDU_RESPONSE, 7, NO_ERROR, 0, [first, last])
  {
    hide Step, StepSlot, WellFormed, Rounds;
    var f := Fields(PDU_GET_BULK, 7, 0, 5, [vb]);
    assert StartCursors(f) == [Cursor(vb, false)] && FirstPart(mib, st, f) == [];
    OneRepeater(mib, st, Cursor(vb, false), 5);
    OneRepeater(mib, st, Cursor(first, false), 4);
  }

  /** A GETBULK for what follows 1.3, where 1.3.1 cannot be read: after 1.3.0 the reply says endOfMibView and stops,
      though five repetitions were asked for and 1.3.1 and 1.3.2 are there. */
  lemma FalseEnd()
    ensures var mib := OneModule(FaultyScalars());
            && WellFormed(mib) && ScalarName(2) in View(mib, 0)
            && BulkReply(mib, 0, Fields(PDU_GET_BULK, 7, 0, 5, [Varbind([1, 3], Null)])) ==
               Fields(PDU_RESPONSE, 7, NO_ERROR, 0, [Varbind(ScalarName(0), Integer(7)),
                                                     Varbind(ScalarName(0), Exception(EndOfMibViewValue))])
  {
    var mib, vb := OneModule(FaultyScalars()), Varbind([1, 3], Null);
    hide Step, StepSlot, WellFormed, BulkReply, View, OneModule;
    NumberedView(FaultyScalars(), 0);
    FaultyScalarsSteps(Cursor(vb, false));
    OnlyRepeaterTwoRounds(mib, 0, vb, Varbind(ScalarName(0), Integer(7)),
                          Varbind(ScalarName(0), Exception(EndOfMibViewValue)));
  }
}
