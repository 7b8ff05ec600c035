/** A manager at the other end: it walks the MIB with GETNEXT datagrams while rows come and go, and what it reads in the
    answers is a walk of what there was to see. */
module Manager {
  import opened Types
  import opened Ber
  import opened Oids
  import opened Codec
  import opened PduCodec
  import opened Mib
  import opened Walk
  import opened Examples
  import opened ReadPdu
  import opened Community
  import opened Agent

  /** Whom the manager talks to and how. */
  datatype Session = Session(cfg: Config, version: Version, community: Bytes) {
    predicate Valid() {
      cfg.Valid() && (community == cfg.ro || community == cfg.rw)
    }
  }

  /** One exchange: the state the MIB is in by then, the request-id, and the room the agent has for its answer. */
  datatype Exchange<S> = Exchange(st: S, id: int32, cap: nat)

  function NextRequest(id: int32, name: Oid): Fields {
    Fields(PDU_GET_NEXT, id, 0, 0, [Varbind(name, Null)])
  }

  /** What the manager learns from an answer. */
  datatype Sight = Name(oid: Oid) | End | Other

  /** A value under a name; or that there is nothing more, which v1 says with noSuchName and v2c with endOfMibView. */
  function ReadSight(version: Version, answer: Option<Bytes>): Sight {
    if answer.None? || ParseByManager(answer.value).Err? then Other
    else Interpret(version, ParseByManager(answer.value).value.2)
  }

  function Interpret(version: Version, f: Fields): Sight {
    if |f.varbinds| != 1 then Other
    else
      var vb := f.varbinds[0];
      if f.errorStatus == NO_ERROR && !vb.value.Exception? then Name(vb.oid)
      else if version == V1 && f.errorStatus == NO_SUCH_NAME then End
      else if version == V2C && f.errorStatus == NO_ERROR && vb.value == Exception(EndOfMibViewValue) then End
      else Other
  }

  /** The manager asks for what follows name. */
  ghost function Ask<S(!new)>(s: Session, mib: Registered<S>, x: Exchange<S>, name: Oid): Sight
    requires WellFormed(mib)
  {
    var msg := EncMessage(s.version, s.community, NextRequest(x.id, name));
    if msg.None? then Other else ReadSight(s.version, Respond(s.cfg, mib, x.st, msg.value, x.cap).datagram)
  }

  /** What there is to see: v1 does not see Counter64. */
  ghost function Seen<S(!new)>(version: Version, mib: Registered<S>, st: S): set<Oid>
    requires WellFormed(mib)
  {
    if version == V1 then VisibleView(mib, st) else View(mib, st)
  }

  lemma NextIsCarriable(id: int32, name: Oid)
    requires CarriableOid(name)
    ensures Carriable(NextRequest(id, name).varbinds[0])
  {
  }

  /** What the MIB reports for this request survives the wire if it can be encoded at all. */
  ghost predicate SurvivesWire<S(!new)>(version: Version, mib: Registered<S>, st: S, name: Oid)
    requires WellFormed(mib)
  {
    var o := Fetch(mib, st, version, NextMatch, name);
    o.Good? ==> Echoable(o.vb)
  }

  /** What the manager makes of an answer is what the handler's PDU says, if an answer is sent. One is sent, given 400
      octets of room, if the PDU can be carried. */
  lemma AskMeans<S(!new)>(s: Session, mib: Registered<S>, x: Exchange<S>, name: Oid)
    requires s.Valid() && WellFormed(mib) && x.cap < SIZE_LIMIT && CarriableOid(name)
    ensures var reply := ReadReply(mib, x.st, s.version, NextMatch, NextRequest(x.id, name));
            && |reply.varbinds| == 1
            && (SurvivesWire(s.version, mib, x.st, name) && Ask(s, mib, x, name) != Other ==>
                  Ask(s, mib, x, name) == Interpret(s.version, reply) && Carriable(reply.varbinds[0]))
            && (Carriable(reply.varbinds[0]) && x.cap >= 400 ==> Ask(s, mib, x, name) == Interpret(s.version, reply))
  {
    hide EncMessage, RequestIn, CarriableOid, Carriable, WellFormed, ReadReply, ParseByManager, Interpret;
    hide SurvivesWire, SoundMib, EncPdu;
    var f := NextRequest(x.id, name);
    var reply := ReadReply(mib, x.st, s.version, NextMatch, f);
    assert f.varbinds[1..] == [] && Carriable(f.varbinds[0]) by { NextIsCarriable(x.id, name); }
    assert AllCarriable(f.varbinds);
    RequestMessageIsRead(s.cfg, s.version, s.community, f);
    var msg := EncMessage(s.version, s.community, f).value;
    DispatchShape(mib, x.st, s.version, ReadOnly, f);
    ReplyIsReadable(s.cfg, mib, x.st, msg, x.cap);
    assert reply.varbinds[1..] == [];
    if Carriable(reply.varbinds[0]) {
      MessageSize(s.version, s.community, reply);
    } else if SurvivesWire(s.version, mib, x.st, name) {
      AnswerIsEchoable(mib, x.st, s.version, f);
      EncMessageParts(s.version, s.community, reply);
      EncPduParts(reply);
      if EncVarbinds(reply.varbinds).Some? {
        EncodedIsCarriable(reply.varbinds);
      }
    }
  }

  lemma AnswerIsEchoable<S(!new)>(mib: Registered<S>, st: S, version: Version, f: Fields)
    requires WellFormed(mib) && |f.varbinds| == 1 && Carriable(f.varbinds[0])
    requires SurvivesWire(version, mib, st, f.varbinds[0].oid)
    ensures AllEchoable(ReadReply(mib, st, version, NextMatch, f).varbinds)
  {
    hide WellFormed, ReadReply, Fetch;
    ReadReplyIsEchoable(mib, st, version, NextMatch, f);
  }

  /** A name the manager reads is the next one there was to see, and one it can ask for in turn. An end it reads is the
      end, if the next name is honest. */
  lemma AskIsStep<S(!new)>(s: Session, mib: Registered<S>, x: Exchange<S>, name: Oid)
    requires s.Valid() && WellFormed(mib) && x.cap < SIZE_LIMIT && CarriableOid(name)
    requires SurvivesWire(s.version, mib, x.st, name)
    ensures var a, seen := Ask(s, mib, x, name), Seen(s.version, mib, x.st);
            && (a.Name? ==> LeastAbove(seen, name, Some(a.oid)) && CarriableOid(a.oid))
            && (a.End? && Honest(mib, x.st, Successor(seen, name)) ==> LeastAbove(seen, name, None))
  {
    hide EncMessage, CarriableOid, WellFormed, SurvivesWire, ReadReply, View, VisibleView, LeastAbove, Ask, Honest;
    var f := NextRequest(x.id, name);
    AskMeans(s, mib, x, name);
    if Ask(s, mib, x, name) != Other {
      if s.version == V1 {
        V1NextReply(mib, x.st, f, 0);
        V1AllOrNothing(mib, x.st, NextMatch, f);
      } else if ReadReply(mib, x.st, V2C, NextMatch, f).errorStatus == NO_ERROR {
        V2cNextReply(mib, x.st, f, 0);
      }
    }
  }

  /** The other way round: where there is a next name and it can be read and carried, the manager reads it, and at the
      end it reads the end. For v1 not too many Counter64 instances may lie before it. */
  lemma AskFinds<S(!new)>(s: Session, mib: Registered<S>, x: Exchange<S>, name: Oid)
    requires s.Valid() && WellFormed(mib) && 400 <= x.cap < SIZE_LIMIT && CarriableOid(name)
    requires s.version == V1 ==> |Skipped(mib, x.st, name)| <= 63
    ensures var next := Successor(Seen(s.version, mib, x.st), name);
            && (next.None? ==> Ask(s, mib, x, name) == End)
            && (next.Some? ==>
                  var o := Fetch(mib, x.st, V2C, ExactMatch, next.value);
                  o.Good? && Carriable(o.vb) && !o.vb.value.Exception? ==> Ask(s, mib, x, name) == Name(next.value))
  {
    hide EncMessage, CarriableOid, WellFormed, ReadReply, View, VisibleView, Ask, Skipped, Fetch;
    var f := NextRequest(x.id, name);
    AskMeans(s, mib, x, name);
    if s.version == V1 {
      V1SingleReply(mib, x.st, f);
    } else {
      V2cSingleReply(mib, x.st, f);
    }
  }

  lemma V1SingleReply<S(!new)>(mib: Registered<S>, st: S, f: Fields)
    requires WellFormed(mib) && |f.varbinds| == 1 && |Skipped(mib, st, f.varbinds[0].oid)| <= 63
    ensures var reply, next := ReadReply(mib, st, V1, NextMatch, f), Successor(VisibleView(mib, st), f.varbinds[0].oid);
            && (next.None? ==> reply == Fields(PDU_RESPONSE, f.requestId, NO_SUCH_NAME, 1, f.varbinds))
            && (next.Some? ==>
                  var o := Fetch(mib, st, V2C, ExactMatch, next.value);
                  o.Good? ==> reply.errorStatus == NO_ERROR && reply.varbinds == [o.vb] && o.vb.oid == next.value)
  {
    hide WellFormed, VisibleView, Skipped, View, ReadReply, LeastAbove;
    var oid := f.varbinds[0].oid;
    var next := Successor(VisibleView(mib, st), oid);
    if next.None? {
      V1NextAtEnd(mib, st, f, 0);
    } else {
      V1NextIsVisibleSuccessor(mib, st, oid);
      V1AllOrNothing(mib, st, NextMatch, f);
      assert Address(mib, st, V1, NextMatch, oid) == Mib.Resolve(mib, st, next.value);
      NextVisibleIsFound(mib, st, oid);
    }
  }

  lemma NextVisibleIsFound<S(!new)>(mib: Registered<S>, st: S, oid: Oid)
    requires WellFormed(mib)
    ensures var next := Successor(VisibleView(mib, st), oid);
            next.Some? ==> var r := Mib.Resolve(mib, st, next.value); r.Found? && r.r.oid == next.value
  {
    var next := Successor(VisibleView(mib, st), oid);
    if next.Some? {
      ResolveIsMembership(mib, st, next.value);
    }
  }

  lemma V2cSingleReply<S(!new)>(mib: Registered<S>, st: S, f: Fields)
    requires WellFormed(mib) && |f.varbinds| == 1
    ensures var reply, next := ReadReply(mib, st, V2C, NextMatch, f), Successor(View(mib, st), f.varbinds[0].oid);
            && (next.None? ==>
                  && reply.errorStatus == NO_ERROR
                  && reply.varbinds == [Varbind(f.varbinds[0].oid, Exception(EndOfMibViewValue))])
            && (next.Some? ==>
                  var o := Fetch(mib, st, V2C, ExactMatch, next.value);
                  o.Good? ==> reply.errorStatus == NO_ERROR && reply.varbinds == [o.vb] && o.vb.oid == next.value)
  {
    hide WellFormed, View, ReadReply, Fetch;
    V2cPartialAnswer(mib, st, NextMatch, f);
  }

  // ---------------------------------------------------------------- walks

  ghost function Views<S(!new)>(version: Version, mib: Registered<S>, xs: seq<Exchange<S>>): (views: seq<set<Oid>>)
    requires WellFormed(mib)
    ensures |views| == |xs| && forall k | 0 <= k < |xs| :: views[k] == Seen(version, mib, xs[k].st)
  {
    seq(|xs|, k requires 0 <= k < |xs| => Seen(version, mib, xs[k].st))
  }

  /** The manager starts at names[0] and each time asks for what follows the name it read last. The states of the
      exchanges need not be related. */
  ghost predicate IsManagerWalk<S(!new)>(s: Session, mib: Registered<S>, xs: seq<Exchange<S>>, names: seq<Oid>) {
    && s.Valid() && WellFormed(mib)
    && |xs| == |names| > 0 && CarriableOid(names[0])
    && (forall k | 0 <= k < |xs| :: xs[k].cap < SIZE_LIMIT && SurvivesWire(s.version, mib, xs[k].st, names[k]))
    && forall k | 0 <= k < |names| - 1 :: Ask(s, mib, xs[k], names[k]) == Name(names[k + 1])
  }

  lemma {:induction false} NamesAreCarriable<S(!new)>(s: Session, mib: Registered<S>, xs: seq<Exchange<S>>,
                                                     names: seq<Oid>, k: nat)
    requires IsManagerWalk(s, mib, xs, names) && k < |names|
    ensures CarriableOid(names[k])
  {
    hide Ask, WellFormed, SurvivesWire, CarriableOid;
    if k > 0 {
      NamesAreCarriable(s, mib, xs, names, k - 1);
      AskIsStep(s, mib, xs[k - 1], names[k - 1]);
    }
  }

  /** What the manager reads is a walk of what there was to see at each exchange; so its names strictly ascend, and
      there are no more of them than names the registry could ever show. */
  lemma ManagerWalks<S(!new)>(s: Session, mib: Registered<S>, xs: seq<Exchange<S>>, names: seq<Oid>)
    requires IsManagerWalk(s, mib, xs, names)
    ensures IsWalk(Views(s.version, mib, xs), names)
    ensures forall i, j | 0 <= i < j < |names| :: Less(names[i], names[j])
    ensures |names| - 1 <= |Universe(mib)|
  {
    hide Ask, WellFormed, SurvivesWire, CarriableOid, LeastAbove, Universe, Less;
    var views := Views(s.version, mib, xs);
    forall k | 0 <= k < |names| - 1 ensures LeastAbove(views[k], names[k], Some(names[k + 1])) {
      NamesAreCarriable(s, mib, xs, names, k);
      AskIsStep(s, mib, xs[k], names[k]);
    }
    forall i, j | 0 <= i < j < |names| ensures Less(names[i], names[j]) {
      WalkAscends(views, names, i, j);
    }
    forall k | 0 <= k < |views| ensures views[k] <= Universe(mib) {
      ViewInUniverse(mib, xs[k].st);
      VisibleInView(mib, xs[k].st);
    }
    WalkIsFinite(views, names, Universe(mib));
  }

  lemma VisibleInView<S(!new)>(mib: Registered<S>, st: S)
    requires WellFormed(mib)
    ensures VisibleView(mib, st) <= View(mib, st)
  {
  }

  /** A manager that has walked until it reads the end has met every name that lies ahead of its start and was there to
      see at each exchange, and has met it once. */
  lemma ManagerSeesEverything<S(!new)>(s: Session, mib: Registered<S>, xs: seq<Exchange<S>>, names: seq<Oid>, x: Oid)
    requires IsManagerWalk(s, mib, xs, names)
    requires var last, at := xs[|xs| - 1], names[|names| - 1];
             Ask(s, mib, last, at) == End && Honest(mib, last.st, Successor(Seen(s.version, mib, last.st), at))
    requires forall k | 0 <= k < |xs| :: x in Seen(s.version, mib, xs[k].st)
    requires Less(names[0], x)
    ensures exists k | 0 < k < |names| :: names[k] == x
    ensures forall i, j | 0 < i < |names| && 0 < j < |names| && names[i] == x == names[j] :: i == j
  {
    hide Ask, WellFormed, SurvivesWire, CarriableOid, LeastAbove, Universe, Less, Seen, Honest;
    ManagerWalks(s, mib, xs, names);
    NamesAreCarriable(s, mib, xs, names, |names| - 1);
    AskIsStep(s, mib, xs[|xs| - 1], names[|names| - 1]);
    WalkReturnsEverything(Views(s.version, mib, xs), names, x);
  }

  // ---------------------------------------------------------------- an example

  lemma WalkOfOneStep<S(!new)>(s: Session, mib: Registered<S>, x: Exchange<S>, start: Oid, vb: Varbind)
    requires s.Valid() && WellFormed(mib) && 400 <= x.cap < SIZE_LIMIT
    requires SurvivesWire(s.version, mib, x.st, start) && SurvivesWire(s.version, mib, x.st, vb.oid)
    requires CarriableOid(start) && Carriable(vb) && !vb.value.Exception?
    requires Fetch(mib, x.st, V2C, ExactMatch, vb.oid) == Good(vb)
    requires Successor(Seen(s.version, mib, x.st), start) == Some(vb.oid)
    requires Successor(Seen(s.version, mib, x.st), vb.oid) == None
    requires Skipped(mib, x.st, start) == Skipped(mib, x.st, vb.oid) == {}
    ensures IsManagerWalk(s, mib, [x, x], [start, vb.oid]) && Ask(s, mib, x, vb.oid) == End
  {
    hide Ask, WellFormed, SurvivesWire, Seen, Skipped, Fetch;
    AskFinds(s, mib, x, start);
    AskFinds(s, mib, x, vb.oid);
  }

  /** One scalar, 1.3.0, that reads as 0: a manager of either version that starts at 1.3 reads it, and then the end. */
  lemma WalkOfOne(s: Session, id: int32)
    requires s.Valid()
    ensures var mib, x := OneModule(CounterRun(0)), Exchange(0, id, 1472);
            && IsManagerWalk(s, mib, [x, x], [[1, 3], ScalarName(0)])
            && Ask(s, mib, x, ScalarName(0)) == End
            && Honest(mib, 0, Successor(Seen(s.version, mib, 0), ScalarName(0)))
  {
    hide WellFormed, View, VisibleView, Fetch, Ask, OneModule, CounterRun, Mib.ResolveNext, SoundMib, Skipped;
    OneScalarReads();
    var mib := OneModule(CounterRun(0));
    NothingSkipped(mib, 0, [1, 3]);
    NothingSkipped(mib, 0, ScalarName(0));
    FetchedIsEchoable(mib, 0, s.version, NextMatch, [1, 3]);
    FetchedIsEchoable(mib, 0, s.version, NextMatch, ScalarName(0));
    WalkOfOneStep(s, mib, Exchange(0, id, 1472), [1, 3], Varbind(ScalarName(0), Integer(0)));
  }

  lemma OneScalarReads()
    ensures var mib, name := OneModule(CounterRun(0)), ScalarName(0);
            && WellFormed(mib) && SoundMib(mib, 0)
            && Fetch(mib, 0, V2C, ExactMatch, name) == Good(Varbind(name, Integer(0)))
            && Successor(View(mib, 0), [1, 3]) == Successor(VisibleView(mib, 0), [1, 3]) == Some(name)
            && Successor(View(mib, 0), name) == Successor(VisibleView(mib, 0), name) == None
            && Mib.ResolveNext(mib, 0, name).NotFound?
            && var r := Mib.ResolveNext(mib, 0, [1, 3]); r.Found? && r.r.tag != TAG_COUNTER64
  {
    var mib, objs, name := OneModule(CounterRun(0)), CounterRun(0), ScalarName(0);
    NumberedView(objs, 0);
    NumberedFetch(objs, 0, [1, 3], 0);
    NumberedLookup(objs, 0, 0);
    NumberedNext(objs, 0, [1, 3], 0);
    NumberedNext(objs, 0, name, 1);
    hide WellFormed, Fetch, Mib.Resolve, Mib.ResolveNext, View, OneModule, CounterRun, Less;
    assert View(mib, 0) == {name};
    assert VisibleView(mib, 0) == View(mib, 0);
  }
}
