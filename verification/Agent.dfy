/** The whole agent: one datagram in, at most one datagram out, over one reused request context. */
module Agent {
  import opened Types
  import opened Ber
  import opened BerDecoder
  import opened Codec
  import opened PduCodec
  import opened Mib
  import opened Registry
  import opened ReadPdu
  import opened SetPdu
  import opened BulkPdu
  import opened Community
  import opened EchoSize

  // ---------------------------------------------------------------- specification

  /** The new MIB state and the reply PDU, if there is to be one. */
  datatype Handled<S> = Handled(st: S, reply: Option<Fields>)

  /** snmp_dispatch_pdu: which handler, and when there is no answer at all. */
  ghost function Dispatch<S(!new)>(mib: Registered<S>, st: S, version: Version, access: AccessMode, f: Fields)
    : Handled<S>
    requires WellFormed(mib) && |f.varbinds| <= MAX_VARBINDS
  {
    if f.tag == PDU_GET then Handled(st, Some(ReadReply(mib, st, version, ExactMatch, f)))
    else if f.tag == PDU_GET_NEXT then Handled(st, Some(ReadReply(mib, st, version, NextMatch, f)))
    else if f.tag == PDU_SET then
      if access != ReadWrite then Handled(st, None) else Handled(SetReply(mib, st, f).0, Some(SetReply(mib, st, f).1))
    else if f.tag == PDU_GET_BULK then
      if version != V2C then Handled(st, None) else Handled(st, Some(BulkReply(mib, st, f)))
    else Handled(st, None)
  }

  /** The request in a datagram. Versions other than v1 and v2c are declined, and so is everything malformed or sent
      under an unknown community. */
  function RequestIn(cfg: Config, msg: Bytes): (r: Option<Request>)
    ensures r.Some? ==> |r.value.pdu.varbinds| <= MAX_VARBINDS
  {
    var e := ParseEnvelope(msg, 0);
    var request := ParseIncoming(cfg, msg, 0);
    if e.Ok? && (e.value.version == 0 || e.value.version == 1) && request.Ok? then
      RequestIsSmall(e.value.pdu);
      Some(request.value)
    else None
  }

  lemma RequestIsSmall(s: Bytes)
    ensures ParseRequestPdu(s, 1).Ok? ==> |ParseRequestPdu(s, 1).value.varbinds| <= MAX_VARBINDS
  {
    hide ParseTlv, ParseField, ParseExpected, ParseVarbinds;
  }

  /** What a manager sends under a configured community arrives as it was sent. */
  lemma RequestMessageIsRead(cfg: Config, version: Version, community: Bytes, f: Fields)
    requires cfg.Valid() && (community == cfg.ro || community == cfg.rw)
    requires IsRequestTag(f.tag) && AllCarriable(f.varbinds) && |f.varbinds| <= MAX_VARBINDS
    ensures var msg := EncMessage(version, community, f);
            && msg.Some? && msg.value != []
            && RequestIn(cfg, msg.value) ==
               Some(Request(version, if community == cfg.rw then ReadWrite else ReadOnly, community, f))
  {
    hide EncMessage, ParseEnvelope, ParseRequestPdu, AllCarriable, CString, EncPdu;
    MessageSize(version, community, f);
    RequestMessageRoundTrip(cfg, version, community, f, []);
    var msg := EncMessage(version, community, f).value;
    assert msg + [] == msg;
    EncMessageParts(version, community, f);
    EnvelopeRoundTrip(version, community, EncPdu(f).value, []);
  }

  /** The new MIB state and the datagram sent back, if any. */
  datatype Served<S> = Served(st: S, datagram: Option<Bytes>)

  /** What the agent does with a datagram: a function of the datagram, the configuration, the MIB and the room for the
      answer, and of nothing else. An answer that does not fit is not sent, though a SET has then taken effect
      (Answers.SetUnansweredExact). */
  ghost function Respond<S(!new)>(cfg: Config, mib: Registered<S>, st: S, msg: Bytes, cap: nat): Served<S>
    requires WellFormed(mib)
  {
    var request := RequestIn(cfg, msg);
    if msg == [] || cap == 0 || request.None? then Served(st, None)
    else
      var q := request.value;
      var h := Dispatch(mib, st, q.version, q.access, q.pdu);
      if h.reply.None? then Served(h.st, None)
      else
        var enc := EncMessage(q.version, q.community, h.reply.value);
        Served(h.st, if enc.Some? && |enc.value| <= cap then enc else None)
  }

  // ---------------------------------------------------------------- the agent

  class Agent<S(!new)> {
    const ctx: PduCtx
    const reg: Registry<S>
    var cfg: Config

    ghost predicate Valid()
      reads this, ctx, reg
    {
      ctx.Valid() && reg.Valid() && cfg.Valid()
    }

    constructor (registry: Registry<S>, ro: Bytes, rw: Bytes)
      requires registry.Valid()
      ensures Valid() && reg == registry && fresh(ctx) && fresh(ctx.varbinds) && cfg == Configure(ro, rw)
    {
      var c := new PduCtx();
      ctx, reg, cfg := c, registry, Configure(ro, rw);
    }

    /** Routes on the PDU tag. */
    method DispatchPdu() returns (r: Result<()>)
      requires Valid()
      modifies ctx, ctx.varbinds, reg`state
      ensures Valid()
      ensures var h := Dispatch(reg.Entries(), old(reg.state), old(ctx.version), old(ctx.accessMode), old(ctx.Pdu()));
              && reg.state == h.st
              && (r.Ok? <==> h.reply.Some?)
              && (r.Ok? ==> ctx.Pdu() == h.reply.value)
      ensures KeepsEnvelope(ctx)
    {
      hide ReadReply, SetReply, BulkReply, WellFormed;
      if ctx.pduTag == PDU_GET {
        ProcessRead(ctx, reg, ExactMatch);
        return Ok(());
      } else if ctx.pduTag == PDU_GET_NEXT {
        ProcessRead(ctx, reg, NextMatch);
        return Ok(());
      } else if ctx.pduTag == PDU_SET {
        r := HandleSet(ctx, reg);
      } else if ctx.pduTag == PDU_GET_BULK {
        r := HandleGetBulk(ctx, reg);
      } else {
        r := Err(BadTag);
      }
    }

    /** Version sniffing: the outer SEQUENCE and msgVersion, before any security model is chosen. */
    method SniffVersion(msg: Bytes) returns (r: Result<int32>)
      ensures ParseEnvelope(msg, 0).Ok? ==> r == Ok(ParseEnvelope(msg, 0).value.version)
    {
      hide ParseTlv, ParseField;
      var top :- DecodeTlv(msg, 0);
      if top.tag != TAG_SEQUENCE {
        return Err(BadTag);
      }
      var version :- DecodeField(top.value, 1);
      return Ok(version.value);
    }

    /** snmp_message_process. Returns the length of the answer in out, or 0 for none. */
    method Process(msg: Bytes, out: array<byte>) returns (n: nat)
      requires Valid() && out.Length < SIZE_LIMIT
      modifies ctx, ctx.varbinds, reg`state, out
      ensures Valid()
      ensures var served := Respond(cfg, reg.Entries(), old(reg.state), msg, out.Length);
              && reg.state == served.st
              && n <= out.Length
              && (served.datagram.None? ==> n == 0)
              && (served.datagram.Some? ==> n > 0 && out[..n] == served.datagram.value)
    {
      hide ParseEnvelope, ParseIncoming, Dispatch, EncMessage, WellFormed;
      if |msg| == 0 || out.Length == 0 {
        return 0;
      }
      var version := SniffVersion(msg);
      if version.Err? || !(version.value == 0 || version.value == 1) {
        IncomingHasEnvelope(cfg, msg);
        return 0;
      }
      ctx.Clear();
      var accepted := ProcessIncoming(cfg, msg, 0, ctx);
      if accepted.Err? {
        return 0;
      }
      IncomingHasEnvelope(cfg, msg);
      var handled := DispatchPdu();
      if handled.Err? {
        return 0;
      }
      var sent := PrepareOutgoing(ctx, out);
      if sent.Err? {
        return 0;
      }
      MessageIsNotEmpty(ctx.version, CString(ctx.principal), ctx.Pdu());
      return sent.value;
    }
  }

  lemma IncomingHasEnvelope(cfg: Config, msg: Bytes)
    ensures ParseIncoming(cfg, msg, 0).Ok? ==> ParseEnvelope(msg, 0).Ok?
  {
  }

  lemma MessageIsNotEmpty(version: Version, community: Bytes, pdu: Fields)
    ensures var enc := EncMessage(version, community, pdu); enc.Some? ==> |enc.value| > 0
  {
  }

  // ---------------------------------------------------------------- every reply can be read

  predicate AllEchoable(vbs: seq<Varbind>) {
    forall vb | vb in vbs :: Echoable(vb)
  }

  /** What the MIB reports fits the wire: whatever can be read and encoded at all survives encoding. */
  ghost predicate SoundMib<S(!new)>(mib: Registered<S>, st: S)
    requires WellFormed(mib)
  {
    forall o | o in View(mib, st) && Fetch(mib, st, V2C, ExactMatch, o).Good? ::
      Echoable(Fetch(mib, st, V2C, ExactMatch, o).vb)
  }

  /** Every successful read is the read of a name in the view. */
  lemma FetchedIsEchoable<S(!new)>(mib: Registered<S>, st: S, version: Version, mode: Mode, oid: Oid)
    requires WellFormed(mib) && SoundMib(mib, st)
    ensures var o := Fetch(mib, st, version, mode, oid); o.Good? ==> Echoable(o.vb)
  {
    hide Echoable, WellFormed;
    AddressTarget(mib, st, version, mode, oid);
    var r := Address(mib, st, version, mode, oid);
    if r.Found? {
      ResolveIsMembership(mib, st, r.r.oid);
      assert Fetch(mib, st, V2C, ExactMatch, r.r.oid) == Fetch(mib, st, version, mode, oid);
    }
  }

  /** An exception takes the place of a value under the same name. */
  lemma ExceptionIsEchoable(vb: Varbind, e: ExceptionKind)
    requires Echoable(vb)
    ensures Echoable(Varbind(vb.oid, Exception(e)))
  {
  }

  lemma ReadReplyIsEchoable<S(!new)>(mib: Registered<S>, st: S, version: Version, mode: Mode, f: Fields)
    requires WellFormed(mib) && |f.varbinds| <= MAX_VARBINDS && AllEchoable(f.varbinds)
    requires forall vb | vb in f.varbinds ::
               var o := Fetch(mib, st, version, mode, vb.oid); o.Good? ==> Echoable(o.vb)
    ensures AllEchoable(ReadReply(mib, st, version, mode, f).varbinds)
  {
    hide Echoable, WellFormed, Fetch;
    var os, reply := Outcomes(mib, st, version, mode, f.varbinds), ReadReply(mib, st, version, mode, f).varbinds;
    forall i | 0 <= i < |reply| ensures Echoable(reply[i]) {
      var request := f.varbinds[i];
      assert request in f.varbinds;
      assert os[i] == Fetch(mib, st, version, mode, request.oid);
      if reply[i] != request {
        assert reply[i] == Answered(version, request, os[i]);
        if os[i].Bad? {
          ExceptionIsEchoable(request, Translate(version, os[i].why).exception);
        }
      }
    }
  }

  lemma SlotIsEchoable<S(!new)>(mib: Registered<S>, st: S, c: Cursor)
    requires WellFormed(mib) && SoundMib(mib, st) && Echoable(c.at)
    ensures Echoable(StepSlot(mib, st, c)) && Echoable(Step(mib, st, c).at)
  {
    hide Echoable, WellFormed, Fetch, SoundMib;
    FetchedIsEchoable(mib, st, V2C, NextMatch, c.at.oid);
    ExceptionIsEchoable(c.at, NoSuchObjectValue);
    ExceptionIsEchoable(c.at, NoSuchInstanceValue);
    ExceptionIsEchoable(c.at, EndOfMibViewValue);
  }

  lemma {:induction false} RoundsAreEchoable<S(!new)>(mib: Registered<S>, st: S, cs: seq<Cursor>, m: nat)
    requires WellFormed(mib) && SoundMib(mib, st) && forall i | 0 <= i < |cs| :: Echoable(cs[i].at)
    ensures AllEchoable(Rounds(mib, st, cs, m))
    decreases m
  {
    hide Echoable, WellFormed, SoundMib, Step, StepSlot;
    if m > 0 {
      var slots, next := RoundSlots(mib, st, cs), RoundNext(mib, st, cs);
      forall i | 0 <= i < |cs| ensures Echoable(slots[i]) && Echoable(next[i].at) {
        SlotIsEchoable(mib, st, cs[i]);
      }
      RoundsAreEchoable(mib, st, next, m - 1);
    }
  }

  lemma BulkReplyIsEchoable<S(!new)>(mib: Registered<S>, st: S, f: Fields)
    requires WellFormed(mib) && SoundMib(mib, st) && AllEchoable(f.varbinds)
    ensures AllEchoable(BulkReply(mib, st, f).varbinds)
  {
    hide Echoable, WellFormed, SoundMib, Next, Slot, Rounds;
    var front, cs := FirstPart(mib, st, f), StartCursors(f);
    forall i | 0 <= i < |front| ensures Echoable(front[i]) {
      assert f.varbinds[i] in f.varbinds;
      SlotIsEchoable(mib, st, Cursor(f.varbinds[i], false));
    }
    forall i | 0 <= i < |cs| ensures Echoable(cs[i].at) {
      assert cs[i].at in f.varbinds;
    }
    RoundsAreEchoable(mib, st, cs, MaxRepetitions(f));
  }

  lemma DispatchShape<S(!new)>(mib: Registered<S>, st: S, version: Version, access: AccessMode, f: Fields)
    requires WellFormed(mib) && |f.varbinds| <= MAX_VARBINDS
    ensures var h := Dispatch(mib, st, version, access, f);
            h.reply.Some? ==>
              && h.reply.value.tag == PDU_RESPONSE && h.reply.value.requestId == f.requestId
              && |h.reply.value.varbinds| <= MAX_VARBINDS
              && (f.tag != PDU_GET_BULK ==> |h.reply.value.varbinds| == |f.varbinds|)
              && (f.tag == PDU_SET ==> h.reply.value.varbinds == f.varbinds)
  {
    hide WellFormed, Uncapped, Outcomes, FirstInvalid, Check, Commit;
  }

  /** A SET reply holds what came in, any other reply also what the MIB reports. */
  lemma DispatchIsEchoable<S(!new)>(mib: Registered<S>, st: S, version: Version, access: AccessMode, f: Fields)
    requires WellFormed(mib) && (SoundMib(mib, st) || f.tag == PDU_SET)
    requires |f.varbinds| <= MAX_VARBINDS && AllEchoable(f.varbinds)
    ensures var h := Dispatch(mib, st, version, access, f); h.reply.Some? ==> AllEchoable(h.reply.value.varbinds)
  {
    hide AllEchoable, Echoable, WellFormed, SoundMib, ReadReply, BulkReply, FirstInvalid, Check, Commit, Fetch;
    if f.tag != PDU_SET {
      forall vb, mode | vb in f.varbinds
        ensures var o := Fetch(mib, st, version, mode, vb.oid); o.Good? ==> Echoable(o.vb)
      {
        FetchedIsEchoable(mib, st, version, mode, vb.oid);
      }
      ReadReplyIsEchoable(mib, st, version, ExactMatch, f);
      ReadReplyIsEchoable(mib, st, version, NextMatch, f);
      BulkReplyIsEchoable(mib, st, f);
    }
  }

  lemma {:induction false} EncodedIsCarriable(vbs: seq<Varbind>)
    requires AllEchoable(vbs) && EncVarbinds(vbs).Some?
    ensures AllCarriable(vbs)
  {
    hide EncTlv, EncValue, CarriableValue, CarriableOid;
    if vbs != [] {
      assert vbs[0] in vbs;
      EncodedIsCarriable(vbs[1..]);
    }
  }

  lemma RequestIsEchoable(cfg: Config, msg: Bytes)
    ensures RequestIn(cfg, msg).Some? ==> AllEchoable(RequestIn(cfg, msg).value.pdu.varbinds)
  {
    hide ParseVarbinds, ParseRequestPdu, ParseEnvelope, ListOctets, Echoable;
    if RequestIn(cfg, msg).Some? {
      var e := ParseEnvelope(msg, 0).value;
      ListOfPdu(e.pdu, 1);
      ParsedListIsEchoable(ListOctets(e.pdu, 1).value, 2, MAX_VARBINDS);
    }
  }

  /** A manager reads b as the reply to request q that the handler for q made: a GetResponse with the version and
      request-id of q, under the configured community that q used, free of NULs, with as many varbinds as q for all
      but GETBULK. */
  ghost predicate AnswersRequest(cfg: Config, q: Request, reply: Fields, b: Bytes) {
    && ParseByManager(b) == Ok((VersionNumber(q.version), q.community, reply))
    && 0 !in q.community && (q.community == cfg.ro || q.community == cfg.rw)
    && reply.tag == PDU_RESPONSE && reply.requestId == q.pdu.requestId
    && |reply.varbinds| <= MAX_VARBINDS
    && (q.pdu.tag != PDU_GET_BULK ==> |reply.varbinds| == |q.pdu.varbinds|)
  }

  /** Every datagram sent fits the room for it. A manager reads it as the answer to the request received, with exactly
      the PDU the handler made, if and only if the wire can carry every varbind of that PDU. It can when what the MIB
      reports fits the wire, and in the answer to a SET in any case. */
  lemma ReplyIsReadable<S(!new)>(cfg: Config, mib: Registered<S>, st: S, msg: Bytes, cap: nat)
    requires cfg.Valid() && WellFormed(mib) && cap < SIZE_LIMIT
    ensures var sent := Respond(cfg, mib, st, msg, cap).datagram;
            sent.Some? ==>
              && |sent.value| <= cap
              && RequestIn(cfg, msg).Some?
              && var q := RequestIn(cfg, msg).value;
              var h := Dispatch(mib, st, q.version, q.access, q.pdu);
              && VersionNumber(q.version) == ParseEnvelope(msg, 0).value.version
              && h.reply.Some?
              && (AnswersRequest(cfg, q, h.reply.value, sent.value) <==> AllCarriable(h.reply.value.varbinds))
              && (SoundMib(mib, st) || q.pdu.tag == PDU_SET ==> AllCarriable(h.reply.value.varbinds))
  {
    hide Dispatch, EncMessage, ParseEnvelope, ParseRequestPdu, ParseByManager;
    hide WellFormed, SoundMib, AllEchoable, AllCarriable;
    if Respond(cfg, mib, st, msg, cap).datagram.Some? {
      var q := RequestIn(cfg, msg).value;
      RequestIsEchoable(cfg, msg);
      DispatchShape(mib, st, q.version, q.access, q.pdu);
      var reply := Dispatch(mib, st, q.version, q.access, q.pdu).reply.value;
      EncMessageParts(q.version, q.community, reply);
      EncPduParts(reply);
      if SoundMib(mib, st) || q.pdu.tag == PDU_SET {
        DispatchIsEchoable(mib, st, q.version, q.access, q.pdu);
        EncodedIsCarriable(reply.varbinds);
      }
      MessageRoundTrip(q.version, q.community, reply);
    }
  }

  lemma EncPduParts(f: Fields)
    ensures EncPdu(f).Some? <==> EncVarbinds(f.varbinds).Some?
  {
  }
}
