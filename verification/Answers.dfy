/** Which requests are answered, given the room for the answer, and which writes take effect unheard. */
module Answers {
  import opened Types
  import opened Ber
  import opened Codec
  import opened PduCodec
  import opened Mib
  import opened ReadPdu
  import opened SetPdu
  import opened BulkPdu
  import opened Community
  import opened EchoSize
  import opened Agent
  import opened Writes

  // ---------------------------------------------------------------- how long an answer is

  /** Names and values that can be encoded. EchoSize.OidEncodableExact and ValueEncodableExact say which of those that
      the agent parses are. */
  predicate AllEncodable(vbs: seq<Varbind>) {
    forall i | 0 <= i < |vbs| :: EncVarbind(vbs[i]).Some?
  }

  lemma {:induction false} EncodableExact(vbs: seq<Varbind>)
    ensures EncVarbinds(vbs).Some? <==> AllEncodable(vbs)
  {
    hide EncVarbind;
    if vbs != [] {
      EncodableExact(vbs[1..]);
      assert forall i | 1 <= i < |vbs| :: vbs[i] == vbs[1..][i - 1];
      if AllEncodable(vbs) {
        assert forall i | 0 <= i < |vbs| - 1 :: vbs[1..][i] == vbs[i + 1];
      }
    }
  }

  /** An element around content of the given length. */
  function ElementLength(content: nat): nat {
    1 + |LengthOctets(content)| + content
  }

  /** An answer around a varbind list of the given length: its status and index take three octets each. */
  function AnswerLength(version: Version, community: Bytes, requestId: int32, list: nat): nat {
    ElementLength(|EncInteger(VersionNumber(version)).value| + ElementLength(|community|) +
                  ElementLength(|EncInteger(requestId).value| + 6 + ElementLength(list)))
  }

  predicate OneOctetFields(f: Fields) {
    0 <= f.errorStatus < 0x80 && 0 <= f.errorIndex < 0x80
  }

  lemma ShortField(v: int32)
    requires 0 <= v < 0x80
    ensures |EncInteger(v).value| == 3
  {
  }

  lemma EncodedLength(version: Version, community: Bytes, reply: Fields)
    requires OneOctetFields(reply) && EncVarbinds(reply.varbinds).Some?
    ensures EncMessage(version, community, reply).Some?
    ensures |EncMessage(version, community, reply).value| ==
            AnswerLength(version, community, reply.requestId, |EncVarbinds(reply.varbinds).value|)
  {
    hide LengthOctets, IntegerContent, EncVarbinds;
    ShortField(reply.errorStatus);
    ShortField(reply.errorIndex);
  }

  /** Whatever the handler, its status and index take one octet each. */
  lemma DispatchIsShort<S(!new)>(mib: Registered<S>, st: S, version: Version, access: AccessMode, f: Fields)
    requires WellFormed(mib) && |f.varbinds| <= MAX_VARBINDS
    ensures var h := Dispatch(mib, st, version, access, f); h.reply.Some? ==> OneOctetFields(h.reply.value)
    ensures Dispatch(mib, st, version, access, f).reply.Some? <==>
            || f.tag == PDU_GET || f.tag == PDU_GET_NEXT
            || (f.tag == PDU_SET && access == ReadWrite) || (f.tag == PDU_GET_BULK && version == V2C)
  {
    hide WellFormed, SetReply, BulkReply, Outcomes;
    SetReplyShape(mib, st, f);
    ReadReplyIsShort(mib, st, version, ExactMatch, f);
    ReadReplyIsShort(mib, st, version, NextMatch, f);
    BulkReplyIsShort(mib, st, f);
  }

  lemma ReadReplyIsShort<S(!new)>(mib: Registered<S>, st: S, version: Version, mode: Mode, f: Fields)
    requires WellFormed(mib) && |f.varbinds| <= MAX_VARBINDS
    ensures OneOctetFields(ReadReply(mib, st, version, mode, f))
  {
    hide WellFormed, Outcomes, FirstAbort, AnsweredUpTo;
  }

  lemma BulkReplyIsShort<S(!new)>(mib: Registered<S>, st: S, f: Fields)
    requires WellFormed(mib)
    ensures OneOctetFields(BulkReply(mib, st, f))
  {
    hide WellFormed, Uncapped;
  }

  // ---------------------------------------------------------------- when there is an answer

  /** The answer exists and fits. */
  ghost predicate AnswerFits(q: Request, varbinds: seq<Varbind>, cap: nat) {
    && AllEncodable(varbinds)
    && EncVarbinds(varbinds).Some?
    && AnswerLength(q.version, q.community, q.pdu.requestId, |EncVarbinds(varbinds).value|) <= cap
  }

  /** A datagram is answered exactly when it holds a request that some handler answers, a GET or GETNEXT, a SET under
      the read-write community, or a v2c GETBULK, and the varbinds of that answer can be encoded and leave it no longer
      than the room for it. */
  lemma AnsweredExact<S(!new)>(cfg: Config, mib: Registered<S>, a: Arrival<S>)
    requires WellFormed(mib)
    ensures Respond(cfg, mib, a.st, a.msg, a.cap).datagram.Some? <==>
            RequestIn(cfg, a.msg).Some? &&
            var q := RequestIn(cfg, a.msg).value;
            var h := Dispatch(mib, a.st, q.version, q.access, q.pdu);
            h.reply.Some? && AnswerFits(q, h.reply.value.varbinds, a.cap)
  {
    hide RequestIn, WellFormed, Dispatch, EncMessage, AnswerFits;
    EmptyIsNoMessage(cfg);
    if RequestIn(cfg, a.msg).Some? {
      var q := RequestIn(cfg, a.msg).value;
      var h := Dispatch(mib, a.st, q.version, q.access, q.pdu);
      DispatchIsShort(mib, a.st, q.version, q.access, q.pdu);
      if h.reply.Some? {
        DispatchShape(mib, a.st, q.version, q.access, q.pdu);
        HandledIsSent(q, h.reply.value, a.cap);
      }
    }
  }

  lemma HandledIsSent(q: Request, reply: Fields, cap: nat)
    requires OneOctetFields(reply) && reply.requestId == q.pdu.requestId
    ensures var enc := EncMessage(q.version, q.community, reply);
            enc.Some? && |enc.value| <= cap <==> AnswerFits(q, reply.varbinds, cap)
    ensures AnswerFits(q, reply.varbinds, cap) ==> cap > 0
  {
    hide EncMessage, AllEncodable, EncVarbinds, LengthOctets;
    EncodableExact(reply.varbinds);
    EncPduParts(reply);
    EncMessageParts(q.version, q.community, reply);
    if EncVarbinds(reply.varbinds).Some? {
      EncodedLength(q.version, q.community, reply);
    }
  }

  lemma EmptyIsNoMessage(cfg: Config)
    ensures RequestIn(cfg, []).None?
  {
  }

  // ---------------------------------------------------------------- writes

  /** An authorised SetRequest has its effect in any case. It goes unanswered exactly when one of its own varbinds
      cannot be encoded, or they leave the answer too long: the condition is on the request alone. */
  lemma SetUnansweredExact<S(!new)>(cfg: Config, mib: Registered<S>, a: Arrival<S>)
    requires WellFormed(mib) && IsWrite(cfg, a.msg) && a.cap > 0
    ensures var q := RequestIn(cfg, a.msg).value;
            && After(cfg, mib, a) == SetReply(mib, a.st, q.pdu).0
            && (Respond(cfg, mib, a.st, a.msg, a.cap).datagram.None? <==> !AnswerFits(q, q.pdu.varbinds, a.cap))
  {
    hide RequestIn, WellFormed, SetReply, EncMessage, AnswerFits;
    AnsweredExact(cfg, mib, a);
    EmptyIsNoMessage(cfg);
    SetReplyShape(mib, a.st, RequestIn(cfg, a.msg).value.pdu);
  }

  /** With as much room for the answer as the request took every authorised SetRequest that can be encoded is answered,
      provided no unsigned value lacks its pad. */
  lemma SetIsAnswered<S(!new)>(cfg: Config, mib: Registered<S>, a: Arrival<S>)
    requires WellFormed(mib) && IsWrite(cfg, a.msg) && |a.msg| <= a.cap
    requires AllEncodable(RequestIn(cfg, a.msg).value.pdu.varbinds)
    requires PduPadded(ParseEnvelope(a.msg, 0).value.pdu, 1)
    ensures Respond(cfg, mib, a.st, a.msg, a.cap).datagram.Some?
  {
    hide ParseEnvelope, ParseRequestPdu, WellFormed, Respond, EncMessage, AllEncodable, EncPdu, CString, AnswerFits;
    EmptyIsNoMessage(cfg);
    var q := RequestIn(cfg, a.msg).value;
    var flat := FlatReply(q.pdu);
    SetUnansweredExact(cfg, mib, a);
    EncodableExact(q.pdu.varbinds);
    EncPduParts(flat);
    EncMessageParts(q.version, q.community, flat);
    EchoDoesNotGrow(ParseEnvelope(a.msg, 0).value.pdu, 1, flat);
    EchoMessageDoesNotGrow(a.msg, q.version, flat);
    HandledIsSent(q, flat, a.cap);
  }

  /** As long as any reply that echoes f. */
  function FlatReply(f: Fields): Fields {
    Fields(PDU_RESPONSE, f.requestId, NO_ERROR, 0, f.varbinds)
  }

  /** So every SetRequest that a manager encodes by the rules is answered in the room it took itself. */
  lemma ManagersSetIsAnswered<S(!new)>(cfg: Config, mib: Registered<S>, st: S, version: Version, f: Fields, cap: nat)
    requires WellFormed(mib) && cfg.Valid()
    requires f.tag == PDU_SET && AllCarriable(f.varbinds) && |f.varbinds| <= MAX_VARBINDS
    ensures var msg := EncMessage(version, cfg.rw, f);
            && msg.Some? && IsWrite(cfg, msg.value)
            && (|msg.value| <= cap ==> Respond(cfg, mib, st, msg.value, cap).datagram.Some?)
  {
    hide EncMessage, RequestIn, WellFormed, Respond, AllCarriable, AnswerFits;
    RequestMessageIsRead(cfg, version, cfg.rw, f);
    var msg, flat := EncMessage(version, cfg.rw, f).value, FlatReply(f);
    MessageSize(version, cfg.rw, flat);
    ShortFieldsAreShorter(version, cfg.rw, f, flat);
    if |msg| <= cap {
      SetUnansweredExact(cfg, mib, Arrival(st, msg, cap));
      HandledIsSent(RequestIn(cfg, msg).value, flat, cap);
    }
  }

  /** Replacing the two middle fields by one-octet values does not lengthen a message. */
  lemma ShortFieldsAreShorter(version: Version, community: Bytes, f: Fields, reply: Fields)
    requires reply.requestId == f.requestId && reply.varbinds == f.varbinds && OneOctetFields(reply)
    requires EncMessage(version, community, f).Some? && EncMessage(version, community, reply).Some?
    ensures |EncMessage(version, community, reply).value| <= |EncMessage(version, community, f).value|
  {
    hide EncTlv, EncVarbindList;
    ShortField(reply.errorStatus);
    ShortField(reply.errorIndex);
    var list := EncVarbindList(f.varbinds).value;
    var body := EncInteger(f.requestId).value +
                (EncInteger(f.errorStatus).value + (EncInteger(f.errorIndex).value + list));
    var shorter := EncInteger(f.requestId).value +
                   (EncInteger(reply.errorStatus).value + (EncInteger(reply.errorIndex).value + list));
    EncTlvMonotone(f.tag, body, reply.tag, shorter);
    var v, c := EncInteger(VersionNumber(version)).value, EncTlv(TAG_OCTET_STRING, community);
    EncTlvMonotone(TAG_SEQUENCE, v + (c + EncTlv(f.tag, body)), TAG_SEQUENCE, v + (c + EncTlv(reply.tag, shorter)));
  }

  lemma EncTlvMonotone(tag: byte, content: Bytes, otherTag: byte, shorter: Bytes)
    requires |shorter| <= |content|
    ensures |EncTlv(otherTag, shorter)| <= |EncTlv(tag, content)|
  {
    LengthOctetsMonotone(|shorter|, |content|);
  }
}
