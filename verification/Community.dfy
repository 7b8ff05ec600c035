/** The community-based security model: the envelope around a PDU, in and out. */
module Community {
  import opened Types
  import opened Ber
  import opened BerEncoder
  import opened BerDecoder
  import opened Codec
  import opened PduCodec

  /** strlen and strcmp see a buffer up to its first NUL. */
  function CString(s: Bytes): (r: Bytes)
    ensures 0 !in r && |r| <= |s|
  {
    if s == [] || s[0] == 0 then [] else [s[0]] + CString(s[1..])
  }

  lemma {:induction false} CStringOfText(text: Bytes, rest: Bytes)
    requires 0 !in text
    ensures CString(text) == text && CString(text + [0] + rest) == text
  {
    if text != [] {
      assert text == [text[0]] + text[1..];
      CStringOfText(text[1..], rest);
      assert (text + [0] + rest)[1..] == text[1..] + [0] + rest;
    }
  }

  /** What a terminating NUL hides is hidden anyway. */
  lemma {:induction false} CStringTerminated(s: Bytes)
    ensures CString(s + [0]) == CString(s)
  {
    if s != [] && s[0] != 0 {
      assert (s + [0])[1..] == s[1..] + [0];
      CStringTerminated(s[1..]);
    }
  }

  /** The two configured communities, as C strings. */
  datatype Config = Config(ro: Bytes, rw: Bytes) {
    predicate Valid() {
      0 !in ro && 0 !in rw && |ro| < MAX_PRINCIPAL && |rw| < MAX_PRINCIPAL
    }
  }

  /** snmp_security_community_init: strncpy into 32-byte buffers, always terminated. */
  function Configure(ro: Bytes, rw: Bytes): (cfg: Config)
    ensures cfg.Valid()
    ensures 0 !in ro ==> cfg.ro == if |ro| <= 31 then ro else ro[..31]
    ensures 0 !in rw ==> cfg.rw == if |rw| <= 31 then rw else rw[..31]
  {
    CStringOfTextIfText(ro);
    CStringOfTextIfText(rw);
    Config(Truncate(CString(ro)), Truncate(CString(rw)))
  }

  function Truncate(s: Bytes): (r: Bytes)
    ensures |r| < MAX_PRINCIPAL
    ensures forall b | b in r :: b in s
  {
    if |s| < MAX_PRINCIPAL then s else s[..MAX_PRINCIPAL - 1]
  }

  lemma CStringOfTextIfText(s: Bytes)
    ensures 0 !in s ==> CString(s) == s
  {
    if 0 !in s {
      CStringOfText(s, []);
    }
  }

  // ---------------------------------------------------------------- specification

  /** The parts of a message: version, community octets, and the octets that start with the PDU. */
  datatype Envelope = Envelope(version: int32, community: Bytes, pdu: Bytes)

  function ParseEnvelope(msg: Bytes, depth: nat): (r: Result<Envelope>)
    ensures r.Ok? ==> |r.value.community| < MAX_PRINCIPAL
  {
    var top :- ParseExpected(msg, depth, TAG_SEQUENCE);
    var version :- ParseField(top.value, depth + 1);
    var community :- ParseExpected(version.next, depth + 1, TAG_OCTET_STRING);
    if |community.value| > MAX_PRINCIPAL - 1 then Err(Overflow)
    else Ok(Envelope(version.value, community.value, community.next))
  }

  function VersionOf(raw: int32): Version {
    if raw == 1 then V2C else V1
  }

  function VersionNumber(v: Version): int32 {
    if v == V2C then 1 else 0
  }

  function AccessFor(cfg: Config, community: Bytes): AccessMode {
    if CString(community) == cfg.rw then ReadWrite
    else if CString(community) == cfg.ro then ReadOnly
    else NoAccess
  }

  /** A request as the PDU handlers see it. */
  datatype Request = Request(version: Version, access: AccessMode, community: Bytes, pdu: Fields)

  function ParseIncoming(cfg: Config, msg: Bytes, depth: nat): Result<Request> {
    var e :- ParseEnvelope(msg, depth);
    var access := AccessFor(cfg, e.community);
    if access == NoAccess then Err(BadArgs)
    else
      var pdu :- ParseRequestPdu(e.pdu, depth + 1);
      Ok(Request(VersionOf(e.version), access, CString(e.community), pdu))
  }

  function EncMessage(version: Version, community: Bytes, pdu: Fields): Option<Bytes> {
    Wrap(TAG_SEQUENCE, Join(EncInteger(VersionNumber(version)),
                            Join(Some(EncTlv(TAG_OCTET_STRING, community)), EncPdu(pdu))))
  }

  // ---------------------------------------------------------------- the model's two entry points

  method DecodeEnvelope(msg: Bytes, depth: nat) returns (r: Result<Envelope>)
    ensures r == ParseEnvelope(msg, depth)
  {
    var top :- ExpectTag(msg, depth, TAG_SEQUENCE);
    var version :- DecodeField(top.value, depth + 1);
    var community :- ExpectTag(version.next, depth + 1, TAG_OCTET_STRING);
    if |community.value| > MAX_PRINCIPAL - 1 {
      return Err(Overflow);
    }
    return Ok(Envelope(version.value, community.value, community.next));
  }

  method ProcessIncoming(cfg: Config, msg: Bytes, depth: nat, ctx: PduCtx) returns (r: Result<()>)
    requires cfg.Valid() && ctx.Valid()
    modifies ctx, ctx.varbinds
    ensures ctx.Valid()
    ensures r.Ok? <==> ParseIncoming(cfg, msg, depth).Ok?
    ensures r.Ok? ==> ParseIncoming(cfg, msg, depth).value ==
                      Request(ctx.version, ctx.accessMode, CString(ctx.principal), ctx.Pdu())
    ensures r.Err? ==> r.error == ParseIncoming(cfg, msg, depth).error
  {
    hide ParseEnvelope, ParseRequestPdu, CString;
    var e :- DecodeEnvelope(msg, depth);
    ctx.version := if e.version == 1 then V2C else V1;
    ctx.principal := e.community + [0];
    CStringTerminated(e.community);
    if CString(ctx.principal) == cfg.rw {
      ctx.accessMode := ReadWrite;
    } else if CString(ctx.principal) == cfg.ro {
      ctx.accessMode := ReadOnly;
    } else {
      ctx.accessMode := NoAccess;
      return Err(BadArgs);
    }
    r := DecodeRequestPdu(e.pdu, depth + 1, ctx);
  }

  /** Encodes right-aligned in out, then moves the message to the front. */
  method PrepareOutgoing(ctx: PduCtx, out: array<byte>) returns (r: Result<nat>)
    requires ctx.Valid() && out.Length < SIZE_LIMIT
    modifies out
    ensures var enc := EncMessage(ctx.version, CString(ctx.principal), ctx.Pdu());
            && (r.Ok? <==> enc.Some? && |enc.value| <= out.Length)
            && (r.Ok? ==> r.value <= out.Length && Some(out[..r.value]) == enc)
  {
    hide EncMessage, CString;
    var written := EncodeMessage(ctx, out);
    if written.Err? {
      return Err(written.error);
    }
    assert out[written.value..] == EncMessage(ctx.version, CString(ctx.principal), ctx.Pdu()).value;
    ShiftToFront(out, written.value);
    return Ok(out.Length - written.value);
  }

  /** memmove of what ends the buffer to where it begins. */
  method ShiftToFront(out: array<byte>, start: nat)
    requires start <= out.Length
    modifies out
    ensures out[..out.Length - start] == old(out[start..])
  {
    forall i | 0 <= i < out.Length - start {
      out[i] := out[start + i];
    }
  }

  /** The message from its end, right-aligned in out. */
  method EncodeMessage(ctx: PduCtx, out: array<byte>) returns (written: Result<nat>)
    requires ctx.Valid() && out.Length < SIZE_LIMIT
    modifies out
    ensures Emits(old(out[..]), out[..], out.Length, written,
                  EncMessage(ctx.version, CString(ctx.principal), ctx.Pdu()))
  {
    hide EncPdu, EncTlv, CString, Emits;
    var cap := out.Length;
    ghost var b0, pdu := out[..], ctx.Pdu();
    written := EncodePdu(out, cap, ctx.pduTag, ctx.requestId, ctx.errorStatus, ctx.errorIndex,
                         ctx.varbinds, ctx.varbindCount);
    var community := CString(ctx.principal);
    written := EncodeCommunity(out, b0, cap, written, community, EncPdu(pdu));
    ghost var tail := Join(Some(EncTlv(TAG_OCTET_STRING, community)), EncPdu(pdu));
    written := EncodeField(out, b0, cap, written, VersionNumber(ctx.version), tail);
    tail := Join(EncInteger(VersionNumber(ctx.version)), tail);
    written := EncodeContainer(out, b0, cap, written, TAG_SEQUENCE, tail);
  }

  method EncodeCommunity(buf: array<byte>, ghost b0: Bytes, start: nat, written: Result<nat>, community: Bytes,
                         ghost tail: Option<Bytes>)
    returns (r: Result<nat>)
    requires start <= buf.Length < SIZE_LIMIT
    requires Emits(b0, buf[..], start, written, tail)
    modifies buf
    ensures Emits(b0, buf[..], start, r, Join(Some(EncTlv(TAG_OCTET_STRING, community)), tail))
  {
    ghost var head := Some(EncTlv(TAG_OCTET_STRING, community));
    if written.Err? {
      EmitsNothing(b0, buf[..], start, written, tail, Join(head, tail));
      return written;
    }
    ghost var b1 := buf[..];
    r := EncodeOctetString(buf, written.value, community);
    EmitsThen(b0, b1, buf[..], start, written, r, head, tail);
  }

  // ---------------------------------------------------------------- round trips

  /** A message around whatever octets stand for the PDU. */
  function Enclose(version: Version, community: Bytes, pdu: Bytes): Bytes {
    EncTlv(TAG_SEQUENCE, EncInteger(VersionNumber(version)).value + (EncTlv(TAG_OCTET_STRING, community) + pdu))
  }

  /** The envelope comes apart into what went into it. */
  lemma EnvelopeRoundTrip(version: Version, community: Bytes, pdu: Bytes, rest: Bytes)
    requires |Enclose(version, community, pdu)| < SIZE_LIMIT && |community| < MAX_PRINCIPAL
    ensures ParseEnvelope(Enclose(version, community, pdu) + rest, 0) ==
            Ok(Envelope(VersionNumber(version), community, pdu))
  {
    hide IntegerContent, LengthOctets, ParseTlv, ParseInteger;
    var c := EncTlv(TAG_OCTET_STRING, community) + pdu;
    TlvRoundTrip(TAG_SEQUENCE, EncInteger(VersionNumber(version)).value + c, rest, 0);
    FieldRoundTrip(VersionNumber(version), c, 1);
    TlvRoundTrip(TAG_OCTET_STRING, community, pdu, 1);
  }

  /** What a manager makes of a message: version, community and PDU, whatever the PDU tag. */
  function ParseByManager(msg: Bytes): Result<(int32, Bytes, Fields)> {
    var e :- ParseEnvelope(msg, 0);
    var pdu :- ParseAnyPdu(e.pdu, 1);
    Ok((e.version, e.community, pdu))
  }

  lemma EncMessageParts(version: Version, community: Bytes, pdu: Fields)
    ensures EncMessage(version, community, pdu).Some? <==> EncPdu(pdu).Some?
    ensures EncPdu(pdu).Some? ==>
              && EncMessage(version, community, pdu).value == Enclose(version, community, EncPdu(pdu).value)
              && |EncPdu(pdu).value| <= |EncMessage(version, community, pdu).value|
  {
  }

  /** A manager reads back exactly what was encoded, provided the wire can carry every varbind. */
  lemma MessageRoundTrip(version: Version, community: Bytes, pdu: Fields)
    requires EncMessage(version, community, pdu).Some? && |EncMessage(version, community, pdu).value| < SIZE_LIMIT
    requires |community| < MAX_PRINCIPAL
    ensures ParseByManager(EncMessage(version, community, pdu).value) == Ok((VersionNumber(version), community, pdu))
            <==> AllCarriable(pdu.varbinds) && |pdu.varbinds| <= 50
  {
    hide EncMessage, ParseEnvelope, EncPdu, ParseAnyPdu, AllCarriable;
    var m := EncMessage(version, community, pdu).value;
    EncMessageParts(version, community, pdu);
    EnvelopeRoundTrip(version, community, EncPdu(pdu).value, []);
    assert m + [] == m;
    PduRoundTrip(pdu, [], 1);
    assert EncPdu(pdu).value + [] == EncPdu(pdu).value;
  }

  /** The agent recovers every request a manager can send under a configured community: version, access, community
      and PDU. */
  lemma RequestMessageRoundTrip(cfg: Config, version: Version, community: Bytes, pdu: Fields, rest: Bytes)
    requires cfg.Valid() && (community == cfg.ro || community == cfg.rw)
    requires IsRequestTag(pdu.tag) && AllCarriable(pdu.varbinds) && |pdu.varbinds| <= MAX_VARBINDS
    ensures EncMessage(version, community, pdu).Some?
    ensures ParseIncoming(cfg, EncMessage(version, community, pdu).value + rest, 0) ==
            Ok(Request(version, if community == cfg.rw then ReadWrite else ReadOnly, community, pdu))
  {
    hide EncPdu, ParseEnvelope, ParseRequestPdu, CString, AllCarriable, IsRequestTag;
    RequestRoundTrip(pdu, [], 1);
    PduSize(pdu);
    assert EncPdu(pdu).value + [] == EncPdu(pdu).value;
    EncMessageParts(version, community, pdu);
    MessageSize(version, community, pdu);
    EnvelopeRoundTrip(version, community, EncPdu(pdu).value, rest);
    CStringOfText(community, []);
  }

  /** Every message of at most fifty carriable varbinds has an encoding, and a short one. */
  lemma MessageSize(version: Version, community: Bytes, pdu: Fields)
    requires |community| < MAX_PRINCIPAL && AllCarriable(pdu.varbinds) && |pdu.varbinds| <= MAX_VARBINDS
    ensures EncMessage(version, community, pdu).Some?
    ensures |EncMessage(version, community, pdu).value| <= 250 * |pdu.varbinds| + 100
  {
    hide EncPdu, LengthOctets, IntegerContent, AllCarriable;
    var v := VersionNumber(version);
    PduSize(pdu);
    IntegerContentWidths(v);
    EncTlvSize(TAG_INTEGER, IntegerContent(v));
    EncTlvSize(TAG_OCTET_STRING, community);
    EncTlvSize(TAG_SEQUENCE, EncInteger(v).value + (EncTlv(TAG_OCTET_STRING, community) + EncPdu(pdu).value));
  }
}
