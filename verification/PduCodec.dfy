/** The PDU codec of the agent: cursor-based encoders for values, varbinds, lists and PDUs, decoders that fill the
    request context, and the context itself. */
module PduCodec {
  import opened Types
  import opened Ber
  import opened BerEncoder
  import opened BerDecoder
  import opened Codec

  const MAX_PRINCIPAL: nat := 32

  datatype Version = V1 | V2C
  datatype AccessMode = NoAccess | ReadOnly | ReadWrite

  /** The request and, after handling, the response: one reused object with a fixed array of varbinds. */
  class PduCtx {
    var version: Version
    var pduTag: byte
    var requestId: int32
    var errorStatus: int32
    var errorIndex: int32
    const varbinds: array<Varbind>
    var varbindCount: nat
    var accessMode: AccessMode
    var principal: Bytes  // the community, with its terminating NUL

    ghost predicate Valid()
      reads this
    {
      varbinds.Length == MAX_VARBINDS && varbindCount <= MAX_VARBINDS && |principal| <= MAX_PRINCIPAL
    }

    ghost function Varbinds(): seq<Varbind>
      requires Valid()
      reads this, varbinds
    {
      varbinds[..varbindCount]
    }

    /** The part of the context that goes on the wire inside the PDU. */
    ghost function Pdu(): Fields
      requires Valid()
      reads this, varbinds
    {
      Fields(pduTag, requestId, errorStatus, errorIndex, Varbinds())
    }

    constructor ()
      ensures Valid() && fresh(varbinds)
    {
      version, pduTag, requestId, errorStatus, errorIndex := V1, 0, 0, 0, 0;
      varbinds := new Varbind[MAX_VARBINDS];
      varbindCount, accessMode, principal := 0, NoAccess, [0];
    }

    /** memset(ctx, 0, sizeof(*ctx)). */
    method Clear()
      requires Valid()
      modifies this, varbinds
      ensures Valid() && version == V1 && accessMode == NoAccess && principal == [0]
      ensures Pdu() == Fields(0, 0, 0, 0, [])
      ensures forall i | 0 <= i < MAX_VARBINDS :: varbinds[i] == Varbind([], Null)
    {
      version, pduTag, requestId, errorStatus, errorIndex := V1, 0, 0, 0, 0;
      varbindCount, accessMode, principal := 0, NoAccess, [0];
      forall i | 0 <= i < MAX_VARBINDS {
        varbinds[i] := Varbind([], Null);
      }
    }
  }

  // ---------------------------------------------------------------- encoding

  method EncodeValue(buf: array<byte>, cursor: nat, v: Value) returns (r: Result<nat>)
    requires cursor <= buf.Length < SIZE_LIMIT
    modifies buf
    ensures Emits(old(buf[..]), buf[..], cursor, r, EncValue(v))
  {
    match v
    case Null => r := EncodeNullTagged(buf, cursor, TAG_NULL);
    case Integer(i) => r := EncodeInteger(buf, cursor, i);
    case OctetString(octets) => r := EncodeOctetString(buf, cursor, octets);
    case ObjectId(oid) => r := EncodeOid(buf, cursor, oid);
    case Unsigned32(kind, u) => r := EncodeUnsigned(buf, cursor, UnsignedTag(kind), u);
    case Counter64(c) => r := EncodeUnsigned64(buf, cursor, TAG_COUNTER64, c);
    case Raw(raw, content) => r := PrependElement(buf, cursor, RawTag(raw), content);
    case Exception(e) => r := EncodeNullTagged(buf, cursor, ExceptionTag(e));
    case Unsupported(_) => r := Err(BadTag);
  }

  /** Puts a constructed header in front of everything written since start. */
  method EncodeContainer(buf: array<byte>, ghost b0: Bytes, start: nat, written: Result<nat>, tag: byte,
                         ghost content: Option<Bytes>)
    returns (r: Result<nat>)
    requires start <= buf.Length < SIZE_LIMIT
    requires Emits(b0, buf[..], start, written, content)
    modifies buf
    ensures Emits(b0, buf[..], start, r, Wrap(tag, content))
  {
    if written.Err? {
      EmitsNothing(b0, buf[..], start, written, content, Wrap(tag, content));
      return written;
    }
    ghost var b1 := buf[..];
    r := PrependTlvHeader(buf, written.value, tag, start - written.value);
    EmitsElement(b0, b1, buf[..], start, written, r, tag, content.value);
  }

  method EncodeVarbind(buf: array<byte>, cursor: nat, vb: Varbind) returns (r: Result<nat>)
    requires cursor <= buf.Length < SIZE_LIMIT
    modifies buf
    ensures Emits(old(buf[..]), buf[..], cursor, r, EncVarbind(vb))
  {
    ghost var b0 := buf[..];
    r := EncodeValue(buf, cursor, vb.value);
    if r.Err? {
      EmitsNothing(b0, buf[..], cursor, r, EncValue(vb.value), EncVarbind(vb));
      return;
    }
    ghost var b1, r1 := buf[..], r;
    r := EncodeOid(buf, r.value, vb.oid);
    EmitsThen(b0, b1, buf[..], cursor, r1, r, EncOid(vb.oid), EncValue(vb.value));
    r := EncodeContainer(buf, b0, cursor, r, TAG_SEQUENCE, VarbindContent(vb));
  }

  /** Last varbind first. */
  method EncodeVarbindList(buf: array<byte>, cursor: nat, varbinds: array<Varbind>, count: nat) returns (r: Result<nat>)
    requires cursor <= buf.Length < SIZE_LIMIT && count <= varbinds.Length
    modifies buf
    ensures Emits(old(buf[..]), buf[..], cursor, r, EncVarbindList(varbinds[..count]))
  {
    ghost var b0, vbs := buf[..], varbinds[..count];
    r := Ok(cursor);
    var i := count;
    assert vbs[count..] == [];
    while i > 0
      invariant 0 <= i <= count && r.Ok? && r.value <= buf.Length
      invariant varbinds[..count] == vbs
      invariant Emits(b0, buf[..], cursor, r, EncVarbinds(vbs[i..]))
    {
      i := i - 1;
      ghost var b1, r1 := buf[..], r;
      assert varbinds[i] == varbinds[..count][i];
      r := EncodeVarbind(buf, r.value, varbinds[i]);
      assert vbs[i..][1..] == vbs[i + 1..];
      EmitsThen(b0, b1, buf[..], cursor, r1, r, EncVarbind(vbs[i]), EncVarbinds(vbs[i + 1..]));
      if r.Err? {
        SuffixIsShorter(vbs, i);
        EmitsNothing(b0, buf[..], cursor, r, EncVarbinds(vbs[i..]), EncVarbindList(vbs));
        return;
      }
    }
    assert vbs[0..] == vbs;
    r := EncodeContainer(buf, b0, cursor, r, TAG_SEQUENCE, EncVarbinds(vbs));
  }

  lemma {:induction false} SuffixIsShorter(vbs: seq<Varbind>, i: nat)
    requires i <= |vbs|
    ensures EncVarbinds(vbs).Some? ==>
              EncVarbinds(vbs[i..]).Some? && |EncVarbinds(vbs[i..]).value| <= |EncVarbinds(vbs).value|
  {
    hide EncVarbind;
    if i > 0 {
      assert vbs[1..][i - 1..] == vbs[i..];
      SuffixIsShorter(vbs[1..], i - 1);
    } else {
      assert vbs[0..] == vbs;
    }
  }

  /** A fixed-width INTEGER in front of what has been written since start. */
  method EncodeField(buf: array<byte>, ghost b0: Bytes, start: nat, written: Result<nat>, v: int32,
                     ghost tail: Option<Bytes>)
    returns (r: Result<nat>)
    requires start <= buf.Length < SIZE_LIMIT
    requires Emits(b0, buf[..], start, written, tail)
    modifies buf
    ensures Emits(b0, buf[..], start, r, Join(EncInteger(v), tail))
  {
    if written.Err? {
      EmitsNothing(b0, buf[..], start, written, tail, Join(EncInteger(v), tail));
      return written;
    }
    ghost var b1 := buf[..];
    r := EncodeInteger(buf, written.value, v);
    EmitsThen(b0, b1, buf[..], start, written, r, EncInteger(v), tail);
  }

  method EncodePdu(buf: array<byte>, cursor: nat, pduTag: byte, requestId: int32, errorStatus: int32, errorIndex: int32,
                   varbinds: array<Varbind>, count: nat)
    returns (r: Result<nat>)
    requires cursor <= buf.Length < SIZE_LIMIT && count <= varbinds.Length
    modifies buf
    ensures Emits(old(buf[..]), buf[..], cursor, r,
                  EncPdu(Fields(pduTag, requestId, errorStatus, errorIndex, varbinds[..count])))
  {
    ghost var b0, list := buf[..], EncVarbindList(varbinds[..count]);
    r := EncodeVarbindList(buf, cursor, varbinds, count);
    r := EncodeField(buf, b0, cursor, r, errorIndex, list);
    ghost var tail := Join(EncInteger(errorIndex), list);
    r := EncodeField(buf, b0, cursor, r, errorStatus, tail);
    tail := Join(EncInteger(errorStatus), tail);
    r := EncodeField(buf, b0, cursor, r, requestId, tail);
    tail := Join(EncInteger(requestId), tail);
    r := EncodeContainer(buf, b0, cursor, r, pduTag, tail);
  }

  // ---------------------------------------------------------------- decoding

  method DecodeValue(t: Tlv) returns (r: Result<Value>)
    ensures r == ParseValue(t)
  {
    if t.tag == TAG_INTEGER {
      var i :- DecodeInteger(t);
      return Ok(Integer(i));
    } else if t.tag == TAG_OCTET_STRING {
      return if |t.value| > MAX_OCTETS then Err(Overflow) else Ok(OctetString(t.value));
    } else if t.tag == TAG_NULL {
      return if |t.value| != 0 then Err(BadLength) else Ok(Null);
    } else if t.tag == TAG_OID {
      var out := new uint32[MAX_OID_LEN];
      var n :- DecodeOid(t, out);
      return Ok(ObjectId(out[..n]));
    } else if t.tag == TAG_COUNTER32 || t.tag == TAG_GAUGE32 || t.tag == TAG_TIMETICKS {
      var u :- DecodeUnsigned(t);
      return Ok(Unsigned32(if t.tag == TAG_COUNTER32 then Counter32
                           else if t.tag == TAG_GAUGE32 then Gauge32
                           else TimeTicks, u));
    } else if t.tag == TAG_COUNTER64 {
      var c :- DecodeUnsigned64(t);
      return Ok(Counter64(c));
    } else if t.tag == TAG_IPADDRESS || t.tag == TAG_OPAQUE {
      if |t.value| > MAX_OCTETS {
        return Err(Overflow);
      }
      return Ok(Raw(if t.tag == TAG_IPADDRESS then IpAddress else Opaque, t.value));
    } else if t.tag == 0x80 || t.tag == 0x81 || t.tag == 0x82 {
      if |t.value| != 0 {
        return Err(BadLength);
      }
      return Ok(Exception(if t.tag == 0x80 then NoSuchObjectValue
                          else if t.tag == 0x81 then NoSuchInstanceValue
                          else EndOfMibViewValue));
    }
    return Err(BadTag);
  }

  method DecodeVarbind(content: Bytes, depth: nat) returns (r: Result<Varbind>)
    ensures r == ParseVarbind(content, depth)
  {
    var name :- ExpectTag(content, depth, TAG_OID);
    var oid := new uint32[MAX_OID_LEN];
    var n :- DecodeOid(name, oid);
    var t :- DecodeTlv(name.next, depth);
    var value :- DecodeValue(t);
    return Ok(Varbind(oid[..n], value));
  }

  /** Fills out[0..n) and returns n. */
  method DecodeVarbindList(s: Bytes, depth: nat, out: array<Varbind>) returns (r: Result<nat>)
    requires out.Length == MAX_VARBINDS
    modifies out
    ensures r.Ok? <==> ParseVarbindList(s, depth).Ok?
    ensures r.Ok? ==> r.value <= MAX_VARBINDS && out[..r.value] == ParseVarbindList(s, depth).value
    ensures r.Err? ==> r.error == ParseVarbindList(s, depth).error
  {
    hide ParseExpected, ParseVarbind;
    var list :- ExpectTag(s, depth, TAG_SEQUENCE);
    var p := list.value;
    var n := 0;
    ghost var all := ParseVarbinds(p, depth, MAX_VARBINDS);
    assert all.Ok? ==> [] + all.value == all.value;
    while p != []
      invariant n <= MAX_VARBINDS
      invariant all == Prepend(out[..n], ParseVarbinds(p, depth, MAX_VARBINDS - n))
      decreases |p|
    {
      var element :- ExpectTag(p, depth + 1, TAG_SEQUENCE);
      if n >= out.Length {
        return Err(Overflow);
      }
      var vb :- DecodeVarbind(element.value, depth + 2);
      ghost var done := out[..n];
      PrependOne(done, vb, ParseVarbinds(element.next, depth, MAX_VARBINDS - n - 1));
      out[n] := vb;
      assert out[..n + 1] == done + [vb];
      p := element.next;
      n := n + 1;
    }
    assert out[..n] + [] == out[..n];
    return Ok(n);
  }

  method DecodeField(s: Bytes, depth: nat) returns (r: Result<Field>)
    ensures r == ParseField(s, depth)
  {
    var t :- ExpectTag(s, depth, TAG_INTEGER);
    var v :- DecodeInteger(t);
    return Ok(Field(v, t.next));
  }

  /** Fills the PDU part of the context. A failure may leave it half filled; the datagram is dropped then. */
  method DecodeRequestPdu(s: Bytes, depth: nat, ctx: PduCtx) returns (r: Result<()>)
    requires ctx.Valid()
    modifies ctx, ctx.varbinds
    ensures ctx.Valid()
    ensures ctx.version == old(ctx.version) && ctx.accessMode == old(ctx.accessMode)
    ensures ctx.principal == old(ctx.principal)
    ensures r.Ok? <==> ParseRequestPdu(s, depth).Ok?
    ensures r.Ok? ==> ctx.Pdu() == ParseRequestPdu(s, depth).value
    ensures r.Err? ==> r.error == ParseRequestPdu(s, depth).error
  {
    hide ParseTlv, ParseField, ParseVarbindList;
    var pdu :- DecodeTlv(s, depth);
    if !(pdu.tag == PDU_GET || pdu.tag == PDU_GET_NEXT || pdu.tag == PDU_SET || pdu.tag == PDU_GET_BULK) {
      return Err(BadTag);
    }
    ctx.pduTag := pdu.tag;
    var requestId :- DecodeField(pdu.value, depth + 1);
    ctx.requestId := requestId.value;
    var errorStatus :- DecodeField(requestId.next, depth + 1);
    ctx.errorStatus := errorStatus.value;
    var errorIndex :- DecodeField(errorStatus.next, depth + 1);
    ctx.errorIndex := errorIndex.value;
    var n :- DecodeVarbindList(errorIndex.next, depth + 1, ctx.varbinds);
    ctx.varbindCount := n;
    return Ok(());
  }
}
