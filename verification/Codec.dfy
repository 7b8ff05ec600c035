/** The wire grammar of values, varbinds, varbind lists and PDUs, and the proof that parsing inverts encoding. */
module Codec {
  import opened Types
  import opened Ber

  const MAX_OCTETS: nat := 128
  const MAX_VARBINDS: nat := 50

  const PDU_GET: byte := 0xA0
  const PDU_GET_NEXT: byte := 0xA1
  const PDU_RESPONSE: byte := 0xA2
  const PDU_SET: byte := 0xA3
  const PDU_GET_BULK: byte := 0xA5

  datatype UnsignedKind = Counter32 | Gauge32 | TimeTicks
  datatype RawKind = IpAddress | Opaque
  datatype ExceptionKind = NoSuchObjectValue | NoSuchInstanceValue | EndOfMibViewValue

  /** value_tag together with the union member it selects. Unsupported stands for any tag the codec does not know. */
  datatype Value =
    | Null
    | Integer(i: int32)
    | OctetString(octets: Bytes)
    | ObjectId(oid: Oid)
    | Unsigned32(kind: UnsignedKind, u: uint32)
    | Counter64(c: uint64)
    | Raw(raw: RawKind, content: Bytes)
    | Exception(exception: ExceptionKind)
    | Unsupported(tag: byte)
  {
    function Tag(): byte {
      match this
      case Null => TAG_NULL
      case Integer(_) => TAG_INTEGER
      case OctetString(_) => TAG_OCTET_STRING
      case ObjectId(_) => TAG_OID
      case Unsigned32(kind, _) => UnsignedTag(kind)
      case Counter64(_) => TAG_COUNTER64
      case Raw(raw, _) => RawTag(raw)
      case Exception(e) => ExceptionTag(e)
      case Unsupported(tag) => tag
    }
  }

  datatype Varbind = Varbind(oid: Oid, value: Value)

  /** A PDU body. For GetBulkRequest the two middle fields are non-repeaters and max-repetitions. */
  datatype Fields = Fields(tag: byte, requestId: int32, errorStatus: int32, errorIndex: int32, varbinds: seq<Varbind>)

  function UnsignedTag(k: UnsignedKind): byte {
    match k case Counter32 => TAG_COUNTER32 case Gauge32 => TAG_GAUGE32 case TimeTicks => TAG_TIMETICKS
  }

  function RawTag(k: RawKind): byte {
    match k case IpAddress => TAG_IPADDRESS case Opaque => TAG_OPAQUE
  }

  function ExceptionTag(k: ExceptionKind): byte {
    match k case NoSuchObjectValue => 0x80 case NoSuchInstanceValue => 0x81 case EndOfMibViewValue => 0x82
  }

  // ---------------------------------------------------------------- encoding

  function EncValue(v: Value): Option<Bytes> {
    match v
    case Null => Some(EncTlv(TAG_NULL, []))
    case Integer(i) => Some(EncTlv(TAG_INTEGER, IntegerContent(i)))
    case OctetString(octets) => Some(EncTlv(TAG_OCTET_STRING, octets))
    case ObjectId(oid) => EncOid(oid)
    case Unsigned32(kind, u) => Some(EncTlv(UnsignedTag(kind), IntegerContent(u)))
    case Counter64(c) => Some(EncTlv(TAG_COUNTER64, IntegerContent(c)))
    case Raw(raw, content) => Some(EncTlv(RawTag(raw), content))
    case Exception(e) => Some(EncTlv(ExceptionTag(e), []))
    case Unsupported(_) => None
  }

  /** A constructed element around content that may not exist. */
  function Wrap(tag: byte, content: Option<Bytes>): Option<Bytes> {
    if content.Some? then Some(EncTlv(tag, content.value)) else None
  }

  function EncVarbind(vb: Varbind): Option<Bytes> {
    Wrap(TAG_SEQUENCE, Join(EncOid(vb.oid), EncValue(vb.value)))
  }

  /** The varbinds in order, without the enclosing list header. */
  function EncVarbinds(vbs: seq<Varbind>): Option<Bytes> {
    if vbs == [] then Some([]) else Join(EncVarbind(vbs[0]), EncVarbinds(vbs[1..]))
  }

  function EncVarbindList(vbs: seq<Varbind>): Option<Bytes> {
    Wrap(TAG_SEQUENCE, EncVarbinds(vbs))
  }

  function EncInteger(v: int32): Option<Bytes> {
    Some(EncTlv(TAG_INTEGER, IntegerContent(v)))
  }

  function EncPdu(f: Fields): Option<Bytes> {
    Wrap(f.tag, Join(EncInteger(f.requestId),
                     Join(EncInteger(f.errorStatus),
                          Join(EncInteger(f.errorIndex), EncVarbindList(f.varbinds)))))
  }

  // ---------------------------------------------------------------- parsing

  function ParseValue(t: Tlv): Result<Value> {
    if t.tag == TAG_INTEGER then
      var i :- ParseInteger(t);
      Ok(Integer(i))
    else if t.tag == TAG_OCTET_STRING then
      if |t.value| > MAX_OCTETS then Err(Overflow) else Ok(OctetString(t.value))
    else if t.tag == TAG_NULL then
      if t.value != [] then Err(BadLength) else Ok(Null)
    else if t.tag == TAG_OID then
      var oid :- ParseOid(t, MAX_OID_LEN);
      Ok(ObjectId(oid))
    else if IsUnsignedTag(t.tag) then
      var u :- ParseUnsigned(t);
      var kind := if t.tag == TAG_COUNTER32 then Counter32 else if t.tag == TAG_GAUGE32 then Gauge32 else TimeTicks;
      Ok(Unsigned32(kind, u))
    else if t.tag == TAG_COUNTER64 then
      var c :- ParseUnsigned64(t);
      Ok(Counter64(c))
    else if t.tag == TAG_IPADDRESS || t.tag == TAG_OPAQUE then
      if |t.value| > MAX_OCTETS then Err(Overflow)
      else Ok(Raw(if t.tag == TAG_IPADDRESS then IpAddress else Opaque, t.value))
    else if t.tag == 0x80 || t.tag == 0x81 || t.tag == 0x82 then
      if t.value != [] then Err(BadLength)
      else Ok(Exception(if t.tag == 0x80 then NoSuchObjectValue
                        else if t.tag == 0x81 then NoSuchInstanceValue
                        else EndOfMibViewValue))
    else Err(BadTag)
  }

  /** Anything behind the value inside the varbind is ignored. */
  function ParseVarbind(content: Bytes, depth: nat): Result<Varbind> {
    var name :- ParseExpected(content, depth, TAG_OID);
    var oid :- ParseOid(name, MAX_OID_LEN);
    var t :- ParseTlv(name.next, depth);
    var value :- ParseValue(t);
    Ok(Varbind(oid, value))
  }

  function ParseVarbinds(s: Bytes, depth: nat, room: nat): (r: Result<seq<Varbind>>)
    ensures r.Ok? ==> |r.value| <= room
    decreases |s|
  {
    if s == [] then Ok([])
    else
      var element :- ParseExpected(s, depth + 1, TAG_SEQUENCE);
      if room == 0 then Err(Overflow)
      else
        var vb :- ParseVarbind(element.value, depth + 2);
        var rest :- ParseVarbinds(element.next, depth, room - 1);
        Ok([vb] + rest)
  }

  function ParseVarbindList(s: Bytes, depth: nat): Result<seq<Varbind>> {
    var list :- ParseExpected(s, depth, TAG_SEQUENCE);
    ParseVarbinds(list.value, depth, MAX_VARBINDS)
  }

  /** An INTEGER and what follows it. */
  datatype Field = Field(value: int32, next: Bytes)

  function ParseField(s: Bytes, depth: nat): Result<Field> {
    var t :- ParseExpected(s, depth, TAG_INTEGER);
    var v :- ParseInteger(t);
    Ok(Field(v, t.next))
  }

  function ParsePduBody(pdu: Tlv, depth: nat): Result<Fields> {
    var requestId :- ParseField(pdu.value, depth + 1);
    var errorStatus :- ParseField(requestId.next, depth + 1);
    var errorIndex :- ParseField(errorStatus.next, depth + 1);
    var vbs :- ParseVarbindList(errorIndex.next, depth + 1);
    Ok(Fields(pdu.tag, requestId.value, errorStatus.value, errorIndex.value, vbs))
  }

  predicate IsRequestTag(tag: byte) {
    tag == PDU_GET || tag == PDU_GET_NEXT || tag == PDU_SET || tag == PDU_GET_BULK
  }

  /** What the agent accepts as a request. */
  function ParseRequestPdu(s: Bytes, depth: nat): Result<Fields> {
    var pdu :- ParseTlv(s, depth);
    if IsRequestTag(pdu.tag) then ParsePduBody(pdu, depth) else Err(BadTag)
  }

  /** What any manager reads, whatever the PDU tag. */
  function ParseAnyPdu(s: Bytes, depth: nat): Result<Fields> {
    var pdu :- ParseTlv(s, depth);
    ParsePduBody(pdu, depth)
  }

  // ---------------------------------------------------------------- what the wire can carry

  /** OIDs that fit the decoder's array and survive the shared first octet. */
  predicate CarriableOid(oid: Oid) {
    OidEncodable(oid) && |oid| <= MAX_OID_LEN && oid[1] < 40
  }

  predicate CarriableValue(v: Value) {
    match v
    case OctetString(octets) => |octets| <= MAX_OCTETS
    case Raw(_, content) => |content| <= MAX_OCTETS
    case ObjectId(oid) => CarriableOid(oid)
    case Unsupported(_) => false
    case _ => true
  }

  predicate Carriable(vb: Varbind) {
    CarriableOid(vb.oid) && CarriableValue(vb.value)
  }

  ghost predicate AllCarriable(vbs: seq<Varbind>) {
    vbs != [] ==> Carriable(vbs[0]) && AllCarriable(vbs[1..])
  }

  // ---------------------------------------------------------------- round trips

  /** An encodable OID followed by anything comes back as itself exactly when the wire can carry it. */
  lemma NameRoundTrip(oid: Oid, rest: Bytes, depth: nat)
    requires OidEncodable(oid) && |OidContent(oid)| < SIZE_LIMIT && depth <= MAX_NEST_DEPTH
    ensures ParseExpected(EncOid(oid).value + rest, depth, TAG_OID) == Ok(Tlv(TAG_OID, OidContent(oid), rest))
    ensures ParseOid(Tlv(TAG_OID, OidContent(oid), rest), MAX_OID_LEN) == Ok(oid) <==> CarriableOid(oid)
  {
    TlvRoundTrip(TAG_OID, OidContent(oid), rest, depth);
    if |oid| <= MAX_OID_LEN {
      OidRoundTrip(oid, rest);
    }
  }

  /** The content octets of an encodable value. */
  function ValueContent(v: Value): Bytes
    requires EncValue(v).Some?
  {
    match v
    case Null => []
    case Integer(i) => IntegerContent(i)
    case OctetString(octets) => octets
    case ObjectId(oid) => OidContent(oid)
    case Unsigned32(_, u) => IntegerContent(u)
    case Counter64(c) => IntegerContent(c)
    case Raw(_, content) => content
    case Exception(_) => []
  }

  /** An encodable value comes back as itself exactly when the wire can carry it. */
  lemma ValueRoundTrip(v: Value, rest: Bytes)
    requires EncValue(v).Some?
    ensures EncValue(v).value == EncTlv(v.Tag(), ValueContent(v))
    ensures ParseValue(Tlv(v.Tag(), ValueContent(v), rest)) == Ok(v) <==> CarriableValue(v)
  {
    match v
    case Integer(i) => IntegerRoundTrip(i, rest);
    case Unsigned32(kind, u) => UnsignedRoundTrip(UnsignedTag(kind), u, rest);
    case Counter64(c) => Unsigned64RoundTrip(c, rest);
    case ObjectId(oid) => if |oid| <= MAX_OID_LEN { OidRoundTrip(oid, rest); }
    case _ =>
  }

  function VarbindContent(vb: Varbind): Option<Bytes> {
    Join(EncOid(vb.oid), EncValue(vb.value))
  }

  lemma VarbindParts(vb: Varbind)
    requires VarbindContent(vb).Some?
    ensures OidEncodable(vb.oid) && EncOid(vb.oid).Some? && EncValue(vb.value).Some?
    ensures |OidContent(vb.oid)| < |VarbindContent(vb).value| && |ValueContent(vb.value)| < |VarbindContent(vb).value|
  {
    hide IntegerContent, OidContent;
  }

  /** A varbind comes back exactly when name and value do, whatever follows the value inside it. */
  lemma VarbindRoundTrip(vb: Varbind, junk: Bytes, depth: nat)
    requires VarbindContent(vb).Some? && |VarbindContent(vb).value| < SIZE_LIMIT && depth <= MAX_NEST_DEPTH
    ensures ParseVarbind(VarbindContent(vb).value + junk, depth) == Ok(vb) <==> Carriable(vb)
  {
    hide EncTlv, ParseTlv, ParseValue, ParseOid, OidContent, EncOid, EncValue, ValueContent;
    hide OidEncodable, CarriableOid, CarriableValue;
    VarbindParts(vb);
    var value := EncValue(vb.value).value;
    NameRoundTrip(vb.oid, value + junk, depth);
    ValueRoundTrip(vb.value, junk);
    TlvRoundTrip(vb.value.Tag(), ValueContent(vb.value), junk, depth);
    assert VarbindContent(vb).value + junk == EncOid(vb.oid).value + (value + junk);
  }

  function Cons(first: Result<Varbind>, rest: Result<seq<Varbind>>): Result<seq<Varbind>> {
    var vb :- first;
    var vbs :- rest;
    Ok([vb] + vbs)
  }

  lemma ParseVarbindsStep(content: Bytes, rest: Bytes, depth: nat, room: nat)
    requires |content| < SIZE_LIMIT && depth + 2 <= MAX_NEST_DEPTH
    ensures ParseVarbinds(EncTlv(TAG_SEQUENCE, content) + rest, depth, room) ==
            if room == 0 then Err(Overflow)
            else Cons(ParseVarbind(content, depth + 2), ParseVarbinds(rest, depth, room - 1))
  {
    TlvRoundTrip(TAG_SEQUENCE, content, rest, depth + 1);
  }

  lemma ConsExact(first: Result<Varbind>, rest: Result<seq<Varbind>>, vbs: seq<Varbind>, room: nat)
    requires vbs != []
    requires first == Ok(vbs[0]) <==> Carriable(vbs[0])
    requires rest == Ok(vbs[1..]) <==> AllCarriable(vbs[1..]) && |vbs| <= room
    ensures Cons(first, rest) == Ok(vbs) <==> AllCarriable(vbs) && |vbs| <= room
  {
    if Cons(first, rest) == Ok(vbs) {
      assert vbs == [first.value] + rest.value;
    }
    assert vbs == [vbs[0]] + vbs[1..];
  }

  lemma VarbindsSplit(vbs: seq<Varbind>)
    requires EncVarbinds(vbs).Some?
    ensures vbs == [] ==> EncVarbinds(vbs).value == [] && AllCarriable(vbs)
    ensures vbs != [] ==>
              && VarbindContent(vbs[0]).Some? && EncVarbinds(vbs[1..]).Some?
              && EncVarbinds(vbs).value ==
                 EncTlv(TAG_SEQUENCE, VarbindContent(vbs[0]).value) + EncVarbinds(vbs[1..]).value
  {
  }

  lemma ParseNothing(depth: nat, room: nat)
    ensures ParseVarbinds([], depth, room) == Ok([])
  {
  }

  /** A list comes back in order, although it is encoded from its last element, exactly when every varbind can be
      carried and there is room for all. */
  lemma {:induction false} VarbindsRoundTrip(vbs: seq<Varbind>, s: Bytes, depth: nat, room: nat)
    requires EncVarbinds(vbs) == Some(s) && |s| < SIZE_LIMIT && depth + 2 <= MAX_NEST_DEPTH
    ensures ParseVarbinds(s, depth, room) == Ok(vbs) <==> AllCarriable(vbs) && |vbs| <= room
  {
    hide *;
    VarbindsSplit(vbs);
    if vbs == [] {
      ParseNothing(depth, room);
    } else {
      var content, rest := VarbindContent(vbs[0]).value, EncVarbinds(vbs[1..]).value;
      ParseVarbindsStep(content, rest, depth, room);
      if room > 0 {
        VarbindRoundTrip(vbs[0], [], depth + 2);
        assert content + [] == content;
        VarbindsRoundTrip(vbs[1..], rest, depth, room - 1);
        ConsExact(ParseVarbind(content, depth + 2), ParseVarbinds(rest, depth, room - 1), vbs, room);
      }
    }
  }

  lemma FieldRoundTrip(v: int32, rest: Bytes, depth: nat)
    requires depth <= MAX_NEST_DEPTH
    ensures ParseField(EncInteger(v).value + rest, depth) == Ok(Field(v, rest))
  {
    IntegerContentWidths(v);
    TlvRoundTrip(TAG_INTEGER, IntegerContent(v), rest, depth);
    IntegerRoundTrip(v, rest);
  }

  /** The list, whatever follows it inside the PDU. */
  lemma VarbindListRoundTrip(vbs: seq<Varbind>, junk: Bytes, depth: nat)
    requires EncVarbindList(vbs).Some? && |EncVarbindList(vbs).value| < SIZE_LIMIT && depth + 2 <= MAX_NEST_DEPTH
    ensures ParseVarbindList(EncVarbindList(vbs).value + junk, depth) == Ok(vbs) <==> AllCarriable(vbs) && |vbs| <= 50
  {
    var e := EncVarbinds(vbs).value;
    TlvRoundTrip(TAG_SEQUENCE, e, junk, depth);
    VarbindsRoundTrip(vbs, e, depth, MAX_VARBINDS);
  }

  lemma PduBodyRoundTrip(f: Fields, list: Bytes, next: Bytes, depth: nat)
    requires depth + 1 <= MAX_NEST_DEPTH
    ensures var body := EncInteger(f.requestId).value +
                        (EncInteger(f.errorStatus).value + (EncInteger(f.errorIndex).value + list));
            var vbs := ParseVarbindList(list, depth + 1);
            ParsePduBody(Tlv(f.tag, body, next), depth) ==
            if vbs.Ok? then Ok(f.(varbinds := vbs.value)) else Err(vbs.error)
  {
    hide ParseField, ParseVarbindList;
    var e3 := EncInteger(f.errorIndex).value + list;
    var e2 := EncInteger(f.errorStatus).value + e3;
    FieldRoundTrip(f.requestId, e2, depth + 1);
    FieldRoundTrip(f.errorStatus, e3, depth + 1);
    FieldRoundTrip(f.errorIndex, list, depth + 1);
  }

  /** Whatever was encoded, under any tag and with any trailing octets, is read back field by field and varbind by
      varbind, exactly when every varbind can be carried and there are at most fifty. */
  lemma PduRoundTrip(f: Fields, rest: Bytes, depth: nat)
    requires EncPdu(f).Some? && |EncPdu(f).value| < SIZE_LIMIT && depth + 3 <= MAX_NEST_DEPTH
    ensures ParseAnyPdu(EncPdu(f).value + rest, depth) == Ok(f) <==> AllCarriable(f.varbinds) && |f.varbinds| <= 50
    ensures IsRequestTag(f.tag) ==>
              ParseRequestPdu(EncPdu(f).value + rest, depth) == ParseAnyPdu(EncPdu(f).value + rest, depth)
  {
    hide EncTlv, ParsePduBody, ParseTlv, ParseVarbindList, EncVarbindList, AllCarriable;
    var list := EncVarbindList(f.varbinds).value;
    var body := EncInteger(f.requestId).value +
                (EncInteger(f.errorStatus).value + (EncInteger(f.errorIndex).value + list));
    TlvRoundTrip(f.tag, body, rest, depth);
    PduBodyRoundTrip(f, list, rest, depth);
    VarbindListRoundTrip(f.varbinds, [], depth + 1);
    assert list + [] == list;
  }

  // ---------------------------------------------------------------- sizes

  lemma EncTlvSize(tag: byte, content: Bytes)
    requires |content| < SIZE_LIMIT
    ensures |EncTlv(tag, content)| <= |content| + 6
  {
    SizeDigits(|content|);
  }

  lemma {:induction false} ArcsBytesSize(arcs: Oid)
    ensures |ArcsBytes(arcs)| <= 5 * |arcs|
  {
    if arcs != [] {
      ArcWidth(arcs[0]);
      ArcsBytesSize(arcs[1..]);
    }
  }

  lemma VarbindSize(vb: Varbind)
    requires Carriable(vb)
    ensures EncVarbind(vb).Some? && |EncVarbind(vb).value| <= 250
  {
    ArcsBytesSize(vb.oid[2..]);
    EncTlvSize(TAG_OID, OidContent(vb.oid));
    match vb.value {
      case Integer(i) => IntegerContentWidths(i);
      case Unsigned32(_, u) => IntegerContentWidths(u);
      case Counter64(c) => IntegerContentWidths(c);
      case ObjectId(oid) => ArcsBytesSize(oid[2..]);
      case _ =>
    }
    ValueRoundTrip(vb.value, []);
    EncTlvSize(vb.value.Tag(), ValueContent(vb.value));
    EncTlvSize(TAG_SEQUENCE, VarbindContent(vb).value);
  }

  lemma {:induction false} VarbindsSize(vbs: seq<Varbind>)
    requires AllCarriable(vbs)
    ensures EncVarbinds(vbs).Some? && |EncVarbinds(vbs).value| <= 250 * |vbs|
  {
    if vbs != [] {
      VarbindSize(vbs[0]);
      VarbindsSize(vbs[1..]);
    }
  }

  /** Every PDU of at most fifty carriable varbinds has an encoding, and a short one. */
  lemma PduSize(f: Fields)
    requires AllCarriable(f.varbinds) && |f.varbinds| <= MAX_VARBINDS
    ensures EncPdu(f).Some? && |EncPdu(f).value| <= 250 * |f.varbinds| + 42
  {
    VarbindsSize(f.varbinds);
    IntegerContentWidths(f.requestId);
    IntegerContentWidths(f.errorStatus);
    IntegerContentWidths(f.errorIndex);
    EncTlvSize(TAG_SEQUENCE, EncVarbinds(f.varbinds).value);
    EncTlvSize(TAG_INTEGER, IntegerContent(f.requestId));
    EncTlvSize(TAG_INTEGER, IntegerContent(f.errorStatus));
    EncTlvSize(TAG_INTEGER, IntegerContent(f.errorIndex));
    EncTlvSize(f.tag, EncInteger(f.requestId).value + (EncInteger(f.errorStatus).value +
                      (EncInteger(f.errorIndex).value + EncVarbindList(f.varbinds).value)));
  }

  /** For every request tag, all field values and up to fifty carriable varbinds of any kind: the agent reads back
      exactly the PDU that was encoded. */
  lemma RequestRoundTrip(f: Fields, rest: Bytes, depth: nat)
    requires IsRequestTag(f.tag) && AllCarriable(f.varbinds) && |f.varbinds| <= MAX_VARBINDS
    requires depth + 3 <= MAX_NEST_DEPTH
    ensures EncPdu(f).Some? && ParseRequestPdu(EncPdu(f).value + rest, depth) == Ok(f)
  {
    PduSize(f);
    PduRoundTrip(f, rest, depth);
  }

  // ---------------------------------------------------------------- arbitrary input

  /** The elements a list content falls into. */
  function Elements(s: Bytes, depth: nat): seq<Bytes>
    decreases |s|
  {
    var r := ParseExpected(s, depth + 1, TAG_SEQUENCE);
    if s == [] || r.Err? then [] else [s[..|s| - |r.value.next|]] + Elements(r.value.next, depth)
  }

  /** The first element of an accepted list, read on its own, is the first varbind. */
  lemma FirstElement(s: Bytes, depth: nat, room: nat)
    requires s != []
    ensures var all, es := ParseVarbinds(s, depth, room), Elements(s, depth);
            all.Ok? ==> all.value != [] && es != [] && ParseVarbinds(es[0], depth, 1) == Ok([all.value[0]])
  {
    if ParseVarbinds(s, depth, room).Ok? {
      var t := ParseExpected(s, depth + 1, TAG_SEQUENCE).value;
      TlvPartition(s, depth + 1);
      assert ParseVarbinds([], depth, 0) == Ok([]);
      var vb := ParseVarbind(t.value, depth + 2).value;
      assert [vb] + [] == [vb];
    }
  }

  /** An accepted list content is cut exactly into elements, one per varbind, each of which is that varbind. */
  lemma {:induction false} ListPartition(s: Bytes, depth: nat, room: nat)
    requires ParseVarbinds(s, depth, room).Ok?
    ensures var vbs, es := ParseVarbinds(s, depth, room).value, Elements(s, depth);
            && Concat(es) == s
            && |es| == |vbs|
            && forall i | 0 <= i < |es| :: ParseVarbinds(es[i], depth, 1) == Ok([vbs[i]])
    decreases |s|
  {
    hide ParseVarbind, ParseTlv;
    if s != [] {
      var t := ParseExpected(s, depth + 1, TAG_SEQUENCE).value;
      var vbs, es := ParseVarbinds(s, depth, room).value, Elements(s, depth);
      TlvPartition(s, depth + 1);
      FirstElement(s, depth, room);
      ListPartition(t.next, depth, room - 1);
      assert es[1..] == Elements(t.next, depth);
      assert s == es[0] + t.next;
      forall i | 0 <= i < |es| ensures ParseVarbinds(es[i], depth, 1) == Ok([vbs[i]]) {
        if i > 0 {
          assert es[i] == es[1..][i - 1];
        }
      }
    }
  }

  /** What can be encoded at all comes back as it was. A varbind that came in is like that: the one thing that can be
      wrong with a parsed OID is a first octet of 120 or more, and then it cannot be encoded. */
  predicate Echoable(vb: Varbind) {
    && (OidEncodable(vb.oid) ==> CarriableOid(vb.oid))
    && (EncValue(vb.value).Some? ==> CarriableValue(vb.value))
  }

  lemma ParsedValueIsEchoable(t: Tlv)
    requires ParseValue(t).Ok?
    ensures EncValue(ParseValue(t).value).Some? ==> CarriableValue(ParseValue(t).value)
  {
  }

  lemma ParsedIsEchoable(content: Bytes, depth: nat)
    requires ParseVarbind(content, depth).Ok?
    ensures Echoable(ParseVarbind(content, depth).value)
  {
    var name := ParseExpected(content, depth, TAG_OID).value;
    ParsedValueIsEchoable(ParseTlv(name.next, depth).value);
  }

  lemma {:induction false} ParsedListIsEchoable(s: Bytes, depth: nat, room: nat)
    requires ParseVarbinds(s, depth, room).Ok?
    ensures forall vb | vb in ParseVarbinds(s, depth, room).value :: Echoable(vb)
    decreases |s|
  {
    hide ParseVarbind, Echoable, ParseExpected;
    if s != [] {
      var t := ParseExpected(s, depth + 1, TAG_SEQUENCE).value;
      ParsedIsEchoable(t.value, depth + 2);
      ParsedListIsEchoable(t.next, depth, room - 1);
    }
  }
}
