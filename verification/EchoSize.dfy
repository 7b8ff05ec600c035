/** How long a reply that echoes its request can be: re-encoding what was received takes no more octets than it came in,
    with one exception. */
module EchoSize {
  import opened Types
  import opened Ber
  import opened Codec
  import opened PduCodec
  import opened Community

  // ---------------------------------------------------------------- elements

  lemma {:induction false} DigitsMonotone(m: nat, n: nat)
    requires m <= n
    ensures |Digits(m)| <= |Digits(n)|
  {
    if m > 0 {
      DigitsMonotone(m / 256, n / 256);
    }
  }

  /** A shorter content never needs more length octets. */
  lemma LengthOctetsMonotone(m: nat, n: nat)
    requires m <= n
    ensures |LengthOctets(m)| <= |LengthOctets(n)|
  {
    if n >= 0x80 {
      DigitsMonotone(m, n);
      DigitsMonotone(0x80, n);
    }
  }

  /** Received length octets are never shorter than those the encoder writes for the same length. */
  lemma LengthIsShortest(s: Bytes)
    requires ParseLength(s).Ok?
    ensures |LengthOctets(ParseLength(s).value.contentLen)| <= ParseLength(s).value.size
  {
    if s[0] >= 0x80 {
      var d := s[1..1 + (s[0] - 0x80)];
      FoldBounds(0, d);
      DigitsWidth(Unsigned(d), |d|);
    }
  }

  /** Putting a content that is no longer in the place of a received one does not lengthen the input. */
  lemma ElementDoesNotGrow(s: Bytes, depth: nat, content: Bytes)
    requires ParseTlv(s, depth).Ok? && |content| <= |ParseTlv(s, depth).value.value|
    ensures forall tag: byte :: |EncTlv(tag, content)| + |ParseTlv(s, depth).value.next| <= |s|
  {
    hide LengthOctets, ParseLength;
    LengthIsShortest(s[1..]);
    LengthOctetsMonotone(|content|, |ParseTlv(s, depth).value.value|);
  }

  lemma {:induction false} GroupIsWideEnough(seed: nat, g: Bytes, k: nat)
    requires seed < Pow128(k)
    ensures GroupValue(seed, g) < Pow128(k + |g|)
    decreases |g|
  {
    if g != [] {
      assert Pow128(k + 1) == 128 * Pow128(k);
      GroupIsWideEnough(seed * 128 + g[0] % 128, g[1..], k + 1);
    }
  }

  /** No octets that read as an arc are fewer than those the encoder writes for it. */
  lemma ArcIsShortest(s: Bytes)
    requires ParseArc(s, 0).Ok?
    ensures |ArcBytes(ParseArc(s, 0).value.value)| + |ParseArc(s, 0).value.rest| <= |s|
  {
    var g := FirstGroup(s);
    ParseArcExact(s, 0);
    GroupIsWideEnough(0, g, 0);
    assert Pow128(|g|) == 128 * Pow128(|g| - 1);
    HighGroupsWidth(GroupValue(0, g) / 128, |g| - 1);
  }

  lemma {:induction false} ArcsAreShortest(s: Bytes, room: nat)
    requires ParseArcs(s, room).Ok?
    ensures |ArcsBytes(ParseArcs(s, room).value)| <= |s|
    decreases |s|
  {
    if s != [] {
      var a := ParseArc(s, 0).value;
      ArcIsShortest(s);
      ArcsAreShortest(a.rest, room - 1);
      var more := ParseArcs(a.rest, room - 1).value;
      assert ([a.value] + more)[1..] == more;
    }
  }

  /** A received OID that can be encoded takes no more octets than it came in. */
  lemma OidDoesNotGrow(t: Tlv, cap: nat)
    requires ParseOid(t, cap).Ok?
    ensures |OidContent(ParseOid(t, cap).value)| <= |t.value|
  {
    var arcs := ParseArcs(t.value[1..], cap - 2).value;
    ArcsAreShortest(t.value[1..], cap - 2);
    assert ([t.value[0] / 40, t.value[0] % 40] + arcs)[2..] == arcs;
  }

  lemma IntegerDoesNotGrow(t: Tlv)
    requires ParseInteger(t).Ok?
    ensures |IntegerContent(ParseInteger(t).value)| <= |t.value|
  {
    IntegerContentIsShortest(t.value);
  }

  /** Section 8.3 of X.690 has a zero octet before a non-negative value whose top bit is set. The decoder accepts
      content without it, except at full width. */
  predicate LacksPad(t: Tlv) {
    && (IsUnsignedTag(t.tag) || t.tag == TAG_COUNTER64)
    && t.value != [] && t.value[0] >= 0x80
    && |t.value| < (if t.tag == TAG_COUNTER64 then 9 else 5)
  }

  /** Then, and only then, the agent's encoding of the value is longer, by the pad. */
  lemma UnsignedGrowth(t: Tlv, v: nat)
    requires ParseUnsigned(t) == Ok(v) || ParseUnsigned64(t) == Ok(v)
    ensures LacksPad(t) ==> |IntegerContent(v)| == |t.value| + 1
    ensures !LacksPad(t) ==> |IntegerContent(v)| <= |t.value|
  {
    var c, n := t.value, |t.value|;
    hide IntegerContent, ParseUnsigned, ParseUnsigned64;
    UnsignedReads(t, v);
    IntegerContentWidths(v);
    FoldBounds(0, c);
    Pow256Small();
    if LacksPad(t) {
      assert [0] + c == [0] + c && ([0] + c)[0] == 0;
      FoldCons(0, 0, c);
      assert Signed([0] + c) == v && Minimal([0] + c);
      MinimalIsUnique([0] + c);
    } else if n < (if t.tag == TAG_COUNTER64 then 9 else 5) {
      assert Signed(c) == v;
      IntegerContentIsShortest(c);
    }
  }

  /** What the two unsigned readings make of content below full width, and how wide they can get. */
  lemma UnsignedReads(t: Tlv, v: nat)
    requires ParseUnsigned(t) == Ok(v) || ParseUnsigned64(t) == Ok(v)
    ensures t.value != []
    ensures t.tag != TAG_COUNTER64 ==> IsUnsignedTag(t.tag) && |t.value| <= 5 && v < 0x1_0000_0000
    ensures t.tag == TAG_COUNTER64 ==> |t.value| <= 9 && v < 0x1_0000_0000_0000_0000
    ensures |t.value| < (if t.tag == TAG_COUNTER64 then 9 else 5) ==> v == Unsigned(t.value)
  {
    FoldBounds(0, t.value);
    Pow256Small();
  }

  // ---------------------------------------------------------------- varbinds, lists and PDUs

  /** The only received OIDs that cannot be encoded again begin with an octet of 120 or more. */
  lemma OidEncodableExact(t: Tlv, cap: nat)
    requires ParseOid(t, cap).Ok?
    ensures OidEncodable(ParseOid(t, cap).value) <==> t.value[0] < 120
  {
    hide ParseArcs;
  }

  /** And a received value can be encoded unless it is such an OID. */
  lemma ValueEncodableExact(t: Tlv)
    requires ParseValue(t).Ok?
    ensures t.tag == TAG_OID ==> t.value != []
    ensures EncValue(ParseValue(t).value).Some? <==> (t.tag == TAG_OID ==> t.value[0] < 120)
  {
    hide ParseArcs, IntegerContent, OidContent, Unsigned, Signed;
    if t.tag == TAG_OID {
      OidEncodableExact(t, MAX_OID_LEN);
    }
  }

  /** The value of the varbind does not lack a pad. */
  predicate VarbindPadded(content: Bytes, depth: nat) {
    var name := ParseExpected(content, depth, TAG_OID);
    name.Ok? ==>
      var value := ParseTlv(name.value.next, depth);
      value.Ok? ==> !LacksPad(value.value)
  }

  predicate ListPadded(s: Bytes, depth: nat)
    decreases |s|
  {
    var element := ParseExpected(s, depth + 1, TAG_SEQUENCE);
    s != [] && element.Ok? ==> VarbindPadded(element.value.value, depth + 2) && ListPadded(element.value.next, depth)
  }

  lemma ValueDoesNotGrow(t: Tlv)
    requires ParseValue(t).Ok? && !LacksPad(t) && EncValue(ParseValue(t).value).Some?
    ensures |ValueContent(ParseValue(t).value)| <= |t.value|
  {
    hide IntegerContent, ParseArcs, OidContent, Unsigned, Signed;
    match ParseValue(t).value
    case Integer(_) => IntegerDoesNotGrow(t);
    case ObjectId(_) => OidDoesNotGrow(t, MAX_OID_LEN);
    case Unsigned32(_, u) => UnsignedGrowth(t, u);
    case Counter64(c) => UnsignedGrowth(t, c);
    case _ =>
  }

  lemma VarbindDoesNotGrow(content: Bytes, depth: nat)
    requires ParseVarbind(content, depth).Ok? && VarbindPadded(content, depth)
    ensures var enc := VarbindContent(ParseVarbind(content, depth).value); enc.Some? ==> |enc.value| <= |content|
  {
    hide ParseTlv, EncTlv, ParseValue, ParseOid, OidContent, ValueContent, EncValue, LacksPad;
    var vb := ParseVarbind(content, depth).value;
    var name := ParseExpected(content, depth, TAG_OID).value;
    var t := ParseTlv(name.next, depth).value;
    if VarbindContent(vb).Some? {
      OidDoesNotGrow(name, MAX_OID_LEN);
      ElementDoesNotGrow(content, depth, OidContent(vb.oid));
      ValueDoesNotGrow(t);
      ValueRoundTrip(vb.value, []);
      ElementDoesNotGrow(name.next, depth, ValueContent(vb.value));
    }
  }

  lemma {:induction false} ListDoesNotGrow(s: Bytes, depth: nat, room: nat)
    requires ParseVarbinds(s, depth, room).Ok? && ListPadded(s, depth)
    ensures var enc := EncVarbinds(ParseVarbinds(s, depth, room).value); enc.Some? ==> |enc.value| <= |s|
    decreases |s|
  {
    hide ParseTlv, EncTlv, ParseVarbind, VarbindPadded, VarbindContent, EncVarbinds, EncVarbind;
    if s == [] {
      EncNothing();
    } else {
      var t := ParseExpected(s, depth + 1, TAG_SEQUENCE).value;
      var vb := ParseVarbind(t.value, depth + 2).value;
      var vbs := ParseVarbinds(s, depth, room).value;
      assert vbs[0] == vb && vbs[1..] == ParseVarbinds(t.next, depth, room - 1).value;
      if EncVarbinds(vbs).Some? {
        VarbindsSplit(vbs);
        VarbindDoesNotGrow(t.value, depth + 2);
        ElementDoesNotGrow(s, depth + 1, VarbindContent(vb).value);
        ListDoesNotGrow(t.next, depth, room - 1);
      }
    }
  }

  lemma EncNothing()
    ensures EncVarbinds([]) == Some([])
  {
  }

  /** An INTEGER may give way to itself or to one of a single octet. */
  lemma FieldDoesNotGrow(s: Bytes, depth: nat, v: int32)
    requires ParseField(s, depth).Ok? && (v == ParseField(s, depth).value.value || -0x80 <= v < 0x80)
    ensures |EncInteger(v).value| + |ParseField(s, depth).value.next| <= |s|
  {
    hide ParseTlv, EncTlv, Signed;
    var t := ParseExpected(s, depth, TAG_INTEGER).value;
    IntegerDoesNotGrow(t);
    ElementDoesNotGrow(s, depth, IntegerContent(v));
  }

  /** The content of the varbind list of a PDU. */
  function ListOctets(s: Bytes, depth: nat): Result<Bytes> {
    var pdu :- ParseTlv(s, depth);
    var requestId :- ParseField(pdu.value, depth + 1);
    var errorStatus :- ParseField(requestId.next, depth + 1);
    var errorIndex :- ParseField(errorStatus.next, depth + 1);
    var list :- ParseExpected(errorIndex.next, depth + 1, TAG_SEQUENCE);
    Ok(list.value)
  }

  lemma ListOfPdu(s: Bytes, depth: nat)
    requires ParseRequestPdu(s, depth).Ok?
    ensures ListOctets(s, depth).Ok?
    ensures ParseVarbinds(ListOctets(s, depth).value, depth + 1, MAX_VARBINDS)
            == Ok(ParseRequestPdu(s, depth).value.varbinds)
  {
    hide ParseTlv, ParseField, ParseVarbinds;
  }

  /** No unsigned value in the PDU lacks its pad. */
  predicate PduPadded(s: Bytes, depth: nat) {
    ListOctets(s, depth).Ok? ==> ListPadded(ListOctets(s, depth).value, depth + 1)
  }

  /** A reply that repeats request-id and varbinds of a received request, with a one-octet status and index, is no
      longer than the request was. */
  lemma EchoDoesNotGrow(s: Bytes, depth: nat, reply: Fields)
    requires ParseRequestPdu(s, depth).Ok? && PduPadded(s, depth)
    requires var f := ParseRequestPdu(s, depth).value; reply.requestId == f.requestId && reply.varbinds == f.varbinds
    requires 0 <= reply.errorStatus < 0x80 && 0 <= reply.errorIndex < 0x80
    ensures EncPdu(reply).Some? ==> |EncPdu(reply).value| <= |s|
  {
    hide ParseTlv, EncTlv, ParseField, ParseVarbinds, EncVarbinds, ListPadded;
    ListOfPdu(s, depth);
    var content := ListOctets(s, depth).value;
    if EncPdu(reply).Some? {
      var pdu := ParseTlv(s, depth).value;
      var a := ParseField(pdu.value, depth + 1).value;
      var b := ParseField(a.next, depth + 1).value;
      var c := ParseField(b.next, depth + 1).value;
      var vbs := EncVarbinds(reply.varbinds).value;
      ListDoesNotGrow(content, depth + 1, MAX_VARBINDS);
      ElementDoesNotGrow(c.next, depth + 1, vbs);
      FieldDoesNotGrow(b.next, depth + 1, reply.errorIndex);
      FieldDoesNotGrow(a.next, depth + 1, reply.errorStatus);
      FieldDoesNotGrow(pdu.value, depth + 1, reply.requestId);
      ElementDoesNotGrow(s, depth, EncInteger(reply.requestId).value + (EncInteger(reply.errorStatus).value +
                                   (EncInteger(reply.errorIndex).value + EncTlv(TAG_SEQUENCE, vbs))));
    }
  }

  /** The same for a whole message, sent under what the community spells as a C string. */
  lemma EchoMessageDoesNotGrow(msg: Bytes, version: Version, reply: Fields)
    requires ParseEnvelope(msg, 0).Ok?
    requires var e := ParseEnvelope(msg, 0).value; EncPdu(reply).Some? ==> |EncPdu(reply).value| <= |e.pdu|
    ensures var enc := EncMessage(version, CString(ParseEnvelope(msg, 0).value.community), reply);
            enc.Some? ==> |enc.value| <= |msg|
  {
    hide ParseTlv, EncTlv, ParseField, EncPdu;
    var top := ParseExpected(msg, 0, TAG_SEQUENCE).value;
    var v := ParseField(top.value, 1).value;
    var c := ParseExpected(v.next, 1, TAG_OCTET_STRING).value;
    var text := CString(c.value);
    if EncPdu(reply).Some? {
      var p := EncPdu(reply).value;
      ElementDoesNotGrow(v.next, 1, text);
      FieldDoesNotGrow(top.value, 1, VersionNumber(version));
      ElementDoesNotGrow(msg, 0, EncInteger(VersionNumber(version)).value + (EncTlv(TAG_OCTET_STRING, text) + p));
    }
  }
}
