/** The octets themselves: identifiers, lengths, integers and names, and one exchange octet by octet. */
module Octets {
  import opened Types
  import opened Ber
  import opened Codec
  import opened PduCodec
  import opened Mib
  import opened Examples
  import opened ReadPdu
  import opened Community
  import opened Agent

  // ---------------------------------------------------------------- identifiers

  /** The identifier octet of each kind of value. */
  lemma ValueIdentifiers(v: Value)
    requires EncValue(v).Some?
    ensures var first := EncValue(v).value[0];
            match v
            case Integer(_) => first == 0x02
            case OctetString(_) => first == 0x04
            case Null => first == 0x05
            case ObjectId(_) => first == 0x06
            case Raw(IpAddress, _) => first == 0x40
            case Unsigned32(Counter32, _) => first == 0x41
            case Unsigned32(Gauge32, _) => first == 0x42
            case Unsigned32(TimeTicks, _) => first == 0x43
            case Raw(Opaque, _) => first == 0x44
            case Counter64(_) => first == 0x46
            case Exception(NoSuchObjectValue) => EncValue(v).value == [0x80, 0]
            case Exception(NoSuchInstanceValue) => EncValue(v).value == [0x81, 0]
            case Exception(EndOfMibViewValue) => EncValue(v).value == [0x82, 0]
  {
    hide IntegerContent, OidContent;
  }

  /** What the agent makes of a value by its identifier octet; any other is refused. Strings are limited to 128 octets,
      and NULL and the exceptions have no content. */
  lemma ValueByIdentifier(t: Tlv)
    ensures var r := ParseValue(t);
            match t.tag
            case 0x02 => r.Ok? ==> r.value.Integer?
            case 0x04 => r == if |t.value| <= 128 then Ok(OctetString(t.value)) else Err(Overflow)
            case 0x05 => r == if t.value == [] then Ok(Null) else Err(BadLength)
            case 0x06 => r.Ok? ==> r.value.ObjectId?
            case 0x40 => r == if |t.value| <= 128 then Ok(Raw(IpAddress, t.value)) else Err(Overflow)
            case 0x41 => r.Ok? ==> r.value.Unsigned32? && r.value.kind == Counter32
            case 0x42 => r.Ok? ==> r.value.Unsigned32? && r.value.kind == Gauge32
            case 0x43 => r.Ok? ==> r.value.Unsigned32? && r.value.kind == TimeTicks
            case 0x44 => r == if |t.value| <= 128 then Ok(Raw(Opaque, t.value)) else Err(Overflow)
            case 0x46 => r.Ok? ==> r.value.Counter64?
            case 0x80 => r == if t.value == [] then Ok(Exception(NoSuchObjectValue)) else Err(BadLength)
            case 0x81 => r == if t.value == [] then Ok(Exception(NoSuchInstanceValue)) else Err(BadLength)
            case 0x82 => r == if t.value == [] then Ok(Exception(EndOfMibViewValue)) else Err(BadLength)
            case _ => r == Err(BadTag)
  {
    hide ParseArcs, Unsigned, Signed;
  }

  /** Requests are GET, GETNEXT, SET and GETBULK by these octets. */
  lemma RequestIdentifiers(s: Bytes)
    ensures ParseRequestPdu(s, 1).Ok? ==> s != [] && s[0] in [0xA0, 0xA1, 0xA3, 0xA5]
                                          && ParseRequestPdu(s, 1).value.tag == s[0]
  {
    hide ParseField, ParseVarbindList, ParseLength;
  }

  // ---------------------------------------------------------------- lengths, integers, names

  lemma ShortElement(tag: byte, content: Bytes)
    ensures |content| < 0x80 ==> EncTlv(tag, content) == [tag, |content|] + content
  {
  }

  lemma LengthSamples()
    ensures LengthOctets(0x7F) == [0x7F] && LengthOctets(0x80) == [0x81, 0x80]
    ensures LengthOctets(300) == [0x82, 0x01, 0x2C]
  {
    assert Digits(0x80) == [0x80] by { assert Digits(0) == []; }
    assert Digits(300) == [0x01, 0x2C] by {
      assert Digits(0) == [] && Digits(1) == [1];
    }
  }

  lemma IntegerSamples()
    ensures IntegerContent(0) == [0] && IntegerContent(127) == [0x7F] && IntegerContent(-1) == [0xFF]
    ensures IntegerContent(128) == [0x00, 0x80] && IntegerContent(-128) == [0x80]
    ensures IntegerContent(-129) == [0xFF, 0x7F]
    ensures IntegerContent(0x12345) == [0x01, 0x23, 0x45] && IntegerContent(32768) == [0x00, 0x80, 0x00]
  {
    assert IntegerContent(1) == [1];
    assert IntegerContent(0x123) == [0x01, 0x23];
  }

  lemma ArcSamples()
    ensures ArcBytes(0) == [0] && ArcBytes(127) == [0x7F] && ArcBytes(300) == [0x82, 0x2C]
    ensures ArcBytes(99999) == [0x86, 0x8D, 0x1F]
  {
    assert HighGroups(0) == [] && HighGroups(2) == [0x82] && HighGroups(6) == [0x86];
    assert HighGroups(781) == [0x86, 0x8D];
  }

  /** A name of three arcs. */
  lemma ThreeArcs(arc0: uint32, arc1: uint32, arc2: uint32)
    requires arc0 < 2 && arc1 < 40
    ensures OidEncodable([arc0, arc1, arc2])
    ensures OidContent([arc0, arc1, arc2]) == [arc0 * 40 + arc1] + ArcBytes(arc2)
  {
    hide ArcBytes;
    var oid: Oid := [arc0, arc1, arc2];
    assert oid[2..] == [arc2] && [arc2][1..] == [];
    assert ArcsBytes([]) == [] && ArcBytes(arc2) + [] == ArcBytes(arc2);
    assert ArcsBytes([arc2]) == ArcBytes(arc2);
  }

  lemma NameSamples()
    ensures EncOid([1, 3, 0]) == Some(NAME) && EncOid([1, 3, 300]) == Some(NO_NAME)
  {
    hide ArcBytes, EncTlv, OidContent, OidEncodable, LengthOctets;
    ArcSamples();
    ThreeArcs(1, 3, 0);
    ThreeArcs(1, 3, 300);
    assert OidContent([1, 3, 0]) == [0x2B, 0x00] && OidContent([1, 3, 300]) == [0x2B, 0x82, 0x2C];
    ShortElement(TAG_OID, [0x2B, 0x00]);
    ShortElement(TAG_OID, [0x2B, 0x82, 0x2C]);
  }

  /** Names that can be encoded, and those the agent can also read back. */
  lemma NameLimits(oid: Oid)
    ensures EncOid(oid).Some? <==> |oid| >= 2 && (oid[0] == 2 || (oid[0] < 2 && oid[1] < 40))
    ensures CarriableOid(oid) <==> 2 <= |oid| <= 20 && oid[0] <= 2 && oid[1] < 40
  {
    hide OidContent;
  }

  /** A community of more than 31 octets is refused, and so is any version but 0 and 1. */
  lemma EnvelopeLimits(cfg: Config, msg: Bytes)
    ensures RequestIn(cfg, msg).Some? ==>
              var e := ParseEnvelope(msg, 0);
              && e.Ok? && |e.value.community| <= 31
              && (e.value.version == 0 || e.value.version == 1)
              && (e.value.version == 0 <==> RequestIn(cfg, msg).value.version == V1)
  {
    hide ParseTlv, ParseField, ParseRequestPdu;
  }

  // ---------------------------------------------------------------- one exchange

  const PUBLIC: Bytes := [0x70, 0x75, 0x62, 0x6C, 0x69, 0x63]
  const DEMO: Config := Config(PUBLIC, [0x77])

  /** An INTEGER of one octet. */
  function Small(v: byte): Bytes {
    [0x02, 0x01, v]
  }

  const PUBLIC_OCTETS: Bytes := [0x04, 0x06] + [0x70, 0x75, 0x62, 0x6C, 0x69, 0x63]
  const NAME: Bytes := [0x06, 0x02] + [0x2B, 0x00]                // 1.3.0
  const NO_NAME: Bytes := [0x06, 0x03] + [0x2B, 0x82, 0x2C]       // 1.3.300
  const NULL: Bytes := [0x05, 0x00] + []
  const TICKS: Bytes := [0x43, 0x03] + [0x00, 0x80, 0x00]         // TimeTicks 32768
  const NO_OBJECT: Bytes := [0x80, 0x00] + []                     // noSuchObject

  /** Both names with NULL, 17 octets. */
  const ASKED_LIST: Bytes := ([0x30, 0x07] + (NO_NAME + NULL)) + ([0x30, 0x06] + (NAME + NULL))

  /** The first with an exception, the second with its value, 20 octets. */
  const TOLD_LIST: Bytes := ([0x30, 0x07] + (NO_NAME + NO_OBJECT)) + ([0x30, 0x09] + (NAME + TICKS))

  /** GET of 1.3.300 and 1.3.0, request-id 7, in either version. */
  function Asked(version: Version): Bytes {
    [0x30, 0x29] + (Small(if version == V1 then 0 else 1) + (PUBLIC_OCTETS +
      ([0xA0, 0x1C] + (Small(7) + (Small(0) + (Small(0) + ([0x30, 0x11] + ASKED_LIST)))))))
  }

  /** Where 1.3.0 is a TimeTicks that reads as 32768 and there is nothing else: v1 echoes the request with noSuchName
      (2) for the first varbind, v2c says noSuchObject for the first and answers the second. */
  function Told(version: Version): Bytes {
    match version
    case V1 =>
      [0x30, 0x29] + (Small(0) + (PUBLIC_OCTETS +
        ([0xA2, 0x1C] + (Small(7) + (Small(2) + (Small(1) + ([0x30, 0x11] + ASKED_LIST)))))))
    case V2C =>
      [0x30, 0x2C] + (Small(1) + (PUBLIC_OCTETS +
        ([0xA2, 0x1F] + (Small(7) + (Small(0) + (Small(0) + ([0x30, 0x14] + TOLD_LIST)))))))
  }

  function Ticks(): seq<Object<int>> {
    [Object(ScalarName(0), TAG_TIMETICKS, RO, (st: int) => Answer(MibOk, Unsigned32(TimeTicks, 32768)), None)]
  }

  function AskedFields(): Fields {
    Fields(0xA0, 7, 0, 0, [Varbind([1, 3, 300], Null), Varbind([1, 3, 0], Null)])
  }

  function ToldFields(version: Version): Fields {
    match version
    case V1 => Fields(0xA2, 7, 2, 1, AskedFields().varbinds)
    case V2C => Fields(0xA2, 7, 0, 0, [Varbind([1, 3, 300], Exception(NoSuchObjectValue)),
                                       Varbind([1, 3, 0], Unsigned32(TimeTicks, 32768))])
  }

  lemma FieldSample(v: int32)
    requires 0 <= v < 0x80
    ensures EncInteger(v) == Some(Small(v))
  {
    assert IntegerContent(v) == [v];
    ShortElement(TAG_INTEGER, [v]);
    assert [0x02, 1] + [v] == Small(v);
  }

  lemma VarbindOctets(vb: Varbind, name: Bytes, value: Bytes)
    requires EncOid(vb.oid) == Some(name) && EncValue(vb.value) == Some(value) && |name| + |value| < 0x80
    ensures EncVarbind(vb) == Some([0x30, |name| + |value|] + (name + value))
  {
    hide EncOid, EncValue, EncTlv;
    ShortElement(TAG_SEQUENCE, name + value);
  }

  lemma TwoVarbinds(vbs: seq<Varbind>, one: Bytes, two: Bytes)
    requires |vbs| == 2 && EncVarbind(vbs[0]) == Some(one) && EncVarbind(vbs[1]) == Some(two)
    ensures EncVarbinds(vbs) == Some(one + two)
  {
    hide EncVarbind;
    assert vbs[1..][1..] == [] && vbs[1..][0] == vbs[1];
    assert EncVarbinds(vbs[1..][1..]) == Some([]);
    assert two + [] == two;
  }

  /** A short message, spelled out around its list. */
  lemma MessageOctets(version: Version, f: Fields, list: Bytes)
    requires EncVarbinds(f.varbinds) == Some(list) && |list| < 40
    requires f.requestId == 7 && 0 <= f.errorStatus < 0x80 && 0 <= f.errorIndex < 0x80
    ensures var pdu := Small(7) + (Small(f.errorStatus) + (Small(f.errorIndex) + ([0x30, |list|] + list)));
            var v := Small(if version == V1 then 0 else 1);
            EncMessage(version, PUBLIC, f) ==
            Some([0x30, |list| + 24] + (v + (PUBLIC_OCTETS + ([f.tag, |list| + 11] + pdu))))
  {
    hide EncVarbinds, EncInteger, EncTlv;
    FieldSample(7);
    FieldSample(f.errorStatus);
    FieldSample(f.errorIndex);
    FieldSample(VersionNumber(version));
    ShortElement(TAG_SEQUENCE, list);
    var pdu := Small(7) + (Small(f.errorStatus) + (Small(f.errorIndex) + ([0x30, |list|] + list)));
    ShortElement(f.tag, pdu);
    ShortElement(TAG_OCTET_STRING, PUBLIC);
    ShortElement(TAG_SEQUENCE, Small(VersionNumber(version)) + (PUBLIC_OCTETS + ([f.tag, |list| + 11] + pdu)));
  }

  lemma AskedListOctets(vbs: seq<Varbind>)
    requires vbs == AskedFields().varbinds
    ensures EncVarbinds(vbs) == Some(ASKED_LIST)
  {
    hide EncOid, EncVarbind, EncVarbinds, EncTlv;
    NameSamples();
    ShortElement(TAG_NULL, []);
    VarbindOctets(vbs[0], NO_NAME, NULL);
    VarbindOctets(vbs[1], NAME, NULL);
    TwoVarbinds(vbs, [0x30, 0x07] + (NO_NAME + NULL), [0x30, 0x06] + (NAME + NULL));
  }

  lemma ToldListOctets(vbs: seq<Varbind>)
    requires vbs == ToldFields(V2C).varbinds
    ensures EncVarbinds(vbs) == Some(TOLD_LIST)
  {
    hide EncOid, EncVarbind, EncVarbinds, EncTlv;
    NameSamples();
    IntegerSamples();
    hide IntegerContent;
    ShortElement(0x80, []);
    ShortElement(TAG_TIMETICKS, [0x00, 0x80, 0x00]);
    VarbindOctets(vbs[0], NO_NAME, NO_OBJECT);
    VarbindOctets(vbs[1], NAME, TICKS);
    TwoVarbinds(vbs, [0x30, 0x07] + (NO_NAME + NO_OBJECT), [0x30, 0x09] + (NAME + TICKS));
  }

  lemma AskedOctets(version: Version)
    ensures EncMessage(version, PUBLIC, AskedFields()) == Some(Asked(version))
  {
    hide EncMessage, EncVarbinds;
    AskedListOctets(AskedFields().varbinds);
    MessageOctets(version, AskedFields(), ASKED_LIST);
  }

  lemma ToldOctets(version: Version)
    ensures EncMessage(version, PUBLIC, ToldFields(version)) == Some(Told(version))
  {
    hide EncMessage, EncVarbinds;
    match version {
      case V1 =>
        AskedListOctets(ToldFields(V1).varbinds);
        MessageOctets(V1, ToldFields(V1), ASKED_LIST);
      case V2C =>
        ToldListOctets(ToldFields(V2C).varbinds);
        MessageOctets(V2C, ToldFields(V2C), TOLD_LIST);
    }
  }

  lemma AskedIsCarriable()
    ensures AllCarriable(AskedFields().varbinds)
  {
    hide OidEncodable, CarriableOid;
    NameLimits([1, 3, 0]);
    NameLimits([1, 3, 300]);
    assert AskedFields().varbinds[1..][1..] == [];
  }

  /** These octets are that request. */
  lemma AskedIsRead(version: Version)
    ensures RequestIn(DEMO, Asked(version)) == Some(Request(version, ReadOnly, PUBLIC, AskedFields()))
    ensures Asked(version) != []
  {
    hide EncMessage, RequestIn, AllCarriable;
    AskedIsCarriable();
    AskedOctets(version);
    RequestMessageIsRead(DEMO, version, PUBLIC, AskedFields());
  }

  lemma TicksRead(version: Version)
    ensures WellFormed(OneModule(Ticks()))
    ensures Fetch(OneModule(Ticks()), 0, version, ExactMatch, [1, 3, 0]) ==
            Good(Varbind([1, 3, 0], Unsigned32(TimeTicks, 32768)))
    ensures Fetch(OneModule(Ticks()), 0, version, ExactMatch, [1, 3, 300]) == Bad(NoSuchObject)
  {
    var mib := OneModule(Ticks());
    NumberedView(Ticks(), 0);
    NumberedLookup(Ticks(), 0, 0);
    assert ScalarName(300)[2] == 300;
    assert [1, 3, 300] !in View(mib, 0);
    ResolveIsMembership(mib, 0, [1, 3, 300]);
    NoSuchInstanceExact(mib, 0, [1, 3, 300]);
    hide WellFormed, View, Mib.Resolve;
  }

  lemma TicksReply(version: Version)
    ensures WellFormed(OneModule(Ticks()))
    ensures ReadReply(OneModule(Ticks()), 0, version, ExactMatch, AskedFields()) == ToldFields(version)
  {
    TicksRead(version);
    hide WellFormed, Fetch, OneModule, Ticks, FirstAbort;
    var f, mib := AskedFields(), OneModule(Ticks());
    var os := Outcomes(mib, 0, version, ExactMatch, f.varbinds);
    assert os[0] == Bad(NoSuchObject) && os[1] == Good(ToldFields(V2C).varbinds[1]);
    FirstAbortIs(version, os, if version == V1 then 0 else 2);
    assert ReadReply(mib, 0, version, ExactMatch, f).varbinds == ToldFields(version).varbinds;
  }

  /** One exchange, octet by octet, in both versions. */
  lemma Exchange(version: Version)
    ensures WellFormed(OneModule(Ticks()))
    ensures Respond(DEMO, OneModule(Ticks()), 0, Asked(version), 1472) == Served(0, Some(Told(version)))
  {
    hide WellFormed, OneModule, Ticks, RequestIn, EncMessage, ReadReply, Asked;
    AskedIsRead(version);
    TicksReply(version);
    ToldOctets(version);
  }
}
