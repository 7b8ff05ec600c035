/** Two requests that get no answer in the 1472 octets the agent has for one: a SET that takes effect, and a GETBULK
    whose answer would have been too long. */
module Unanswered {
  import opened Types
  import opened Ber
  import opened Codec
  import opened PduCodec
  import opened Mib
  import opened Examples
  import opened ReadPdu
  import opened SetPdu
  import opened BulkPdu
  import opened Community
  import opened EchoSize
  import opened Agent
  import opened Writes
  import opened Answers

  const PACKET: nat := 1472

  // ---------------------------------------------------------------- lengths

  lemma TlvLength(tag: byte, content: Bytes)
    ensures |EncTlv(tag, content)| == ElementLength(|content|)
    ensures |content| < 0x80 ==> ElementLength(|content|) == 2 + |content|
  {
  }

  lemma MediumLength(n: nat)
    requires 0x100 <= n < 0x1_0000
    ensures ElementLength(n) == n + 4
  {
    assert Digits(n / 256 / 256) == [];
    assert |Digits(n / 256)| == 1;
  }

  /** Around a list of medium length there are 27 octets. */
  lemma DemoLength(community: Bytes, list: nat)
    requires |community| == 1 && 0x100 <= list < 0x1000
    ensures AnswerLength(V2C, community, 7, list) == list + 27
  {
    hide LengthOctets, EncTlv;
    ShortField(1);
    ShortField(7);
    TlvLength(TAG_OCTET_STRING, community);
    MediumLength(list);
    MediumLength(list + 13);
    MediumLength(list + 23);
  }

  lemma AnswerLengthMonotone(community: Bytes, list: nat, longer: nat)
    requires list <= longer
    ensures AnswerLength(V2C, community, 7, list) <= AnswerLength(V2C, community, 7, longer)
  {
    hide LengthOctets;
    var r := |EncInteger(7).value| + 6;
    var v := |EncInteger(1).value| + ElementLength(|community|);
    LengthOctetsMonotone(list, longer);
    LengthOctetsMonotone(r + ElementLength(list), r + ElementLength(longer));
    LengthOctetsMonotone(v + ElementLength(r + ElementLength(list)), v + ElementLength(r + ElementLength(longer)));
  }

  /** The same varbind length for each of a list. */
  lemma {:induction false} EvenList(vbs: seq<Varbind>, each: nat)
    requires forall i | 0 <= i < |vbs| :: EncVarbind(vbs[i]).Some? && |EncVarbind(vbs[i]).value| == each
    ensures EncVarbinds(vbs).Some? && |EncVarbinds(vbs).value| == each * |vbs|
  {
    hide EncVarbind;
    if vbs != [] {
      EvenList(vbs[1..], each);
    }
  }

  // ---------------------------------------------------------------- fifty times a Gauge32 without its pad

  function Copies<T>(x: T, n: nat): (s: seq<T>)
    ensures |s| == n && forall i | 0 <= i < n :: s[i] == x
  {
    seq(n, i => x)
  }

  function Repeated(part: Bytes, n: nat): (s: Bytes)
    ensures |s| == n * |part|
  {
    if n == 0 then [] else part + Repeated(part, n - 1)
  }

  /** 1.3 and seventeen zeros. */
  function LongName(): Oid {
    [1, 3] + seq(17, i => 0)
  }

  /** The one object: a writable Gauge32; setting it stores 1 in the state. */
  function Gauge(): Object<int> {
    Object(LongName(), TAG_GAUGE32, RW, (st: int) => Answer(MibOk, Unsigned32(Gauge32, 0)),
           Some((st: int, v: Value) => (1, MibOk)))
  }

  function GaugeVarbind(): Varbind {
    Varbind(LongName(), Unsigned32(Gauge32, 0x8000_0000))
  }

  /** 2^31 in four octets, where the agent writes five. */
  const HIGH: Bytes := [0x80, 0, 0, 0]

  function UnpaddedVarbind(): Bytes {
    EncOid(LongName()).value + EncTlv(TAG_GAUGE32, HIGH)
  }

  function SetFields(): Fields {
    Fields(PDU_SET, 7, 0, 0, Copies(GaugeVarbind(), MAX_VARBINDS))
  }

  function UnpaddedSet(): Bytes {
    RawRequest(V2C, DEMO_CONFIG.rw, SetFields(), Repeated(EncTlv(TAG_SEQUENCE, UnpaddedVarbind()), MAX_VARBINDS))
  }

  /** A request around whatever octets stand for the content of its varbind list. */
  function RawRequest(version: Version, community: Bytes, f: Fields, content: Bytes): Bytes {
    var list := EncTlv(TAG_SEQUENCE, content);
    Enclose(version, community,
            EncTlv(f.tag, EncInteger(f.requestId).value +
                          (EncInteger(f.errorStatus).value + (EncInteger(f.errorIndex).value + list))))
  }

  lemma RawRequestMeans(cfg: Config, version: Version, community: Bytes, f: Fields, content: Bytes)
    requires cfg.Valid() && (community == cfg.ro || community == cfg.rw)
    requires IsRequestTag(f.tag) && ParseVarbinds(content, 2, MAX_VARBINDS) == Ok(f.varbinds)
    requires |RawRequest(version, community, f, content)| < SIZE_LIMIT
    ensures RequestIn(cfg, RawRequest(version, community, f, content)) ==
            Some(Request(version, if community == cfg.rw then ReadWrite else ReadOnly, community, f))
  {
    hide ParseTlv, EncTlv, ParseEnvelope, ParseVarbinds, ParsePduBody, CString;
    var list := EncTlv(TAG_SEQUENCE, content);
    var body := EncInteger(f.requestId).value +
                (EncInteger(f.errorStatus).value + (EncInteger(f.errorIndex).value + list));
    var pdu := EncTlv(f.tag, body);
    var msg := RawRequest(version, community, f, content);
    assert msg + [] == msg && pdu + [] == pdu && list + [] == list;
    EnvelopeRoundTrip(version, community, pdu, []);
    TlvRoundTrip(f.tag, body, [], 1);
    PduBodyRoundTrip(f, list, [], 1);
    TlvRoundTrip(TAG_SEQUENCE, content, [], 2);
    CStringOfText(community, []);
  }

  lemma RawLength(version: Version, community: Bytes, f: Fields, content: Bytes)
    requires OneOctetFields(f)
    ensures |RawRequest(version, community, f, content)| == AnswerLength(version, community, f.requestId, |content|)
  {
    hide LengthOctets;
    ShortField(f.errorStatus);
    ShortField(f.errorIndex);
  }

  lemma {:induction false} ZeroArcs(arcs: Oid)
    requires forall i | 0 <= i < |arcs| :: arcs[i] == 0
    ensures |ArcsBytes(arcs)| == |arcs|
  {
    if arcs != [] {
      ZeroArcs(arcs[1..]);
    }
  }

  lemma LongNameFits()
    ensures CarriableOid(LongName()) && |OidContent(LongName())| == 18 && |EncOid(LongName()).value| == 20
  {
    ZeroArcs(LongName()[2..]);
    hide OidContent, EncTlv, ElementLength;
    NameContent();
    TlvLength(TAG_OID, OidContent(LongName()));
  }

  lemma NameContent()
    ensures |OidContent(LongName())| == 1 + |ArcsBytes(LongName()[2..])|
  {
  }

  lemma HighMeans()
    ensures Unsigned(HIGH) == 0x8000_0000
  {
    assert Fold(0, []) == 0;
    hide Fold;
    FoldSnoc(0, [], 0x80);
    FoldSnoc(0, [0x80], 0);
    FoldSnoc(0, [0x80, 0], 0);
    FoldSnoc(0, [0x80, 0, 0], 0);
    assert [] + [0x80] == [0x80] && [0x80] + [0] == [0x80, 0] && [0x80, 0] + [0] == [0x80, 0, 0];
    assert [0x80, 0, 0] + [0] == HIGH;
  }

  /** 28 octets as sent, 29 as the agent writes it. */
  lemma UnpaddedLengths()
    ensures |EncTlv(TAG_SEQUENCE, UnpaddedVarbind())| == 28
    ensures EncVarbind(GaugeVarbind()).Some? && |EncVarbind(GaugeVarbind()).value| == 29
  {
    hide EncTlv, OidContent, IntegerContent, Unsigned, ElementLength;
    LongNameFits();
    HighMeans();
    assert ParseUnsigned(Tlv(TAG_GAUGE32, HIGH, [])) == Ok(0x8000_0000);
    UnsignedGrowth(Tlv(TAG_GAUGE32, HIGH, []), 0x8000_0000);
    TlvLength(TAG_GAUGE32, HIGH);
    TlvLength(TAG_GAUGE32, IntegerContent(0x8000_0000));
    TlvLength(TAG_SEQUENCE, UnpaddedVarbind());
    TlvLength(TAG_SEQUENCE, EncOid(LongName()).value + EncTlv(TAG_GAUGE32, IntegerContent(0x8000_0000)));
  }

  lemma UnpaddedReads()
    ensures ParseVarbind(UnpaddedVarbind(), 4) == Ok(GaugeVarbind())
  {
    hide EncTlv, OidContent, Unsigned, ParseTlv, ParseArcs;
    var value := EncTlv(TAG_GAUGE32, HIGH);
    LongNameFits();
    HighMeans();
    NameRoundTrip(LongName(), value, 4);
    TlvRoundTrip(TAG_GAUGE32, HIGH, [], 4);
    assert value + [] == value;
  }

  lemma {:induction false} RepeatedReads(n: nat, room: nat)
    requires n <= room
    ensures ParseVarbinds(Repeated(EncTlv(TAG_SEQUENCE, UnpaddedVarbind()), n), 2, room) ==
            Ok(Copies(GaugeVarbind(), n))
  {
    hide ParseVarbind, ParseVarbinds, EncTlv, UnpaddedVarbind, GaugeVarbind;
    if n == 0 {
      ParseNothing(2, room);
    } else {
      var rest := Repeated(EncTlv(TAG_SEQUENCE, UnpaddedVarbind()), n - 1);
      UnpaddedReads();
      UnpaddedLengths();
      UnpaddedIsShort();
      ParseVarbindsStep(UnpaddedVarbind(), rest, 2, room);
      RepeatedReads(n - 1, room - 1);
      assert [GaugeVarbind()] + Copies(GaugeVarbind(), n - 1) == Copies(GaugeVarbind(), n);
    }
  }

  lemma UnpaddedIsShort()
    ensures |UnpaddedVarbind()| < 0x80
  {
    UnpaddedLengths();
  }

  lemma GaugeSets(st: int)
    ensures WellFormed(OneModule([Gauge()]))
    ensures Check(OneModule([Gauge()]), st, GaugeVarbind()) == MibOk
    ensures SetOne(OneModule([Gauge()]), st, GaugeVarbind()) == (1, MibOk)
  {
    var mib := OneModule([Gauge()]);
    assert mib.modules[..0] == [];
    assert Sorted([Gauge()]) && |LongName()| == 19;
    FoundAt([Gauge()], 0);
    assert Mib.Resolve(mib, st, LongName()) == Found(ScalarResolved(Gauge(), ScalarAt(0, 0)));
    hide Mib.Resolve, WellFormed;
  }

  lemma {:induction false} GaugeCommits(st: int, n: nat)
    requires n > 0 && WellFormed(OneModule([Gauge()]))
    ensures Commit(OneModule([Gauge()]), st, Copies(GaugeVarbind(), n)) == Run(1, n)
    decreases n
  {
    hide SetOne, WellFormed, GaugeVarbind, OneModule, Gauge;
    var vbs := Copies(GaugeVarbind(), n);
    GaugeSets(st);
    assert vbs[1..] == Copies(GaugeVarbind(), n - 1);
    if n > 1 {
      GaugeCommits(1, n - 1);
    } else {
      assert Commit(OneModule([Gauge()]), 1, vbs[1..]) == Run(1, 0);
    }
  }

  lemma GaugeIsSet()
    ensures WellFormed(OneModule([Gauge()]))
    ensures SetReply(OneModule([Gauge()]), 0, SetFields()).0 == 1
  {
    hide Commit, Check, SetOne, WellFormed, GaugeVarbind, OneModule, Gauge;
    GaugeSets(0);
    GaugeCommits(0, MAX_VARBINDS);
  }

  /** An authorised, valid SetRequest of 1427 octets that takes effect and is not answered in 1472: its fifty Gauge32
      came without the pad, and the answer has them all. */
  lemma UnpaddedSetUnanswered()
    ensures WellFormed(OneModule([Gauge()])) && DEMO_CONFIG.Valid()
    ensures |UnpaddedSet()| == 1427 && IsWrite(DEMO_CONFIG, UnpaddedSet())
    ensures Respond(DEMO_CONFIG, OneModule([Gauge()]), 0, UnpaddedSet(), PACKET) == Served(1, None)
  {
    hide EncTlv, ParseVarbinds, RawRequest, RequestIn, Respond, SetReply, WellFormed, OneModule, Gauge, AnswerLength;
    hide EncVarbind, EncVarbinds, GaugeVarbind, UnpaddedVarbind, AllEncodable;
    var content := Repeated(EncTlv(TAG_SEQUENCE, UnpaddedVarbind()), MAX_VARBINDS);
    UnpaddedLengths();
    RawLength(V2C, DEMO_CONFIG.rw, SetFields(), content);
    DemoLength(DEMO_CONFIG.rw, 1400);
    RepeatedReads(MAX_VARBINDS, MAX_VARBINDS);
    RawRequestMeans(DEMO_CONFIG, V2C, DEMO_CONFIG.rw, SetFields(), content);
    GaugeIsSet();
    EvenList(SetFields().varbinds, 29);
    DemoLength(DEMO_CONFIG.rw, 1450);
    SetUnansweredExact(DEMO_CONFIG, OneModule([Gauge()]), Arrival(0, UnpaddedSet(), PACKET));
  }

  // ---------------------------------------------------------------- a GETBULK that asks for too much

  function Text(): Bytes {
    seq(30, i => 65)
  }

  /** Fifty strings of thirty octets. */
  function Strings(): seq<Object<int>> {
    seq(50, i requires 0 <= i < 50 =>
      Object(ScalarName(i), TAG_OCTET_STRING, RO, (st: int) => Answer(MibOk, OctetString(Text())), None))
  }

  function StringSlot(i: uint32): Varbind {
    Varbind(ScalarName(i), OctetString(Text()))
  }

  function BulkOf(repetitions: nat): Fields
    requires repetitions <= 50
  {
    Fields(PDU_GET_BULK, 7, 0, repetitions, [Varbind([1, 3], Null)])
  }

  function StringSlots(k: nat, m: nat): (s: seq<Varbind>)
    requires k + m <= 50
    ensures |s| == m
  {
    seq(m, i requires 0 <= i < m => StringSlot(k + i))
  }

  lemma StringStep(at: Varbind, k: uint32)
    requires k < 50 && at.oid == if k == 0 then [1, 3] else ScalarName(k - 1)
    ensures WellFormed(OneModule(Strings()))
    ensures var c := Cursor(at, false);
            && StepSlot(OneModule(Strings()), 0, c) == StringSlot(k)
            && Step(OneModule(Strings()), 0, c) == Cursor(StringSlot(k), false)
  {
    hide Fetch, WellFormed, OneModule, Text;
    NumberedFetch(Strings(), 0, at.oid, k);
  }

  lemma {:induction false} StringRounds(at: Varbind, k: nat, m: nat)
    requires k + m <= 50 && at.oid == if k == 0 then [1, 3] else ScalarName(k - 1)
    requires WellFormed(OneModule(Strings()))
    ensures Rounds(OneModule(Strings()), 0, [Cursor(at, false)], m) == StringSlots(k, m)
    decreases m
  {
    hide Step, StepSlot, WellFormed, OneModule, Strings, Rounds, StringSlot;
    if m == 0 {
      NoRounds(OneModule(Strings()), 0, [Cursor(at, false)], 0);
    } else {
      StringStep(at, k);
      OneRepeater(OneModule(Strings()), 0, Cursor(at, false), m);
      StringSlotName(k);
      StringRounds(StringSlot(k), k + 1, m - 1);
      assert StringSlots(k, m) == [StringSlot(k)] + StringSlots(k + 1, m - 1);
    }
  }

  lemma StringSlotName(k: uint32)
    ensures StringSlot(k).oid == ScalarName(k)
  {
  }

  lemma StringsReply(m: nat)
    requires m <= 50
    ensures WellFormed(OneModule(Strings()))
    ensures BulkReply(OneModule(Strings()), 0, BulkOf(m)).varbinds == StringSlots(0, m)
  {
    hide Step, StepSlot, WellFormed, OneModule, Strings, Rounds, StringSlots;
    var start := Varbind([1, 3], Null);
    StringStep(start, 0);
    StringRounds(start, 0, m);
    assert StartCursors(BulkOf(m)) == [Cursor(start, false)];
    assert FirstPart(OneModule(Strings()), 0, BulkOf(m)) == [];
  }

  lemma StringSlotLength(k: uint32)
    requires k < 0x80
    ensures EncVarbind(StringSlot(k)).Some? && |EncVarbind(StringSlot(k)).value| == 38
  {
    hide EncTlv, ElementLength, Text;
    assert |Text()| == 30 by { TextLength(); }
    assert ScalarName(k)[2..] == [k] && |ArcsBytes([k])| == 1 by { SmallArc(k); }
    TlvLength(TAG_OID, OidContent(ScalarName(k)));
    TlvLength(TAG_OCTET_STRING, Text());
    TlvLength(TAG_SEQUENCE, EncOid(ScalarName(k)).value + EncTlv(TAG_OCTET_STRING, Text()));
  }

  lemma TextLength()
    ensures |Text()| == 30
  {
  }

  lemma SmallArc(k: uint32)
    requires k < 0x80
    ensures |ArcsBytes([k])| == 1
  {
    assert HighGroups(k / 128) == [] && ArcsBytes([k][1..]) == [];
  }

  lemma StringSlotsLength(m: nat)
    requires m <= 50
    ensures EncVarbinds(StringSlots(0, m)).Some? && |EncVarbinds(StringSlots(0, m)).value| == 38 * m
  {
    hide EncVarbind, StringSlot;
    forall i | 0 <= i < m ensures EncVarbind(StringSlots(0, m)[i]).Some?
      ensures |EncVarbind(StringSlots(0, m)[i]).value| == 38
    {
      StringSlotLength(i);
    }
    EvenList(StringSlots(0, m), 38);
  }

  /** A GETBULK for up to 38 of the strings is answered in 1472 octets, one for more is dropped whole, although section
      4.2.3 of RFC 3416 has the agent answer with as many as fit. */
  lemma LongBulkUnanswered(m: nat)
    requires m <= 50
    ensures WellFormed(OneModule(Strings()))
    ensures var msg := EncMessage(V2C, DEMO_CONFIG.ro, BulkOf(m));
            && msg.Some?
            && (Respond(DEMO_CONFIG, OneModule(Strings()), 0, msg.value, PACKET).datagram.Some? <==> m <= 38)
  {
    hide EncMessage, RequestIn, Respond, WellFormed, OneModule, Strings, BulkReply, StringSlots, AnswerLength;
    hide EncVarbinds, AllEncodable;
    assert BulkOf(m).varbinds[1..] == [] && AllCarriable(BulkOf(m).varbinds);
    RequestMessageIsRead(DEMO_CONFIG, V2C, DEMO_CONFIG.ro, BulkOf(m));
    StringsReply(m);
    StringSlotsLength(m);
    EncodableExact(StringSlots(0, m));
    if m < 7 {
      AnswerLengthMonotone(DEMO_CONFIG.ro, 38 * m, 38 * 7);
      DemoLength(DEMO_CONFIG.ro, 38 * 7);
    } else {
      DemoLength(DEMO_CONFIG.ro, 38 * m);
    }
    var msg := EncMessage(V2C, DEMO_CONFIG.ro, BulkOf(m)).value;
    AnsweredExact(DEMO_CONFIG, OneModule(Strings()), Arrival(0, msg, PACKET));
  }
}
