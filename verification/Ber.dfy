/** What BER octets mean: the byte strings the encoder must produce and the values the decoder must read.
    Nothing here moves a cursor; the loops of the C code are in BerEncoder and BerDecoder. */
module Ber {
  import opened Types

  const TAG_INTEGER: byte := 0x02
  const TAG_OCTET_STRING: byte := 0x04
  const TAG_NULL: byte := 0x05
  const TAG_OID: byte := 0x06
  const TAG_SEQUENCE: byte := 0x30
  const TAG_IPADDRESS: byte := 0x40
  const TAG_COUNTER32: byte := 0x41
  const TAG_GAUGE32: byte := 0x42
  const TAG_TIMETICKS: byte := 0x43
  const TAG_OPAQUE: byte := 0x44
  const TAG_COUNTER64: byte := 0x46
  const MAX_NEST_DEPTH: nat := 6
  const MAX_OID_LEN: nat := 20

  // ---------------------------------------------------------------- positional values

  /** Appends the digits of s, base 256, to seed. Bytes are most significant first. */
  function Fold(seed: int, s: Bytes): (v: int)
    ensures seed >= 0 ==> v >= 0
  {
    if s == [] then seed else Fold(seed, s[..|s| - 1]) * 256 + s[|s| - 1]
  }

  /** The unsigned value of s. */
  function Unsigned(s: Bytes): nat {
    Fold(0, s)
  }

  /** The two's-complement value of s. */
  function Signed(s: Bytes): int
    requires s != []
  {
    Fold(if s[0] >= 0x80 then -1 else 0, s)
  }

  lemma {:induction false} FoldCons(seed: int, b: byte, s: Bytes)
    ensures Fold(seed, [b] + s) == Fold(seed * 256 + b, s)
  {
    if s == [] {
      assert ([b] + s)[..0] == [];
      assert Fold(seed, []) == seed;
    } else {
      assert ([b] + s)[..|s|] == [b] + s[..|s| - 1];
      FoldCons(seed, b, s[..|s| - 1]);
    }
  }

  /** Each octet weighs 256 times the next. */
  lemma {:induction false} FoldWeighs(seed: int, s: Bytes)
    ensures Fold(seed, s) == seed * Pow256(|s|) + Unsigned(s)
  {
    if s != [] {
      var high, p := s[..|s| - 1], Pow256(|s| - 1);
      FoldWeighs(seed, high);
      assert Pow256(|s|) == 256 * p;
      assert seed * Pow256(|s|) == 256 * (seed * p);
    }
  }

  /** Positional values: an octet in front adds its multiple of a power of 256, and a set top bit takes the next power
      off. */
  lemma PositionalValue(b: byte, s: Bytes)
    ensures Unsigned([]) == 0
    ensures Unsigned([b] + s) == b * Pow256(|s|) + Unsigned(s)
    ensures Signed([b] + s) == Unsigned([b] + s) - (if b >= 0x80 then Pow256(|s| + 1) else 0)
  {
    assert Fold(0, []) == 0;
    hide Fold, Pow256;
    FoldCons(0, b, s);
    FoldWeighs(b, s);
    FoldWeighs(-1, [b] + s);
  }

  lemma FoldSnoc(seed: int, s: Bytes, b: byte)
    ensures Fold(seed, s + [b]) == Fold(seed, s) * 256 + b
  {
    assert (s + [b])[..|s|] == s;
  }

  // ---------------------------------------------------------------- INTEGER contents

  /** Section 8.3.2 of X.690: the first nine bits are neither all zero nor all one. */
  predicate Minimal(c: Bytes) {
    && c != []
    && (|c| >= 2 ==> !(c[0] == 0 && c[1] < 0x80) && !(c[0] == 0xFF && c[1] >= 0x80))
  }

  /** The two's-complement digits of v, without redundant leading octets. */
  function IntegerContent(v: int): (c: Bytes)
    ensures c != []
    decreases if v < 0 then -v else v
  {
    if -0x80 <= v < 0x80 then [v % 256] else IntegerContent(v / 256) + [v % 256]
  }

  lemma SignedOne(b: byte)
    ensures Signed([b]) == if b < 0x80 then b else b - 0x100
  {
    assert [] + [b] == [b];
    FoldSnoc(if b >= 0x80 then -1 else 0, [], b);
  }

  lemma SignedSnoc(high: Bytes, low: byte)
    requires high != []
    ensures Signed(high + [low]) == Signed(high) * 256 + low
  {
    FoldSnoc(if high[0] >= 0x80 then -1 else 0, high, low);
  }

  lemma {:induction false} IntegerContentMeans(v: int)
    ensures Minimal(IntegerContent(v)) && Signed(IntegerContent(v)) == v
    decreases if v < 0 then -v else v
  {
    var q, low: byte := v / 256, v % 256;
    if -0x80 <= v < 0x80 {
      SignedOne(low);
    } else {
      var high := IntegerContent(q);
      IntegerContentMeans(q);
      SignedSnoc(high, low);
      if |high| == 1 {
        SignedOne(high[0]);
        assert high == [high[0]];
      }
    }
  }

  /** A redundant leading octet does not change the value. */
  lemma StripRedundant(c: Bytes)
    requires |c| >= 2 && !Minimal(c)
    ensures Signed(c[1..]) == Signed(c)
  {
    assert c == [c[0]] + c[1..];
    FoldCons(if c[0] >= 0x80 then -1 else 0, c[0], c[1..]);
  }

  /** Only one byte string is both minimal and worth v. */
  lemma {:induction false} MinimalIsUnique(c: Bytes)
    requires Minimal(c)
    ensures c == IntegerContent(Signed(c))
  {
    var high, low := c[..|c| - 1], c[|c| - 1];
    if |c| == 1 {
      assert c == [c[0]];
      SignedOne(c[0]);
    } else {
      assert c == high + [low] && high[0] == c[0];
      SignedSnoc(high, low);
      WideIsLarge(high, low);
      MinimalIsUnique(high);
      assert Signed(c) / 256 == Signed(high) && Signed(c) % 256 == low;
    }
  }

  /** A minimal string of two or more octets is worth something one octet cannot hold. */
  lemma {:induction false} WideIsLarge(high: Bytes, low: byte)
    requires high != [] && Minimal(high + [low])
    ensures Minimal(high) && !(-0x80 <= Signed(high) * 256 + low < 0x80)
  {
    var c := high + [low];
    assert c[0] == high[0] && c[1] == if |high| == 1 then low else high[1];
    if |high| == 1 {
      assert high == [high[0]];
      SignedOne(high[0]);
    } else {
      var high', low' := high[..|high| - 1], high[|high| - 1];
      assert high == high' + [low'];
      WideIsLarge(high', low');
      SignedSnoc(high', low');
    }
  }

  /** No byte string worth v is shorter than IntegerContent(v). */
  lemma {:induction false} IntegerContentIsShortest(d: Bytes)
    requires d != []
    ensures |IntegerContent(Signed(d))| <= |d|
  {
    if Minimal(d) {
      MinimalIsUnique(d);
    } else {
      StripRedundant(d);
      IntegerContentIsShortest(d[1..]);
    }
  }

  function Pow256(k: nat): nat {
    if k == 0 then 1 else 256 * Pow256(k - 1)
  }

  /** A value in the signed range of k octets takes at most k octets. */
  lemma {:induction false} IntegerContentWidth(v: int, k: nat)
    requires k >= 1
    requires -0x80 * Pow256(k - 1) <= v < 0x80 * Pow256(k - 1)
    ensures |IntegerContent(v)| <= k
    decreases k
  {
    if k > 1 {
      IntegerContentWidth(v / 256, k - 1);
    }
  }

  /** Octet counts for the three C integer types the agent carries. */
  lemma IntegerContentWidths(v: int)
    ensures -0x8000_0000 <= v < 0x8000_0000 ==> |IntegerContent(v)| <= 4
    ensures 0 <= v < 0x1_0000_0000 ==> |IntegerContent(v)| <= 5
    ensures 0 <= v < 0x1_0000_0000_0000_0000 ==> |IntegerContent(v)| <= 9
  {
    Pow256Small();
    if -0x8000_0000 <= v < 0x8000_0000 {
      IntegerContentWidth(v, 4);
    }
    if 0 <= v < 0x1_0000_0000 {
      IntegerContentWidth(v, 5);
    }
    if 0 <= v < 0x1_0000_0000_0000_0000 {
      IntegerContentWidth(v, 9);
    }
  }

  /** For a non-negative value the padded form reads the same unsigned. */
  lemma NonNegativeContent(v: nat)
    ensures IntegerContent(v)[0] < 0x80
    ensures Unsigned(IntegerContent(v)) == v
  {
    var c := IntegerContent(v);
    IntegerContentMeans(v);
    if c[0] >= 0x80 {
      NegativeLead(c);
    }
  }

  /** A non-negative value is its unsigned digits, with a zero octet in front exactly when there are none or the top
      bit would read as a sign. */
  lemma PadExact(v: nat)
    ensures var d := Digits(v);
            IntegerContent(v) == if v == 0 || d[0] >= 0x80 then [0] + d else d
  {
    var d := Digits(v);
    var c := if v == 0 || d[0] >= 0x80 then [0] + d else d;
    DigitsMean(v);
    FoldCons(0, 0, d);
    if v > 0 {
      LeadingDigit(v);
    }
    assert Minimal(c) && Signed(c) == v;
    MinimalIsUnique(c);
  }

  lemma {:induction false} LeadingDigit(n: nat)
    requires n > 0
    ensures Digits(n) != [] && Digits(n)[0] != 0
  {
    if n / 256 > 0 {
      LeadingDigit(n / 256);
    }
  }

  lemma {:induction false} NegativeLead(c: Bytes)
    requires c != []
    ensures Fold(-1, c) < 0
  {
    if |c| > 1 {
      NegativeLead(c[..|c| - 1]);
    } else {
      assert c[..0] == [];
    }
  }

  // ---------------------------------------------------------------- lengths and TLVs

  /** The unsigned digits of n, none for zero. */
  function Digits(n: nat): (s: Bytes)
    ensures n > 0 ==> s != []
  {
    if n == 0 then [] else Digits(n / 256) + [n % 256]
  }

  lemma {:induction false} DigitsMean(n: nat)
    ensures Unsigned(Digits(n)) == n
  {
    if n > 0 {
      DigitsMean(n / 256);
      FoldSnoc(0, Digits(n / 256), n % 256);
    }
  }

  lemma {:induction false} DigitsWidth(n: nat, k: nat)
    requires n < Pow256(k)
    ensures |Digits(n)| <= k
  {
    if n > 0 {
      DigitsWidth(n / 256, k - 1);
    }
  }

  lemma SizeDigits(n: nat)
    requires n < SIZE_LIMIT
    ensures |Digits(n)| <= 4
  {
    Pow256Small();
    DigitsWidth(n, 4);
  }

  /** Section 8.1.3 of X.690, in the shortest form. */
  function LengthOctets(n: nat): (s: Bytes)
    ensures s != []
  {
    if n < 0x80 then [n] else [(0x80 + |Digits(n)|) % 256] + Digits(n)
  }

  function EncTlv(tag: byte, content: Bytes): (s: Bytes)
    ensures |s| >= 2 + |content|
  {
    [tag] + LengthOctets(|content|) + content
  }

  /** Content length and octets used to write it. */
  datatype Header = Header(contentLen: nat, size: nat)

  function ParseLength(s: Bytes): Result<Header> {
    if s == [] then Err(Truncated)
    else if s[0] < 0x80 then Ok(Header(s[0], 1))
    else
      var n := s[0] - 0x80;
      if n == 0 then Err(BadLength)
      else if n > 4 then Err(Overflow)
      else if |s| < 1 + n then Err(Truncated)
      else Ok(Header(Unsigned(s[1..1 + n]), 1 + n))
  }

  /** A decoded element: the content, and the octets that follow the element. */
  datatype Tlv = Tlv(tag: byte, value: Bytes, next: Bytes)

  function ParseTlv(s: Bytes, depth: nat): (r: Result<Tlv>)
    ensures r.Ok? ==> |r.value.value| + |r.value.next| + 2 <= |s|
  {
    if depth > MAX_NEST_DEPTH then Err(Depth)
    else if |s| < 2 then Err(Truncated)
    else
      var h :- ParseLength(s[1..]);
      if |s| - 1 - h.size < h.contentLen then Err(Truncated)
      else Ok(Tlv(s[0], s[1 + h.size..][..h.contentLen], s[1 + h.size..][h.contentLen..]))
  }

  function ParseExpected(s: Bytes, depth: nat, tag: byte): (r: Result<Tlv>)
    ensures r.Ok? ==> |r.value.value| + |r.value.next| + 2 <= |s|
  {
    var t :- ParseTlv(s, depth);
    if t.tag == tag then Ok(t) else Err(BadTag)
  }

  lemma ParseLengthInverts(n: nat, rest: Bytes)
    requires n < SIZE_LIMIT
    ensures ParseLength(LengthOctets(n) + rest) == Ok(Header(n, |LengthOctets(n)|))
  {
    hide Digits, Unsigned, Fold;
    if n >= 0x80 {
      SizeDigits(n);
      DigitsMean(n);
      var d := Digits(n);
      var s := LengthOctets(n) + rest;
      assert s[0] == 0x80 + |d|;
      assert s[1..1 + |d|] == d;
    }
  }

  /** Decoding undoes encoding for every tag, every content a 32-bit size can describe and any trailing octets. */
  lemma TlvRoundTrip(tag: byte, content: Bytes, rest: Bytes, depth: nat)
    requires |content| < SIZE_LIMIT && depth <= MAX_NEST_DEPTH
    ensures ParseTlv(EncTlv(tag, content) + rest, depth) == Ok(Tlv(tag, content, rest))
  {
    hide LengthOctets, ParseLength;
    var s := EncTlv(tag, content) + rest;
    var len := LengthOctets(|content|);
    ParseLengthInverts(|content|, content + rest);
    assert s[1..] == len + (content + rest);
    assert s[1 + |len|..] == content + rest;
    assert (content + rest)[..|content|] == content;
    assert (content + rest)[|content|..] == rest;
  }

  /** Section 8.1.3 of X.690 in any definite form up to four octets, the shortest or not. */
  predicate SpellsLength(s: Bytes, n: nat) {
    || (s == [n] && n < 0x80)
    || (2 <= |s| <= 5 && s[0] == 0x80 + (|s| - 1) && Unsigned(s[1..]) == n)
  }

  /** Every element is read whose length is spelled in any such form. */
  lemma SpelledIsRead(tag: byte, length: Bytes, content: Bytes, rest: Bytes, depth: nat)
    requires SpellsLength(length, |content|) && depth <= 6
    ensures ParseTlv([tag] + length + content + rest, depth) == Ok(Tlv(tag, content, rest))
  {
    var s := [tag] + length + content + rest;
    assert s[1..] == length + (content + rest);
    assert length == [length[0]] + length[1..];
    assert s[1..][1..|length|] == length[1..];
    hide Unsigned, Fold;
    assert ParseLength(s[1..]) == Ok(Header(|content|, |length|));
    hide ParseLength;
    assert s[1 + |length|..] == content + rest;
    assert (content + rest)[..|content|] == content && (content + rest)[|content|..] == rest;
  }

  /** And no other: what was read was an element with its length spelled so. */
  lemma ReadIsSpelled(s: Bytes, depth: nat) returns (length: Bytes)
    requires ParseTlv(s, depth).Ok?
    ensures var t := ParseTlv(s, depth).value;
            depth <= 6 && SpellsLength(length, |t.value|) && s == [t.tag] + length + t.value + t.next
  {
    hide Unsigned, Fold;
    var t, size := ParseTlv(s, depth).value, ParseLength(s[1..]).value.size;
    length := s[1..][..size];
    assert length[1..] == s[1..][1..size];
    assert SpellsLength(length, |t.value|);
    hide ParseLength, SpellsLength;
    assert s == [s[0]] + length + s[1 + size..];
    assert s[1 + size..] == t.value + t.next;
  }

  lemma ParseLengthPrefix(s: Bytes, k: nat)
    requires k <= |s| && ParseLength(s).Ok? && ParseLength(s).value.size <= k
    ensures ParseLength(s[..k]) == ParseLength(s)
  {
    var n := ParseLength(s).value.size;
    assert s[..k][1..n] == s[1..n];
  }

  /** On arbitrary octets: success splits the input into header, content and rest, and the part before the
      rest is the same element on its own. That at least two octets are consumed is the contract of ParseTlv. */
  lemma TlvPartition(s: Bytes, depth: nat)
    requires ParseTlv(s, depth).Ok?
    ensures var t := ParseTlv(s, depth).value;
            && t.tag == s[0]
            && s == s[..|s| - |t.value| - |t.next|] + t.value + t.next
            && ParseTlv(s[..|s| - |t.next|], depth) == Ok(Tlv(t.tag, t.value, []))
  {
    hide ParseLength, Unsigned, Fold;
    var t := ParseTlv(s, depth).value;
    var hd := 1 + ParseLength(s[1..]).value.size;
    var u := s[..|s| - |t.next|];
    assert s[hd..] == t.value + t.next;
    assert u[1..] == s[1..][..|u| - 1];
    ParseLengthPrefix(s[1..], |u| - 1);
    assert u[hd..] == t.value;
    assert t.value[..|t.value|] == t.value && t.value[|t.value|..] == [];
  }

  // ---------------------------------------------------------------- OBJECT IDENTIFIER contents

  /** Base-128 groups of n with every continuation bit set, none for zero. */
  function HighGroups(n: nat): (s: Bytes) {
    if n == 0 then [] else HighGroups(n / 128) + [0x80 + n % 128]
  }

  /** Section 8.19.2 of X.690: one arc, most significant group first, continuation bits on all but the last. */
  function ArcBytes(arc: nat): (s: Bytes)
    ensures s != []
  {
    HighGroups(arc / 128) + [arc % 128]
  }

  lemma ArcWidth(arc: uint32)
    ensures |ArcBytes(arc)| <= 5
  {
    HighGroupsWidth(arc / 128, 4);
  }

  function Pow128(k: nat): nat {
    if k == 0 then 1 else 128 * Pow128(k - 1)
  }

  lemma {:induction false} HighGroupsWidth(n: nat, k: nat)
    requires n < Pow128(k)
    ensures |HighGroups(n)| <= k
  {
    if n > 0 {
      HighGroupsWidth(n / 128, k - 1);
    }
  }

  function ArcsBytes(arcs: Oid): Bytes {
    if arcs == [] then [] else ArcBytes(arcs[0]) + ArcsBytes(arcs[1..])
  }

  /** The arcs the encoder accepts. */
  predicate OidEncodable(oid: Oid) {
    |oid| >= 2 && oid[0] <= 2 && (oid[0] < 2 ==> oid[1] < 40)
  }

  /** The first two arcs share one octet, computed in 32 bits and truncated to 8. */
  function OidContent(oid: Oid): (s: Bytes)
    requires |oid| >= 2
    ensures s != []
  {
    [SharedOctet(oid[0], oid[1])] + ArcsBytes(oid[2..])
  }

  function SharedOctet(arc0: int, arc1: int): byte {
    (arc0 * 40 + arc1) % 0x1_0000_0000 % 256
  }

  function EncOid(oid: Oid): Option<Bytes> {
    if OidEncodable(oid) then Some(EncTlv(TAG_OID, OidContent(oid))) else None
  }

  /** What reading one base-128 arc leaves. */
  datatype Arc = Arc(value: uint32, rest: Bytes)

  /** Reads one arc on top of the groups already in acc; refuses before the shift would leave 32 bits. */
  function ParseArc(s: Bytes, acc: uint32): (r: Result<Arc>)
    ensures r.Ok? ==> |r.value.rest| < |s|
  {
    if s == [] then Err(Truncated)
    else if acc > UINT32_MAX / 128 then Err(Overflow)
    else
      var acc' := acc * 128 + s[0] % 128;
      if s[0] < 0x80 then Ok(Arc(acc', s[1..])) else ParseArc(s[1..], acc')
  }

  /** Reads arcs to the end of s, at most room of them. */
  function ParseArcs(s: Bytes, room: nat): (r: Result<Oid>)
    ensures r.Ok? ==> |r.value| <= room
    decreases |s|
  {
    if s == [] then Ok([])
    else
      var a :- ParseArc(s, 0);
      if room == 0 then Err(Overflow)
      else
        var more :- ParseArcs(a.rest, room - 1);
        Ok([a.value] + more)
  }

  function ParseOid(t: Tlv, cap: nat): (r: Result<Oid>)
    ensures r.Ok? ==> 2 <= |r.value| <= cap && r.value[1] < 40
  {
    if t.tag != TAG_OID then Err(BadTag)
    else if t.value == [] then Err(BadLength)
    else if cap < 2 then Err(Overflow)
    else
      var arcs :- ParseArcs(t.value[1..], cap - 2);
      Ok([t.value[0] / 40, t.value[0] % 40] + arcs)
  }

  // Exactness: an independent reading of the content, with unbounded arithmetic.

  /** The octets of s up to and including the first without a continuation bit, or all of s. */
  function FirstGroup(s: Bytes): (g: Bytes)
    ensures |g| <= |s| && g == s[..|g|]
    ensures s != [] ==> g != []
  {
    if s == [] then [] else if s[0] < 0x80 then s[..1] else [s[0]] + FirstGroup(s[1..])
  }

  predicate Terminated(g: Bytes) {
    g != [] && g[|g| - 1] < 0x80
  }

  /** The base-128 value of g above seed, padding groups included, in unbounded arithmetic. */
  function GroupValue(seed: nat, g: Bytes): nat
    decreases |g|
  {
    if g == [] then seed else GroupValue(seed * 128 + g[0] % 128, g[1..])
  }

  /** The arcs s spells: maximal groups, the last possibly unfinished. */
  function Groups(s: Bytes): seq<Bytes>
    decreases |s|
  {
    if s == [] then [] else [FirstGroup(s)] + Groups(s[|FirstGroup(s)|..])
  }

  predicate GoodGroup(g: Bytes) {
    Terminated(g) && GroupValue(0, g) <= UINT32_MAX
  }

  lemma {:induction false} GroupValueGrows(seed: nat, g: Bytes)
    ensures GroupValue(seed, g) >= seed
    decreases |g|
  {
    if g != [] {
      GroupValueGrows(seed * 128 + g[0] % 128, g[1..]);
    }
  }

  /** The shift guard fires exactly when the unbounded value of the group leaves 32 bits; otherwise the
      result is that value, and an unfinished group is reported as truncated. */
  lemma {:induction false} ParseArcExact(s: Bytes, acc: uint32)
    requires s != []
    ensures var g := FirstGroup(s);
            ParseArc(s, acc) ==
            if GroupValue(acc, g) > UINT32_MAX then Err(Overflow)
            else if !Terminated(g) then Err(Truncated)
            else Ok(Arc(GroupValue(acc, g), s[|g|..]))
    decreases |s|
  {
    var g := FirstGroup(s);
    var acc' := acc * 128 + s[0] % 128;
    assert GroupValue(acc, g) == GroupValue(acc', g[1..]);
    if acc > UINT32_MAX / 128 {
      GroupValueGrows(acc', g[1..]);
    } else if s[0] >= 0x80 {
      assert g == [s[0]] + FirstGroup(s[1..]);
      assert g[1..] == FirstGroup(s[1..]);
      if s[1..] == [] {
        assert g == [s[0]];
      } else {
        ParseArcExact(s[1..], acc');
        assert s[1..][|g| - 1..] == s[|g|..];
      }
    } else {
      assert g == [s[0]] && g[1..] == [];
    }
  }

  function GroupValues(gs: seq<Bytes>): seq<nat> {
    seq(|gs|, i requires 0 <= i < |gs| => GroupValue(0, gs[i]))
  }

  /** Every arc value fits 32 bits, but the last group never ends, and the groups before it fit the room. */
  predicate EndsUnfinished(gs: seq<Bytes>, room: nat) {
    && gs != [] && !Terminated(gs[|gs| - 1]) && |gs| <= room + 1
    && forall g | g in gs :: GroupValue(0, g) <= UINT32_MAX
  }

  /** ParseArcs succeeds exactly when every group is finished and fits 32 bits and there is room for all of
      them, and then returns their unbounded values. It says truncated exactly when nothing but the last group is
      wrong, and that only because it is unfinished; every other failure is an overflow. */
  lemma {:induction false} ParseArcsExact(s: Bytes, room: nat)
    ensures var r, gs := ParseArcs(s, room), Groups(s);
            && (r.Ok? <==> (forall g | g in gs :: GoodGroup(g)) && |gs| <= room)
            && (r.Ok? ==> r.value == GroupValues(gs))
            && (r.Err? ==> r.error == if EndsUnfinished(gs, room) then Truncated else Overflow)
    decreases |s|
  {
    if s != [] {
      var g := FirstGroup(s);
      var tail := s[|g|..];
      var gs, more := Groups(s), Groups(tail);
      ParseArcExact(s, 0);
      FirstGroupEnds(s);
      assert gs == [g] + more;
      hide Groups, FirstGroup, GroupValue, ParseArc, Terminated, EndsUnfinished;
      EndsUnfinishedStep(g, more, room);
      assert g in gs;
      if GoodGroup(g) && room > 0 {
        ParseArcsExact(tail, room - 1);
        assert GroupValues(gs) == [GroupValue(0, g)] + GroupValues(more);
      }
    }
  }

  lemma EndsUnfinishedStep(g: Bytes, more: seq<Bytes>, room: nat)
    ensures EndsUnfinished([g] + more, room) <==>
            && GroupValue(0, g) <= UINT32_MAX
            && if more == [] then !Terminated(g) else room > 0 && EndsUnfinished(more, room - 1)
  {
    hide GroupValue, Terminated;
    var gs := [g] + more;
    assert g in gs;
    if more != [] {
      assert gs[|gs| - 1] == more[|more| - 1];
    }
  }

  /** Only the last group can be unfinished. */
  lemma {:induction false} FirstGroupEnds(s: Bytes)
    ensures var g := FirstGroup(s); Terminated(g) || g == s
    decreases |s|
  {
    if s != [] && s[0] >= 0x80 {
      var g, h := FirstGroup(s), FirstGroup(s[1..]);
      FirstGroupEnds(s[1..]);
      assert g == [s[0]] + h;
      if Terminated(h) {
        assert g[|g| - 1] == h[|h| - 1];
      }
    }
  }

  function Concat(parts: seq<Bytes>): Bytes {
    if parts == [] then [] else parts[0] + Concat(parts[1..])
  }

  lemma {:induction false} GroupsCover(s: Bytes)
    ensures Concat(Groups(s)) == s
    decreases |s|
  {
    if s != [] {
      GroupsCover(s[|FirstGroup(s)|..]);
    }
  }

  /** ber_decode_oid on arbitrary content: which inputs it accepts and what it returns. Every octet after the
      first belongs to exactly one arc. */
  lemma ParseOidExact(t: Tlv, cap: nat)
    requires t.tag == TAG_OID && t.value != [] && cap >= 2
    ensures var gs := Groups(t.value[1..]);
            && t.value == [t.value[0]] + Concat(gs)
            && (ParseOid(t, cap).Ok? <==> (forall g | g in gs :: GoodGroup(g)) && 2 + |gs| <= cap)
            && (ParseOid(t, cap).Ok? ==>
                  ParseOid(t, cap).value == [t.value[0] / 40, t.value[0] % 40] + GroupValues(gs))
            && (ParseOid(t, cap).Err? ==>
                  ParseOid(t, cap).error == if EndsUnfinished(gs, cap - 2) then Truncated else Overflow)
  {
    hide ParseArcs, Groups, GoodGroup, GroupValues, EndsUnfinished, Concat;
    ParseArcsExact(t.value[1..], cap - 2);
    GroupsCover(t.value[1..]);
  }

  // Round trip.

  /** Reading the high groups of n, then anything, continues from n. */
  lemma {:induction false} ParseHighGroups(n: nat, rest: Bytes)
    requires n <= UINT32_MAX / 128
    ensures ParseArc(HighGroups(n) + rest, 0) == ParseArc(rest, n)
  {
    if n == 0 {
      assert HighGroups(0) + rest == rest;
    } else {
      var last: byte := 0x80 + n % 128;
      assert HighGroups(n) + rest == HighGroups(n / 128) + ([last] + rest);
      ParseHighGroups(n / 128, [last] + rest);
      assert ([last] + rest)[1..] == rest;
    }
  }

  lemma ArcRoundTrip(arc: uint32, rest: Bytes)
    ensures ParseArc(ArcBytes(arc) + rest, 0) == Ok(Arc(arc, rest))
  {
    var low: byte := arc % 128;
    assert ArcBytes(arc) + rest == HighGroups(arc / 128) + ([low] + rest);
    ParseHighGroups(arc / 128, [low] + rest);
    assert ([low] + rest)[1..] == rest;
  }

  lemma {:induction false} ArcsRoundTrip(arcs: Oid, room: nat)
    requires |arcs| <= room
    ensures ParseArcs(ArcsBytes(arcs), room) == Ok(arcs)
  {
    if arcs != [] {
      ArcRoundTrip(arcs[0], ArcsBytes(arcs[1..]));
      ArcsRoundTrip(arcs[1..], room - 1);
      assert arcs == [arcs[0]] + arcs[1..];
    }
  }

  /** What the decoder makes of an encoded OID: every arc from the third on, and what the shared octet splits into. */
  lemma OidOnTheWire(oid: Oid, next: Bytes)
    requires OidEncodable(oid) && |oid| <= MAX_OID_LEN
    ensures var b := SharedOctet(oid[0], oid[1]);
            ParseOid(Tlv(TAG_OID, OidContent(oid), next), MAX_OID_LEN) == Ok([b / 40, b % 40] + oid[2..])
  {
    assert OidContent(oid)[1..] == ArcsBytes(oid[2..]);
    ArcsRoundTrip(oid[2..], MAX_OID_LEN - 2);
  }

  /** An accepted OID survives the wire exactly when its second arc is below 40. */
  lemma OidRoundTrip(oid: Oid, next: Bytes)
    requires OidEncodable(oid) && |oid| <= MAX_OID_LEN
    ensures ParseOid(Tlv(TAG_OID, OidContent(oid), next), MAX_OID_LEN) == Ok(oid) <==> oid[1] < 40
  {
    OidOnTheWire(oid, next);
    if oid[1] < 40 {
      SharedOctetSplits(oid[0], oid[1]);
      assert oid == [oid[0], oid[1]] + oid[2..];
    }
  }

  lemma SharedOctetSplits(arc0: nat, arc1: nat)
    requires arc0 <= 2 && arc1 < 40
    ensures SharedOctet(arc0, arc1) / 40 == arc0 && SharedOctet(arc0, arc1) % 40 == arc1
  {
  }

  /** Two accepted OIDs that come back as something else: 2.47 as 3.7, and 2.200 as 0.24. */
  lemma OidSecondArcLost()
    ensures OidEncodable([2, 47]) && OidEncodable([2, 200])
    ensures ParseOid(Tlv(TAG_OID, OidContent([2, 47]), []), MAX_OID_LEN) == Ok([3, 7])
    ensures ParseOid(Tlv(TAG_OID, OidContent([2, 200]), []), MAX_OID_LEN) == Ok([0, 24])
  {
    var a: Oid, b: Oid := [2, 47], [2, 200];
    OidOnTheWire(a, []);
    OidOnTheWire(b, []);
    assert SharedOctet(2, 47) == 127 && SharedOctet(2, 200) == 24;
    assert [3, 7] + a[2..] == [3, 7] && [0, 24] + b[2..] == [0, 24];
  }

  // ---------------------------------------------------------------- scalar contents

  function ParseInteger(t: Tlv): (r: Result<int32>)
  {
    if t.tag != TAG_INTEGER then Err(BadTag)
    else if t.value == [] || |t.value| > 4 then Err(Overflow)
    else
      SignedFits(t.value);
      Ok(Signed(t.value))
  }

  predicate IsUnsignedTag(tag: byte) {
    tag == TAG_COUNTER32 || tag == TAG_GAUGE32 || tag == TAG_TIMETICKS
  }

  /** Reads into 32 bits: excess high-order octets are shifted out. */
  function ParseUnsigned(t: Tlv): Result<uint32> {
    if !IsUnsignedTag(t.tag) then Err(BadTag)
    else if t.value == [] || |t.value| > 5 then Err(Overflow)
    else Ok(Unsigned(t.value) % 0x1_0000_0000)
  }

  function ParseUnsigned64(t: Tlv): Result<uint64> {
    if t.tag != TAG_COUNTER64 then Err(BadTag)
    else if t.value == [] || |t.value| > 9 then Err(Overflow)
    else Ok(Unsigned(t.value) % 0x1_0000_0000_0000_0000)
  }

  lemma {:induction false} UnsignedBound(s: Bytes)
    ensures 0 <= Unsigned(s) < Pow256(|s|)
  {
    if s != [] {
      UnsignedBound(s[..|s| - 1]);
      assert Pow256(|s|) == 256 * Pow256(|s| - 1);
    }
  }

  lemma FoldBounds(seed: int, s: Bytes)
    ensures seed * Pow256(|s|) <= Fold(seed, s) < (seed + 1) * Pow256(|s|)
  {
    hide Fold, Pow256, Unsigned;
    FoldWeighs(seed, s);
    UnsignedBound(s);
    assert (seed + 1) * Pow256(|s|) == seed * Pow256(|s|) + Pow256(|s|);
  }

  /** Four octets or fewer always fit an int32. */
  lemma SignedFits(c: Bytes)
    requires 1 <= |c| <= 4
    ensures -0x8000_0000 <= Signed(c) < 0x8000_0000
  {
    var b: int := c[0];
    var lead := if b >= 0x80 then b - 0x100 else b;
    assert c == [c[0]] + c[1..];
    FoldCons(if c[0] >= 0x80 then -1 else 0, c[0], c[1..]);
    assert Signed(c) == Fold(lead, c[1..]);
    FoldBounds(lead, c[1..]);
    Pow256Small();
    Scale(lead, Pow256(|c| - 1));
  }

  lemma Scale(lead: int, p: int)
    requires -0x80 <= lead < 0x80 && 1 <= p <= 0x100_0000
    ensures -0x8000_0000 <= lead * p && (lead + 1) * p <= 0x8000_0000
  {
    assert (lead + 0x80) * p >= 0 && (0x7F - lead) * p >= 0;
  }

  /** INTEGER round-trips for every int32. */
  lemma IntegerRoundTrip(v: int32, next: Bytes)
    ensures ParseInteger(Tlv(TAG_INTEGER, IntegerContent(v), next)) == Ok(v)
  {
    hide IntegerContent, Unsigned, Signed, Minimal;
    IntegerContentWidths(v);
    IntegerContentMeans(v);
  }

  /** Counter32, Gauge32 and TimeTicks round-trip for every uint32. */
  lemma UnsignedRoundTrip(tag: byte, v: uint32, next: Bytes)
    requires IsUnsignedTag(tag)
    ensures ParseUnsigned(Tlv(tag, IntegerContent(v), next)) == Ok(v)
  {
    hide IntegerContent, Unsigned, Signed, Minimal;
    IntegerContentWidths(v);
    NonNegativeContent(v);
  }

  /** Counter64 round-trips for every uint64. */
  lemma Unsigned64RoundTrip(v: uint64, next: Bytes)
    ensures ParseUnsigned64(Tlv(TAG_COUNTER64, IntegerContent(v), next)) == Ok(v)
  {
    hide IntegerContent, Unsigned, Signed, Minimal;
    IntegerContentWidths(v);
    NonNegativeContent(v);
  }

  /** On arbitrary content the 32-bit reading is the value itself exactly when a fifth octet, if present, is zero. */
  lemma UnsignedExact(t: Tlv)
    requires ParseUnsigned(t).Ok?
    ensures ParseUnsigned(t).value == Unsigned(t.value) <==> (|t.value| == 5 ==> t.value[0] == 0)
    ensures ParseUnsigned(t).value == if |t.value| == 5 then Unsigned(t.value[1..]) else Unsigned(t.value)
  {
    hide Fold, Unsigned;
    LeadFalls(t.value);
    Pow256Small();
  }

  /** An octet in front of four, or of eight, is lost modulo 2^32 or 2^64. */
  lemma LeadFalls(c: Bytes)
    requires c != []
    ensures var n := Pow256(|c| - 1);
            Unsigned(c) == c[0] * n + Unsigned(c[1..]) && 0 <= Unsigned(c[1..]) < n && Unsigned(c) < Pow256(|c|)
  {
    assert c == [c[0]] + c[1..];
    PositionalValue(c[0], c[1..]);
    UnsignedBound(c[1..]);
    UnsignedBound(c);
  }

  /** The 64-bit reading likewise, for a ninth octet. */
  lemma Unsigned64Exact(t: Tlv)
    requires ParseUnsigned64(t).Ok?
    ensures ParseUnsigned64(t).value == Unsigned(t.value) <==> (|t.value| == 9 ==> t.value[0] == 0)
    ensures ParseUnsigned64(t).value == if |t.value| == 9 then Unsigned(t.value[1..]) else Unsigned(t.value)
  {
    hide Fold, Unsigned;
    LeadFalls(t.value);
    Pow256Small();
  }

  lemma Pow256Small()
    ensures Pow256(0) == 1 && Pow256(1) == 0x100 && Pow256(2) == 0x1_0000 && Pow256(3) == 0x100_0000
    ensures Pow256(4) == 0x1_0000_0000 && Pow256(5) == 0x100_0000_0000 && Pow256(6) == 0x1_0000_0000_0000
    ensures Pow256(7) == 0x100_0000_0000_0000 && Pow256(8) == 0x1_0000_0000_0000_0000
  {
    assert Pow256(2) == 0x1_0000;
    assert Pow256(4) == 256 * Pow256(3);
    assert Pow256(6) == 256 * Pow256(5);
    assert Pow256(8) == 256 * Pow256(7);
  }
}
