/** The right-to-left encoders: each one prepends to what already sits at and beyond the cursor of a
    caller-owned buffer and returns the new cursor. Every one refines a byte string of module Ber. */
module BerEncoder {
  import opened Types
  import opened Ber

  /** What prepending enc at cursor means for a buffer. It succeeds exactly when there is something to
      encode and it fits left of the cursor; then enc ends at the old cursor and nothing else changed. Bytes at or
      beyond the old cursor survive even a failure. */
  ghost predicate Emits(before: Bytes, after: Bytes, cursor: nat, r: Result<nat>, enc: Option<Bytes>) {
    && |after| == |before|
    && cursor <= |before|
    && after[cursor..] == before[cursor..]
    && (r.Ok? <==> enc.Some? && |enc.value| <= cursor)
    && (r.Ok? ==>
          && r.value == cursor - |enc.value|
          && after == before[..r.value] + enc.value + before[cursor..])
  }

  /** Prepending tail and then head is prepending head followed by tail. */
  lemma EmitsThen(b0: Bytes, b1: Bytes, b2: Bytes, cursor: nat, r1: Result<nat>, r2: Result<nat>,
                  head: Option<Bytes>, tail: Option<Bytes>)
    requires Emits(b0, b1, cursor, r1, tail) && r1.Ok?
    requires Emits(b1, b2, r1.value, r2, head)
    ensures Emits(b0, b2, cursor, r2, Join(head, tail))
  {
    assert b2[cursor..] == b2[r1.value..][|tail.value|..];
    assert b1[cursor..] == b1[r1.value..][|tail.value|..];
    if r2.Ok? {
      assert b1[..r2.value] == b0[..r2.value];
      assert b1[r1.value..] == tail.value + b0[cursor..];
    }
  }

  /** What cannot be prepended cannot be prepended as part of something longer. */
  lemma EmitsNothing(b0: Bytes, b1: Bytes, cursor: nat, r: Result<nat>, part: Option<Bytes>, whole: Option<Bytes>)
    requires Emits(b0, b1, cursor, r, part) && r.Err?
    requires whole.Some? ==> part.Some? && |part.value| <= |whole.value|
    ensures Emits(b0, b1, cursor, r, whole)
  {
  }

  method PrependByte(buf: array<byte>, cursor: nat, b: byte) returns (r: Result<nat>)
    requires cursor <= buf.Length
    modifies buf
    ensures Emits(old(buf[..]), buf[..], cursor, r, Some([b]))
    ensures r.Err? ==> r.error == Overflow
  {
    if cursor < 1 {
      return Err(Overflow);
    }
    buf[cursor - 1] := b;
    return Ok(cursor - 1);
  }

  method PrependBytes(buf: array<byte>, cursor: nat, data: Bytes) returns (r: Result<nat>)
    requires cursor <= buf.Length
    modifies buf
    ensures Emits(old(buf[..]), buf[..], cursor, r, Some(data))
    ensures r.Err? ==> r.error == Overflow
  {
    if cursor < |data| {
      return Err(Overflow);
    }
    var start := cursor - |data|;
    forall i | 0 <= i < |data| {
      buf[start + i] := data[i];
    }
    return Ok(start);
  }

  /** The first n entries of a scratch array, last one first: what remains once they have been prepended in order. */
  function Reversed(s: Bytes): (r: Bytes)
    ensures |r| == |s|
  {
    if s == [] then [] else [s[|s| - 1]] + Reversed(s[..|s| - 1])
  }

  /** Prepends scratch[0], scratch[1], ... so that scratch[0] ends up rightmost. */
  method PrependReversed(buf: array<byte>, cursor: nat, scratch: array<byte>, n: nat) returns (r: Result<nat>)
    requires cursor <= buf.Length && n <= scratch.Length && buf != scratch
    modifies buf
    ensures Emits(old(buf[..]), buf[..], cursor, r, Some(Reversed(scratch[..n])))
    ensures r.Err? ==> r.error == Overflow
  {
    ghost var b0, s := buf[..], scratch[..n];
    r := Ok(cursor);
    for i := 0 to n
      invariant r.Ok? && r.value <= buf.Length
      invariant Emits(b0, buf[..], cursor, r, Some(Reversed(s[..i])))
      invariant scratch[..n] == s
    {
      ghost var b1, r1 := buf[..], r;
      assert s[..i + 1][..i] == s[..i];
      assert s[i] == scratch[..n][i] == scratch[i];
      r := PrependByte(buf, r.value, scratch[i]);
      EmitsThen(b0, b1, buf[..], cursor, r1, r, Some([s[i]]), Some(Reversed(s[..i])));
      if r.Err? {
        EmitsNothing(b0, buf[..], cursor, r, Some(Reversed(s[..i + 1])), Some(Reversed(s)));
        return;
      }
    }
    assert s[..n] == s;
  }

  /** Collects the octets of a long-form length, least significant first; four always suffice. */
  method CollectLength(contentLen: nat) returns (lenBytes: array<byte>, n: nat)
    requires contentLen < SIZE_LIMIT
    ensures fresh(lenBytes) && n <= lenBytes.Length == 4
    ensures Reversed(lenBytes[..n]) == Digits(contentLen)
  {
    lenBytes := new byte[4];
    n := 0;
    var tmp := contentLen;
    SizeDigits(contentLen);
    while tmp > 0
      invariant n + |Digits(tmp)| <= 4
      invariant Digits(contentLen) == Digits(tmp) + Reversed(lenBytes[..n])
      decreases tmp
    {
      ghost var done, low: byte := Reversed(lenBytes[..n]), tmp % 256;
      assert Digits(tmp) + done == Digits(tmp / 256) + ([low] + done);
      lenBytes[n] := tmp % 256;
      assert lenBytes[..n + 1][..n] == lenBytes[..n];
      assert Reversed(lenBytes[..n + 1]) == [low] + done;
      n := n + 1;
      tmp := tmp / 256;
    }
  }

  /** The length octets of the header alone. */
  method PrependLength(buf: array<byte>, cursor: nat, contentLen: nat) returns (r: Result<nat>)
    requires cursor <= buf.Length && contentLen < SIZE_LIMIT
    modifies buf
    ensures Emits(old(buf[..]), buf[..], cursor, r, Some(LengthOctets(contentLen)))
    ensures r.Err? ==> r.error == Overflow
  {
    if contentLen <= 0x7F {
      r := PrependByte(buf, cursor, contentLen);
      return;
    }
    ghost var b0, digits := buf[..], Digits(contentLen);
    var lenBytes, n := CollectLength(contentLen);
    assert n == |digits|;
    r := PrependReversed(buf, cursor, lenBytes, n);
    if r.Err? {
      EmitsNothing(b0, buf[..], cursor, r, Some(digits), Some(LengthOctets(contentLen)));
      return;
    }
    ghost var b1, r1 := buf[..], r;
    r := PrependByte(buf, r.value, 0x80 + n);
    EmitsThen(b0, b1, buf[..], cursor, r1, r, Some([0x80 + n]), Some(digits));
  }

  method PrependTlvHeader(buf: array<byte>, cursor: nat, tag: byte, contentLen: nat) returns (r: Result<nat>)
    requires cursor <= buf.Length && contentLen < SIZE_LIMIT
    modifies buf
    ensures Emits(old(buf[..]), buf[..], cursor, r, Some([tag] + LengthOctets(contentLen)))
    ensures r.Err? ==> r.error == Overflow
  {
    ghost var b0, octets := buf[..], LengthOctets(contentLen);
    r := PrependLength(buf, cursor, contentLen);
    if r.Err? {
      EmitsNothing(b0, buf[..], cursor, r, Some(octets), Some([tag] + octets));
      return;
    }
    ghost var b1, r1 := buf[..], r;
    r := PrependByte(buf, r.value, tag);
    EmitsThen(b0, b1, buf[..], cursor, r1, r, Some([tag]), Some(octets));
  }

  /** A header in front of content that is already in the buffer makes a whole element. */
  lemma EmitsElement(b0: Bytes, b1: Bytes, b2: Bytes, cursor: nat, r1: Result<nat>, r2: Result<nat>,
                     tag: byte, content: Bytes)
    requires Emits(b0, b1, cursor, r1, Some(content)) && r1.Ok?
    requires Emits(b1, b2, r1.value, r2, Some([tag] + LengthOctets(|content|)))
    ensures Emits(b0, b2, cursor, r2, Some(EncTlv(tag, content)))
  {
    EmitsThen(b0, b1, b2, cursor, r1, r2, Some([tag] + LengthOctets(|content|)), Some(content));
  }

  method PrependElement(buf: array<byte>, cursor: nat, tag: byte, content: Bytes) returns (r: Result<nat>)
    requires cursor <= buf.Length < SIZE_LIMIT
    modifies buf
    ensures Emits(old(buf[..]), buf[..], cursor, r, Some(EncTlv(tag, content)))
  {
    ghost var b0 := buf[..];
    r := PrependBytes(buf, cursor, content);
    if r.Err? {
      return;
    }
    ghost var b1, r1 := buf[..], r;
    r := PrependTlvHeader(buf, r.value, tag, |content|);
    EmitsElement(b0, b1, buf[..], cursor, r1, r, tag, content);
  }

  /** Two's complement in raw[0..4], redundant leading octets stripped. */
  method EncodeInteger(buf: array<byte>, cursor: nat, value: int32) returns (r: Result<nat>)
    requires cursor <= buf.Length < SIZE_LIMIT
    modifies buf
    ensures Emits(old(buf[..]), buf[..], cursor, r, Some(EncTlv(TAG_INTEGER, IntegerContent(value))))
  {
    ghost var b0 := buf[..];
    var u := value % 0x1_0000_0000;
    var raw := new byte[4];
    raw[0] := u / 0x100_0000 % 256;
    raw[1] := u / 0x1_0000 % 256;
    raw[2] := u / 0x100 % 256;
    raw[3] := u % 256;
    RawSigned(value, raw[..]);

    var start := 0;
    while start < 3
      invariant start <= 3
      invariant Signed(raw[start..]) == value
      invariant buf[..] == b0
      decreases 3 - start
    {
      var b, next := raw[start], raw[start + 1];
      assert raw[start..][1..] == raw[start + 1..];
      if b == 0x00 && next < 0x80 {
        StripRedundant(raw[start..]);
        start := start + 1;
        continue;
      }
      if b == 0xFF && next >= 0x80 {
        StripRedundant(raw[start..]);
        start := start + 1;
        continue;
      }
      break;
    }
    MinimalIsUnique(raw[start..]);
    r := PrependElement(buf, cursor, TAG_INTEGER, raw[start..]);
  }

  lemma FoldFour(seed: int, a: byte, b: byte, c: byte, d: byte)
    ensures Fold(seed, [a, b, c, d]) == (((seed * 256 + a) * 256 + b) * 256 + c) * 256 + d
  {
    assert [] + [a] == [a] && [a] + [b] == [a, b] && [a, b] + [c] == [a, b, c] && [a, b, c] + [d] == [a, b, c, d];
    FoldSnoc(seed, [], a);
    FoldSnoc(seed, [a], b);
    FoldSnoc(seed, [a, b], c);
    FoldSnoc(seed, [a, b, c], d);
  }

  lemma FourOctets(u: uint32)
    ensures ((u / 0x100_0000 % 256 * 256 + u / 0x1_0000 % 256) * 256 + u / 0x100 % 256) * 256 + u % 256 == u
  {
    assert u / 0x1_0000 == u / 0x100 / 256;
    assert u / 0x100_0000 == u / 0x1_0000 / 256;
  }

  lemma RawSigned(value: int32, raw: Bytes)
    requires var u := value % 0x1_0000_0000;
             raw == [u / 0x100_0000 % 256, u / 0x1_0000 % 256, u / 0x100 % 256, u % 256]
    ensures Signed(raw) == value
  {
    hide Fold;
    FourOctets(value % 0x1_0000_0000);
    FoldFour(if raw[0] >= 0x80 then -1 else 0, raw[0], raw[1], raw[2], raw[3]);
  }

  /** value >> (8 * k). */
  function ShiftRight(value: nat, k: nat): nat {
    if k == 0 then value else ShiftRight(value, k - 1) / 256
  }

  lemma {:induction false} ShiftRightAll(value: nat, k: nat)
    requires value < Pow256(k)
    ensures ShiftRight(value, k) == 0
  {
    ShiftRightBelow(value, k, 0);
  }

  lemma {:induction false} ShiftRightBelow(value: nat, k: nat, m: nat)
    requires value < Pow256(k + m)
    ensures ShiftRight(value, k) < Pow256(m)
  {
    if k > 0 {
      ShiftRightBelow(value, k - 1, m + 1);
    }
  }

  /** The common tail of the unsigned encoders: raw is a zero pad followed by the big-endian octets of value. */
  method EncodePadded(buf: array<byte>, cursor: nat, tag: byte, raw: array<byte>, ghost value: nat)
    returns (r: Result<nat>)
    requires cursor <= buf.Length < SIZE_LIMIT && raw != buf
    requires raw.Length >= 2 && raw[0] == 0 && Unsigned(raw[..]) == value
    modifies buf
    ensures Emits(old(buf[..]), buf[..], cursor, r, Some(EncTlv(tag, IntegerContent(value))))
  {
    ghost var b0 := buf[..];
    var last := raw.Length - 1;
    var start := 1;
    SkipPad(raw[..]);
    assert raw[..][1..] == raw[1..];
    while start < last && raw[start] == 0x00 && raw[start + 1] < 0x80
      invariant 1 <= start <= last
      invariant Unsigned(raw[start..]) == value
      invariant raw[start - 1] == 0
      invariant buf[..] == b0
    {
      SkipPad(raw[start..]);
      assert raw[start..][1..] == raw[start + 1..];
      start := start + 1;
    }
    if raw[start] >= 0x80 {
      start := start - 1;
      SkipPad(raw[start..]);
      assert raw[start..][1..] == raw[start + 1..];
    }
    MinimalIsUnique(raw[start..]);
    r := PrependElement(buf, cursor, tag, raw[start..]);
  }

  lemma SkipPad(s: Bytes)
    requires s != [] && s[0] == 0
    ensures Unsigned(s[1..]) == Unsigned(s)
  {
    assert s == [0] + s[1..];
    FoldCons(0, 0, s[1..]);
  }

  method EncodeUnsigned(buf: array<byte>, cursor: nat, tag: byte, value: uint32) returns (r: Result<nat>)
    requires cursor <= buf.Length < SIZE_LIMIT
    modifies buf
    ensures Emits(old(buf[..]), buf[..], cursor, r, Some(EncTlv(tag, IntegerContent(value))))
  {
    var raw := new byte[5];
    raw[0] := 0x00;
    raw[1] := value / 0x100_0000 % 256;
    raw[2] := value / 0x1_0000 % 256;
    raw[3] := value / 0x100 % 256;
    raw[4] := value % 256;
    RawUnsigned(value, raw[..]);
    r := EncodePadded(buf, cursor, tag, raw, value);
  }

  lemma RawUnsigned(value: uint32, raw: Bytes)
    requires raw == [0, value / 0x100_0000 % 256, value / 0x1_0000 % 256, value / 0x100 % 256, value % 256]
    ensures Unsigned(raw) == value
  {
    FourOctets(value);
    FoldCons(0, 0, raw[1..]);
    assert raw == [0] + raw[1..];
    FoldFour(0, raw[1], raw[2], raw[3], raw[4]);
  }

  method EncodeUnsigned64(buf: array<byte>, cursor: nat, tag: byte, value: uint64) returns (r: Result<nat>)
    requires cursor <= buf.Length < SIZE_LIMIT
    modifies buf
    ensures Emits(old(buf[..]), buf[..], cursor, r, Some(EncTlv(tag, IntegerContent(value))))
  {
    ghost var b0 := buf[..];
    var raw := new byte[9];
    raw[0] := 0x00;
    Pow256Small();
    ShiftRightAll(value, 8);
    assert raw[..1] == [0] == [] + [0];
    FoldSnoc(0, [], 0);
    for i := 0 to 8
      invariant raw[0] == 0
      invariant Unsigned(raw[..i + 1]) == ShiftRight(value, 8 - i)
      invariant buf[..] == b0
    {
      raw[1 + i] := ShiftRight(value, 7 - i) % 256;
      assert raw[..i + 2][..i + 1] == raw[..i + 1];
      assert ShiftRight(value, 8 - i) == ShiftRight(value, 7 - i) / 256;
    }
    assert raw[..9] == raw[..];
    r := EncodePadded(buf, cursor, tag, raw, value);
  }

  method EncodeOctetString(buf: array<byte>, cursor: nat, data: Bytes) returns (r: Result<nat>)
    requires cursor <= buf.Length < SIZE_LIMIT
    modifies buf
    ensures Emits(old(buf[..]), buf[..], cursor, r, Some(EncTlv(TAG_OCTET_STRING, data)))
  {
    r := PrependElement(buf, cursor, TAG_OCTET_STRING, data);
  }

  /** A zero-length element: NULL, or a v2c exception value under its own tag. */
  method EncodeNullTagged(buf: array<byte>, cursor: nat, tag: byte) returns (r: Result<nat>)
    requires cursor <= buf.Length < SIZE_LIMIT
    modifies buf
    ensures Emits(old(buf[..]), buf[..], cursor, r, Some(EncTlv(tag, [])))
  {
    assert [tag] + LengthOctets(0) + [] == [tag] + LengthOctets(0);
    r := PrependTlvHeader(buf, cursor, tag, 0);
  }

  /** One arc: least significant group first into tmp, then prepended in that order. */
  method PrependArc(buf: array<byte>, cursor: nat, arc: uint32) returns (r: Result<nat>)
    requires cursor <= buf.Length
    modifies buf
    ensures Emits(old(buf[..]), buf[..], cursor, r, Some(ArcBytes(arc)))
    ensures r.Err? ==> r.error == Overflow
  {
    ghost var b0 := buf[..];
    var tmp := new byte[5];
    var n := 1;
    tmp[0] := arc % 128;
    var left: nat := arc / 128;
    ArcWidth(arc);
    assert tmp[..1] == [tmp[0]] && tmp[..1][..0] == [];
    assert Reversed(tmp[..1]) == [tmp[0]];
    while left > 0
      invariant n + |HighGroups(left)| == |ArcBytes(arc)| <= 5
      invariant ArcBytes(arc) == HighGroups(left) + Reversed(tmp[..n])
      invariant buf[..] == b0
      decreases left
    {
      ghost var done, group: byte := Reversed(tmp[..n]), 0x80 + left % 128;
      assert HighGroups(left) + done == HighGroups(left / 128) + ([group] + done);
      tmp[n] := 0x80 + left % 128;
      assert tmp[..n + 1][..n] == tmp[..n];
      assert Reversed(tmp[..n + 1]) == [group] + done;
      n := n + 1;
      left := left / 128;
    }
    assert ArcBytes(arc) == Reversed(tmp[..n]);
    r := PrependReversed(buf, cursor, tmp, n);
  }

  /** The arcs after the second, from the last back. */
  method PrependArcs(buf: array<byte>, cursor: nat, oid: Oid) returns (r: Result<nat>)
    requires cursor <= buf.Length && |oid| >= 2
    modifies buf
    ensures Emits(old(buf[..]), buf[..], cursor, r, Some(ArcsBytes(oid[2..])))
    ensures r.Err? ==> r.error == Overflow
  {
    r := Ok(cursor);
    ghost var b0 := buf[..];
    var i := |oid|;
    assert ArcsBytes(oid[i..]) == [];
    hide ArcsBytes, ArcBytes;
    while i > 2
      invariant 2 <= i <= |oid|
      invariant r.Ok? && r.value <= buf.Length
      invariant Emits(b0, buf[..], cursor, r, Some(ArcsBytes(oid[i..])))
    {
      i := i - 1;
      ghost var b1, r1 := buf[..], r;
      ArcsBytesFrom(oid, i);
      r := PrependArc(buf, r.value, oid[i]);
      EmitsThen(b0, b1, buf[..], cursor, r1, r, Some(ArcBytes(oid[i])), Some(ArcsBytes(oid[i + 1..])));
      if r.Err? {
        ArcsBytesSuffix(oid[2..], i - 2);
        assert oid[2..][i - 2..] == oid[i..];
        EmitsNothing(b0, buf[..], cursor, r, Some(ArcsBytes(oid[i..])), Some(ArcsBytes(oid[2..])));
        return;
      }
    }
  }

  method EncodeOid(buf: array<byte>, cursor: nat, oid: Oid) returns (r: Result<nat>)
    requires cursor <= buf.Length < SIZE_LIMIT
    modifies buf
    ensures Emits(old(buf[..]), buf[..], cursor, r, EncOid(oid))
    ensures |oid| < 2 ==> r == Err(BadLength)
    ensures r.Err? && |oid| >= 2 ==> r.error == Overflow
  {
    if |oid| < 2 {
      return Err(BadLength);
    }
    if oid[0] > 2 || (oid[0] < 2 && oid[1] >= 40) {
      return Err(Overflow);
    }
    hide ArcsBytes, SharedOctet, LengthOctets;
    ghost var b0 := buf[..];
    r := PrependArcs(buf, cursor, oid);
    if r.Err? {
      EmitsNothing(b0, buf[..], cursor, r, Some(ArcsBytes(oid[2..])), EncOid(oid));
      return;
    }
    ghost var b1, r1 := buf[..], r;
    var firstByte := SharedOctet(oid[0], oid[1]);
    r := PrependByte(buf, r.value, firstByte);
    EmitsThen(b0, b1, buf[..], cursor, r1, r, Some([firstByte]), Some(ArcsBytes(oid[2..])));
    if r.Err? {
      EmitsNothing(b0, buf[..], cursor, r, Some(OidContent(oid)), EncOid(oid));
      return;
    }
    b1, r1 := buf[..], r;
    var contentLen := cursor - r.value;
    r := PrependTlvHeader(buf, r.value, TAG_OID, contentLen);
    EmitsElement(b0, b1, buf[..], cursor, r1, r, TAG_OID, OidContent(oid));
  }

  lemma ArcsBytesFrom(oid: Oid, i: nat)
    requires i < |oid|
    ensures ArcsBytes(oid[i..]) == ArcBytes(oid[i]) + ArcsBytes(oid[i + 1..])
  {
    assert oid[i..][1..] == oid[i + 1..];
  }

  lemma {:induction false} ArcsBytesSuffix(arcs: Oid, k: nat)
    requires k <= |arcs|
    ensures |ArcsBytes(arcs[k..])| <= |ArcsBytes(arcs)|
  {
    if k > 0 {
      assert arcs[1..][k - 1..] == arcs[k..];
      ArcsBytesSuffix(arcs[1..], k - 1);
    }
  }
}
