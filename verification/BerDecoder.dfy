/** The left-to-right decoders. A const pointer and a length are a sequence; advancing the pointer takes a suffix. */
module BerDecoder {
  import opened Types
  import opened Ber

  /** ((uint32_t)value << 8) | b: the top octet of the register is lost. */
  function ShiftIn(value: int, b: byte): uint32 {
    value % 0x100_0000 * 256 + b
  }

  method DecodeLength(s: Bytes) returns (r: Result<Header>)
    ensures r == ParseLength(s)
  {
    if |s| < 1 {
      return Err(Truncated);
    }
    var first := s[0];
    if first < 0x80 {
      return Ok(Header(first, 1));
    }
    var nbytes := first - 0x80;
    if nbytes == 0 {
      return Err(BadLength);
    }
    if nbytes > 4 {
      return Err(Overflow);
    }
    if |s| < 1 + nbytes {
      return Err(Truncated);
    }
    var value: uint32 := 0;
    Pow256Small();
    for i := 0 to nbytes
      invariant value == Unsigned(s[1..1 + i])
    {
      FoldSnoc(0, s[1..1 + i], s[1 + i]);
      assert s[1..1 + i] + [s[1 + i]] == s[1..2 + i];
      FoldBounds(0, s[1..1 + i]);
      value := ShiftIn(value, s[1 + i]);
    }
    return Ok(Header(value, 1 + nbytes));
  }

  method DecodeTlv(s: Bytes, depth: nat) returns (r: Result<Tlv>)
    ensures r == ParseTlv(s, depth)
  {
    if depth > MAX_NEST_DEPTH {
      return Err(Depth);
    }
    if |s| < 2 {
      return Err(Truncated);
    }
    var h :- DecodeLength(s[1..]);
    var totalHeader := 1 + h.size;
    if |s| - totalHeader < h.contentLen {
      return Err(Truncated);
    }
    var content := s[totalHeader..];
    return Ok(Tlv(s[0], content[..h.contentLen], content[h.contentLen..]));
  }

  method ExpectTag(s: Bytes, depth: nat, tag: byte) returns (r: Result<Tlv>)
    ensures r == ParseExpected(s, depth, tag)
  {
    var t :- DecodeTlv(s, depth);
    if t.tag != tag {
      return Err(BadTag);
    }
    return Ok(t);
  }

  /** (int32_t)u. */
  function AsInt32(u: int): int32
    requires 0 <= u < 0x1_0000_0000
  {
    if u < 0x8000_0000 then u else u - 0x1_0000_0000
  }

  method DecodeInteger(t: Tlv) returns (r: Result<int32>)
    ensures r == ParseInteger(t)
  {
    if t.tag != TAG_INTEGER {
      return Err(BadTag);
    }
    if |t.value| == 0 || |t.value| > 4 {
      return Err(Overflow);
    }
    var value: int32 := Sign(t.value);
    for i := 0 to |t.value|
      invariant value == Fold(Sign(t.value), t.value[..i])
    {
      SignedStep(t.value, i);
      value := AsInt32(ShiftIn(value, t.value[i]));
    }
    assert t.value[..|t.value|] == t.value;
    return Ok(value);
  }

  /** What the sign bit extends to. */
  function Sign(c: Bytes): int32
    requires c != []
  {
    if c[0] >= 0x80 then -1 else 0
  }

  /** The cast back to int32 loses nothing while there are at most four octets. */
  lemma SignedStep(c: Bytes, i: nat)
    requires i < |c| <= 4
    ensures Fold(Sign(c), c[..i + 1]) == AsInt32(ShiftIn(Fold(Sign(c), c[..i]), c[i]))
  {
    FoldSnoc(Sign(c), c[..i], c[i]);
    assert c[..i] + [c[i]] == c[..i + 1];
    SignedFits(c[..i + 1]);
    ShiftInFits(Fold(Sign(c), c[..i]), c[i]);
  }

  lemma ShiftInFits(value: int, b: byte)
    requires -0x8000_0000 <= value * 256 + b < 0x8000_0000
    ensures AsInt32(ShiftIn(value, b)) == value * 256 + b
  {
  }

  method DecodeUnsigned(t: Tlv) returns (r: Result<uint32>)
    ensures r == ParseUnsigned(t)
  {
    if !(t.tag == TAG_COUNTER32 || t.tag == TAG_GAUGE32 || t.tag == TAG_TIMETICKS) {
      return Err(BadTag);
    }
    if |t.value| == 0 || |t.value| > 5 {
      return Err(Overflow);
    }
    var value: uint32 := 0;
    for i := 0 to |t.value|
      invariant value == Unsigned(t.value[..i]) % 0x1_0000_0000
    {
      FoldSnoc(0, t.value[..i], t.value[i]);
      assert t.value[..i] + [t.value[i]] == t.value[..i + 1];
      ShiftWraps(Unsigned(t.value[..i]), t.value[i], 0x100_0000);
      value := ShiftIn(value, t.value[i]);
    }
    assert t.value[..|t.value|] == t.value;
    return Ok(value);
  }

  /** Shifting a byte into a register of 256 * m values is shifting it into the unbounded value, modulo 256 * m. */
  lemma ShiftWraps(v: nat, b: byte, m: nat)
    requires m > 0
    ensures v % (256 * m) % m * 256 + b == (v * 256 + b) % (256 * m)
  {
    var q, w := v / (256 * m), v % (256 * m);
    var k, y := w / m, w % m;
    assert v == q * (256 * m) + w && w == k * m + y;
    assert v * 256 + b == (q * 256 + k) * (256 * m) + (256 * y + b);
    ModIs(v * 256 + b, 256 * m, q * 256 + k, 256 * y + b);
  }

  lemma ModIs(x: int, m: int, q: int, r: int)
    requires 0 <= r < m && x == q * m + r
    ensures x % m == r
  {
    var d := x / m - q;
    assert d * m == r - x % m;
    assert d >= 1 ==> d * m >= m;
    assert d <= -1 ==> d * m <= -m;
  }

  method DecodeUnsigned64(t: Tlv) returns (r: Result<uint64>)
    ensures r == ParseUnsigned64(t)
  {
    if t.tag != TAG_COUNTER64 {
      return Err(BadTag);
    }
    if |t.value| == 0 || |t.value| > 9 {
      return Err(Overflow);
    }
    var value: uint64 := 0;
    for i := 0 to |t.value|
      invariant value == Unsigned(t.value[..i]) % 0x1_0000_0000_0000_0000
    {
      FoldSnoc(0, t.value[..i], t.value[i]);
      assert t.value[..i] + [t.value[i]] == t.value[..i + 1];
      ShiftWraps(Unsigned(t.value[..i]), t.value[i], 0x100_0000_0000_0000);
      value := value % 0x100_0000_0000_0000 * 256 + t.value[i];
    }
    assert t.value[..|t.value|] == t.value;
    return Ok(value);
  }

  /** Arcs are written to out[2..], the first two come from the shared octet; n counts what has been written. */
  /** The inner loop of DecodeOid: one arc. */
  method DecodeArc(s: Bytes) returns (r: Result<Arc>)
    requires s != []
    ensures r == ParseArc(s, 0)
  {
    var arc: uint32, gotFinalByte, p := 0, false, s;
    while p != [] && !gotFinalByte
      invariant |p| <= |s|
      invariant gotFinalByte ==> ParseArc(s, 0) == Ok(Arc(arc, p))
      invariant !gotFinalByte ==> ParseArc(s, 0) == ParseArc(p, arc)
      decreases |p|, !gotFinalByte
    {
      var b := p[0];
      if arc > UINT32_MAX / 128 {
        return Err(Overflow);
      }
      arc := arc * 128 + b % 128;
      p := p[1..];
      gotFinalByte := b < 0x80;
    }
    return if gotFinalByte then Ok(Arc(arc, p)) else Err(Truncated);
  }

  method DecodeOid(t: Tlv, out: array<uint32>) returns (r: Result<nat>)
    modifies out
    ensures r.Ok? <==> ParseOid(t, out.Length).Ok?
    ensures r.Ok? ==> r.value <= out.Length && out[..r.value] == ParseOid(t, out.Length).value
    ensures r.Err? ==> r.error == ParseOid(t, out.Length).error
  {
    if t.tag != TAG_OID {
      return Err(BadTag);
    }
    if |t.value| == 0 {
      return Err(BadLength);
    }
    if out.Length < 2 {
      return Err(Overflow);
    }
    var first := t.value[0];
    out[0], out[1] := first / 40, first % 40;
    var n := 2;
    var p := t.value[1..];
    ghost var shared: Oid, all := [first / 40, first % 40], ParseArcs(p, out.Length - 2);
    assert out[..2] == shared + [];
    ghost var arcs: Oid := [];
    assert all.Ok? ==> [] + all.value == all.value;
    while p != []
      invariant n <= out.Length && out[..n] == shared + arcs && n == 2 + |arcs|
      invariant all == Prepend(arcs, ParseArcs(p, out.Length - n))
      decreases |p|
    {
      var arc :- DecodeArc(p);
      p := arc.rest;
      if n >= out.Length {
        return Err(Overflow);
      }
      out[n] := arc.value;
      assert out[..n + 1] == out[..n] + [arc.value] == shared + (arcs + [arc.value]);
      PrependOne(arcs, arc.value, ParseArcs(p, out.Length - n - 1));
      arcs := arcs + [arc.value];
      n := n + 1;
    }
    assert arcs + [] == arcs;
    return Ok(n);
  }
}
