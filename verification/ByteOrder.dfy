// Little-endian serialisation helpers (include/ipcrelay/common/byteorder.hpp).
//
// LittleEndian and FromLittleEndian are the specification; the Put and Get methods below are the
// helpers of the header, which touch a buffer one byte at a time.
module ByteOrder {

  type byte = b: int | 0 <= b < 0x100
  type bytes = seq<byte>
  type u16 = n: int | 0 <= n < 0x1_0000
  type u32 = n: int | 0 <= n < 0x1_0000_0000
  type u64 = n: int | 0 <= n < 0x1_0000_0000_0000_0000

  const TWO_TO_THE_64 := 0x1_0000_0000_0000_0000

  // 256 to the power n: the number of values that n bytes can hold.
  function Span(n: nat): (p: nat)
    ensures p >= 1
  {
    if n == 0 then 1 else 256 * Span(n - 1)
  }

  lemma SpanOfWidths()
    ensures Span(1) == 0x100
    ensures Span(2) == 0x1_0000
    ensures Span(4) == 0x1_0000_0000
    ensures Span(8) == TWO_TO_THE_64
  {
    assert Span(2) == 256 * Span(1);
    assert Span(3) == 256 * Span(2);
    assert Span(4) == 256 * Span(3);
    assert Span(5) == 256 * Span(4);
    assert Span(6) == 256 * Span(5);
    assert Span(7) == 256 * Span(6);
    assert Span(8) == 256 * Span(7);
  }

  // The n least significant bytes of v, least significant first.
  function LittleEndian(v: nat, n: nat): (s: bytes)
    ensures |s| == n
  {
    if n == 0 then [] else [v % 256] + LittleEndian(v / 256, n - 1)
  }

  function FromLittleEndian(s: bytes): nat {
    if s == [] then 0 else s[0] + 256 * FromLittleEndian(s[1..])
  }

  // ---------- The two are inverse ----------

  lemma {:induction false} DecodeOfEncode(v: nat, n: nat)
    requires v < Span(n)
    ensures FromLittleEndian(LittleEndian(v, n)) == v
  {
    if n == 0 {
    } else {
      DecodeOfEncode(v / 256, n - 1);
      assert LittleEndian(v, n)[1..] == LittleEndian(v / 256, n - 1);
    }
  }

  lemma {:induction false} EncodeOfDecode(s: bytes)
    ensures FromLittleEndian(s) < Span(|s|)
    ensures LittleEndian(FromLittleEndian(s), |s|) == s
  {
    if s == [] {
    } else {
      EncodeOfDecode(s[1..]);
      OneMoreByte(s[0], FromLittleEndian(s[1..]), Span(|s| - 1));
      assert s == [s[0]] + s[1..];
    }
  }

  // A value with one more byte in front.
  lemma OneMoreByte(b: byte, v: nat, span: nat)
    requires v < span
    ensures (b + 256 * v) / 256 == v && (b + 256 * v) % 256 == b && b + 256 * v < 256 * span
  {
  }

  // The bounds and the round trip at the three widths that the formats use.
  lemma DecodedWidths(s: bytes)
    ensures |s| == 2 ==> FromLittleEndian(s) < 0x1_0000
    ensures |s| == 4 ==> FromLittleEndian(s) < 0x1_0000_0000
    ensures |s| == 8 ==> FromLittleEndian(s) < TWO_TO_THE_64
  {
    EncodeOfDecode(s);
    SpanOfWidths();
  }

  function U16Of(s: bytes): u16
    requires |s| == 2
  {
    DecodedWidths(s);
    FromLittleEndian(s)
  }

  function U32Of(s: bytes): u32
    requires |s| == 4
  {
    DecodedWidths(s);
    FromLittleEndian(s)
  }

  function U64Of(s: bytes): u64
    requires |s| == 8
  {
    DecodedWidths(s);
    FromLittleEndian(s)
  }

  lemma WidthsRoundTrip(a: u16, b: u32, c: u64)
    ensures U16Of(LittleEndian(a, 2)) == a
    ensures U32Of(LittleEndian(b, 4)) == b
    ensures U64Of(LittleEndian(c, 8)) == c
  {
    SpanOfWidths();
    DecodeOfEncode(a, 2);
    DecodeOfEncode(b, 4);
    DecodeOfEncode(c, 8);
  }

  // ---------- The helpers, on a buffer ----------

  // Byte i of the encoding is what shifting right by 8 * i and masking gives.
  lemma {:induction false} EncodedByte(v: nat, n: nat, i: nat)
    requires i < n
    ensures LittleEndian(v, n)[i] == v / Span(i) % 256
  {
    if i == 0 {
    } else {
      EncodedByte(v / 256, n - 1, i - 1);
      DivideTwice(v, Span(i - 1));
    }
  }

  lemma DivideTwice(v: nat, p: nat)
    requires p >= 1
    ensures v / 256 / p == v / (256 * p)
  {
    var q := v / 256 / p;
    var r := v / 256 % p;
    assert v == 256 * (q * p + r) + v % 256;
    assert v == (256 * p) * q + (256 * r + v % 256) by {
      assert 256 * (q * p) == (256 * p) * q;
    }
    QuotientUnique(v, 256 * p, q, 256 * r + v % 256);
  }

  lemma QuotientUnique(v: nat, d: nat, q: nat, r: nat)
    requires d >= 1 && v == d * q + r && r < d
    ensures v / d == q
  {
    var k := v / d;
    assert v == d * k + v % d;
    if k < q {
      TimesMonotone(d, k + 1, q);
    } else if k > q {
      TimesMonotone(d, q + 1, k);
    }
  }

  lemma TimesMonotone(d: nat, a: nat, b: nat)
    requires a <= b
    ensures d * a <= d * b
  {
    assert d * b == d * a + d * (b - a);
  }

  method PutU16le(p: array<byte>, at: nat, v: u16)
    requires at + 2 <= p.Length
    modifies p
    ensures p[..at + 2] == old(p[..at]) + LittleEndian(v, 2)
    ensures forall k :: at + 2 <= k < p.Length ==> p[k] == old(p[k])
  {
    p[at] := v % 256;
    p[at + 1] := v / 256 % 256;
    assert LittleEndian(v, 2) == [v % 256] + LittleEndian(v / 256, 1);
  }

  method PutU32le(p: array<byte>, at: nat, v: u32)
    requires at + 4 <= p.Length
    modifies p
    ensures p[..at + 4] == old(p[..at]) + LittleEndian(v, 4)
    ensures forall k :: at + 4 <= k < p.Length ==> p[k] == old(p[k])
  {
    p[at] := v % 256;
    p[at + 1] := v / 0x100 % 256;
    p[at + 2] := v / 0x1_0000 % 256;
    p[at + 3] := v / 0x100_0000 % 256;
    forall i | 0 <= i < 4
      ensures p[at + i] == LittleEndian(v, 4)[i]
    {
      EncodedByte(v, 4, i);
      assert Span(3) == 256 * Span(2) && Span(2) == 256 * Span(1);
    }
  }

  method PutU64le(p: array<byte>, at: nat, v: u64)
    requires at + 8 <= p.Length
    modifies p
    ensures p[..at + 8] == old(p[..at]) + LittleEndian(v, 8)
    ensures forall k :: at + 8 <= k < p.Length ==> p[k] == old(p[k])
  {
    for i := 0 to 8
      invariant p[..at] == old(p[..at])
      invariant forall k :: at + 8 <= k < p.Length ==> p[k] == old(p[k])
      invariant forall k :: 0 <= k < i ==> p[at + k] == LittleEndian(v, 8)[k]
    {
      p[at + i] := v / Span(i) % 256;
      EncodedByte(v, 8, i);
    }
    assert p[..at + 8] == p[..at] + p[at..at + 8];
    assert p[at..at + 8] == LittleEndian(v, 8);
  }

  method GetU16le(d: bytes, at: nat) returns (v: u16)
    requires at + 2 <= |d|
    ensures v == U16Of(d[at..at + 2])
  {
    var b0: int, b1: int := d[at], d[at + 1];
    v := b0 + 0x100 * b1;
    assert d[at..at + 2][1..] == [d[at + 1]];
    assert FromLittleEndian([d[at + 1]]) == d[at + 1];
  }

  method GetU32le(d: bytes, at: nat) returns (v: u32)
    requires at + 4 <= |d|
    ensures v == U32Of(d[at..at + 4])
  {
    var b0: int, b1: int, b2: int, b3: int := d[at], d[at + 1], d[at + 2], d[at + 3];
    v := b0 + 0x100 * b1 + 0x1_0000 * b2 + 0x100_0000 * b3;
    var s := d[at..at + 4];
    assert s[1..][1..] == s[2..] && s[2..][1..] == s[3..] && s[3..][1..] == [];
    assert FromLittleEndian(s[3..]) == b3;
    assert FromLittleEndian(s[2..]) == b2 + 0x100 * FromLittleEndian(s[3..]);
    assert FromLittleEndian(s[1..]) == b1 + 0x100 * FromLittleEndian(s[2..]);
  }

  // The accumulator loop of get_u64le; the shift of a 64-bit value is taken modulo 2^64.
  method GetU64le(d: bytes, at: nat) returns (v: u64)
    requires at + 8 <= |d|
    ensures v == U64Of(d[at..at + 8])
  {
    v := 0;
    var s := d[at..at + 8];
    var i := 8;
    while i > 0
      invariant 0 <= i <= 8
      invariant v == FromLittleEndian(s[i..]) < Span(8 - i)
    {
      i := i - 1;
      assert s[i..][1..] == s[i + 1..];
      EncodeOfDecode(s[i..]);
      NoShiftOverflow(v, 7 - i);
      v := v * 256 % TWO_TO_THE_64 + d[at + i];
    }
    assert s[0..] == s;
  }

  // Eight bytes fit: shifting the accumulator never loses a bit.
  lemma NoShiftOverflow(v: nat, n: nat)
    requires n <= 7 && v < Span(n)
    ensures v * 256 + 255 < TWO_TO_THE_64
  {
    SpanGrows(n, 7);
    SpanOfWidths();
    assert Span(8) == 256 * Span(7);
  }

  lemma {:induction false} SpanGrows(a: nat, b: nat)
    requires a <= b
    ensures Span(a) <= Span(b)
  {
    if a < b {
      SpanGrows(a, b - 1);
    }
  }
}
