// WebSocket frames (tools/ctl/backend/websocket.cpp, RFC 6455). An octet is a char below 256, as in a
// C++ std::string.
module WebSocket {
  import opened ByteOrder

  type octet = c: char | c as int < 0x100 witness 'a'
  type octets = seq<octet>

  const CONTINUATION := 0
  const TEXT := 1
  const BINARY := 2
  const CLOSE := 8
  const PING := 9
  const PONG := 10

  datatype Frame = Frame(fin: bool, opcode: nat, payload: octets)

  datatype WsError = ReservedBits | UnknownOpcode | NotMasked | BadControlFrame | PayloadTooBig

  datatype FrameResult = NeedMore | Got(frame: Frame, consumed: nat) | Broken(error: WsError)

  predicate KnownOpcode(opcode: nat) {
    opcode in {CONTINUATION, TEXT, BINARY, CLOSE, PING, PONG}
  }

  predicate IsControl(opcode: nat) {
    opcode >= 8
  }

  // ---------- Masking ----------

  // The exclusive or of the n low bits of a and b.
  function XorBits(n: nat, a: nat, b: nat): (r: nat) {
    if n == 0 then 0 else (if a % 2 == b % 2 then 0 else 1) + 2 * XorBits(n - 1, a / 2, b / 2)
  }

  lemma {:induction false} XorFits(n: nat, a: nat, b: nat)
    requires n <= 8
    ensures XorBits(n, a, b) < Power(n)
  {
    if n > 0 {
      XorFits(n - 1, a / 2, b / 2);
    }
  }

  function Power(n: nat): (r: nat)
    ensures r > 0
  {
    if n == 0 then 1 else 2 * Power(n - 1)
  }

  lemma LowestBit(bit: nat, higher: nat)
    requires bit < 2
    ensures (bit + 2 * higher) % 2 == bit && (bit + 2 * higher) / 2 == higher
  {
  }

  lemma {:induction false} XorTwice(n: nat, a: nat, b: nat)
    requires a < Power(n)
    ensures XorBits(n, XorBits(n, a, b), b) == a
  {
    if n > 0 {
      XorTwice(n - 1, a / 2, b / 2);
      var bit, higher := if a % 2 == b % 2 then 0 else 1, XorBits(n - 1, a / 2, b / 2);
      assert XorBits(n, a, b) == bit + 2 * higher;
      LowestBit(bit, higher);
    }
  }

  lemma Halved(x: nat, p: nat)
    requires p > 0
    ensures x / (2 * p) == x / 2 / p
  {
    var q, r := x / 2 / p, x / 2 % p;
    assert x == (2 * p) * q + (2 * r + x % 2) by {
      assert 2 * (q * p) == (2 * p) * q;
    }
    QuotientUnique(x, 2 * p, q, 2 * r + x % 2);
  }

  // Each bit of an exclusive or is set if and only if that bit of a and that bit of b differ.
  lemma {:induction false} XorBit(n: nat, a: nat, b: nat, k: nat)
    requires k < n
    ensures XorBits(n, a, b) / Power(k) % 2 == 1 <==> a / Power(k) % 2 != b / Power(k) % 2
  {
    var bit, higher := if a % 2 == b % 2 then 0 else 1, XorBits(n - 1, a / 2, b / 2);
    LowestBit(bit, higher);
    if k > 0 {
      var p := Power(k - 1);
      Halved(a, p);
      Halved(b, p);
      Halved(XorBits(n, a, b), p);
      XorBit(n - 1, a / 2, b / 2, k - 1);
    }
  }

  function Xor(a: octet, b: octet): octet {
    XorFits(8, a as int, b as int);
    assert Power(8) == 256;
    XorBits(8, a as int, b as int) as char
  }

  // Masking with a four-byte key, which is also unmasking.
  function Mask(data: octets, key: octets): (r: octets)
    requires |key| == 4
    ensures |r| == |data|
  {
    seq(|data|, i requires 0 <= i < |data| => Xor(data[i], key[i % 4]))
  }

  // Bit k of byte i is flipped if and only if bit k of byte i modulo 4 of the key is set.
  lemma MaskedBit(data: octets, key: octets, i: nat, k: nat)
    requires |key| == 4 && i < |data| && k < 8
    ensures Mask(data, key)[i] as int / Power(k) % 2 == 1 <==>
            data[i] as int / Power(k) % 2 != key[i % 4] as int / Power(k) % 2
  {
    hide XorBits, Power;
    XorBit(8, data[i] as int, key[i % 4] as int, k);
    XorIs(data[i], key[i % 4]);
  }

  lemma XorIs(a: octet, b: octet)
    ensures Xor(a, b) as int == XorBits(8, a as int, b as int)
  {
    XorFits(8, a as int, b as int);
    assert Power(8) == 256;
  }

  lemma MaskTwice(data: octets, key: octets)
    requires |key| == 4
    ensures Mask(Mask(data, key), key) == data
  {
    forall i | 0 <= i < |data|
      ensures Xor(Xor(data[i], key[i % 4]), key[i % 4]) == data[i]
    {
      XorUndoesXor(data[i], key[i % 4]);
    }
  }

  lemma XorUndoesXor(a: octet, b: octet)
    ensures Xor(Xor(a, b), b) == a
  {
    hide XorBits;
    assert Power(8) == 256;
    XorFits(8, a as int, b as int);
    XorTwice(8, a as int, b as int);
    assert Xor(a, b) as int == XorBits(8, a as int, b as int);
  }

  // ---------- Lengths ----------

  function BigEndian(s: octets): nat {
    if s == [] then 0 else BigEndian(s[..|s| - 1]) * 0x100 + s[|s| - 1] as int
  }

  // The n bytes of v, most significant first.
  function ToBigEndian(v: nat, n: nat): (s: octets)
    ensures |s| == n
  {
    if n == 0 then [] else ToBigEndian(v / 0x100, n - 1) + [(v % 0x100) as char]
  }

  lemma {:induction false} BigEndianRoundTrip(v: nat, n: nat)
    requires v < Span(n)
    ensures BigEndian(ToBigEndian(v, n)) == v
  {
    if n > 0 {
      BigEndianRoundTrip(v / 0x100, n - 1);
      var s := ToBigEndian(v, n);
      assert s[..|s| - 1] == ToBigEndian(v / 0x100, n - 1);
    }
  }

  // How many bytes follow the second byte to give the length.
  function ExtensionOf(len7: nat): nat {
    if len7 == 126 then 2 else if len7 == 127 then 8 else 0
  }

  // ---------- Parsing a client frame ----------

  function ParseFrame(buf: octets, maxPayload: nat): (r: FrameResult)
    ensures r.Got? ==> 0 < r.consumed <= |buf|
  {
    if |buf| < 2 then NeedMore
    else
      var b0, b1 := buf[0] as int, buf[1] as int;
      if b0 / 0x10 % 8 != 0 then Broken(ReservedBits)
      else if !KnownOpcode(b0 % 0x10) then Broken(UnknownOpcode)
      else if b1 < 0x80 then Broken(NotMasked)
      else
        var ext := ExtensionOf(b1 % 0x80);
        if |buf| < 2 + ext then NeedMore
        else
          var n := if ext == 0 then b1 % 0x80 else BigEndian(buf[2..2 + ext]);
          if IsControl(b0 % 0x10) && (b0 < 0x80 || n > 125) then Broken(BadControlFrame)
          else if n > maxPayload then Broken(PayloadTooBig)
          else if |buf| < 2 + ext + 4 then NeedMore
          else
            var pos := 2 + ext + 4;
            if |buf| - pos < n then NeedMore
            else Got(Frame(b0 >= 0x80, b0 % 0x10, Mask(buf[pos..pos + n], buf[pos - 4..pos])), pos + n)
  }

  // The parser with its length-decoding and unmasking loops.
  method WsParseFrame(buf: octets, maxPayload: nat) returns (r: FrameResult)
    ensures r == ParseFrame(buf, maxPayload)
  {
    if |buf| < 2 { return NeedMore; }
    var b0, b1 := buf[0] as int, buf[1] as int;
    if b0 / 0x10 % 8 != 0 { return Broken(ReservedBits); }
    var fin := b0 >= 0x80;
    var opcode := b0 % 0x10;
    if !KnownOpcode(opcode) { return Broken(UnknownOpcode); }
    if b1 < 0x80 { return Broken(NotMasked); }
    var payloadLen := b1 % 0x80;
    var pos := 2;
    if payloadLen == 126 {
      if |buf| < 4 { return NeedMore; }
      payloadLen := DecodeLength(buf, 2);
      pos := 4;
    } else if payloadLen == 127 {
      if |buf| < 10 { return NeedMore; }
      payloadLen := DecodeLength(buf, 8);
      pos := 10;
    }
    if IsControl(opcode) && (!fin || payloadLen > 125) { return Broken(BadControlFrame); }
    if payloadLen > maxPayload { return Broken(PayloadTooBig); }
    if |buf| < pos + 4 { return NeedMore; }
    var maskPos := pos;
    pos := pos + 4;
    if |buf| - pos < payloadLen { return NeedMore; }
    var payload := Unmask(buf, maskPos, pos, payloadLen);
    return Got(Frame(fin, opcode, payload), pos + payloadLen);
  }

  method DecodeLength(buf: octets, n: nat) returns (len: nat)
    requires |buf| >= 2 + n
    ensures len == BigEndian(buf[2..2 + n])
  {
    len := 0;
    for i := 0 to n
      invariant len == BigEndian(buf[2..2 + i])
    {
      assert buf[2..2 + i + 1][..i] == buf[2..2 + i];
      len := len * 0x100 + buf[2 + i] as int;
    }
  }

  method Unmask(buf: octets, maskPos: nat, pos: nat, n: nat) returns (payload: octets)
    requires maskPos + 4 <= pos && pos + n <= |buf|
    ensures payload == Mask(buf[pos..pos + n], buf[maskPos..maskPos + 4])
  {
    payload := [];
    for i := 0 to n
      invariant |payload| == i
      invariant forall k :: 0 <= k < i ==> payload[k] == Xor(buf[pos + k], buf[maskPos + k % 4])
    {
      payload := payload + [Xor(buf[pos + i], buf[maskPos + i % 4])];
    }
  }

  // A verdict other than "need more" never changes when bytes are appended.
  lemma FrameVerdictIsStable(buf: octets, more: octets, maxPayload: nat)
    requires ParseFrame(buf, maxPayload) != NeedMore
    ensures ParseFrame(buf + more, maxPayload) == ParseFrame(buf, maxPayload)
  {
    hide Mask, BigEndian;
    var longer := buf + more;
    assert longer[0] == buf[0] && longer[1] == buf[1];
    var ext := ExtensionOf(buf[1] as int % 0x80);
    if |buf| >= 2 + ext {
      assert longer[2..2 + ext] == buf[2..2 + ext];
    }
    match ParseFrame(buf, maxPayload)
    case Got(f, n) =>
      var pos := 2 + ext + 4;
      assert longer[pos..n] == buf[pos..n];
      assert longer[pos - 4..pos] == buf[pos - 4..pos];
    case _ =>
  }

  // ---------- What a client sends (RFC 6455, section 5.2) ----------

  // A frame with the masking key and the width of the length field that the client chose for it.
  datatype Encoding = Encoding(frame: Frame, key: octets, width: nat)

  predicate ValidEncoding(e: Encoding, maxPayload: nat) {
    && KnownOpcode(e.frame.opcode) && |e.key| == 4 && |e.frame.payload| <= maxPayload
    && (IsControl(e.frame.opcode) ==> e.frame.fin && |e.frame.payload| <= 125)
    && (e.width == 0 || e.width == 2 || e.width == 8)
    && (if e.width == 0 then |e.frame.payload| < 126 else |e.frame.payload| < Span(e.width))
  }

  function LengthBytes(e: Encoding): octets
    requires e.width == 0 ==> |e.frame.payload| < 126
  {
    if e.width == 0 then [(0x80 + |e.frame.payload|) as char]
    else [(if e.width == 2 then 0xFE else 0xFF) as char] + ToBigEndian(|e.frame.payload|, e.width)
  }

  function ClientBytes(e: Encoding, maxPayload: nat): octets
    requires ValidEncoding(e, maxPayload)
  {
    [((if e.frame.fin then 0x80 else 0) + e.frame.opcode) as char] + LengthBytes(e) + e.key
      + Mask(e.frame.payload, e.key)
  }

  // The server reads back the frame that any client encoding denotes, and nothing behind it.
  lemma ClientFrameParses(e: Encoding, maxPayload: nat, rest: octets)
    requires ValidEncoding(e, maxPayload)
    ensures ParseFrame(ClientBytes(e, maxPayload) + rest, maxPayload) == Got(e.frame, |ClientBytes(e, maxPayload)|)
  {
    hide Mask, BigEndian, ToBigEndian, Span, LengthBytes;
    var masked := Mask(e.frame.payload, e.key);
    var buf := ClientBytes(e, maxPayload) + rest;
    var ext := e.width;
    var head := [((if e.frame.fin then 0x80 else 0) + e.frame.opcode) as char] + LengthBytes(e);
    Pieces(head, e.key, masked, rest);
    assert buf == head + e.key + masked + rest;
    LengthReads(e, maxPayload);
    assert buf[0] == head[0] && buf[1] == head[1] == LengthBytes(e)[0];
    assert buf[2..2 + ext] == LengthBytes(e)[1..];
    MaskTwice(e.frame.payload, e.key);
  }

  lemma LengthReads(e: Encoding, maxPayload: nat)
    requires ValidEncoding(e, maxPayload)
    ensures var s, n := LengthBytes(e), |e.frame.payload|;
      && |s| == 1 + e.width && s[0] as int >= 0x80 && ExtensionOf(s[0] as int % 0x80) == e.width
      && (if e.width == 0 then s[0] as int % 0x80 == n else BigEndian(s[1..]) == n)
  {
    hide BigEndian, ToBigEndian, Span;
    if e.width > 0 {
      assert LengthBytes(e)[1..] == ToBigEndian(|e.frame.payload|, e.width);
      BigEndianRoundTrip(|e.frame.payload|, e.width);
    }
  }

  lemma Pieces(head: octets, key: octets, body: octets, rest: octets)
    ensures var buf, pos := head + key + body + rest, |head| + |key|;
      buf[..|head|] == head && buf[|head|..pos] == key && buf[pos..pos + |body|] == body
  {
  }

  lemma {:induction false} ToBigEndianOf(s: octets)
    ensures BigEndian(s) < Span(|s|) && ToBigEndian(BigEndian(s), |s|) == s
  {
    if s != [] {
      var n := |s| - 1;
      ToBigEndianOf(s[..n]);
      LastByte(BigEndian(s[..n]), s[n] as int, Span(n));
      assert s[..n] + [s[n]] == s;
    }
  }

  lemma LastByte(v: nat, b: nat, bound: nat)
    requires b < 0x100 && v < bound
    ensures (v * 0x100 + b) / 0x100 == v && (v * 0x100 + b) % 0x100 == b && v * 0x100 + b < bound * 0x100
  {
  }

  // Conversely, whatever the server reads as a frame is a valid client encoding of it.
  lemma GotIsEncoded(buf: octets, maxPayload: nat) returns (e: Encoding)
    requires ParseFrame(buf, maxPayload).Got?
    ensures ValidEncoding(e, maxPayload) && ParseFrame(buf, maxPayload) == Got(e.frame, |ClientBytes(e, maxPayload)|)
    ensures ClientBytes(e, maxPayload) == buf[..|ClientBytes(e, maxPayload)|]
  {
    hide Mask, BigEndian, ToBigEndian, Span;
    var r := ParseFrame(buf, maxPayload);
    var b0, b1 := buf[0] as int, buf[1] as int;
    var ext := ExtensionOf(b1 % 0x80);
    var pos, n := 2 + ext + 4, |r.frame.payload|;
    var key := buf[pos - 4..pos];
    e := Encoding(r.frame, key, ext);
    MaskTwice(buf[pos..pos + n], key);
    ToBigEndianOf(buf[2..2 + ext]);
    assert (if b0 >= 0x80 then 0x80 else 0) + b0 % 0x10 == b0;
    assert LengthBytes(e) == buf[1..2 + ext] by {
      if ext > 0 { assert buf[1..2 + ext] == [buf[1]] + buf[2..2 + ext]; }
    }
    assert buf[..pos + n] == [buf[0]] + buf[1..2 + ext] + key + buf[pos..pos + n];
  }

  // buf begins with e, which is n bytes long and denotes f.
  predicate BeginsWith(buf: octets, maxPayload: nat, e: Encoding, f: Frame, n: nat) {
    && ValidEncoding(e, maxPayload) && e.frame == f
    && |ClientBytes(e, maxPayload)| == n && ClientBytes(e, maxPayload) <= buf
  }

  // So the frames the server reads are exactly the valid client encodings.
  lemma GotIffEncoded(buf: octets, maxPayload: nat, f: Frame, n: nat)
    ensures ParseFrame(buf, maxPayload) == Got(f, n) <==> exists e :: BeginsWith(buf, maxPayload, e, f, n)
  {
    hide ParseFrame, ClientBytes, ValidEncoding;
    if ParseFrame(buf, maxPayload) == Got(f, n) {
      var e := GotIsEncoded(buf, maxPayload);
      assert BeginsWith(buf, maxPayload, e, f, n);
    }
    if e :| BeginsWith(buf, maxPayload, e, f, n) {
      ClientFrameParses(e, maxPayload, buf[n..]);
      assert buf == ClientBytes(e, maxPayload) + buf[n..];
    }
  }

  // Every proper prefix of a valid frame asks for more bytes.
  lemma PrefixNeedsMore(e: Encoding, maxPayload: nat, k: nat)
    requires ValidEncoding(e, maxPayload) && k < |ClientBytes(e, maxPayload)|
    ensures ParseFrame(ClientBytes(e, maxPayload)[..k], maxPayload) == NeedMore
  {
    hide ParseFrame, ClientBytes;
    var all := ClientBytes(e, maxPayload);
    ClientFrameParses(e, maxPayload, []);
    assert all + [] == all && all[..k] + all[k..] == all;
    if ParseFrame(all[..k], maxPayload) != NeedMore {
      FrameVerdictIsStable(all[..k], all[k..], maxPayload);
    }
  }

  // ---------- What the server sends ----------

  // ws_encode_frame: FIN set, no mask, the shortest length field.
  function ServerBytes(opcode: nat, payload: octets): octets
    requires |payload| < Span(8)
  {
    var n := |payload|;
    [(0x80 + opcode % 0x10) as char] +
    (if n < 126 then [n as char]
     else if n <= 0xFFFF then [126 as char] + ToBigEndian(n, 2)
     else [127 as char] + ToBigEndian(n, 8)) +
    payload
  }

  method WsEncodeFrame(opcode: nat, payload: octets) returns (out: octets)
    requires |payload| < Span(8)
    ensures out == ServerBytes(opcode, payload)
  {
    hide ToBigEndian;
    var n := |payload|;
    out := [(0x80 + opcode % 0x10) as char];
    if n < 126 {
      out := out + [n as char];
    } else if n <= 0xFFFF {
      ShortLength(n);
      out := out + ([126 as char] + [(n / 0x100 % 0x100) as char, (n % 0x100) as char]);
    } else {
      var length := EncodeLength(n);
      out := out + ([127 as char] + length);
    }
    out := out + payload;
  }

  lemma {:induction false} BigEndianByte(v: nat, n: nat, i: nat)
    requires i < n
    ensures ToBigEndian(v, n)[i] as int == v / Span(n - 1 - i) % 0x100
  {
    if i < n - 1 {
      BigEndianByte(v / 0x100, n - 1, i);
      DivideTwice(v, Span(n - 2 - i));
    }
  }

  lemma ShortLength(n: nat)
    ensures ToBigEndian(n, 2) == [(n / 0x100 % 0x100) as char, (n % 0x100) as char]
  {
    assert ToBigEndian(n / 0x100, 1) == ToBigEndian(n / 0x100 / 0x100, 0) + [(n / 0x100 % 0x100) as char];
  }

  // The loop that pushes the eight length bytes, most significant first.
  method EncodeLength(v: nat) returns (s: octets)
    ensures s == ToBigEndian(v, 8)
  {
    hide ToBigEndian;
    s := [];
    for i := 0 to 8
      invariant |s| == i && forall k :: 0 <= k < i ==> s[k] == ToBigEndian(v, 8)[k]
    {
      BigEndianByte(v, 8, i);
      s := s + [(v / Span(7 - i) % 0x100) as char];
    }
  }

  // How a client reads an unmasked server frame (RFC 6455, section 5.2).
  function ReadServerFrame(buf: octets): FrameResult {
    if |buf| < 2 then NeedMore
    else
      var b0, b1 := buf[0] as int, buf[1] as int;
      if b1 >= 0x80 then Broken(NotMasked)
      else
        var ext := ExtensionOf(b1);
        if |buf| < 2 + ext then NeedMore
        else
          var n := if ext == 0 then b1 else BigEndian(buf[2..2 + ext]);
          if |buf| - (2 + ext) < n then NeedMore
          else Got(Frame(b0 >= 0x80, b0 % 0x10, buf[2 + ext..2 + ext + n]), 2 + ext + n)
  }

  lemma ServerFrameParses(opcode: nat, payload: octets, rest: octets)
    requires opcode < 0x10 && |payload| < Span(8)
    ensures ReadServerFrame(ServerBytes(opcode, payload) + rest) ==
            Got(Frame(true, opcode, payload), |ServerBytes(opcode, payload)|)
  {
    hide ToBigEndian, BigEndian;
    var n := |payload|;
    var buf := ServerBytes(opcode, payload) + rest;
    var ext := if n < 126 then 0 else if n <= 0xFFFF then 2 else 8;
    assert Span(2) == 0x10000 by { assert Span(1) == 0x100; }
    assert buf[2 + ext..2 + ext + n] == payload;
    if ext > 0 {
      assert buf[2..2 + ext] == ToBigEndian(n, ext);
      BigEndianRoundTrip(n, ext);
    }
  }
}
