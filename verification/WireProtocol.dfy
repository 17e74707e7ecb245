// The UDP transport header: serialisation and validation (src/common/wire_protocol.cpp).
module WireProtocol {
  import opened ByteOrder

  const MAGIC: u32 := 0x42554D5A
  const VERSION: u16 := 1
  const HEADER_SIZE := 44
  const MAX_UDP_PAYLOAD := 65507
  const MAX_MESSAGE_LENGTH := 0xFFFF_FFFF

  // Bit 0 of the flags is FRAGMENTED, bit 1 is MULTIPART.
  const FLAG_FRAGMENTED: u16 := 1
  const FLAG_MULTIPART: u16 := 2

  predicate HasFragmentedFlag(flags: u16) {
    flags % 2 == 1
  }

  datatype Header = Header(
    version: u16,
    flags: u16,
    sourceId: u32,
    messageLength: u32,
    sequence: u64,
    timestamp: u64,
    fragmentOffset: u32,
    fragmentIndex: u16,
    fragmentCount: u16,
    fragmentLength: u16)

  const DEFAULT_HEADER := Header(VERSION, 0, 0, 0, 0, 0, 0, 0, 1, 0)

  datatype ParseError =
    | Accepted
    | Truncated
    | BadMagic
    | BadVersion
    | BadFragmentCount
    | BadFragmentIndex
    | LengthMismatch
    | RangeError
    | FlagMismatch

  // ---------- Serialisation ----------

  // The first half of the header, up to and including the timestamp.
  function IdentityBytes(h: Header): (s: bytes)
    ensures |s| == 32
  {
    LittleEndian(MAGIC, 4) + LittleEndian(h.version, 2) + LittleEndian(h.flags, 2) +
    LittleEndian(h.sourceId, 4) + LittleEndian(h.messageLength, 4) +
    LittleEndian(h.sequence, 8) + LittleEndian(h.timestamp, 8)
  }

  // The second half, which differs from one fragment of a message to the next.
  function FragmentBytes(h: Header): (s: bytes)
    ensures |s| == 12
  {
    LittleEndian(h.fragmentOffset, 4) + LittleEndian(h.fragmentIndex, 2) +
    LittleEndian(h.fragmentCount, 2) + LittleEndian(h.fragmentLength, 2) + LittleEndian(0, 2)
  }

  function HeaderBytes(h: Header): (s: bytes)
    ensures |s| == HEADER_SIZE
  {
    IdentityBytes(h) + FragmentBytes(h)
  }

  lemma AppendFive(s: bytes, a: bytes, b: bytes, c: bytes, d: bytes, e: bytes)
    ensures s + a + b + c + d + e == s + (a + b + c + d + e)
  {
  }

  method EncodeHeader(h: Header, out: array<byte>)
    requires out.Length >= HEADER_SIZE
    modifies out
    ensures out[..HEADER_SIZE] == HeaderBytes(h)
    ensures forall k :: HEADER_SIZE <= k < out.Length ==> out[k] == old(out[k])
  {
    hide LittleEndian;
    PutU32le(out, 0, MAGIC);
    assert out[..4] == LittleEndian(MAGIC, 4);
    PutU16le(out, 4, h.version);
    PutU16le(out, 6, h.flags);
    PutU32le(out, 8, h.sourceId);
    PutU32le(out, 12, h.messageLength);
    PutU64le(out, 16, h.sequence);
    PutU64le(out, 24, h.timestamp);
    assert out[..32] == IdentityBytes(h);
    PutU32le(out, 32, h.fragmentOffset);
    PutU16le(out, 36, h.fragmentIndex);
    PutU16le(out, 38, h.fragmentCount);
    PutU16le(out, 40, h.fragmentLength);
    PutU16le(out, 42, 0);
    AppendFive(IdentityBytes(h), LittleEndian(h.fragmentOffset, 4), LittleEndian(h.fragmentIndex, 2),
               LittleEndian(h.fragmentCount, 2), LittleEndian(h.fragmentLength, 2), LittleEndian(0, 2));
  }

  // ---------- Validation ----------

  // The header fields of a datagram, read at their offsets.
  function DecodeHeader(d: bytes): Header
    requires |d| >= HEADER_SIZE
  {
    Header(U16Of(d[4..6]), U16Of(d[6..8]), U32Of(d[8..12]), U32Of(d[12..16]), U64Of(d[16..24]),
           U64Of(d[24..32]), U32Of(d[32..36]), U16Of(d[36..38]), U16Of(d[38..40]), U16Of(d[40..42]))
  }

  // The checks that need only the decoded header, in the order of the code.
  function FragmentVerdict(h: Header, length: nat): ParseError {
    if h.fragmentCount == 0 then BadFragmentCount
    else if h.fragmentIndex >= h.fragmentCount then BadFragmentIndex
    else if length != HEADER_SIZE + h.fragmentLength then LengthMismatch
    else if h.fragmentOffset + h.fragmentLength > h.messageLength then RangeError
    else if h.fragmentCount == 1 then
      if h.fragmentOffset != 0 || h.fragmentLength != h.messageLength then RangeError
      else if HasFragmentedFlag(h.flags) then FlagMismatch
      else Accepted
    else if !HasFragmentedFlag(h.flags) then FlagMismatch
    else if h.fragmentIndex + 1 == h.fragmentCount then
      if h.fragmentOffset + h.fragmentLength != h.messageLength then RangeError else Accepted
    else if h.fragmentLength == 0 then RangeError
    else Accepted
  }

  function Verdict(d: bytes): ParseError {
    if |d| < HEADER_SIZE then Truncated
    else if U32Of(d[0..4]) != MAGIC then BadMagic
    else if U16Of(d[4..6]) != VERSION then BadVersion
    else FragmentVerdict(DecodeHeader(d), |d|)
  }

  // Whether the header of a rejected datagram was read, so that a source can be blamed for it.
  predicate HeaderWasRead(e: ParseError) {
    e != Truncated && e != BadMagic && e != BadVersion
  }

  method ParseDatagram(data: bytes) returns (err: ParseError, h: Header, payload: bytes)
    ensures err == Verdict(data)
    ensures HeaderWasRead(err) ==> |data| >= HEADER_SIZE && h == DecodeHeader(data)
    ensures payload == if err == Accepted then data[HEADER_SIZE..] else []
  {
    payload := [];
    h := DEFAULT_HEADER;
    if |data| < HEADER_SIZE { return Truncated, h, payload; }
    var magic := GetU32le(data, 0);
    if magic != MAGIC { return BadMagic, h, payload; }
    var version := GetU16le(data, 4);
    h := h.(version := version);
    if h.version != VERSION { return BadVersion, h, payload; }
    var flags := GetU16le(data, 6);
    var sourceId := GetU32le(data, 8);
    var messageLength := GetU32le(data, 12);
    var sequence := GetU64le(data, 16);
    var timestamp := GetU64le(data, 24);
    var offset := GetU32le(data, 32);
    var index := GetU16le(data, 36);
    var count := GetU16le(data, 38);
    var length := GetU16le(data, 40);
    h := Header(version, flags, sourceId, messageLength, sequence, timestamp, offset, index, count, length);

    if h.fragmentCount == 0 { return BadFragmentCount, h, payload; }
    if h.fragmentIndex >= h.fragmentCount { return BadFragmentIndex, h, payload; }
    if |data| != HEADER_SIZE + h.fragmentLength { return LengthMismatch, h, payload; }
    var end := h.fragmentOffset + h.fragmentLength;
    if end > h.messageLength { return RangeError, h, payload; }
    if h.fragmentCount == 1 {
      if h.fragmentOffset != 0 || h.fragmentLength != h.messageLength { return RangeError, h, payload; }
      if HasFragmentedFlag(h.flags) { return FlagMismatch, h, payload; }
    } else {
      if !HasFragmentedFlag(h.flags) { return FlagMismatch, h, payload; }
      if h.fragmentIndex + 1 == h.fragmentCount {
        if end != h.messageLength { return RangeError, h, payload; }
      } else if h.fragmentLength == 0 {
        return RangeError, h, payload;
      }
    }
    return Accepted, h, data[HEADER_SIZE..];
  }

  // ---------- The rules of the protocol document ----------

  // Rules 1 to 8 of docs/wire_protocol.md, "Receiver validation rules": d breaks the rule that e names.
  // A rule about a header field presupposes that the datagram holds a header.
  predicate Breaks(d: bytes, e: ParseError) {
    if e == Truncated then |d| < HEADER_SIZE
    else if |d| < HEADER_SIZE then false
    else
      var h := DecodeHeader(d);
      match e
      case BadMagic => U32Of(d[0..4]) != MAGIC
      case BadVersion => h.version != VERSION
      case BadFragmentCount => h.fragmentCount == 0
      case BadFragmentIndex => h.fragmentIndex >= h.fragmentCount
      case LengthMismatch => |d| != HEADER_SIZE + h.fragmentLength
      case RangeError =>
        || h.fragmentOffset + h.fragmentLength > h.messageLength
        || (h.fragmentCount == 1 && (h.fragmentOffset != 0 || h.fragmentLength != h.messageLength))
        || (h.fragmentIndex + 1 == h.fragmentCount && h.fragmentOffset + h.fragmentLength != h.messageLength)
        || (h.fragmentIndex + 1 != h.fragmentCount && h.fragmentLength == 0)
      case FlagMismatch => HasFragmentedFlag(h.flags) != (h.fragmentCount > 1)
      case Accepted => false
      case Truncated => false
  }

  function RuleNumber(e: ParseError): nat {
    match e
    case Accepted => 0 case Truncated => 1 case BadMagic => 2 case BadVersion => 3
    case BadFragmentCount => 4 case BadFragmentIndex => 5 case LengthMismatch => 6
    case RangeError => 7 case FlagMismatch => 8
  }

  // A datagram is accepted exactly when it breaks no rule; a rejected one breaks the rule it is
  // reported for, and for rules 1 to 6 that is the first rule it breaks.
  lemma VerdictFollowsRules(d: bytes)
    ensures Verdict(d) == Accepted <==> forall e :: !Breaks(d, e)
    ensures Verdict(d) != Accepted ==> Breaks(d, Verdict(d))
    ensures forall e :: Breaks(d, e) && RuleNumber(e) <= 6 ==> 1 <= RuleNumber(Verdict(d)) <= RuleNumber(e)
  {
    var v := Verdict(d);
    assert v != Accepted ==> Breaks(d, v);
    if |d| >= HEADER_SIZE {
      assert Breaks(d, BadVersion) == (U16Of(d[4..6]) != VERSION);
      assert Breaks(d, RangeError) || Breaks(d, FlagMismatch) || Breaks(d, BadMagic) || Breaks(d, BadVersion) ||
             Breaks(d, BadFragmentCount) || Breaks(d, BadFragmentIndex) || Breaks(d, LengthMismatch) || v == Accepted;
    }
  }

  // ---------- Round trips ----------

  // A header that the sender may put in front of fragmentLength payload bytes.
  predicate WellFormed(h: Header) {
    h.version == VERSION && FragmentVerdict(h, HEADER_SIZE + h.fragmentLength) == Accepted
  }

  lemma IdentitySlices(h: Header)
    ensures var s := IdentityBytes(h);
      && s[0..4] == LittleEndian(MAGIC, 4) && s[4..6] == LittleEndian(h.version, 2)
      && s[6..8] == LittleEndian(h.flags, 2) && s[8..12] == LittleEndian(h.sourceId, 4)
      && s[12..16] == LittleEndian(h.messageLength, 4) && s[16..24] == LittleEndian(h.sequence, 8)
      && s[24..32] == LittleEndian(h.timestamp, 8)
  {
  }

  lemma FragmentSlices(h: Header)
    ensures var s := FragmentBytes(h);
      && s[0..4] == LittleEndian(h.fragmentOffset, 4) && s[4..6] == LittleEndian(h.fragmentIndex, 2)
      && s[6..8] == LittleEndian(h.fragmentCount, 2) && s[8..10] == LittleEndian(h.fragmentLength, 2)
      && s[10..12] == LittleEndian(0, 2)
  {
  }

  lemma SliceOfLeft(s: bytes, t: bytes, a: nat, b: nat)
    requires a <= b <= |s|
    ensures (s + t)[a..b] == s[a..b]
  {
  }

  lemma SliceOfMiddle(s: bytes, m: bytes, t: bytes, a: nat, b: nat)
    requires a <= b <= |m|
    ensures (s + m + t)[|s| + a..|s| + b] == m[a..b]
  {
  }

  lemma DecodeOfHeaderBytes(h: Header, payload: bytes)
    ensures var d := HeaderBytes(h) + payload;
      U32Of(d[0..4]) == MAGIC && DecodeHeader(d) == h && d[HEADER_SIZE..] == payload
  {
    hide LittleEndian, FromLittleEndian, IdentityBytes, FragmentBytes;
    var i, f := IdentityBytes(h), FragmentBytes(h);
    var d := i + f + payload;
    assert d == i + (f + payload);
    IdentitySlices(h);
    FragmentSlices(h);
    SliceOfLeft(i, f + payload, 0, 4);
    SliceOfLeft(i, f + payload, 4, 6);
    SliceOfLeft(i, f + payload, 6, 8);
    SliceOfLeft(i, f + payload, 8, 12);
    SliceOfLeft(i, f + payload, 12, 16);
    SliceOfLeft(i, f + payload, 16, 24);
    SliceOfLeft(i, f + payload, 24, 32);
    SliceOfMiddle(i, f, payload, 0, 4);
    SliceOfMiddle(i, f, payload, 4, 6);
    SliceOfMiddle(i, f, payload, 6, 8);
    SliceOfMiddle(i, f, payload, 8, 10);
    WidthsRoundTrip(h.version, MAGIC, h.sequence);
    WidthsRoundTrip(h.flags, h.sourceId, h.timestamp);
    WidthsRoundTrip(h.fragmentIndex, h.messageLength, 0);
    WidthsRoundTrip(h.fragmentCount, h.fragmentOffset, 0);
    WidthsRoundTrip(h.fragmentLength, 0, 0);
  }

  // What the sender encodes, the receiver decodes: parsing undoes encoding.
  lemma ParseOfEncode(h: Header, payload: bytes)
    requires |payload| == h.fragmentLength
    ensures Verdict(HeaderBytes(h) + payload) == Accepted <==> WellFormed(h)
    ensures DecodeHeader(HeaderBytes(h) + payload) == h
    ensures (HeaderBytes(h) + payload)[HEADER_SIZE..] == payload
  {
    DecodeOfHeaderBytes(h, payload);
  }

  lemma IdentityOfDecode(d: bytes)
    requires |d| >= HEADER_SIZE && U32Of(d[0..4]) == MAGIC
    ensures IdentityBytes(DecodeHeader(d)) == d[..32]
  {
    EncodeOfDecode(d[0..4]);
    EncodeOfDecode(d[4..6]);
    EncodeOfDecode(d[6..8]);
    EncodeOfDecode(d[8..12]);
    EncodeOfDecode(d[12..16]);
    EncodeOfDecode(d[16..24]);
    EncodeOfDecode(d[24..32]);
    assert d[..32] == d[0..4] + d[4..6] + d[6..8] + d[8..12] + d[12..16] + d[16..24] + d[24..32];
  }

  lemma FragmentOfDecode(d: bytes)
    requires |d| >= HEADER_SIZE
    ensures FragmentBytes(DecodeHeader(d)) == d[32..42] + [0, 0]
  {
    EncodeOfDecode(d[32..36]);
    EncodeOfDecode(d[36..38]);
    EncodeOfDecode(d[38..40]);
    EncodeOfDecode(d[40..42]);
    assert LittleEndian(0, 2) == [0] + LittleEndian(0, 1) == [0, 0];
    assert d[32..42] == d[32..36] + d[36..38] + d[38..40] + d[40..42];
  }

  // Encoding the header of an accepted datagram gives back the datagram, except that the ignored
  // reserved field at offset 42 becomes zero: encoding undoes parsing.
  lemma EncodeOfParse(d: bytes)
    requires Verdict(d) == Accepted
    ensures WellFormed(DecodeHeader(d))
    ensures HeaderBytes(DecodeHeader(d)) + d[HEADER_SIZE..] == d[..42] + [0, 0] + d[HEADER_SIZE..]
  {
    IdentityOfDecode(d);
    FragmentOfDecode(d);
    assert d[..32] + d[32..42] == d[..42];
  }
}
