// The layouts of the wire and capture formats in numbers, as docs/wire_protocol.md:13-58 and
// docs/capture_format.md:26-53 give them.
module Formats {
  import opened ByteOrder
  import opened WireProtocol
  import opened CaptureFormat

  // The little-endian field of n bytes at this offset.
  function Field(d: bytes, at: nat, n: nat): nat
    requires at + n <= |d|
  {
    FromLittleEndian(d[at..at + n])
  }

  lemma FieldIs(d: bytes, at: nat, n: nat, v: nat)
    requires at + n <= |d| && d[at..at + n] == LittleEndian(v, n) && v < Span(n)
    ensures Field(d, at, n) == v
  {
    DecodeOfEncode(v, n);
  }

  lemma FourBytes(v: nat)
    ensures LittleEndian(v, 4) == [v % 256, v / 256 % 256, v / 256 / 256 % 256, v / 256 / 256 / 256 % 256]
  {
    assert LittleEndian(v / 256, 3) == [v / 256 % 256] + LittleEndian(v / 256 / 256, 2);
    assert LittleEndian(v / 256 / 256, 2) == [v / 256 / 256 % 256] + LittleEndian(v / 256 / 256 / 256, 1);
    assert LittleEndian(v / 256 / 256 / 256, 1) ==
      [v / 256 / 256 / 256 % 256] + LittleEndian(v / 256 / 256 / 256 / 256, 0);
  }

  // "ZMUB", "ZMCP" and "ZMCR".
  lemma MagicBytes()
    ensures LittleEndian(MAGIC, 4) == [0x5A, 0x4D, 0x55, 0x42]
    ensures LittleEndian(FILE_MAGIC, 4) == [0x5A, 0x4D, 0x43, 0x50]
    ensures LittleEndian(RECORD_MAGIC, 4) == [0x5A, 0x4D, 0x43, 0x52]
  {
    FourBytes(MAGIC);
    FourBytes(FILE_MAGIC);
    FourBytes(RECORD_MAGIC);
  }

  lemma SmallestFields()
    ensures LittleEndian(0, 2) == [0, 0]
    ensures Span(2) == 0x1_0000 && Span(4) == 0x1_0000_0000 && Span(8) == 0x1_0000_0000_0000_0000
  {
    assert LittleEndian(0, 2) == [0] + LittleEndian(0, 1) == [0, 0];
    SpanOfWidths();
  }

  // The 44 bytes in front of the payload of a datagram.
  predicate IsWireHeader(d: bytes, h: Header) {
    && |d| == 44
    && d[0..4] == [0x5A, 0x4D, 0x55, 0x42]
    && Field(d, 4, 2) == h.version && Field(d, 6, 2) == h.flags && Field(d, 8, 4) == h.sourceId
    && Field(d, 12, 4) == h.messageLength && Field(d, 16, 8) == h.sequence && Field(d, 24, 8) == h.timestamp
    && Field(d, 32, 4) == h.fragmentOffset && Field(d, 36, 2) == h.fragmentIndex
    && Field(d, 38, 2) == h.fragmentCount && Field(d, 40, 2) == h.fragmentLength && d[42..44] == [0, 0]
  }

  lemma WireHeaderLayout(h: Header)
    ensures IsWireHeader(HeaderBytes(h), h)
  {
    hide LittleEndian, FromLittleEndian, IdentityBytes, FragmentBytes, Field;
    var d, i, f := HeaderBytes(h), IdentityBytes(h), FragmentBytes(h);
    assert d == i + f && d == i + f + [];
    MagicBytes();
    SmallestFields();
    IdentitySlices(h);
    FragmentSlices(h);
    SliceOfLeft(i, f, 0, 4);
    SliceOfLeft(i, f, 4, 6);
    SliceOfLeft(i, f, 6, 8);
    SliceOfLeft(i, f, 8, 12);
    SliceOfLeft(i, f, 12, 16);
    SliceOfLeft(i, f, 16, 24);
    SliceOfLeft(i, f, 24, 32);
    SliceOfMiddle(i, f, [], 0, 4);
    SliceOfMiddle(i, f, [], 4, 6);
    SliceOfMiddle(i, f, [], 6, 8);
    SliceOfMiddle(i, f, [], 8, 10);
    SliceOfMiddle(i, f, [], 10, 12);
    FieldIs(d, 4, 2, h.version);
    FieldIs(d, 6, 2, h.flags);
    FieldIs(d, 8, 4, h.sourceId);
    FieldIs(d, 12, 4, h.messageLength);
    FieldIs(d, 16, 8, h.sequence);
    FieldIs(d, 24, 8, h.timestamp);
    FieldIs(d, 32, 4, h.fragmentOffset);
    FieldIs(d, 36, 2, h.fragmentIndex);
    FieldIs(d, 38, 2, h.fragmentCount);
    FieldIs(d, 40, 2, h.fragmentLength);
  }

  predicate IsFileHeader(d: bytes, h: FileHeader) {
    && |d| == 32
    && d[0..4] == [0x5A, 0x4D, 0x43, 0x50]
    && Field(d, 4, 2) == h.version && Field(d, 6, 2) == h.headerLength && Field(d, 8, 8) == h.created
    && Field(d, 16, 2) == h.wireVersion && forall k :: 18 <= k < 32 ==> d[k] == 0
  }

  lemma FileHeaderLayout(h: FileHeader)
    ensures IsFileHeader(FileHeaderBytes(h), h)
  {
    hide LittleEndian, FromLittleEndian, Field;
    var d := FileHeaderBytes(h);
    MagicBytes();
    SmallestFields();
    FileHeaderSlices(h);
    FieldIs(d, 4, 2, h.version);
    FieldIs(d, 6, 2, h.headerLength);
    FieldIs(d, 8, 8, h.created);
    FieldIs(d, 16, 2, h.wireVersion);
  }

  predicate IsRecordHeader(d: bytes, h: RecordHeader) {
    && |d| == 32
    && d[0..4] == [0x5A, 0x4D, 0x43, 0x52]
    && Field(d, 4, 4) == h.sourceId && Field(d, 8, 8) == h.sequence && Field(d, 16, 8) == h.timestamp
    && Field(d, 24, 4) == h.payloadLength && Field(d, 28, 2) == h.flags && d[30..32] == [0, 0]
  }

  lemma RecordHeaderLayout(h: RecordHeader)
    ensures IsRecordHeader(RecordHeaderBytes(h), h)
  {
    hide LittleEndian, FromLittleEndian, Field;
    var d := RecordHeaderBytes(h);
    MagicBytes();
    SmallestFields();
    RecordHeaderSlices(h);
    assert d[30..32] == LittleEndian(0, 2);
    FieldIs(d, 4, 4, h.sourceId);
    FieldIs(d, 8, 8, h.sequence);
    FieldIs(d, 16, 8, h.timestamp);
    FieldIs(d, 24, 4, h.payloadLength);
    FieldIs(d, 28, 2, h.flags);
  }

  // ---------- The example of docs/wire_protocol.md:94-113 ----------

  const HELLO: bytes := [0x68, 0x65, 0x6C, 0x6C, 0x6F]

  lemma EightBytes(v: nat)
    ensures LittleEndian(v, 8) == LittleEndian(v, 4) + LittleEndian(v / 256 / 256 / 256 / 256, 4)
  {
    FourBytes(v);
    var w := v / 256 / 256 / 256 / 256;
    assert LittleEndian(v, 8) == [v % 256] + LittleEndian(v / 256, 7);
    assert LittleEndian(v / 256, 7) == [v / 256 % 256] + LittleEndian(v / 256 / 256, 6);
    assert LittleEndian(v / 256 / 256, 6) == [v / 256 / 256 % 256] + LittleEndian(v / 256 / 256 / 256, 5);
    assert LittleEndian(v / 256 / 256 / 256, 5) == [v / 256 / 256 / 256 % 256] + LittleEndian(w, 4);
  }

  lemma TwoBytes(v: nat)
    ensures LittleEndian(v, 2) == [v % 256, v / 256 % 256]
  {
    assert LittleEndian(v / 256, 1) == [v / 256 % 256] + LittleEndian(v / 256 / 256, 0);
  }

  // The message "hello" of source 7, sequence 42.
  const EXAMPLE := Header(1, 0, 7, 5, 42, 0x18EE_9E8B_2D1C_7C00, 0, 0, 1, 5)

  lemma ExampleNumbers()
    ensures LittleEndian(42, 8) == [0x2A, 0x00, 0x00, 0x00, 0x00, 0x00, 0x00, 0x00]
    ensures LittleEndian(0x18EE_9E8B_2D1C_7C00, 8) == [0x00, 0x7C, 0x1C, 0x2D, 0x8B, 0x9E, 0xEE, 0x18]
  {
    hide LittleEndian;
    FourBytes(0);
    FourBytes(42);
    EightBytes(42);
    EightBytes(0x18EE_9E8B_2D1C_7C00);
    FourBytes(0x18EE_9E8B_2D1C_7C00);
    FourBytes(0x18EE_9E8B);
  }

  lemma ExampleIdentity()
    ensures IdentityBytes(EXAMPLE) ==
      [0x5A, 0x4D, 0x55, 0x42, 0x01, 0x00, 0x00, 0x00, 0x07, 0x00, 0x00, 0x00, 0x05, 0x00, 0x00, 0x00] +
      [0x2A, 0x00, 0x00, 0x00, 0x00, 0x00, 0x00, 0x00, 0x00, 0x7C, 0x1C, 0x2D, 0x8B, 0x9E, 0xEE, 0x18]
  {
    hide LittleEndian;
    MagicBytes();
    TwoBytes(0);
    TwoBytes(1);
    FourBytes(5);
    FourBytes(7);
    ExampleNumbers();
  }

  lemma ExampleFragment()
    ensures FragmentBytes(EXAMPLE) == [0x00, 0x00, 0x00, 0x00, 0x00, 0x00, 0x01, 0x00, 0x05, 0x00, 0x00, 0x00]
  {
    hide LittleEndian;
    FourBytes(0);
    TwoBytes(0);
    TwoBytes(1);
    TwoBytes(5);
  }

  lemma ExampleDatagram()
    ensures HeaderBytes(EXAMPLE) + HELLO ==
      [0x5A, 0x4D, 0x55, 0x42, 0x01, 0x00, 0x00, 0x00, 0x07, 0x00, 0x00, 0x00, 0x05, 0x00, 0x00, 0x00] +
      [0x2A, 0x00, 0x00, 0x00, 0x00, 0x00, 0x00, 0x00, 0x00, 0x7C, 0x1C, 0x2D, 0x8B, 0x9E, 0xEE, 0x18] +
      [0x00, 0x00, 0x00, 0x00, 0x00, 0x00, 0x01, 0x00, 0x05, 0x00, 0x00, 0x00] + [0x68, 0x65, 0x6C, 0x6C, 0x6F]
  {
    hide IdentityBytes, FragmentBytes;
    ExampleIdentity();
    ExampleFragment();
  }
}
