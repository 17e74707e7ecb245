// The binary capture file: header and record layout (tools/receiver/lib/capture_format.cpp).
module CaptureFormat {
  import opened ByteOrder

  const FILE_MAGIC: u32 := 0x50434D5A
  const RECORD_MAGIC: u32 := 0x52434D5A
  const FORMAT_VERSION: u16 := 1
  const FILE_HEADER_SIZE := 32
  const RECORD_HEADER_SIZE := 32

  datatype FileHeader = FileHeader(version: u16, headerLength: u16, created: u64, wireVersion: u16)

  const DEFAULT_FILE_HEADER := FileHeader(FORMAT_VERSION, FILE_HEADER_SIZE, 0, 0)

  datatype RecordHeader = RecordHeader(sourceId: u32, sequence: u64, timestamp: u64, payloadLength: u32, flags: u16)

  datatype Record = Record(header: RecordHeader, payload: bytes)

  function Zeros(n: nat): (s: bytes)
    ensures |s| == n
  {
    seq(n, _ => 0)
  }

  function FileHeaderBytes(h: FileHeader): (s: bytes)
    ensures |s| == FILE_HEADER_SIZE
  {
    LittleEndian(FILE_MAGIC, 4) + LittleEndian(h.version, 2) + LittleEndian(h.headerLength, 2) +
    LittleEndian(h.created, 8) + LittleEndian(h.wireVersion, 2) + Zeros(14)
  }

  function RecordHeaderBytes(h: RecordHeader): (s: bytes)
    ensures |s| == RECORD_HEADER_SIZE
  {
    LittleEndian(RECORD_MAGIC, 4) + LittleEndian(h.sourceId, 4) + LittleEndian(h.sequence, 8) +
    LittleEndian(h.timestamp, 8) + LittleEndian(h.payloadLength, 4) + LittleEndian(h.flags, 2) + LittleEndian(0, 2)
  }

  method EncodeFileHeader(h: FileHeader, out: array<byte>)
    requires out.Length >= FILE_HEADER_SIZE
    modifies out
    ensures out[..FILE_HEADER_SIZE] == FileHeaderBytes(h)
    ensures forall k :: FILE_HEADER_SIZE <= k < out.Length ==> out[k] == old(out[k])
  {
    hide LittleEndian;
    for i := 0 to FILE_HEADER_SIZE
      invariant forall k :: 0 <= k < i ==> out[k] == 0
      invariant forall k :: i <= k < out.Length ==> out[k] == old(out[k])
    {
      out[i] := 0;
    }
    PutU32le(out, 0, FILE_MAGIC);
    assert out[..4] == LittleEndian(FILE_MAGIC, 4);
    PutU16le(out, 4, h.version);
    PutU16le(out, 6, h.headerLength);
    PutU64le(out, 8, h.created);
    PutU16le(out, 16, h.wireVersion);
    assert out[18..FILE_HEADER_SIZE] == Zeros(14);
    assert out[..FILE_HEADER_SIZE] == out[..18] + out[18..FILE_HEADER_SIZE];
  }

  method EncodeRecordHeader(h: RecordHeader, out: array<byte>)
    requires out.Length >= RECORD_HEADER_SIZE
    modifies out
    ensures out[..RECORD_HEADER_SIZE] == RecordHeaderBytes(h)
    ensures forall k :: RECORD_HEADER_SIZE <= k < out.Length ==> out[k] == old(out[k])
  {
    hide LittleEndian;
    PutU32le(out, 0, RECORD_MAGIC);
    assert out[..4] == LittleEndian(RECORD_MAGIC, 4);
    PutU32le(out, 4, h.sourceId);
    PutU64le(out, 8, h.sequence);
    PutU64le(out, 16, h.timestamp);
    PutU32le(out, 24, h.payloadLength);
    PutU16le(out, 28, h.flags);
    PutU16le(out, 30, 0);
  }

  // ---------- Decoding ----------

  function FileHeaderOf(d: bytes): FileHeader
    requires |d| >= FILE_HEADER_SIZE
  {
    FileHeader(U16Of(d[4..6]), U16Of(d[6..8]), U64Of(d[8..16]), U16Of(d[16..18]))
  }

  predicate FileHeaderIsGood(d: bytes)
    requires |d| >= FILE_HEADER_SIZE
  {
    && U32Of(d[0..4]) == FILE_MAGIC
    && FileHeaderOf(d).version == FORMAT_VERSION
    && FileHeaderOf(d).headerLength >= FILE_HEADER_SIZE
  }

  function RecordHeaderOf(d: bytes): RecordHeader
    requires |d| >= RECORD_HEADER_SIZE
  {
    RecordHeader(U32Of(d[4..8]), U64Of(d[8..16]), U64Of(d[16..24]), U32Of(d[24..28]), U16Of(d[28..30]))
  }

  predicate RecordHeaderIsGood(d: bytes)
    requires |d| >= RECORD_HEADER_SIZE
  {
    U32Of(d[0..4]) == RECORD_MAGIC
  }

  method DecodeFileHeader(d: bytes) returns (ok: bool, h: FileHeader)
    ensures ok == (|d| >= FILE_HEADER_SIZE && FileHeaderIsGood(d))
    ensures ok ==> h == FileHeaderOf(d)
  {
    h := DEFAULT_FILE_HEADER;
    if |d| < FILE_HEADER_SIZE { return false, h; }
    var magic := GetU32le(d, 0);
    if magic != FILE_MAGIC { return false, h; }
    var version := GetU16le(d, 4);
    var headerLength := GetU16le(d, 6);
    var created := GetU64le(d, 8);
    var wireVersion := GetU16le(d, 16);
    h := FileHeader(version, headerLength, created, wireVersion);
    ok := h.version == FORMAT_VERSION && h.headerLength >= FILE_HEADER_SIZE;
  }

  method DecodeRecordHeader(d: bytes) returns (ok: bool, h: RecordHeader)
    ensures ok == (|d| >= RECORD_HEADER_SIZE && RecordHeaderIsGood(d))
    ensures ok ==> h == RecordHeaderOf(d)
  {
    h := RecordHeader(0, 0, 0, 0, 0);
    if |d| < RECORD_HEADER_SIZE { return false, h; }
    var magic := GetU32le(d, 0);
    if magic != RECORD_MAGIC { return false, h; }
    var sourceId := GetU32le(d, 4);
    var sequence := GetU64le(d, 8);
    var timestamp := GetU64le(d, 16);
    var payloadLength := GetU32le(d, 24);
    var flags := GetU16le(d, 28);
    return true, RecordHeader(sourceId, sequence, timestamp, payloadLength, flags);
  }

  // ---------- Round trips ----------

  lemma FileHeaderSlices(h: FileHeader)
    ensures var s := FileHeaderBytes(h);
      && s[0..4] == LittleEndian(FILE_MAGIC, 4) && s[4..6] == LittleEndian(h.version, 2)
      && s[6..8] == LittleEndian(h.headerLength, 2) && s[8..16] == LittleEndian(h.created, 8)
      && s[16..18] == LittleEndian(h.wireVersion, 2)
  {
  }

  lemma RecordHeaderSlices(h: RecordHeader)
    ensures var s := RecordHeaderBytes(h);
      && s[0..4] == LittleEndian(RECORD_MAGIC, 4) && s[4..8] == LittleEndian(h.sourceId, 4)
      && s[8..16] == LittleEndian(h.sequence, 8) && s[16..24] == LittleEndian(h.timestamp, 8)
      && s[24..28] == LittleEndian(h.payloadLength, 4) && s[28..30] == LittleEndian(h.flags, 2)
  {
  }

  lemma FileHeaderRoundTrip(h: FileHeader)
    ensures var d := FileHeaderBytes(h);
      FileHeaderOf(d) == h && U32Of(d[0..4]) == FILE_MAGIC
  {
    FileHeaderSlices(h);
    WidthsRoundTrip(h.version, FILE_MAGIC, h.created);
    WidthsRoundTrip(h.headerLength, 0, 0);
    WidthsRoundTrip(h.wireVersion, 0, 0);
  }

  lemma RecordHeaderRoundTrip(h: RecordHeader)
    ensures var d := RecordHeaderBytes(h); RecordHeaderOf(d) == h && RecordHeaderIsGood(d)
  {
    RecordHeaderSlices(h);
    WidthsRoundTrip(h.flags, RECORD_MAGIC, h.sequence);
    WidthsRoundTrip(0, h.sourceId, h.timestamp);
    WidthsRoundTrip(0, h.payloadLength, 0);
  }
}
