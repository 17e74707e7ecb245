// Reading a capture file: the C++ reader (tools/receiver/lib/capture_reader.cpp) and the independent
// Python reader (tools/capture_inspect.py). A file is a byte sequence.
module CaptureReader {
  import opened ByteOrder
  import opened CaptureFormat

  // Up to n bytes from position pos, which may lie behind the end of the file.
  function ReadAt(file: bytes, pos: nat, n: nat): (r: bytes)
    ensures |r| <= n
  {
    if pos >= |file| then [] else if pos + n <= |file| then file[pos..pos + n] else file[pos..]
  }

  // ---------- What reading means ----------

  datatype ReadError =
    | NoError
    | ShortFileHeader
    | BadFileHeader
    | TruncatedRecordHeader
    | BadRecordMagic
    | TruncatedRecordPayload

  datatype Opened = Opened(error: ReadError, header: FileHeader, pos: nat)

  function OpenFile(file: bytes): Opened {
    var raw := ReadAt(file, 0, FILE_HEADER_SIZE);
    if |raw| != FILE_HEADER_SIZE then Opened(ShortFileHeader, DEFAULT_FILE_HEADER, |raw|)
    else if !FileHeaderIsGood(raw) then Opened(BadFileHeader, DEFAULT_FILE_HEADER, FILE_HEADER_SIZE)
    else Opened(NoError, FileHeaderOf(raw), FileHeaderOf(raw).headerLength)
  }

  datatype Next = End | Bad(error: ReadError) | Item(record: Record, pos: nat)

  function NextAt(file: bytes, pos: nat): (r: Next)
    ensures r.Item? ==> pos < r.pos <= |file|
    ensures r.Bad? ==> r.error != NoError
  {
    var raw := ReadAt(file, pos, RECORD_HEADER_SIZE);
    if raw == [] then End
    else if |raw| != RECORD_HEADER_SIZE then Bad(TruncatedRecordHeader)
    else if !RecordHeaderIsGood(raw) then Bad(BadRecordMagic)
    else
      var h := RecordHeaderOf(raw);
      var payload := ReadAt(file, pos + RECORD_HEADER_SIZE, h.payloadLength);
      if |payload| != h.payloadLength then Bad(TruncatedRecordPayload)
      else Item(Record(h, payload), pos + RECORD_HEADER_SIZE + h.payloadLength)
  }

  datatype Contents = Contents(records: seq<Record>, error: ReadError)

  // All records from pos on, and the error that ended the reading, if any.
  function ReadFrom(file: bytes, pos: nat): Contents
    decreases if pos <= |file| then |file| - pos else 0
  {
    match NextAt(file, pos)
    case End => Contents([], NoError)
    case Bad(error) => Contents([], error)
    case Item(r, p) => var rest := ReadFrom(file, p); Contents([r] + rest.records, rest.error)
  }

  // ---------- The C++ reader ----------

  class CaptureReader {
    const file: bytes
    var isOpen: bool
    var pos: nat
    var error: ReadError
    var header: FileHeader

    constructor (file: bytes)
      ensures this.file == file && !isOpen && pos == 0 && error == NoError
    {
      this.file := file;
      isOpen, pos, error, header := false, 0, NoError, DEFAULT_FILE_HEADER;
    }

    method ReadBytes(n: nat) returns (raw: bytes)
      modifies `pos
      ensures raw == ReadAt(file, old(pos), n) && pos == old(pos) + |raw|
    {
      raw := if pos >= |file| then [] else if pos + n <= |file| then file[pos..pos + n] else file[pos..];
      pos := pos + |raw|;
    }

    method Open() returns (ok: bool)
      requires !isOpen && pos == 0 && error == NoError
      modifies this
      ensures isOpen && error == OpenFile(file).error
      ensures ok <==> error == NoError
      ensures ok ==> header == OpenFile(file).header && pos == OpenFile(file).pos
    {
      isOpen := true;
      var raw := ReadBytes(FILE_HEADER_SIZE);
      if |raw| != FILE_HEADER_SIZE {
        error := ShortFileHeader;
        return false;
      }
      var good, h := DecodeFileHeader(raw);
      if !good {
        error := BadFileHeader;
        return false;
      }
      header := h;
      if header.headerLength > FILE_HEADER_SIZE {
        pos := pos + (header.headerLength - FILE_HEADER_SIZE);
      }
      ok := true;
    }

    // The next record; false at the end of the file or on an error, which stays.
    method NextRecord() returns (ok: bool, r: Record)
      modifies `pos, `error
      ensures !isOpen || old(error) != NoError ==> !ok && error == old(error) && pos == old(pos)
      ensures isOpen && old(error) == NoError ==>
        match NextAt(file, old(pos))
        case End => !ok && error == NoError && pos == old(pos)
        case Bad(e) => !ok && error == e
        case Item(item, p) => ok && r == item && error == NoError && pos == p
    {
      r := Record(RecordHeader(0, 0, 0, 0, 0), []);
      if !isOpen || error != NoError { return false, r; }
      var raw := ReadBytes(RECORD_HEADER_SIZE);
      if |raw| == 0 { return false, r; }
      if |raw| != RECORD_HEADER_SIZE {
        error := TruncatedRecordHeader;
        return false, r;
      }
      var good, h := DecodeRecordHeader(raw);
      if !good {
        error := BadRecordMagic;
        return false, r;
      }
      if h.payloadLength > 0 {
        var payload := ReadBytes(h.payloadLength);
        if |payload| != h.payloadLength {
          error := TruncatedRecordPayload;
          return false, r;
        }
        r := Record(h, payload);
      } else {
        assert ReadAt(file, pos, 0) == [];
        r := Record(h, []);
      }
      ok := true;
    }
  }

  // The loop of every client of the C++ reader (tools/capture_to_csv/csv_export.cpp).
  method ReadWithCpp(file: bytes) returns (records: seq<Record>, error: ReadError)
    ensures OpenFile(file).error != NoError ==> records == [] && error == OpenFile(file).error
    ensures OpenFile(file).error == NoError ==> Contents(records, error) == ReadFrom(file, OpenFile(file).pos)
  {
    hide NextAt, ReadAt, OpenFile;
    records := [];
    var reader := new CaptureReader(file);
    var ok := reader.Open();
    if !ok { return records, reader.error; }
    ghost var all := ReadFrom(file, reader.pos);
    var r;
    ok, r := reader.NextRecord();
    while ok
      invariant reader.isOpen && reader.file == file
      invariant !ok ==> all == Contents(records, reader.error)
      invariant ok ==> reader.error == NoError && reader.pos <= |file|
      invariant ok
        ==> all == Contents(records + [r] + ReadFrom(file, reader.pos).records, ReadFrom(file, reader.pos).error)
      decreases ok, |file| - reader.pos
    {
      records := records + [r];
      ok, r := reader.NextRecord();
    }
    error := reader.error;
  }

  // ---------- The Python reader ----------

  // read_file_header: an exception becomes an error, and the three complaints about a bad header are one.
  method ReadFileHeader(f: bytes) returns (error: ReadError, offset: nat)
    ensures error == OpenFile(f).error
    ensures error == NoError ==> offset == OpenFile(f).pos
  {
    offset := 0;
    var raw := ReadAt(f, 0, FILE_HEADER_SIZE);
    if |raw| < FILE_HEADER_SIZE { return ShortFileHeader, offset; }
    var magic, h := U32Of(raw[0..4]), FileHeaderOf(raw);
    if magic != FILE_MAGIC { return BadFileHeader, offset; }
    if h.version != FORMAT_VERSION { return BadFileHeader, offset; }
    if h.headerLength < FILE_HEADER_SIZE { return BadFileHeader, offset; }
    offset := FILE_HEADER_SIZE;
    if h.headerLength > FILE_HEADER_SIZE {
      offset := offset + (h.headerLength - FILE_HEADER_SIZE);
    }
    error := NoError;
  }

  // Reading on from pos with these records read so far.
  lemma ReadsNext(f: bytes, pos: nat, records: seq<Record>)
    ensures var all := ReadFrom(f, pos);
      match NextAt(f, pos)
      case Item(r, next) =>
        var later := ReadFrom(f, next);
        Contents(records + all.records, all.error) == Contents((records + [r]) + later.records, later.error)
      case End => Contents(records + all.records, all.error) == Contents(records, NoError)
      case Bad(e) => Contents(records + all.records, all.error) == Contents(records, e)
  {
    hide NextAt;
  }

  // iter_records: a generator over a file object, here collecting what it yields.
  method IterRecords(f: bytes, start: nat) returns (records: seq<Record>, error: ReadError)
    ensures Contents(records, error) == ReadFrom(f, start)
  {
    hide RecordHeaderOf, ReadAt, U32Of, ReadFrom;
    records := [];
    var offset := start;
    while true
      invariant ReadFrom(f, start) == Contents(records + ReadFrom(f, offset).records, ReadFrom(f, offset).error)
      decreases if offset <= |f| then |f| - offset else 0
    {
      ReadsNext(f, offset, records);
      var raw := ReadAt(f, offset, RECORD_HEADER_SIZE);
      if |raw| == 0 { return records, NoError; }
      if |raw| < RECORD_HEADER_SIZE { return records, TruncatedRecordHeader; }
      if U32Of(raw[0..4]) != RECORD_MAGIC { return records, BadRecordMagic; }
      var h := RecordHeaderOf(raw);
      var payload := ReadAt(f, offset + RECORD_HEADER_SIZE, h.payloadLength);
      if |payload| < h.payloadLength { return records, TruncatedRecordPayload; }
      var next := offset + RECORD_HEADER_SIZE + |payload|;
      assert NextAt(f, offset) == Item(Record(h, payload), next);
      records := records + [Record(h, payload)];
      offset := next;
    }
  }

  method ReadWithPython(f: bytes) returns (records: seq<Record>, error: ReadError)
    ensures OpenFile(f).error != NoError ==> records == [] && error == OpenFile(f).error
    ensures OpenFile(f).error == NoError ==> Contents(records, error) == ReadFrom(f, OpenFile(f).pos)
  {
    var offset;
    records := [];
    error, offset := ReadFileHeader(f);
    if error == NoError {
      records, error := IterRecords(f, offset);
    }
  }
}
