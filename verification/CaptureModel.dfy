// What writing a capture file does (tools/receiver/lib/capture_writer.cpp). The file is a byte sequence; what each
// call of fopen, fwrite, fflush, fsync and fclose will do is given in advance as a list of events, and an exhausted
// list answers with success. A failed write leaves any proper prefix of what was to be written.
module CaptureModel {
  import opened ByteOrder
  import opened CaptureFormat

  // IoUnsupported is a failure with EINVAL or EROFS, which closing does not hold against fsync.
  datatype IoEvent = IoOk | IoFailed(written: nat) | IoUnsupported

  // header and log record what the file is meant to hold: its header and the records wholly written.
  datatype WriterState = WriterState(
    isOpen: bool,
    failed: bool,
    records: nat,
    byteCount: nat,
    io: seq<IoEvent>,
    file: bytes,
    header: FileHeader,
    log: seq<Record>)

  function NewWriter(io: seq<IoEvent>): WriterState {
    WriterState(false, false, 0, 0, io, [], DEFAULT_FILE_HEADER, [])
  }

  function NextIo(io: seq<IoEvent>): IoEvent {
    if io == [] then IoOk else io[0]
  }

  function RestIo(io: seq<IoEvent>): seq<IoEvent> {
    if io == [] then [] else io[1..]
  }

  // The part of data that one fwrite puts into the file.
  function Written(e: IoEvent, data: bytes): bytes {
    match e
    case IoOk => data
    case IoUnsupported => []
    case IoFailed(n) => if n < |data| then data[..n] else data[..if data == [] then 0 else |data| - 1]
  }

  function Append(w: WriterState, data: bytes): WriterState {
    w.(io := RestIo(w.io), file := w.file + Written(NextIo(w.io), data))
  }

  datatype Done = Done(state: WriterState, ok: bool)

  function Fail(w: WriterState): WriterState {
    w.(failed := true)
  }

  // open: creates (truncates) the file and writes its header.
  function Open(w: WriterState, created: u64, wireVersion: u16): Done {
    if w.isOpen then Done(Fail(w), false)
    else
      var reset := w.(failed := false, records := 0, byteCount := 0);
      if NextIo(w.io) != IoOk then Done(Fail(reset.(io := RestIo(w.io))), false)
      else
        var h := DEFAULT_FILE_HEADER.(created := created, wireVersion := wireVersion);
        var empty := reset.(io := RestIo(w.io), file := [], header := h, log := []);
        var written := Append(empty, FileHeaderBytes(h));
        if NextIo(empty.io) != IoOk then Done(Fail(written.(io := RestIo(written.io))), false)
        else Done(written.(isOpen := true, byteCount := FILE_HEADER_SIZE), true)
  }

  // The record as it is written: its length field is len cast to 32 bits.
  function Stamped(h: RecordHeader, payload: bytes): Record {
    Record(h.(payloadLength := |payload| % 0x1_0000_0000), payload)
  }

  function RecordBytes(r: Record): (s: bytes)
    ensures |s| == RECORD_HEADER_SIZE + |r.payload|
  {
    RecordHeaderBytes(r.header) + r.payload
  }

  function WriteRecord(w: WriterState, h: RecordHeader, payload: bytes): Done {
    if !w.isOpen || w.failed then Done(w, false)
    else
      var r := Stamped(h, payload);
      var head := Append(w, RecordHeaderBytes(r.header));
      if NextIo(w.io) != IoOk then Done(Fail(head), false)
      else
        var body := if payload == [] then head else Append(head, payload);
        if payload != [] && NextIo(head.io) != IoOk then Done(Fail(body), false)
        else
          Done(body.(records := w.records + 1, byteCount := w.byteCount + RECORD_HEADER_SIZE + |payload|,
                     log := w.log + [r]), true)
  }

  function Flush(w: WriterState, sync: bool): Done {
    if !w.isOpen then Done(w, false)
    else
      var flushed := w.(io := RestIo(w.io));
      if NextIo(w.io) != IoOk then Done(Fail(flushed), false)
      else if !sync then Done(flushed, true)
      else
        var synced := flushed.(io := RestIo(flushed.io));
        if NextIo(flushed.io) != IoOk then Done(Fail(synced), false) else Done(synced, true)
  }

  // The answers of the three calls of close.
  predicate ClosesWell(io: seq<IoEvent>) {
    && NextIo(io) == IoOk
    && NextIo(RestIo(io)) in {IoOk, IoUnsupported}
    && NextIo(RestIo(RestIo(io))) == IoOk
  }

  // close: makes all three calls, whatever they answer, and forgets the file.
  function Close(w: WriterState): Done {
    if !w.isOpen then Done(w, true)
    else
      var ok := ClosesWell(w.io);
      Done(w.(isOpen := false, failed := w.failed || !ok, io := RestIo(RestIo(RestIo(w.io)))), ok)
  }
}
