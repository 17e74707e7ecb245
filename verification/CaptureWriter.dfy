// The capture writer object (tools/receiver/include/ipcrelay/capture_writer.hpp,
// tools/receiver/lib/capture_writer.cpp).
module CaptureWriter {
  import opened ByteOrder
  import opened CaptureFormat
  import opened CaptureModel

  class CaptureWriter {
    var isOpen: bool
    var failed: bool
    var records: nat
    var byteCount: nat
    var io: seq<IoEvent>
    var file: bytes
    ghost var header: FileHeader
    ghost var log: seq<Record>

    ghost function View(): WriterState
      reads this
    {
      WriterState(isOpen, failed, records, byteCount, io, file, header, log)
    }

    constructor (io: seq<IoEvent>)
      ensures View() == NewWriter(io)
    {
      isOpen, failed, records, byteCount := false, false, 0, 0;
      this.io, file, header, log := io, [], DEFAULT_FILE_HEADER, [];
    }

    // The result of one library call that writes nothing.
    method Call() returns (ok: bool)
      modifies `io
      ensures ok == (NextIo(old(io)) == IoOk) && io == RestIo(old(io))
    {
      ok := io == [] || io[0] == IoOk;
      io := RestIo(io);
    }

    method Write(data: bytes) returns (ok: bool)
      modifies `io, `file
      ensures ok == (NextIo(old(io)) == IoOk) && View() == Append(old(View()), data)
    {
      var e := NextIo(io);
      io := RestIo(io);
      file := file + Written(e, data);
      ok := e == IoOk;
    }

    method Open(created: u64, wireVersion: u16) returns (ok: bool)
      modifies this
      ensures Done(View(), ok) == CaptureModel.Open(old(View()), created, wireVersion)
    {
      if isOpen {
        failed := true;
        return false;
      }
      failed, records, byteCount := false, 0, 0;
      ok := Call();
      if !ok {
        failed := true;
        return false;
      }
      var h := DEFAULT_FILE_HEADER.(created := created, wireVersion := wireVersion);
      file, header, log := [], h, [];
      var raw := new byte[FILE_HEADER_SIZE];
      EncodeFileHeader(h, raw);
      assert raw[..] == FileHeaderBytes(h);
      ok := Write(raw[..]);
      if !ok {
        failed := true;
        var _ := Call();
        return false;
      }
      isOpen := true;
      byteCount := byteCount + FILE_HEADER_SIZE;
    }

    method WriteRecord(hdr: RecordHeader, payload: bytes) returns (ok: bool)
      modifies this
      ensures Done(View(), ok) == CaptureModel.WriteRecord(old(View()), hdr, payload)
    {
      if !isOpen || failed { return false; }
      var h := hdr.(payloadLength := |payload| % 0x1_0000_0000);
      var raw := new byte[RECORD_HEADER_SIZE];
      EncodeRecordHeader(h, raw);
      assert raw[..] == RecordHeaderBytes(h);
      ok := Write(raw[..]);
      if !ok {
        failed := true;
        return false;
      }
      if |payload| > 0 {
        ok := Write(payload);
        if !ok {
          failed := true;
          return false;
        }
      }
      records := records + 1;
      byteCount := byteCount + RECORD_HEADER_SIZE + |payload|;
      log := log + [Record(h, payload)];
      ok := true;
    }

    method Flush(sync: bool) returns (ok: bool)
      modifies this
      ensures Done(View(), ok) == CaptureModel.Flush(old(View()), sync)
    {
      if !isOpen { return false; }
      ok := Call();
      if !ok {
        failed := true;
        return false;
      }
      if sync {
        ok := Call();
        if !ok {
          failed := true;
          return false;
        }
      }
      ok := true;
    }

    method Close() returns (ok: bool)
      modifies this
      ensures Done(View(), ok) == CaptureModel.Close(old(View()))
    {
      if !isOpen { return true; }
      ok := true;
      var flushed := Call();
      if !flushed {
        failed := true;
        ok := false;
      }
      var unsupported := NextIo(io) == IoUnsupported;
      var synced := Call();
      if !synced && !unsupported {
        failed := true;
        ok := false;
      }
      var closed := Call();
      if !closed {
        failed := true;
        ok := false;
      }
      isOpen := false;
    }

    // The destructor.
    method Destroy()
      modifies this
      ensures View() == CaptureModel.Close(old(View())).state
    {
      if isOpen {
        var _ := Close();
      }
    }
  }
}
