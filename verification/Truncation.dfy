// Reading what was written, whole or cut short (docs/capture_format.md, "Integrity").
module Truncation {
  import opened ByteOrder
  import opened CaptureFormat
  import opened CaptureReader
  import opened CaptureModel

  // The length field tells the truth: payloads below 4 GiB.
  predicate WellSized(r: Record) {
    r.header.payloadLength == |r.payload|
  }

  predicate AllWellSized(rs: seq<Record>) {
    forall i :: 0 <= i < |rs| ==> WellSized(rs[i])
  }

  function RecordsBytes(rs: seq<Record>): bytes {
    if rs == [] then [] else RecordBytes(rs[0]) + RecordsBytes(rs[1..])
  }

  function FileOf(h: FileHeader, rs: seq<Record>): bytes {
    FileHeaderBytes(h) + RecordsBytes(rs)
  }

  // How many of the records lie wholly inside the first room bytes of their encoding.
  function Whole(rs: seq<Record>, room: nat): nat {
    if rs == [] || |RecordBytes(rs[0])| > room then 0 else 1 + Whole(rs[1..], room - |RecordBytes(rs[0])|)
  }

  lemma {:induction false} WholeIsGreatest(rs: seq<Record>, room: nat)
    ensures var n := Whole(rs, room);
      && n <= |rs| && |RecordsBytes(rs[..n])| <= room
      && (n < |rs| ==> room < |RecordsBytes(rs[..n + 1])|)
  {
    if rs != [] && |RecordBytes(rs[0])| <= room {
      var left := room - |RecordBytes(rs[0])|;
      WholeIsGreatest(rs[1..], left);
      var n := Whole(rs[1..], left);
      assert rs[..n + 1][1..] == rs[1..][..n];
      if n < |rs[1..]| {
        assert rs[..n + 2][1..] == rs[1..][..n + 1];
      }
    } else if rs != [] {
      assert rs[..1][1..] == [];
    }
  }

  // ---------- Reading depends only on what lies ahead ----------

  lemma ReadAtShifts(pre: bytes, f: bytes, p: nat, n: nat)
    ensures ReadAt(pre + f, |pre| + p, n) == ReadAt(f, p, n)
  {
    if p < |f| && p + n <= |f| {
      assert (pre + f)[|pre| + p..|pre| + p + n] == f[p..p + n];
    } else if p < |f| {
      assert (pre + f)[|pre| + p..] == f[p..];
    }
  }

  lemma NextAtShifts(pre: bytes, f: bytes, p: nat)
    ensures NextAt(pre + f, |pre| + p) ==
      (match NextAt(f, p) case Item(r, q) => Item(r, |pre| + q) case other => other)
  {
    ReadAtShifts(pre, f, p, RECORD_HEADER_SIZE);
    var raw := ReadAt(f, p, RECORD_HEADER_SIZE);
    if |raw| == RECORD_HEADER_SIZE {
      ReadAtShifts(pre, f, p + RECORD_HEADER_SIZE, RecordHeaderOf(raw).payloadLength);
    }
  }

  lemma {:induction false} ReadFromShifts(pre: bytes, f: bytes, p: nat)
    ensures ReadFrom(pre + f, |pre| + p) == ReadFrom(f, p)
    decreases if p <= |f| then |f| - p else 0
  {
    hide NextAt;
    NextAtShifts(pre, f, p);
    match NextAt(f, p)
    case Item(_, q) => ReadFromShifts(pre, f, q);
    case End =>
    case Bad(_) =>
  }

  // ---------- One record ----------

  lemma NextIsRecord(r: Record, rest: bytes)
    requires WellSized(r)
    ensures NextAt(RecordBytes(r) + rest, 0) == Item(r, |RecordBytes(r)|)
  {
    var f := RecordBytes(r) + rest;
    assert f[..RECORD_HEADER_SIZE] == RecordHeaderBytes(r.header);
    RecordHeaderRoundTrip(r.header);
    assert f[RECORD_HEADER_SIZE..RECORD_HEADER_SIZE + |r.payload|] == r.payload;
    assert ReadAt(f, RECORD_HEADER_SIZE, |r.payload|) == r.payload;
  }

  lemma NextIsCut(r: Record, room: nat)
    requires WellSized(r) && room < |RecordBytes(r)|
    ensures NextAt(RecordBytes(r)[..room], 0) == if room == 0 then End
      else if room < RECORD_HEADER_SIZE then Bad(TruncatedRecordHeader) else Bad(TruncatedRecordPayload)
  {
    var f := RecordBytes(r)[..room];
    if room >= RECORD_HEADER_SIZE {
      assert f[..RECORD_HEADER_SIZE] == RecordHeaderBytes(r.header);
      RecordHeaderRoundTrip(r.header);
    }
  }

  lemma NothingLeft()
    ensures ReadFrom([], 0) == Contents([], NoError)
  {
    assert ReadAt([], 0, RECORD_HEADER_SIZE) == [];
  }

  lemma ReadsOneMore(rs: seq<Record>, room: nat)
    requires rs != [] && AllWellSized(rs) && |RecordBytes(rs[0])| <= room <= |RecordsBytes(rs)|
    ensures var later := ReadFrom(RecordsBytes(rs[1..])[..room - |RecordBytes(rs[0])|], 0);
      ReadFrom(RecordsBytes(rs)[..room], 0) == Contents([rs[0]] + later.records, later.error)
  {
    hide RecordHeaderBytes, NextAt, RecordBytes;
    var first, rest := RecordBytes(rs[0]), RecordsBytes(rs[1..]);
    var left := room - |first|;
    assert (first + rest)[..room] == first + rest[..left];
    NextIsRecord(rs[0], rest[..left]);
    ReadFromShifts(first, rest[..left], 0);
  }

  lemma {:induction false} CutRecords(rs: seq<Record>, room: nat)
    requires AllWellSized(rs) && room <= |RecordsBytes(rs)|
    ensures var c, n := ReadFrom(RecordsBytes(rs)[..room], 0), Whole(rs, room);
      && n <= |rs| && c.records == rs[..n]
      && (c.error == NoError <==> room == |RecordsBytes(rs[..n])|)
  {
    hide RecordHeaderBytes, NextAt;
    WholeIsGreatest(rs, room);
    if rs != [] {
      var first := RecordBytes(rs[0]);
      if |first| <= room {
        hide ReadFrom, RecordBytes;
        ReadsOneMore(rs, room);
        CutRecords(rs[1..], room - |first|);
        var n := Whole(rs[1..], room - |first|);
        assert rs[..n + 1] == [rs[0]] + rs[1..][..n];
        assert rs[..n + 1][1..] == rs[1..][..n];
      } else {
        assert (first + RecordsBytes(rs[1..]))[..room] == first[..room];
        NextIsCut(rs[0], room);
      }
    } else {
      NothingLeft();
    }
  }

  // ---------- The theorem ----------

  // For every list of records and every cut point of the file that holds them: a cut inside the file
  // header is refused; otherwise the reader returns exactly the records wholly inside the prefix, in
  // order, and reports an error exactly when the cut is not on a record boundary.
  lemma TruncatedFile(h: FileHeader, rs: seq<Record>, cut: nat)
    requires h.version == FORMAT_VERSION && h.headerLength == FILE_HEADER_SIZE && AllWellSized(rs)
    requires cut <= |FileOf(h, rs)|
    ensures var f := FileOf(h, rs)[..cut];
      && (OpenFile(f).error != NoError <==> cut < FILE_HEADER_SIZE)
      && (cut >= FILE_HEADER_SIZE ==>
            var c, n := ReadFrom(f, OpenFile(f).pos), Whole(rs, cut - FILE_HEADER_SIZE);
            && OpenFile(f).header == h
            && n <= |rs| && c.records == rs[..n]
            && (c.error == NoError <==> cut == |FileOf(h, rs[..n])|))
  {
    hide RecordsBytes, FileHeaderBytes, ReadFrom, Whole, FileHeaderOf;
    var f := FileOf(h, rs)[..cut];
    if cut >= FILE_HEADER_SIZE {
      var room := cut - FILE_HEADER_SIZE;
      var body := RecordsBytes(rs)[..room];
      assert f == FileHeaderBytes(h) + body;
      assert ReadAt(f, 0, FILE_HEADER_SIZE) == FileHeaderBytes(h);
      FileHeaderRoundTrip(h);
      ReadFromShifts(FileHeaderBytes(h), body, 0);
      CutRecords(rs, room);
    }
  }

  // A file that ends inside the part of a longer header behind its first 32 bytes opens and reads as a file
  // without records.
  lemma CutInLongHeaderReadsEmpty(f: bytes)
    requires |f| >= FILE_HEADER_SIZE && FileHeaderIsGood(f[..FILE_HEADER_SIZE])
    requires |f| <= FileHeaderOf(f[..FILE_HEADER_SIZE]).headerLength
    ensures OpenFile(f).error == NoError && ReadFrom(f, OpenFile(f).pos) == Contents([], NoError)
  {
    assert f[..FILE_HEADER_SIZE] == ReadAt(f, 0, FILE_HEADER_SIZE);
    assert ReadAt(f, OpenFile(f).pos, RECORD_HEADER_SIZE) == [];
  }

  // The same for files whose header is longer, which readers must skip although the writer never writes one. Now
  // the error is exact only for cuts behind the header: one inside its extension is taken for the end.
  lemma TruncatedExtendedFile(h: FileHeader, extension: bytes, rs: seq<Record>, cut: nat)
    requires h.version == FORMAT_VERSION && h.headerLength == FILE_HEADER_SIZE + |extension| && AllWellSized(rs)
    requires cut <= |FileHeaderBytes(h) + extension + RecordsBytes(rs)|
    ensures var f := (FileHeaderBytes(h) + extension + RecordsBytes(rs))[..cut];
      && (OpenFile(f).error != NoError <==> cut < FILE_HEADER_SIZE)
      && (cut >= FILE_HEADER_SIZE ==>
            var c := ReadFrom(f, OpenFile(f).pos);
            var n := if cut < h.headerLength then 0 else Whole(rs, cut - h.headerLength);
            && n <= |rs| && c.records == rs[..n]
            && (c.error == NoError <==> cut < h.headerLength || cut == h.headerLength + |RecordsBytes(rs[..n])|))
  {
    hide FileHeaderBytes, RecordBytes, FileHeaderOf, ReadFrom;
    var start := FileHeaderBytes(h) + extension;
    var f := (start + RecordsBytes(rs))[..cut];
    FileHeaderRoundTrip(h);
    if cut >= FILE_HEADER_SIZE {
      assert f[..FILE_HEADER_SIZE] == FileHeaderBytes(h) == ReadAt(f, 0, FILE_HEADER_SIZE);
      if cut < h.headerLength {
        CutInLongHeaderReadsEmpty(f);
      } else {
        var body := RecordsBytes(rs)[..cut - h.headerLength];
        assert f == start + body;
        ReadFromShifts(start, body, 0);
        CutRecords(rs, cut - h.headerLength);
      }
    }
  }

  lemma {:induction false} RecordsBytesSnoc(rs: seq<Record>, r: Record)
    ensures RecordsBytes(rs + [r]) == RecordsBytes(rs) + RecordBytes(r)
  {
    hide RecordBytes;
    if rs == [] {
      assert [r][1..] == [];
    } else {
      RecordsBytesSnoc(rs[1..], r);
      assert (rs + [r])[1..] == rs[1..] + [r];
    }
  }

  lemma {:induction false} WholeBeforePartial(rs: seq<Record>, r: Record, extra: nat)
    requires extra < |RecordBytes(r)|
    ensures Whole(rs + [r], |RecordsBytes(rs)| + extra) == |rs|
  {
    if rs == [] {
      assert Whole([r], extra) == 0;
    } else {
      WholeBeforePartial(rs[1..], r, extra);
      assert (rs + [r])[1..] == rs[1..] + [r];
    }
  }

  // ---------- What the writer leaves behind ----------

  // The file is its header, the records wholly written, and, only after a failure, a proper prefix of
  // one more record.
  ghost predicate Faithful(w: WriterState) {
    && AllWellSized(w.log)
    && w.header.version == FORMAT_VERSION && w.header.headerLength == FILE_HEADER_SIZE
    && w.records == |w.log|
    && exists partial, r :: LeavesPartial(w, partial, r)
  }

  ghost predicate LeavesPartial(w: WriterState, partial: bytes, r: Record) {
    && w.file == FileOf(w.header, w.log) + partial
    && WellSized(r) && |partial| < |RecordBytes(r)| && partial == RecordBytes(r)[..|partial|]
    && (!w.failed ==> partial == [])
  }

  lemma OpeningIsFaithful(w: WriterState, created: u64, wireVersion: u16)
    requires !w.isOpen
    ensures var d := Open(w, created, wireVersion);
      && d.ok == d.state.isOpen && d.ok == !d.state.failed
      && (d.ok ==> Faithful(d.state) && d.state.log == [])
  {
    var d := Open(w, created, wireVersion);
    if d.ok {
      var r := Stamped(RecordHeader(0, 0, 0, 0, 0), []);
      assert LeavesPartial(d.state, [], r);
    }
  }

  lemma OneWrite(w: WriterState, data: bytes)
    ensures var a := Append(w, data);
      && w.file <= a.file && a.file[|w.file|..] == data[..|a.file| - |w.file|]
      && (NextIo(w.io) == IoOk ==> a.file == w.file + data)
      && (NextIo(w.io) != IoOk && data != [] ==> |a.file| < |w.file| + |data|)
  {
    var part := Written(NextIo(w.io), data);
    assert (w.file + part)[|w.file|..] == part;
  }

  // What write_record does to the file: it appends the whole record, or on failure a proper prefix.
  lemma WriteAppends(w: WriterState, h: RecordHeader, payload: bytes)
    requires w.isOpen && !w.failed
    ensures var d, r := WriteRecord(w, h, payload), RecordBytes(Stamped(h, payload));
      && w.file <= d.state.file && |d.state.file| - |w.file| <= |r|
      && d.state.file[|w.file|..] == r[..|d.state.file| - |w.file|]
      && (d.ok <==> |d.state.file| - |w.file| == |r|)
      && d.state.header == w.header && d.state.failed == !d.ok
      && d.state.log == (if d.ok then w.log + [Stamped(h, payload)] else w.log)
      && d.state.records == (if d.ok then w.records + 1 else w.records)
  {
    hide RecordHeaderBytes;
    var r := Stamped(h, payload);
    var head := Append(w, RecordHeaderBytes(r.header));
    OneWrite(w, RecordHeaderBytes(r.header));
    if NextIo(w.io) == IoOk && payload != [] {
      OneWrite(head, payload);
    }
  }

  lemma FileOfSnoc(h: FileHeader, rs: seq<Record>, r: Record)
    ensures FileOf(h, rs + [r]) == FileOf(h, rs) + RecordBytes(r)
  {
    hide FileHeaderBytes, RecordsBytes, RecordBytes;
    RecordsBytesSnoc(rs, r);
  }

  // Every write of a payload below 4 GiB keeps the file faithful, and adds a whole record if and only if
  // it succeeds.
  lemma WritingStaysFaithful(w: WriterState, h: RecordHeader, payload: bytes)
    requires Faithful(w) && |payload| < 0x1_0000_0000
    ensures var d := WriteRecord(w, h, payload);
      && Faithful(d.state)
      && (d.ok ==> d.state.log == w.log + [Stamped(h, payload)] && !d.state.failed)
      && (!d.ok ==> d.state.log == w.log && d.state.records == w.records && (w.isOpen ==> d.state.failed))
      && (w.failed || !w.isOpen ==> d.state == w)
  {
    hide RecordHeaderBytes, FileHeaderBytes, RecordsBytes, Append, RecordBytes;
    if w.isOpen && !w.failed {
      hide WriteRecord, FileOf;
      var partial, x :| LeavesPartial(w, partial, x);
      var r := Stamped(h, payload);
      var d := WriteRecord(w, h, payload);
      WriteAppends(w, h, payload);
      assert w.file == FileOf(w.header, w.log);
      var written := d.state.file[|w.file|..];
      assert d.state.file == w.file + written;
      if d.ok {
        FileOfSnoc(w.header, w.log, r);
        assert written == RecordBytes(r);
        assert d.state.file == FileOf(w.header, w.log + [r]) + [];
        assert LeavesPartial(d.state, [], r);
      } else {
        assert LeavesPartial(d.state, written, r);
      }
    }
  }

  // Flushing changes neither file nor log.
  lemma FlushingStaysFaithful(w: WriterState, sync: bool)
    requires Faithful(w)
    ensures var d := Flush(w, sync);
      Faithful(d.state) && d.state.file == w.file && d.state.log == w.log && (w.failed ==> d.state.failed)
  {
    var partial, r :| LeavesPartial(w, partial, r);
    assert LeavesPartial(Flush(w, sync).state, partial, r);
  }

  // Reading a file back gives exactly the records wholly written, whatever failed while writing it.
  lemma ReadingBack(w: WriterState)
    requires Faithful(w)
    ensures var o := OpenFile(w.file);
      && o.error == NoError && o.header == w.header
      && ReadFrom(w.file, o.pos).records == w.log
      && (ReadFrom(w.file, o.pos).error == NoError <==> w.file == FileOf(w.header, w.log))
      && (!w.failed ==> ReadFrom(w.file, o.pos).error == NoError)
  {
    hide RecordBytes, RecordsBytes, FileHeaderBytes, ReadFrom, OpenFile, Whole;
    var partial, r :| LeavesPartial(w, partial, r);
    var rs := w.log + [r];
    RecordsBytesSnoc(w.log, r);
    var cut := |FileOf(w.header, w.log)| + |partial|;
    assert FileOf(w.header, rs)[..cut] == w.file;
    TruncatedFile(w.header, rs, cut);
    WholeBeforePartial(w.log, r, |partial|);
    assert rs[..|w.log|] == w.log;
  }
}
