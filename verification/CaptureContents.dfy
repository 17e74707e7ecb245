// What reading any file at all gives, in bytes: the records it spells, and which error ends the reading
// (tools/receiver/lib/capture_reader.cpp, tools/capture_inspect.py, docs/capture_format.md:26-53).
module CaptureContents {
  import opened ByteOrder
  import opened CaptureFormat
  import opened CaptureReader
  import opened Formats
  import opened CaptureModel
  import opened Truncation

  const RECORD_MARK: bytes := [0x5A, 0x4D, 0x43, 0x52]
  const FILE_MARK: bytes := [0x5A, 0x4D, 0x43, 0x50]

  // g is record r as a file holds it; the reserved bytes 30 and 31 may be anything.
  predicate IsRecord(g: bytes, r: Record) {
    && |g| == 32 + |r.payload| && g[0..4] == RECORD_MARK && g[32..] == r.payload
    && Field(g, 4, 4) == r.header.sourceId && Field(g, 8, 8) == r.header.sequence
    && Field(g, 16, 8) == r.header.timestamp && Field(g, 24, 4) == r.header.payloadLength == |r.payload|
    && Field(g, 28, 2) == r.header.flags
  }

  // g is these records one behind the other and nothing else.
  predicate Spells(g: bytes, rs: seq<Record>) {
    if rs == [] then g == []
    else
      var n := 32 + |rs[0].payload|;
      n <= |g| && IsRecord(g[..n], rs[0]) && Spells(g[n..], rs[1..])
  }

  lemma MagicIff(s: bytes)
    requires |s| == 4
    ensures U32Of(s) == RECORD_MAGIC <==> s == RECORD_MARK
    ensures U32Of(s) == FILE_MAGIC <==> s == FILE_MARK
  {
    hide LittleEndian, FromLittleEndian;
    MagicBytes();
    EncodeOfDecode(s);
    WidthsRoundTrip(0, RECORD_MAGIC, 0);
    WidthsRoundTrip(0, FILE_MAGIC, 0);
  }

  // Which error, if any, ends the reading in front of g.
  function ErrorAt(g: bytes): ReadError {
    if g == [] then NoError
    else if |g| < 32 then TruncatedRecordHeader
    else if g[0..4] != RECORD_MARK then BadRecordMagic
    else if |g| - 32 < Field(g, 24, 4) then TruncatedRecordPayload
    else NoError
  }

  // There is a whole record in front of g.
  predicate HoldsRecord(g: bytes) {
    |g| >= 32 && g[0..4] == RECORD_MARK && |g| - 32 >= Field(g, 24, 4)
  }

  lemma NextInBytes(g: bytes)
    ensures HoldsRecord(g) ==>
      var x, n := NextAt(g, 0), 32 + Field(g, 24, 4); x.Item? && x.pos == n && IsRecord(g[..n], x.record)
    ensures !HoldsRecord(g) ==> NextAt(g, 0) == if g == [] then End else Bad(ErrorAt(g))
  {
    hide FromLittleEndian;
    if |g| >= 32 {
      var raw := g[..32];
      assert ReadAt(g, 0, 32) == raw && raw[0..4] == g[0..4] && raw[24..28] == g[24..28];
      MagicIff(g[0..4]);
      var n := Field(g, 24, 4);
      if HoldsRecord(g) {
        var whole := g[..32 + n];
        assert ReadAt(g, 32, n) == g[32..32 + n] == whole[32..];
        SameSlices(g, 32 + n);
      }
    }
  }

  lemma SameSlices(g: bytes, n: nat)
    requires 32 <= n <= |g|
    ensures var raw, whole := g[..32], g[..n];
      && whole[0..4] == raw[0..4] && whole[4..8] == raw[4..8] && whole[8..16] == raw[8..16]
      && whole[16..24] == raw[16..24] && whole[24..28] == raw[24..28] && whole[28..30] == raw[28..30]
  {
  }

  lemma ReadOn(g: bytes)
    ensures HoldsRecord(g) ==>
      var n, x := 32 + Field(g, 24, 4), NextAt(g, 0);
      var later := ReadFrom(g[n..], 0);
      x.Item? && IsRecord(g[..n], x.record) && ReadFrom(g, 0) == Contents([x.record] + later.records, later.error)
    ensures !HoldsRecord(g) ==> ReadFrom(g, 0) == Contents([], ErrorAt(g))
  {
    hide NextAt, IsRecord, Field;
    NextInBytes(g);
    if HoldsRecord(g) {
      var n := 32 + Field(g, 24, 4);
      ReadFromShifts(g[..n], g[n..], 0);
      assert g == g[..n] + g[n..];
    }
  }

  // For any bytes behind the file header: the reader returns the records they spell, up to where there is no whole
  // record any more, and the error that this calls for: none if and only if nothing is left there.
  lemma {:induction false} AnyBytesRead(g: bytes) returns (n: nat)
    ensures n <= |g| && Spells(g[..n], ReadFrom(g, 0).records)
    ensures !HoldsRecord(g[n..]) && ReadFrom(g, 0).error == ErrorAt(g[n..])
    decreases |g|
  {
    hide IsRecord, ReadFrom, ErrorAt, Field;
    ReadOn(g);
    if HoldsRecord(g) {
      var first := 32 + Field(g, 24, 4);
      var m := AnyBytesRead(g[first..]);
      n := first + m;
      assert g[first..][m..] == g[n..] && g[first..][..m] == g[..n][first..] && g[..n][..first] == g[..first];
      RecordSize(g);
      assert ReadFrom(g, 0).records[1..] == ReadFrom(g[first..], 0).records;
    } else {
      n := 0;
      assert g[0..] == g;
    }
  }

  lemma RecordSize(g: bytes)
    requires HoldsRecord(g) && NextAt(g, 0).Item? && IsRecord(g[..32 + Field(g, 24, 4)], NextAt(g, 0).record)
    ensures |NextAt(g, 0).record.payload| == Field(g, 24, 4)
  {
  }

  // Whole records are read as what they are, and reading goes on behind them.
  lemma {:induction false} SpelledReads(g: bytes, rs: seq<Record>, rest: bytes)
    requires Spells(g, rs)
    ensures var later := ReadFrom(rest, 0); ReadFrom(g + rest, 0) == Contents(rs + later.records, later.error)
    decreases |rs|
  {
    hide ReadFrom, IsRecord;
    if rs == [] {
      assert g + rest == rest && [] + ReadFrom(rest, 0).records == ReadFrom(rest, 0).records;
    } else {
      var n := 32 + |rs[0].payload|;
      SpelledReads(g[n..], rs[1..], rest);
      FirstRecord(g + rest, g[..n], rs[0]);
      assert (g + rest)[..n] == g[..n] && (g + rest)[n..] == g[n..] + rest;
      assert [rs[0]] + (rs[1..] + ReadFrom(rest, 0).records) == rs + ReadFrom(rest, 0).records;
    }
  }

  lemma FirstRecord(g: bytes, head: bytes, r: Record)
    requires |head| <= |g| && g[..|head|] == head && IsRecord(head, r)
    ensures var n := |head|; var later := ReadFrom(g[n..], 0);
      ReadFrom(g, 0) == Contents([r] + later.records, later.error)
  {
    hide ReadFrom, FromLittleEndian;
    var n := |head|;
    SameSlices(g, n);
    assert g[0..4] == head[0..4] && g[24..28] == head[24..28];
    assert HoldsRecord(g) && 32 + Field(g, 24, 4) == n;
    ReadOn(g);
    SameRecord(head, r, NextAt(g, 0).record);
  }

  lemma SameRecord(g: bytes, a: Record, b: Record)
    requires IsRecord(g, a) && IsRecord(g, b)
    ensures a == b
  {
  }

  // Reading ends without an error if and only if the bytes spell records, and then these are what is read.
  lemma NoErrorIff(g: bytes)
    ensures ReadFrom(g, 0).error == NoError <==> exists rs :: Spells(g, rs)
    ensures forall rs :: Spells(g, rs) ==> ReadFrom(g, 0) == Contents(rs, NoError)
  {
    hide ReadFrom, Spells;
    forall rs | Spells(g, rs)
      ensures ReadFrom(g, 0) == Contents(rs, NoError)
    {
      SpelledReads(g, rs, []);
      ReadOn([]);
      assert g + [] == g && rs + [] == rs;
    }
    if ReadFrom(g, 0).error == NoError {
      var n := AnyBytesRead(g);
      hide ErrorAt;
      NoErrorAtEnd(g[n..]);
      assert g[..n] == g;
    }
  }

  lemma NoErrorAtEnd(g: bytes)
    requires !HoldsRecord(g) && ErrorAt(g) == NoError
    ensures g == []
  {
  }

  // Good records followed by 32 bytes or more that do not begin with the mark: the records, and the complaint.
  lemma BadMagicIsReported(g: bytes, rs: seq<Record>, rest: bytes)
    requires Spells(g, rs) && |rest| >= 32 && rest[0..4] != RECORD_MARK
    ensures ReadFrom(g + rest, 0) == Contents(rs, BadRecordMagic)
  {
    hide ReadFrom, Spells;
    SpelledReads(g, rs, rest);
    ReadOn(rest);
    assert rs + [] == rs;
  }

  // ---------- The file header ----------

  // A file can be opened if and only if it begins with 32 bytes that hold the mark, version 1 and a length of at least
  // 32; reading goes on behind that length.
  lemma OpenInBytes(f: bytes)
    ensures |f| < 32 ==> OpenFile(f).error == ShortFileHeader
    ensures |f| >= 32 && (f[0..4] != FILE_MARK || Field(f, 4, 2) != 1 || Field(f, 6, 2) < 32) ==>
              OpenFile(f).error == BadFileHeader
    ensures |f| >= 32 && f[0..4] == FILE_MARK && Field(f, 4, 2) == 1 && Field(f, 6, 2) >= 32 ==>
              var o := OpenFile(f);
              && o.error == NoError && o.pos == Field(f, 6, 2) == o.header.headerLength && o.header.version == 1
              && o.header.created == Field(f, 8, 8) && o.header.wireVersion == Field(f, 16, 2)
  {
    hide FromLittleEndian;
    if |f| >= 32 {
      var raw := ReadAt(f, 0, 32);
      assert raw == f[..32] && raw[0..4] == f[0..4] && raw[4..6] == f[4..6] && raw[6..8] == f[6..8];
      assert raw[8..16] == f[8..16] && raw[16..18] == f[16..18];
      MagicIff(f[0..4]);
    }
  }

  // What both readers return for any file that can be opened depends only on the bytes behind its header.
  lemma RestIsRead(f: bytes, pos: nat)
    ensures ReadFrom(f, pos) == ReadFrom(if pos <= |f| then f[pos..] else [], 0)
  {
    hide ReadFrom;
    if pos <= |f| {
      ReadFromShifts(f[..pos], f[pos..], 0);
      assert f == f[..pos] + f[pos..];
    } else {
      BehindTheEnd(f, pos);
    }
  }

  lemma BehindTheEnd(f: bytes, pos: nat)
    requires pos > |f|
    ensures ReadFrom(f, pos) == ReadFrom([], 0) == Contents([], NoError)
  {
    assert ReadAt(f, pos, 32) == [] == ReadAt([], 0, 32);
  }
}
