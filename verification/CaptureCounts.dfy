// What records_written and bytes_written count (tools/receiver/lib/capture_writer.cpp).
module CaptureCounts {
  import opened ByteOrder
  import opened WireProtocol
  import opened Reassembly
  import opened CaptureFormat
  import opened CaptureModel
  import opened CommandText
  import opened ReceiverModel

  // How many bytes these records take up in a file.
  function SizeOf(rs: seq<Record>): nat {
    if rs == [] then 0 else SizeOf(rs[..|rs| - 1]) + 32 + |rs[|rs| - 1].payload|
  }

  // The counters are those of the file header and the records wholly written; if no call failed that is the whole file.
  predicate Counted(w: WriterState) {
    w.records == |w.log| && w.byteCount == 32 + SizeOf(w.log) && (!w.failed ==> w.byteCount == |w.file|)
  }

  // No file was opened, or the last attempt failed.
  predicate NothingCounted(w: WriterState) {
    !w.isOpen && w.records == 0 && w.byteCount == 0
  }

  predicate CountsWhole(w: WriterState) {
    Counted(w) || NothingCounted(w)
  }

  // ---------- Calls of the writer ----------

  // What is asked of a writer that cannot do it is refused, and only opening twice makes it fail; closing twice is
  // fine.
  lemma MisuseIsRefused(w: WriterState, created: u64, v: u16, h: RecordHeader, payload: bytes, sync: bool)
    ensures w.isOpen ==> Open(w, created, v) == Done(w.(failed := true), false)
    ensures !w.isOpen || w.failed ==> WriteRecord(w, h, payload) == Done(w, false)
    ensures !w.isOpen ==> Flush(w, sync) == Done(w, false) && Close(w) == Done(w, true)
  {
  }

  lemma OpeningCounts(w: WriterState, created: u64, v: u16)
    requires !w.isOpen
    ensures var d := Open(w, created, v);
      if d.ok then Counted(d.state) && d.state.isOpen && !d.state.failed && d.state.log == []
      else NothingCounted(d.state) && d.state.failed
  {
  }

  lemma WritingCounts(w: WriterState, h: RecordHeader, payload: bytes)
    requires Counted(w)
    ensures Counted(WriteRecord(w, h, payload).state)
  {
    var d := WriteRecord(w, h, payload);
    if d.ok {
      assert d.state.log[..|d.state.log| - 1] == w.log;
    }
  }

  lemma FlushingCounts(w: WriterState, sync: bool)
    requires CountsWhole(w)
    ensures CountsWhole(Flush(w, sync).state)
  {
  }

  lemma ClosingCounts(w: WriterState)
    requires CountsWhole(w)
    ensures CountsWhole(Close(w).state)
  {
  }

  // ---------- Runs of the receiver ----------

  lemma CompletionCounts(r: ReceiverState, m: CompletedMessage)
    requires CountsWhole(r.writer)
    ensures CountsWhole(OnComplete(r, m).writer)
  {
    hide WriteRecord, Counted, CountComplete, CountRecord;
    if Armed(r) {
      WritingCounts(r.writer, RecordHeaderFor(m), m.data);
    }
  }

  lemma DatagramCounts(limits: Limits, r: ReceiverState, d: bytes, now: u64)
    requires ValidTable(limits, r.table) && CountsWhole(r.writer)
    ensures CountsWhole(HandleDatagram(limits, r, d, now).writer)
  {
    hide Reassembly.Add, OnComplete, CountsWhole, CountObservation, CountDatagram, Verdict;
    if Verdict(d) == Accepted {
      var f := FragmentOf(d);
      var a := Reassembly.Add(limits, r.table, f, now);
      var counted := r.(table := a.table, stats := CountDatagram(r.stats, f.header.sourceId, |d|));
      var seen := if a.newMessage then ObserveMessage(counted, f.header) else counted;
      assert seen.writer == r.writer;
      CompletionCounts(seen, a.out);
    }
  }

  lemma SettingCounts(r: ReceiverState, enabled: bool, created: u64)
    requires CountsWhole(r.writer)
    ensures CountsWhole(SetRecording(r, enabled, created).state.writer)
  {
    hide Open, Flush, Counted;
    FlushingCounts(r.writer, true);
    if !r.writer.isOpen {
      OpeningCounts(r.writer, created, VERSION);
    }
  }

  lemma {:induction false} EventsKeepCounts(limits: Limits, r: ReceiverState, events: seq<Event>)
    requires ValidTable(limits, r.table) && CountsWhole(r.writer)
    ensures CountsWhole(HandleAll(limits, r, events).writer)
    ensures CountsWhole(CloseCapture(HandleAll(limits, r, events)).state.writer)
    decreases |events|
  {
    hide CountsWhole, SetRecording, Flush, Close, Reassembly.Expire, HandleDatagram, CountIncomplete;
    if events != [] {
      var earlier := HandleAll(limits, r, events[..|events| - 1]);
      EventsKeepCounts(limits, r, events[..|events| - 1]);
      match events[|events| - 1]
      case DatagramArrives(d, now) => DatagramCounts(limits, earlier, d, now);
      case CommandArrives(c, created) => CommandCounts(earlier, c, created);
      case RecordingSet(enabled, created) => SettingCounts(earlier, enabled, created);
      case SweepDue(now) =>
      case FlushDue(sync) => FlushingCounts(earlier.writer, sync);
    }
    ClosingCounts(HandleAll(limits, r, events).writer);
  }

  lemma CommandCounts(r: ReceiverState, c: Command, created: u64)
    requires CountsWhole(r.writer)
    ensures CountsWhole(HandleCommand(r, c, created).state.writer)
  {
    hide CountsWhole, SetRecording, Flush;
    var counted := r.(stats := r.stats.(commands := r.stats.commands + 1));
    SettingCounts(counted, true, created);
    SettingCounts(counted, false, created);
    FlushingCounts(r.writer, true);
  }

  // Whatever happens to a receiver, before and after it closes its file, the counters are those of the file header and
  // the records wholly written.
  lemma CountersAreTheFile(limits: Limits, io: seq<IoEvent>, events: seq<Event>)
    ensures ValidTable(limits, NewReceiver(io).table)
    ensures CountsWhole(HandleAll(limits, NewReceiver(io), events).writer)
    ensures CountsWhole(CloseCapture(HandleAll(limits, NewReceiver(io), events)).state.writer)
  {
    EventsKeepCounts(limits, NewReceiver(io), events);
  }
}
