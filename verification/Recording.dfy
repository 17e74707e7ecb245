// The recording state machine over whole runs of the receiver: what is in the capture file and how it is
// accounted for (tools/receiver/receiver.cpp:117-192, 258-284, 381-387, docs/capture_format.md).
module Recording {
  import opened ByteOrder
  import opened WireProtocol
  import opened Reassembly
  import opened SequenceTracker
  import opened CaptureFormat
  import opened CaptureReader
  import opened CaptureModel
  import opened CommandText
  import opened Truncation
  import opened ReceiverModel

  // The completed messages that neither have a record nor count as skipped.
  function Unrecorded(r: ReceiverState): int {
    r.stats.messages - r.writer.records - r.stats.recordsSkipped
  }

  ghost predicate WriterSound(w: WriterState) {
    if w.isOpen then Faithful(w) else w.log == [] && w.records == 0
  }

  ghost predicate Accounted(r: ReceiverState) {
    && WriterSound(r.writer)
    && r.stats.messages == |r.completions|
    && (r.recording ==> r.writer.isOpen)
    && 0 <= Unrecorded(r) <= 1
    && (Unrecorded(r) == 1 ==> r.writer.failed)
  }

  // ---------- Every event keeps the account ----------

  lemma CompletedFits(limits: Limits, t: Table, f: Fragment, now: u64)
    requires ValidTable(limits, t)
    ensures |Add(limits, t, f, now).out.data| < 0x1_0000_0000
  {
    if f.header.fragmentCount != 1 && f.header.messageLength <= limits.maxMessageLength {
      WithEntryIsValid(limits, t, f, now);
    }
  }

  function RecordOf(m: CompletedMessage): Record {
    Stamped(RecordHeaderFor(m), m.data)
  }

  // A completed message is written if recording is on, the writer is healthy and the write succeeds;
  // it is skipped if recording is off or the writer has failed; otherwise this is the failing write.
  lemma CompletionIsAccounted(r: ReceiverState, m: CompletedMessage)
    requires Accounted(r) && |m.data| < 0x1_0000_0000
    ensures var s := OnComplete(r, m);
      && Accounted(s)
      && s.writer.log == (if Armed(r) && !s.writer.failed then r.writer.log + [RecordOf(m)] else r.writer.log)
      && s.stats.recordsSkipped == r.stats.recordsSkipped + (if Armed(r) then 0 else 1)
      && Unrecorded(s) == Unrecorded(r) + (if Armed(r) && s.writer.failed then 1 else 0)
      && (!Armed(r) ==> s.writer == r.writer)
  {
    hide WriteRecord, Faithful;
    if Armed(r) {
      WritingStaysFaithful(r.writer, RecordHeaderFor(m), m.data);
      WritingCounts(r.writer, RecordHeaderFor(m), m.data);
    }
  }

  lemma WritingCounts(w: WriterState, h: RecordHeader, payload: bytes)
    requires w.isOpen && !w.failed
    ensures var d := WriteRecord(w, h, payload);
      d.state.isOpen && d.state.records == if d.ok then w.records + 1 else w.records
  {
  }

  lemma AddOutcomeIsAccounted(r: ReceiverState, h: Header, a: AddOutcome)
    requires Accounted(r) && |a.out.data| < 0x1_0000_0000
    ensures var s := Account(r, h, a);
      && Accounted(s)
      && s.writer.log == (if a.verdict == Complete && Armed(r) && !s.writer.failed
                          then r.writer.log + [RecordOf(a.out)] else r.writer.log)
      && s.stats.recordsSkipped == r.stats.recordsSkipped + (if a.verdict == Complete && !Armed(r) then 1 else 0)
      && Unrecorded(s) == Unrecorded(r) + (if a.verdict == Complete && Armed(r) && s.writer.failed then 1 else 0)
      && (!Armed(r) ==> s.writer == r.writer)
  {
    hide OnComplete, WriterSound;
    if a.verdict == Complete { CompletionIsAccounted(r, a.out); }
  }

  lemma ObservationIsAccounted(r: ReceiverState, table: Table, h: Header, length: nat)
    requires Accounted(r)
    ensures var counted := r.(table := table, stats := CountDatagram(r.stats, h.sourceId, length));
      && Accounted(counted) && Accounted(ObserveMessage(counted, h))
      && Unrecorded(counted) == Unrecorded(ObserveMessage(counted, h)) == Unrecorded(r)
      && ObserveMessage(counted, h).stats.recordsSkipped == r.stats.recordsSkipped
  {
    hide WriterSound, ObserveOne;
  }

  // Between r and s a message was completed while recording was off or the writer failed.
  function Skips(r: ReceiverState, s: ReceiverState): nat {
    if |s.completions| > |r.completions| && !Armed(r) then 1 else 0
  }

  // Between r and s a message was completed while recording was on and the writer healthy, and writing its
  // record failed.
  function FailsToWrite(r: ReceiverState, s: ReceiverState): nat {
    if |s.completions| > |r.completions| && Armed(r) && s.writer.failed then 1 else 0
  }

  lemma DatagramIsAccounted(limits: Limits, r: ReceiverState, d: bytes, now: u64)
    requires ValidTable(limits, r.table) && Accounted(r)
    ensures var s := HandleDatagram(limits, r, d, now);
      && Accounted(s)
      && s.writer.log == (if |s.completions| > |r.completions| && Armed(r) && !s.writer.failed
                          then r.writer.log + [RecordOf(s.completions[|r.completions|])] else r.writer.log)
      && s.stats.recordsSkipped == r.stats.recordsSkipped + Skips(r, s)
      && Unrecorded(s) == Unrecorded(r) + FailsToWrite(r, s)
      && (r.writer.failed ==> s.writer == r.writer)
  {
    hide Reassembly.Add, WriterSound, ObserveOne, Account;
    if Verdict(d) == Accepted {
      var f := FragmentOf(d);
      var a := Add(limits, r.table, f, now);
      CompletedFits(limits, r.table, f, now);
      ObservationIsAccounted(r, a.table, f.header, |d|);
      var counted := r.(table := a.table, stats := CountDatagram(r.stats, f.header.sourceId, |d|));
      AddOutcomeIsAccounted(if a.newMessage then ObserveMessage(counted, f.header) else counted, f.header, a);
    }
  }

  lemma OpeningIsAccounted(w: WriterState, created: u64)
    requires !w.isOpen && !w.failed && WriterSound(w)
    ensures var d := Open(w, created, VERSION);
      WriterSound(d.state) && d.state.log == [] && d.state.records == 0 && d.ok == d.state.isOpen == !d.state.failed
  {
    OpeningIsFaithful(w, created, VERSION);
  }

  lemma FlushingIsAccounted(w: WriterState, sync: bool)
    requires w.isOpen && WriterSound(w)
    ensures var d := Flush(w, sync);
      && WriterSound(d.state) && d.state.isOpen && d.state.log == w.log && d.state.records == w.records
      && d.state.file == w.file && (w.failed ==> d.state.failed)
  {
    FlushingStaysFaithful(w, sync);
  }

  lemma CommandIsAccounted(r: ReceiverState, c: Command, created: u64)
    requires Accounted(r)
    ensures var s := HandleCommand(r, c, created).state;
      && Accounted(s) && s.writer.log == r.writer.log
      && s.stats.recordsSkipped == r.stats.recordsSkipped && Unrecorded(s) == Unrecorded(r)
      && (r.writer.failed ==> s.writer.failed && s.writer.file == r.writer.file)
  {
    hide WriterSound, Flush, SetRecording;
    var counted := r.(stats := r.stats.(commands := r.stats.commands + 1));
    if r.writer.isOpen { FlushingIsAccounted(r.writer, true); }
    SettingIsAccounted(counted, true, created);
    SettingIsAccounted(counted, false, created);
  }

  lemma SettingIsAccounted(r: ReceiverState, enabled: bool, created: u64)
    requires Accounted(r)
    ensures var s := SetRecording(r, enabled, created).state;
      && Accounted(s) && s.writer.log == r.writer.log
      && s.stats.recordsSkipped == r.stats.recordsSkipped && Unrecorded(s) == Unrecorded(r)
      && (r.writer.failed ==> s.writer.failed && s.writer.file == r.writer.file)
  {
    hide WriterSound, Open, Flush;
    if r.writer.isOpen {
      FlushingIsAccounted(r.writer, true);
    } else {
      assert r.writer.log == [] && r.writer.records == 0 by { NotOpen(r.writer); }
      if !r.writer.failed { OpeningIsAccounted(r.writer, created); }
    }
  }

  lemma NotOpen(w: WriterState)
    requires WriterSound(w) && !w.isOpen
    ensures w.log == [] && w.records == 0
  {
  }

  lemma {:induction false} CountIncompleteTouchesOnlyThat(s: Stats, expired: seq<ExpiredMessage>)
    ensures var t := CountIncomplete(s, expired);
      t.incomplete == s.incomplete + |expired| && t.(incomplete := s.incomplete, sources := s.sources) == s
  {
    if expired != [] {
      CountIncompleteTouchesOnlyThat(s, expired[..|expired| - 1]);
    }
  }

  lemma EventIsAccounted(limits: Limits, r: ReceiverState, e: Event)
    requires ValidTable(limits, r.table) && Accounted(r)
    ensures var s := HandleEvent(limits, r, e);
      && Accounted(s)
      && s.writer.log == (if |s.completions| > |r.completions| && Armed(r) && !s.writer.failed
                          then r.writer.log + [RecordOf(s.completions[|r.completions|])] else r.writer.log)
      && s.stats.recordsSkipped == r.stats.recordsSkipped + Skips(r, s)
      && Unrecorded(s) == Unrecorded(r) + FailsToWrite(r, s)
      && (r.writer.failed ==> s.writer.failed && s.writer.file == r.writer.file)
  {
    hide HandleDatagram, HandleCommand, SetRecording, WriterSound, Flush, Expire;
    match e
    case DatagramArrives(d, now) => DatagramIsAccounted(limits, r, d, now);
    case CommandArrives(c, created) => CommandIsAccounted(r, c, created);
    case RecordingSet(enabled, created) => SettingIsAccounted(r, enabled, created);
    case SweepDue(now) => CountIncompleteTouchesOnlyThat(r.stats, Expire(limits, r.table, now).expired);
    case FlushDue(sync) =>
      if r.writer.isOpen { FlushingIsAccounted(r.writer, sync); }
  }

  // ---------- Whole runs ----------

  // The messages completed while recording was on and the writer healthy, and stayed healthy.
  function RecordedDuring(limits: Limits, r: ReceiverState, events: seq<Event>): seq<Record>
    requires ValidTable(limits, r.table)
  {
    if events == [] then []
    else
      var earlier := events[..|events| - 1];
      var before, after := HandleAll(limits, r, earlier), HandleAll(limits, r, events);
      RecordedDuring(limits, r, earlier) +
      if |after.completions| > |before.completions| && Armed(before) && !after.writer.failed
      then [RecordOf(after.completions[|before.completions|])] else []
  }

  // How many completed messages were skipped, and how many of their writes failed, event by event.
  function SkippedDuring(limits: Limits, r: ReceiverState, events: seq<Event>): nat
    requires ValidTable(limits, r.table)
  {
    if events == [] then 0
    else
      var earlier := events[..|events| - 1];
      SkippedDuring(limits, r, earlier) + Skips(HandleAll(limits, r, earlier), HandleAll(limits, r, events))
  }

  function FailedWritesDuring(limits: Limits, r: ReceiverState, events: seq<Event>): nat
    requires ValidTable(limits, r.table)
  {
    if events == [] then 0
    else
      var earlier := events[..|events| - 1];
      FailedWritesDuring(limits, r, earlier) + FailsToWrite(HandleAll(limits, r, earlier), HandleAll(limits, r, events))
  }

  lemma {:induction false} RunIsAccounted(limits: Limits, io: seq<IoEvent>, events: seq<Event>)
    ensures var start, r := NewReceiver(io), HandleAll(limits, NewReceiver(io), events);
      && Accounted(r) && r.writer.log == RecordedDuring(limits, start, events)
      && r.stats.recordsSkipped == SkippedDuring(limits, start, events)
      && Unrecorded(r) == FailedWritesDuring(limits, start, events)
    decreases |events|
  {
    hide HandleEvent, Accounted, Skips, FailsToWrite;
    if events == [] {
      NewIsAccounted(io);
    } else {
      var earlier := events[..|events| - 1];
      RunIsAccounted(limits, io, earlier);
      EventIsAccounted(limits, HandleAll(limits, NewReceiver(io), earlier), events[|events| - 1]);
    }
  }

  lemma NewIsAccounted(io: seq<IoEvent>)
    ensures Accounted(NewReceiver(io))
  {
  }

  // For every run: completed messages = records written + messages skipped + failed writes, each counted from
  // the events, and at most one write fails; and reading the capture file back gives, in completion order,
  // exactly the messages completed while recording was on and the writer healthy.
  lemma CaptureHoldsWhatWasRecorded(limits: Limits, io: seq<IoEvent>, events: seq<Event>)
    ensures var start, r := NewReceiver(io), HandleAll(limits, NewReceiver(io), events);
      var recorded := RecordedDuring(limits, start, events);
      && r.stats.messages == |r.completions|
      && |r.completions| ==
          |recorded| + SkippedDuring(limits, start, events) + FailedWritesDuring(limits, start, events)
      && FailedWritesDuring(limits, start, events) <= 1
      && r.writer.records == |recorded| && r.stats.recordsSkipped == SkippedDuring(limits, start, events)
      && (r.writer.isOpen ==>
            && OpenFile(r.writer.file).error == NoError
            && var c := ReadFrom(r.writer.file, OpenFile(r.writer.file).pos);
               && c.records == recorded
               && (!r.writer.failed ==> c.error == NoError))
  {
    hide HandleAll, RecordedDuring, ReadFrom, OpenFile, SkippedDuring, FailedWritesDuring;
    RunIsAccounted(limits, io, events);
    var r := HandleAll(limits, NewReceiver(io), events);
    if r.writer.isOpen { ReadingBack(r.writer); }
  }

  // Shutting down and destroying the receiver closes the file and changes nothing in it. So once the program has
  // ended, the file reads back as the messages recorded, and the exit code is 0 unless closing failed; nothing
  // is left for the destructor to do.
  lemma ClosedFileHoldsWhatWasRecorded(limits: Limits, io: seq<IoEvent>, events: seq<Event>, now: u64)
    ensures var start, r := NewReceiver(io), HandleAll(limits, NewReceiver(io), events);
      var a := ShutDown(limits, r, now);
      var s := a.state;
      && !s.writer.isOpen && Destroy(s) == s
      && s.writer.file == r.writer.file && s.writer.records == r.writer.records
      && s.completions == r.completions && s.recording == r.recording
      && |s.completions| ==
          s.writer.records + s.stats.recordsSkipped + FailedWritesDuring(limits, start, events)
      && (a.ok <==> !r.writer.isOpen || ClosesWell(r.writer.io))
      && (s.writer.failed <==> r.writer.failed || !a.ok)
      && s.stats.writeErrors == r.stats.writeErrors + (if a.ok then 0 else 1)
      && (r.writer.isOpen ==>
            && OpenFile(s.writer.file).error == NoError
            && var c := ReadFrom(s.writer.file, OpenFile(s.writer.file).pos);
               && c.records == RecordedDuring(limits, start, events)
               && (!s.writer.failed ==> c.error == NoError))
  {
    hide HandleAll, RecordedDuring, ReadFrom, OpenFile, SkippedDuring, FailedWritesDuring, ClosesWell, Expire;
    CaptureHoldsWhatWasRecorded(limits, io, events);
    var r := HandleAll(limits, NewReceiver(io), events);
    CountIncompleteTouchesOnlyThat(r.stats, Expire(limits, r.table, now).expired);
  }

  // Once the writer has failed, nothing is ever appended again, whatever arrives.
  lemma {:induction false} NothingAfterFailure(limits: Limits, r: ReceiverState, events: seq<Event>)
    requires ValidTable(limits, r.table) && Accounted(r) && r.writer.failed
    ensures var s := HandleAll(limits, r, events);
      Accounted(s) && s.writer.failed && s.writer.file == r.writer.file && s.writer.log == r.writer.log
    decreases |events|
  {
    hide HandleEvent, Accounted;
    if events != [] {
      var earlier := events[..|events| - 1];
      NothingAfterFailure(limits, r, earlier);
      EventIsAccounted(limits, HandleAll(limits, r, earlier), events[|events| - 1]);
    }
  }
}
