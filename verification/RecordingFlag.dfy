// When recording is on: which texts turn it on and off, what each call of set_recording does to the flag whatever the
// library answers, and what that means for the file over whole runs (tools/receiver/receiver.cpp:117-192, 258-284).
module RecordingFlag {
  import opened ByteOrder
  import opened WireProtocol
  import opened Reassembly
  import opened SequenceTracker
  import opened CaptureFormat
  import opened CaptureModel
  import opened CommandText
  import opened ReceiverModel

  // ---------- Commands ----------

  // The texts of each command, normalised.
  lemma CommandTexts(norm: string)
    ensures CommandOf(norm) == RecordOn <==>
      norm in {"record on", "record start", "record enable", "record true", "record 1"}
    ensures CommandOf(norm) == RecordOff <==>
      norm in {"record off", "record stop", "record disable", "record false", "record 0"}
    ensures CommandOf(norm) == RecordToggle <==> norm == "record toggle"
    ensures CommandOf(norm) == FlushFile <==> norm == "flush"
    ensures CommandOf(norm) == ReportStats <==> norm in {"stats", "status"}
  {
  }

  // Opening a capture file succeeds if and only if it can be created and its header written.
  predicate CanOpen(w: WriterState) {
    NextIo(w.io) == IoOk && NextIo(RestIo(w.io)) == IoOk
  }

  // Turning recording off always does, whatever its flush answers.
  lemma OffIsOff(r: ReceiverState, created: u64)
    ensures var a := SetRecording(r, false, created);
      && !a.state.recording && a.ok
      && a.state.writer.file == r.writer.file && a.state.writer.records == r.writer.records
      && a.state.writer.isOpen == r.writer.isOpen
      && (!r.recording || !r.writer.isOpen ==> a.state == r.(recording := false))
      && a.state.stats == r.stats.(writeErrors := a.state.stats.writeErrors)
      && a.state.stats.writeErrors ==
         r.stats.writeErrors + (if r.recording && r.writer.isOpen && !FlushesWell(r.writer.io) then 1 else 0)
  {
  }

  // fflush and fsync succeed.
  predicate FlushesWell(io: seq<IoEvent>) {
    NextIo(io) == IoOk && NextIo(RestIo(io)) == IoOk
  }

  // Turning it on succeeds if and only if the writer is healthy, and open or can be opened. A call that does not
  // succeed leaves the flag as it was.
  lemma OnIsOnIff(r: ReceiverState, created: u64)
    ensures var a := SetRecording(r, true, created);
      && (a.ok <==> !r.writer.failed && (r.writer.isOpen || CanOpen(r.writer)))
      && (a.ok ==> a.state.recording && a.state.writer.isOpen && !a.state.writer.failed)
      && (!a.ok ==> a.state.recording == r.recording && a.state.writer.failed)
      && a.state.stats == r.stats
      && (r.writer.failed || r.writer.isOpen ==> a.state.writer == r.writer)
      && (a.ok && !r.writer.isOpen ==>
            && a.state.writer.file == FileHeaderBytes(FileHeader(1, 32, created, 1))
            && a.state.writer.records == 0 && a.state.writer.byteCount == 32)
  {
    assert forall b: bytes :: [] + b == b;
  }

  // A toggle is the opposite of what is; a flush, a report and an unknown command leave the flag alone, and all are
  // counted.
  lemma CommandsAct(r: ReceiverState, c: Command, created: u64)
    ensures var a, counted := HandleCommand(r, c, created), r.(stats := r.stats.(commands := r.stats.commands + 1));
      && (c == RecordOn ==> a == SetRecording(counted, true, created))
      && (c == RecordOff ==> a == SetRecording(counted, false, created))
      && (c == RecordToggle ==> a == SetRecording(counted, !r.recording, created))
      && (c == ReportStats ==> a == Answer(counted, true))
      && (c == UnknownCommand ==> a == Answer(counted, false))
      && a.state.stats.commands == r.stats.commands + 1
      && (c == FlushFile ==>
            && a.state.recording == r.recording && a.state.writer.file == r.writer.file
            && (a.ok <==> !r.writer.isOpen || FlushesWell(r.writer.io))
            && a.state.writer.failed == (r.writer.failed || !a.ok)
            && a.state.stats == counted.stats.(writeErrors := r.stats.writeErrors + if a.ok then 0 else 1))
  {
  }

  // The periodic flush: of a healthy open writer only, and only its failure is seen.
  lemma FlushTickActs(r: ReceiverState, sync: bool)
    ensures var s := FlushTick(r, sync);
      var tried := r.writer.isOpen && !r.writer.failed;
      var ok := NextIo(r.writer.io) == IoOk && (sync ==> NextIo(RestIo(r.writer.io)) == IoOk);
      && (!tried ==> s == r)
      && (tried ==> s.writer == r.writer.(failed := !ok, io := s.writer.io) && s.recording == r.recording)
      && (tried && ok ==> s.writer.io == if sync then RestIo(RestIo(r.writer.io)) else RestIo(r.writer.io))
      && s.stats == r.stats.(writeErrors := r.stats.writeErrors + if tried && !ok then 1 else 0)
  {
  }

  // ---------- Off, over runs ----------

  predicate TurnsOn(e: Event) {
    (e.CommandArrives? && (e.c == RecordOn || e.c == RecordToggle)) || (e.RecordingSet? && e.enabled)
  }

  predicate TurnsOff(e: Event) {
    (e.CommandArrives? && (e.c == RecordOff || e.c == RecordToggle)) || (e.RecordingSet? && !e.enabled)
  }

  lemma CompletionIsSkipped(r: ReceiverState, m: CompletedMessage)
    requires !r.recording
    ensures var s := OnComplete(r, m);
      !s.recording && s.writer == r.writer && s.stats.recordsSkipped == r.stats.recordsSkipped + 1
  {
  }

  // Counting and observing a datagram touch neither the writer nor what was completed or skipped.
  predicate SameRecording(r: ReceiverState, s: ReceiverState) {
    && s.recording == r.recording && s.writer == r.writer && s.completions == r.completions
    && s.stats.recordsSkipped == r.stats.recordsSkipped && s.stats.writeErrors == r.stats.writeErrors
  }

  lemma ArrivalKeepsRecording(r: ReceiverState, table: Table, h: Header, length: nat)
    ensures var counted := r.(table := table, stats := CountDatagram(r.stats, h.sourceId, length));
      SameRecording(r, counted) && SameRecording(r, ObserveMessage(counted, h))
  {
    hide ObserveOne;
  }

  lemma OutcomeKeepsRecording(r: ReceiverState, h: Header, a: AddOutcome)
    requires a.verdict != Complete
    ensures SameRecording(r, Account(r, h, a))
  {
  }

  lemma DatagramIsNotRecorded(limits: Limits, r: ReceiverState, d: bytes, now: u64)
    requires ValidTable(limits, r.table) && !r.recording
    ensures var s := HandleDatagram(limits, r, d, now);
      && !s.recording && s.writer == r.writer
      && s.stats.recordsSkipped - r.stats.recordsSkipped == |s.completions| - |r.completions|
  {
    hide Reassembly.Add, ObserveMessage, CountDatagram, OnComplete;
    if Verdict(d) == Accepted {
      var f := FragmentOf(d);
      var a := Add(limits, r.table, f, now);
      var counted := r.(table := a.table, stats := CountDatagram(r.stats, f.header.sourceId, |d|));
      var seen := if a.newMessage then ObserveMessage(counted, f.header) else counted;
      ArrivalKeepsRecording(r, a.table, f.header, |d|);
      if a.verdict == Complete {
        CompletionIsSkipped(seen, a.out);
      } else {
        OutcomeKeepsRecording(seen, f.header, a);
      }
    }
  }

  lemma {:induction false} IncompleteSkipsNothing(s: Stats, expired: seq<ExpiredMessage>)
    ensures CountIncomplete(s, expired).recordsSkipped == s.recordsSkipped
    ensures CountIncomplete(s, expired).writeErrors == s.writeErrors
  {
    if expired != [] {
      IncompleteSkipsNothing(s, expired[..|expired| - 1]);
    }
  }

  lemma EventIsNotRecorded(limits: Limits, r: ReceiverState, e: Event)
    requires ValidTable(limits, r.table) && !r.recording && !TurnsOn(e)
    ensures var s := HandleEvent(limits, r, e);
      && !s.recording && s.writer.file == r.writer.file && s.writer.records == r.writer.records
      && s.stats.recordsSkipped - r.stats.recordsSkipped == |s.completions| - |r.completions|
  {
    hide HandleDatagram, Expire, CountIncomplete;
    match e
    case DatagramArrives(d, now) => DatagramIsNotRecorded(limits, r, d, now);
    case SweepDue(now) => IncompleteSkipsNothing(r.stats, Expire(limits, r.table, now).expired);
    case CommandArrives(_, _) =>
    case RecordingSet(_, _) =>
    case FlushDue(_) =>
  }

  // Once recording is off, nothing is recorded before something turns it on: the file stays as it is, and every message
  // completed is skipped.
  lemma {:induction false} OffSilences(limits: Limits, r: ReceiverState, events: seq<Event>)
    requires ValidTable(limits, r.table) && !r.recording && forall i :: 0 <= i < |events| ==> !TurnsOn(events[i])
    ensures var s := HandleAll(limits, r, events);
      && !s.recording && s.writer.file == r.writer.file && s.writer.records == r.writer.records
      && s.stats.recordsSkipped - r.stats.recordsSkipped == |s.completions| - |r.completions|
    decreases |events|
  {
    hide HandleEvent, TurnsOn;
    if events != [] {
      var earlier, e := events[..|events| - 1], events[|events| - 1];
      assert forall i :: 0 <= i < |earlier| ==> earlier[i] == events[i];
      OffSilences(limits, r, earlier);
      EventIsNotRecorded(limits, HandleAll(limits, r, earlier), e);
    }
  }

  // ---------- On, over runs ----------

  // The record of a message: its source, sequence number, timestamp, length and flags, and its bytes.
  predicate IsRecordOf(x: Record, m: CompletedMessage) {
    && x.header.sourceId == m.sourceId && x.header.sequence == m.sequence && x.header.timestamp == m.timestamp
    && x.header.payloadLength == |m.data| % 0x1_0000_0000 && x.header.flags == m.flags && x.payload == m.data
  }

  predicate AreRecordsOf(xs: seq<Record>, ms: seq<CompletedMessage>) {
    |xs| == |ms| && forall i :: 0 <= i < |xs| ==> IsRecordOf(xs[i], ms[i])
  }

  // Recording is on, the writer is open and healthy, and the library will not fail.
  predicate WellOn(r: ReceiverState) {
    r.recording && r.writer.isOpen && !r.writer.failed && forall i :: 0 <= i < |r.writer.io| ==> r.writer.io[i] == IoOk
  }

  // Between r and s exactly the messages completed were recorded.
  predicate RecordsAll(r: ReceiverState, s: ReceiverState) {
    && WellOn(s) && |r.completions| <= |s.completions| && |r.writer.log| <= |s.writer.log|
    && s.writer.log[..|r.writer.log|] == r.writer.log
    && AreRecordsOf(s.writer.log[|r.writer.log|..], s.completions[|r.completions|..])
    && s.stats.recordsSkipped == r.stats.recordsSkipped && s.stats.writeErrors == r.stats.writeErrors
  }

  lemma CompletionIsRecorded(r: ReceiverState, m: CompletedMessage)
    requires WellOn(r)
    ensures RecordsAll(r, OnComplete(r, m)) && OnComplete(r, m).completions == r.completions + [m]
  {
    hide RecordHeaderBytes;
    var s := OnComplete(r, m);
    assert s.completions[|r.completions|..] == [m];
    assert s.writer.log == r.writer.log + [Stamped(RecordHeaderFor(m), m.data)];
  }

  lemma DatagramIsRecorded(limits: Limits, r: ReceiverState, d: bytes, now: u64)
    requires ValidTable(limits, r.table) && WellOn(r)
    ensures RecordsAll(r, HandleDatagram(limits, r, d, now))
  {
    hide Reassembly.Add, ObserveMessage, CountDatagram, OnComplete, RecordsAll, WellOn, Account;
    if Verdict(d) == Accepted {
      var f := FragmentOf(d);
      var a := Add(limits, r.table, f, now);
      var counted := r.(table := a.table, stats := CountDatagram(r.stats, f.header.sourceId, |d|));
      var seen := if a.newMessage then ObserveMessage(counted, f.header) else counted;
      ArrivalKeepsRecording(r, a.table, f.header, |d|);
      OutcomeIsRecorded(r, seen, f.header, a);
    } else {
      RejectionRecordsNothing(r, d);
    }
  }

  lemma RejectionRecordsNothing(r: ReceiverState, d: bytes)
    requires Verdict(d) != Accepted && WellOn(r)
    ensures RecordsAll(r, r.(stats := Reject(r.stats, d)))
  {
    NothingRecorded(r);
  }

  lemma OutcomeIsRecorded(r: ReceiverState, seen: ReceiverState, h: Header, a: AddOutcome)
    requires WellOn(r) && SameRecording(r, seen)
    ensures RecordsAll(r, Account(seen, h, a))
  {
    hide OnComplete;
    NothingRecorded(r);
    if a.verdict == Complete {
      CompletionIsRecorded(seen, a.out);
    } else {
      OutcomeKeepsRecording(seen, h, a);
    }
  }

  lemma NothingRecorded(r: ReceiverState)
    ensures r.writer.log[|r.writer.log|..] == [] && r.completions[|r.completions|..] == []
  {
  }

  lemma EventIsRecorded(limits: Limits, r: ReceiverState, e: Event)
    requires ValidTable(limits, r.table) && WellOn(r) && !TurnsOff(e)
    ensures RecordsAll(r, HandleEvent(limits, r, e))
  {
    hide HandleDatagram, Expire, CountIncomplete;
    NothingRecorded(r);
    match e
    case DatagramArrives(d, now) => DatagramIsRecorded(limits, r, d, now);
    case SweepDue(now) => IncompleteSkipsNothing(r.stats, Expire(limits, r.table, now).expired);
    case CommandArrives(_, _) =>
    case RecordingSet(_, _) =>
    case FlushDue(_) =>
  }

  lemma RecordsAllTwice(a: ReceiverState, b: ReceiverState, c: ReceiverState)
    requires RecordsAll(a, b) && RecordsAll(b, c) && b.completions <= c.completions
    ensures RecordsAll(a, c)
  {
    hide IsRecordOf, WellOn;
    var la, lb := |a.writer.log|, |b.writer.log|;
    var ma, mb := |a.completions|, |b.completions|;
    assert c.writer.log[la..] == b.writer.log[la..] + c.writer.log[lb..];
    assert c.completions[ma..] == b.completions[ma..] + c.completions[mb..];
    assert c.writer.log[..la] == a.writer.log;
  }

  // Once it is on, every message completed before something turns it off is recorded, in order, while the library does
  // not fail.
  lemma {:induction false} OnRecords(limits: Limits, r: ReceiverState, events: seq<Event>)
    requires ValidTable(limits, r.table) && WellOn(r) && forall i :: 0 <= i < |events| ==> !TurnsOff(events[i])
    ensures RecordsAll(r, HandleAll(limits, r, events))
    decreases |events|
  {
    hide HandleEvent, TurnsOff, RecordsAll, WellOn;
    if events == [] {
      NoneRecorded(r);
    } else {
      var earlier, e := events[..|events| - 1], events[|events| - 1];
      assert forall i :: 0 <= i < |earlier| ==> earlier[i] == events[i];
      OnRecords(limits, r, earlier);
      var m := HandleAll(limits, r, earlier);
      StillOn(r, m);
      EventIsRecorded(limits, m, e);
      CompletionsGrow(limits, m, e);
      RecordsAllTwice(r, m, HandleEvent(limits, m, e));
    }
  }

  lemma NoneRecorded(r: ReceiverState)
    requires WellOn(r)
    ensures RecordsAll(r, r)
  {
  }

  lemma StillOn(r: ReceiverState, s: ReceiverState)
    requires RecordsAll(r, s)
    ensures WellOn(s)
  {
  }

  lemma CompletionsGrow(limits: Limits, r: ReceiverState, e: Event)
    requires ValidTable(limits, r.table)
    ensures r.completions <= HandleEvent(limits, r, e).completions
  {
    hide Accept, HandleCommand, SetRecording, FlushTick, Expire;
  }
}
