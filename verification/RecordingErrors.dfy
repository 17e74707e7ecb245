// What errors of the capture file do: which of them turn recording off, and which are counted
// (tools/receiver/receiver.cpp:34-36, 117-192, 258-284, 381-387, 408-420, docs/capture_format.md:68-69).
module RecordingErrors {
  import opened ByteOrder
  import opened WireProtocol
  import opened Reassembly
  import opened SequenceTracker
  import opened CaptureModel
  import opened CommandText
  import opened ReceiverModel

  predicate IsFlush(a: Action) {
    a.InLoop? && (a.e.FlushDue? || (a.e.CommandArrives? && a.e.c == FlushFile))
  }

  // The documentation says that any open, write, flush or close error disables recording. Some do not: when
  // an action makes the writer of an armed receiver fail, the flag stays on if and only if the action is a periodic
  // flush, the flush command, or closing the file at shutdown or in the destructor, whichever library call failed.
  lemma RecordingStaysOnIff(limits: Limits, r: ReceiverState, a: Action)
    requires ValidTable(limits, r.table) && Armed(r) && Act(limits, r, a).writer.failed
    ensures Act(limits, r, a).recording <==> IsFlush(a) || a.ShutdownRequested? || a.Destruction?
  {
    hide HandleDatagram, Expire, CountIncomplete, ClosesWell;
    if a.InLoop? && a.e.DatagramArrives? { DatagramErrors(limits, r, a.e.d, a.e.now); }
  }

  // The documentation says that any such error is counted in write_errors. When an action makes a healthy writer
  // fail, it is counted if and only if the file was open and the action is not the destructor: neither an error
  // while opening the file is counted, nor one of closing it in the destructor.
  lemma ErrorIsCountedIff(limits: Limits, r: ReceiverState, a: Action)
    requires ValidTable(limits, r.table) && !r.writer.failed && Act(limits, r, a).writer.failed
    ensures Act(limits, r, a).stats.writeErrors ==
            r.stats.writeErrors + if r.writer.isOpen && !a.Destruction? then 1 else 0
  {
    match a
    case InLoop(e) => EventErrors(limits, r, e);
    case ShutdownRequested(now) =>
      hide Expire, CountIncomplete;
      IncompleteIsNoError(r.stats, Expire(limits, r.table, now).expired);
    case Destruction =>
  }

  lemma EventErrors(limits: Limits, r: ReceiverState, e: Event)
    requires ValidTable(limits, r.table) && !r.writer.failed && HandleEvent(limits, r, e).writer.failed
    ensures HandleEvent(limits, r, e).stats.writeErrors == r.stats.writeErrors + if r.writer.isOpen then 1 else 0
  {
    hide HandleDatagram, HandleCommand, SetRecording, Expire, CountIncomplete;
    match e
    case DatagramArrives(d, now) => DatagramErrors(limits, r, d, now);
    case CommandArrives(c, created) => CommandErrors(r, c, created);
    case RecordingSet(enabled, created) => SettingErrors(r, enabled, created);
    case SweepDue(_) =>
    case FlushDue(_) =>
  }

  lemma {:induction false} IncompleteIsNoError(s: Stats, expired: seq<ExpiredMessage>)
    ensures CountIncomplete(s, expired).writeErrors == s.writeErrors
  {
    if expired != [] {
      IncompleteIsNoError(s, expired[..|expired| - 1]);
    }
  }

  lemma SettingErrors(r: ReceiverState, enabled: bool, created: u64)
    requires !r.writer.failed && SetRecording(r, enabled, created).state.writer.failed
    ensures var s := SetRecording(r, enabled, created).state;
      s.stats.writeErrors == r.stats.writeErrors + if r.writer.isOpen then 1 else 0
  {
  }

  lemma CommandErrors(r: ReceiverState, c: Command, created: u64)
    requires !r.writer.failed && HandleCommand(r, c, created).state.writer.failed
    ensures var s := HandleCommand(r, c, created).state;
      s.stats.writeErrors == r.stats.writeErrors + if r.writer.isOpen then 1 else 0
  {
  }

  lemma DatagramErrors(limits: Limits, r: ReceiverState, d: bytes, now: u64)
    requires ValidTable(limits, r.table)
    ensures var s := HandleDatagram(limits, r, d, now);
      && s.stats.writeErrors == r.stats.writeErrors + (if !r.writer.failed && s.writer.failed then 1 else 0)
      && (s.writer.failed ==> r.writer.failed || r.writer.isOpen)
      && (Armed(r) && s.writer.failed ==> !s.recording)
  {
    hide Reassembly.Add, CountDatagram, ObserveMessage, Account;
    if Verdict(d) == Accepted {
      var f := FragmentOf(d);
      var a := Add(limits, r.table, f, now);
      var counted := r.(table := a.table, stats := CountDatagram(r.stats, f.header.sourceId, |d|));
      CountingIsNoError(r.stats, f.header.sourceId, |d|);
      ObservingIsNoError(counted, f.header);
      AccountErrors(if a.newMessage then ObserveMessage(counted, f.header) else counted, f.header, a);
    }
  }

  lemma CountingIsNoError(s: Stats, id: u32, length: nat)
    ensures CountDatagram(s, id, length).writeErrors == s.writeErrors
  {
  }

  lemma ObservingIsNoError(r: ReceiverState, h: Header)
    ensures var s := ObserveMessage(r, h);
      s.stats.writeErrors == r.stats.writeErrors && s.writer == r.writer && s.recording == r.recording
  {
    hide ObserveOne;
  }

  lemma AccountErrors(r: ReceiverState, h: Header, a: AddOutcome)
    ensures var s := Account(r, h, a);
      && s.stats.writeErrors == r.stats.writeErrors + (if !r.writer.failed && s.writer.failed then 1 else 0)
      && (s.writer.failed ==> r.writer.failed || r.writer.isOpen)
      && (Armed(r) && s.writer.failed ==> !s.recording)
  {
    hide OnComplete;
    if a.verdict == Complete { CompletionErrors(r, a.out); }
  }

  lemma CompletionErrors(r: ReceiverState, m: CompletedMessage)
    ensures var s := OnComplete(r, m);
      && s.stats.writeErrors == r.stats.writeErrors + (if !r.writer.failed && s.writer.failed then 1 else 0)
      && (s.writer.failed ==> r.writer.failed || r.writer.isOpen)
      && (Armed(r) && s.writer.failed ==> !s.recording)
  {
  }

  // Whatever made the writer fail, no later message is recorded; each is counted as skipped.
  lemma FailedWriterSkips(r: ReceiverState, m: CompletedMessage)
    requires r.writer.failed
    ensures OnComplete(r, m).writer == r.writer && OnComplete(r, m).stats.recordsSkipped == r.stats.recordsSkipped + 1
  {
    hide CountComplete;
    CountingSkipsNothing(r.stats, m);
  }

  lemma CountingSkipsNothing(s: Stats, m: CompletedMessage)
    ensures CountComplete(s, m).recordsSkipped == s.recordsSkipped
  {
  }

  // The state of a receiver that was told to record and then did a.
  function AfterRecordOn(limits: Limits, io: seq<IoEvent>, a: Action): ReceiverState {
    var r := HandleAll(limits, NewReceiver(io), [CommandArrives(RecordOn, 0)]);
    Act(limits, r, a)
  }

  lemma RecordOnArms(limits: Limits, io: seq<IoEvent>, a: Action)
    requires |io| >= 2 && io[0] == IoOk && io[1] == IoOk
    ensures var r := HandleEvent(limits, NewReceiver(io), CommandArrives(RecordOn, 0));
      && Armed(r) && ValidTable(limits, r.table) && r.writer.io == io[2..] && r.stats.writeErrors == 0
      && r.table == EMPTY_TABLE && AfterRecordOn(limits, io, a) == Act(limits, r, a)
  {
    hide HandleEvent, Act;
    var on := CommandArrives(RecordOn, 0);
    assert [on][..0] == [];
    assert HandleAll(limits, NewReceiver(io), [on]) == HandleEvent(limits, NewReceiver(io), on);
    OpeningArms(limits, io);
  }

  lemma OpeningArms(limits: Limits, io: seq<IoEvent>)
    requires |io| >= 2 && io[0] == IoOk && io[1] == IoOk
    ensures var r := HandleEvent(limits, NewReceiver(io), CommandArrives(RecordOn, 0));
      Armed(r) && r.table == EMPTY_TABLE && r.writer.io == io[2..] && r.stats.writeErrors == 0
  {
    assert io[1..][1..] == io[2..];
  }

  // The writer failed, the flag is as said, and write_errors is n.
  predicate Ended(r: ReceiverState, recording: bool, n: nat) {
    r.writer.failed && r.recording == recording && r.stats.writeErrors == n
  }

  // Runs for each case: a failing fflush or fsync of the periodic flush or of the flush command leaves the flag on, a
  // failing flush of "record off" does not, and a failing open is not counted.
  lemma ErrorWitnesses(limits: Limits)
    ensures Ended(AfterRecordOn(limits, [IoOk, IoOk, IoFailed(0)], InLoop(FlushDue(false))), true, 1)
    ensures Ended(AfterRecordOn(limits, [IoOk, IoOk, IoOk, IoFailed(0)], InLoop(FlushDue(true))), true, 1)
    ensures Ended(AfterRecordOn(limits, [IoOk, IoOk, IoFailed(0)], InLoop(CommandArrives(FlushFile, 0))), true, 1)
    ensures Ended(AfterRecordOn(limits, [IoOk, IoOk, IoFailed(0)], InLoop(CommandArrives(RecordOff, 0))), false, 1)
    ensures Ended(HandleEvent(limits, NewReceiver([IoFailed(0)]), CommandArrives(RecordOn, 0)), false, 0)
  {
    hide AfterRecordOn;
    RecordOnArms(limits, [IoOk, IoOk, IoFailed(0)], InLoop(FlushDue(false)));
    RecordOnArms(limits, [IoOk, IoOk, IoOk, IoFailed(0)], InLoop(FlushDue(true)));
    RecordOnArms(limits, [IoOk, IoOk, IoFailed(0)], InLoop(CommandArrives(FlushFile, 0)));
    RecordOnArms(limits, [IoOk, IoOk, IoFailed(0)], InLoop(CommandArrives(RecordOff, 0)));
  }

  // Whichever of fflush, fsync and fclose fails at shutdown, recording is still on in the final statistics, beside
  // the failed capture; in the destructor the error is not even counted. An fsync that fails because the file does
  // not support it is no failure.
  lemma ClosingWitnesses(limits: Limits, n: nat)
    requires 2 <= n <= 4
    ensures Ended(AfterRecordOn(limits, FailingAt(n), ShutdownRequested(0)), true, 1)
    ensures Ended(AfterRecordOn(limits, FailingAt(n), Destruction), true, 0)
    ensures !AfterRecordOn(limits, [IoOk, IoOk, IoOk, IoUnsupported], ShutdownRequested(0)).writer.failed
  {
    hide AfterRecordOn;
    RecordOnArms(limits, FailingAt(n), ShutdownRequested(0));
    RecordOnArms(limits, FailingAt(n), Destruction);
    RecordOnArms(limits, [IoOk, IoOk, IoOk, IoUnsupported], ShutdownRequested(0));
  }

  // The first n calls succeed and the next one fails.
  function FailingAt(n: nat): (io: seq<IoEvent>)
    ensures |io| == n + 1 && io[n] == IoFailed(0) && forall i :: 0 <= i < n ==> io[i] == IoOk
  {
    seq(n, _ => IoOk) + [IoFailed(0)]
  }
}
