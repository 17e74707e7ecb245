// What the receiver does with datagrams, commands and timer ticks (tools/receiver/receiver.cpp).
// The class that works in place is in Receiver.dfy.
module ReceiverModel {
  import opened ByteOrder
  import opened WireProtocol
  import opened Reassembly
  import opened SequenceTracker
  import opened CaptureFormat
  import opened CaptureModel
  import opened CommandText

  datatype SourceCounts = SourceCounts(
    datagrams: nat, messages: nat, payloadBytes: nat, gapEvents: nat, missing: nat, outOfOrder: nat,
    incomplete: nat, duplicates: nat, malformed: nat, recordsWritten: nat, lastSequence: u64, lastTimestamp: u64)

  const NO_COUNTS := SourceCounts(0, 0, 0, 0, 0, 0, 0, 0, 0, 0, 0, 0)

  datatype Reason = Rejected(error: ParseError) | FragmentInconsistent

  datatype Stats = Stats(
    datagrams: nat, datagramBytes: nat, messages: nat, payloadBytes: nat, malformed: nat, incomplete: nat,
    duplicates: nat, writeErrors: nat, recordsSkipped: nat, commands: nat,
    malformedByReason: map<Reason, nat>, sources: map<u32, SourceCounts>)

  const NO_STATS := Stats(0, 0, 0, 0, 0, 0, 0, 0, 0, 0, map[], map[])

  // completions lists every message handed to on_complete, in order.
  datatype ReceiverState = ReceiverState(
    table: Table,
    tracker: map<u32, SequenceState>,
    writer: WriterState,
    recording: bool,
    stats: Stats,
    completions: seq<CompletedMessage>)

  function NewReceiver(io: seq<IoEvent>): ReceiverState {
    ReceiverState(EMPTY_TABLE, map[], NewWriter(io), false, NO_STATS, [])
  }

  function CountsOf(s: Stats, id: u32): SourceCounts {
    if id in s.sources then s.sources[id] else NO_COUNTS
  }

  function WithCounts(s: Stats, id: u32, c: SourceCounts): Stats {
    s.(sources := s.sources[id := c])
  }

  // ---------- Malformed datagrams ----------

  function NoteReason(s: Stats, reason: Reason): Stats {
    var n := if reason in s.malformedByReason then s.malformedByReason[reason] else 0;
    s.(malformed := s.malformed + 1, malformedByReason := s.malformedByReason[reason := n + 1])
  }

  function BlameSource(s: Stats, id: u32): Stats {
    WithCounts(s, id, CountsOf(s, id).(malformed := CountsOf(s, id).malformed + 1))
  }

  // A datagram that validation rejects is blamed on its source if its header was read.
  function Reject(s: Stats, d: bytes): Stats
    requires Verdict(d) != Accepted
  {
    var noted := NoteReason(s, Rejected(Verdict(d)));
    if HeaderWasRead(Verdict(d)) then BlameSource(noted, DecodeHeader(d).sourceId) else noted
  }

  // ---------- Complete messages ----------

  function CountComplete(s: Stats, m: CompletedMessage): Stats {
    var c := CountsOf(s, m.sourceId);
    WithCounts(s.(messages := s.messages + 1, payloadBytes := s.payloadBytes + |m.data|), m.sourceId,
               c.(messages := c.messages + 1, payloadBytes := c.payloadBytes + |m.data|,
                  lastSequence := m.sequence, lastTimestamp := m.timestamp))
  }

  function CountRecord(s: Stats, id: u32): Stats {
    WithCounts(s, id, CountsOf(s, id).(recordsWritten := CountsOf(s, id).recordsWritten + 1))
  }

  function RecordHeaderFor(m: CompletedMessage): RecordHeader {
    RecordHeader(m.sourceId, m.sequence, m.timestamp, 0, m.flags)
  }

  // Recording is on and the writer can write.
  predicate Armed(r: ReceiverState) {
    r.recording && r.writer.isOpen && !r.writer.failed
  }

  function OnComplete(r: ReceiverState, m: CompletedMessage): (s: ReceiverState)
    ensures s.table == r.table && s.tracker == r.tracker && s.completions == r.completions + [m]
  {
    var counted := r.(stats := CountComplete(r.stats, m), completions := r.completions + [m]);
    if !Armed(r) then counted.(stats := counted.stats.(recordsSkipped := counted.stats.recordsSkipped + 1))
    else
      var d := WriteRecord(r.writer, RecordHeaderFor(m), m.data);
      if d.ok then counted.(writer := d.state, stats := CountRecord(counted.stats, m.sourceId))
      else counted.(writer := d.state, recording := false,
                    stats := counted.stats.(writeErrors := counted.stats.writeErrors + 1))
  }

  // ---------- Datagrams ----------

  function CountDatagram(s: Stats, id: u32, length: nat): Stats {
    WithCounts(s.(datagrams := s.datagrams + 1, datagramBytes := s.datagramBytes + length), id,
               CountsOf(s, id).(datagrams := CountsOf(s, id).datagrams + 1))
  }

  function CountObservation(s: Stats, id: u32, o: Observation): Stats {
    var c := CountsOf(s, id);
    match o.outcome
    case Gap => WithCounts(s, id, c.(gapEvents := c.gapEvents + 1, missing := c.missing + o.missing))
    case OutOfOrder => WithCounts(s, id, c.(outOfOrder := c.outOfOrder + 1))
    case First => s
    case InOrder => s
  }

  function CountDuplicate(s: Stats, id: u32): Stats {
    WithCounts(s.(duplicates := s.duplicates + 1), id, CountsOf(s, id).(duplicates := CountsOf(s, id).duplicates + 1))
  }

  function FragmentOf(d: bytes): Fragment
    requires Verdict(d) == Accepted
  {
    ParsedDatagram(DecodeHeader(d), d[HEADER_SIZE..])
  }

  // The sequence tracker sees a message when its first fragment arrives.
  function ObserveMessage(r: ReceiverState, h: Header): ReceiverState {
    var o := ObserveOne(StateOf(r.tracker, h.sourceId), h.sequence);
    r.(tracker := r.tracker[h.sourceId := o.state], stats := CountObservation(r.stats, h.sourceId, o))
  }

  function Account(r: ReceiverState, h: Header, a: AddOutcome): (s: ReceiverState)
    ensures s.table == r.table && s.tracker == r.tracker
    ensures s.completions == if a.verdict == Complete then r.completions + [a.out] else r.completions
  {
    match a.verdict
    case Complete => OnComplete(r, a.out)
    case Incomplete => r
    case Duplicate => r.(stats := CountDuplicate(r.stats, h.sourceId))
    case Malformed => r.(stats := BlameSource(NoteReason(r.stats, FragmentInconsistent), h.sourceId))
  }

  function Accept(limits: Limits, r: ReceiverState, f: Fragment, length: nat, now: u64): (s: ReceiverState)
    requires ValidTable(limits, r.table)
    ensures var a := Add(limits, r.table, f, now);
      s.table == a.table && s.completions == if a.verdict == Complete then r.completions + [a.out] else r.completions
  {
    var a := Add(limits, r.table, f, now);
    var counted := r.(table := a.table, stats := CountDatagram(r.stats, f.header.sourceId, length));
    Account(if a.newMessage then ObserveMessage(counted, f.header) else counted, f.header, a)
  }

  function HandleDatagram(limits: Limits, r: ReceiverState, d: bytes, now: u64): ReceiverState
    requires ValidTable(limits, r.table)
  {
    if Verdict(d) != Accepted then r.(stats := Reject(r.stats, d))
    else Accept(limits, r, FragmentOf(d), |d|, now)
  }

  // ---------- Recording ----------

  datatype Answer = Answer(state: ReceiverState, ok: bool)

  function CountWriteError(s: Stats): Stats {
    s.(writeErrors := s.writeErrors + 1)
  }

  // created is the time of day that a new capture file is stamped with.
  function SetRecording(r: ReceiverState, enabled: bool, created: u64): (a: Answer)
    ensures a.state.table == r.table && a.state.tracker == r.tracker && a.state.completions == r.completions
  {
    if enabled then
      if r.writer.failed then Answer(r, false)
      else if r.writer.isOpen then Answer(r.(recording := true), true)
      else
        var d := Open(r.writer, created, VERSION);
        if d.ok then Answer(r.(writer := d.state, recording := true), true) else Answer(r.(writer := d.state), false)
    else if r.recording && r.writer.isOpen then
      var d := Flush(r.writer, true);
      Answer(r.(writer := d.state, recording := false,
                stats := if d.ok then r.stats else CountWriteError(r.stats)), true)
    else Answer(r.(recording := false), true)
  }

  function HandleCommand(r: ReceiverState, c: Command, created: u64): (a: Answer)
    ensures a.state.table == r.table && a.state.tracker == r.tracker && a.state.completions == r.completions
  {
    var counted := r.(stats := r.stats.(commands := r.stats.commands + 1));
    match c
    case RecordOn => SetRecording(counted, true, created)
    case RecordOff => SetRecording(counted, false, created)
    case RecordToggle => SetRecording(counted, !counted.recording, created)
    case FlushFile =>
      if !r.writer.isOpen then Answer(counted, true)
      else
        var d := Flush(r.writer, true);
        if d.ok then Answer(counted.(writer := d.state), true)
        else Answer(counted.(writer := d.state, stats := CountWriteError(counted.stats)), false)
    case ReportStats => Answer(counted, true)
    case UnknownCommand => Answer(counted, false)
  }

  // ---------- Timers ----------

  function CountIncomplete(s: Stats, expired: seq<ExpiredMessage>): Stats {
    if expired == [] then s
    else
      var before := CountIncomplete(s, expired[..|expired| - 1]);
      var id := expired[|expired| - 1].sourceId;
      WithCounts(before.(incomplete := before.incomplete + 1), id,
                 CountsOf(before, id).(incomplete := CountsOf(before, id).incomplete + 1))
  }

  function Sweep(limits: Limits, r: ReceiverState, now: u64): ReceiverState {
    var e := Expire(limits, r.table, now);
    r.(table := e.table, stats := CountIncomplete(r.stats, e.expired))
  }

  // The periodic flush of poll_once.
  function FlushTick(r: ReceiverState, sync: bool): (s: ReceiverState)
    ensures s.table == r.table && s.tracker == r.tracker && s.completions == r.completions
  {
    if !r.writer.isOpen || r.writer.failed then r
    else
      var d := Flush(r.writer, sync);
      r.(writer := d.state, stats := if d.ok then r.stats else CountWriteError(r.stats))
  }

  // ---------- Events ----------

  // RecordingSet is a call of set_recording itself, as init makes it if recording is to be on from the start.
  datatype Event =
    | DatagramArrives(d: bytes, now: u64)
    | CommandArrives(c: Command, created: u64)
    | RecordingSet(enabled: bool, created: u64)
    | SweepDue(now: u64)
    | FlushDue(sync: bool)

  function HandleEvent(limits: Limits, r: ReceiverState, e: Event): ReceiverState
    requires ValidTable(limits, r.table)
  {
    match e
    case DatagramArrives(d, now) => HandleDatagram(limits, r, d, now)
    case CommandArrives(c, created) => HandleCommand(r, c, created).state
    case RecordingSet(enabled, created) => SetRecording(r, enabled, created).state
    case SweepDue(now) => Sweep(limits, r, now)
    case FlushDue(sync) => FlushTick(r, sync)
  }

  lemma EventKeepsTableValid(limits: Limits, r: ReceiverState, e: Event)
    requires ValidTable(limits, r.table)
    ensures ValidTable(limits, HandleEvent(limits, r, e).table)
  {
    hide Accept, HandleCommand, SetRecording, FlushTick;
    match e
    case DatagramArrives(d, now) =>
      if Verdict(d) == Accepted { AddKeepsValid(limits, r.table, FragmentOf(d), now); }
    case SweepDue(now) => ExpireKeepsValid(limits, r.table, now);
    case CommandArrives(_, _) =>
    case RecordingSet(_, _) =>
    case FlushDue(_) =>
  }

  // A run of the receiver from state r.
  function HandleAll(limits: Limits, r: ReceiverState, events: seq<Event>): (s: ReceiverState)
    requires ValidTable(limits, r.table)
    ensures ValidTable(limits, s.table)
  {
    if events == [] then r
    else
      var before := HandleAll(limits, r, events[..|events| - 1]);
      EventKeepsTableValid(limits, before, events[|events| - 1]);
      HandleEvent(limits, before, events[|events| - 1])
  }

  // ---------- The end ----------

  function CloseCapture(r: ReceiverState): Answer {
    if !r.writer.isOpen then Answer(r, true)
    else
      var d := Close(r.writer);
      Answer(r.(writer := d.state, stats := if d.ok then r.stats else CountWriteError(r.stats)), d.ok)
  }

  // What run does once shutdown is requested: a last sweep, then it closes the capture file. The exit code is 0 or 1.
  function ShutDown(limits: Limits, r: ReceiverState, now: u64): Answer
    requires ValidTable(limits, r.table)
  {
    CloseCapture(Sweep(limits, r, now))
  }

  // The destructor closes a file that is still open, and counts nothing.
  function Destroy(r: ReceiverState): ReceiverState {
    r.(writer := Close(r.writer).state)
  }

  // All that can happen to a receiver: events in the loop of run, the end of run, and its destruction.
  datatype Action = InLoop(e: Event) | ShutdownRequested(now: u64) | Destruction

  function Act(limits: Limits, r: ReceiverState, a: Action): ReceiverState
    requires ValidTable(limits, r.table)
  {
    match a
    case InLoop(e) => HandleEvent(limits, r, e)
    case ShutdownRequested(now) => ShutDown(limits, r, now).state
    case Destruction => Destroy(r)
  }
}
