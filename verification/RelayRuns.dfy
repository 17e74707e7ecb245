// End-to-end fidelity: what reaches on_complete, and what can be read from the capture file, for every run
// of the relay (src/bridge/bridge.cpp, tools/receiver/receiver.cpp, docs/wire_protocol.md).
module RelayRuns {
  import opened ByteOrder
  import opened WireProtocol
  import opened Fragmentation
  import opened BridgeModel
  import opened BridgeRuns
  import opened Reassembly
  import opened ReassemblyRuns
  import opened CaptureFormat
  import opened CaptureReader
  import opened CaptureModel
  import opened Truncation
  import opened ReceiverModel
  import opened Recording
  import opened Relay

  // ---------- The invariant ----------

  ghost predicate AllTransmitted(c: Capacity, log: seq<Transmission>, ms: seq<CompletedMessage>) {
    forall i :: 0 <= i < |ms| ==> WasTransmitted(c, log, ms[i])
  }

  ghost predicate IsRecordOfOne(r: Record, ms: seq<CompletedMessage>) {
    exists i :: 0 <= i < |ms| && r == RecordOf(ms[i])
  }

  ghost predicate AllRecorded(rs: seq<Record>, ms: seq<CompletedMessage>) {
    forall i :: 0 <= i < |rs| ==> IsRecordOfOne(rs[i], ms)
  }

  ghost predicate Honest(s: Setup, w: World) {
    && WellShaped(s, w) && Sound(s.cfg, w.bridge)
    && TableFollows(s.cfg.capacity, w.bridge.log, w.receiver.table)
    && AllTransmitted(s.cfg.capacity, w.bridge.log, w.receiver.completions)
    && Accounted(w.receiver)
    && AllRecorded(w.receiver.writer.log, w.receiver.completions)
  }

  lemma StartIsHonest(s: Setup)
    ensures Honest(s, Start(s))
  {
    OfNoSource(s.cfg, s.recvs, s.sends);
    NewIsAccounted(s.io);
  }

  // The bridge only adds to what was transmitted.
  lemma BridgeStaysHonest(s: Setup, w: World, b: BridgeState)
    requires Honest(s, w) && Sound(s.cfg, b) && w.bridge.log <= b.log
    ensures Honest(s, w.(bridge := b))
  {
    hide Sound, Accounted, AllRecorded, ValidTable;
    var c := s.cfg.capacity;
    forall k | k in w.receiver.table.entries
      ensures HasOrigin(c, b.log, k, w.receiver.table.entries[k])
    {
      OriginsPersist(c, w.bridge.log, b.log, k, w.receiver.table.entries[k], NO_MESSAGE);
    }
    forall i | 0 <= i < |w.receiver.completions|
      ensures WasTransmitted(c, b.log, w.receiver.completions[i])
    {
      OriginsPersist(c, w.bridge.log, b.log, Key(0, 0), NewEntry(DEFAULT_HEADER, 0), w.receiver.completions[i]);
    }
    SoundIsShaped(s.cfg, b);
  }

  lemma SoundIsShaped(cfg: BridgeConfig, b: BridgeState)
    requires Sound(cfg, b)
    ensures Shaped(cfg, b)
  {
  }

  lemma PublishingKeepsSound(cfg: BridgeConfig, b: BridgeState, a: Arrivals)
    requires Sound(cfg, b) && |a| == |cfg.ids|
    ensures Sound(cfg, Publish(b, a))
  {
  }

  lemma RecordsOfLonger(rs: seq<Record>, ms: seq<CompletedMessage>, longer: seq<CompletedMessage>)
    requires AllRecorded(rs, ms) && ms <= longer
    ensures AllRecorded(rs, longer)
  {
    forall i | 0 <= i < |rs|
      ensures IsRecordOfOne(rs[i], longer)
    {
      assert IsRecordOfOne(rs[i], ms);
      var j :| 0 <= j < |ms| && rs[i] == RecordOf(ms[j]);
      assert longer[j] == ms[j];
    }
  }

  // A datagram on the wire is a fragment that some logged transmission sent.
  lemma DeliveredIsCarried(cfg: BridgeConfig, b: BridgeState, d: bytes) returns (j: nat, i: nat)
    requires Sound(cfg, b) && d in b.wire
    ensures Verdict(d) == Accepted && j < |b.log| && Carries(cfg.capacity, b.log[j], i, FragmentOf(d))
  {
    hide Emitted;
    j, i := WireComesFromLog(cfg.capacity, b.log, d);
    DatagramIsAccepted(b.log[j].message, cfg.capacity, i);
  }

  lemma DeliveryFollows(s: Setup, b: BridgeState, r: ReceiverState, d: bytes, now: u64)
    requires Sound(s.cfg, b) && d in b.wire && |b.log| <= TWO_TO_THE_64 && ValidTable(s.limits, r.table)
    requires TableFollows(s.cfg.capacity, b.log, r.table) && AllTransmitted(s.cfg.capacity, b.log, r.completions)
    ensures var r' := HandleDatagram(s.limits, r, d, now);
      && TableFollows(s.cfg.capacity, b.log, r'.table) && AllTransmitted(s.cfg.capacity, b.log, r'.completions)
      && r.completions <= r'.completions
  {
    hide TableFollows, Delivers, Accept, Reassembly.Add, Emitted;
    var c := s.cfg.capacity;
    var j, i := DeliveredIsCarried(s.cfg, b, d);
    var f := FragmentOf(d);
    AddFollows(c, s.limits, b.log, r.table, j, i, f, now);
  }

  lemma DeliveryRecords(limits: Limits, r: ReceiverState, d: bytes, now: u64)
    requires ValidTable(limits, r.table) && Accounted(r) && AllRecorded(r.writer.log, r.completions)
    requires r.completions <= HandleDatagram(limits, r, d, now).completions
    ensures var r' := HandleDatagram(limits, r, d, now);
      Accounted(r') && AllRecorded(r'.writer.log, r'.completions)
  {
    hide Accounted, HandleDatagram, AllRecorded;
    DatagramIsAccounted(limits, r, d, now);
    var r' := HandleDatagram(limits, r, d, now);
    RecordsOfLonger(r.writer.log, r.completions, r'.completions);
    AddingRecord(r.writer.log, r'.writer.log, r.completions, r'.completions);
  }

  lemma DeliveryStaysHonest(s: Setup, w: World, d: bytes, now: u64)
    requires Honest(s, w) && d in w.bridge.wire && |w.bridge.log| <= TWO_TO_THE_64
    ensures Honest(s, w.(receiver := HandleEvent(s.limits, w.receiver, DatagramArrives(d, now))))
  {
    hide Sound, Accounted, TableFollows, HandleDatagram, AllRecorded, AllTransmitted, ValidTable;
    EventKeepsTableValid(s.limits, w.receiver, DatagramArrives(d, now));
    DeliveryFollows(s, w.bridge, w.receiver, d, now);
    DeliveryRecords(s.limits, w.receiver, d, now);
  }

  lemma AddingRecord(rs: seq<Record>, rs': seq<Record>, ms: seq<CompletedMessage>, ms': seq<CompletedMessage>)
    requires AllRecorded(rs, ms')
    requires rs' == rs || (|ms'| > |ms| && rs' == rs + [RecordOf(ms'[|ms|])])
    ensures AllRecorded(rs', ms')
  {
    forall i | 0 <= i < |rs'|
      ensures IsRecordOfOne(rs'[i], ms')
    {
      if i < |rs| { assert rs'[i] == rs[i]; }
    }
  }

  // Commands, sweeps and flushes complete nothing and add no entries.
  lemma ActionStaysHonest(s: Setup, w: World, e: Event)
    requires Honest(s, w) && !e.DatagramArrives?
    ensures Honest(s, w.(receiver := HandleEvent(s.limits, w.receiver, e)))
  {
    hide Sound, Accounted, HandleEvent, AllRecorded, AllTransmitted, HasOrigin, ValidTable, Expire;
    var r := w.receiver;
    EventKeepsTableValid(s.limits, r, e);
    EventIsAccounted(s.limits, r, e);
    ActionsOnlyRemove(s.limits, r, e);
  }

  lemma ActionsOnlyRemove(limits: Limits, r: ReceiverState, e: Event)
    requires ValidTable(limits, r.table) && !e.DatagramArrives?
    ensures var r' := HandleEvent(limits, r, e);
      && r'.completions == r.completions
      && forall k :: k in r'.table.entries ==> k in r.table.entries && r'.table.entries[k] == r.table.entries[k]
  {
    hide HandleCommand, SetRecording, FlushTick, ExpireFront;
    if e.SweepDue? { ExpireFrontKeeps(limits, r.table, e.now); }
  }

  lemma StepStaysHonest(s: Setup, w: World, step: Step)
    requires Honest(s, w) && Possible(s, w, step) && |w.bridge.log| <= TWO_TO_THE_64
    ensures Honest(s, After(s, w, step)) && w.bridge.log <= After(s, w, step).bridge.log
  {
    match step
    case SourcesPublish(arrivals) =>
      PublishingKeepsSound(s.cfg, w.bridge, arrivals);
      BridgeStaysHonest(s, w, Publish(w.bridge, arrivals));
    case BridgePolls(e) =>
      PollKeepsSound(s.cfg, w.bridge, e);
      BridgeStaysHonest(s, w, Poll(s.cfg, w.bridge, e));
    case NetworkDelivers(d, now) => DeliveryStaysHonest(s, w, d, now);
    case ReceiverActs(e) => ActionStaysHonest(s, w, e);
  }

  lemma BridgeStepIsSound(s: Setup, w: World, step: Step)
    requires WellShaped(s, w) && Sound(s.cfg, w.bridge) && Possible(s, w, step)
    ensures Sound(s.cfg, After(s, w, step).bridge) && w.bridge.log <= After(s, w, step).bridge.log
  {
    hide Sound, Poll, Publish, HandleEvent;
    match step
    case SourcesPublish(arrivals) =>
      PublishingKeepsSound(s.cfg, w.bridge, arrivals);
      PublishingKeepsLog(w.bridge, arrivals);
    case BridgePolls(e) => PollKeepsSound(s.cfg, w.bridge, e);
    case NetworkDelivers(_, _) =>
    case ReceiverActs(_) =>
  }

  lemma PublishingKeepsLog(b: BridgeState, a: Arrivals)
    requires |a| == |b.queues|
    ensures Publish(b, a).log == b.log
  {
  }

  lemma {:induction false} ReachableIsSound(s: Setup, steps: seq<Step>, w: World)
    requires Reaches(s, steps, w)
    ensures Sound(s.cfg, w.bridge)
    decreases |steps|
  {
    hide Sound, After, WellShaped;
    if steps == [] {
      OfNoSource(s.cfg, s.recvs, s.sends);
    } else {
      var last := steps[|steps| - 1];
      var before :| Reaches(s, steps[..|steps| - 1], before) && WellShaped(s, before) &&
        Possible(s, before, last) && w == After(s, before, last);
      ReachableIsSound(s, steps[..|steps| - 1], before);
      BridgeStepIsSound(s, before, last);
    }
  }

  // The invariant holds in every reachable world in which the bridge has handled at most 2^64 messages.
  lemma {:induction false} ReachableIsHonest(s: Setup, steps: seq<Step>, w: World)
    requires Reaches(s, steps, w) && |w.bridge.log| <= TWO_TO_THE_64
    ensures Honest(s, w)
    decreases |steps|
  {
    hide Honest, After, WellShaped, Sound;
    if steps == [] {
      StartIsHonest(s);
    } else {
      var last := steps[|steps| - 1];
      var before :| Reaches(s, steps[..|steps| - 1], before) && WellShaped(s, before) &&
        Possible(s, before, last) && w == After(s, before, last);
      ReachableIsSound(s, steps[..|steps| - 1], before);
      BridgeStepIsSound(s, before, last);
      ReachableIsHonest(s, steps[..|steps| - 1], before);
      StepStaysHonest(s, before, last);
    }
  }

  // ---------- The theorems ----------

  // FRAGMENTED is added exactly when there is more than one fragment, and nothing else is changed.
  lemma WireFlagsMarkFragmentation(m: Message, c: Capacity)
    requires m.flags == 0 || m.flags == FLAG_MULTIPART
    ensures HasFragmentedFlag(WireFlags(m, c)) <==> Count(m, c) > 1
    ensures WireFlags(m, c) == m.flags || WireFlags(m, c) == m.flags + FLAG_FRAGMENTED
  {
  }

  // Fidelity. In every run of the relay, whatever is lost, duplicated, reordered, evicted or expired:
  // each message handed to on_complete is a message given to transmit, all of whose datagrams were sent,
  // with its source, sequence number, timestamp and exact bytes.
  lemma Fidelity(s: Setup, steps: seq<Step>, w: World, m: CompletedMessage)
    requires Reaches(s, steps, w) && |w.bridge.log| <= TWO_TO_THE_64
    requires m in w.receiver.completions
    ensures exists t :: t in w.bridge.log && Delivers(s.cfg.capacity, t, m)
  {
    hide Delivers, Sound;
    ReachableIsHonest(s, steps, w);
    var i :| 0 <= i < |w.receiver.completions| && w.receiver.completions[i] == m;
    assert WasTransmitted(s.cfg.capacity, w.bridge.log, m);
    var j :| 0 <= j < |w.bridge.log| && Delivers(s.cfg.capacity, w.bridge.log[j], m);
    assert w.bridge.log[j] in w.bridge.log;
  }

  lemma DeliveriesHaveDistinctKeys(log: seq<Transmission>, n: nat, j: nat)
    requires InSequence(log) && |log| <= TWO_TO_THE_64 && n < |log| && j < |log|
    requires log[n].message.sourceId == log[j].message.sourceId && log[n].message.sequence == log[j].message.sequence
    ensures n == j
  {
    hide InSequence;
    if n < j {
      KeysAreUnique(log, n, j);
    } else if j < n {
      KeysAreUnique(log, j, n);
    }
  }

  lemma SoundIsInSequence(cfg: BridgeConfig, b: BridgeState)
    requires Sound(cfg, b)
    ensures InSequence(b.log)
  {
  }

  // A message whose send loop stopped early never completes, under any schedule.
  lemma StoppedEarlyNeverCompletes(s: Setup, steps: seq<Step>, w: World, j: nat, m: CompletedMessage)
    requires Reaches(s, steps, w) && |w.bridge.log| <= TWO_TO_THE_64
    requires j < |w.bridge.log| && w.bridge.log[j].sent < Count(w.bridge.log[j].message, s.cfg.capacity)
    requires m in w.receiver.completions
    ensures m.sourceId != w.bridge.log[j].message.sourceId || m.sequence != w.bridge.log[j].message.sequence
  {
    hide Reaches, Sound, InSequence, FragmentCountFor, WireFlags;
    Fidelity(s, steps, w, m);
    ReachableIsSound(s, steps, w);
    SoundIsInSequence(s.cfg, w.bridge);
    var t :| t in w.bridge.log && Delivers(s.cfg.capacity, t, m);
    var n :| 0 <= n < |w.bridge.log| && w.bridge.log[n] == t;
    if m.sourceId == w.bridge.log[j].message.sourceId && m.sequence == w.bridge.log[j].message.sequence {
      DeliveriesHaveDistinctKeys(w.bridge.log, n, j);
    }
  }

  // From transmit to the reader: whatever run produced a capture file and wherever the file is cut, each
  // record that can be read from it is that of a message given to transmit and sent in full.
  lemma CapturedRecordsWereTransmitted(s: Setup, steps: seq<Step>, w: World, cut: nat, r: Record)
    requires Reaches(s, steps, w) && |w.bridge.log| <= TWO_TO_THE_64
    requires w.receiver.writer.isOpen && FILE_HEADER_SIZE <= cut <= |w.receiver.writer.file|
    requires r in ReadFrom(w.receiver.writer.file[..cut], FILE_HEADER_SIZE).records
    ensures exists t, m :: t in w.bridge.log && Delivers(s.cfg.capacity, t, m) && r == RecordOf(m)
  {
    hide ReadFrom, Sound, Delivers, RecordOf, TableFollows;
    ReachableIsHonest(s, steps, w);
    var x := w.receiver.writer;
    PrefixReadsLog(x, cut);
    var records := ReadFrom(x.file[..cut], FILE_HEADER_SIZE).records;
    var i :| 0 <= i < |records| && records[i] == r;
    assert IsRecordOfOne(x.log[i], w.receiver.completions);
    var n :| 0 <= n < |w.receiver.completions| && x.log[i] == RecordOf(w.receiver.completions[n]);
    Fidelity(s, steps, w, w.receiver.completions[n]);
  }

  // Cutting a file that the writer produced leaves a prefix of what it wrote.
  lemma PrefixReadsLog(x: WriterState, cut: nat)
    requires Faithful(x) && FILE_HEADER_SIZE <= cut <= |x.file|
    ensures ReadFrom(x.file[..cut], FILE_HEADER_SIZE).records <= x.log
  {
    hide ReadFrom, RecordsBytes, RecordBytes, FileHeaderBytes, Whole;
    var partial, next :| LeavesPartial(x, partial, next);
    var rs := x.log + [next];
    RecordsBytesSnoc(x.log, next);
    assert x.file == FileOf(x.header, rs)[..|x.file|];
    assert x.file[..cut] == FileOf(x.header, rs)[..cut];
    TruncatedFile(x.header, rs, cut);
    OpenedBehindHeader(x.file[..cut], x.header);
    BelowWhole(x.log, next, cut);
  }

  lemma OpenedBehindHeader(f: bytes, h: FileHeader)
    requires OpenFile(f).error == NoError && OpenFile(f).header == h && h.headerLength == FILE_HEADER_SIZE
    ensures OpenFile(f).pos == FILE_HEADER_SIZE
  {
  }

  lemma BelowWhole(rs: seq<Record>, r: Record, cut: nat)
    requires cut >= FILE_HEADER_SIZE && cut - FILE_HEADER_SIZE < |RecordsBytes(rs)| + |RecordBytes(r)|
    ensures Whole(rs + [r], cut - FILE_HEADER_SIZE) <= |rs|
  {
    hide RecordBytes, Whole;
    WholeIsGreatest(rs + [r], cut - FILE_HEADER_SIZE);
    RecordsBytesSnoc(rs, r);
    assert (rs + [r])[..|rs| + 1] == rs + [r];
  }
}
