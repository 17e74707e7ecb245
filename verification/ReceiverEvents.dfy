// What each datagram and each sweep adds to the statistics, in total and for every source, in numbers
// (tools/receiver/receiver.cpp:194-284, 342-349).
module ReceiverEvents {
  import opened ByteOrder
  import opened WireProtocol
  import opened Formats
  import opened Reassembly
  import opened SequenceTracker
  import opened CaptureFormat
  import opened CaptureModel
  import opened ReceiverModel

  function ReasonCount(s: Stats, reason: Reason): nat {
    if reason in s.malformedByReason then s.malformedByReason[reason] else 0
  }

  // Only this reason is counted once more.
  ghost predicate OneReason(before: Stats, after: Stats, reason: Reason) {
    && after.malformed == before.malformed + 1
    && forall x :: ReasonCount(after, x) == ReasonCount(before, x) + if x == reason then 1 else 0
  }

  lemma RejectIsCounted(s: Stats, d: bytes)
    requires Verdict(d) != Accepted
    ensures var t, v := Reject(s, d), Verdict(d);
      && OneReason(s, t, Rejected(v))
      && t == s.(malformed := t.malformed, malformedByReason := t.malformedByReason, sources := t.sources)
      && forall id: u32 :: CountsOf(t, id) ==
           if v != Truncated && v != BadMagic && v != BadVersion && |d| >= 44 && Field(d, 8, 4) == id
           then CountsOf(s, id).(malformed := CountsOf(s, id).malformed + 1) else CountsOf(s, id)
  {
    hide FromLittleEndian;
  }

  // A rejected datagram counts once as malformed, for its reason and, if its header was read, for its source. Nothing
  // else happens.
  lemma RejectionIsCounted(limits: Limits, r: ReceiverState, d: bytes, now: u64)
    requires ValidTable(limits, r.table) && Verdict(d) != Accepted
    ensures var s, t, v := r.stats, HandleDatagram(limits, r, d, now).stats, Verdict(d);
      && HandleDatagram(limits, r, d, now) == r.(stats := t)
      && OneReason(s, t, Rejected(v))
      && t == s.(malformed := t.malformed, malformedByReason := t.malformedByReason, sources := t.sources)
      && forall id: u32 :: CountsOf(t, id) ==
           if v != Truncated && v != BadMagic && v != BadVersion && |d| >= 44 && Field(d, 8, 4) == id
           then CountsOf(s, id).(malformed := CountsOf(s, id).malformed + 1) else CountsOf(s, id)
  {
    hide Reject, CountsOf, OneReason, Field, Verdict;
    RejectIsCounted(r.stats, d);
  }

  function One(b: bool): nat {
    if b then 1 else 0
  }

  // What one more datagram adds to the counts of its source, when it arrives,
  function Arrived(c: SourceCounts): SourceCounts {
    c.(datagrams := c.datagrams + 1)
  }

  // when the tracker answers o,
  function Observed(c: SourceCounts, o: Observation): SourceCounts {
    c.(gapEvents := c.gapEvents + One(o.outcome == Gap),
       missing := c.missing + (if o.outcome == Gap then o.missing else 0),
       outOfOrder := c.outOfOrder + One(o.outcome == OutOfOrder))
  }

  // and by what the reassembly table answered and whether a record was written.
  function Settled(c: SourceCounts, a: AddOutcome, recorded: bool): SourceCounts {
    var complete := a.verdict == Complete;
    c.(messages := c.messages + One(complete), payloadBytes := c.payloadBytes + (if complete then |a.out.data| else 0),
       duplicates := c.duplicates + One(a.verdict == Duplicate), malformed := c.malformed + One(a.verdict == Malformed),
       recordsWritten := c.recordsWritten + One(recorded),
       lastSequence := if complete then a.out.sequence else c.lastSequence,
       lastTimestamp := if complete then a.out.timestamp else c.lastTimestamp)
  }

  function SourceAfter(c: SourceCounts, a: AddOutcome, o: Observation, recorded: bool): SourceCounts {
    Settled(if a.newMessage then Observed(Arrived(c), o) else Arrived(c), a, recorded)
  }

  // An accepted datagram counts once, with its bytes; its message, duplicate or inconsistency counts by what the table
  // answered, and the tracker is asked if and only if the message is new.
  lemma AcceptanceIsCounted(limits: Limits, r: ReceiverState, d: bytes, now: u64)
    requires ValidTable(limits, r.table) && Verdict(d) == Accepted
    ensures var s, h := HandleDatagram(limits, r, d, now), DecodeHeader(d);
      var a, o := Add(limits, r.table, FragmentOf(d), now), ObserveOne(StateOf(r.tracker, h.sourceId), h.sequence);
      && (a.verdict == Complete ==> a.out.sourceId == h.sourceId)
      && h.sourceId == Field(d, 8, 4)
      && s.table == a.table
      && s.completions == (if a.verdict == Complete then r.completions + [a.out] else r.completions)
      && s.tracker == (if a.newMessage then r.tracker[h.sourceId := o.state] else r.tracker)
      && s.stats.datagrams == r.stats.datagrams + 1 && s.stats.datagramBytes == r.stats.datagramBytes + |d|
      && s.stats.messages == r.stats.messages + One(a.verdict == Complete)
      && s.stats.payloadBytes == r.stats.payloadBytes + (if a.verdict == Complete then |a.out.data| else 0)
      && s.stats.duplicates == r.stats.duplicates + One(a.verdict == Duplicate)
      && s.stats.incomplete == r.stats.incomplete && s.stats.commands == r.stats.commands
      && (if a.verdict == Malformed then OneReason(r.stats, s.stats, FragmentInconsistent)
          else s.stats.malformed == r.stats.malformed && s.stats.malformedByReason == r.stats.malformedByReason)
  {
    hide ObserveOne, Reassembly.Add, FromLittleEndian, CountDatagram, ObserveMessage, Account, CountsOf, WithCounts;
    var f := FragmentOf(d);
    CompletedSource(limits, r.table, f, now);
    var a := Add(limits, r.table, f, now);
    var h := f.header;
    var counted := r.(table := a.table, stats := CountDatagram(r.stats, h.sourceId, |d|));
    ArrivalIsCounted(r.stats, h.sourceId, |d|);
    ObservationIsCounted(counted, h);
    OutcomeIsCounted(if a.newMessage then ObserveMessage(counted, h) else counted, h, a);
  }

  // And only the counts of its own source change.
  lemma AcceptanceIsAttributed(limits: Limits, r: ReceiverState, d: bytes, now: u64, id: u32)
    requires ValidTable(limits, r.table) && Verdict(d) == Accepted
    ensures var s, h := HandleDatagram(limits, r, d, now), DecodeHeader(d);
      var a, o := Add(limits, r.table, FragmentOf(d), now), ObserveOne(StateOf(r.tracker, h.sourceId), h.sequence);
      CountsOf(s.stats, id) ==
        if id != h.sourceId then CountsOf(r.stats, id)
        else SourceAfter(CountsOf(r.stats, id), a, o, s.writer.records > r.writer.records)
  {
    hide ObserveOne, Reassembly.Add, CountDatagram, ObserveMessage, Account, CountsOf, OneReason, DecodeHeader, Verdict,
      StateOf, Arrived, Observed, Settled;
    var f := FragmentOf(d);
    CompletedSource(limits, r.table, f, now);
    var a := Add(limits, r.table, f, now);
    var h := f.header;
    var counted := r.(table := a.table, stats := CountDatagram(r.stats, h.sourceId, |d|));
    ArrivalIsCounted(r.stats, h.sourceId, |d|);
    ObservationIsCounted(counted, h);
    OutcomeIsCounted(if a.newMessage then ObserveMessage(counted, h) else counted, h, a);
  }

  lemma ArrivalIsCounted(s: Stats, id: u32, length: nat)
    ensures var t := CountDatagram(s, id, length);
      && t == s.(datagrams := s.datagrams + 1, datagramBytes := s.datagramBytes + length, sources := t.sources)
      && forall x: u32 :: CountsOf(t, x) ==
           if x == id then Arrived(CountsOf(s, x)) else CountsOf(s, x)
  {
  }

  lemma ObservationIsCounted(r: ReceiverState, h: Header)
    ensures var s, o := ObserveMessage(r, h), ObserveOne(StateOf(r.tracker, h.sourceId), h.sequence);
      && s == r.(tracker := r.tracker[h.sourceId := o.state], stats := r.stats.(sources := s.stats.sources))
      && forall x: u32 :: CountsOf(s.stats, x) ==
           if x == h.sourceId then Observed(CountsOf(r.stats, x), o) else CountsOf(r.stats, x)
  {
    hide ObserveOne;
  }

  lemma OutcomeIsCounted(r: ReceiverState, h: Header, a: AddOutcome)
    requires a.verdict == Complete ==> a.out.sourceId == h.sourceId
    ensures var s, complete := Account(r, h, a), a.verdict == Complete;
      && s.table == r.table && s.tracker == r.tracker
      && s.completions == (if complete then r.completions + [a.out] else r.completions)
      && s.stats.datagrams == r.stats.datagrams && s.stats.datagramBytes == r.stats.datagramBytes
      && s.stats.incomplete == r.stats.incomplete && s.stats.commands == r.stats.commands
      && s.stats.messages == r.stats.messages + One(complete)
      && s.stats.payloadBytes == r.stats.payloadBytes + (if complete then |a.out.data| else 0)
      && s.stats.duplicates == r.stats.duplicates + One(a.verdict == Duplicate)
      && (if a.verdict == Malformed then OneReason(r.stats, s.stats, FragmentInconsistent)
          else s.stats.malformed == r.stats.malformed && s.stats.malformedByReason == r.stats.malformedByReason)
    ensures var s := Account(r, h, a);
      forall x: u32 :: CountsOf(s.stats, x) ==
        if x == h.sourceId then Settled(CountsOf(r.stats, x), a, s.writer.records > r.writer.records)
        else CountsOf(r.stats, x)
  {
    hide WriteRecord;
    if a.verdict == Complete {
      WritingCounts(r.writer, RecordHeaderFor(a.out), a.out.data);
    }
  }

  lemma CompletedSource(limits: Limits, t: Table, f: Fragment, now: u64)
    requires ValidTable(limits, t)
    ensures var a := Add(limits, t, f, now);
      a.verdict == Complete ==> a.out.sourceId == f.header.sourceId && a.out.sequence == f.header.sequence
  {
    hide WithEntry;
  }

  lemma WritingCounts(w: WriterState, h: RecordHeader, payload: bytes)
    ensures var d := WriteRecord(w, h, payload);
      d.state.records == if d.ok then w.records + 1 else w.records
  {
  }

  // ---------- Sweeps ----------

  function From(expired: seq<ExpiredMessage>, id: u32): nat {
    if expired == [] then 0
    else From(expired[..|expired| - 1], id) + One(expired[|expired| - 1].sourceId == id)
  }

  // Every expired message counts once as incomplete, and for its own source.
  lemma {:induction false} ExpiryIsCounted(s: Stats, expired: seq<ExpiredMessage>)
    ensures var t := CountIncomplete(s, expired);
      && t == s.(incomplete := s.incomplete + |expired|, sources := t.sources)
      && forall id: u32 :: CountsOf(t, id) ==
           CountsOf(s, id).(incomplete := CountsOf(s, id).incomplete + From(expired, id))
  {
    if expired != [] {
      ExpiryIsCounted(s, expired[..|expired| - 1]);
    }
  }

  // A sweep counts what the reassembly table reports as expired, and does nothing else.
  lemma SweepIsCounted(limits: Limits, r: ReceiverState, now: u64)
    ensures var s, e := Sweep(limits, r, now), Expire(limits, r.table, now);
      && s == r.(table := e.table, stats := s.stats)
      && s.stats == r.stats.(incomplete := r.stats.incomplete + |e.expired|, sources := s.stats.sources)
      && forall id: u32 :: CountsOf(s.stats, id) ==
           CountsOf(r.stats, id).(incomplete := CountsOf(r.stats, id).incomplete + From(e.expired, id))
  {
    ExpiryIsCounted(r.stats, Expire(limits, r.table, now).expired);
  }
}
