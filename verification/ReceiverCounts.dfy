// The receiver's statistics over whole runs: per-source counts add up to the totals, gap counts are those
// of the sequence tracker, and incomplete messages are exactly the expired ones (tools/receiver/receiver.cpp).
module ReceiverCounts {
  import opened ByteOrder
  import opened WireProtocol
  import opened Reassembly
  import opened SequenceTracker
  import opened CaptureModel
  import opened CommandText
  import opened ReceiverModel

  datatype Sums = Sums(datagrams: int, messages: int, payloadBytes: int, incomplete: int, duplicates: int,
                       malformed: int, recordsWritten: int) {
    function Plus(o: Sums): Sums {
      Sums(datagrams + o.datagrams, messages + o.messages, payloadBytes + o.payloadBytes, incomplete + o.incomplete,
           duplicates + o.duplicates, malformed + o.malformed, recordsWritten + o.recordsWritten)
    }
    function Minus(o: Sums): Sums {
      Sums(datagrams - o.datagrams, messages - o.messages, payloadBytes - o.payloadBytes, incomplete - o.incomplete,
           duplicates - o.duplicates, malformed - o.malformed, recordsWritten - o.recordsWritten)
    }
  }

  function SumsOf(c: SourceCounts): Sums {
    Sums(c.datagrams, c.messages, c.payloadBytes, c.incomplete, c.duplicates, c.malformed, c.recordsWritten)
  }

  ghost function Total(m: map<u32, SourceCounts>): Sums {
    if m == map[] then Sums(0, 0, 0, 0, 0, 0, 0)
    else
      var id :| id in m;
      Total(m - {id}).Plus(SumsOf(m[id]))
  }

  lemma {:induction false} TotalWithout(m: map<u32, SourceCounts>, id: u32)
    requires id in m
    ensures Total(m) == Total(m - {id}).Plus(SumsOf(m[id]))
    decreases |m|
  {
    var x: u32 :| x in m && Total(m) == Total(m - {x}).Plus(SumsOf(m[x]));
    if x != id {
      assert (m - {x}).Keys == m.Keys - {x} && (m - {id}).Keys == m.Keys - {id};
      TotalWithout(m - {x}, id);
      TotalWithout(m - {id}, x);
      assert (m - {x})[id] == m[id] && (m - {id})[x] == m[x];
      var rest := m - {x} - {id};
      assert m - {id} - {x} == rest;
      assert Total(m - {x}) == Total(rest).Plus(SumsOf(m[id]));
      assert Total(m - {id}) == Total(rest).Plus(SumsOf(m[x]));
      assert Total(m) == Total(m - {x}).Plus(SumsOf(m[x]));
      assert Total(m) == Total(rest).Plus(SumsOf(m[id])).Plus(SumsOf(m[x]));
      assert Total(m) == Total(rest).Plus(SumsOf(m[x])).Plus(SumsOf(m[id]));
    }
  }

  lemma TotalOfUpdate(s: Stats, id: u32, c: SourceCounts)
    ensures Total(WithCounts(s, id, c).sources) == Total(s.sources).Minus(SumsOf(CountsOf(s, id))).Plus(SumsOf(c))
  {
    var m := s.sources[id := c];
    TotalWithout(m, id);
    if id in s.sources {
      TotalWithout(s.sources, id);
      assert m - {id} == s.sources - {id};
    } else {
      assert m - {id} == s.sources;
    }
  }

  function ReasonCount(s: Stats, reason: Reason): nat {
    if reason in s.malformedByReason then s.malformedByReason[reason] else 0
  }

  // The rejected datagrams whose header was not read, so that they cannot be blamed on a source.
  function Unattributed(s: Stats): nat {
    ReasonCount(s, Rejected(Truncated)) + ReasonCount(s, Rejected(BadMagic)) + ReasonCount(s, Rejected(BadVersion))
  }

  // The malformed datagrams that can be blamed on a source.
  function Attributed(s: Stats): nat {
    ReasonCount(s, Rejected(BadFragmentCount)) + ReasonCount(s, Rejected(BadFragmentIndex)) +
    ReasonCount(s, Rejected(LengthMismatch)) + ReasonCount(s, Rejected(RangeError)) +
    ReasonCount(s, Rejected(FlagMismatch)) + ReasonCount(s, FragmentInconsistent)
  }

  // The totals that the per-source counts should add up to.
  function Expected(s: Stats, recordsWritten: nat): Sums {
    Sums(s.datagrams, s.messages, s.payloadBytes, s.incomplete, s.duplicates, Attributed(s), recordsWritten)
  }

  // Per-source counts add up to the totals, and so do the counts by reason; the malformed datagrams of all
  // sources are exactly those whose header was read.
  ghost predicate Balanced(s: Stats, recordsWritten: nat) {
    Total(s.sources) == Expected(s, recordsWritten) && s.malformed == Attributed(s) + Unattributed(s)
  }

  // The gap counts shown per source are those of the sequence tracker.
  ghost predicate Mirrors(s: Stats, tracker: map<u32, SequenceState>) {
    forall id: u32 :: SameGaps(CountsOf(s, id), StateOf(tracker, id))
  }

  predicate SameGaps(c: SourceCounts, q: SequenceState) {
    c.gapEvents == q.gapEvents && c.missing == q.missing && c.outOfOrder == q.outOfOrder
  }

  // Changing the counts of one source, its tracker state and the totals by the same amounts.
  lemma Recounting(s: Stats, n: nat, tracker: map<u32, SequenceState>, id: u32, c: SourceCounts, q: SequenceState,
                   t: Stats, n': nat)
    requires Balanced(s, n) && Mirrors(s, tracker)
    requires t.sources == s.sources[id := c] && SameGaps(c, q)
    requires SumsOf(c).Minus(SumsOf(CountsOf(s, id))) == Expected(t, n').Minus(Expected(s, n))
    requires s.malformed == Attributed(s) + Unattributed(s) ==> t.malformed == Attributed(t) + Unattributed(t)
    ensures Balanced(t, n') && Mirrors(t, tracker[id := q]) && (q == StateOf(tracker, id) ==> Mirrors(t, tracker))
  {
    TotalOfUpdate(s, id, c);
    MirrorsUpdate(s, tracker, id, c, q, t);
  }

  lemma MirrorsUpdate(s: Stats, tracker: map<u32, SequenceState>, id: u32, c: SourceCounts, q: SequenceState, t: Stats)
    requires Mirrors(s, tracker) && t.sources == s.sources[id := c] && SameGaps(c, q)
    ensures Mirrors(t, tracker[id := q]) && (q == StateOf(tracker, id) ==> Mirrors(t, tracker))
  {
    forall j: u32
      ensures SameGaps(CountsOf(t, j), StateOf(tracker[id := q], j))
      ensures q == StateOf(tracker, id) ==> SameGaps(CountsOf(t, j), StateOf(tracker, j))
    {
      assert SameGaps(CountsOf(s, j), StateOf(tracker, j));
    }
  }

  lemma GapsOf(s: Stats, tracker: map<u32, SequenceState>, id: u32)
    requires Mirrors(s, tracker)
    ensures SameGaps(CountsOf(s, id), StateOf(tracker, id))
  {
  }

  // Recounting that leaves the gaps of the source alone.
  lemma Counting(s: Stats, n: nat, tracker: map<u32, SequenceState>, id: u32, c: SourceCounts, t: Stats, n': nat)
    requires Balanced(s, n) && Mirrors(s, tracker)
    requires t.sources == s.sources[id := c]
    requires var old_ := CountsOf(s, id);
      c.gapEvents == old_.gapEvents && c.missing == old_.missing && c.outOfOrder == old_.outOfOrder
    requires SumsOf(c).Minus(SumsOf(CountsOf(s, id))) == Expected(t, n').Minus(Expected(s, n))
    requires s.malformed == Attributed(s) + Unattributed(s) ==> t.malformed == Attributed(t) + Unattributed(t)
    ensures Balanced(t, n') && Mirrors(t, tracker)
  {
    GapsOf(s, tracker, id);
    Recounting(s, n, tracker, id, c, StateOf(tracker, id), t, n');
  }

  lemma NotedReason(s: Stats, noted: Reason, reason: Reason)
    ensures ReasonCount(NoteReason(s, noted), reason) == ReasonCount(s, reason) + if reason == noted then 1 else 0
  {
  }

  predicate NamesSource(reason: Reason) {
    reason.Rejected? ==> HeaderWasRead(reason.error)
  }

  lemma NotingAttributes(s: Stats, reason: Reason)
    requires reason != Rejected(Accepted)
    ensures var noted := NoteReason(s, reason);
      && Attributed(noted) == Attributed(s) + (if NamesSource(reason) then 1 else 0)
      && Unattributed(noted) == Unattributed(s) + (if NamesSource(reason) then 0 else 1)
      && noted.malformed == s.malformed + 1
  {
    hide ReasonCount;
    forall x
      ensures ReasonCount(NoteReason(s, reason), x) == ReasonCount(s, x) + if x == reason then 1 else 0
    {
      NotedReason(s, reason, x);
    }
  }

  // A rejected datagram whose header was not read.
  lemma UnreadBalances(s: Stats, n: nat, tracker: map<u32, SequenceState>, e: ParseError)
    requires Balanced(s, n) && Mirrors(s, tracker) && e != Accepted && !HeaderWasRead(e)
    ensures Balanced(NoteReason(s, Rejected(e)), n) && Mirrors(NoteReason(s, Rejected(e)), tracker)
  {
    hide Mirrors, Total, Attributed, Unattributed;
    NotingAttributes(s, Rejected(e));
    MirrorsSameSources(s, tracker, NoteReason(s, Rejected(e)));
  }

  lemma MirrorsSameSources(s: Stats, tracker: map<u32, SequenceState>, t: Stats)
    requires Mirrors(s, tracker) && t.sources == s.sources
    ensures Mirrors(t, tracker)
  {
    forall j: u32
      ensures SameGaps(CountsOf(t, j), StateOf(tracker, j))
    {
      assert SameGaps(CountsOf(s, j), StateOf(tracker, j));
    }
  }

  // A malformed datagram whose header was read.
  lemma MalformedBalances(s: Stats, n: nat, tracker: map<u32, SequenceState>, reason: Reason, id: u32)
    requires Balanced(s, n) && Mirrors(s, tracker)
    requires reason.Rejected? ==> reason.error != Accepted && HeaderWasRead(reason.error)
    ensures var blamed := BlameSource(NoteReason(s, reason), id); Balanced(blamed, n) && Mirrors(blamed, tracker)
  {
    hide Balanced, Mirrors, Attributed, Unattributed, ReasonCount;
    var noted := NoteReason(s, reason);
    NotingAttributes(s, reason);
    BlamingKeepsReasons(noted, id);
    var c := CountsOf(s, id).(malformed := CountsOf(s, id).malformed + 1);
    Counting(s, n, tracker, id, c, BlameSource(noted, id), n);
  }

  lemma BlamingKeepsReasons(s: Stats, id: u32)
    ensures var t := BlameSource(s, id);
      Attributed(t) == Attributed(s) && Unattributed(t) == Unattributed(s) && t.malformed == s.malformed
  {
  }

  lemma DatagramBalances(s: Stats, n: nat, tracker: map<u32, SequenceState>, id: u32, length: nat)
    requires Balanced(s, n) && Mirrors(s, tracker)
    ensures Balanced(CountDatagram(s, id, length), n) && Mirrors(CountDatagram(s, id, length), tracker)
  {
    hide Balanced, Mirrors;
    Counting(s, n, tracker, id, CountsOf(s, id).(datagrams := CountsOf(s, id).datagrams + 1),
             CountDatagram(s, id, length), n);
  }

  // Recounting only the gaps of a source.
  lemma Regapping(s: Stats, n: nat, tracker: map<u32, SequenceState>, id: u32, c: SourceCounts, q: SequenceState)
    requires Balanced(s, n) && Mirrors(s, tracker) && SameGaps(c, q)
    requires SumsOf(c) == SumsOf(CountsOf(s, id))
    ensures Balanced(WithCounts(s, id, c), n) && Mirrors(WithCounts(s, id, c), tracker[id := q])
  {
    hide Balanced, Mirrors;
    Recounting(s, n, tracker, id, c, q, WithCounts(s, id, c), n);
  }

  lemma ObservationBalances(s: Stats, n: nat, tracker: map<u32, SequenceState>, id: u32, seqn: u64)
    requires Balanced(s, n) && Mirrors(s, tracker)
    ensures var o := ObserveOne(StateOf(tracker, id), seqn);
      Balanced(CountObservation(s, id, o), n) && Mirrors(CountObservation(s, id, o), tracker[id := o.state])
  {
    GapsOf(s, tracker, id);
    hide Balanced, Mirrors;
    var o, c := ObserveOne(StateOf(tracker, id), seqn), CountsOf(s, id);
    match o.outcome
    case Gap =>
      var counted := c.(gapEvents := c.gapEvents + 1, missing := c.missing + o.missing);
      Regapping(s, n, tracker, id, counted, o.state);
    case OutOfOrder => Regapping(s, n, tracker, id, c.(outOfOrder := c.outOfOrder + 1), o.state);
    case First => MirrorsIgnoresOrder(s, tracker, id, o.state);
    case InOrder => MirrorsIgnoresOrder(s, tracker, id, o.state);
  }

  lemma MirrorsIgnoresOrder(s: Stats, tracker: map<u32, SequenceState>, id: u32, q: SequenceState)
    requires Mirrors(s, tracker) && SameGaps(CountsOf(s, id), q)
    ensures Mirrors(s, tracker[id := q])
  {
    forall j: u32
      ensures SameGaps(CountsOf(s, j), StateOf(tracker[id := q], j))
    {
      assert SameGaps(CountsOf(s, j), StateOf(tracker, j));
    }
  }

  lemma DuplicateBalances(s: Stats, n: nat, tracker: map<u32, SequenceState>, id: u32)
    requires Balanced(s, n) && Mirrors(s, tracker)
    ensures Balanced(CountDuplicate(s, id), n) && Mirrors(CountDuplicate(s, id), tracker)
  {
    hide Balanced, Mirrors;
    Counting(s, n, tracker, id, CountsOf(s, id).(duplicates := CountsOf(s, id).duplicates + 1),
             CountDuplicate(s, id), n);
  }

  lemma CompleteBalances(s: Stats, n: nat, tracker: map<u32, SequenceState>, m: CompletedMessage)
    requires Balanced(s, n) && Mirrors(s, tracker)
    ensures Balanced(CountComplete(s, m), n) && Mirrors(CountComplete(s, m), tracker)
  {
    hide Balanced, Mirrors;
    Counting(s, n, tracker, m.sourceId, CountComplete(s, m).sources[m.sourceId], CountComplete(s, m), n);
  }

  lemma RecordBalances(s: Stats, n: nat, tracker: map<u32, SequenceState>, id: u32)
    requires Balanced(s, n) && Mirrors(s, tracker)
    ensures Balanced(CountRecord(s, id), n + 1) && Mirrors(CountRecord(s, id), tracker)
  {
    hide Balanced, Mirrors;
    Counting(s, n, tracker, id, CountsOf(s, id).(recordsWritten := CountsOf(s, id).recordsWritten + 1),
             CountRecord(s, id), n + 1);
  }

  lemma {:induction false} IncompleteBalances(s: Stats, n: nat, tracker: map<u32, SequenceState>,
                                              expired: seq<ExpiredMessage>)
    requires Balanced(s, n) && Mirrors(s, tracker)
    ensures Balanced(CountIncomplete(s, expired), n) && Mirrors(CountIncomplete(s, expired), tracker)
  {
    hide Balanced, Mirrors;
    if expired != [] {
      IncompleteBalances(s, n, tracker, expired[..|expired| - 1]);
      var before := CountIncomplete(s, expired[..|expired| - 1]);
      var id := expired[|expired| - 1].sourceId;
      Counting(before, n, tracker, id, CountsOf(before, id).(incomplete := CountsOf(before, id).incomplete + 1),
               CountIncomplete(s, expired), n);
    }
  }

  // Skipped records, write errors and commands have no per-source count.
  lemma OtherCounters(s: Stats, n: nat, tracker: map<u32, SequenceState>, t: Stats)
    requires Balanced(s, n) && Mirrors(s, tracker)
    requires t.sources == s.sources && t.malformedByReason == s.malformedByReason && t.malformed == s.malformed
    requires Expected(t, n) == Expected(s, n)
    ensures Balanced(t, n) && Mirrors(t, tracker)
  {
    hide Total, Mirrors;
    MirrorsSameSources(s, tracker, t);
  }

  // ---------- Every event keeps the books ----------

  ghost predicate Booked(r: ReceiverState) {
    && Balanced(r.stats, r.writer.records) && Mirrors(r.stats, r.tracker)
    && (!r.writer.isOpen ==> r.writer.records == 0)
  }

  lemma CompletionIsBooked(r: ReceiverState, m: CompletedMessage)
    requires Booked(r)
    ensures Booked(OnComplete(r, m))
  {
    hide Balanced, Mirrors, CountComplete, CountRecord;
    CompleteBalances(r.stats, r.writer.records, r.tracker, m);
    RecordBalances(CountComplete(r.stats, m), r.writer.records, r.tracker, m.sourceId);
    var c := CountComplete(r.stats, m);
    OtherCounters(c, r.writer.records, r.tracker, c.(recordsSkipped := c.recordsSkipped + 1));
    OtherCounters(c, r.writer.records, r.tracker, c.(writeErrors := c.writeErrors + 1));
  }

  lemma DatagramIsBooked(limits: Limits, r: ReceiverState, d: bytes, now: u64)
    requires ValidTable(limits, r.table) && Booked(r)
    ensures Booked(HandleDatagram(limits, r, d, now))
  {
    hide Reassembly.Add, Balanced, Mirrors, OnComplete, CountDatagram, CountObservation,
      ObserveOne, CountDuplicate, NoteReason, BlameSource;
    if Verdict(d) != Accepted {
      if HeaderWasRead(Verdict(d)) {
        MalformedBalances(r.stats, r.writer.records, r.tracker, Rejected(Verdict(d)), DecodeHeader(d).sourceId);
      } else {
        UnreadBalances(r.stats, r.writer.records, r.tracker, Verdict(d));
      }
    } else {
      var f := FragmentOf(d);
      var h, a := f.header, Add(limits, r.table, f, now);
      DatagramBalances(r.stats, r.writer.records, r.tracker, h.sourceId, |d|);
      var counted := r.(table := a.table, stats := CountDatagram(r.stats, h.sourceId, |d|));
      ObservationBalances(counted.stats, r.writer.records, r.tracker, h.sourceId, h.sequence);
      var seen := if a.newMessage then ObserveMessage(counted, h) else counted;
      match a.verdict
      case Complete => CompletionIsBooked(seen, a.out);
      case Incomplete =>
      case Duplicate => DuplicateBalances(seen.stats, r.writer.records, seen.tracker, h.sourceId);
      case Malformed => MalformedBalances(seen.stats, r.writer.records, seen.tracker, FragmentInconsistent, h.sourceId);
    }
  }

  lemma CommandIsBooked(r: ReceiverState, c: Command, created: u64)
    requires Booked(r)
    ensures Booked(HandleCommand(r, c, created).state)
  {
    hide Balanced, Mirrors, SetRecording;
    var counted := r.(stats := r.stats.(commands := r.stats.commands + 1));
    OtherCounters(r.stats, r.writer.records, r.tracker, counted.stats);
    OtherCounters(r.stats, r.writer.records, r.tracker, CountWriteError(counted.stats));
    SettingIsBooked(counted, true, created);
    SettingIsBooked(counted, false, created);
  }

  lemma SettingIsBooked(r: ReceiverState, enabled: bool, created: u64)
    requires Booked(r)
    ensures Booked(SetRecording(r, enabled, created).state)
  {
    hide Balanced, Mirrors;
    OtherCounters(r.stats, r.writer.records, r.tracker, CountWriteError(r.stats));
  }

  lemma EventIsBooked(limits: Limits, r: ReceiverState, e: Event)
    requires ValidTable(limits, r.table) && Booked(r)
    ensures Booked(HandleEvent(limits, r, e))
  {
    hide HandleDatagram, HandleCommand, SetRecording, Balanced, Mirrors, CountIncomplete, Expire;
    match e
    case DatagramArrives(d, now) => DatagramIsBooked(limits, r, d, now);
    case CommandArrives(c, created) => CommandIsBooked(r, c, created);
    case RecordingSet(enabled, created) => SettingIsBooked(r, enabled, created);
    case SweepDue(now) => IncompleteBalances(r.stats, r.writer.records, r.tracker,
                                             Expire(limits, r.table, now).expired);
    case FlushDue(sync) => OtherCounters(r.stats, r.writer.records, r.tracker, CountWriteError(r.stats));
  }

  // Over every run: per-source counts of datagrams, messages, bytes, incomplete messages and duplicates
  // sum to the totals, per-source records sum to the records written, per-source malformed counts sum to the
  // malformed datagrams whose header was read, the counts by reason sum to all malformed ones, and the gap
  // counts shown are those of the sequence tracker.
  lemma {:induction false} CountsAddUp(limits: Limits, io: seq<IoEvent>, events: seq<Event>)
    ensures Booked(HandleAll(limits, NewReceiver(io), events))
    decreases |events|
  {
    hide HandleEvent, Booked;
    if events == [] {
      NewIsBooked(io);
    } else {
      CountsAddUp(limits, io, events[..|events| - 1]);
      EventIsBooked(limits, HandleAll(limits, NewReceiver(io), events[..|events| - 1]), events[|events| - 1]);
    }
  }

  // They still do in the final statistics, after the last sweep and with the file closed.
  lemma FinalCountsAddUp(limits: Limits, io: seq<IoEvent>, events: seq<Event>, now: u64)
    ensures var s := ShutDown(limits, HandleAll(limits, NewReceiver(io), events), now).state;
      Balanced(s.stats, s.writer.records) && Mirrors(s.stats, s.tracker)
  {
    hide HandleAll, Balanced, Mirrors, Expire, CountIncomplete;
    var r := HandleAll(limits, NewReceiver(io), events);
    CountsAddUp(limits, io, events);
    IncompleteBalances(r.stats, r.writer.records, r.tracker, Expire(limits, r.table, now).expired);
    var swept := Sweep(limits, r, now);
    OtherCounters(swept.stats, r.writer.records, r.tracker, CountWriteError(swept.stats));
  }

  lemma NewIsBooked(io: seq<IoEvent>)
    ensures Booked(NewReceiver(io))
  {
    hide Balanced, Mirrors;
    NothingCounted();
    NothingMirrored();
  }

  lemma TotalOfNone(m: map<u32, SourceCounts>)
    requires m == map[]
    ensures Total(m) == Sums(0, 0, 0, 0, 0, 0, 0)
  {
  }

  lemma NoReasons(s: Stats)
    requires s.malformedByReason == map[]
    ensures Attributed(s) == 0 && Unattributed(s) == 0
  {
  }

  lemma NothingCounted()
    ensures Balanced(NO_STATS, 0)
  {
    hide Total, Attributed, Unattributed;
    TotalOfNone(NO_STATS.sources);
    NoReasons(NO_STATS);
  }

  lemma NothingMirrored()
    ensures Mirrors(NO_STATS, map[])
  {
    assert forall id: u32 :: CountsOf(NO_STATS, id) == NO_COUNTS && StateOf(map[], id) == UNSEEN;
  }

  // ---------- Incomplete means expired ----------

  lemma DatagramsLeaveIncomplete(limits: Limits, r: ReceiverState, d: bytes, now: u64)
    requires ValidTable(limits, r.table)
    ensures HandleDatagram(limits, r, d, now).stats.incomplete == r.stats.incomplete
  {
    hide Reassembly.Add, Account, ObserveMessage, CountsOf, DecodeHeader, FragmentOf;
    if Verdict(d) == Accepted {
      var f := FragmentOf(d);
      var a := Add(limits, r.table, f, now);
      var counted := r.(table := a.table, stats := CountDatagram(r.stats, f.header.sourceId, |d|));
      ObservingLeavesIncomplete(counted, f.header);
      AccountLeavesIncomplete(if a.newMessage then ObserveMessage(counted, f.header) else counted, f.header, a);
    }
  }

  lemma ObservingLeavesIncomplete(r: ReceiverState, h: Header)
    ensures ObserveMessage(r, h).stats.incomplete == r.stats.incomplete
  {
    hide ObserveOne, CountsOf;
  }

  lemma AccountLeavesIncomplete(r: ReceiverState, h: Header, a: AddOutcome)
    ensures Account(r, h, a).stats.incomplete == r.stats.incomplete
  {
    hide CountsOf, WriteRecord;
  }

  lemma CommandsLeaveIncomplete(r: ReceiverState, c: Command, created: u64)
    ensures HandleCommand(r, c, created).state.stats.incomplete == r.stats.incomplete
  {
  }

  lemma {:induction false} IncompleteCounts(s: Stats, expired: seq<ExpiredMessage>)
    ensures CountIncomplete(s, expired).incomplete == s.incomplete + |expired|
  {
    if expired != [] {
      IncompleteCounts(s, expired[..|expired| - 1]);
    }
  }

  // The number of entries that sweeps removed in a run.
  function ExpiredDuring(limits: Limits, r: ReceiverState, events: seq<Event>): int
    requires ValidTable(limits, r.table)
  {
    if events == [] then 0
    else
      var earlier, e := events[..|events| - 1], events[|events| - 1];
      var before := HandleAll(limits, r, earlier);
      ExpiredDuring(limits, r, earlier) +
      if e.SweepDue? then |before.table.entries| - |HandleEvent(limits, before, e).table.entries| else 0
  }

  // Over every run, the incomplete counter equals exactly the number of expired messages; an evicted
  // message is never counted in it.
  lemma {:induction false} IncompleteIsExpired(limits: Limits, io: seq<IoEvent>, events: seq<Event>)
    ensures HandleAll(limits, NewReceiver(io), events).stats.incomplete ==
        ExpiredDuring(limits, NewReceiver(io), events)
    decreases |events|
  {
    hide HandleDatagram, HandleCommand, FlushTick;
    if events != [] {
      var earlier, e := events[..|events| - 1], events[|events| - 1];
      var before := HandleAll(limits, NewReceiver(io), earlier);
      IncompleteIsExpired(limits, io, earlier);
      EventCountsExpired(limits, before, e);
    }
  }

  lemma EventCountsExpired(limits: Limits, r: ReceiverState, e: Event)
    requires ValidTable(limits, r.table)
    ensures var s := HandleEvent(limits, r, e);
      s.stats.incomplete - r.stats.incomplete == if e.SweepDue? then |r.table.entries| - |s.table.entries| else 0
  {
    match e
    case DatagramArrives(d, now) => DatagramsLeaveIncomplete(limits, r, d, now);
    case CommandArrives(c, created) => CommandsLeaveIncomplete(r, c, created);
    case RecordingSet(_, _) =>
    case SweepDue(now) =>
      IncompleteCounts(r.stats, Expire(limits, r.table, now).expired);
      ExpireFrontKeeps(limits, r.table, now);
    case FlushDue(_) =>
  }
}
