// Evicted messages and the receiver's incomplete counter: exactly when the counter is what its comment says,
// the number of messages discarded by timeout or eviction (tools/receiver/receiver_stats.hpp:17,
// tools/receiver/receiver.cpp:342-349, tools/receiver/lib/reassembler.cpp:33-36).
module Evictions {
  import opened ByteOrder
  import opened WireProtocol
  import opened Fragmentation
  import opened Reassembly
  import opened ReassemblyRuns
  import opened AgeQueue
  import opened CaptureModel
  import opened ReceiverModel
  import opened ReceiverCounts

  // e brings a new message while the table is full.
  predicate Overflows(limits: Limits, r: ReceiverState, e: Event) {
    e.DatagramArrives? && Verdict(e.d) == Accepted && Creates(limits, r.table, AddOp(FragmentOf(e.d), e.now)) &&
    |r.table.entries| >= limits.maxPending
  }

  // The number of entries that e removes from the table to make room.
  function EvictedBy(limits: Limits, r: ReceiverState, e: Event): int {
    if e.DatagramArrives? && Verdict(e.d) == Accepted && Creates(limits, r.table, AddOp(FragmentOf(e.d), e.now))
    then |r.table.entries| - |MakeRoom(r.table, limits.maxPending).entries|
    else 0
  }

  function EvictedDuring(limits: Limits, r: ReceiverState, events: seq<Event>): int
    requires ValidTable(limits, r.table)
  {
    if events == [] then 0
    else
      var earlier := events[..|events| - 1];
      EvictedDuring(limits, r, earlier) + EvictedBy(limits, HandleAll(limits, r, earlier), events[|events| - 1])
  }

  predicate NeverOverflows(limits: Limits, r: ReceiverState, events: seq<Event>)
    requires ValidTable(limits, r.table)
  {
    events != [] ==>
      NeverOverflows(limits, r, events[..|events| - 1]) &&
      !Overflows(limits, HandleAll(limits, r, events[..|events| - 1]), events[|events| - 1])
  }

  // A table within its limit loses exactly one entry if it is full, and none otherwise.
  lemma MakingRoomTakesOne(limits: Limits, t: Table)
    requires ValidTable(limits, t)
    ensures |MakeRoom(t, limits.maxPending).entries| ==
            if |t.entries| >= limits.maxPending then limits.maxPending - 1 else |t.entries|
  {
    if |t.entries| >= limits.maxPending {
      EvictOldestKeeps(t);
      assert t.order == [] ==> t.entries == map[];
    }
  }

  lemma EventEvictsIff(limits: Limits, r: ReceiverState, e: Event)
    requires ValidTable(limits, r.table)
    ensures EvictedBy(limits, r, e) == if Overflows(limits, r, e) then 1 else 0
  {
    hide MakeRoom;
    MakingRoomTakesOne(limits, r.table);
  }

  lemma AddCountsEvictions(limits: Limits, t: Table, f: Fragment, now: u64)
    requires ValidTable(limits, t)
    ensures Add(limits, t, f, now).table.evictions == t.evictions +
      if Creates(limits, t, AddOp(f, now)) then |t.entries| - |MakeRoom(t, limits.maxPending).entries| else 0
  {
    hide MakeRoom, Store;
    if f.header.fragmentCount != 1 && f.header.messageLength <= limits.maxMessageLength {
      WithEntryIsValid(limits, t, f, now);
      MakeRoomKeeps(t, limits.maxPending);
      StoreConserves(limits, WithEntry(limits, t, f.header, now), f, KeyOf(f.header) !in t.entries);
    }
  }

  lemma EventCountsEvictions(limits: Limits, r: ReceiverState, e: Event)
    requires ValidTable(limits, r.table)
    ensures HandleEvent(limits, r, e).table.evictions == r.table.evictions + EvictedBy(limits, r, e)
  {
    hide Reassembly.Add, MakeRoom, HandleCommand, SetRecording, FlushTick, ExpireFront, Creates;
    match e
    case DatagramArrives(d, now) =>
      if Verdict(d) == Accepted { AddCountsEvictions(limits, r.table, FragmentOf(d), now); }
    case SweepDue(now) => ExpireFrontKeeps(limits, r.table, now);
    case CommandArrives(_, _) =>
    case RecordingSet(_, _) =>
    case FlushDue(_) =>
  }

  // Over every run, evictions() is the number of entries that were removed to make room, and it is zero if and
  // only if no new message ever arrived while the table was full.
  lemma {:induction false} EvictionsAreOverflows(limits: Limits, io: seq<IoEvent>, events: seq<Event>)
    ensures HandleAll(limits, NewReceiver(io), events).table.evictions == EvictedDuring(limits, NewReceiver(io), events)
    ensures EvictedDuring(limits, NewReceiver(io), events) >= 0
    ensures EvictedDuring(limits, NewReceiver(io), events) == 0 <==> NeverOverflows(limits, NewReceiver(io), events)
    decreases |events|
  {
    hide HandleEvent, Overflows, EvictedBy;
    if events != [] {
      var earlier, e := events[..|events| - 1], events[|events| - 1];
      var before := HandleAll(limits, NewReceiver(io), earlier);
      EvictionsAreOverflows(limits, io, earlier);
      EventEvictsIff(limits, before, e);
      EventCountsEvictions(limits, before, e);
    }
  }

  // Over every run: incomplete is the number of messages discarded by timeout or eviction if and only if no
  // new message ever arrived while the table was full; otherwise it is too low by the evicted ones.
  lemma IncompleteIsDiscardedIff(limits: Limits, io: seq<IoEvent>, events: seq<Event>)
    ensures var start := NewReceiver(io);
      var r := HandleAll(limits, start, events);
      && r.stats.incomplete + r.table.evictions ==
          ExpiredDuring(limits, start, events) + EvictedDuring(limits, start, events)
      && (r.stats.incomplete == ExpiredDuring(limits, start, events) + EvictedDuring(limits, start, events) <==>
          NeverOverflows(limits, start, events))
  {
    hide HandleAll, ExpiredDuring, EvictedDuring, NeverOverflows;
    IncompleteIsExpired(limits, io, events);
    EvictionsAreOverflows(limits, io, events);
  }

  // ---------- Runs in which it fails ----------

  lemma {:induction false} OneMore(limits: Limits, r: ReceiverState, events: seq<Event>, e: Event)
    requires ValidTable(limits, r.table)
    ensures HandleAll(limits, r, events + [e]) == HandleEvent(limits, HandleAll(limits, r, events), e)
    ensures EvictedDuring(limits, r, events + [e]) ==
            EvictedDuring(limits, r, events) + EvictedBy(limits, HandleAll(limits, r, events), e)
  {
    hide HandleEvent, EvictedBy;
    assert (events + [e])[..|events + [e]| - 1] == events;
  }

  // m is sent in several fragments that a receiver with these limits buffers.
  predicate Buffers(limits: Limits, c: Capacity, m: Message) {
    Transmittable(m, c) && Count(m, c) > 1 && !HasFragmentedFlag(m.flags) && |m.data| <= limits.maxMessageLength
  }

  lemma FirstFragmentCreates(limits: Limits, c: Capacity, m: Message, r: ReceiverState, now: u64)
    requires Buffers(limits, c, m) && ValidTable(limits, r.table)
    ensures var d := Datagram(m, c, 0);
      && Verdict(d) == Accepted && KeyOf(DecodeHeader(d)) == Key(m.sourceId, m.sequence)
      && (Creates(limits, r.table, AddOp(FragmentOf(d), now)) <==> Key(m.sourceId, m.sequence) !in r.table.entries)
      && (Key(m.sourceId, m.sequence) !in r.table.entries ==>
            Key(m.sourceId, m.sequence) in HandleEvent(limits, r, DatagramArrives(d, now)).table.entries)
  {
    hide Datagram, DecodeHeader, Verdict, Reassembly.Add;
    var d := Datagram(m, c, 0);
    DatagramIsAccepted(m, c, 0);
    if Key(m.sourceId, m.sequence) !in r.table.entries {
      CreationSetsOneFlag(limits, r.table, FragmentOf(d), now);
    }
  }

  // With room for one pending message, let the first fragments of any two fragmented messages arrive. One message
  // is evicted, and incomplete stays zero.
  lemma EvictedIsNotIncomplete(limits: Limits, c: Capacity, a: Message, b: Message, io: seq<IoEvent>)
    requires limits.maxPending == 1 && Buffers(limits, c, a) && Buffers(limits, c, b)
    requires a.sourceId != b.sourceId || a.sequence != b.sequence
    ensures var events := [DatagramArrives(Datagram(a, c, 0), 0)] + [DatagramArrives(Datagram(b, c, 0), 0)];
      var r := HandleAll(limits, NewReceiver(io), events);
      && r.stats.incomplete == 0 && r.table.evictions == 1
      && EvictedDuring(limits, NewReceiver(io), events) == 1 && ExpiredDuring(limits, NewReceiver(io), events) == 0
  {
    hide HandleAll, HandleEvent, Datagram, Verdict, Creates, ExpiredDuring, EvictedDuring;
    var start, first := NewReceiver(io), DatagramArrives(Datagram(a, c, 0), 0);
    var one := HandleEvent(limits, start, first);
    EventKeepsTableValid(limits, start, first);
    FirstFragmentCreates(limits, c, a, start, 0);
    NotThis(limits, one, a, b);
    FirstFragmentCreates(limits, c, b, one, 0);
    SecondOverflows(limits, io, first, DatagramArrives(Datagram(b, c, 0), 0));
  }

  lemma SecondOverflows(limits: Limits, io: seq<IoEvent>, first: Event, second: Event)
    requires limits.maxPending == 1 && first.DatagramArrives? && second.DatagramArrives?
    requires var one := HandleEvent(limits, NewReceiver(io), first);
      ValidTable(limits, one.table) && Overflows(limits, one, second)
    ensures var r := HandleAll(limits, NewReceiver(io), [first] + [second]);
      && r.stats.incomplete == 0 && r.table.evictions == 1
      && EvictedDuring(limits, NewReceiver(io), [first] + [second]) == 1
      && ExpiredDuring(limits, NewReceiver(io), [first] + [second]) == 0
  {
    hide HandleAll, HandleEvent, EvictedBy, EvictedDuring, ExpiredDuring, Creates, Verdict;
    var start := NewReceiver(io);
    TwoEvents(limits, start, first, second);
    EmptyDoesNotOverflow(limits, io, first);
    EventEvictsIff(limits, start, first);
    EventEvictsIff(limits, HandleEvent(limits, start, first), second);
    EvictionsAreOverflows(limits, io, [first] + [second]);
    IncompleteIsExpired(limits, io, [first] + [second]);
  }

  lemma EmptyDoesNotOverflow(limits: Limits, io: seq<IoEvent>, e: Event)
    ensures !Overflows(limits, NewReceiver(io), e)
  {
  }

  lemma TwoEvents(limits: Limits, r: ReceiverState, first: Event, second: Event)
    requires ValidTable(limits, r.table) && !first.SweepDue? && !second.SweepDue?
    ensures var one := HandleEvent(limits, r, first);
      && ValidTable(limits, one.table)
      && EvictedDuring(limits, r, [first] + [second]) == EvictedBy(limits, r, first) + EvictedBy(limits, one, second)
      && ExpiredDuring(limits, r, [first] + [second]) == 0
  {
    hide HandleEvent, EvictedBy, ValidTable;
    EventKeepsTableValid(limits, r, first);
    assert [] + [first] == [first];
    OneMore(limits, r, [], first);
    OneMore(limits, r, [first], second);
    NoSweepsNoExpiry(limits, r, [], first);
    NoSweepsNoExpiry(limits, r, [first], second);
  }

  // A table that holds the key of a, and room for one, does not hold that of b.
  lemma NotThis(limits: Limits, r: ReceiverState, a: Message, b: Message)
    requires limits.maxPending == 1 && ValidTable(limits, r.table)
    requires Key(a.sourceId, a.sequence) in r.table.entries && (a.sourceId != b.sourceId || a.sequence != b.sequence)
    ensures Key(b.sourceId, b.sequence) !in r.table.entries && |r.table.entries| == 1
  {
    var k, j := Key(a.sourceId, a.sequence), Key(b.sourceId, b.sequence);
    if j in r.table.entries {
      assert |{k, j}| == 2;
      SubsetIsNoLarger({k, j}, r.table.entries.Keys);
    }
    SubsetIsNoLarger({k}, r.table.entries.Keys);
  }

  lemma {:induction false} SubsetIsNoLarger(s: set<Key>, t: set<Key>)
    requires s <= t
    ensures |s| <= |t|
  {
    assert t == s + (t - s);
  }

  lemma NoSweepsNoExpiry(limits: Limits, r: ReceiverState, events: seq<Event>, e: Event)
    requires ValidTable(limits, r.table) && !e.SweepDue?
    ensures ExpiredDuring(limits, r, events + [e]) == ExpiredDuring(limits, r, events)
  {
    hide HandleEvent;
    assert (events + [e])[..|events + [e]| - 1] == events;
  }

  // One such run: two messages of two bytes each, in fragments of one byte.
  function Tiny(n: u64): Message {
    Message(7, n, 0, 0, [0, 0])
  }

  lemma TinyIsBuffered(limits: Limits, n: u64)
    requires limits.maxMessageLength >= 2
    ensures Buffers(limits, 1, Tiny(n))
  {
  }

  function FirstArrives(limits: Limits, m: Message): Event
    requires Buffers(limits, 1, m)
  {
    DatagramArrives(Datagram(m, 1, 0), 0)
  }

  function AfterFirsts(limits: Limits, io: seq<IoEvent>, a: Message, b: Message): ReceiverState
    requires Buffers(limits, 1, a) && Buffers(limits, 1, b)
  {
    HandleAll(limits, NewReceiver(io), [FirstArrives(limits, a)] + [FirstArrives(limits, b)])
  }

  lemma EvictionWitness(limits: Limits, io: seq<IoEvent>)
    requires limits.maxPending == 1 && limits.maxMessageLength >= 2
    ensures Buffers(limits, 1, Tiny(0)) && Buffers(limits, 1, Tiny(1))
    ensures var r := AfterFirsts(limits, io, Tiny(0), Tiny(1)); r.table.evictions == 1 && r.stats.incomplete == 0
  {
    hide Datagram, HandleAll, Buffers;
    TinyIsBuffered(limits, 0);
    TinyIsBuffered(limits, 1);
    EvictedIsNotIncomplete(limits, 1, Tiny(0), Tiny(1), io);
  }
}
