// What the receiver reports as missing when the channel loses datagrams but keeps their order
// (tools/receiver/receiver.cpp:223-241, tools/receiver/lib/reassembler.cpp:26-48,
// tools/receiver/lib/sequence_tracker.cpp).
module LossReporting {
  import opened ByteOrder
  import opened WireProtocol
  import opened Fragmentation
  import opened BridgeModel
  import opened BridgeRuns
  import opened Reassembly
  import opened SequenceTracker
  import opened CaptureModel
  import opened ReceiverModel

  // d is from source id and this receiver takes it: it is valid, and unfragmented or not too long.
  predicate Acceptable(limits: Limits, d: bytes, id: u32) {
    && Verdict(d) == Accepted
    && DecodeHeader(d).sourceId == id
    && (DecodeHeader(d).fragmentCount == 1 || DecodeHeader(d).messageLength <= limits.maxMessageLength)
  }

  predicate Brings(limits: Limits, e: Event, id: u32) {
    e.DatagramArrives? && Acceptable(limits, e.d, id)
  }

  // The sequence numbers of the acceptable datagrams of source id that arrive, in order.
  function Arrivals(limits: Limits, events: seq<Event>, id: u32): seq<u64> {
    if events == [] then []
    else
      var e := events[|events| - 1];
      Arrivals(limits, events[..|events| - 1], id) + if Brings(limits, e, id) then [DecodeHeader(e.d).sequence] else []
  }

  // e makes the tracker observe source id: it brings a fragment whose key is not pending.
  predicate Observes(limits: Limits, r: ReceiverState, e: Event, id: u32)
    requires ValidTable(limits, r.table)
  {
    Brings(limits, e, id) && Add(limits, r.table, FragmentOf(e.d), e.now).newMessage
  }

  // The sequence numbers that the tracker observes for source id.
  function Observed(limits: Limits, r: ReceiverState, events: seq<Event>, id: u32): seq<u64>
    requires ValidTable(limits, r.table)
  {
    if events == [] then []
    else
      var earlier, e := events[..|events| - 1], events[|events| - 1];
      Observed(limits, r, earlier, id) +
      if Observes(limits, HandleAll(limits, r, earlier), e, id) then [DecodeHeader(e.d).sequence] else []
  }

  // ---------- The tracker sees exactly what is observed ----------

  lemma NewMessageIsAcceptable(limits: Limits, t: Table, f: Fragment, now: u64)
    requires ValidTable(limits, t)
    ensures Add(limits, t, f, now).newMessage <==>
      f.header.fragmentCount == 1
        || (f.header.messageLength <= limits.maxMessageLength && KeyOf(f.header) !in t.entries)
  {
    hide WithEntry;
  }

  lemma EventTracks(limits: Limits, r: ReceiverState, e: Event, id: u32)
    requires ValidTable(limits, r.table)
    ensures StateOf(HandleEvent(limits, r, e).tracker, id) ==
      if Observes(limits, r, e, id) then ObserveOne(StateOf(r.tracker, id), DecodeHeader(e.d).sequence).state
      else StateOf(r.tracker, id)
  {
    hide Reassembly.Add, Account, ObserveOne, HandleCommand, SetRecording, FlushTick;
    if e.DatagramArrives? && Verdict(e.d) == Accepted {
      NewMessageIsAcceptable(limits, r.table, FragmentOf(e.d), e.now);
    }
  }

  lemma {:induction false} TrackerIsTrack(limits: Limits, io: seq<IoEvent>, events: seq<Event>, id: u32)
    ensures var r := HandleAll(limits, NewReceiver(io), events);
      StateOf(r.tracker, id) == Track(UNSEEN, Observed(limits, NewReceiver(io), events, id))
    decreases |events|
  {
    hide HandleEvent, ObserveOne, Reassembly.Add;
    if events != [] {
      var earlier, e := events[..|events| - 1], events[|events| - 1];
      var before, seen := HandleAll(limits, NewReceiver(io), earlier), Observed(limits, NewReceiver(io), earlier, id);
      TrackerIsTrack(limits, io, earlier, id);
      EventTracks(limits, before, e, id);
      if Observes(limits, before, e, id) {
        AppendOne(seen, DecodeHeader(e.d).sequence);
      } else {
        assert seen + [] == seen;
      }
    }
  }

  // ---------- What is observed is what arrives ----------

  // Every pending message of source id has been observed.
  ghost predicate PendingWereObserved(t: Table, id: u32, seen: seq<u64>) {
    forall k :: k in t.entries && k.sourceId == id ==> k.sequence in seen
  }

  lemma AddingKeepsObserved(limits: Limits, t: Table, f: Fragment, now: u64, id: u32, seen: seq<u64>)
    requires ValidTable(limits, t) && PendingWereObserved(t, id, seen)
    ensures var a := Add(limits, t, f, now);
      PendingWereObserved(a.table, id,
                          if a.newMessage && f.header.sourceId == id then seen + [f.header.sequence] else seen)
  {
    if f.header.fragmentCount != 1 && f.header.messageLength <= limits.maxMessageLength {
      WithEntryIsValid(limits, t, f, now);
      MakeRoomKeeps(t, limits.maxPending);
      StoringAddsNoKey(limits, WithEntry(limits, t, f.header, now), f, KeyOf(f.header) !in t.entries);
      var a := Add(limits, t, f, now);
      forall k | k in a.table.entries && k.sourceId == id
        ensures k.sequence in if a.newMessage && f.header.sourceId == id then seen + [f.header.sequence] else seen
      {
        if k != KeyOf(f.header) {
          assert k in t.entries;
        }
      }
    }
  }

  lemma StoringAddsNoKey(limits: Limits, t: Table, f: Fragment, newMessage: bool)
    requires KeyOf(f.header) in t.entries && EntryOk(limits, t.entries[KeyOf(f.header)])
    ensures var a := Store(limits, t, f, newMessage);
      a.newMessage == newMessage && forall k :: k in a.table.entries ==> k in t.entries
  {
  }

  lemma EventKeepsObserved(limits: Limits, r: ReceiverState, e: Event, id: u32, seen: seq<u64>)
    requires ValidTable(limits, r.table) && PendingWereObserved(r.table, id, seen)
    ensures PendingWereObserved(HandleEvent(limits, r, e).table, id,
      if Observes(limits, r, e, id) then seen + [DecodeHeader(e.d).sequence] else seen)
  {
    hide Account, HandleCommand, SetRecording, FlushTick, Reassembly.Add, PendingWereObserved, Expire;
    match e
    case DatagramArrives(d, now) =>
      if Verdict(d) == Accepted {
        AddingKeepsObserved(limits, r.table, FragmentOf(d), now, id, seen);
        NewMessageIsAcceptable(limits, r.table, FragmentOf(d), now);
      }
    case SweepDue(now) => SweepingKeepsObserved(limits, r.table, now, id, seen);
    case CommandArrives(_, _) =>
    case RecordingSet(_, _) =>
    case FlushDue(_) =>
  }

  lemma SweepingKeepsObserved(limits: Limits, t: Table, now: u64, id: u32, seen: seq<u64>)
    requires ValidTable(limits, t) && PendingWereObserved(t, id, seen)
    ensures PendingWereObserved(Expire(limits, t, now).table, id, seen)
  {
    ExpireFrontKeeps(limits, t, now);
  }

  // Every acceptable arrival is observed or belongs to a pending message that was, so the same numbers
  // are observed and arrive; eviction only makes some of them be observed again.
  ghost predicate SameNumbers(observed: seq<u64>, arrived: seq<u64>) {
    && (observed == [] <==> arrived == [])
    && (arrived != [] ==> observed[0] == arrived[0])
    && (forall x: u64 :: x in observed <==> x in arrived)
    && (Nondecreasing(arrived) ==> Nondecreasing(observed))
  }

  lemma BringingKeepsSameNumbers(observed: seq<u64>, arrived: seq<u64>, x: u64, isObserved: bool)
    requires SameNumbers(observed, arrived) && (isObserved || x in observed)
    ensures SameNumbers(if isObserved then observed + [x] else observed, arrived + [x])
  {
    var a := arrived + [x];
    if Nondecreasing(a) {
      assert forall i :: 0 <= i < |arrived| ==> a[i] == arrived[i];
      assert Nondecreasing(arrived);
      forall y: u64 | y in observed
        ensures y <= x
      {
        assert y in arrived;
        var i :| 0 <= i < |arrived| && arrived[i] == y;
        assert a[i] <= a[|arrived|];
      }
      assert forall i :: 0 <= i < |observed| ==> observed[i] in observed;
    }
  }

  lemma {:induction false} ObservedIsArrived(limits: Limits, io: seq<IoEvent>, events: seq<Event>, id: u32)
    ensures var seen := Observed(limits, NewReceiver(io), events, id);
      && PendingWereObserved(HandleAll(limits, NewReceiver(io), events).table, id, seen)
      && SameNumbers(seen, Arrivals(limits, events, id))
    decreases |events|
  {
    hide HandleEvent, Observes, SameNumbers, Acceptable;
    if events == [] {
      NothingIsSame();
    } else {
      var earlier, e := events[..|events| - 1], events[|events| - 1];
      var before, seen := HandleAll(limits, NewReceiver(io), earlier), Observed(limits, NewReceiver(io), earlier, id);
      ObservedIsArrived(limits, io, earlier, id);
      EventKeepsObserved(limits, before, e, id, seen);
      ObservingIsBringing(limits, before, e, id, seen);
      assert seen + [] == seen && Arrivals(limits, earlier, id) + [] == Arrivals(limits, earlier, id);
      if Brings(limits, e, id) {
        BringingKeepsSameNumbers(seen, Arrivals(limits, earlier, id), DecodeHeader(e.d).sequence,
                                 Observes(limits, before, e, id));
      }
    }
  }

  lemma NothingIsSame()
    ensures SameNumbers([], [])
  {
  }

  lemma ObservingIsBringing(limits: Limits, r: ReceiverState, e: Event, id: u32, seen: seq<u64>)
    requires ValidTable(limits, r.table) && PendingWereObserved(r.table, id, seen)
    ensures Observes(limits, r, e, id) ==> Brings(limits, e, id)
    ensures Brings(limits, e, id)
        ==> Verdict(e.d) == Accepted && (Observes(limits, r, e, id) || DecodeHeader(e.d).sequence in seen)
  {
    hide Reassembly.Add;
    if Brings(limits, e, id) {
      NewMessageIsAcceptable(limits, r.table, FragmentOf(e.d), e.now);
    }
  }

  lemma NeverSeenAlike(a: seq<u64>, b: seq<u64>, first: u64, last: u64)
    requires forall x: u64 :: x in a <==> x in b
    ensures NeverObserved(a, first, last) == NeverObserved(b, first, last)
  {
    forall x: int | first < x <= last
      ensures x in a <==> x in b
    {
      var y: u64 := x;
      assert y in a <==> y in b;
    }
  }

  // If the datagrams of a source never arrive out of order, its missing count is exactly the number of
  // sequence numbers between the first and the last that arrived of which no acceptable datagram arrived,
  // whatever was evicted, expired or interleaved from other sources in between.
  lemma MissingIsExact(limits: Limits, io: seq<IoEvent>, events: seq<Event>, id: u32)
    requires var a := Arrivals(limits, events, id); a != [] && Nondecreasing(a) && BelowTop(a)
    ensures var a, q := Arrivals(limits, events, id), StateOf(HandleAll(limits, NewReceiver(io), events).tracker, id);
      q.lastSequence == a[|a| - 1] && q.missing == |NeverObserved(a, a[0], a[|a| - 1])|
  {
    hide Arrivals, Observed, HandleAll, Track;
    var a, seen := Arrivals(limits, events, id), Observed(limits, NewReceiver(io), events, id);
    TrackerIsTrack(limits, io, events, id);
    ObservedIsArrived(limits, io, events, id);
    forall i | 0 <= i < |seen|
      ensures seen[i] < TWO_TO_THE_64 - 1
    {
      assert seen[i] in seen;
      assert seen[i] in a;
    }
    ExactWhenNondecreasing(seen);
    assert a[|a| - 1] in a && seen[|seen| - 1] in seen;
    assert a[|a| - 1] in seen && seen[|seen| - 1] in a;
    NeverSeenAlike(seen, a, a[0], a[|a| - 1]);
  }

  // ---------- The bridge sends in order ----------

  // The sequence numbers on the wire never go backwards within a source.
  ghost predicate InOrder(wire: seq<bytes>) {
    forall a, b :: 0 <= a < b < |wire| ==> NotAfter(wire[a], wire[b])
  }

  predicate NotAfter(d: bytes, e: bytes) {
    Verdict(d) == Accepted && Verdict(e) == Accepted && DecodeHeader(d).sourceId == DecodeHeader(e).sourceId ==>
      DecodeHeader(d).sequence <= DecodeHeader(e).sequence
  }

  lemma EmittedHeader(c: Capacity, log: seq<Transmission>, d: bytes) returns (j: nat)
    requires forall j :: 0 <= j < |log| ==> Sendable(c, log[j])
    requires InSequence(log) && |log| < TWO_TO_THE_64 && d in Emitted(c, log)
    ensures j < |log| && Verdict(d) == Accepted && DecodeHeader(d).sourceId == log[j].message.sourceId
    ensures DecodeHeader(d).sequence == |OfSource(log[..j], log[j].message.sourceId)| < TWO_TO_THE_64 - 1
  {
    hide Emitted, InSequence, OfSource, Verdict, DecodeHeader, HeaderBytes;
    var i;
    j, i := WireComesFromLog(c, log, d);
    assert Sendable(c, log[j]);
    DatagramIsAccepted(log[j].message, c, i);
    SequenceAt(log, j);
    OfSourceGrows(log, log[j].message.sourceId, j, j);
  }

  lemma {:induction false} BridgeSendsInOrder(c: Capacity, log: seq<Transmission>)
    requires forall j :: 0 <= j < |log| ==> Sendable(c, log[j])
    requires InSequence(log) && |log| < TWO_TO_THE_64
    ensures InOrder(Emitted(c, log))
  {
    hide OfSource;
    if log != [] {
      var n := |log| - 1;
      var before, t := Emitted(c, log[..n]), log[n];
      BridgeSendsInOrder(c, log[..n]);
      var wire := Emitted(c, log);
      assert wire == before + Datagrams(t.message, c, t.sent);
      forall a, b | 0 <= a < b < |wire|
        ensures NotAfter(wire[a], wire[b])
      {
        if b >= |before| { LastIsLatest(c, log, a, b); }
      }
    }
  }

  // The datagrams behind those of the earlier transmissions are those of the last one.
  lemma LastDatagram(c: Capacity, log: seq<Transmission>, b: nat)
    requires forall j :: 0 <= j < |log| ==> Sendable(c, log[j])
    requires log != [] && |Emitted(c, log[..|log| - 1])| <= b < |Emitted(c, log)|
    ensures var t, k := log[|log| - 1], b - |Emitted(c, log[..|log| - 1])|;
      k < t.sent && Sendable(c, t) && Emitted(c, log)[b] == Datagram(t.message, c, k)
  {
    hide Datagram, Count, Transmittable;
    var t, k := log[|log| - 1], b - |Emitted(c, log[..|log| - 1])|;
    assert Sendable(c, t);
    DatagramsAt(t.message, c, t.sent, k);
  }

  lemma LastHeader(c: Capacity, log: seq<Transmission>, k: nat)
    requires log != [] && InSequence(log) && |log| < TWO_TO_THE_64
    requires Sendable(c, log[|log| - 1]) && k < log[|log| - 1].sent
    ensures var n := |log| - 1;
      var d := Datagram(log[n].message, c, k);
      && Verdict(d) == Accepted && DecodeHeader(d).sourceId == log[n].message.sourceId
      && DecodeHeader(d).sequence == |OfSource(log[..n], log[n].message.sourceId)|
  {
    hide OfSource, InSequence, Datagram, DecodeHeader, Verdict, FragmentCountFor, Boundary, WireFlags;
    var n := |log| - 1;
    var m := log[n].message;
    DatagramIsAccepted(m, c, k);
    SequenceAt(log, n);
    OfSourceGrows(log, m.sourceId, n, n);
  }

  lemma LastIsLatest(c: Capacity, log: seq<Transmission>, a: nat, b: nat)
    requires forall j :: 0 <= j < |log| ==> Sendable(c, log[j])
    requires log != [] && InSequence(log) && |log| < TWO_TO_THE_64
    requires |Emitted(c, log[..|log| - 1])| <= b < |Emitted(c, log)| && a < b
    ensures NotAfter(Emitted(c, log)[a], Emitted(c, log)[b])
  {
    hide OfSource, InSequence, Emitted, Sendable, DecodeHeader, Datagram;
    var wire := Emitted(c, log);
    LastDatagram(c, log, b);
    LastHeader(c, log, b - |Emitted(c, log[..|log| - 1])|);
    var j := EmittedHeader(c, log, wire[a]);
    OfSourceGrows(log, DecodeHeader(wire[b]).sourceId, j, |log| - 1);
  }

  // ---------- The channel ----------

  // The datagrams among events, in order of arrival.
  function Deliveries(events: seq<Event>): seq<bytes> {
    if events == [] then []
    else
      var e := events[|events| - 1];
      Deliveries(events[..|events| - 1]) + if e.DatagramArrives? then [e.d] else []
  }

  // The channel delivers wire datagrams in the order they were sent; it may lose any of them, and repeat
  // one before the next is delivered. positions says which datagram each delivery is.
  predicate KeepsOrder(wire: seq<bytes>, delivered: seq<bytes>, positions: seq<nat>) {
    && |positions| == |delivered|
    && (forall i :: 0 <= i < |positions| ==> positions[i] < |wire| && delivered[i] == wire[positions[i]])
    && forall i, j :: 0 <= i < j < |positions| ==> positions[i] <= positions[j]
  }

  lemma {:induction false} ArrivalsAreDeliveries(limits: Limits, events: seq<Event>, id: u32, i: nat) returns (p: nat)
    requires i < |Arrivals(limits, events, id)|
    ensures p < |Deliveries(events)| && Acceptable(limits, Deliveries(events)[p], id)
    ensures Arrivals(limits, events, id)[i] == DecodeHeader(Deliveries(events)[p]).sequence
    ensures p == PositionOf(limits, events, id, i)
  {
    hide Acceptable;
    var earlier := events[..|events| - 1];
    if i < |Arrivals(limits, earlier, id)| {
      p := ArrivalsAreDeliveries(limits, earlier, id, i);
    } else {
      p := |Deliveries(earlier)|;
    }
  }

  // Which delivery the i-th arrival of source id is.
  function PositionOf(limits: Limits, events: seq<Event>, id: u32, i: nat): nat
    requires i < |Arrivals(limits, events, id)|
  {
    var earlier := events[..|events| - 1];
    if i < |Arrivals(limits, earlier, id)| then PositionOf(limits, earlier, id, i) else |Deliveries(earlier)|
  }

  lemma {:induction false} PositionsIncrease(limits: Limits, events: seq<Event>, id: u32, i: nat, j: nat)
    requires i < j < |Arrivals(limits, events, id)|
    ensures PositionOf(limits, events, id, i) < PositionOf(limits, events, id, j)
  {
    hide Acceptable;
    var earlier := events[..|events| - 1];
    if j < |Arrivals(limits, earlier, id)| {
      PositionsIncrease(limits, earlier, id, i, j);
    } else {
      var p := ArrivalsAreDeliveries(limits, earlier, id, i);
    }
  }

  lemma ArrivalsKeepOrder(limits: Limits, wire: seq<bytes>, events: seq<Event>, positions: seq<nat>, id: u32)
    requires InOrder(wire) && KeepsOrder(wire, Deliveries(events), positions)
    ensures Nondecreasing(Arrivals(limits, events, id))
  {
    hide Arrivals, Deliveries, PositionOf;
    var a := Arrivals(limits, events, id);
    forall i, j | 0 <= i < j < |a|
      ensures a[i] <= a[j]
    {
      var p := ArrivalsAreDeliveries(limits, events, id, i);
      var q := ArrivalsAreDeliveries(limits, events, id, j);
      PositionsIncrease(limits, events, id, i, j);
      if positions[p] < positions[q] {
        assert NotAfter(wire[positions[p]], wire[positions[q]]);
      }
    }
  }

  lemma ArrivalsAreBelowTop(cfg: BridgeConfig, b: BridgeState, limits: Limits, events: seq<Event>,
                            positions: seq<nat>, id: u32)
    requires Sound(cfg, b) && |b.log| < TWO_TO_THE_64
    requires KeepsOrder(b.wire, Deliveries(events), positions)
    ensures BelowTop(Arrivals(limits, events, id))
  {
    hide Arrivals, Deliveries, PositionOf, Emitted, InSequence, Counted;
    var a := Arrivals(limits, events, id);
    forall i | 0 <= i < |a|
      ensures a[i] < TWO_TO_THE_64 - 1
    {
      var p := ArrivalsAreDeliveries(limits, events, id, i);
      var d := b.wire[positions[p]];
      assert d in b.wire;
      var j := EmittedHeader(cfg.capacity, b.log, d);
    }
  }

  // Loss reporting, end to end: over a lossy channel that keeps order, from any run of one bridge (of fewer
  // than 2^64 messages), the receiver's missing count of a source equals exactly the number of sequence
  // numbers between the first and last that arrived of which no acceptable datagram arrived.
  lemma LossIsReported(cfg: BridgeConfig, b: BridgeState, limits: Limits, io: seq<IoEvent>, events: seq<Event>,
                       positions: seq<nat>, id: u32)
    requires Sound(cfg, b) && |b.log| < TWO_TO_THE_64
    requires KeepsOrder(b.wire, Deliveries(events), positions)
    requires Arrivals(limits, events, id) != []
    ensures var a, q := Arrivals(limits, events, id), StateOf(HandleAll(limits, NewReceiver(io), events).tracker, id);
      q.lastSequence == a[|a| - 1] && q.missing == |NeverObserved(a, a[0], a[|a| - 1])|
  {
    hide Arrivals, Deliveries, Emitted, HandleAll, Counted, InSequence, InOrder, KeepsOrder;
    BridgeSendsInOrder(cfg.capacity, b.log);
    ArrivalsKeepOrder(limits, b.wire, events, positions, id);
    ArrivalsAreBelowTop(cfg, b, limits, events, positions, id);
    MissingIsExact(limits, io, events, id);
  }
}
