// The relay end to end: a bridge, an unreliable network and a receiver.
//
// The network may lose, duplicate, reorder and delay: any datagram that was ever put on the wire may be
// delivered at any step, any number of times or never. Polls, publications, commands, sweeps and flushes
// interleave freely with deliveries, and clock readings are arbitrary.
module Relay {
  import opened ByteOrder
  import opened WireProtocol
  import opened Fragmentation
  import opened BridgeModel
  import opened BridgeRuns
  import opened Reassembly
  import opened CaptureModel
  import opened ReceiverModel

  datatype World = World(bridge: BridgeState, receiver: ReceiverState)

  datatype Setup = Setup(cfg: BridgeConfig, limits: Limits, recvs: seq<RecvEvent>, sends: seq<SendEvent>,
                         io: seq<IoEvent>)

  datatype Step =
    | SourcesPublish(arrivals: Arrivals)
    | BridgePolls(outcome: PollEvent)
    | NetworkDelivers(d: bytes, now: u64)
    | ReceiverActs(event: Event)

  function Start(s: Setup): World {
    World(Initial(s.cfg, s.recvs, s.sends), NewReceiver(s.io))
  }

  // What can happen in w: only datagrams on the wire are delivered.
  predicate Possible(s: Setup, w: World, step: Step) {
    match step
    case SourcesPublish(arrivals) => |arrivals| == |s.cfg.ids|
    case BridgePolls(_) => true
    case NetworkDelivers(d, _) => d in w.bridge.wire
    case ReceiverActs(e) => !e.DatagramArrives?
  }

  predicate WellShaped(s: Setup, w: World) {
    Shaped(s.cfg, w.bridge) && ValidTable(s.limits, w.receiver.table)
  }

  function After(s: Setup, w: World, step: Step): World
    requires WellShaped(s, w) && Possible(s, w, step)
  {
    match step
    case SourcesPublish(arrivals) => w.(bridge := Publish(w.bridge, arrivals))
    case BridgePolls(e) => w.(bridge := Poll(s.cfg, w.bridge, e))
    case NetworkDelivers(d, now) => w.(receiver := HandleEvent(s.limits, w.receiver, DatagramArrives(d, now)))
    case ReceiverActs(e) => w.(receiver := HandleEvent(s.limits, w.receiver, e))
  }

  // w is reached from the start by steps, each possible when it is taken.
  ghost predicate Reaches(s: Setup, steps: seq<Step>, w: World) {
    if steps == [] then w == Start(s)
    else exists before: World ::
      && Reaches(s, steps[..|steps| - 1], before)
      && WellShaped(s, before) && Possible(s, before, steps[|steps| - 1])
      && w == After(s, before, steps[|steps| - 1])
  }

  // ---------- Where entries and completed messages come from ----------

  // Entry e of key k reassembles the message of transmission t: every flagged fragment was sent, and its
  // bytes in the buffer are those of the message.
  ghost predicate Follows(c: Capacity, t: Transmission, k: Key, e: Entry) {
    var m := t.message;
    && k == Key(m.sourceId, m.sequence)
    && Transmittable(m, c)
    && e.timestamp == m.timestamp && e.flags == WireFlags(m, c)
    && e.fragmentCount == Count(m, c) && e.messageLength == |m.data|
    && |e.received| == Count(m, c) && |e.buffer| == |m.data|
    && forall i :: 0 <= i < |e.received| && e.received[i] ==> i < t.sent && HoldsFragment(c, m, e, i)
  }

  ghost predicate HoldsFragment(c: Capacity, m: Message, e: Entry, i: nat) {
    forall p :: Boundary(m, c, i) <= p < Boundary(m, c, i + 1) && p < |e.buffer| && p < |m.data|
      ==> e.buffer[p] == m.data[p]
  }

  ghost predicate HasOrigin(c: Capacity, log: seq<Transmission>, k: Key, e: Entry) {
    exists j :: 0 <= j < |log| && Follows(c, log[j], k, e)
  }

  ghost predicate TableFollows(c: Capacity, log: seq<Transmission>, t: Table) {
    forall k :: k in t.entries ==> HasOrigin(c, log, k, t.entries[k])
  }

  // m is the message of transmission t, all of whose datagrams were sent.
  predicate Delivers(c: Capacity, t: Transmission, m: CompletedMessage) {
    && Transmittable(t.message, c) && t.sent == Count(t.message, c)
    && m == CompletedMessage(t.message.sourceId, t.message.sequence, t.message.timestamp, WireFlags(t.message, c),
                             t.message.data)
  }

  ghost predicate WasTransmitted(c: Capacity, log: seq<Transmission>, m: CompletedMessage) {
    exists j :: 0 <= j < |log| && Delivers(c, log[j], m)
  }

  lemma OriginsPersist(c: Capacity, log: seq<Transmission>, longer: seq<Transmission>, k: Key, e: Entry,
                       m: CompletedMessage)
    requires log <= longer
    ensures HasOrigin(c, log, k, e) ==> HasOrigin(c, longer, k, e)
    ensures WasTransmitted(c, log, m) ==> WasTransmitted(c, longer, m)
  {
    if HasOrigin(c, log, k, e) {
      var j :| 0 <= j < |log| && Follows(c, log[j], k, e);
      assert longer[j] == log[j];
    }
    if WasTransmitted(c, log, m) {
      var j :| 0 <= j < |log| && Delivers(c, log[j], m);
      assert longer[j] == log[j];
    }
  }

  // ---------- One delivery ----------

  // f is fragment i of the message of transmission t, and was sent.
  predicate Carries(c: Capacity, t: Transmission, i: nat, f: Fragment) {
    && Sendable(c, t) && i < t.sent
    && Transmittable(t.message, c) && i < Count(t.message, c)
    && f.header == FragmentHeader(t.message, c, i) && f.payload == FragmentPayload(t.message, c, i)
  }

  lemma SingleFragmentIsWhole(c: Capacity, t: Transmission, f: Fragment)
    requires Carries(c, t, 0, f) && Count(t.message, c) == 1
    ensures f.payload == t.message.data && t.sent == 1
  {
    BoundariesAreInRange(t.message, c, 0);
  }

  lemma NewEntryFollows(c: Capacity, t: Transmission, i: nat, f: Fragment, now: u64)
    requires Carries(c, t, i, f)
    ensures Follows(c, t, KeyOf(f.header), NewEntry(f.header, now))
  {
  }

  lemma FilledFollows(c: Capacity, limits: Limits, t: Transmission, i: nat, f: Fragment, e: Entry)
    requires Carries(c, t, i, f) && Follows(c, t, KeyOf(f.header), e) && EntryOk(limits, e)
    ensures Agrees(e, f.header) && Follows(c, t, KeyOf(f.header), Filled(limits, e, f))
  {
    hide FragmentCountFor, Boundary;
    var m := t.message;
    var r := Filled(limits, e, f);
    BoundariesAreInRange(m, c, i);
    forall n | 0 <= n < |r.received| && r.received[n]
      ensures n < t.sent && HoldsFragment(c, m, r, n)
    {
      forall p | Boundary(m, c, n) <= p < Boundary(m, c, n + 1) && p < |r.buffer| && p < |m.data|
        ensures r.buffer[p] == m.data[p]
      {
        if n != i { assert HoldsFragment(c, m, e, n); }
      }
    }
  }

  // A position of the message lies in one of its fragments.
  lemma {:induction false} FragmentAt(m: Message, c: Capacity, p: nat, k: nat) returns (i: nat)
    requires p < Boundary(m, c, k) && k <= Count(m, c)
    ensures i < k && Boundary(m, c, i) <= p < Boundary(m, c, i + 1)
  {
    BoundariesAreInRange(m, c, k - 1);
    if p < Boundary(m, c, k - 1) {
      i := FragmentAt(m, c, p, k - 1);
    } else {
      i := k - 1;
    }
  }

  lemma FullEntryIsWhole(c: Capacity, t: Transmission, k: Key, e: Entry)
    requires Sendable(c, t) && Follows(c, t, k, e) && forall i :: 0 <= i < |e.received| ==> e.received[i]
    ensures e.buffer == t.message.data && t.sent == Count(t.message, c)
  {
    hide FragmentCountFor, Boundary;
    var m := t.message;
    CountIsAtLeastOne(m, c);
    assert e.received[Count(m, c) - 1];
    BoundariesAreInRange(m, c, Count(m, c) - 1);
    forall p | 0 <= p < |e.buffer|
      ensures e.buffer[p] == m.data[p]
    {
      var i := FragmentAt(m, c, p, Count(m, c));
      assert HoldsFragment(c, m, e, i);
    }
  }

  lemma CountIsAtLeastOne(m: Message, c: Capacity)
    ensures Count(m, c) >= 1
  {
    CountIsCeiling(|m.data|, c);
  }

  // Keys are unique in the log, so an entry with the key of transmission j follows it.
  lemma OriginIsUnique(c: Capacity, log: seq<Transmission>, j: nat, i: nat, f: Fragment, e: Entry)
    requires InSequence(log) && |log| <= TWO_TO_THE_64
    requires j < |log| && Carries(c, log[j], i, f) && HasOrigin(c, log, KeyOf(f.header), e)
    ensures Follows(c, log[j], KeyOf(f.header), e)
  {
    var n :| 0 <= n < |log| && Follows(c, log[n], KeyOf(f.header), e);
    if n < j {
      KeysAreUnique(log, n, j);
    } else if j < n {
      KeysAreUnique(log, j, n);
    }
  }

  lemma StoringFollows(c: Capacity, limits: Limits, log: seq<Transmission>, t: Table, j: nat, i: nat, f: Fragment,
                       newMessage: bool)
    requires j < |log| && Carries(c, log[j], i, f)
    requires TableFollows(c, log, t) && ValidTable(limits, t)
    requires KeyOf(f.header) in t.entries && Follows(c, log[j], KeyOf(f.header), t.entries[KeyOf(f.header)])
    ensures var a := Store(limits, t, f, newMessage);
      && TableFollows(c, log, a.table) && a.verdict != Malformed
      && (a.verdict == Complete ==> Delivers(c, log[j], a.out))
  {
    hide Follows, Filled;
    var k := KeyOf(f.header);
    var e := t.entries[k];
    FilledFollows(c, limits, log[j], i, f, e);
    if !e.received[f.header.fragmentIndex] {
      var r := Filled(limits, e, f);
      FilledIsOk(limits, e, f);
      CountTrueBounds(r.received);
      assert HasOrigin(c, log, k, r);
      if r.fragmentsReceived == r.fragmentCount {
        FilledShape(limits, e, f);
        FullEntryIsWhole(c, log[j], k, r);
        FollowsKey(c, log[j], k, r);
      }
    }
  }

  lemma FilledShape(limits: Limits, e: Entry, f: Fragment)
    requires EntryOk(limits, e) && Agrees(e, f.header)
    ensures var r := Filled(limits, e, f); |r.received| == r.fragmentCount == e.fragmentCount
  {
  }

  lemma FollowsKey(c: Capacity, t: Transmission, k: Key, e: Entry)
    requires Follows(c, t, k, e)
    ensures k == Key(t.message.sourceId, t.message.sequence) && Transmittable(t.message, c)
    ensures e.timestamp == t.message.timestamp && e.flags == WireFlags(t.message, c)
  {
  }

  lemma MakingRoomFollows(c: Capacity, limits: Limits, log: seq<Transmission>, t: Table, j: nat, i: nat,
                          f: Fragment, now: u64)
    requires InSequence(log) && |log| <= TWO_TO_THE_64
    requires j < |log| && Carries(c, log[j], i, f) && f.header.fragmentCount != 1
        && f.header.messageLength <= limits.maxMessageLength
    requires TableFollows(c, log, t) && ValidTable(limits, t)
    ensures var w := WithEntry(limits, t, f.header, now);
      && TableFollows(c, log, w) && KeyOf(f.header) in w.entries
        && Follows(c, log[j], KeyOf(f.header), w.entries[KeyOf(f.header)])
  {
    hide Follows;
    var k := KeyOf(f.header);
    if k in t.entries {
      OriginIsUnique(c, log, j, i, f, t.entries[k]);
    } else {
      MakeRoomKeeps(t, limits.maxPending);
      NewEntryFollows(c, log[j], i, f, now);
      assert HasOrigin(c, log, k, NewEntry(f.header, now));
    }
  }

  // Delivering a fragment that was sent, in whatever state the table is: entries keep following what was
  // sent, no message is found inconsistent, and a completed message is one that was transmitted in full.
  lemma AddFollows(c: Capacity, limits: Limits, log: seq<Transmission>, t: Table, j: nat, i: nat, f: Fragment, now: u64)
    requires InSequence(log) && |log| <= TWO_TO_THE_64
    requires j < |log| && Carries(c, log[j], i, f)
    requires TableFollows(c, log, t) && ValidTable(limits, t)
    ensures var a := Add(limits, t, f, now);
      && TableFollows(c, log, a.table)
      && (a.verdict == Complete ==> Delivers(c, log[j], a.out))
      && (a.verdict == Malformed ==> |log[j].message.data| > limits.maxMessageLength)
  {
    hide TableFollows, Follows, Store;
    if f.header.fragmentCount == 1 {
      SingleFragmentIsWhole(c, log[j], f);
    } else if f.header.messageLength <= limits.maxMessageLength {
      WithEntryIsValid(limits, t, f, now);
      MakingRoomFollows(c, limits, log, t, j, i, f, now);
      StoringFollows(c, limits, log, WithEntry(limits, t, f.header, now), j, i, f, KeyOf(f.header) !in t.entries);
    }
  }
}
