// Exactly once, by conditions on the schedule alone: what is delivered when, and not what the receiver does with it
// (tools/receiver/lib/reassembler.cpp:9-125, tools/receiver/receiver.cpp:207-284, 342-349).
module RelaySchedule {
  import opened ByteOrder
  import opened WireProtocol
  import opened Fragmentation
  import opened BridgeModel
  import opened BridgeRuns
  import opened Reassembly
  import opened ReassemblyRuns
  import opened AgeQueue
  import opened ReceiverModel
  import opened Recording
  import opened Relay
  import opened RelayRuns
  import opened RelayCompletion
  import opened RelayDelivery

  // ---------- Schedules ----------

  function TimesOf(c: Capacity, steps: seq<Step>, m: Message, n: nat): nat
    requires Transmittable(m, c) && n < Count(m, c)
  {
    Times(steps, Datagram(m, c, n))
  }

  // Of the fragmented message m, some fragment was delivered and some was not.
  ghost predicate IsOpen(s: Setup, steps: seq<Step>, m: Message) {
    && Transmittable(m, s.cfg.capacity) && Count(m, s.cfg.capacity) > 1 && |m.data| <= s.limits.maxMessageLength
    && (exists n :: 0 <= n < Count(m, s.cfg.capacity) && TimesOf(s.cfg.capacity, steps, m, n) > 0)
    && (exists n :: 0 <= n < Count(m, s.cfg.capacity) && TimesOf(s.cfg.capacity, steps, m, n) == 0)
  }

  ghost function OpenKeys(s: Setup, log: seq<Transmission>, steps: seq<Step>): set<Key> {
    set t | t in log && IsOpen(s, steps, t.message) :: KeyOfMessage(t.message)
  }

  ghost predicate IsOf(m: Message, c: Capacity, d: bytes) {
    Transmittable(m, c) && exists n :: 0 <= n < Count(m, c) && d == Datagram(m, c, n)
  }

  // Everything delivered so far of a message that is still open was delivered within the timeout before now.
  ghost predicate InTime(s: Setup, log: seq<Transmission>, steps: seq<Step>, now: u64) {
    forall l, t | 0 <= l < |steps| && steps[l].NetworkDelivers? && t in log ::
      IsOpen(s, steps, t.message) && IsOf(t.message, s.cfg.capacity, steps[l].d) ==>
        steps[l].now <= now < steps[l].now + s.limits.timeout
  }

  // No datagram is delivered twice, no more messages are open at a time than the receiver has room for, and no
  // sweep comes later than the timeout after a fragment of an open message.
  ghost predicate Smooth(s: Setup, log: seq<Transmission>, steps: seq<Step>) {
    steps != [] ==>
      var earlier, last := steps[..|steps| - 1], steps[|steps| - 1];
      && Smooth(s, log, earlier)
      && (last.NetworkDelivers? ==> Times(earlier, last.d) == 0)
      && |OpenKeys(s, log, steps)| <= s.limits.maxPending
      && (last.ReceiverActs? && last.event.SweepDue? ==> InTime(s, log, earlier, last.event.now))
  }

  lemma {:induction false} SmoothRepeatsNothing(s: Setup, log: seq<Transmission>, steps: seq<Step>, d: bytes)
    requires Smooth(s, log, steps)
    ensures Times(steps, d) <= 1
    decreases |steps|
  {
    hide InTime, OpenKeys;
    if steps != [] {
      SmoothRepeatsNothing(s, log, steps[..|steps| - 1], d);
    }
  }

  lemma {:induction false} DeliveredCounts(steps: seq<Step>, l: nat)
    requires l < |steps| && steps[l].NetworkDelivers?
    ensures Times(steps, steps[l].d) > 0
    decreases |steps|
  {
    if l < |steps| - 1 {
      DeliveredCounts(steps[..|steps| - 1], l);
    }
  }

  // ---------- What the receiver holds under such a schedule ----------

  // A fragment of e is flagged that was delivered when e was first seen.
  predicate SeenAt(c: Capacity, steps: seq<Step>, m: Message, e: Entry, l: nat, i: nat)
    requires Transmittable(m, c)
  {
    && l < |steps| && i < Count(m, c) && i < |e.received| && e.received[i]
    && steps[l] == NetworkDelivers(Datagram(m, c, i), e.firstSeen)
  }

  ghost predicate Seen(c: Capacity, steps: seq<Step>, m: Message, e: Entry)
    requires Transmittable(m, c)
  {
    exists l, i :: SeenAt(c, steps, m, e, l, i)
  }

  // Every fragment delivered of m is held, unless m has completed; and if m is pending, that began with a delivery.
  ghost predicate Kept(s: Setup, steps: seq<Step>, r: ReceiverState, m: Message) {
    Transmittable(m, s.cfg.capacity) && Receivable(s.limits, m, s.cfg.capacity) ==>
      && (forall n :: 0 <= n < Count(m, s.cfg.capacity) && TimesOf(s.cfg.capacity, steps, m, n) > 0 ==>
            CompletionsOf(r.completions, KeyOfMessage(m)) > 0 || n in Received(r.table, KeyOfMessage(m)))
      && (KeyOfMessage(m) in r.table.entries ==> Seen(s.cfg.capacity, steps, m, r.table.entries[KeyOfMessage(m)]))
  }

  ghost predicate AllKept(s: Setup, steps: seq<Step>, w: World) {
    forall x :: 0 <= x < |w.bridge.log| ==> Kept(s, steps, w.receiver, w.bridge.log[x].message)
  }

  // The run so far: reached by steps under a smooth schedule, with everything kept.
  ghost predicate Smoothly(s: Setup, log: seq<Transmission>, steps: seq<Step>, w: World) {
    && Reaches(s, steps, w) && Smooth(s, log, steps) && AllKept(s, steps, w)
    && Honest(s, w) && w.bridge.log <= log && |log| <= TWO_TO_THE_64
  }

  lemma KeptOf(s: Setup, log: seq<Transmission>, steps: seq<Step>, w: World, x: nat)
    requires Smoothly(s, log, steps, w) && x < |w.bridge.log|
    ensures Kept(s, steps, w.receiver, w.bridge.log[x].message)
  {
    hide Honest, Reaches, Smooth, Kept;
  }

  lemma PendingIsFragmented(s: Setup, w: World, x: nat)
    requires Honest(s, w) && |w.bridge.log| <= TWO_TO_THE_64 && x < |w.bridge.log|
    requires KeyOfMessage(w.bridge.log[x].message) in w.receiver.table.entries
    ensures var m, e := w.bridge.log[x].message, w.receiver.table.entries[KeyOfMessage(w.bridge.log[x].message)];
      && Transmittable(m, s.cfg.capacity) && Count(m, s.cfg.capacity) > 1 && |m.data| <= s.limits.maxMessageLength
      && |e.received| == Count(m, s.cfg.capacity)
  {
    hide Sound, Accounted, AllRecorded, AllTransmitted, InSequence, Count, Follows;
    var k := KeyOfMessage(w.bridge.log[x].message);
    var e := w.receiver.table.entries[k];
    assert HasOrigin(s.cfg.capacity, w.bridge.log, k, e) && EntryOk(s.limits, e);
    var y :| 0 <= y < |w.bridge.log| && Follows(s.cfg.capacity, w.bridge.log[y], k, e);
    FollowsKey(s.cfg.capacity, w.bridge.log[y], k, e);
    FollowedEntry(s.cfg.capacity, w.bridge.log[y], k, e);
    SoundIsInSequence(s.cfg, w.bridge);
    if x != y { DifferentKeys(w.bridge.log, x, y); }
  }

  // A pending message is open: it has a fragment, and what it lacks was never delivered.
  lemma PendingIsOpen(s: Setup, log: seq<Transmission>, steps: seq<Step>, w: World, x: nat)
    requires Smoothly(s, log, steps, w) && x < |w.bridge.log|
    requires KeyOfMessage(w.bridge.log[x].message) in w.receiver.table.entries
    ensures IsOpen(s, steps, w.bridge.log[x].message)
  {
    hide Honest, Reaches, Smooth, Datagram, Times, CompletionsOf, Count;
    var c, m, k := s.cfg.capacity, w.bridge.log[x].message, KeyOfMessage(w.bridge.log[x].message);
    PendingIsFragmented(s, w, x);
    assert Kept(s, steps, w.receiver, m);
    var l, i :| SeenAt(c, steps, m, w.receiver.table.entries[k], l, i);
    DeliveredCounts(steps, l);
    assert TimesOf(c, steps, m, i) > 0;
    SmoothRepeatsNothing(s, log, steps, Datagram(m, c, i));
    assert i in Received(w.receiver.table, k);
    DeliveriesPay(s, steps, w, x, i);
    NeverHoldsAll(s, w, x);
    var n :| 0 <= n < Count(m, c) && n !in Received(w.receiver.table, k);
    assert TimesOf(c, steps, m, n) == 0;
  }

  // Delivering something else leaves it open.
  lemma StaysOpen(s: Setup, earlier: seq<Step>, step: Step, m: Message)
    requires IsOpen(s, earlier, m) && step.NetworkDelivers? && NotOf(m, s.cfg.capacity, step.d)
    ensures IsOpen(s, earlier + [step], m)
  {
    hide Datagram, Count, Transmittable;
    var c := s.cfg.capacity;
    assert (earlier + [step])[..|earlier + [step]| - 1] == earlier;
    forall n | 0 <= n < Count(m, c)
      ensures TimesOf(c, earlier + [step], m, n) == TimesOf(c, earlier, m, n)
    {
    }
    var a :| 0 <= a < Count(m, c) && TimesOf(c, earlier, m, a) > 0;
    var b :| 0 <= b < Count(m, c) && TimesOf(c, earlier, m, b) == 0;
    assert TimesOf(c, earlier + [step], m, a) > 0 && TimesOf(c, earlier + [step], m, b) == 0;
  }

  // Nothing was delivered before of a fragmented message that is not pending, if this datagram of it was not.
  lemma NothingBefore(s: Setup, log: seq<Transmission>, earlier: seq<Step>, w: World, j: nat, i: nat, n: nat)
    requires Smoothly(s, log, earlier, w) && j < |w.bridge.log|
    requires Transmittable(w.bridge.log[j].message, s.cfg.capacity)
    requires Receivable(s.limits, w.bridge.log[j].message, s.cfg.capacity)
    requires i < Count(w.bridge.log[j].message, s.cfg.capacity) && n < Count(w.bridge.log[j].message, s.cfg.capacity)
    requires KeyOfMessage(w.bridge.log[j].message) !in w.receiver.table.entries
    requires TimesOf(s.cfg.capacity, earlier, w.bridge.log[j].message, i) == 0
    ensures TimesOf(s.cfg.capacity, earlier, w.bridge.log[j].message, n) == 0
  {
    hide Honest, Reaches, Smooth, Datagram, Times, CompletionsOf, Count;
    assert Kept(s, earlier, w.receiver, w.bridge.log[j].message);
    DeliveriesPay(s, earlier, w, j, i);
    NotPendingReceivesNone(w.receiver.table, KeyOfMessage(w.bridge.log[j].message));
  }

  // Fragment i of a message that is not pending opens it.
  lemma BecomesOpen(s: Setup, log: seq<Transmission>, earlier: seq<Step>, w: World, step: Step, j: nat, i: nat)
    requires Smoothly(s, log, earlier, w) && j < |w.bridge.log|
    requires Transmittable(w.bridge.log[j].message, s.cfg.capacity)
    requires i < Count(w.bridge.log[j].message, s.cfg.capacity)
    requires Count(w.bridge.log[j].message, s.cfg.capacity) > 1
    requires |w.bridge.log[j].message.data| <= s.limits.maxMessageLength
    requires KeyOfMessage(w.bridge.log[j].message) !in w.receiver.table.entries
    requires step.NetworkDelivers? && step.d == Datagram(w.bridge.log[j].message, s.cfg.capacity, i)
    requires Times(earlier, step.d) == 0
    ensures IsOpen(s, earlier + [step], w.bridge.log[j].message)
  {
    hide Smoothly, Datagram, Count, Transmittable;
    var c, m := s.cfg.capacity, w.bridge.log[j].message;
    var n := if i == 0 then 1 else 0;
    assert (earlier + [step])[..|earlier + [step]| - 1] == earlier;
    NothingBefore(s, log, earlier, w, j, i, n);
    if Datagram(m, c, n) == step.d { DatagramIdentity(m, i, m, n, c); }
    assert TimesOf(c, earlier + [step], m, i) > 0 && TimesOf(c, earlier + [step], m, n) == 0;
  }

  lemma OpenIsAmongKeys(s: Setup, log: seq<Transmission>, steps: seq<Step>, x: nat)
    requires x < |log| && IsOpen(s, steps, log[x].message)
    ensures KeyOfMessage(log[x].message) in OpenKeys(s, log, steps)
  {
    hide IsOpen;
    assert log[x] in log;
  }

  // So when a message is created there is room for it.
  lemma HasRoom(s: Setup, log: seq<Transmission>, earlier: seq<Step>, w: World, step: Step, j: nat, i: nat)
    requires Smoothly(s, log, earlier, w) && Smooth(s, log, earlier + [step]) && j < |w.bridge.log|
    requires Transmittable(w.bridge.log[j].message, s.cfg.capacity)
    requires i < Count(w.bridge.log[j].message, s.cfg.capacity)
    requires Count(w.bridge.log[j].message, s.cfg.capacity) > 1
    requires |w.bridge.log[j].message.data| <= s.limits.maxMessageLength
    requires KeyOfMessage(w.bridge.log[j].message) !in w.receiver.table.entries
    requires step.NetworkDelivers? && step.d == Datagram(w.bridge.log[j].message, s.cfg.capacity, i)
    ensures |w.receiver.table.entries| < s.limits.maxPending
  {
    hide Datagram, Count, Transmittable, IsOpen, OpenKeys, Honest, AllKept, Reaches, InTime, NotOf, Times;
    var steps, k := earlier + [step], KeyOfMessage(w.bridge.log[j].message);
    assert steps[..|steps| - 1] == earlier;
    BecomesOpen(s, log, earlier, w, step, j, i);
    OpenIsAmongKeys(s, log, steps, j);
    forall k' | k' in w.receiver.table.entries
      ensures k' in OpenKeys(s, log, steps)
    {
      var x := PendingOrigin(s, w, k');
      PendingIsOpen(s, log, earlier, w, x);
      ReachedInSequence(s, w);
      OtherDatagram(s.cfg.capacity, w.bridge.log, x, j, i);
      StaysOpen(s, earlier, step, w.bridge.log[x].message);
      OpenIsAmongKeys(s, log, steps, x);
    }
    FewerThan(w.receiver.table.entries.Keys, k, OpenKeys(s, log, steps));
  }

  lemma ReachedInSequence(s: Setup, w: World)
    requires Honest(s, w)
    ensures InSequence(w.bridge.log)
  {
    SoundIsInSequence(s.cfg, w.bridge);
  }

  lemma PendingOrigin(s: Setup, w: World, k: Key) returns (x: nat)
    requires Honest(s, w) && k in w.receiver.table.entries
    ensures x < |w.bridge.log| && KeyOfMessage(w.bridge.log[x].message) == k
  {
    hide Sound, Accounted, AllRecorded, AllTransmitted, Follows;
    assert HasOrigin(s.cfg.capacity, w.bridge.log, k, w.receiver.table.entries[k]);
    x :| 0 <= x < |w.bridge.log| && Follows(s.cfg.capacity, w.bridge.log[x], k, w.receiver.table.entries[k]);
    FollowsKey(s.cfg.capacity, w.bridge.log[x], k, w.receiver.table.entries[k]);
  }

  lemma {:induction false} FewerThan(a: set<Key>, k: Key, b: set<Key>)
    requires k !in a && k in b && a <= b
    ensures |a| < |b|
  {
    assert b == a + (b - a) && k in b - a;
  }

  // ---------- Nothing is lost ----------

  // If there is room for a new entry, add removes no entry but that of its own message.
  lemma OthersStay(limits: Limits, t: Table, f: Fragment, now: u64, k: Key)
    requires ValidTable(limits, t) && k in t.entries && k != KeyOf(f.header)
    requires Creates(limits, t, AddOp(f, now)) ==> |t.entries| < limits.maxPending
    ensures var a := Add(limits, t, f, now).table; k in a.entries && a.entries[k] == t.entries[k]
  {
    hide Create;
    if Feeds(limits, AddOp(f, now), KeyOf(f.header)) {
      WithEntryIsValid(limits, t, f, now);
      CreatingLeavesOthers(t, f.header, now, k);
      StoringLeavesOthers(limits, WithEntry(limits, t, f.header, now), f, KeyOf(f.header) !in t.entries, k);
    }
  }

  lemma CreatingLeavesOthers(t: Table, h: Header, now: u64, k: Key)
    requires k in t.entries && k != KeyOf(h)
    ensures k in Create(t, h, now).entries && Create(t, h, now).entries[k] == t.entries[k]
  {
  }

  lemma StoringLeavesOthers(limits: Limits, t: Table, f: Fragment, newMessage: bool, k: Key)
    requires KeyOf(f.header) in t.entries && EntryOk(limits, t.entries[KeyOf(f.header)])
    requires k in t.entries && k != KeyOf(f.header)
    ensures var a := Store(limits, t, f, newMessage).table; k in a.entries && a.entries[k] == t.entries[k]
  {
    hide Filled;
  }

  // Under a smooth schedule no step drops a pending message without completing it.
  lemma NothingIsLost(s: Setup, log: seq<Transmission>, earlier: seq<Step>, w: World, step: Step, x: nat)
    requires Smoothly(s, log, earlier, w) && Smooth(s, log, earlier + [step]) && x < |w.bridge.log|
    requires Possible(s, w, step) && Receivable(s.limits, w.bridge.log[x].message, s.cfg.capacity)
    ensures !Loses(w.receiver, After(s, w, step).receiver, KeyOfMessage(w.bridge.log[x].message))
  {
    hide Smooth, AllKept, Reaches, HandleEvent, Poll, Publish, CompletionsOf, Received;
    match step
    case NetworkDelivers(d, now) => DeliveryLosesNothing(s, log, earlier, w, step, x);
    case ReceiverActs(e) => ActionLosesNothing(s, log, earlier, w, step, x);
    case SourcesPublish(_) =>
    case BridgePolls(_) =>
  }

  lemma DeliveryLosesNothing(s: Setup, log: seq<Transmission>, earlier: seq<Step>, w: World, step: Step, x: nat)
    requires Smoothly(s, log, earlier, w) && Smooth(s, log, earlier + [step]) && x < |w.bridge.log|
    requires step.NetworkDelivers? && Possible(s, w, step)
    requires Receivable(s.limits, w.bridge.log[x].message, s.cfg.capacity)
    ensures !Loses(w.receiver, After(s, w, step).receiver, KeyOfMessage(w.bridge.log[x].message))
  {
    hide Smooth, AllKept, Reaches, HandleDatagram, CompletionsOf, Datagram, Count, Transmittable, Sound, TableFollows,
      InSequence, ValidTable, Accounted, AllRecorded, AllTransmitted, Covers, Received, Verdict, DecodeHeader, Creates;
    var k := KeyOfMessage(w.bridge.log[x].message);
    var j, i := DeliveredIsSent(s.cfg, w.bridge, step.d);
    DeliveryProgress(s.cfg.capacity, s.limits, w.bridge.log, w.receiver, x, j, i, step.now);
    if x != j && Received(w.receiver.table, k) != {} {
      NotPendingReceivesNone(w.receiver.table, k);
      DeliveryCreates(s, log, earlier, w, step, j, i);
      DifferentKeys(w.bridge.log, x, j);
      DeliveryTable(s.limits, w.receiver, w.bridge.log[j], s.cfg.capacity, i, step.now);
      OthersStay(s.limits, w.receiver.table, FragmentOf(step.d), step.now, k);
      SameEntrySameFragments(w.receiver.table, After(s, w, step).receiver.table, k);
    }
  }

  lemma SameEntrySameFragments(t: Table, u: Table, k: Key)
    requires k in t.entries && k in u.entries && t.entries[k] == u.entries[k]
    ensures Received(t, k) == Received(u, k)
  {
  }

  // What delivering fragment i of a transmission is to the table.
  lemma DeliveryTable(limits: Limits, r: ReceiverState, t: Transmission, c: Capacity, i: nat, now: u64)
    requires ValidTable(limits, r.table) && Sendable(c, t) && i < t.sent
    ensures var d := Datagram(t.message, c, i);
      && Verdict(d) == Accepted && Carries(c, t, i, FragmentOf(d))
      && KeyOf(FragmentOf(d).header) == KeyOfMessage(t.message)
      && FragmentOf(d).header.fragmentCount == Count(t.message, c)
      && FragmentOf(d).header.messageLength == |t.message.data|
      && HandleDatagram(limits, r, d, now).table == Add(limits, r.table, FragmentOf(d), now).table
  {
    hide Reassembly.Add, Account, ObserveMessage, Datagram;
    DatagramIsAccepted(t.message, c, i);
    CarriedHeader(c, t, i, FragmentOf(Datagram(t.message, c, i)));
  }

  lemma DeliveryCreates(s: Setup, log: seq<Transmission>, earlier: seq<Step>, w: World, step: Step, j: nat, i: nat)
    requires Smoothly(s, log, earlier, w) && Smooth(s, log, earlier + [step]) && j < |w.bridge.log|
    requires Sendable(s.cfg.capacity, w.bridge.log[j]) && i < w.bridge.log[j].sent
    requires step.NetworkDelivers? && step.d == Datagram(w.bridge.log[j].message, s.cfg.capacity, i)
    ensures Verdict(step.d) == Accepted
    ensures Creates(s.limits, w.receiver.table, AddOp(FragmentOf(step.d), step.now)) ==>
              |w.receiver.table.entries| < s.limits.maxPending
  {
    hide Smooth, AllKept, Reaches, Sound, Datagram, Count, Transmittable, FragmentOf, Verdict, HandleDatagram, Add;
    DeliveryTable(s.limits, w.receiver, w.bridge.log[j], s.cfg.capacity, i, step.now);
    if Creates(s.limits, w.receiver.table, AddOp(FragmentOf(step.d), step.now)) {
      HasRoom(s, log, earlier, w, step, j, i);
    }
  }

  lemma ActionLosesNothing(s: Setup, log: seq<Transmission>, earlier: seq<Step>, w: World, step: Step, x: nat)
    requires Smoothly(s, log, earlier, w) && Smooth(s, log, earlier + [step]) && x < |w.bridge.log|
    requires step.ReceiverActs? && Possible(s, w, step)
    ensures !Loses(w.receiver, After(s, w, step).receiver, KeyOfMessage(w.bridge.log[x].message))
  {
    hide AllKept, Reaches, HandleEvent, CompletionsOf, Sound, TableFollows, OpenKeys, InTime, Expire, Received,
      ValidTable;
    var t, k := w.receiver.table, KeyOfMessage(w.bridge.log[x].message);
    NotPendingReceivesNone(t, k);
    if step.event.SweepDue? && k in t.entries {
      assert (earlier + [step])[..|earlier + [step]| - 1] == earlier;
      SweepSpares(s, log, earlier, w, step.event.now, x);
      SweepIsExpiry(s.limits, w.receiver, step.event.now);
      SameEntrySameFragments(t, Expire(s.limits, t, step.event.now).table, k);
    }
    if !step.event.SweepDue? { OnlySweepsExpire(s.limits, w.receiver, step.event); }
  }

  lemma SweepIsExpiry(limits: Limits, r: ReceiverState, now: u64)
    requires ValidTable(limits, r.table)
    ensures HandleEvent(limits, r, SweepDue(now)).table == Expire(limits, r.table, now).table
  {
    hide Expire;
  }

  lemma OnlySweepsExpire(limits: Limits, r: ReceiverState, e: Event)
    requires ValidTable(limits, r.table) && !e.SweepDue? && !e.DatagramArrives?
    ensures HandleEvent(limits, r, e).table == r.table
  {
    hide HandleCommand, SetRecording, FlushTick;
  }

  lemma SweepSpares(s: Setup, log: seq<Transmission>, steps: seq<Step>, w: World, now: u64, x: nat)
    requires Smoothly(s, log, steps, w) && InTime(s, log, steps, now) && x < |w.bridge.log|
    requires KeyOfMessage(w.bridge.log[x].message) in w.receiver.table.entries
    ensures var t, k := w.receiver.table, KeyOfMessage(w.bridge.log[x].message);
      var e := Expire(s.limits, t, now).table;
      k in e.entries && e.entries[k] == t.entries[k]
  {
    hide Smooth, Reaches, Sound, TableFollows, IsOpen, Datagram, Count, ExpireFront, CompletionsOf, Accounted,
      AllRecorded, AllTransmitted;
    var c, m, t, k := s.cfg.capacity, w.bridge.log[x].message, w.receiver.table, KeyOfMessage(w.bridge.log[x].message);
    PendingIsFragmented(s, w, x);
    PendingIsOpen(s, log, steps, w, x);
    assert Kept(s, steps, w.receiver, m);
    var l: nat, i: nat :| SeenAt(c, steps, m, t.entries[k], l, i);
    assert IsOf(m, c, steps[l].d);
    assert log[x] in log && log[x].message == m;
    assert t.entries[k].firstSeen <= now < t.entries[k].firstSeen + s.limits.timeout;
    YoungAge(s.limits, t.entries[k], now);
    ExpiredWereOverdue(s.limits, t, now);
    ExpireFrontKeeps(s.limits, t, now);
  }

  lemma YoungAge(limits: Limits, e: Entry, now: u64)
    requires e.firstSeen <= now < e.firstSeen + limits.timeout
    ensures Age(now, e) < limits.timeout
  {
  }

  // ---------- What is kept stays kept ----------

  lemma SeenLater(c: Capacity, earlier: seq<Step>, step: Step, m: Message, e: Entry, e': Entry)
    requires Transmittable(m, c) && Seen(c, earlier, m, e) && e'.firstSeen == e.firstSeen
    requires |e'.received| == |e.received| && forall n :: 0 <= n < |e.received| && e.received[n] ==> e'.received[n]
    ensures Seen(c, earlier + [step], m, e')
  {
    hide Datagram, Count;
    var l, i :| SeenAt(c, earlier, m, e, l, i);
    assert SeenAt(c, earlier + [step], m, e', l, i);
  }

  // What add does to the entry of its own message.
  lemma OwnEntry(limits: Limits, t: Table, f: Fragment, now: u64)
    requires ValidTable(limits, t)
    ensures var k, a := KeyOf(f.header), Add(limits, t, f, now).table;
      && (k in a.entries && k in t.entries ==>
            && a.entries[k].firstSeen == t.entries[k].firstSeen
            && |a.entries[k].received| == |t.entries[k].received|
            && forall n :: 0 <= n < |t.entries[k].received| && t.entries[k].received[n] ==> a.entries[k].received[n])
      && (k in a.entries && k !in t.entries ==>
            && a.entries[k].firstSeen == now
            && f.header.fragmentIndex < |a.entries[k].received| && a.entries[k].received[f.header.fragmentIndex])
  {
    hide MakeRoom;
    if Feeds(limits, AddOp(f, now), KeyOf(f.header)) { WithEntryIsValid(limits, t, f, now); }
  }

  lemma SeenAfterDelivery(s: Setup, earlier: seq<Step>, w: World, step: Step, x: nat, j: nat, i: nat)
    requires Honest(s, w) && |w.bridge.log| <= TWO_TO_THE_64 && x < |w.bridge.log| && j < |w.bridge.log|
    requires Kept(s, earlier, w.receiver, w.bridge.log[x].message)
    requires Transmittable(w.bridge.log[x].message, s.cfg.capacity)
    requires Receivable(s.limits, w.bridge.log[x].message, s.cfg.capacity)
    requires Sendable(s.cfg.capacity, w.bridge.log[j]) && i < w.bridge.log[j].sent
    requires step.NetworkDelivers? && step.d == Datagram(w.bridge.log[j].message, s.cfg.capacity, i)
    ensures var k, m := KeyOfMessage(w.bridge.log[x].message), w.bridge.log[x].message;
      var a := HandleDatagram(s.limits, w.receiver, step.d, step.now).table;
      k in a.entries ==> Seen(s.cfg.capacity, earlier + [step], m, a.entries[k])
  {
    hide Sound, Datagram, Transmittable, FragmentOf, Verdict, HandleDatagram, Add, CompletionsOf, Received,
      TableFollows, Accounted, AllRecorded, AllTransmitted;
    var c, m, t := s.cfg.capacity, w.bridge.log[x].message, w.receiver.table;
    var k := KeyOfMessage(m);
    DeliveryTable(s.limits, w.receiver, w.bridge.log[j], c, i, step.now);
    var f := FragmentOf(step.d);
    var a := Add(s.limits, t, f, step.now).table;
    if k in a.entries {
      if x != j {
        ReachedInSequence(s, w);
        DifferentKeys(w.bridge.log, x, j);
        OtherEntriesAreUntouched(s.limits, t, AddOp(f, step.now), k);
        SeenLater(c, earlier, step, m, t.entries[k], a.entries[k]);
      } else {
        OwnEntry(s.limits, t, f, step.now);
        if k in t.entries {
          SeenLater(c, earlier, step, m, t.entries[k], a.entries[k]);
        } else {
          CarriedHeader(c, w.bridge.log[j], i, f);
          assert SeenAt(c, earlier + [step], m, a.entries[k], |earlier|, i);
        }
      }
    }
  }

  lemma SeenAfter(s: Setup, earlier: seq<Step>, w: World, step: Step, x: nat)
    requires Honest(s, w) && |w.bridge.log| <= TWO_TO_THE_64 && x < |w.bridge.log| && Possible(s, w, step)
    requires Kept(s, earlier, w.receiver, w.bridge.log[x].message)
    requires Transmittable(w.bridge.log[x].message, s.cfg.capacity)
    requires Receivable(s.limits, w.bridge.log[x].message, s.cfg.capacity)
    ensures var k, m := KeyOfMessage(w.bridge.log[x].message), w.bridge.log[x].message;
      var t := After(s, w, step).receiver.table;
      k in t.entries ==> Seen(s.cfg.capacity, earlier + [step], m, t.entries[k])
  {
    hide Sound, Datagram, Transmittable, HandleDatagram, CompletionsOf, Received, TableFollows, Poll, Publish,
      Receivable, Seen, Accounted, AllRecorded, AllTransmitted, HandleCommand, SetRecording, Sweep, FlushTick;
    var c, m, k := s.cfg.capacity, w.bridge.log[x].message, KeyOfMessage(w.bridge.log[x].message);
    if step.NetworkDelivers? {
      var j, i := DeliveredIsSent(s.cfg, w.bridge, step.d);
      SeenAfterDelivery(s, earlier, w, step, x, j, i);
    } else {
      if step.ReceiverActs? { ActionsOnlyRemove(s.limits, w.receiver, step.event); }
      var t := After(s, w, step).receiver.table;
      if k in t.entries { SeenLater(c, earlier, step, m, w.receiver.table.entries[k], t.entries[k]); }
    }
  }

  lemma StaysKept(s: Setup, log: seq<Transmission>, earlier: seq<Step>, w: World, step: Step, x: nat)
    requires Smoothly(s, log, earlier, w) && Smooth(s, log, earlier + [step]) && x < |w.bridge.log|
    requires Possible(s, w, step)
    ensures Kept(s, earlier + [step], After(s, w, step).receiver, w.bridge.log[x].message)
  {
    hide Smooth, Reaches, After, CompletionsOf, Received, Datagram, Covers, Seen, Loses, Progress, NotOf, Sound,
      TableFollows, Accounted, AllRecorded, AllTransmitted, AllKept, ValidTable;
    var c, m := s.cfg.capacity, w.bridge.log[x].message;
    var r, r' := w.receiver, After(s, w, step).receiver;
    KeptOf(s, log, earlier, w, x);
    if Transmittable(m, c) && Receivable(s.limits, m, c) {
      NothingIsLost(s, log, earlier, w, step, x);
      SeenAfter(s, earlier, w, step, x);
      var own, i := StepProgress(s, w, step, x);
      assert (earlier + [step])[..|earlier + [step]| - 1] == earlier;
      forall n | 0 <= n < Count(m, c) && TimesOf(c, earlier + [step], m, n) > 0
        ensures CompletionsOf(r'.completions, KeyOfMessage(m)) > 0 || n in Received(r'.table, KeyOfMessage(m))
      {
        assert TimesOf(c, earlier, m, n) > 0 || (step.NetworkDelivers? && step.d == Datagram(m, c, n));
        OwnIsThis(m, c, step, own, i, n);
        SameOrMore(r, r', KeyOfMessage(m), Count(m, c), true, own, i, n);
      }
    }
  }

  // A message that is only now logged has not been delivered and is not pending.
  lemma NewIsKept(s: Setup, log: seq<Transmission>, earlier: seq<Step>, w: World, step: Step, after: World, x: nat)
    requires Smoothly(s, log, earlier, w) && Possible(s, w, step) && after == After(s, w, step)
    requires Sound(s.cfg, after.bridge) && w.bridge.log <= after.bridge.log && |after.bridge.log| <= TWO_TO_THE_64
    requires |w.bridge.log| <= x < |after.bridge.log|
    ensures Kept(s, earlier + [step], after.receiver, after.bridge.log[x].message)
  {
    hide Smooth, Reaches, Sound, AllKept, CompletionsOf, Received, Datagram, Count, Transmittable, Poll, HandleEvent,
      TableFollows, Accounted, AllRecorded, AllTransmitted;
    var c, m := s.cfg.capacity, after.bridge.log[x].message;
    SoundIsInSequence(s.cfg, after.bridge);
    NotYetTransmitted(s, w, after.bridge.log, x);
    if Transmittable(m, c) {
      forall n | 0 <= n < Count(m, c)
        ensures TimesOf(c, earlier + [step], m, n) == 0
      {
        NotDeliveredBefore(s, earlier, w, after, step, x, n);
      }
    }
  }

  lemma {:induction false} SmoothRun(s: Setup, log: seq<Transmission>, steps: seq<Step>, w: World)
    requires Reaches(s, steps, w) && Smooth(s, log, steps) && w.bridge.log <= log && |log| <= TWO_TO_THE_64
    ensures Smoothly(s, log, steps, w)
    decreases |steps|
  {
    hide Honest, After, WellShaped, Sound, Possible, Kept, InTime, OpenKeys;
    ReachableIsHonest(s, steps, w);
    if steps == [] {
      StartIsEmpty(s);
    } else {
      var last, earlier := steps[|steps| - 1], steps[..|steps| - 1];
      var before :| Reaches(s, earlier, before) && WellShaped(s, before) && Possible(s, before, last)
        && w == After(s, before, last);
      assert steps == earlier + [last];
      ReachableIsSound(s, earlier, before);
      BridgeStepIsSound(s, before, last);
      SmoothRun(s, log, earlier, before);
      forall x | 0 <= x < |w.bridge.log|
        ensures Kept(s, steps, w.receiver, w.bridge.log[x].message)
      {
        if x < |before.bridge.log| {
          StaysKept(s, log, earlier, before, last, x);
        } else {
          NewIsKept(s, log, earlier, before, last, w, x);
        }
      }
    }
  }

  // Exactly once, by the schedule alone: in a smooth run, every message that the receiver does not refuse and all of
  // whose fragments are delivered, in any order and interleaved with any others, completes exactly once.
  lemma ExactlyOnceBySchedule(s: Setup, steps: seq<Step>, w: World, j: nat)
    requires Reaches(s, steps, w) && |w.bridge.log| <= TWO_TO_THE_64 && Smooth(s, w.bridge.log, steps)
    requires j < |w.bridge.log| && Transmittable(w.bridge.log[j].message, s.cfg.capacity)
    requires Receivable(s.limits, w.bridge.log[j].message, s.cfg.capacity)
    requires forall n :: 0 <= n < Count(w.bridge.log[j].message, s.cfg.capacity) ==>
      TimesOf(s.cfg.capacity, steps, w.bridge.log[j].message, n) > 0
    ensures CompletionsOf(w.receiver.completions, KeyOfMessage(w.bridge.log[j].message)) == 1
  {
    hide Reaches, CompletionsOf, Times, Datagram, Smooth, Honest, Received, Count;
    var c, m := s.cfg.capacity, w.bridge.log[j].message;
    SmoothRun(s, w.bridge.log, steps, w);
    assert Kept(s, steps, w.receiver, m);
    NeverHoldsAll(s, w, j);
    CountIsAtLeastOne(m, c);
    SmoothRepeatsNothing(s, w.bridge.log, steps, Datagram(m, c, 0));
    CompletesAtMostAsDelivered(s, steps, w, j, 0);
    var n :| 0 <= n < Count(m, c) && n !in Received(w.receiver.table, KeyOfMessage(m));
    assert TimesOf(c, steps, m, n) > 0;
  }
}
