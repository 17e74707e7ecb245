// How often a message completes, over whole runs of the relay: at most as often as each of its fragments is
// delivered, and at least once if all are delivered and its entry is never evicted or expired
// (tools/receiver/lib/reassembler.cpp:9-125, tools/receiver/receiver.cpp:207-284).
module RelayDelivery {
  import opened ByteOrder
  import opened WireProtocol
  import opened Fragmentation
  import opened BridgeModel
  import opened BridgeRuns
  import opened Reassembly
  import opened ReassemblyRuns
  import opened ReceiverModel
  import opened Recording
  import opened Relay
  import opened RelayRuns
  import opened RelayCompletion

  // ---------- Counting ----------

  function KeyOfMessage(m: Message): Key {
    Key(m.sourceId, m.sequence)
  }

  // How many of the completed messages have key k.
  function CompletionsOf(ms: seq<CompletedMessage>, k: Key): nat {
    if ms == [] then 0
    else
      var last := ms[|ms| - 1];
      CompletionsOf(ms[..|ms| - 1], k) + if Key(last.sourceId, last.sequence) == k then 1 else 0
  }

  // How often the network delivers datagram d.
  function Times(steps: seq<Step>, d: bytes): nat {
    if steps == [] then 0
    else
      var last := steps[|steps| - 1];
      Times(steps[..|steps| - 1], d) + if last.NetworkDelivers? && last.d == d then 1 else 0
  }

  // The fragments of the pending message k that have been received; none if it is not pending.
  function Received(t: Table, k: Key): set<int> {
    if k in t.entries then set n | 0 <= n < |t.entries[k].received| && t.entries[k].received[n] else {}
  }

  // fragments holds all of the first count fragments.
  predicate Covers(fragments: set<int>, count: nat) {
    forall n :: 0 <= n < count ==> n in fragments
  }

  // The receiver does not refuse m for its length; an unfragmented message may have any.
  predicate Receivable(limits: Limits, m: Message, c: Capacity) {
    |m.data| <= limits.maxMessageLength || Count(m, c) == 1
  }

  // ---------- One datagram ----------

  // What delivering fragment i of the message of transmission x does to the fragments received of it: they
  // become one more, or, if it was the last missing one, the message completes and they are forgotten.
  lemma OwnFragments(c: Capacity, limits: Limits, log: seq<Transmission>, t: Table, j: nat, i: nat,
                     f: Fragment, now: u64)
    requires InSequence(log) && |log| <= TWO_TO_THE_64
    requires j < |log| && Carries(c, log[j], i, f)
    requires TableFollows(c, log, t) && ValidTable(limits, t)
    ensures var m, k, a := log[j].message, KeyOf(f.header), Add(limits, t, f, now);
      && k == KeyOfMessage(m)
      && (a.verdict == Complete ==> Covers(Received(t, k) + {i}, Count(m, c)) && Received(a.table, k) == {})
      && (a.verdict != Complete && Receivable(limits, m, c) ==> Received(a.table, k) == Received(t, k) + {i})
      && (a.verdict != Complete && !Receivable(limits, m, c) ==> a.table == t)
  {
    hide TableFollows, InSequence, HasOrigin, Carries, Add, Received, Count;
    var k := KeyOf(f.header);
    CarriedHeader(c, log[j], i, f);
    if k in t.entries {
      EntryHasOrigin(c, log, t, k);
      OriginIsUnique(c, log, j, i, f, t.entries[k]);
      PendingFragments(c, limits, t, log[j], i, f, now);
    } else {
      FirstFragments(limits, t, f, now);
    }
  }

  // A fragment of a message that is not pending.
  lemma FirstFragments(limits: Limits, t: Table, f: Fragment, now: u64)
    requires ValidTable(limits, t) && KeyOf(f.header) !in t.entries
    ensures var k, h, a := KeyOf(f.header), f.header, Add(limits, t, f, now);
      && (a.verdict == Complete ==>
            Covers(Received(t, k) + {h.fragmentIndex}, h.fragmentCount) && Received(a.table, k) == {})
      && (a.verdict != Complete && h.messageLength <= limits.maxMessageLength ==>
            Received(a.table, k) == Received(t, k) + {h.fragmentIndex})
      && (a.verdict != Complete && h.messageLength > limits.maxMessageLength ==> a.table == t)
      && (h.fragmentCount == 1 ==> a.verdict == Complete)
  {
    hide Received, WithEntry, Store;
    NothingReceived(t, KeyOf(f.header));
    if f.header.fragmentCount != 1 && f.header.messageLength <= limits.maxMessageLength {
      hide Add;
      CreationSetsOneFlag(limits, t, f, now);
      OneReceived(Add(limits, t, f, now).table, KeyOf(f.header), f.header.fragmentCount, f.header.fragmentIndex);
    }
  }

  lemma NothingReceived(t: Table, k: Key)
    requires k !in t.entries
    ensures Received(t, k) == {}
  {
  }

  lemma OneReceived(t: Table, k: Key, count: nat, i: nat)
    requires i < count && k in t.entries && t.entries[k].received == seq(count, _ => false)[i := true]
    ensures Received(t, k) == {i}
  {
  }

  lemma PendingFragments(c: Capacity, limits: Limits, t: Table, x: Transmission, i: nat, f: Fragment, now: u64)
    requires ValidTable(limits, t) && Carries(c, x, i, f)
    requires KeyOf(f.header) in t.entries && Follows(c, x, KeyOf(f.header), t.entries[KeyOf(f.header)])
    ensures var k, a := KeyOf(f.header), Add(limits, t, f, now);
      && |x.message.data| <= limits.maxMessageLength
      && (a.verdict == Complete ==> Covers(Received(t, k) + {i}, Count(x.message, c)) && Received(a.table, k) == {})
      && (a.verdict != Complete ==> Received(a.table, k) == Received(t, k) + {i})
  {
    hide Carries, Follows;
    var k := KeyOf(f.header);
    var e := t.entries[k];
    CarriedHeader(c, x, i, f);
    FollowedEntry(c, x, k, e);
    assert EntryOk(limits, e);
    FollowersComplete(c, limits, t, x, i, f, now);
    if e.received[i] {
      assert Received(t, k) + {i} == Received(t, k);
    } else {
      FilledIsOk(limits, e, f);
      assert forall n :: 0 <= n < |e.received| ==> (e.received[i := true][n] <==> n == i || e.received[n]);
    }
  }

  lemma FollowedEntry(c: Capacity, x: Transmission, k: Key, e: Entry)
    requires Follows(c, x, k, e)
    ensures e.fragmentCount == Count(x.message, c) == |e.received| && e.messageLength == |x.message.data|
  {
  }

  // Every other message keeps its fragments, unless its entry is evicted.
  lemma OtherFragments(limits: Limits, t: Table, f: Fragment, now: u64, k: Key)
    requires ValidTable(limits, t) && KeyOf(f.header) != k
    ensures var a := Add(limits, t, f, now);
        k in a.table.entries ==> k in t.entries && Received(a.table, k) == Received(t, k)
  {
    OtherEntriesAreUntouched(limits, t, AddOp(f, now), k);
  }

  // ---------- One step ----------

  // Between r and s the fragments received of k were forgotten without its message being completed: its entry
  // was evicted or expired.
  predicate Loses(r: ReceiverState, s: ReceiverState, k: Key) {
    && Received(r.table, k) != {} && Received(s.table, k) == {}
    && CompletionsOf(s.completions, k) == CompletionsOf(r.completions, k)
  }

  // Between r and s, one more fragment was delivered of the messages with key k: fragment i if own.
  predicate Progress(r: ReceiverState, s: ReceiverState, k: Key, count: nat, fits: bool, own: bool, i: int) {
    var more := CompletionsOf(s.completions, k) - CompletionsOf(r.completions, k);
    && (more == 0 || more == 1)
    && (more == 1 ==> own && Covers(Received(r.table, k) + {i}, count) && Received(s.table, k) == {})
    && (more == 0 && own && fits ==> Received(s.table, k) == Received(r.table, k) + {i})
    && (more == 0 && own && !fits ==> Received(s.table, k) == Received(r.table, k))
    && (!own ==> Received(s.table, k) == Received(r.table, k) || Received(s.table, k) == {})
  }

  lemma CompletionsOfOneMore(ms: seq<CompletedMessage>, m: CompletedMessage, k: Key)
    ensures CompletionsOf(ms + [m], k) == CompletionsOf(ms, k) + if Key(m.sourceId, m.sequence) == k then 1 else 0
  {
    assert (ms + [m])[..|ms + [m]| - 1] == ms;
  }

  lemma DeliveryProgress(c: Capacity, limits: Limits, log: seq<Transmission>, r: ReceiverState, j: nat, j': nat,
                         i: nat, now: u64)
    requires InSequence(log) && |log| <= TWO_TO_THE_64
    requires j < |log| && j' < |log| && Sendable(c, log[j']) && i < log[j'].sent
    requires TableFollows(c, log, r.table) && ValidTable(limits, r.table)
    ensures var k, m := KeyOfMessage(log[j].message), log[j].message;
      Progress(r, HandleDatagram(limits, r, Datagram(log[j'].message, c, i), now), k,
               Count(m, c), Receivable(limits, m, c), j == j', i)
  {
    hide TableFollows, InSequence, Delivers, Reassembly.Add, Datagram, ValidTable, FragmentHeader,
      FragmentPayload, Received, Covers, Account, ObserveMessage, CompletionsOf;
    var d, k := Datagram(log[j'].message, c, i), KeyOfMessage(log[j].message);
    DatagramIsAccepted(log[j'].message, c, i);
    var f := FragmentOf(d);
    var a := Add(limits, r.table, f, now);
    CarriedHeader(c, log[j'], i, f);
    OwnFragments(c, limits, log, r.table, j', i, f, now);
    AddFollows(c, limits, log, r.table, j', i, f, now);
    DeliveredKey(c, log[j'], a.out);
    CompletionsOfOneMore(r.completions, a.out, k);
    if j != j' {
      DifferentKeys(log, j, j');
      OtherFragments(limits, r.table, f, now, k);
      NotPendingReceivesNone(a.table, k);
    }
  }

  lemma NotPendingReceivesNone(t: Table, k: Key)
    ensures k !in t.entries ==> Received(t, k) == {}
  {
  }

  lemma DeliveredKey(c: Capacity, t: Transmission, m: CompletedMessage)
    ensures Delivers(c, t, m) ==> Key(m.sourceId, m.sequence) == KeyOfMessage(t.message)
  {
  }

  lemma DifferentKeys(log: seq<Transmission>, j: nat, j': nat)
    requires InSequence(log) && |log| <= TWO_TO_THE_64 && j < |log| && j' < |log| && j != j'
    ensures KeyOfMessage(log[j].message) != KeyOfMessage(log[j'].message)
  {
    if KeyOfMessage(log[j].message) == KeyOfMessage(log[j'].message) {
      DeliveriesHaveDistinctKeys(log, j, j');
    }
  }

  // A message that is only transmitted later is not pending and has not completed.
  lemma NotYetTransmitted(s: Setup, w: World, log: seq<Transmission>, j: nat)
    requires Honest(s, w) && w.bridge.log <= log && |w.bridge.log| <= j < |log| <= TWO_TO_THE_64 && InSequence(log)
    ensures var k := KeyOfMessage(log[j].message);
      k !in w.receiver.table.entries && CompletionsOf(w.receiver.completions, k) == 0
  {
    hide Sound, Delivers, InSequence, Follows, CompletionsOf;
    var c, k := s.cfg.capacity, KeyOfMessage(log[j].message);
    if k in w.receiver.table.entries {
      assert HasOrigin(c, w.bridge.log, k, w.receiver.table.entries[k]);
      var n :| 0 <= n < |w.bridge.log| && Follows(c, w.bridge.log[n], k, w.receiver.table.entries[k]);
      FollowsKey(c, w.bridge.log[n], k, w.receiver.table.entries[k]);
      DifferentKeys(log, j, n);
    }
    forall i | 0 <= i < |w.receiver.completions|
      ensures KeyOfCompleted(w.receiver.completions[i]) != k
    {
      assert WasTransmitted(c, w.bridge.log, w.receiver.completions[i]);
      var n :| 0 <= n < |w.bridge.log| && Delivers(c, w.bridge.log[n], w.receiver.completions[i]);
      DeliveredKey(c, w.bridge.log[n], w.receiver.completions[i]);
      DifferentKeys(log, j, n);
    }
    NoneOfKey(w.receiver.completions, k);
  }

  function KeyOfCompleted(m: CompletedMessage): Key {
    Key(m.sourceId, m.sequence)
  }

  lemma {:induction false} NoneOfKey(ms: seq<CompletedMessage>, k: Key)
    requires forall i :: 0 <= i < |ms| ==> KeyOfCompleted(ms[i]) != k
    ensures CompletionsOf(ms, k) == 0
  {
    if ms != [] {
      assert ms[|ms| - 1] == ms[..][|ms| - 1] && KeyOfCompleted(ms[|ms| - 1]) != k;
      NoneOfKey(ms[..|ms| - 1], k);
    }
  }

  // What any step does to the message of transmission j that was logged before it.
  lemma StepProgress(s: Setup, w: World, step: Step, j: nat) returns (own: bool, i: nat)
    requires Honest(s, w) && Possible(s, w, step) && |w.bridge.log| <= TWO_TO_THE_64 && j < |w.bridge.log|
    ensures var m, after := w.bridge.log[j].message, After(s, w, step);
      Progress(w.receiver, after.receiver, KeyOfMessage(m),
               Count(m, s.cfg.capacity), Receivable(s.limits, m, s.cfg.capacity), own, i)
    ensures own ==>
      var m := w.bridge.log[j].message;
      && Transmittable(m, s.cfg.capacity) && i < Count(m, s.cfg.capacity)
      && step.NetworkDelivers? && step.d == Datagram(m, s.cfg.capacity, i)
    ensures !own && step.NetworkDelivers? ==> NotOf(w.bridge.log[j].message, s.cfg.capacity, step.d)
  {
    hide Sound, TableFollows, Received, Covers, HandleDatagram, CompletionsOf, Accounted, AllRecorded, AllTransmitted,
      Emitted, Datagram, InSequence, NotOf, Progress, ValidTable;
    own, i := false, 0;
    match step
    case NetworkDelivers(d, now) =>
      var j';
      j', i := DeliveredIsSent(s.cfg, w.bridge, d);
      own := j == j';
      DeliveryProgress(s.cfg.capacity, s.limits, w.bridge.log, w.receiver, j, j', i, now);
      if !own { OtherDatagram(s.cfg.capacity, w.bridge.log, j, j', i); }
    case ReceiverActs(e) => ActionProgress(s.limits, w.receiver, e, w.bridge.log[j].message, s.cfg.capacity);
    case SourcesPublish(_) => NoProgress(s.limits, w.receiver, w.bridge.log[j].message, s.cfg.capacity);
    case BridgePolls(_) => NoProgress(s.limits, w.receiver, w.bridge.log[j].message, s.cfg.capacity);
  }

  // d is no datagram of m.
  predicate NotOf(m: Message, c: Capacity, d: bytes) {
    Transmittable(m, c) ==> forall n :: 0 <= n < Count(m, c) ==> d != Datagram(m, c, n)
  }

  lemma OtherDatagram(c: Capacity, log: seq<Transmission>, j: nat, j': nat, i: nat)
    requires InSequence(log) && |log| <= TWO_TO_THE_64 && j < |log| && j' < |log| && j != j'
    requires Transmittable(log[j'].message, c) && i < Count(log[j'].message, c)
    ensures NotOf(log[j].message, c, Datagram(log[j'].message, c, i))
  {
    hide Datagram, InSequence, Count, Transmittable;
    var m := log[j].message;
    DifferentKeys(log, j, j');
    if Transmittable(m, c) {
      forall n | 0 <= n < Count(m, c)
        ensures Datagram(log[j'].message, c, i) != Datagram(m, c, n)
      {
        if Datagram(log[j'].message, c, i) == Datagram(m, c, n) { DatagramIdentity(log[j'].message, i, m, n, c); }
      }
    }
  }

  lemma DeliveredIsSent(cfg: BridgeConfig, b: BridgeState, d: bytes) returns (j: nat, i: nat)
    requires Sound(cfg, b) && d in b.wire
    ensures InSequence(b.log) && j < |b.log| && Sendable(cfg.capacity, b.log[j]) && i < b.log[j].sent
    ensures Transmittable(b.log[j].message, cfg.capacity) && i < Count(b.log[j].message, cfg.capacity)
    ensures d == Datagram(b.log[j].message, cfg.capacity, i)
  {
    hide Emitted, Datagram;
    j, i := WireComesFromLog(cfg.capacity, b.log, d);
    assert Sendable(cfg.capacity, b.log[j]);
  }

  lemma ActionProgress(limits: Limits, r: ReceiverState, e: Event, m: Message, c: Capacity)
    requires ValidTable(limits, r.table) && !e.DatagramArrives?
    ensures Progress(r, HandleEvent(limits, r, e), KeyOfMessage(m), Count(m, c), Receivable(limits, m, c), false, 0)
  {
    hide HandleEvent, CompletionsOf, Covers;
    ActionsOnlyRemove(limits, r, e);
  }

  lemma NoProgress(limits: Limits, r: ReceiverState, m: Message, c: Capacity)
    ensures Progress(r, r, KeyOfMessage(m), Count(m, c), Receivable(limits, m, c), false, 0)
  {
    hide CompletionsOf, Covers;
  }

  // ---------- At most as often as each fragment ----------

  // Completions of the message, and its fragment n if it is held, are paid for by deliveries of fragment n.
  lemma {:induction false} DeliveriesPay(s: Setup, steps: seq<Step>, w: World, j: nat, n: nat)
    requires Reaches(s, steps, w) && |w.bridge.log| <= TWO_TO_THE_64 && j < |w.bridge.log|
    requires Transmittable(w.bridge.log[j].message, s.cfg.capacity)
        && n < Count(w.bridge.log[j].message, s.cfg.capacity)
    ensures var m, k := w.bridge.log[j].message, KeyOfMessage(w.bridge.log[j].message);
      CompletionsOf(w.receiver.completions, k) + One(n in Received(w.receiver.table, k))
        <= Times(steps, Datagram(m, s.cfg.capacity, n))
    decreases |steps|
  {
    hide Honest, After, WellShaped, Sound, Received, CompletionsOf, Covers, Datagram, Possible;
    if steps == [] {
      StartIsEmpty(s);
    } else {
      var last, earlier := steps[|steps| - 1], steps[..|steps| - 1];
      var before :| Reaches(s, earlier, before) && WellShaped(s, before) && Possible(s, before, last)
        && w == After(s, before, last);
      ReachableIsSound(s, earlier, before);
      BridgeStepIsSound(s, before, last);
      ReachableIsHonest(s, earlier, before);
      if j < |before.bridge.log| {
        DeliveriesPay(s, earlier, before, j, n);
        var own, i := StepProgress(s, before, last, j);
        var m := w.bridge.log[j].message;
        SameOrMore(before.receiver, w.receiver, KeyOfMessage(m), Count(m, s.cfg.capacity),
                   Receivable(s.limits, m, s.cfg.capacity), own, i, n);
      } else {
        NewlyTransmitted(s, before, w, last, j);
      }
    }
  }

  lemma StartIsEmpty(s: Setup)
    ensures Start(s).bridge.log == []
  {
  }

  // The accounts of one step balance, for fragment n.
  lemma SameOrMore(r: ReceiverState, r': ReceiverState, k: Key, count: nat, fits: bool, own: bool, i: int, n: int)
    requires Progress(r, r', k, count, fits, own, i) && 0 <= n < count
    ensures CompletionsOf(r'.completions, k) + One(n in Received(r'.table, k)) <=
            CompletionsOf(r.completions, k) + One(n in Received(r.table, k)) + One(own && i == n)
    ensures fits && !Loses(r, r', k) ==>
              (CompletionsOf(r.completions, k) > 0 || n in Received(r.table, k) || (own && i == n) ==>
               CompletionsOf(r'.completions, k) > 0 || n in Received(r'.table, k))
  {
    hide CompletionsOf, Received;
    var before, after := Received(r.table, k), Received(r'.table, k);
    if own && CompletionsOf(r'.completions, k) == CompletionsOf(r.completions, k) + 1 {
      assert n in before + {i};
    }
  }

  lemma NewlyTransmitted(s: Setup, before: World, w: World, step: Step, j: nat)
    requires Honest(s, before) && Possible(s, before, step) && WellShaped(s, before) && w == After(s, before, step)
    requires Sound(s.cfg, w.bridge) && before.bridge.log <= w.bridge.log && |w.bridge.log| <= TWO_TO_THE_64
    requires |before.bridge.log| <= j < |w.bridge.log|
    ensures var k := KeyOfMessage(w.bridge.log[j].message);
      CompletionsOf(w.receiver.completions, k) == 0 && Received(w.receiver.table, k) == {}
  {
    hide Honest, Poll, HandleEvent, CompletionsOf, InSequence, Emitted, Counted;
    NotYetTransmitted(s, before, w.bridge.log, j);
  }

  // A message completes at most as often as each of its fragments is delivered; so without duplicates it
  // completes at most once.
  lemma CompletesAtMostAsDelivered(s: Setup, steps: seq<Step>, w: World, j: nat, n: nat)
    requires Reaches(s, steps, w) && |w.bridge.log| <= TWO_TO_THE_64 && j < |w.bridge.log|
    requires Transmittable(w.bridge.log[j].message, s.cfg.capacity)
        && n < Count(w.bridge.log[j].message, s.cfg.capacity)
    ensures CompletionsOf(w.receiver.completions, KeyOfMessage(w.bridge.log[j].message)) <=
            Times(steps, Datagram(w.bridge.log[j].message, s.cfg.capacity, n))
  {
    hide Reaches, CompletionsOf, Times, Received, Datagram;
    DeliveriesPay(s, steps, w, j, n);
  }

  // ---------- At least once ----------

  // No step of the run drops the pending message k without completing it: it is neither evicted nor expired.
  ghost predicate NeverLoses(s: Setup, steps: seq<Step>, k: Key) {
    steps != [] ==>
      var earlier, last := steps[..|steps| - 1], steps[|steps| - 1];
      && NeverLoses(s, earlier, k)
      && forall w :: Reaches(s, earlier, w) && WellShaped(s, w) && Possible(s, w, last) ==>
           !Loses(w.receiver, After(s, w, last).receiver, k)
  }

  // Every fragment that was delivered is held, or the message has completed.
  lemma {:induction false} DeliveredIsHeld(s: Setup, steps: seq<Step>, w: World, j: nat, n: nat)
    requires Reaches(s, steps, w) && |w.bridge.log| <= TWO_TO_THE_64 && j < |w.bridge.log|
    requires Transmittable(w.bridge.log[j].message, s.cfg.capacity)
        && n < Count(w.bridge.log[j].message, s.cfg.capacity)
    requires Receivable(s.limits, w.bridge.log[j].message, s.cfg.capacity)
    requires NeverLoses(s, steps, KeyOfMessage(w.bridge.log[j].message))
    requires Times(steps, Datagram(w.bridge.log[j].message, s.cfg.capacity, n)) > 0
    ensures var k := KeyOfMessage(w.bridge.log[j].message);
      CompletionsOf(w.receiver.completions, k) > 0 || n in Received(w.receiver.table, k)
    decreases |steps|
  {
    hide Honest, After, WellShaped, Sound, Received, CompletionsOf, Covers, Datagram, Possible, Loses;
    if steps == [] {
      StartIsEmpty(s);
    } else {
      var last, earlier := steps[|steps| - 1], steps[..|steps| - 1];
      var before :| Reaches(s, earlier, before) && WellShaped(s, before) && Possible(s, before, last)
        && w == After(s, before, last);
      ReachableIsSound(s, earlier, before);
      BridgeStepIsSound(s, before, last);
      ReachableIsHonest(s, earlier, before);
      if j < |before.bridge.log| {
        var own, i := StepProgress(s, before, last, j);
        var m := w.bridge.log[j].message;
        var k := KeyOfMessage(m);
        if Times(earlier, Datagram(w.bridge.log[j].message, s.cfg.capacity, n)) > 0 {
          DeliveredIsHeld(s, earlier, before, j, n);
        }
        SameOrMore(before.receiver, w.receiver, k, Count(m, s.cfg.capacity), true, own, i, n);
        OwnIsThis(m, s.cfg.capacity, last, own, i, n);
      } else {
        NotDeliveredBefore(s, earlier, before, w, last, j, n);
      }
    }
  }

  // What was delivered has been on the wire.
  lemma {:induction false} DeliveredWasOnWire(s: Setup, steps: seq<Step>, w: World, d: bytes)
    requires Reaches(s, steps, w) && Times(steps, d) > 0
    ensures d in w.bridge.wire
    decreases |steps|
  {
    hide WellShaped, Sound, HandleEvent, Poll;
    if steps != [] {
      var last, earlier := steps[|steps| - 1], steps[..|steps| - 1];
      var before :| Reaches(s, earlier, before) && WellShaped(s, before) && Possible(s, before, last)
        && w == After(s, before, last);
      ReachableIsSound(s, earlier, before);
      if last.BridgePolls? {
        SoundIsShaped(s.cfg, before.bridge);
        PollKeepsSound(s.cfg, before.bridge, last.outcome);
      }
      if Times(earlier, d) > 0 { DeliveredWasOnWire(s, earlier, before, d); }
    }
  }

  lemma NotDeliveredBefore(s: Setup, earlier: seq<Step>, before: World, w: World, step: Step, j: nat, n: nat)
    requires Reaches(s, earlier, before) && WellShaped(s, before) && Possible(s, before, step)
        && w == After(s, before, step)
    requires Sound(s.cfg, before.bridge) && Sound(s.cfg, w.bridge) && before.bridge.log <= w.bridge.log
    requires |before.bridge.log| <= j < |w.bridge.log| <= TWO_TO_THE_64
    requires Transmittable(w.bridge.log[j].message, s.cfg.capacity)
        && n < Count(w.bridge.log[j].message, s.cfg.capacity)
    ensures Times(earlier + [step], Datagram(w.bridge.log[j].message, s.cfg.capacity, n)) == 0
  {
    hide Sound, Datagram, Poll, HandleEvent, Reaches, Count, Transmittable;
    var d := Datagram(w.bridge.log[j].message, s.cfg.capacity, n);
    assert (earlier + [step])[..|earlier + [step]| - 1] == earlier;
    assert !step.NetworkDelivers?;
    if Times(earlier, d) > 0 {
      DeliveredWasOnWire(s, earlier, before, d);
      var j', i := DeliveredIsSent(s.cfg, before.bridge, d);
      SoundIsInSequence(s.cfg, w.bridge);
      DatagramIdentity(before.bridge.log[j'].message, i, w.bridge.log[j].message, n, s.cfg.capacity);
      DifferentKeys(w.bridge.log, j, j');
    }
  }

  // If a step delivers fragment n of m, that is what it was found to do.
  lemma OwnIsThis(m: Message, c: Capacity, step: Step, own: bool, i: nat, n: nat)
    requires Transmittable(m, c) && n < Count(m, c)
    requires own ==> i < Count(m, c) && step.NetworkDelivers? && step.d == Datagram(m, c, i)
    requires !own && step.NetworkDelivers? ==> NotOf(m, c, step.d)
    ensures step.NetworkDelivers? && step.d == Datagram(m, c, n) ==> own && i == n
  {
    hide Datagram, Count, Transmittable;
    if own && step.d == Datagram(m, c, n) { DatagramIdentity(m, i, m, n, c); }
  }

  // A message that the receiver does not refuse and all of whose fragments are delivered, in any order and however
  // often, completes, if it is never evicted or expired.
  lemma CompletesOnceAllArrived(s: Setup, steps: seq<Step>, w: World, j: nat)
    requires Reaches(s, steps, w) && |w.bridge.log| <= TWO_TO_THE_64 && j < |w.bridge.log|
    requires Transmittable(w.bridge.log[j].message, s.cfg.capacity)
    requires Receivable(s.limits, w.bridge.log[j].message, s.cfg.capacity)
    requires NeverLoses(s, steps, KeyOfMessage(w.bridge.log[j].message))
    requires forall n :: 0 <= n < Count(w.bridge.log[j].message, s.cfg.capacity) ==>
      Times(steps, Datagram(w.bridge.log[j].message, s.cfg.capacity, n)) > 0
    ensures CompletionsOf(w.receiver.completions, KeyOfMessage(w.bridge.log[j].message)) > 0
  {
    hide Reaches, CompletionsOf, Times, Received, Datagram, NeverLoses, Honest;
    var m := w.bridge.log[j].message;
    var k := KeyOfMessage(m);
    if CompletionsOf(w.receiver.completions, k) == 0 {
      forall n | 0 <= n < Count(m, s.cfg.capacity)
        ensures n in Received(w.receiver.table, k)
      {
        DeliveredIsHeld(s, steps, w, j, n);
      }
      CountIsAtLeastOne(m, s.cfg.capacity);
      ReachableIsHonest(s, steps, w);
      NeverHoldsAll(s, w, j);
    }
  }

  // A pending message always lacks a fragment.
  lemma NeverHoldsAll(s: Setup, w: World, j: nat)
    requires Honest(s, w) && |w.bridge.log| <= TWO_TO_THE_64 && j < |w.bridge.log|
    ensures var held := Received(w.receiver.table, KeyOfMessage(w.bridge.log[j].message));
      exists n :: 0 <= n < Count(w.bridge.log[j].message, s.cfg.capacity) && n !in held
  {
    hide Sound, Accounted, AllRecorded, AllTransmitted, InSequence, Count;
    var c, m := s.cfg.capacity, w.bridge.log[j].message;
    var k, t := KeyOfMessage(m), w.receiver.table;
    CountIsAtLeastOne(m, c);
    if k !in t.entries {
      assert 0 !in Received(t, k);
    } else {
      var e := t.entries[k];
      assert HasOrigin(c, w.bridge.log, k, e) && EntryOk(s.limits, e);
      var x :| 0 <= x < |w.bridge.log| && Follows(c, w.bridge.log[x], k, e);
      FollowsKey(c, w.bridge.log[x], k, e);
      SoundIsInSequence(s.cfg, w.bridge);
      if x != j { DifferentKeys(w.bridge.log, x, j); }
      FollowedEntry(c, w.bridge.log[j], k, e);
      CountTrueBounds(e.received);
      var n :| 0 <= n < |e.received| && !e.received[n];
      assert n !in Received(t, k);
    }
  }

  // Exactly once: if each fragment is delivered exactly once, in any order, and the message is never evicted or
  // expired, it completes exactly once.
  lemma ExactlyOnce(s: Setup, steps: seq<Step>, w: World, j: nat)
    requires Reaches(s, steps, w) && |w.bridge.log| <= TWO_TO_THE_64 && j < |w.bridge.log|
    requires Transmittable(w.bridge.log[j].message, s.cfg.capacity)
    requires Receivable(s.limits, w.bridge.log[j].message, s.cfg.capacity)
    requires NeverLoses(s, steps, KeyOfMessage(w.bridge.log[j].message))
    requires forall n :: 0 <= n < Count(w.bridge.log[j].message, s.cfg.capacity) ==>
      Times(steps, Datagram(w.bridge.log[j].message, s.cfg.capacity, n)) == 1
    ensures CompletionsOf(w.receiver.completions, KeyOfMessage(w.bridge.log[j].message)) == 1
  {
    hide Reaches, CompletionsOf, Times, Datagram, NeverLoses;
    CompletesOnceAllArrived(s, steps, w, j);
    CountIsAtLeastOne(w.bridge.log[j].message, s.cfg.capacity);
    CompletesAtMostAsDelivered(s, steps, w, j, 0);
  }
}
