// When a message completes, in any run of the relay: exactly when its last missing fragment is delivered
// (tools/receiver/lib/reassembler.cpp:9-79, tools/receiver/receiver.cpp:207-256).
module RelayCompletion {
  import opened ByteOrder
  import opened WireProtocol
  import opened Fragmentation
  import opened BridgeModel
  import opened BridgeRuns
  import opened Reassembly
  import opened ReassemblyRuns
  import opened ReceiverModel
  import opened Relay
  import opened RelayRuns

  // What a transmission sent can be delivered.
  lemma {:induction false} SentIsOnWire(c: Capacity, log: seq<Transmission>, j: nat, i: nat)
    requires forall n :: 0 <= n < |log| ==> Sendable(c, log[n])
    requires j < |log| && i < log[j].sent
    ensures Transmittable(log[j].message, c) && i < Count(log[j].message, c)
    ensures Datagram(log[j].message, c, i) in Emitted(c, log)
  {
    hide Datagram, Count, Transmittable;
    var last := |log| - 1;
    assert Sendable(c, log[j]);
    if j < last {
      SentIsOnWire(c, log[..last], j, i);
    } else {
      var sent := Datagrams(log[j].message, c, log[j].sent);
      DatagramsAt(log[j].message, c, log[j].sent, i);
      assert sent[i] in sent;
    }
  }

  // The fragments of the message of t that entry e still lacks are i alone.
  predicate LacksOnly(e: Entry, i: nat) {
    i < |e.received| && !e.received[i] && forall n :: 0 <= n < |e.received| && n != i ==> e.received[n]
  }

  // Fragment i of the message of t, delivered now, finds everything else of it in the table.
  predicate IsLastMissing(c: Capacity, limits: Limits, table: Table, t: Transmission, i: nat) {
    var k := Key(t.message.sourceId, t.message.sequence);
    Count(t.message, c) == 1 ||
    (|t.message.data| <= limits.maxMessageLength && k in table.entries && LacksOnly(table.entries[k], i))
  }

  lemma AddCompletesIff(c: Capacity, limits: Limits, log: seq<Transmission>, t: Table, j: nat, i: nat,
                        f: Fragment, now: u64)
    requires InSequence(log) && |log| <= TWO_TO_THE_64
    requires j < |log| && Carries(c, log[j], i, f)
    requires TableFollows(c, log, t) && ValidTable(limits, t)
    ensures Add(limits, t, f, now).verdict == Complete <==> IsLastMissing(c, limits, t, log[j], i)
  {
    hide TableFollows, InSequence, HasOrigin, Carries;
    var k := KeyOf(f.header);
    CarriedHeader(c, log[j], i, f);
    if f.header.fragmentCount != 1 && f.header.messageLength <= limits.maxMessageLength {
      if k in t.entries {
        EntryHasOrigin(c, log, t, k);
        OriginIsUnique(c, log, j, i, f, t.entries[k]);
        FollowersComplete(c, limits, t, log[j], i, f, now);
      } else {
        CreationSetsOneFlag(limits, t, f, now);
      }
    }
  }

  lemma EntryHasOrigin(c: Capacity, log: seq<Transmission>, t: Table, k: Key)
    requires TableFollows(c, log, t) && k in t.entries
    ensures HasOrigin(c, log, k, t.entries[k])
  {
  }

  lemma CarriedHeader(c: Capacity, t: Transmission, i: nat, f: Fragment)
    requires Carries(c, t, i, f)
    ensures KeyOf(f.header) == Key(t.message.sourceId, t.message.sequence)
    ensures f.header.fragmentCount == Count(t.message, c) && f.header.messageLength == |t.message.data|
    ensures f.header.fragmentIndex == i < f.header.fragmentCount
  {
  }

  lemma FollowersComplete(c: Capacity, limits: Limits, t: Table, x: Transmission, i: nat, f: Fragment, now: u64)
    requires ValidTable(limits, t) && Carries(c, x, i, f)
    requires f.header.fragmentCount != 1 && f.header.messageLength <= limits.maxMessageLength
    requires KeyOf(f.header) in t.entries && Follows(c, x, KeyOf(f.header), t.entries[KeyOf(f.header)])
    ensures Add(limits, t, f, now).verdict == Complete <==> LacksOnly(t.entries[KeyOf(f.header)], i)
  {
    hide Add, Carries, ValidTable;
    CarriedHeader(c, x, i, f);
    var e := t.entries[KeyOf(f.header)];
    var arrived := set n | 0 <= n < |e.received| && e.received[n];
    assert Reflects(e, f.header, arrived);
    CompletesWhenFull(limits, t, f, now, f.header, arrived);
    forall n | 0 <= n < |e.received|
      ensures n in arrived + {i} <==> n == i || e.received[n]
    {
    }
  }

  // Completion, exactly. In any reachable state, deliver any datagram that some transmission sent. If it is
  // the last of its message that the receiver lacks, the message is handed to on_complete, whole;
  // otherwise nothing is. RelayDelivery draws the conclusion for whole runs.
  lemma DeliveryCompletesIffLast(s: Setup, steps: seq<Step>, w: World, j: nat, i: nat, now: u64)
    requires Reaches(s, steps, w) && |w.bridge.log| <= TWO_TO_THE_64
    requires j < |w.bridge.log| && i < w.bridge.log[j].sent
    ensures Transmittable(w.bridge.log[j].message, s.cfg.capacity) && i < Count(w.bridge.log[j].message, s.cfg.capacity)
    ensures var t, d := w.bridge.log[j], Datagram(w.bridge.log[j].message, s.cfg.capacity, i);
      && d in w.bridge.wire && ValidTable(s.limits, w.receiver.table)
      && var before, after := w.receiver.completions, HandleDatagram(s.limits, w.receiver, d, now).completions;
         if IsLastMissing(s.cfg.capacity, s.limits, w.receiver.table, t, i) then
           |after| == |before| + 1 && after[..|before|] == before && Delivers(s.cfg.capacity, t, after[|before|])
         else after == before
  {
    hide HandleDatagram, Delivers, IsLastMissing, Sound, Emitted, Datagram,
      Count, Transmittable, TableFollows, Reaches, ValidTable;
    ReachableIsHonest(s, steps, w);
    SoundFacts(s.cfg, w.bridge);
    SentIsOnWire(s.cfg.capacity, w.bridge.log, j, i);
    CompletionOfDelivery(s.cfg.capacity, s.limits, w.bridge.log, w.receiver, j, i, now);
  }

  lemma SoundFacts(cfg: BridgeConfig, b: BridgeState)
    requires Sound(cfg, b)
    ensures forall j :: 0 <= j < |b.log| ==> Sendable(cfg.capacity, b.log[j])
    ensures InSequence(b.log) && b.wire == Emitted(cfg.capacity, b.log)
  {
  }

  lemma CompletionOfDelivery(c: Capacity, limits: Limits, log: seq<Transmission>, r: ReceiverState, j: nat,
                             i: nat, now: u64)
    requires InSequence(log) && |log| <= TWO_TO_THE_64
    requires j < |log| && Sendable(c, log[j]) && i < log[j].sent
    requires TableFollows(c, log, r.table) && ValidTable(limits, r.table)
    ensures var d := Datagram(log[j].message, c, i);
      var before, after := r.completions, HandleDatagram(limits, r, d, now).completions;
      if IsLastMissing(c, limits, r.table, log[j], i) then
        |after| == |before| + 1 && after[..|before|] == before && Delivers(c, log[j], after[|before|])
      else after == before
  {
    hide TableFollows, InSequence, Delivers, IsLastMissing, Reassembly.Add, Datagram,
      ValidTable, FragmentHeader, FragmentPayload;
    var d := Datagram(log[j].message, c, i);
    DatagramIsAccepted(log[j].message, c, i);
    var f := FragmentOf(d);
    AddCompletesIff(c, limits, log, r.table, j, i, f, now);
    AddFollows(c, limits, log, r.table, j, i, f, now);
  }
}
