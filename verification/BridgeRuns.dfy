// What holds over every run of the bridge.
module BridgeRuns {
  import opened ByteOrder
  import opened WireProtocol
  import opened Fragmentation
  import opened BridgeModel

  // ---------- The log, the wire and the numbering ----------

  // Every datagram the logged transmissions put on the network, in order.
  function Emitted(c: Capacity, log: seq<Transmission>): seq<bytes>
    requires forall j :: 0 <= j < |log| ==> Sendable(c, log[j])
  {
    if log == [] then []
    else
      var t := log[|log| - 1];
      assert Sendable(c, t);
      Emitted(c, log[..|log| - 1]) + Datagrams(t.message, c, t.sent)
  }

  predicate Sendable(c: Capacity, t: Transmission) {
    && (t.message.flags == 0 || t.message.flags == FLAG_MULTIPART)
    && (t.sent > 0 ==> Transmittable(t.message, c) && t.sent <= Count(t.message, c))
  }

  function OfSource(log: seq<Transmission>, id: u32): seq<Transmission> {
    if log == [] then []
    else
      var t := log[|log| - 1];
      OfSource(log[..|log| - 1], id) + (if t.message.sourceId == id then [t] else [])
  }

  // Each message carries the number of messages of its source before it.
  predicate InSequence(log: seq<Transmission>) {
    log != [] ==>
      var before, t := log[..|log| - 1], log[|log| - 1];
      InSequence(before) && t.message.sequence == |OfSource(before, t.message.sourceId)| % TWO_TO_THE_64
  }

  predicate Counted(cfg: BridgeConfig, stats: seq<SourceStats>, log: seq<Transmission>) {
    |stats| == |cfg.ids| && forall i :: 0 <= i < |stats| ==>
      stats[i].messages == |OfSource(log, cfg.ids[i])| && stats[i].nextSequence == stats[i].messages % TWO_TO_THE_64
  }

  predicate Sound(cfg: BridgeConfig, b: BridgeState) {
    && Shaped(cfg, b)
    && (forall j :: 0 <= j < |b.log| ==> Sendable(cfg.capacity, b.log[j]) && b.log[j].message.sourceId in cfg.ids)
    && b.wire == Emitted(cfg.capacity, b.log)
    && InSequence(b.log)
    && Counted(cfg, b.sourceStats, b.log)
  }

  // b came before r: nothing logged or sent is taken back.
  predicate Extends(b: BridgeState, r: BridgeState) {
    b.log <= r.log && b.wire <= r.wire
  }

  lemma AppendOne<T>(s: seq<T>, x: T)
    ensures (s + [x])[..|s + [x]| - 1] == s
  {
  }

  lemma {:induction false} OfNoSource(cfg: BridgeConfig, recvs: seq<RecvEvent>, sends: seq<SendEvent>)
    ensures Sound(cfg, Initial(cfg, recvs, sends))
  {
  }

  lemma OfSourceSnoc(log: seq<Transmission>, t: Transmission, id: u32)
    ensures OfSource(log + [t], id) == OfSource(log, id) + if t.message.sourceId == id then [t] else []
  {
    AppendOne(log, t);
  }

  lemma EmittedSnoc(c: Capacity, log: seq<Transmission>, t: Transmission)
    requires Sendable(c, t) && forall j :: 0 <= j < |log| ==> Sendable(c, log[j])
    ensures (forall j :: 0 <= j < |log + [t]| ==> Sendable(c, (log + [t])[j]))
    ensures Emitted(c, log + [t]) == Emitted(c, log) + Datagrams(t.message, c, t.sent)
  {
    hide Sendable, Datagrams;
    AppendOne(log, t);
  }

  // Logging one more transmission.
  lemma LoggingKeepsCounted(cfg: BridgeConfig, stats: seq<SourceStats>, log: seq<Transmission>, i: nat, t: Transmission,
                            st: SourceStats)
    requires Counted(cfg, stats, log) && i < |stats| && t.message.sourceId == cfg.ids[i]
    requires st.messages == stats[i].messages + 1 && st.nextSequence == (stats[i].nextSequence + 1) % TWO_TO_THE_64
    ensures Counted(cfg, stats[i := st], log + [t])
  {
    hide OfSource;
    forall j | 0 <= j < |stats|
      ensures var x := stats[i := st][j];
        x.messages == |OfSource(log + [t], cfg.ids[j])| && x.nextSequence == x.messages % TWO_TO_THE_64
    {
      OfSourceSnoc(log, t, cfg.ids[j]);
      assert stats[j].nextSequence == stats[j].messages % TWO_TO_THE_64;
      NextModulo(stats[j].messages);
    }
  }

  lemma NextModulo(n: nat)
    ensures (n % TWO_TO_THE_64 + 1) % TWO_TO_THE_64 == (n + 1) % TWO_TO_THE_64
  {
  }

  lemma LoggingKeepsInSequence(cfg: BridgeConfig, stats: seq<SourceStats>, log: seq<Transmission>, i: nat,
                               t: Transmission)
    requires Counted(cfg, stats, log) && InSequence(log) && i < |stats|
    requires t.message.sourceId == cfg.ids[i] && t.message.sequence == stats[i].nextSequence
    ensures InSequence(log + [t])
  {
    hide OfSource;
    AppendOne(log, t);
  }

  // What one call of transmit logs.
  function Attempt(cfg: BridgeConfig, b: BridgeState, i: nat, data: bytes, flags: u16, timestamp: u64): Transmission
    requires Shaped(cfg, b) && i < |cfg.ids|
  {
    var m := Numbered(cfg, b, i, data, flags, timestamp);
    Transmission(m, if Transmittable(m, cfg.capacity) then SentOf(b.sends, Count(m, cfg.capacity)) else 0)
  }

  lemma TransmitEffect(cfg: BridgeConfig, b: BridgeState, i: nat, data: bytes, flags: u16, timestamp: u64)
    requires Shaped(cfg, b) && i < |cfg.ids| && (flags == 0 || flags == FLAG_MULTIPART)
    ensures var r, t := Transmit(cfg, b, i, data, flags, timestamp), Attempt(cfg, b, i, data, flags, timestamp);
      && Sendable(cfg.capacity, t) && r.log == b.log + [t]
      && r.wire == b.wire + Datagrams(t.message, cfg.capacity, t.sent)
      && r.sourceStats == b.sourceStats[i := r.sourceStats[i]]
      && r.sourceStats[i].messages == b.sourceStats[i].messages + 1
      && r.sourceStats[i].nextSequence == (b.sourceStats[i].nextSequence + 1) % TWO_TO_THE_64
  {
    hide Boundary, SentOf, Drop, Failure, Rest, FragmentCountFor;
    var m := Numbered(cfg, b, i, data, flags, timestamp);
    assert b.wire + Datagrams(m, cfg.capacity, 0) == b.wire;
  }

  lemma TransmitKeepsSound(cfg: BridgeConfig, b: BridgeState, i: nat, data: bytes, flags: u16, timestamp: u64)
    requires Sound(cfg, b) && i < |cfg.ids| && (flags == 0 || flags == FLAG_MULTIPART)
    ensures var r := Transmit(cfg, b, i, data, flags, timestamp);
      && Sound(cfg, r) && Extends(b, r)
      && |r.log| == |b.log| + 1 && r.log[|b.log|].message == Numbered(cfg, b, i, data, flags, timestamp)
  {
    hide Transmit, Datagrams, Emitted, InSequence, Counted, Sendable, SentOf, Count, Transmittable;
    var r, t := Transmit(cfg, b, i, data, flags, timestamp), Attempt(cfg, b, i, data, flags, timestamp);
    TransmitEffect(cfg, b, i, data, flags, timestamp);
    EmittedSnoc(cfg.capacity, b.log, t);
    LoggingKeepsCounted(cfg, b.sourceStats, b.log, i, t, r.sourceStats[i]);
    LoggingKeepsInSequence(cfg, b.sourceStats, b.log, i, t);
  }

  lemma TakingKeepsSound(cfg: BridgeConfig, b: BridgeState, i: nat, timestamp: u64)
    requires Sound(cfg, b) && i < |cfg.ids| && b.queues[i] != []
    ensures var r := TakeMessage(cfg, b, i, timestamp); Sound(cfg, r.state) && Extends(b, r.state)
  {
    hide Transmit, ReceiveParts;
    var frames, queue := b.queues[i][0], b.queues[i][1..];
    if |frames| == 1 {
      TransmitKeepsSound(cfg, b.(queues := b.queues[i := queue]), i, frames[0], 0, timestamp);
    } else {
      var p := ReceiveParts(b.recvs, frames[0], frames[1..]);
      if p.ok || p.remaining == [] {
        TransmitKeepsSound(cfg, CountMultipart(b.(queues := b.queues[i := queue], recvs := p.recvs), i), i,
                           p.data, FLAG_MULTIPART, timestamp);
      }
    }
  }

  // Receive events, receive errors and poll counters play no part in soundness.
  lemma CountersKeepSound(cfg: BridgeConfig, b: BridgeState, recvs: seq<RecvEvent>, totals: Totals)
    requires Sound(cfg, b)
    ensures Sound(cfg, b.(recvs := recvs)) && Sound(cfg, b.(totals := totals))
    ensures forall i :: 0 <= i < |cfg.ids| ==> Sound(cfg, CountRecvError(b, i))
  {
  }

  lemma {:induction false} ServiceKeepsSound(cfg: BridgeConfig, b: BridgeState, i: nat, budget: nat)
    requires Shaped(cfg, b) && Sound(cfg, b) && i < |cfg.ids|
    ensures Sound(cfg, Service(cfg, b, i, budget)) && Extends(b, Service(cfg, b, i, budget))
    decreases budget
  {
    hide TakeMessage, Sound;
    CountersKeepSound(cfg, b, Rest(b.recvs), b.totals.(maxBatchHits := b.totals.maxBatchHits + 1));
    if budget > 0 {
      var rest := b.(recvs := Rest(b.recvs));
      CountersKeepSound(cfg, rest, [], b.totals);
      match NextRecv(b)
      case Interrupted => ServiceKeepsSound(cfg, rest, i, budget - 1);
      case RecvFailed =>
      case Ready(timestamp) =>
        if b.queues[i] != [] {
          TakingKeepsSound(cfg, rest, i, timestamp);
          var t := TakeMessage(cfg, rest, i, timestamp);
          if t.ok { ServiceKeepsSound(cfg, t.state, i, budget - 1); }
        }
    }
  }

  lemma {:induction false} ServiceFromKeepsSound(cfg: BridgeConfig, b: BridgeState, readable: set<nat>, i: nat)
    requires Shaped(cfg, b) && Sound(cfg, b) && i <= |cfg.ids|
    ensures Sound(cfg, ServiceFrom(cfg, b, readable, i)) && Extends(b, ServiceFrom(cfg, b, readable, i))
    decreases |cfg.ids| - i
  {
    hide Service, Sound;
    if i < |cfg.ids| {
      ServiceKeepsSound(cfg, b, i, cfg.batch);
      ServiceFromKeepsSound(cfg, if i in readable then Service(cfg, b, i, cfg.batch) else b, readable, i + 1);
    }
  }

  // Whatever the environment does, a poll leaves on the wire exactly the datagrams of the logged
  // transmissions, and numbers the messages of each source 0, 1, 2, ... (modulo 2^64) in order.
  lemma PollKeepsSound(cfg: BridgeConfig, b: BridgeState, e: PollEvent)
    requires Shaped(cfg, b) && Sound(cfg, b)
    ensures Sound(cfg, Poll(cfg, b, e)) && Extends(b, Poll(cfg, b, e))
  {
    hide Sound, ServiceFrom;
    var counted := b.(totals := b.totals.(pollIterations := b.totals.pollIterations + 1));
    CountersKeepSound(cfg, b, [], counted.totals);
    CountersKeepSound(cfg, b, [], counted.totals.(pollErrors := counted.totals.pollErrors + 1));
    if e.Polled? { ServiceFromKeepsSound(cfg, counted, e.readable, 0); }
  }

  // ---------- Consequences of soundness ----------

  lemma {:induction false} OfSourceGrows(log: seq<Transmission>, id: u32, a: nat, b: nat)
    requires a <= b <= |log|
    ensures |OfSource(log[..a], id)| <= |OfSource(log[..b], id)| <= b
    ensures a < b && log[a].message.sourceId == id ==> |OfSource(log[..a], id)| < |OfSource(log[..b], id)|
    decreases b
  {
    if b == 0 {
    } else if a == b {
      OfSourceGrows(log, id, a - 1, b - 1);
      assert log[..b][..b - 1] == log[..b - 1];
    } else {
      OfSourceGrows(log, id, a, b - 1);
      assert log[..b][..b - 1] == log[..b - 1];
    }
  }

  lemma {:induction false} SequenceAt(log: seq<Transmission>, j: nat)
    requires InSequence(log) && j < |log|
    ensures log[j].message.sequence == |OfSource(log[..j], log[j].message.sourceId)| % TWO_TO_THE_64
  {
    if j < |log| - 1 {
      SequenceAt(log[..|log| - 1], j);
      assert log[..|log| - 1][..j] == log[..j];
    }
  }

  // Fewer than 2^64 messages in the run: no key is used twice.
  lemma KeysAreUnique(log: seq<Transmission>, a: nat, b: nat)
    requires InSequence(log) && |log| <= TWO_TO_THE_64 && a < b < |log|
    ensures log[a].message.sourceId != log[b].message.sourceId || log[a].message.sequence != log[b].message.sequence
  {
    hide OfSource, InSequence;
    var id := log[a].message.sourceId;
    if log[b].message.sourceId == id {
      SequenceAt(log, a);
      SequenceAt(log, b);
      OfSourceGrows(log, id, a, b);
      OfSourceGrows(log, id, b, |log|);
    }
  }

  // The k-th message of a source has sequence number k.
  lemma {:induction false} NumberedInOrder(log: seq<Transmission>, id: u32, k: nat)
    requires InSequence(log) && k < |OfSource(log, id)|
    ensures OfSource(log, id)[k].message.sourceId == id
    ensures OfSource(log, id)[k].message.sequence == k % TWO_TO_THE_64
  {
    var before := log[..|log| - 1];
    if k < |OfSource(before, id)| {
      NumberedInOrder(before, id, k);
    }
  }

  // Every datagram on the wire is one of those that some logged transmission sent.
  lemma {:induction false} WireComesFromLog(c: Capacity, log: seq<Transmission>, d: bytes) returns (j: nat, i: nat)
    requires forall j :: 0 <= j < |log| ==> Sendable(c, log[j])
    requires d in Emitted(c, log)
    ensures j < |log| && i < log[j].sent && d == Datagram(log[j].message, c, i)
  {
    var n := |log| - 1;
    var t := log[n];
    if d in Emitted(c, log[..n]) {
      j, i := WireComesFromLog(c, log[..n], d);
    } else {
      var ds := Datagrams(t.message, c, t.sent);
      assert d in ds;
      i :| 0 <= i < |ds| && ds[i] == d;
      DatagramsAt(t.message, c, t.sent, i);
      j := n;
    }
  }

  // ---------- Fairness: bounded waiting and first in, first out ----------

  predicate Calm(recvs: seq<RecvEvent>) {
    forall i :: 0 <= i < |recvs| ==> recvs[i].Ready?
  }

  function Concat(frames: seq<bytes>): bytes {
    if frames == [] then [] else frames[0] + Concat(frames[1..])
  }

  // What transmit must be given for a ZeroMQ message: all its frames, and a flag if there are several.
  datatype Offer = Offer(data: bytes, flags: u16)

  function OfferOf(m: ZmqMessage): Offer {
    Offer(Concat(m), if |m| == 1 then 0 else FLAG_MULTIPART)
  }

  function OffersOf(queue: seq<ZmqMessage>): (r: seq<Offer>)
    ensures |r| == |queue|
  {
    seq(|queue|, i requires 0 <= i < |queue| => OfferOf(queue[i]))
  }

  // What transmit was given for source id, in order.
  function Handed(log: seq<Transmission>, id: u32): seq<Offer> {
    if log == [] then []
    else
      var t := log[|log| - 1];
      Handed(log[..|log| - 1], id) + (if t.message.sourceId == id then [Offer(t.message.data, t.message.flags)] else [])
  }

  lemma {:induction false} HandedIsOfSource(log: seq<Transmission>, id: u32)
    ensures |Handed(log, id)| == |OfSource(log, id)|
    ensures forall k :: 0 <= k < |Handed(log, id)| ==>
      Handed(log, id)[k] == Offer(OfSource(log, id)[k].message.data, OfSource(log, id)[k].message.flags)
  {
    if log != [] {
      HandedIsOfSource(log[..|log| - 1], id);
    }
  }

  lemma {:induction false} CalmParts(recvs: seq<RecvEvent>, data: bytes, frames: seq<bytes>)
    requires Calm(recvs)
    ensures var p := ReceiveParts(recvs, data, frames);
      p.ok && p.data == data + Concat(frames) && Calm(p.recvs)
    decreases |recvs| + |frames|
  {
    if frames != [] {
      CalmParts(Rest(recvs), data + frames[0], frames[1..]);
    }
  }

  // Source i took n messages from the head of its queue, in order, and no other source changed.
  ghost predicate Took(cfg: BridgeConfig, b: BridgeState, r: BridgeState, i: nat, n: nat)
    requires Shaped(cfg, b) && Shaped(cfg, r) && i < |cfg.ids|
  {
    && n <= |b.queues[i]|
    && r.queues == b.queues[i := b.queues[i][n..]]
    && Handed(r.log, cfg.ids[i]) == Handed(b.log, cfg.ids[i]) + OffersOf(b.queues[i][..n])
    && (forall j :: 0 <= j < |cfg.ids| && j != i ==> Handed(r.log, cfg.ids[j]) == Handed(b.log, cfg.ids[j]))
    && Calm(r.recvs)
  }

  lemma TransmitHands(cfg: BridgeConfig, b: BridgeState, i: nat, data: bytes, flags: u16, timestamp: u64)
    requires Shaped(cfg, b) && i < |cfg.ids|
    ensures var r := Transmit(cfg, b, i, data, flags, timestamp);
      && Handed(r.log, cfg.ids[i]) == Handed(b.log, cfg.ids[i]) + [Offer(data, flags)]
      && forall j :: 0 <= j < |cfg.ids| && j != i ==> Handed(r.log, cfg.ids[j]) == Handed(b.log, cfg.ids[j])
  {
    var r := Transmit(cfg, b, i, data, flags, timestamp);
    AppendOne(b.log, r.log[|b.log|]);
    forall j | 0 <= j < |cfg.ids| && j != i
      ensures Handed(r.log, cfg.ids[j]) == Handed(b.log, cfg.ids[j])
    {
      assert cfg.ids[i] != cfg.ids[j];
    }
  }

  lemma TakingTakesOne(cfg: BridgeConfig, b: BridgeState, i: nat, timestamp: u64)
    requires Shaped(cfg, b) && i < |cfg.ids| && b.queues[i] != [] && Calm(b.recvs)
    ensures var r := TakeMessage(cfg, b, i, timestamp); r.ok && Took(cfg, b, r.state, i, 1)
  {
    hide Transmit;
    var frames, queue := b.queues[i][0], b.queues[i][1..];
    assert frames == [frames[0]] + frames[1..];
    assert OffersOf(b.queues[i][..1]) == [OfferOf(frames)];
    if |frames| == 1 {
      assert Concat(frames) == frames[0] + Concat([]) == frames[0];
      TransmitHands(cfg, b.(queues := b.queues[i := queue]), i, frames[0], 0, timestamp);
    } else {
      CalmParts(b.recvs, frames[0], frames[1..]);
      var p := ReceiveParts(b.recvs, frames[0], frames[1..]);
      TransmitHands(cfg, CountMultipart(b.(queues := b.queues[i := queue], recvs := p.recvs), i), i,
                    p.data, FLAG_MULTIPART, timestamp);
    }
  }

  function Least(a: nat, b: nat): nat {
    if a <= b then a else b
  }

  lemma OffersOfConcat(a: seq<ZmqMessage>, b: seq<ZmqMessage>)
    ensures OffersOf(a + b) == OffersOf(a) + OffersOf(b)
  {
  }

  lemma {:induction false} ServiceTakesBatch(cfg: BridgeConfig, b: BridgeState, i: nat, budget: nat)
    requires Shaped(cfg, b) && i < |cfg.ids| && Calm(b.recvs)
    ensures Took(cfg, b, Service(cfg, b, i, budget), i, Least(budget, |b.queues[i]|))
    decreases budget
  {
    hide TakeMessage;
    if budget > 0 {
      var rest := b.(recvs := Rest(b.recvs));
      if b.queues[i] != [] {
        var timestamp := NextRecv(b).timestamp;
        TakingTakesOne(cfg, rest, i, timestamp);
        var t := TakeMessage(cfg, rest, i, timestamp);
        ServiceTakesBatch(cfg, t.state, i, budget - 1);
        TookTwice(cfg, rest, t.state, Service(cfg, t.state, i, budget - 1), i, 1,
                  Least(budget - 1, |t.state.queues[i]|));
      }
    }
  }

  lemma TookTwice(cfg: BridgeConfig, a: BridgeState, b: BridgeState, c: BridgeState, i: nat, m: nat, n: nat)
    requires Shaped(cfg, a) && Shaped(cfg, b) && Shaped(cfg, c) && i < |cfg.ids|
    requires Took(cfg, a, b, i, m) && Took(cfg, b, c, i, n)
    ensures Took(cfg, a, c, i, m + n)
  {
    hide OffersOf, Handed;
    var q := a.queues[i];
    OffersOfConcat(q[..m], q[m..][..n]);
    assert q[..m] + q[m..][..n] == q[..m + n];
    assert q[m..][n..] == q[m + n..];
    assert b.queues[i] == q[m..];
  }

  // How many messages a poll takes from a source.
  function Taking(cfg: BridgeConfig, readable: set<nat>, i: nat, waiting: nat): nat {
    if i in readable then Least(cfg.batch, waiting) else 0
  }

  // Source j took what a poll takes from it.
  predicate TookBatch(cfg: BridgeConfig, b: BridgeState, r: BridgeState, readable: set<nat>, j: nat)
    requires Shaped(cfg, b) && Shaped(cfg, r) && j < |cfg.ids|
  {
    var n := Taking(cfg, readable, j, |b.queues[j]|);
    n <= |b.queues[j]| && r.queues[j] == b.queues[j][n..] &&
    Handed(r.log, cfg.ids[j]) == Handed(b.log, cfg.ids[j]) + OffersOf(b.queues[j][..n])
  }

  // Source j was left alone.
  predicate LeftAlone(cfg: BridgeConfig, b: BridgeState, r: BridgeState, j: nat)
    requires Shaped(cfg, b) && Shaped(cfg, r) && j < |cfg.ids|
  {
    r.queues[j] == b.queues[j] && Handed(r.log, cfg.ids[j]) == Handed(b.log, cfg.ids[j])
  }

  // What servicing source i, if it is readable, does to each source.
  lemma TurnTakesBatch(cfg: BridgeConfig, b: BridgeState, readable: set<nat>, i: nat)
    requires Shaped(cfg, b) && i < |cfg.ids| && Calm(b.recvs)
    ensures var r := if i in readable then Service(cfg, b, i, cfg.batch) else b;
      Calm(r.recvs) && TookBatch(cfg, b, r, readable, i)
      && forall j :: 0 <= j < |cfg.ids| && j != i ==> LeftAlone(cfg, b, r, j)
  {
    hide Service, Handed, OffersOf;
    ServiceTakesBatch(cfg, b, i, cfg.batch);
    NoOffers(Handed(b.log, cfg.ids[i]));
    assert b.queues[i][..0] == [];
  }

  lemma NoOffers(handed: seq<Offer>)
    ensures handed + OffersOf([]) == handed
  {
  }

  // One poll with no receive errors: every readable source from i on takes up to a batch, whatever the others do.
  lemma {:induction false} PollTakesBatches(cfg: BridgeConfig, b: BridgeState, readable: set<nat>, i: nat)
    requires Shaped(cfg, b) && i <= |cfg.ids| && Calm(b.recvs)
    ensures var r := ServiceFrom(cfg, b, readable, i);
      && Calm(r.recvs)
      && (forall j :: 0 <= j < i ==> LeftAlone(cfg, b, r, j))
      && forall j :: i <= j < |cfg.ids| ==> TookBatch(cfg, b, r, readable, j)
    decreases |cfg.ids| - i
  {
    hide Service, LeftAlone, TookBatch, Calm;
    if i < |cfg.ids| {
      TurnTakesBatch(cfg, b, readable, i);
      var m := if i in readable then Service(cfg, b, i, cfg.batch) else b;
      PollTakesBatches(cfg, m, readable, i + 1);
      forall j | 0 <= j < |cfg.ids|
        ensures if j < i then LeftAlone(cfg, b, ServiceFrom(cfg, b, readable, i), j)
                else TookBatch(cfg, b, ServiceFrom(cfg, b, readable, i), readable, j)
      {
        InTurn(cfg, b, m, ServiceFrom(cfg, m, readable, i + 1), readable, j);
      }
    } else {
      forall j | 0 <= j < i
        ensures LeftAlone(cfg, b, b, j)
      {
        InTurn(cfg, b, b, b, readable, j);
      }
    }
  }

  lemma InTurn(cfg: BridgeConfig, b: BridgeState, m: BridgeState, r: BridgeState, readable: set<nat>, j: nat)
    requires Shaped(cfg, b) && Shaped(cfg, m) && Shaped(cfg, r) && j < |cfg.ids|
    ensures LeftAlone(cfg, b, b, j)
    ensures LeftAlone(cfg, b, m, j) && LeftAlone(cfg, m, r, j) ==> LeftAlone(cfg, b, r, j)
    ensures LeftAlone(cfg, b, m, j) && TookBatch(cfg, m, r, readable, j) ==> TookBatch(cfg, b, r, readable, j)
    ensures TookBatch(cfg, b, m, readable, j) && LeftAlone(cfg, m, r, j) ==> TookBatch(cfg, b, r, readable, j)
  {
    hide Handed, OffersOf, Taking;
  }

  // ---------- Rounds: publish, then poll ----------

  type Arrivals = seq<seq<ZmqMessage>>

  function Publish(b: BridgeState, a: Arrivals): BridgeState
    requires |a| == |b.queues|
  {
    b.(queues := seq(|a|, j requires 0 <= j < |a| => b.queues[j] + a[j]))
  }

  // What the sources publish before a poll, and which of them the poll reports as readable.
  datatype Round = Round(arrivals: Arrivals, readable: set<nat>)

  predicate Fits(cfg: BridgeConfig, rounds: seq<Round>) {
    forall n :: 0 <= n < |rounds| ==> |rounds[n].arrivals| == |cfg.ids|
  }

  function Rounds(cfg: BridgeConfig, b: BridgeState, rounds: seq<Round>): (r: BridgeState)
    requires Shaped(cfg, b) && Fits(cfg, rounds)
    ensures Shaped(cfg, r)
  {
    if rounds == [] then b
    else
      var last := rounds[|rounds| - 1];
      Poll(cfg, Publish(Rounds(cfg, b, rounds[..|rounds| - 1]), last.arrivals), Polled(last.readable))
  }

  // Every poll reports source i as readable if it has a message waiting; zmq_poll is level-triggered.
  predicate ReportedWhenWaiting(cfg: BridgeConfig, b: BridgeState, rounds: seq<Round>, i: nat)
    requires Shaped(cfg, b) && Fits(cfg, rounds) && i < |cfg.ids|
  {
    rounds != [] ==>
      var before, last := rounds[..|rounds| - 1], rounds[|rounds| - 1];
      && ReportedWhenWaiting(cfg, b, before, i)
      && (Rounds(cfg, b, before).queues[i] + last.arrivals[i] != [] ==> i in last.readable)
  }

  function Published(rounds: seq<Round>, i: nat): seq<ZmqMessage>
    requires forall n :: 0 <= n < |rounds| ==> i < |rounds[n].arrivals|
  {
    if rounds == [] then [] else Published(rounds[..|rounds| - 1], i) + rounds[|rounds| - 1].arrivals[i]
  }

  lemma RoundTakesBatches(cfg: BridgeConfig, m: BridgeState, round: Round, i: nat)
    requires Shaped(cfg, m) && |round.arrivals| == |cfg.ids| && Calm(m.recvs) && i < |cfg.ids|
    ensures var r := Poll(cfg, Publish(m, round.arrivals), Polled(round.readable));
      var waiting := m.queues[i] + round.arrivals[i];
      && Calm(r.recvs)
      && Handed(r.log, cfg.ids[i]) + OffersOf(r.queues[i]) == Handed(m.log, cfg.ids[i]) + OffersOf(waiting)
      && |Handed(r.log, cfg.ids[i])| == |Handed(m.log, cfg.ids[i])| + Taking(cfg, round.readable, i, |waiting|)
  {
    hide Handed, ServiceFrom, OffersOf;
    var p := Publish(m, round.arrivals);
    var polled := p.(totals := p.totals.(pollIterations := p.totals.pollIterations + 1));
    PollTakesBatches(cfg, polled, round.readable, 0);
    assert TookBatch(cfg, polled, ServiceFrom(cfg, polled, round.readable, 0), round.readable, i);
    var n := Taking(cfg, round.readable, i, |p.queues[i]|);
    OffersOfConcat(p.queues[i][..n], p.queues[i][n..]);
    assert p.queues[i][..n] + p.queues[i][n..] == m.queues[i] + round.arrivals[i];
  }

  lemma AppendBoth(hb: seq<Offer>, x: seq<Offer>, hm: seq<Offer>, y: seq<Offer>, z: seq<Offer>)
    requires hm + y == hb + x
    ensures hm + (y + z) == hb + (x + z)
  {
    assert hm + (y + z) == (hm + y) + z;
  }

  // No receive fails; it may be interrupted.
  predicate Unfailing(recvs: seq<RecvEvent>) {
    forall i :: 0 <= i < |recvs| ==> !recvs[i].RecvFailed?
  }

  // What was handed on and what still waits is, for every source, the same before and after.
  ghost predicate Conserved(cfg: BridgeConfig, b: BridgeState, r: BridgeState)
    requires Shaped(cfg, b) && Shaped(cfg, r)
  {
    forall j :: 0 <= j < |cfg.ids| ==>
      Handed(r.log, cfg.ids[j]) + OffersOf(r.queues[j]) == Handed(b.log, cfg.ids[j]) + OffersOf(b.queues[j])
  }

  lemma {:induction false} UnfailingParts(recvs: seq<RecvEvent>, data: bytes, frames: seq<bytes>)
    requires Unfailing(recvs)
    ensures var p := ReceiveParts(recvs, data, frames);
      p.ok && p.data == data + Concat(frames) && Unfailing(p.recvs)
    decreases |recvs| + |frames|
  {
    if frames != [] {
      if recvs != [] && recvs[0] == Interrupted {
        UnfailingParts(recvs[1..], data, frames);
      } else {
        UnfailingParts(Rest(recvs), data + frames[0], frames[1..]);
      }
    }
  }

  lemma TakingConserves(cfg: BridgeConfig, b: BridgeState, i: nat, timestamp: u64)
    requires Shaped(cfg, b) && i < |cfg.ids| && b.queues[i] != [] && Unfailing(b.recvs)
    ensures var r := TakeMessage(cfg, b, i, timestamp);
      r.ok && Conserved(cfg, b, r.state) && Unfailing(r.state.recvs)
  {
    hide Transmit, Handed;
    var frames, queue := b.queues[i][0], b.queues[i][1..];
    var r := TakeMessage(cfg, b, i, timestamp).state;
    assert frames == [frames[0]] + frames[1..];
    if |frames| == 1 {
      assert Concat(frames) == frames[0] + Concat([]) == frames[0];
      TransmitHands(cfg, b.(queues := b.queues[i := queue]), i, frames[0], 0, timestamp);
    } else {
      UnfailingParts(b.recvs, frames[0], frames[1..]);
      var p := ReceiveParts(b.recvs, frames[0], frames[1..]);
      TransmitHands(cfg, CountMultipart(b.(queues := b.queues[i := queue], recvs := p.recvs), i), i,
                    p.data, FLAG_MULTIPART, timestamp);
    }
    OffersOfConcat([frames], queue);
    assert b.queues[i] == [frames] + queue && OffersOf([frames]) == [OfferOf(frames)];
    assert Handed(r.log, cfg.ids[i]) + OffersOf(queue)
        == Handed(b.log, cfg.ids[i]) + ([OfferOf(frames)] + OffersOf(queue));
  }

  lemma {:induction false} ServiceConserves(cfg: BridgeConfig, b: BridgeState, i: nat, budget: nat)
    requires Shaped(cfg, b) && i < |cfg.ids| && Unfailing(b.recvs)
    ensures var r := Service(cfg, b, i, budget); Conserved(cfg, b, r) && Unfailing(r.recvs)
    decreases budget
  {
    hide TakeMessage, Handed, OffersOf;
    if budget > 0 {
      var rest := b.(recvs := Rest(b.recvs));
      match NextRecv(b)
      case Interrupted => ServiceConserves(cfg, rest, i, budget - 1);
      case RecvFailed =>
      case Ready(timestamp) =>
        if b.queues[i] != [] {
          TakingConserves(cfg, rest, i, timestamp);
          ServiceConserves(cfg, TakeMessage(cfg, rest, i, timestamp).state, i, budget - 1);
        }
    }
  }

  lemma {:induction false} ServiceFromConserves(cfg: BridgeConfig, b: BridgeState, readable: set<nat>, i: nat)
    requires Shaped(cfg, b) && i <= |cfg.ids| && Unfailing(b.recvs)
    ensures var r := ServiceFrom(cfg, b, readable, i); Conserved(cfg, b, r) && Unfailing(r.recvs)
    decreases |cfg.ids| - i
  {
    hide Service, Handed, OffersOf;
    if i < |cfg.ids| {
      ServiceConserves(cfg, b, i, cfg.batch);
      ServiceFromConserves(cfg, if i in readable then Service(cfg, b, i, cfg.batch) else b, readable, i + 1);
    }
  }

  // First in, first out: over any number of polls in which no receive fails, whatever they report and however often
  // receives are interrupted, what was handed on plus what still waits is what was waiting plus what was published,
  // in order.
  lemma {:induction false} FirstInFirstOut(cfg: BridgeConfig, b: BridgeState, rounds: seq<Round>, i: nat)
    requires Shaped(cfg, b) && Unfailing(b.recvs) && i < |cfg.ids|
    requires Fits(cfg, rounds)
    ensures var r := Rounds(cfg, b, rounds);
      && Unfailing(r.recvs)
      && Handed(r.log, cfg.ids[i]) + OffersOf(r.queues[i])
           == Handed(b.log, cfg.ids[i]) + OffersOf(b.queues[i] + Published(rounds, i))
    decreases |rounds|
  {
    hide ServiceFrom, Handed, Unfailing, OffersOf;
    if rounds == [] {
      assert b.queues[i] + [] == b.queues[i];
    } else {
      var before, last := rounds[..|rounds| - 1], rounds[|rounds| - 1];
      var m, more := Rounds(cfg, b, before), last.arrivals[i];
      FirstInFirstOut(cfg, b, before, i);
      var p := Publish(m, last.arrivals);
      var polled := p.(totals := p.totals.(pollIterations := p.totals.pollIterations + 1));
      ServiceFromConserves(cfg, polled, last.readable, 0);
      var q := b.queues[i] + Published(before, i);
      OffersOfConcat(m.queues[i], more);
      OffersOfConcat(q, more);
      assert b.queues[i] + Published(rounds, i) == q + more;
      AppendBoth(Handed(b.log, cfg.ids[i]), OffersOf(q), Handed(m.log, cfg.ids[i]), OffersOf(m.queues[i]),
                 OffersOf(more));
    }
  }

  lemma {:induction false} RoundsStayCalm(cfg: BridgeConfig, b: BridgeState, rounds: seq<Round>, i: nat)
    requires Shaped(cfg, b) && Calm(b.recvs) && Fits(cfg, rounds) && i < |cfg.ids|
    ensures Calm(Rounds(cfg, b, rounds).recvs)
    decreases |rounds|
  {
    hide Poll, Publish, Handed, Calm, OffersOf;
    if rounds != [] {
      var before := rounds[..|rounds| - 1];
      RoundsStayCalm(cfg, b, before, i);
      RoundTakesBatches(cfg, Rounds(cfg, b, before), rounds[|rounds| - 1], i);
    }
  }

  lemma CalmIsUnfailing(recvs: seq<RecvEvent>)
    requires Calm(recvs)
    ensures Unfailing(recvs)
  {
  }

  // After n polls, n batches of what was waiting at the start have been handed on, or all of it.
  lemma {:induction false} BatchesAreHanded(cfg: BridgeConfig, b: BridgeState, rounds: seq<Round>, i: nat)
    requires Shaped(cfg, b) && Calm(b.recvs) && i < |cfg.ids|
    requires Fits(cfg, rounds) && ReportedWhenWaiting(cfg, b, rounds, i)
    ensures |Handed(Rounds(cfg, b, rounds).log, cfg.ids[i])| >=
            |Handed(b.log, cfg.ids[i])| + Least(|rounds| * cfg.batch, |b.queues[i]|)
    decreases |rounds|
  {
    hide Poll, Publish, Handed, OffersOf, Published, Calm;
    if rounds != [] {
      var before, last := rounds[..|rounds| - 1], rounds[|rounds| - 1];
      var m := Rounds(cfg, b, before);
      BatchesAreHanded(cfg, b, before, i);
      CalmIsUnfailing(b.recvs);
      RoundsStayCalm(cfg, b, before, i);
      FirstInFirstOut(cfg, b, before, i);
      RoundTakesBatches(cfg, m, last, i);
      var q := b.queues[i] + Published(before, i);
      assert |Handed(m.log, cfg.ids[i])| + |m.queues[i]| == |Handed(b.log, cfg.ids[i]) + OffersOf(q)|;
      OneMoreBatch(|before|, cfg.batch);
    }
  }

  lemma OneMoreBatch(n: nat, batch: nat)
    ensures (n + 1) * batch == n * batch + batch
  {
  }

  // Position p lies within the first p / batch + 1 batches.
  lemma InTheBatches(p: nat, batch: nat)
    requires batch >= 1
    ensures p < (p / batch + 1) * batch
  {
    assert p == p / batch * batch + p % batch;
    OneMoreBatch(p / batch, batch);
  }

  // Bounded waiting: the message at position p of a source's queue is handed to transmit within
  // floor(p / batch) + 1 polls, whatever the other sources do, as the p-th next message of its source,
  // with all its frames and with the sequence number of that position.
  lemma BoundedWaiting(cfg: BridgeConfig, b: BridgeState, rounds: seq<Round>, i: nat, p: nat)
    requires Sound(cfg, b) && Calm(b.recvs) && i < |cfg.ids| && p < |b.queues[i]|
    requires Fits(cfg, rounds) && ReportedWhenWaiting(cfg, b, rounds, i)
    requires |rounds| == p / cfg.batch + 1
    ensures var r := Rounds(cfg, b, rounds);
      var position := |Handed(b.log, cfg.ids[i])| + p;
      && position < |OfSource(r.log, cfg.ids[i])|
      && var m := OfSource(r.log, cfg.ids[i])[position].message;
         OfferOf(b.queues[i][p]) == Offer(m.data, m.flags) && m.sequence == position % TWO_TO_THE_64
  {
    hide Rounds, Handed, InSequence, Emitted, Counted;
    CalmIsUnfailing(b.recvs);
    FirstInFirstOut(cfg, b, rounds, i);
    BatchesAreHanded(cfg, b, rounds, i);
    InTheBatches(p, cfg.batch);
    var r := Rounds(cfg, b, rounds);
    var position := |Handed(b.log, cfg.ids[i])| + p;
    RoundsKeepSound(cfg, b, rounds);
    HandedIsOfSource(r.log, cfg.ids[i]);
    NumberedInOrder(r.log, cfg.ids[i], position);
    assert Handed(r.log, cfg.ids[i])[position] == (Handed(r.log, cfg.ids[i]) + OffersOf(r.queues[i]))[position];
  }

  lemma {:induction false} RoundsKeepSound(cfg: BridgeConfig, b: BridgeState, rounds: seq<Round>)
    requires Sound(cfg, b) && Fits(cfg, rounds)
    ensures Sound(cfg, Rounds(cfg, b, rounds))
    decreases |rounds|
  {
    if rounds != [] {
      var before := rounds[..|rounds| - 1];
      RoundsKeepSound(cfg, b, before);
      PollKeepsSound(cfg, Publish(Rounds(cfg, b, before), rounds[|rounds| - 1].arrivals),
                     Polled(rounds[|rounds| - 1].readable));
    }
  }
}
