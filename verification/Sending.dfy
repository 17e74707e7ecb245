// What one call of transmit puts on the network and counts, in numbers: how many datagrams, with which bytes, and when
// a message is dropped (src/bridge/bridge.cpp:175-243, docs/wire_protocol.md:33-58).
module Sending {
  import opened ByteOrder
  import opened WireProtocol
  import opened Formats
  import opened Fragmentation
  import opened BridgeModel
  import opened BridgeRuns

  // d is fragment i of k of a message: bytes i * c to (i + 1) * c of the data, or to its end.
  predicate IsFragment(d: bytes, id: u32, seqn: u64, timestamp: u64, flags: u16, data: bytes, c: nat, i: nat, k: nat) {
    var end := if (i + 1) * c < |data| then (i + 1) * c else |data|;
    && i * c <= end && |d| == 44 + (end - i * c) && d[44..] == data[i * c..end]
    && d[0..4] == [0x5A, 0x4D, 0x55, 0x42] && Field(d, 4, 2) == 1
    && Field(d, 6, 2) == flags + (if k > 1 then 1 else 0)
    && Field(d, 8, 4) == id && Field(d, 12, 4) == |data|
    && Field(d, 16, 8) == seqn && Field(d, 24, 8) == timestamp
    && Field(d, 32, 4) == i * c && Field(d, 36, 2) == i && Field(d, 38, 2) == k
    && Field(d, 40, 2) == end - i * c && d[42..44] == [0, 0]
  }

  // k is the least number of fragments, at least one, of up to c bytes each that hold length bytes.
  predicate IsLeast(k: nat, length: nat, c: nat) {
    k >= 1 && length <= k * c && forall j: nat :: j >= 1 && length <= j * c ==> k <= j
  }

  function Payloads(ds: seq<bytes>): bytes
    requires forall j :: 0 <= j < |ds| ==> |ds[j]| >= 44
  {
    if ds == [] then [] else Payloads(ds[..|ds| - 1]) + ds[|ds| - 1][44..]
  }

  function TotalLength(ds: seq<bytes>): nat {
    if ds == [] then 0 else TotalLength(ds[..|ds| - 1]) + |ds[|ds| - 1]|
  }

  predicate TooLong(data: bytes, c: nat) {
    |data| > 0xFFFF_FFFF || |data| > 65535 * c
  }

  lemma TooLongIff(m: Message, c: Capacity)
    ensures Transmittable(m, c) <==> !TooLong(m.data, c)
    ensures IsLeast(Count(m, c), |m.data|, c)
  {
    CountIsCeiling(|m.data|, c);
    if Count(m, c) <= 0xFFFF {
      TimesMonotone(c, Count(m, c), 0xFFFF);
    }
  }

  // With the capacities that the configuration admits, 65463 being the largest, a message that fits into 65535
  // fragments always fits into 32 bits: that limit alone never decides.
  lemma FragmentsDecide(data: bytes, c: Capacity)
    ensures 1 <= c <= MAX_UDP_PAYLOAD - HEADER_SIZE == 65463 && (TooLong(data, c) <==> |data| > 65535 * c)
  {
    assert 65535 * c <= 65535 * 65463 < 0xFFFF_FFFF;
  }

  // A message is dropped, and counted as such, if and only if it is longer than 32 bits or 65535 fragments allow. It
  // takes its sequence number all the same.
  lemma DroppedIffTooLong(cfg: BridgeConfig, b: BridgeState, i: nat, data: bytes, flags: u16, timestamp: u64)
    requires Shaped(cfg, b) && i < |cfg.ids|
    ensures var r, st := Transmit(cfg, b, i, data, flags, timestamp), b.sourceStats[i];
      && (TooLong(data, cfg.capacity) ==>
            var next := (st.nextSequence + 1) % 0x1_0000_0000_0000_0000;
            r == b.(sourceStats := b.sourceStats[i := st.(messages := st.messages + 1,
                                                          byteCount := st.byteCount + |data|,
                                                          nextSequence := next,
                                                          oversize := st.oversize + 1)],
                    log := r.log))
      && (!TooLong(data, cfg.capacity) ==> r.sourceStats[i].oversize == st.oversize)
  {
    hide SentOf, Drop, Failure, Rest, Boundary, Datagrams, FragmentCountFor;
    TooLongIff(Numbered(cfg, b, i, data, flags, timestamp), cfg.capacity);
  }

  lemma DatagramIsFragment(m: Message, c: Capacity, i: nat)
    requires Transmittable(m, c) && i < Count(m, c) && (m.flags == 0 || m.flags == 2)
    ensures IsFragment(Datagram(m, c, i), m.sourceId, m.sequence, m.timestamp, m.flags, m.data, c, i, Count(m, c))
  {
    hide HeaderBytes, Field, FragmentCountFor;
    var h, p := FragmentHeader(m, c, i), FragmentPayload(m, c, i);
    WireHeaderLayout(h);
    FragmentsTile(m, c);
    BoundariesAreInRange(m, c, i);
    var d := HeaderBytes(h) + p;
    SameFields(HeaderBytes(h), p);
    assert d[44..] == p;
  }

  // The header fields stand in front of the payload.
  lemma SameFields(head: bytes, p: bytes)
    requires |head| == 44
    ensures forall at, n :: 0 <= at && 0 <= n && at + n <= 44 ==> Field(head + p, at, n) == Field(head, at, n)
    ensures (head + p)[0..4] == head[0..4] && (head + p)[42..44] == head[42..44]
  {
    forall at, n | 0 <= at && 0 <= n && at + n <= 44
      ensures Field(head + p, at, n) == Field(head, at, n)
    {
      assert (head + p)[at..at + n] == head[at..at + n];
    }
  }

  predicate AllFragments(ds: seq<bytes>, id: u32, seqn: u64, timestamp: u64, flags: u16, data: bytes, c: nat, k: nat) {
    forall j :: 0 <= j < |ds| ==> IsFragment(ds[j], id, seqn, timestamp, flags, data, c, j, k)
  }

  lemma DatagramsAreFragments(m: Message, c: Capacity, n: nat)
    requires Transmittable(m, c) && n <= Count(m, c) && (m.flags == 0 || m.flags == 2)
    ensures var ds := Datagrams(m, c, n);
      && AllFragments(ds, m.sourceId, m.sequence, m.timestamp, m.flags, m.data, c, Count(m, c))
      && forall j :: 0 <= j < |ds| ==> |ds[j]| >= 44
  {
    hide Count, Transmittable, IsFragment, Datagrams, Datagram;
    forall j | 0 <= j < n
      ensures var d := Datagrams(m, c, n)[j];
        IsFragment(d, m.sourceId, m.sequence, m.timestamp, m.flags, m.data, c, j, Count(m, c)) && |d| >= 44
    {
      DatagramsAt(m, c, n, j);
      DatagramIsFragment(m, c, j);
      DatagramHolds(m, c, j);
    }
  }

  lemma DatagramHolds(m: Message, c: Capacity, i: nat)
    requires Transmittable(m, c) && i < Count(m, c)
    ensures var d, p := Datagram(m, c, i), FragmentPayload(m, c, i); |d| == 44 + |p| && d[44..] == p
  {
    hide HeaderBytes, FragmentHeader;
  }

  lemma {:induction false} DatagramsHold(m: Message, c: Capacity, n: nat)
    requires Transmittable(m, c) && n <= Count(m, c)
    ensures var ds := Datagrams(m, c, n);
      && (forall j :: 0 <= j < |ds| ==> |ds[j]| >= 44)
      && Payloads(ds) == Joined(m, c, n) && TotalLength(ds) == 44 * n + |Joined(m, c, n)|
  {
    hide Count, Transmittable, Datagram, FragmentPayload;
    var ds := Datagrams(m, c, n);
    if n > 0 {
      DatagramsHold(m, c, n - 1);
      DatagramHolds(m, c, n - 1);
      assert ds[..n - 1] == Datagrams(m, c, n - 1) && ds[n - 1] == Datagram(m, c, n - 1);
    }
  }

  // n sends succeed, and the one behind them, if there is one among the k, does not.
  predicate SucceedsFor(sends: seq<SendEvent>, n: nat, k: nat) {
    && n <= k && (forall j :: 0 <= j < n && j < |sends| ==> sends[j] == Sent)
    && (n < k ==> n < |sends| && sends[n] != Sent)
  }

  lemma {:induction false} SentOfSucceeds(sends: seq<SendEvent>, k: nat)
    ensures SucceedsFor(sends, SentOf(sends, k), k)
    ensures SentOf(sends, k) < k ==> Failure(Drop(sends, SentOf(sends, k))) == sends[SentOf(sends, k)]
    decreases k
  {
    if k > 0 && (sends == [] || sends[0] == Sent) {
      SentOfSucceeds(Rest(sends), k - 1);
    }
  }

  // A message that is not dropped goes out as the datagrams in front of the first failing send, in order; if no send
  // fails these are k, the least number that can hold it, and their payloads joined are its data. What failed is
  // counted as a timeout or an error, for the source and in total, and so is what went out.
  lemma FragmentsGoOut(cfg: BridgeConfig, b: BridgeState, i: nat, data: bytes, flags: u16, timestamp: u64)
    returns (ds: seq<bytes>, k: nat)
    requires Shaped(cfg, b) && i < |cfg.ids| && (flags == 0 || flags == 2) && !TooLong(data, cfg.capacity)
    ensures var r := Transmit(cfg, b, i, data, flags, timestamp);
      && IsLeast(k, |data|, cfg.capacity) && r.wire == b.wire + ds && SucceedsFor(b.sends, |ds|, k)
      && AllFragments(ds, cfg.ids[i], b.sourceStats[i].nextSequence, timestamp, flags, data, cfg.capacity, k)
      && (forall j :: 0 <= j < |ds| ==> |ds[j]| >= 44)
      && (|ds| == k ==> Payloads(ds) == data)
    ensures var r := Transmit(cfg, b, i, data, flags, timestamp);
      var m := Message(cfg.ids[i], b.sourceStats[i].nextSequence, timestamp, flags, data);
      && r.sends == Drop(b.sends, if |ds| < k then |ds| + 1 else k)
      && r.queues == b.queues && r.recvs == b.recvs
      && r.log == b.log + [Transmission(m, |ds|)]
    ensures Transmit(cfg, b, i, data, flags, timestamp).sourceStats ==
            b.sourceStats[i := SourceAfter(b.sourceStats[i], data, |ds|, k, b.sends)]
    ensures Transmit(cfg, b, i, data, flags, timestamp).totals == TotalsAfter(b.totals, ds, k, b.sends)
  {
    hide SentOf, Drop, Failure, Rest, Datagrams, Boundary, Joined, Payloads, AllFragments, TotalLength;
    var m, c := Numbered(cfg, b, i, data, flags, timestamp), cfg.capacity;
    TooLongIff(m, c);
    k := Count(m, c);
    var n := SentOf(b.sends, k);
    ds := Datagrams(m, c, n);
    DatagramsAreFragments(m, c, n);
    DatagramsHold(m, c, n);
    SentOfSucceeds(b.sends, k);
    JoinedIsPrefix(m, c, n);
    FragmentsTile(m, c);
    DroppedTwice(b.sends, n);
  }

  lemma DroppedTwice(sends: seq<SendEvent>, n: nat)
    ensures Rest(Drop(sends, n)) == Drop(sends, n + 1)
  {
  }

  // How many sends failed with this answer: at most one.
  function Failed(sends: seq<SendEvent>, n: nat, k: nat, e: SendEvent): nat
    requires n < k ==> n < |sends|
  {
    if n < k && sends[n] == e then 1 else 0
  }

  function SourceAfter(st: SourceStats, data: bytes, n: nat, k: nat, sends: seq<SendEvent>): SourceStats
    requires n < k ==> n < |sends|
  {
    st.(messages := st.messages + 1, byteCount := st.byteCount + |data|,
        nextSequence := (st.nextSequence + 1) % 0x1_0000_0000_0000_0000,
        fragmented := st.fragmented + (if k > 1 then 1 else 0), datagrams := st.datagrams + n,
        sendTimeouts := st.sendTimeouts + Failed(sends, n, k, TimedOut),
        sendErrors := st.sendErrors + Failed(sends, n, k, SendFailed))
  }

  function TotalsAfter(t: Totals, ds: seq<bytes>, k: nat, sends: seq<SendEvent>): Totals
    requires |ds| < k ==> |ds| < |sends|
  {
    t.(datagramsSent := t.datagramsSent + |ds|, bytesSent := t.bytesSent + TotalLength(ds),
       sendTimeouts := t.sendTimeouts + Failed(sends, |ds|, k, TimedOut),
       sendErrors := t.sendErrors + Failed(sends, |ds|, k, SendFailed))
  }

  // The answer of transmit: true if and only if nothing was dropped and no send failed.
  lemma SentWholeIff(m: Message, c: Capacity, n: nat)
    ensures Transmittable(m, c) && n == Count(m, c) <==> !TooLong(m.data, c) && IsLeast(n, |m.data|, c)
  {
    TooLongIff(m, c);
  }

  // An example at the default datagram size: 4000 bytes at 1356 to a fragment go out as three datagrams.
  lemma ThreeDatagrams(cfg: BridgeConfig, b: BridgeState, i: nat, data: bytes, timestamp: u64)
    requires Shaped(cfg, b) && i < |cfg.ids| && cfg.capacity == 1356 && |data| == 4000 && b.sends == []
    ensures var r := Transmit(cfg, b, i, data, 0, timestamp);
      |r.wire| == |b.wire| + 3 && r.sourceStats[i].oversize == b.sourceStats[i].oversize
  {
    DroppedIffTooLong(cfg, b, i, data, 0, timestamp);
    hide Transmit;
    var ds, k := FragmentsGoOut(cfg, b, i, data, 0, timestamp);
    assert 3 >= 1 && |data| <= 3 * 1356;
    assert k == 3;
  }
}
