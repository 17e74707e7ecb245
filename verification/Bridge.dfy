// The bridge object (include/ipcrelay/bridge/bridge.hpp, src/bridge/bridge.cpp).
module Bridge {
  import opened ByteOrder
  import opened WireProtocol
  import opened Fragmentation
  import opened BridgeModel
  import Sending

  lemma NothingSent(m: Message, c: Capacity, sends: seq<SendEvent>)
    ensures Boundary(m, c, 0) == 0 && Drop(sends, 0) == sends
  {
  }

  // The send after the first sent ones, if they succeeded.
  lemma NextSend(sends: seq<SendEvent>, sent: nat, count: nat)
    requires sent < count
    ensures var left := Drop(sends, sent);
      && Drop(sends, sent + 1) == Rest(left)
      && SentOf(left, count - sent) == (if Failure(left) == Sent then 1 + SentOf(Rest(left), count - sent - 1) else 0)
      && SentOf(left, 0) == 0
  {
    DropOneMore(sends, sent);
  }

  lemma {:induction false} DropOneMore<T>(s: seq<T>, n: nat)
    ensures Drop(s, n + 1) == Rest(Drop(s, n))
  {
  }

  class Bridge {
    const cfg: BridgeConfig
    var queues: seq<seq<ZmqMessage>>
    var sourceStats: seq<SourceStats>
    var totals: Totals
    var recvs: seq<RecvEvent>
    var sends: seq<SendEvent>
    var wire: seq<bytes>
    ghost var log: seq<Transmission>

    ghost function View(): BridgeState
      reads this
    {
      BridgeState(queues, sourceStats, totals, recvs, sends, wire, log)
    }

    ghost predicate Valid()
      reads this
    {
      Shaped(cfg, View())
    }

    constructor (cfg: BridgeConfig, recvs: seq<RecvEvent>, sends: seq<SendEvent>)
      ensures Valid() && this.cfg == cfg && View() == Initial(cfg, recvs, sends)
    {
      this.cfg := cfg;
      queues := seq(|cfg.ids|, _ => []);
      sourceStats := seq(|cfg.ids|, _ => NO_SOURCE_STATS);
      totals, wire, log := NO_TOTALS, [], [];
      this.recvs, this.sends := recvs, sends;
    }

    method NextRecvEvent() returns (e: RecvEvent)
      modifies `recvs
      ensures e == NextRecv(old(View())) && recvs == Rest(old(recvs))
    {
      e := if recvs == [] then Ready(0) else recvs[0];
      recvs := Rest(recvs);
    }

    method Send(datagram: bytes) returns (e: SendEvent)
      modifies `sends, `wire
      ensures e == Failure(old(sends)) && sends == Rest(old(sends))
      ensures wire == if e == Sent then old(wire) + [datagram] else old(wire)
    {
      e := if sends == [] then Sent else sends[0];
      sends := Rest(sends);
      if e == Sent { wire := wire + [datagram]; }
    }

    // Fragments and transmits one message; false if it was dropped or a send failed.
    method Transmit(i: nat, data: bytes, flags: u16, timestamp: u64) returns (ok: bool)
      requires Valid() && i < |cfg.ids|
      modifies this
      ensures View() == BridgeModel.Transmit(cfg, old(View()), i, data, flags, timestamp)
      ensures ok <==> !Sending.TooLong(data, cfg.capacity) && Sending.IsLeast(log[|log| - 1].sent, |data|, cfg.capacity)
    {
      hide Datagrams, Boundary, SentOf, Drop, Failure, Rest, CountFailure, CountTotalFailure;
      var st := sourceStats[i];
      st := st.(messages := st.messages + 1, byteCount := st.byteCount + |data|);
      var seqn := st.nextSequence;
      st := st.(nextSequence := (seqn + 1) % TWO_TO_THE_64);
      ghost var m := Message(cfg.ids[i], seqn, timestamp, flags, data);

      var count := FragmentCountFor(|data|, cfg.capacity);
      if |data| > MAX_MESSAGE_LENGTH || count > 0xFFFF {
        sourceStats := sourceStats[i := st.(oversize := st.oversize + 1)];
        log := log + [Transmission(m, 0)];
        Sending.TooLongIff(m, cfg.capacity);
        return false;
      }
      var wireFlags := flags;
      if count > 1 {
        st := st.(fragmented := st.fragmented + 1);
        if !HasFragmentedFlag(wireFlags) { wireFlags := wireFlags + FLAG_FRAGMENTED; }
      }
      var hdr := Header(VERSION, wireFlags, cfg.ids[i], |data|, seqn, timestamp, 0, 0, count, 0);
      var sent, failure := SendFragments(m, hdr, data);
      st := st.(datagrams := st.datagrams + sent);
      sourceStats := sourceStats[i := CountFailure(st, failure)];
      totals := CountTotalFailure(totals, failure);
      log := log + [Transmission(m, sent)];
      ok := sent == count;
      Sending.SentWholeIff(m, cfg.capacity, sent);
    }

    // The fragment loop of transmit: stops at the first send that fails.
    method SendFragments(ghost m: Message, h: Header, data: bytes) returns (sent: nat, failure: SendEvent)
      requires Transmittable(m, cfg.capacity) && data == m.data
      requires h == Header(VERSION, WireFlags(m, cfg.capacity), m.sourceId, |m.data|, m.sequence, m.timestamp, 0, 0,
                           Count(m, cfg.capacity), 0)
      modifies `sends, `wire, `totals
      ensures var count := Count(m, cfg.capacity);
        && sent == SentOf(old(sends), count)
        && failure == (if sent < count then Failure(Drop(old(sends), sent)) else Sent)
        && sends == (if sent < count then Rest(Drop(old(sends), sent)) else Drop(old(sends), sent))
        && wire == old(wire) + Datagrams(m, cfg.capacity, sent)
        && totals == old(totals).(datagramsSent := old(totals).datagramsSent + sent,
                                  bytesSent := old(totals).bytesSent + HEADER_SIZE * sent
                                    + Boundary(m, cfg.capacity, sent))
    {
      hide SentOf, Drop, Failure, Rest, Boundary, Datagram, WireFlags;
      var hdrBytes := new byte[HEADER_SIZE];
      var offset := 0;
      NothingSent(m, cfg.capacity, sends);
      var count: nat := h.fragmentCount;
      sent := 0;
      while sent < count
        invariant sent <= count && offset == Boundary(m, cfg.capacity, sent)
        invariant SentOf(old(sends), count) == sent + SentOf(sends, count - sent)
        invariant sends == Drop(old(sends), sent)
        invariant wire == old(wire) + Datagrams(m, cfg.capacity, sent)
        invariant totals == old(totals).(datagramsSent := old(totals).datagramsSent + sent,
                                         bytesSent := old(totals).bytesSent + HEADER_SIZE * sent + offset)
      {
        NextSend(old(sends), sent, count);
        var e, n := SendFragment(m, h, data, sent, offset, hdrBytes);
        if e != Sent {
          return sent, e;
        }
        totals := totals.(datagramsSent := totals.datagramsSent + 1, bytesSent := totals.bytesSent + HEADER_SIZE + n);
        offset := offset + n;
        sent := sent + 1;
      }
      failure := Sent;
    }

    method SendFragment(ghost m: Message, h: Header, data: bytes, index: nat, offset: nat, hdrBytes: array<byte>)
      returns (e: SendEvent, n: nat)
      requires Transmittable(m, cfg.capacity) && data == m.data && index < Count(m, cfg.capacity)
      requires h == Header(VERSION, WireFlags(m, cfg.capacity), m.sourceId, |m.data|, m.sequence, m.timestamp, 0, 0,
                           Count(m, cfg.capacity), 0)
      requires offset == Boundary(m, cfg.capacity, index) && hdrBytes.Length == HEADER_SIZE
      modifies `sends, `wire, hdrBytes
      ensures offset + n == Boundary(m, cfg.capacity, index + 1)
      ensures e == Failure(old(sends)) && sends == Rest(old(sends))
      ensures wire == if e == Sent then old(wire) + [Datagram(m, cfg.capacity, index)] else old(wire)
    {
      BoundariesAreInRange(m, cfg.capacity, index);
      n := if |data| - offset < cfg.capacity then |data| - offset else cfg.capacity;
      var fragment := h.(fragmentIndex := index, fragmentOffset := offset, fragmentLength := n);
      assert fragment == FragmentHeader(m, cfg.capacity, index);
      EncodeHeader(fragment, hdrBytes);
      assert hdrBytes[..HEADER_SIZE] == hdrBytes[..];
      e := Send(hdrBytes[..] + data[offset..offset + n]);
    }

    // Receives the rest of a multipart message whose first frame is data.
    method ReceiveRest(frames: seq<bytes>, data: bytes) returns (p: Parts)
      modifies `recvs
      ensures p == ReceiveParts(old(recvs), data, frames) && recvs == p.recvs
    {
      var left, concat := frames, data;
      while left != []
        invariant ReceiveParts(recvs, concat, left) == ReceiveParts(old(recvs), data, frames)
        decreases |recvs| + |left|
      {
        var e := NextRecvEvent();
        match e
        case Interrupted =>
        case RecvFailed => return Parts(false, concat, left, recvs);
        case Ready(_) => concat, left := concat + left[0], left[1..];
      }
      return Parts(true, concat, [], recvs);
    }

    // Takes the message at the head of a queue; false if receiving the rest of it failed.
    method TakeMessage(i: nat, timestamp: u64) returns (ok: bool)
      requires Valid() && i < |cfg.ids| && queues[i] != []
      modifies this
      ensures Taken(View(), ok) == BridgeModel.TakeMessage(cfg, old(View()), i, timestamp)
    {
      var frames, queue := queues[i][0], queues[i][1..];
      if |frames| == 1 {
        queues := queues[i := queue];
        var _ := Transmit(i, frames[0], 0, timestamp);
        return true;
      }
      var p := ReceiveRest(frames[1..], frames[0]);
      if !p.ok && p.remaining != [] {
        var remaining: ZmqMessage := p.remaining;
        queues := queues[i := [remaining] + queue];
        sourceStats := sourceStats[i := sourceStats[i].(recvErrors := sourceStats[i].recvErrors + 1)];
        return false;
      }
      queues := queues[i := queue];
      sourceStats := sourceStats[i := sourceStats[i].(multipart := sourceStats[i].multipart + 1)];
      var _ := Transmit(i, p.data, FLAG_MULTIPART, timestamp);
      ok := true;
    }

    // Drains up to batch messages from one source.
    method ServiceSource(i: nat)
      requires Valid() && i < |cfg.ids|
      modifies this
      ensures View() == Service(cfg, old(View()), i, cfg.batch)
    {
      var budget := cfg.batch;
      while budget > 0
        invariant Valid()
        invariant Service(cfg, View(), i, budget) == Service(cfg, old(View()), i, cfg.batch)
      {
        budget := budget - 1;
        var e := NextRecvEvent();
        match e
        case Interrupted => continue;
        case RecvFailed =>
          sourceStats := sourceStats[i := sourceStats[i].(recvErrors := sourceStats[i].recvErrors + 1)];
          return;
        case Ready(timestamp) =>
          if queues[i] == [] { return; }
          var ok := TakeMessage(i, timestamp);
          if !ok { return; }
      }
      totals := totals.(maxBatchHits := totals.maxBatchHits + 1);
    }

    // One poll; false on a fatal error.
    method PollOnce(e: PollEvent) returns (ok: bool)
      requires Valid()
      modifies this
      ensures View() == Poll(cfg, old(View()), e)
      ensures ok <==> e != PollFailed(false)
    {
      totals := totals.(pollIterations := totals.pollIterations + 1);
      match e
      case PollInterrupted => return true;
      case PollFailed(again) =>
        totals := totals.(pollErrors := totals.pollErrors + 1);
        return again;
      case Polled(readable) =>
        for i := 0 to |cfg.ids|
          invariant Valid()
          invariant ServiceFrom(cfg, View(), readable, i) == Poll(cfg, old(View()), e)
        {
          if i in readable { ServiceSource(i); }
        }
        return true;
    }
  }
}
