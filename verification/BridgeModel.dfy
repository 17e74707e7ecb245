// The bridge: per-source numbering, fragmentation and bounded round-robin service
// (src/bridge/bridge.cpp, include/ipcrelay/bridge/bridge.hpp).
//
// What the operating system and ZeroMQ will answer is given in advance as two event lists, one for
// receives and one for sends; an exhausted list answers with success. BridgeState and the functions on it
// say what the methods of the class in Bridge.dfy do.
module BridgeModel {
  import opened ByteOrder
  import opened WireProtocol
  import opened Fragmentation

  // A ZeroMQ message: its frames, of which there is at least one.
  type ZmqMessage = m: seq<bytes> | m != [] witness [[]]

  // The source identifiers are distinct (src/bridge/bridge_config.cpp:149).
  datatype ConfigValues = ConfigValues(ids: seq<u32>, capacity: Capacity, batch: nat)
  type BridgeConfig = c: ConfigValues | c.batch >= 1 && forall i, j :: 0 <= i < j < |c.ids| ==> c.ids[i] != c.ids[j]
    witness ConfigValues([], 1, 1)

  datatype RecvEvent = Ready(timestamp: u64) | Interrupted | RecvFailed
  datatype SendEvent = Sent | TimedOut | SendFailed
  // readable holds the sources that a poll reports as readable.
  datatype PollEvent = Polled(readable: set<nat>) | PollInterrupted | PollFailed(again: bool)

  datatype SourceStats = SourceStats(messages: nat, byteCount: nat, multipart: nat, datagrams: nat, fragmented: nat,
                                     recvErrors: nat, sendErrors: nat, sendTimeouts: nat, oversize: nat,
                                     nextSequence: u64)

  const NO_SOURCE_STATS := SourceStats(0, 0, 0, 0, 0, 0, 0, 0, 0, 0)

  datatype Totals = Totals(datagramsSent: nat, bytesSent: nat, sendErrors: nat, sendTimeouts: nat,
                           pollErrors: nat, pollIterations: nat, maxBatchHits: nat)

  const NO_TOTALS := Totals(0, 0, 0, 0, 0, 0, 0)

  // One call of transmit: the message with its sequence number, and how many of its datagrams went out.
  datatype Transmission = Transmission(message: Message, sent: nat)

  // queues holds what each source has published and the bridge has not received; wire is every datagram
  // put on the network so far, and log every call of transmit.
  datatype BridgeState = BridgeState(
    queues: seq<seq<ZmqMessage>>,
    sourceStats: seq<SourceStats>,
    totals: Totals,
    recvs: seq<RecvEvent>,
    sends: seq<SendEvent>,
    wire: seq<bytes>,
    log: seq<Transmission>)

  // A bridge that has just been opened.
  function Initial(cfg: BridgeConfig, recvs: seq<RecvEvent>, sends: seq<SendEvent>): BridgeState {
    BridgeState(seq(|cfg.ids|, _ => []), seq(|cfg.ids|, _ => NO_SOURCE_STATS), NO_TOTALS, recvs, sends, [], [])
  }

  predicate Shaped(cfg: BridgeConfig, b: BridgeState) {
    |b.queues| == |b.sourceStats| == |cfg.ids|
  }

  function Rest<T>(s: seq<T>): seq<T> {
    if s == [] then [] else s[1..]
  }

  function Drop<T>(s: seq<T>, n: nat): seq<T> {
    if n <= |s| then s[n..] else []
  }

  // ---------- transmit ----------

  // How many of the next count sends succeed before the first that does not.
  function SentOf(sends: seq<SendEvent>, count: nat): (k: nat)
    ensures k <= count
  {
    if count == 0 || (sends != [] && sends[0] != Sent) then 0 else 1 + SentOf(Rest(sends), count - 1)
  }

  function Failure(sends: seq<SendEvent>): SendEvent {
    if sends == [] then Sent else sends[0]
  }

  // The message that transmit makes of data: it takes the next sequence number of the source.
  function Numbered(cfg: BridgeConfig, b: BridgeState, i: nat, data: bytes, flags: u16, timestamp: u64): Message
    requires Shaped(cfg, b) && i < |cfg.ids|
  {
    Message(cfg.ids[i], b.sourceStats[i].nextSequence, timestamp, flags, data)
  }

  function CountMessage(st: SourceStats, length: nat): SourceStats {
    st.(messages := st.messages + 1, byteCount := st.byteCount + length,
        nextSequence := (st.nextSequence + 1) % TWO_TO_THE_64)
  }

  function CountFailure(st: SourceStats, e: SendEvent): SourceStats {
    match e
    case Sent => st
    case TimedOut => st.(sendTimeouts := st.sendTimeouts + 1)
    case SendFailed => st.(sendErrors := st.sendErrors + 1)
  }

  function CountTotalFailure(t: Totals, e: SendEvent): Totals {
    match e
    case Sent => t
    case TimedOut => t.(sendTimeouts := t.sendTimeouts + 1)
    case SendFailed => t.(sendErrors := t.sendErrors + 1)
  }

  function Transmit(cfg: BridgeConfig, b: BridgeState, i: nat, data: bytes, flags: u16, timestamp: u64)
    : (r: BridgeState)
    requires Shaped(cfg, b) && i < |cfg.ids|
    ensures Shaped(cfg, r) && r.queues == b.queues && r.recvs == b.recvs
  {
    var m := Numbered(cfg, b, i, data, flags, timestamp);
    var st := CountMessage(b.sourceStats[i], |data|);
    if !Transmittable(m, cfg.capacity) then
      b.(sourceStats := b.sourceStats[i := st.(oversize := st.oversize + 1)], log := b.log + [Transmission(m, 0)])
    else
      var count := Count(m, cfg.capacity);
      var k := SentOf(b.sends, count);
      var left := Drop(b.sends, k);
      var failure := if k < count then Failure(left) else Sent;
      var st' := st.(fragmented := st.fragmented + (if count > 1 then 1 else 0), datagrams := st.datagrams + k);
      b.(sourceStats := b.sourceStats[i := CountFailure(st', failure)],
         totals := CountTotalFailure(b.totals.(datagramsSent := b.totals.datagramsSent + k,
                                               bytesSent := b.totals.bytesSent + HEADER_SIZE * k
                                                 + Boundary(m, cfg.capacity, k)),
                                     failure),
         sends := if k < count then Rest(left) else left,
         wire := b.wire + Datagrams(m, cfg.capacity, k),
         log := b.log + [Transmission(m, k)])
  }

  // ---------- service_source ----------

  datatype Parts = Parts(ok: bool, data: bytes, remaining: seq<bytes>, recvs: seq<RecvEvent>)

  // Receives the remaining frames of a multipart message behind data.
  function ReceiveParts(recvs: seq<RecvEvent>, data: bytes, frames: seq<bytes>): Parts
    decreases |recvs| + |frames|
  {
    if frames == [] then Parts(true, data, [], recvs)
    else if recvs != [] && recvs[0] == Interrupted then ReceiveParts(recvs[1..], data, frames)
    else if recvs != [] && recvs[0] == RecvFailed then Parts(false, data, frames, recvs[1..])
    else ReceiveParts(Rest(recvs), data + frames[0], frames[1..])
  }

  function NextRecv(b: BridgeState): RecvEvent {
    if b.recvs == [] then Ready(0) else b.recvs[0]
  }

  function CountRecvError(b: BridgeState, i: nat): BridgeState
    requires i < |b.sourceStats|
  {
    b.(sourceStats := b.sourceStats[i := b.sourceStats[i].(recvErrors := b.sourceStats[i].recvErrors + 1)])
  }

  function CountMultipart(b: BridgeState, i: nat): BridgeState
    requires i < |b.sourceStats|
  {
    b.(sourceStats := b.sourceStats[i := b.sourceStats[i].(multipart := b.sourceStats[i].multipart + 1)])
  }

  datatype Taken = Taken(state: BridgeState, ok: bool)

  // Takes the message at the head of source i's queue and hands it to transmit. A receive error in
  // the middle of a multipart message loses the frames received so far; the others stay in the queue.
  function TakeMessage(cfg: BridgeConfig, b: BridgeState, i: nat, timestamp: u64): (r: Taken)
    requires Shaped(cfg, b) && i < |cfg.ids| && b.queues[i] != []
    ensures Shaped(cfg, r.state)
  {
    var frames, queue := b.queues[i][0], b.queues[i][1..];
    if |frames| == 1 then
      Taken(Transmit(cfg, b.(queues := b.queues[i := queue]), i, frames[0], 0, timestamp), true)
    else
      var p := ReceiveParts(b.recvs, frames[0], frames[1..]);
      if !p.ok && p.remaining != [] then
        var remaining: ZmqMessage := p.remaining;
        Taken(CountRecvError(b.(queues := b.queues[i := [remaining] + queue], recvs := p.recvs), i), false)
      else
        Taken(Transmit(cfg, CountMultipart(b.(queues := b.queues[i := queue], recvs := p.recvs), i), i,
                       p.data, FLAG_MULTIPART, timestamp), true)
  }

  function Service(cfg: BridgeConfig, b: BridgeState, i: nat, budget: nat): (r: BridgeState)
    requires Shaped(cfg, b) && i < |cfg.ids|
    ensures Shaped(cfg, r)
    decreases budget
  {
    if budget == 0 then b.(totals := b.totals.(maxBatchHits := b.totals.maxBatchHits + 1))
    else
      var rest := b.(recvs := Rest(b.recvs));
      match NextRecv(b)
      case Interrupted => Service(cfg, rest, i, budget - 1)
      case RecvFailed => CountRecvError(rest, i)
      case Ready(timestamp) =>
        if b.queues[i] == [] then rest
        else
          var t := TakeMessage(cfg, rest, i, timestamp);
          if t.ok then Service(cfg, t.state, i, budget - 1) else t.state
  }

  // ---------- poll_once ----------

  // Services the readable sources from i on.
  function ServiceFrom(cfg: BridgeConfig, b: BridgeState, readable: set<nat>, i: nat): (r: BridgeState)
    requires Shaped(cfg, b) && i <= |cfg.ids|
    ensures Shaped(cfg, r)
    decreases |cfg.ids| - i
  {
    if i == |cfg.ids| then b
    else ServiceFrom(cfg, if i in readable then Service(cfg, b, i, cfg.batch) else b, readable, i + 1)
  }

  function Poll(cfg: BridgeConfig, b: BridgeState, e: PollEvent): (r: BridgeState)
    requires Shaped(cfg, b)
    ensures Shaped(cfg, r)
  {
    var counted := b.(totals := b.totals.(pollIterations := b.totals.pollIterations + 1));
    match e
    case PollInterrupted => counted
    case PollFailed(_) => counted.(totals := counted.totals.(pollErrors := counted.totals.pollErrors + 1))
    case Polled(readable) => ServiceFrom(cfg, counted, readable, 0)
  }
}
