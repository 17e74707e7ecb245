// What the bridge does with receives that are interrupted or fail, and what its polls count
// (src/bridge/bridge.cpp:96-173).
module Receiving {
  import opened ByteOrder
  import opened WireProtocol
  import opened Fragmentation
  import opened BridgeModel
  import opened BridgeRuns

  // The first n answers to receives; an exhausted list answers with success.
  function Answers(recvs: seq<RecvEvent>, n: nat): seq<RecvEvent> {
    seq(n, j requires 0 <= j < n => if j < |recvs| then recvs[j] else Ready(0))
  }

  function Readies(answers: seq<RecvEvent>): nat {
    if answers == [] then 0 else (if answers[0].Ready? then 1 else 0) + Readies(answers[1..])
  }

  lemma AnswersUnfold(recvs: seq<RecvEvent>, n: nat)
    ensures Answers(recvs, n + 1) == [if recvs == [] then Ready(0) else recvs[0]] + Answers(Rest(recvs), n)
    ensures Readies(Answers(recvs, n + 1)) ==
            (if recvs == [] || recvs[0].Ready? then 1 else 0) + Readies(Answers(Rest(recvs), n))
    ensures Drop(Rest(recvs), n) == Drop(recvs, n + 1)
  {
    assert Answers(recvs, n + 1)[1..] == Answers(Rest(recvs), n);
  }

  // p is what is left after the first used answers, of which got were successful: each of these brought the next frame,
  // the others were interrupted, and receiving stopped when all frames were there or at a receive that failed.
  predicate Describes(p: Parts, recvs: seq<RecvEvent>, data: bytes, frames: seq<bytes>, used: nat, got: nat) {
    var answers := Answers(recvs, used);
    && p.recvs == Drop(recvs, used) && got == Readies(answers) <= |frames|
    && p.data == data + Concat(frames[..got]) && p.remaining == frames[got..] && (p.ok <==> got == |frames|)
    && (forall j :: 0 <= j < used ==> (answers[j].RecvFailed? <==> !p.ok && j == used - 1))
    && (!p.ok ==> used > 0) && (p.ok && used > 0 ==> answers[used - 1].Ready?)
  }

  // The remaining frames are received until all are there or a receive fails; an interrupted receive is repeated.
  lemma {:induction false} PartsReceived(recvs: seq<RecvEvent>, data: bytes, frames: seq<bytes>)
    returns (used: nat, got: nat)
    ensures Describes(ReceiveParts(recvs, data, frames), recvs, data, frames, used, got)
    decreases |recvs| + |frames|
  {
    hide Describes;
    if frames == [] {
      used, got := 0, 0;
      AllThere(recvs, data);
    } else if recvs != [] && recvs[0] == Interrupted {
      used, got := PartsReceived(recvs[1..], data, frames);
      OneInterrupted(ReceiveParts(recvs[1..], data, frames), recvs, data, frames, used, got);
      used := used + 1;
    } else if recvs != [] && recvs[0] == RecvFailed {
      used, got := 1, 0;
      OneFailed(recvs, data, frames);
    } else {
      used, got := PartsReceived(Rest(recvs), data + frames[0], frames[1..]);
      OneReady(ReceiveParts(Rest(recvs), data + frames[0], frames[1..]), recvs, data, frames, used, got);
      used, got := used + 1, got + 1;
    }
  }

  lemma AllThere(recvs: seq<RecvEvent>, data: bytes)
    ensures Describes(Parts(true, data, [], recvs), recvs, data, [], 0, 0)
  {
    assert data + Concat([]) == data;
  }

  lemma OneInterrupted(p: Parts, recvs: seq<RecvEvent>, data: bytes, frames: seq<bytes>, used: nat, got: nat)
    requires recvs != [] && recvs[0] == Interrupted && frames != []
    requires Describes(p, recvs[1..], data, frames, used, got)
    ensures Describes(p, recvs, data, frames, used + 1, got)
  {
    hide Concat;
    AnswersUnfold(recvs, used);
    Behind(recvs, used);
  }

  lemma OneFailed(recvs: seq<RecvEvent>, data: bytes, frames: seq<bytes>)
    requires recvs != [] && recvs[0] == RecvFailed && frames != []
    ensures Describes(Parts(false, data, frames, recvs[1..]), recvs, data, frames, 1, 0)
  {
    AnswersUnfold(recvs, 0);
    assert Answers(Rest(recvs), 0) == [] && frames[..0] == [] && frames[0..] == frames;
  }

  lemma OneReady(p: Parts, recvs: seq<RecvEvent>, data: bytes, frames: seq<bytes>, used: nat, got: nat)
    requires (recvs == [] || recvs[0].Ready?) && frames != []
    requires Describes(p, Rest(recvs), data + frames[0], frames[1..], used, got)
    ensures Describes(p, recvs, data, frames, used + 1, got + 1)
  {
    hide Answers, Readies, Drop;
    AnswersUnfold(recvs, used);
    Behind(recvs, used);
    assert frames[..got + 1] == [frames[0]] + frames[1..][..got] && frames[..got + 1][1..] == frames[1..][..got];
    assert data + frames[0] + Concat(frames[1..][..got]) == data + (frames[0] + Concat(frames[1..][..got]));
  }

  lemma Behind(recvs: seq<RecvEvent>, n: nat)
    ensures forall j :: 0 <= j < n ==> Answers(recvs, n + 1)[j + 1] == Answers(Rest(recvs), n)[j]
    ensures Answers(recvs, n + 1)[0] == if recvs == [] then Ready(0) else recvs[0]
  {
  }

  // The message without its first n frames.
  function Without(m: ZmqMessage, n: nat): ZmqMessage
    requires n < |m|
  {
    m[n..]
  }

  // A message is handed on with all its frames joined, MULTIPART if there are several, and the time at which its first
  // frame was received. If a receive fails before its last frame, nothing is handed on, the error is counted, and the
  // frames received so far are lost.
  lemma MessageTaken(cfg: BridgeConfig, b: BridgeState, i: nat, timestamp: u64) returns (got: nat)
    requires Shaped(cfg, b) && i < |cfg.ids| && b.queues[i] != []
    ensures var frames, st := b.queues[i][0], b.sourceStats[i];
      var r := TakeMessage(cfg, b, i, timestamp);
      && got <= |frames| - 1 && (r.ok <==> got == |frames| - 1)
      && (r.ok ==>
            && r.state.queues == b.queues[i := b.queues[i][1..]] && |r.state.log| == |b.log| + 1
            && r.state.log[|b.log|].message ==
               Message(cfg.ids[i], st.nextSequence, timestamp, if |frames| == 1 then 0 else 2, Concat(frames))
            && r.state.sourceStats[i].multipart == st.multipart + (if |frames| == 1 then 0 else 1))
      && (!r.ok ==>
            r.state == b.(queues := b.queues[i := [Without(frames, 1 + got)] + b.queues[i][1..]],
                          recvs := r.state.recvs,
                          sourceStats := b.sourceStats[i := st.(recvErrors := st.recvErrors + 1)]))
  {
    hide Transmit, ReceiveParts;
    var frames, queue := b.queues[i][0], b.queues[i][1..];
    if |frames| == 1 {
      got := 0;
      assert Concat(frames) == frames[0] + Concat([]) == frames[0];
      TransmitLogs(cfg, b.(queues := b.queues[i := queue]), i, frames[0], 0, timestamp);
    } else {
      var used;
      used, got := PartsReceived(b.recvs, frames[0], frames[1..]);
      var p := ReceiveParts(b.recvs, frames[0], frames[1..]);
      assert frames[1..][got..] == frames[1 + got..];
      if p.ok {
        assert frames[1..][..got] == frames[1..];
        TransmitLogs(cfg, CountMultipart(b.(queues := b.queues[i := queue], recvs := p.recvs), i), i,
                     p.data, FLAG_MULTIPART, timestamp);
      }
    }
  }

  lemma TransmitLogs(cfg: BridgeConfig, b: BridgeState, i: nat, data: bytes, flags: u16, timestamp: u64)
    requires Shaped(cfg, b) && i < |cfg.ids|
    ensures var r := Transmit(cfg, b, i, data, flags, timestamp);
      && |r.log| == |b.log| + 1 && r.queues == b.queues && r.sourceStats[i].multipart == b.sourceStats[i].multipart
      && r.log[|b.log|].message == Message(cfg.ids[i], b.sourceStats[i].nextSequence, timestamp, flags, data)
  {
    hide SentOf, Drop, Failure, Rest, Boundary, Datagrams, FragmentCountFor;
  }

  // ---------- What a service and a poll count ----------

  function Failures(recvs: seq<RecvEvent>): nat {
    if recvs == [] then 0 else (if recvs[0].RecvFailed? then 1 else 0) + Failures(recvs[1..])
  }

  lemma {:induction false} PartsFailures(recvs: seq<RecvEvent>, data: bytes, frames: seq<bytes>)
    ensures var p := ReceiveParts(recvs, data, frames);
      Failures(p.recvs) + (if p.ok then 0 else 1) == Failures(recvs)
    ensures !ReceiveParts(recvs, data, frames).ok ==> ReceiveParts(recvs, data, frames).remaining != []
    decreases |recvs| + |frames|
  {
    if frames != [] {
      if recvs != [] && recvs[0] == Interrupted {
        PartsFailures(recvs[1..], data, frames);
      } else if recvs == [] || recvs[0] != RecvFailed {
        PartsFailures(Rest(recvs), data + frames[0], frames[1..]);
      }
    }
  }

  lemma TransmitCountsNoReceives(cfg: BridgeConfig, b: BridgeState, i: nat, data: bytes, flags: u16, timestamp: u64)
    requires Shaped(cfg, b) && i < |cfg.ids|
    ensures var r := Transmit(cfg, b, i, data, flags, timestamp);
      && r.recvs == b.recvs && r.totals.maxBatchHits == b.totals.maxBatchHits
      && r.totals.pollIterations == b.totals.pollIterations && r.totals.pollErrors == b.totals.pollErrors
      && r.sourceStats[i].recvErrors == b.sourceStats[i].recvErrors && OtherStats(b, r, i)
  {
    hide SentOf, Drop, Failure, Rest, Boundary, Datagrams, FragmentCountFor;
  }

  predicate OtherStats(b: BridgeState, r: BridgeState, i: nat) {
    |r.sourceStats| == |b.sourceStats| && i < |b.sourceStats|
    && forall j :: 0 <= j < |b.sourceStats| && j != i ==> r.sourceStats[j] == b.sourceStats[j]
  }

  // Every receive that failed is counted once for the source it was made for, and only those; poll counters stay.
  predicate CountsFailures(cfg: BridgeConfig, b: BridgeState, r: BridgeState, i: nat)
    requires Shaped(cfg, b) && Shaped(cfg, r) && i < |cfg.ids|
  {
    && r.sourceStats[i].recvErrors + Failures(r.recvs) == b.sourceStats[i].recvErrors + Failures(b.recvs)
    && OtherStats(b, r, i)
    && r.totals.pollIterations == b.totals.pollIterations && r.totals.pollErrors == b.totals.pollErrors
  }

  lemma TakingCounts(cfg: BridgeConfig, b: BridgeState, i: nat, timestamp: u64)
    requires Shaped(cfg, b) && i < |cfg.ids| && b.queues[i] != []
    ensures var r := TakeMessage(cfg, b, i, timestamp).state;
      CountsFailures(cfg, b, r, i) && r.totals.maxBatchHits == b.totals.maxBatchHits
  {
    hide Transmit, ReceiveParts;
    var frames, queue := b.queues[i][0], b.queues[i][1..];
    if |frames| == 1 {
      TransmitCountsNoReceives(cfg, b.(queues := b.queues[i := queue]), i, frames[0], 0, timestamp);
    } else {
      PartsFailures(b.recvs, frames[0], frames[1..]);
      var p := ReceiveParts(b.recvs, frames[0], frames[1..]);
      TransmitCountsNoReceives(cfg, CountMultipart(b.(queues := b.queues[i := queue], recvs := p.recvs), i), i,
                               p.data, FLAG_MULTIPART, timestamp);
    }
  }

  // A service ends when the batch is hit, at a receive that failed, or else with nothing waiting, and counts which; if
  // no receive fails or is interrupted, the batch is hit if and only if at least a batch was waiting.
  lemma {:induction false} ServiceCounts(cfg: BridgeConfig, b: BridgeState, i: nat, budget: nat)
    requires Shaped(cfg, b) && i < |cfg.ids|
    ensures var r := Service(cfg, b, i, budget);
      && CountsFailures(cfg, b, r, i)
      && b.totals.maxBatchHits <= r.totals.maxBatchHits <= b.totals.maxBatchHits + 1
      && (Calm(b.recvs) ==> (r.totals.maxBatchHits == b.totals.maxBatchHits + 1 <==> |b.queues[i]| >= budget))
      && (r.totals.maxBatchHits == b.totals.maxBatchHits + 1 ==>
            r.sourceStats[i].recvErrors == b.sourceStats[i].recvErrors)
      && r.sourceStats[i].recvErrors <= b.sourceStats[i].recvErrors + 1
      && (r.queues[i] == [] || r.totals.maxBatchHits > b.totals.maxBatchHits ||
          r.sourceStats[i].recvErrors > b.sourceStats[i].recvErrors)
    decreases budget
  {
    hide TakeMessage;
    if budget > 0 {
      var rest := b.(recvs := Rest(b.recvs));
      match NextRecv(b)
      case Interrupted => ServiceCounts(cfg, rest, i, budget - 1);
      case RecvFailed =>
      case Ready(timestamp) =>
        if b.queues[i] != [] {
          TakingCounts(cfg, rest, i, timestamp);
          var t := TakeMessage(cfg, rest, i, timestamp);
          TakingTells(cfg, rest, i, timestamp);
          if Calm(rest.recvs) { TakingTakesOne(cfg, rest, i, timestamp); }
          if t.ok { ServiceCounts(cfg, t.state, i, budget - 1); }
        }
    }
  }

  lemma TakingTells(cfg: BridgeConfig, b: BridgeState, i: nat, timestamp: u64)
    requires Shaped(cfg, b) && i < |cfg.ids| && b.queues[i] != []
    ensures var r := TakeMessage(cfg, b, i, timestamp);
      r.state.sourceStats[i].recvErrors == b.sourceStats[i].recvErrors + if r.ok then 0 else 1
  {
    hide Transmit, ReceiveParts;
    var frames, queue := b.queues[i][0], b.queues[i][1..];
    if |frames| == 1 {
      TransmitCountsNoReceives(cfg, b.(queues := b.queues[i := queue]), i, frames[0], 0, timestamp);
    } else {
      PartsFailures(b.recvs, frames[0], frames[1..]);
      var p := ReceiveParts(b.recvs, frames[0], frames[1..]);
      TransmitCountsNoReceives(cfg, CountMultipart(b.(queues := b.queues[i := queue], recvs := p.recvs), i), i,
                               p.data, FLAG_MULTIPART, timestamp);
    }
  }

  function ErrorsOf(stats: seq<SourceStats>): nat {
    if stats == [] then 0 else ErrorsOf(stats[..|stats| - 1]) + stats[|stats| - 1].recvErrors
  }

  lemma {:induction false} ErrorsWithout(a: seq<SourceStats>, b: seq<SourceStats>, i: nat)
    requires |a| == |b| && i < |a| && forall j :: 0 <= j < |a| && j != i ==> a[j] == b[j]
    ensures ErrorsOf(b) - ErrorsOf(a) == b[i].recvErrors - a[i].recvErrors
    decreases |a|
  {
    if i < |a| - 1 {
      ErrorsWithout(a[..|a| - 1], b[..|a| - 1], i);
    } else {
      assert a[..|a| - 1] == b[..|a| - 1];
    }
  }

  lemma {:induction false} ServiceFromCounts(cfg: BridgeConfig, b: BridgeState, readable: set<nat>, i: nat)
    requires Shaped(cfg, b) && i <= |cfg.ids|
    ensures var r := ServiceFrom(cfg, b, readable, i);
      && ErrorsOf(r.sourceStats) + Failures(r.recvs) == ErrorsOf(b.sourceStats) + Failures(b.recvs)
      && r.totals.pollIterations == b.totals.pollIterations && r.totals.pollErrors == b.totals.pollErrors
      && b.totals.maxBatchHits <= r.totals.maxBatchHits <= b.totals.maxBatchHits + |cfg.ids| - i
    decreases |cfg.ids| - i
  {
    hide Service, ErrorsOf, Failures;
    if i < |cfg.ids| {
      var m := if i in readable then Service(cfg, b, i, cfg.batch) else b;
      ServiceCounts(cfg, b, i, cfg.batch);
      ErrorsWithout(b.sourceStats, m.sourceStats, i);
      ServiceFromCounts(cfg, m, readable, i + 1);
    }
  }

  // Every poll is counted, and as an error if and only if it failed; over all sources, exactly the failed receives are
  // counted. A poll that was interrupted or failed does nothing else.
  lemma PollCounts(cfg: BridgeConfig, b: BridgeState, e: PollEvent)
    requires Shaped(cfg, b)
    ensures var r := Poll(cfg, b, e);
      && r.totals.pollIterations == b.totals.pollIterations + 1
      && r.totals.pollErrors == b.totals.pollErrors + (if e.PollFailed? then 1 else 0)
      && ErrorsOf(r.sourceStats) + Failures(r.recvs) == ErrorsOf(b.sourceStats) + Failures(b.recvs)
      && (!e.Polled? ==> r == b.(totals := r.totals) && r.totals == b.totals.(pollIterations := r.totals.pollIterations,
                                                                              pollErrors := r.totals.pollErrors))
  {
    hide ServiceFrom, ErrorsOf, Failures;
    if e.Polled? {
      ServiceFromCounts(cfg, b.(totals := b.totals.(pollIterations := b.totals.pollIterations + 1)), e.readable, 0);
    }
  }
}
