// The control connection does not depend on how TCP splits the bytes, and delivers exactly the messages
// that the client's frames spell (tools/ctl/backend/control_server.cpp:230-411).
module Segmentation {
  import opened WebSocket
  import opened ControlModel
  import Http

  // The same client for all purposes: equal, apart from input that is ignored once it is closing.
  predicate Same(c: Client, d: Client) {
    c == d || (c.closing && d.closing && c.(input := []) == d.(input := []))
  }

  lemma SameIsTransitive(a: Client, b: Client, c: Client)
    requires Same(a, b) && Same(b, c)
    ensures Same(a, c)
  {
  }

  // Nothing more can be done with the input that has arrived.
  predicate Quiescent(c: Client) {
    || c.closing
    || (if c.websocket then c.dead || ParseFrame(c.input, MAX_WS_MESSAGE) == NeedMore
        else Http.ParseHttp(c.input, MAX_HEADER_BYTES) == Http.NeedMore)
  }

  function More(c: Client, x: octets): Client {
    c.(input := c.input + x)
  }

  // ---------- Frames ----------

  lemma {:induction false} FramesQuiesce(c: Client)
    requires c.websocket
    ensures Quiescent(HandleFrames(c)) && HandleFrames(c).websocket && HandleFrames(c).dead == c.dead
    decreases |c.input|
  {
    hide ParseFrame;
    if !c.dead && !c.closing {
      match ParseFrame(c.input, MAX_WS_MESSAGE)
      case Got(f, n) =>
        AppliedKeepsInput(c.(input := c.input[n..]), f);
        FramesQuiesce(ApplyFrame(c.(input := c.input[n..]), f));
      case _ =>
    }
  }

  lemma DataIgnoresInput(c: Client, f: Frame, input: octets)
    ensures ApplyData(c.(input := input), f) == ApplyData(c, f).(input := input)
    ensures ApplyData(c, f).input == c.input
  {
  }

  lemma ApplyingIgnoresInput(c: Client, f: Frame, x: octets)
    ensures ApplyFrame(More(c, x), f) == More(ApplyFrame(c, f), x)
  {
    hide ApplyData;
    DataIgnoresInput(c, f, c.input + x);
  }

  lemma ClosingIgnoresInput(c: Client, x: octets)
    requires c.closing
    ensures Same(HandleFrames(More(c, x)), c) && Same(Feed(c, x), c)
  {
  }

  // Handling what has arrived before more arrives makes no difference.
  lemma {:induction false} FramesAreStable(c: Client, x: octets)
    requires c.websocket && !c.dead
    ensures Same(Feed(HandleFrames(c), x), HandleFrames(More(c, x)))
    decreases |c.input|
  {
    hide ParseFrame, ApplyFrame;
    if c.closing {
      ClosingIgnoresInput(c, x);
    } else if ParseFrame(c.input, MAX_WS_MESSAGE) != NeedMore {
      FrameVerdictIsStable(c.input, x, MAX_WS_MESSAGE);
      match ParseFrame(c.input, MAX_WS_MESSAGE)
      case Broken(e) =>
        ClosingIgnoresInput(WsFail(c, FailCode(e), BadFrame(e)), x);
      case Got(f, n) =>
        var rest := c.(input := c.input[n..]);
        assert (c.input + x)[n..] == c.input[n..] + x;
        assert More(c, x).(input := (c.input + x)[n..]) == More(rest, x);
        AppliedKeepsInput(rest, f);
        ApplyingIgnoresInput(rest, f, x);
        FramesAreStable(ApplyFrame(rest, f), x);
    }
  }

  // ---------- HTTP and the upgrade ----------

  lemma UpgradeIsStable(c: Client, r: Http.HttpRequest, x: octets)
    requires !c.websocket && !c.dead && !c.closing
    ensures Same(Feed(Upgrade(c, r), x), Upgrade(More(c, x), r))
  {
    hide HandleFrames, UpgradeStatus;
    if UpgradeStatus(r) == 101 {
      FramesAreStable(Greet(c, r), x);
      assert Greet(More(c, x), r) == More(Greet(c, r), x);
    }
  }

  lemma ServingIsStable(c: Client, r: Http.HttpRequest, x: octets)
    ensures Same(Feed(Serve(c, r), x), Serve(More(c, x), r))
  {
  }

  lemma HttpIsStable(c: Client, x: octets)
    requires !c.websocket && !c.dead && !c.closing
    ensures Same(Feed(HandleHttp(c), x), HandleHttp(More(c, x)))
  {
    hide Http.ParseHttp, Upgrade, Serve;
    if Http.ParseHttp(c.input, MAX_HEADER_BYTES) != Http.NeedMore {
      Http.HttpVerdictIsStable(c.input, x, MAX_HEADER_BYTES);
      match Http.ParseHttp(c.input, MAX_HEADER_BYTES)
      case Rejected(e) => ClosingIgnoresInput(SendAndClose(c, HttpStatus(StatusOf(e))), x);
      case Request(r, n) =>
        var rest := c.(input := c.input[n..]);
        assert (c.input + x)[n..] == c.input[n..] + x;
        assert More(c, x).(input := (c.input + x)[n..]) == More(rest, x);
        UpgradeIsStable(rest, r, x);
        ServingIsStable(rest, r, x);
    }
  }

  lemma HttpQuiesces(c: Client)
    requires !c.websocket && !c.dead && !c.closing
    ensures Quiescent(HandleHttp(c)) && !HandleHttp(c).dead
  {
    hide Http.ParseHttp, HandleFrames, UpgradeStatus;
    match Http.ParseHttp(c.input, MAX_HEADER_BYTES)
    case Request(r, n) => FramesQuiesce(Greet(c.(input := c.input[n..]), r));
    case _ =>
  }

  // ---------- Feeding ----------

  lemma FeedingQuiesces(c: Client, a: octets)
    requires !c.dead
    ensures Quiescent(Feed(c, a)) && !Feed(c, a).dead
  {
    hide HandleFrames, HandleHttp, Quiescent;
    var d := AppendInput(c, a);
    if c.closing {
      ClosingIsQuiescent(c);
    } else if c.websocket {
      FramesQuiesce(d);
    } else {
      HttpQuiesces(d);
    }
  }

  lemma ClosingIsQuiescent(c: Client)
    requires c.closing
    ensures Quiescent(c)
  {
  }

  // Feeding two chunks one after the other is feeding them at once.
  lemma TwoChunksAreOne(c: Client, a: octets, b: octets)
    requires !c.dead
    ensures Same(Feed(Feed(c, a), b), Feed(c, a + b))
  {
    hide HandleFrames, HandleHttp;
    var d := AppendInput(c, a);
    if !c.closing {
      assert AppendInput(c, a + b) == More(d, b) by { assert c.input + (a + b) == c.input + a + b; }
      if c.websocket { FramesAreStable(d, b); } else { HttpIsStable(d, b); }
    }
  }

  lemma FeedingKeepsSame(c: Client, d: Client, x: octets)
    requires Same(c, d)
    ensures Same(Feed(c, x), Feed(d, x))
  {
  }

  function FeedAll(c: Client, chunks: seq<octets>): Client {
    if chunks == [] then c else Feed(FeedAll(c, chunks[..|chunks| - 1]), chunks[|chunks| - 1])
  }

  function Stream(chunks: seq<octets>): octets {
    if chunks == [] then [] else Stream(chunks[..|chunks| - 1]) + chunks[|chunks| - 1]
  }

  lemma NothingArrives(c: Client)
    requires Quiescent(c)
    ensures Feed(c, []) == c
  {
    assert c.input + [] == c.input;
  }

  lemma {:induction false} ChunksAreStream(c: Client, chunks: seq<octets>)
    requires Quiescent(c) && !c.dead
    ensures Same(FeedAll(c, chunks), Feed(c, Stream(chunks)))
    decreases |chunks|
  {
    hide Feed, Quiescent;
    if chunks == [] {
      NothingArrives(c);
    } else {
      var before, last := chunks[..|chunks| - 1], chunks[|chunks| - 1];
      ChunksAreStream(c, before);
      FeedingKeepsSame(FeedAll(c, before), Feed(c, Stream(before)), last);
      TwoChunksAreOne(c, Stream(before), last);
      SameIsTransitive(FeedAll(c, chunks), Feed(Feed(c, Stream(before)), last), Feed(c, Stream(chunks)));
    }
  }

  // Segmentation independence. For any byte stream and any two ways of cutting it into chunks, a new
  // connection sends the same replies, delivers the same messages and ends in the same state, through
  // HTTP header, upgrade, frames pipelined behind the handshake and all, apart from ignored input.
  lemma SegmentationDoesNotMatter(a: seq<octets>, b: seq<octets>)
    requires Stream(a) == Stream(b)
    ensures Same(FeedAll(NEW_CLIENT, a), FeedAll(NEW_CLIENT, b))
    ensures FeedAll(NEW_CLIENT, a).out == FeedAll(NEW_CLIENT, b).out
  {
    hide FeedAll, Stream, Feed, Quiescent;
    NewIsQuiescent();
    ChunksAreStream(NEW_CLIENT, a);
    ChunksAreStream(NEW_CLIENT, b);
    SameIsTransitive(FeedAll(NEW_CLIENT, a), Feed(NEW_CLIENT, Stream(a)), FeedAll(NEW_CLIENT, b));
  }

  lemma NewIsQuiescent()
    ensures Quiescent(NEW_CLIENT)
  {
    assert Http.Find([], Http.BLANK_LINE, 0) == -1;
  }

  // ---------- One readable event ----------

  // The chunks received before the end of an event.
  function Received(results: seq<RecvResult>): octets {
    if results == [] || results[0].WouldBlock? || results[0].EndOfStream? || results[0].RecvError? then []
    else (if results[0].Data? then results[0].chunk else []) + Received(results[1..])
  }

  predicate EndsQuietly(results: seq<RecvResult>) {
    results == [] || results[0].WouldBlock? ||
    ((results[0].Data? || results[0].RecvInterrupted?) && EndsQuietly(results[1..]))
  }

  // An event that ends because there is no more to receive feeds all its chunks at once.
  lemma {:induction false} EventFeedsItsChunks(c: Client, results: seq<RecvResult>)
    requires EndsQuietly(results)
    ensures ReadClient(c, results) == Feed(c, Received(results))
    decreases |results|
  {
    hide Handle;
    if results == [] || results[0].WouldBlock? {
      assert c.input + [] == c.input;
    } else if results[0].Data? {
      var chunk, later := results[0].chunk, Received(results[1..]);
      EventFeedsItsChunks(AppendInput(c, chunk), results[1..]);
      assert c.input + chunk + later == c.input + (chunk + later);
    } else {
      EventFeedsItsChunks(c, results[1..]);
      assert [] + Received(results[1..]) == Received(results[1..]);
    }
  }

  predicate ClosedByClient(results: seq<RecvResult>) {
    results != [] &&
    (results[0].EndOfStream? || ((results[0].Data? || results[0].RecvInterrupted?) && ClosedByClient(results[1..])))
  }

  // An event in which the client closes its side handles none of the chunks received in it.
  lemma {:induction false} ClosingEventHandlesNothing(c: Client, results: seq<RecvResult>)
    requires ClosedByClient(results)
    ensures ReadClient(c, results).dead && ReadClient(c, results).out == c.out
    ensures ReadClient(c, results).message == c.message
    decreases |results|
  {
    if results[0].Data? {
      ClosingEventHandlesNothing(AppendInput(c, results[0].chunk), results[1..]);
    } else if results[0].RecvInterrupted? {
      ClosingEventHandlesNothing(c, results[1..]);
    }
  }

  predicate FailsToReceive(results: seq<RecvResult>) {
    results != [] &&
    (results[0].RecvError? || ((results[0].Data? || results[0].RecvInterrupted?) && FailsToReceive(results[1..])))
  }

  // An event that ends because receiving failed is the last one. On a WebSocket it handles nothing of what it received,
  // but a request in it is still handled.
  lemma {:induction false} FailingEventIsTheLast(c: Client, results: seq<RecvResult>)
    requires FailsToReceive(results)
    ensures var r := ReadClient(c, results);
      && r.dead && r == Feed(c.(dead := true), Received(results))
      && (c.websocket ==> r.out == c.out && r.message == c.message)
    decreases |results|
  {
    hide Handle, AppendInput;
    if results[0].RecvError? {
      DeadStaysDead(c.(dead := true));
      AppendNothing(c.(dead := true));
    } else if results[0].Data? {
      FailingEventIsTheLast(AppendInput(c, results[0].chunk), results[1..]);
      AppendTwice(c, results[0].chunk, Received(results[1..]));
    } else {
      FailingEventIsTheLast(c, results[1..]);
      assert [] + Received(results[1..]) == Received(results[1..]);
    }
  }

  lemma AppendNothing(c: Client)
    ensures AppendInput(c, []) == c
  {
    assert c.input + [] == c.input;
  }

  // Appending one chunk behind another, before or after the connection is marked dead.
  lemma AppendTwice(c: Client, a: octets, b: octets)
    ensures var d := AppendInput(c, a);
      && AppendInput(d.(dead := true), b) == AppendInput(c.(dead := true), a + b)
      && d.websocket == c.websocket && d.out == c.out && d.message == c.message
  {
    assert c.input + a + b == c.input + (a + b);
  }

  // Handling what arrived neither ends a connection at once nor revives it, and on one that ended no frame is handled.
  lemma DeadStaysDead(c: Client)
    ensures Handle(c).dead == c.dead
    ensures c.dead && c.websocket ==> Handle(c) == c
  {
    hide ParseFrame, Http.ParseHttp, ApplyFrame;
    if c.websocket { FramesQuiesce(c); }
    match Http.ParseHttp(c.input, MAX_HEADER_BYTES)
    case Request(r, n) => FramesQuiesce(Greet(c.(input := c.input[n..]), r));
    case _ =>
  }
}
