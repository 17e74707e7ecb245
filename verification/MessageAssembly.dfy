// Which messages a stream of WebSocket frames spells, by the rules of RFC 6455 sections 5.2 to 5.5, and that
// the control server delivers exactly those (tools/ctl/backend/control_server.cpp:363-411).
module MessageAssembly {
  import opened WebSocket
  import opened ControlModel
  import opened Segmentation
  import Http
  import HttpRoundTrip
  import Handshake

  // ---------- What the frames mean ----------

  predicate IsData(f: Frame) {
    f.opcode == TEXT || f.opcode == CONTINUATION
  }

  // The last data frame among the first n frames, or -1: control frames may come between fragments.
  function LastData(frames: seq<Frame>, n: nat): (i: int)
    requires n <= |frames|
    ensures -1 <= i < n && (i >= 0 ==> IsData(frames[i]))
  {
    if n == 0 then -1 else if IsData(frames[n - 1]) then n - 1 else LastData(frames, n - 1)
  }

  // A message has begun among the first n frames and its final fragment is not among them.
  predicate MessageOpen(frames: seq<Frame>, n: nat)
    requires n <= |frames|
  {
    LastData(frames, n) >= 0 && !frames[LastData(frames, n)].fin
  }

  // The payloads of one message joined, from its first fragment up to data frame i.
  function Text(frames: seq<Frame>, i: nat): octets
    requires i < |frames|
    decreases i
  {
    if frames[i].opcode == TEXT || LastData(frames, i) < 0 then frames[i].payload
    else Text(frames, LastData(frames, i)) + frames[i].payload
  }

  function OpenText(frames: seq<Frame>, n: nat): octets
    requires n <= |frames|
  {
    if MessageOpen(frames, n) then Text(frames, LastData(frames, n)) else []
  }

  // A text frame begins a message when none is open, a continuation frame extends an open one.
  predicate InSequence(frames: seq<Frame>, i: nat)
    requires i < |frames|
  {
    frames[i].opcode == (if MessageOpen(frames, i) then CONTINUATION else TEXT)
  }

  predicate Allowed(frames: seq<Frame>, i: nat)
    requires i < |frames|
  {
    frames[i].opcode == PING || frames[i].opcode == PONG ||
    (InSequence(frames, i) && |Text(frames, i)| <= 0x1_0000)
  }

  predicate Legal(frames: seq<Frame>, n: nat)
    requires n <= |frames|
  {
    forall i :: 0 <= i < n ==> Allowed(frames, i)
  }

  // What the first n frames call for: a pong for every ping and an answer to every finished message.
  function Replies(frames: seq<Frame>, n: nat): seq<Reply>
    requires n <= |frames|
  {
    if n == 0 then []
    else
      Replies(frames, n - 1) +
      (if frames[n - 1].opcode == PING then [Pong(frames[n - 1].payload)]
       else if IsData(frames[n - 1]) && frames[n - 1].fin then [Answer(Text(frames, n - 1))]
       else [])
  }

  // How the connection is closed at a frame that is not allowed.
  function ClosingReply(frames: seq<Frame>, i: nat): Reply
    requires i < |frames|
  {
    var f := frames[i];
    if f.opcode == CLOSE then CloseEcho(if |f.payload| <= 2 then f.payload else f.payload[..2])
    else if f.opcode == BINARY then CloseWith(1003, BinaryMessage)
    else if !InSequence(frames, i) then CloseWith(1002, UnexpectedContinuation)
    else CloseWith(1009, MessageTooLarge)
  }

  // ---------- What the server does with them ----------

  predicate Ready(c: Client) {
    c.websocket && !c.dead && !c.closing && c.input == [] && c.message == [] && !c.inMessage
  }

  predicate AllKnown(frames: seq<Frame>) {
    forall i :: 0 <= i < |frames| ==> KnownOpcode(frames[i].opcode)
  }

  function Applied(c: Client, frames: seq<Frame>, n: nat): Client
    requires n <= |frames|
  {
    if n == 0 then c
    else
      var d := Applied(c, frames, n - 1);
      if d.closing then d else ApplyFrame(d, frames[n - 1])
  }

  // The client after n frames that were all allowed.
  function Delivered(c: Client, frames: seq<Frame>, n: nat): Client
    requires n <= |frames|
  {
    c.(out := c.out + Replies(frames, n), message := OpenText(frames, n), inMessage := MessageOpen(frames, n))
  }

  lemma {:induction false} LegalFramesDeliver(c: Client, frames: seq<Frame>, n: nat)
    requires Ready(c) && n <= |frames| && Legal(frames, n)
    ensures Applied(c, frames, n) == Delivered(c, frames, n)
  {
    hide Text, ApplyFrame, MessageOpen, OpenText, InSequence;
    if n == 0 {
      NothingOpen(frames);
      assert c.out + [] == c.out;
    } else {
      LegalFramesDeliver(c, frames, n - 1);
      assert Allowed(frames, n - 1);
      OneFrameDelivers(c, frames, n - 1);
    }
  }

  lemma NothingOpen(frames: seq<Frame>)
    ensures !MessageOpen(frames, 0) && OpenText(frames, 0) == []
  {
  }

  lemma OneFrameDelivers(c: Client, frames: seq<Frame>, i: nat)
    requires !c.closing && i < |frames| && Allowed(frames, i)
    ensures ApplyFrame(Delivered(c, frames, i), frames[i]) == Delivered(c, frames, i + 1)
  {
    hide Replies;
    var before := Replies(frames, i);
    if IsData(frames[i]) {
      OneDataFrame(c, frames, i);
    } else {
      assert Replies(frames, i + 1) ==
          before + (if frames[i].opcode == PING then [Pong(frames[i].payload)] else []) by {
        RepliesStep(frames, i);
      }
      assert c.out + (before + []) == c.out + before;
      assert frames[i].opcode == PING
          ==> c.out + (before + [Pong(frames[i].payload)]) == c.out + before + [Pong(frames[i].payload)];
    }
  }

  lemma RepliesStep(frames: seq<Frame>, i: nat)
    requires i < |frames|
    ensures Replies(frames, i + 1) == Replies(frames, i) +
            (if frames[i].opcode == PING then [Pong(frames[i].payload)]
             else if IsData(frames[i]) && frames[i].fin then [Answer(Text(frames, i))]
             else [])
  {
  }

  lemma OneDataFrame(c: Client, frames: seq<Frame>, i: nat)
    requires !c.closing && i < |frames| && IsData(frames[i]) && Allowed(frames, i)
    ensures ApplyData(Delivered(c, frames, i), frames[i]) == Delivered(c, frames, i + 1)
  {
    hide Replies;
    TextExtends(frames, i);
    RepliesStep(frames, i);
    var before, text := Replies(frames, i), Text(frames, i);
    assert c.out + (before + []) == c.out + before;
    assert c.out + (before + [Answer(text)]) == c.out + before + [Answer(text)];
  }

  // The text up to a data frame in sequence is what was open before it, and its payload.
  lemma TextExtends(frames: seq<Frame>, i: nat)
    requires i < |frames| && InSequence(frames, i)
    ensures Text(frames, i) == OpenText(frames, i) + frames[i].payload
    ensures MessageOpen(frames, i + 1) == !frames[i].fin
    ensures OpenText(frames, i + 1) == if frames[i].fin then [] else Text(frames, i)
  {
    assert [] + frames[i].payload == frames[i].payload;
  }

  lemma ForbiddenFrameCloses(c: Client, frames: seq<Frame>, i: nat)
    requires !c.closing && i < |frames| && KnownOpcode(frames[i].opcode) && !Allowed(frames, i)
    ensures ApplyFrame(Delivered(c, frames, i), frames[i]).closing
    ensures ApplyFrame(Delivered(c, frames, i), frames[i]).out == c.out + Replies(frames, i) + [ClosingReply(frames, i)]
  {
    hide Replies, Text, MessageOpen;
    if IsData(frames[i]) && InSequence(frames, i) {
      TextExtends(frames, i);
    }
  }

  // The first n frames leave the connection open if and only if they are all allowed. Then there was one
  // reply for every ping and one for every finished message, with its text joined, and nothing else.
  lemma {:induction false} OpenIffLegal(c: Client, frames: seq<Frame>, n: nat)
    requires Ready(c) && n <= |frames| && AllKnown(frames)
    ensures !Applied(c, frames, n).closing <==> Legal(frames, n)
    ensures Legal(frames, n) ==> Applied(c, frames, n) == Delivered(c, frames, n)
  {
    hide ApplyFrame, Delivered, Allowed;
    if n > 0 {
      OpenIffLegal(c, frames, n - 1);
      if Legal(frames, n) {
        LegalFramesDeliver(c, frames, n);
        DeliveredIsOpen(c, frames, n);
      } else if Legal(frames, n - 1) {
        LegalFramesDeliver(c, frames, n - 1);
        ForbiddenFrameCloses(c, frames, n - 1);
      }
    } else {
      LegalFramesDeliver(c, frames, 0);
    }
  }

  lemma DeliveredIsOpen(c: Client, frames: seq<Frame>, n: nat)
    requires n <= |frames|
    ensures Delivered(c, frames, n).closing == c.closing && Delivered(c, frames, n).input == c.input
    ensures Delivered(c, frames, n).out == c.out + Replies(frames, n)
  {
  }

  // The first frame that is not allowed closes the connection with the reply that fits it, and nothing
  // after it has an effect. In particular a bad continuation state always closes with code 1002.
  lemma {:induction false} ClosesAtFirstForbidden(c: Client, frames: seq<Frame>, i: nat, n: nat)
    requires Ready(c) && i < n <= |frames| && AllKnown(frames) && Legal(frames, i) && !Allowed(frames, i)
    ensures Applied(c, frames, n).closing
    ensures Applied(c, frames, n).out == c.out + Replies(frames, i) + [ClosingReply(frames, i)]
    decreases n
  {
    hide ApplyFrame, Delivered, Allowed, Replies, ClosingReply;
    if n == i + 1 {
      LegalFramesDeliver(c, frames, i);
      DeliveredIsOpen(c, frames, i);
      ForbiddenFrameCloses(c, frames, i);
    } else {
      ClosesAtFirstForbidden(c, frames, i, n - 1);
    }
  }

  // ---------- From bytes ----------

  predicate AllValid(es: seq<Encoding>) {
    forall i :: 0 <= i < |es| ==> ValidEncoding(es[i], 0x1_0000)
  }

  function FramesOf(es: seq<Encoding>): seq<Frame> {
    seq(|es|, i requires 0 <= i < |es| => es[i].frame)
  }

  function BytesOf(es: seq<Encoding>, n: nat): octets
    requires n <= |es| && AllValid(es)
  {
    if n == 0 then [] else BytesOf(es, n - 1) + ClientBytes(es[n - 1], 0x1_0000)
  }

  lemma OneEncodingHandled(c: Client, e: Encoding)
    requires c.websocket && !c.dead && !c.closing && c.input == [] && ValidEncoding(e, 0x1_0000)
    ensures Feed(c, ClientBytes(e, 0x1_0000)) == ApplyFrame(c, e.frame)
  {
    hide ClientBytes, ValidEncoding, ApplyFrame, ParseFrame;
    var bytes := ClientBytes(e, 0x1_0000);
    ClientFrameParses(e, 0x1_0000, []);
    assert bytes + [] == bytes && [] + bytes == bytes && bytes[|bytes|..] == [];
    var d := c.(input := bytes);
    assert d.(input := d.input[|bytes|..]) == c;
    AppliedKeepsInput(c, e.frame);
    NoInputNoFrame(ApplyFrame(c, e.frame));
  }

  lemma NoInputNoFrame(c: Client)
    requires c.input == []
    ensures HandleFrames(c) == c
  {
  }

  // However the client chose masking keys and length fields, the server acts on the frames they denote.
  lemma {:induction false} BytesAreFrames(c: Client, es: seq<Encoding>, n: nat)
    requires Ready(c) && n <= |es| && AllValid(es)
    ensures Same(Feed(c, BytesOf(es, n)), Applied(c, FramesOf(es), n))
    ensures Applied(c, FramesOf(es), n).input == [] && Applied(c, FramesOf(es), n).websocket
    ensures !Applied(c, FramesOf(es), n).dead
  {
    hide Feed, ApplyFrame, ClientBytes, ValidEncoding;
    if n == 0 {
      ReadyIsQuiescent(c);
      NothingArrives(c);
    } else {
      BytesAreFrames(c, es, n - 1);
      var d, bytes := Applied(c, FramesOf(es), n - 1), ClientBytes(es[n - 1], 0x1_0000);
      TwoChunksAreOne(c, BytesOf(es, n - 1), bytes);
      FeedingKeepsSame(Feed(c, BytesOf(es, n - 1)), d, bytes);
      SameIsTransitive(Feed(c, BytesOf(es, n)), Feed(Feed(c, BytesOf(es, n - 1)), bytes), Feed(d, bytes));
      if d.closing {
        ClosedIgnoresFeed(d, bytes);
      } else {
        OneEncodingHandled(d, es[n - 1]);
        AppliedKeepsInput(d, es[n - 1].frame);
      }
    }
  }

  lemma ReadyIsQuiescent(c: Client)
    requires Ready(c)
    ensures Quiescent(c)
  {
  }

  lemma ClosedIgnoresFeed(c: Client, x: octets)
    requires c.closing
    ensures Feed(c, x) == c
  {
  }

  // The main result: a client that sends frames in any valid encoding, cut into chunks anywhere, gets exactly
  // the replies its frames call for if they are all allowed; otherwise the replies up to the first frame
  // that is not, and the closing reply for that one.
  lemma StreamsAreAssembled(c: Client, es: seq<Encoding>, chunks: seq<octets>)
    requires Ready(c) && AllValid(es) && Stream(chunks) == BytesOf(es, |es|)
    ensures Legal(FramesOf(es), |es|) ==> FeedAll(c, chunks) == Delivered(c, FramesOf(es), |es|)
    ensures forall i {:trigger Allowed(FramesOf(es), i)} ::
      0 <= i < |es| && Legal(FramesOf(es), i) && !Allowed(FramesOf(es), i) ==>
      FeedAll(c, chunks).closing &&
      FeedAll(c, chunks).out == c.out + Replies(FramesOf(es), i) + [ClosingReply(FramesOf(es), i)]
  {
    hide Feed, FeedAll, Applied, Delivered, Allowed, ValidEncoding, BytesOf, Replies, ClosingReply, Quiescent;
    var frames := FramesOf(es);
    AllFramesKnown(es);
    ReadyIsQuiescent(c);
    ChunksAreStream(c, chunks);
    BytesAreFrames(c, es, |es|);
    SameIsTransitive(FeedAll(c, chunks), Feed(c, Stream(chunks)), Applied(c, frames, |es|));
    OpenIffLegal(c, frames, |es|);
    forall i | 0 <= i < |es| && Legal(frames, i) && !Allowed(frames, i)
      ensures FeedAll(c, chunks).closing
          && FeedAll(c, chunks).out == c.out + Replies(frames, i) + [ClosingReply(frames, i)]
    {
      ClosesAtFirstForbidden(c, frames, i, |es|);
    }
  }

  lemma AllFramesKnown(es: seq<Encoding>)
    requires AllValid(es)
    ensures AllKnown(FramesOf(es))
  {
  }

  // ---------- A whole session ----------

  // Bytes that write a request that asks for an upgrade and meets all conditions.
  ghost predicate UpgradeBytes(q: HttpRoundTrip.RawRequest, bytes: octets) {
    Handshake.Sends(q, bytes, "/ws") && Handshake.Accepts(q)
  }

  lemma UpgradeGreets(q: HttpRoundTrip.RawRequest, bytes: octets)
    requires UpgradeBytes(q, bytes)
    ensures Feed(NEW_CLIENT, bytes) == Greet(NEW_CLIENT, HttpRoundTrip.RequestOf(q))
  {
    hide HttpRoundTrip.RequestOf, UpgradeStatus, ParseFrame, Handshake.Sends, Handshake.Accepts, Feed;
    Handshake.RequestIsHandled(q, bytes, "/ws");
    Handshake.StatusIs(q);
    NoInputNoFrame(Greet(NEW_CLIENT, HttpRoundTrip.RequestOf(q)));
  }

  lemma GreetingIsReady(r: Http.HttpRequest)
    ensures Ready(Greet(NEW_CLIENT, r))
    ensures Greet(NEW_CLIENT, r).out ==
        [SwitchedProtocols(Http.HeaderValue(r.headers, "sec-websocket-key")), Hello, Snapshot]
  {
  }

  // A browser that upgrades and then sends frames that are all allowed, with the frames pipelined behind the
  // request or not and everything cut anywhere, gets the handshake, the two greetings and exactly the
  // replies its frames call for, and its connection stays open.
  lemma SessionIsAssembled(q: HttpRoundTrip.RawRequest, request: octets, es: seq<Encoding>, chunks: seq<octets>)
    requires UpgradeBytes(q, request) && AllValid(es) && Legal(FramesOf(es), |es|)
    requires Stream(chunks) == request + BytesOf(es, |es|)
    ensures var r := HttpRoundTrip.RequestOf(q);
      && FeedAll(NEW_CLIENT, chunks) == Delivered(Greet(NEW_CLIENT, r), FramesOf(es), |es|)
      && !FeedAll(NEW_CLIENT, chunks).closing
      && FeedAll(NEW_CLIENT, chunks).out ==
         [SwitchedProtocols(Http.HeaderValue(r.headers, "sec-websocket-key")), Hello, Snapshot]
           + Replies(FramesOf(es), |es|)
  {
    hide Feed, FeedAll, Stream, Applied, Delivered, Allowed, ValidEncoding, BytesOf, Replies, Quiescent,
      UpgradeBytes, Greet, Legal, AllKnown, AllValid, HttpRoundTrip.RequestOf;
    var r := HttpRoundTrip.RequestOf(q);
    var c, frames := Greet(NEW_CLIENT, r), FramesOf(es);
    NewIsQuiescent();
    ChunksAreStream(NEW_CLIENT, chunks);
    UpgradeGreets(q, request);
    GreetingIsReady(r);
    TwoChunksAreOne(NEW_CLIENT, request, BytesOf(es, |es|));
    BytesAreFrames(c, es, |es|);
    AllFramesKnown(es);
    OpenIffLegal(c, frames, |es|);
    DeliveredIsOpen(c, frames, |es|);
  }

  // ---------- Any bytes ----------

  // Any bytes are whole frames, with something behind them that is not.
  lemma {:induction false} StreamSplits(bytes: octets) returns (es: seq<Encoding>, tail: octets)
    ensures AllValid(es) && bytes == BytesOf(es, |es|) + tail && !ParseFrame(tail, 0x1_0000).Got?
    decreases |bytes|
  {
    hide ParseFrame, ClientBytes, ValidEncoding;
    if ParseFrame(bytes, 0x1_0000).Got? {
      var e := GotIsEncoded(bytes, 0x1_0000);
      var n := ParseFrame(bytes, 0x1_0000).consumed;
      var more;
      more, tail := StreamSplits(bytes[n..]);
      es := [e] + more;
      EncodingInFront(e, more, |more|);
      assert more[..|more|] == more;
      assert bytes == bytes[..n] + bytes[n..];
    } else {
      es, tail := [], bytes;
    }
  }

  lemma {:induction false} EncodingInFront(e: Encoding, more: seq<Encoding>, n: nat)
    requires ValidEncoding(e, 0x1_0000) && AllValid(more) && n <= |more|
    ensures AllValid([e] + more) && BytesOf([e] + more, n + 1) == ClientBytes(e, 0x1_0000) + BytesOf(more, n)
  {
    hide ClientBytes, ValidEncoding;
    var first := ClientBytes(e, 0x1_0000);
    if n == 0 {
      assert BytesOf([e] + more, 0) == [];
      assert [] + first == first + [];
    } else {
      EncodingInFront(e, more, n - 1);
      var last := ClientBytes(more[n - 1], 0x1_0000);
      assert ([e] + more)[n] == more[n - 1];
      assert first + BytesOf(more, n - 1) + last == first + (BytesOf(more, n - 1) + last);
    }
  }

  // What the bytes behind the last whole frame do to a connection that is still open: they wait, or they break it.
  function AfterTail(c: Client, tail: octets): Client {
    var r := ParseFrame(tail, 0x1_0000);
    if r.Broken? then
      var code := if r.error == PayloadTooBig then 1009 else 1002;
      c.(input := tail, out := c.out + [CloseWith(code, BadFrame(r.error))], closing := true)
    else c.(input := tail)
  }

  lemma TailHandled(c: Client, tail: octets)
    requires c.websocket && !c.dead && !c.closing && c.input == [] && !ParseFrame(tail, 0x1_0000).Got?
    ensures Feed(c, tail) == AfterTail(c, tail)
  {
    hide ParseFrame;
    assert [] + tail == tail;
  }

  // Whatever bytes arrive after the upgrade, cut anywhere: they are frames in valid encodings, and a tail that is
  // not one. If all frames are allowed, the replies are those they call for; then a tail that is broken, whatever
  // comes behind it, closes the connection with the code for its error, and any other tail waits. If a frame is
  // not allowed, the connection closes at the first such frame with the fitting reply, and nothing after it has
  // an effect.
  lemma AnyBytesAreAssembled(c: Client, chunks: seq<octets>) returns (es: seq<Encoding>, tail: octets)
    requires Ready(c)
    ensures AllValid(es) && Stream(chunks) == BytesOf(es, |es|) + tail && !ParseFrame(tail, 0x1_0000).Got?
    ensures Legal(FramesOf(es), |es|) ==>
      Same(FeedAll(c, chunks), AfterTail(Delivered(c, FramesOf(es), |es|), tail))
    ensures forall i {:trigger Allowed(FramesOf(es), i)} ::
      0 <= i < |es| && Legal(FramesOf(es), i) && !Allowed(FramesOf(es), i) ==>
      FeedAll(c, chunks).closing &&
      FeedAll(c, chunks).out == c.out + Replies(FramesOf(es), i) + [ClosingReply(FramesOf(es), i)]
  {
    hide Feed, FeedAll, Applied, Delivered, Allowed, ValidEncoding, BytesOf, Replies, ClosingReply, Quiescent,
      ParseFrame, AfterTail;
    es, tail := StreamSplits(Stream(chunks));
    var frames, bytes := FramesOf(es), BytesOf(es, |es|);
    var d := Applied(c, frames, |es|);
    AllFramesKnown(es);
    ReadyIsQuiescent(c);
    ChunksAreStream(c, chunks);
    BytesAreFrames(c, es, |es|);
    TwoChunksAreOne(c, bytes, tail);
    FeedingKeepsSame(Feed(c, bytes), d, tail);
    SameIsTransitive(Feed(c, bytes + tail), Feed(Feed(c, bytes), tail), Feed(d, tail));
    SameIsTransitive(FeedAll(c, chunks), Feed(c, bytes + tail), Feed(d, tail));
    OpenIffLegal(c, frames, |es|);
    if Legal(frames, |es|) {
      DeliveredIsOpen(c, frames, |es|);
      TailHandled(d, tail);
    } else {
      ClosedIgnoresFeed(d, tail);
    }
    forall i | 0 <= i < |es| && Legal(frames, i) && !Allowed(frames, i)
      ensures FeedAll(c, chunks).closing
          && FeedAll(c, chunks).out == c.out + Replies(frames, i) + [ClosingReply(frames, i)]
    {
      ClosesAtFirstForbidden(c, frames, i, |es|);
    }
  }

  // ---------- Bounds ----------

  // A connection that is not closing holds at most one partial message within the limit.
  predicate MessageBounded(c: Client) {
    c.closing || (|c.message| <= 0x1_0000 && (!c.inMessage ==> c.message == []))
  }

  lemma FrameKeepsBound(c: Client, f: Frame)
    requires !c.closing && MessageBounded(c)
    ensures MessageBounded(ApplyFrame(c, f))
  {
  }

  lemma {:induction false} FramesKeepBound(c: Client)
    requires MessageBounded(c)
    ensures MessageBounded(HandleFrames(c))
    decreases |c.input|
  {
    hide ParseFrame, ApplyFrame;
    if !c.dead && !c.closing {
      match ParseFrame(c.input, 0x1_0000)
      case Got(f, n) =>
        var rest := c.(input := c.input[n..]);
        AppliedKeepsInput(rest, f);
        FrameKeepsBound(rest, f);
        FramesKeepBound(ApplyFrame(rest, f));
      case _ =>
    }
  }

  lemma FeedKeepsBound(c: Client, x: octets)
    requires MessageBounded(c)
    ensures MessageBounded(Feed(c, x))
  {
    hide HandleFrames, Http.ParseHttp, UpgradeStatus;
    var d := AppendInput(c, x);
    FramesKeepBound(d);
    if !c.closing && !c.websocket {
      match Http.ParseHttp(d.input, MAX_HEADER_BYTES)
      case Request(r, n) => FramesKeepBound(Greet(d.(input := d.input[n..]), r));
      case _ =>
    }
  }

  lemma UnparsedIsShort(c: Client)
    requires Quiescent(c) && !c.closing && !c.dead
    ensures |c.input| < 0x1_0000 + 14
  {
  }

  // Whatever bytes arrive on a connection, cut anywhere, an open connection holds at most 64 KiB of a
  // partial message and less than 14 bytes more than that of input that is not a whole frame or request yet.
  lemma {:induction false} ConnectionMemoryIsBounded(chunks: seq<octets>)
    ensures MessageBounded(FeedAll(NEW_CLIENT, chunks))
    ensures Quiescent(FeedAll(NEW_CLIENT, chunks)) && !FeedAll(NEW_CLIENT, chunks).dead
    ensures !FeedAll(NEW_CLIENT, chunks).closing ==> |FeedAll(NEW_CLIENT, chunks).input| < 0x1_0000 + 14
    decreases |chunks|
  {
    hide Feed, Quiescent, MessageBounded;
    if chunks == [] {
      NewIsBounded();
    } else {
      var before := FeedAll(NEW_CLIENT, chunks[..|chunks| - 1]);
      ConnectionMemoryIsBounded(chunks[..|chunks| - 1]);
      FeedKeepsBound(before, chunks[|chunks| - 1]);
      FeedingQuiesces(before, chunks[|chunks| - 1]);
      if !FeedAll(NEW_CLIENT, chunks).closing { UnparsedIsShort(FeedAll(NEW_CLIENT, chunks)); }
    }
  }

  lemma NewIsBounded()
    ensures Quiescent(NEW_CLIENT) && MessageBounded(NEW_CLIENT)
  {
    NewIsQuiescent();
  }

  // ---------- Assets ----------

  // No request is answered with a file other than those embedded in the program.
  predicate OnlyAssets(out: seq<Reply>) {
    forall i :: 0 <= i < |out| && out[i].Asset? ==> out[i].name in ASSETS
  }

  lemma FrameSendsNoAsset(c: Client, f: Frame)
    requires OnlyAssets(c.out)
    ensures OnlyAssets(ApplyFrame(c, f).out)
  {
  }

  lemma {:induction false} FramesSendNoAsset(c: Client)
    requires OnlyAssets(c.out)
    ensures OnlyAssets(HandleFrames(c).out)
    decreases |c.input|
  {
    hide ParseFrame, ApplyFrame, OnlyAssets;
    if !c.dead && !c.closing {
      match ParseFrame(c.input, 0x1_0000)
      case NeedMore =>
      case Broken(e) => OneMoreReply(c.out, CloseWith(FailCode(e), BadFrame(e)));
      case Got(f, n) =>
        var rest := c.(input := c.input[n..]);
        AppliedKeepsInput(rest, f);
        FrameSendsNoAsset(rest, f);
        FramesSendNoAsset(ApplyFrame(rest, f));
    }
  }

  lemma OneMoreReply(out: seq<Reply>, r: Reply)
    requires OnlyAssets(out) && (r.Asset? ==> r.name in ASSETS)
    ensures OnlyAssets(out + [r])
  {
  }

  lemma PageIsAsset(path: string, headOnly: bool)
    ensures PageFor(path, headOnly).Asset? ==> PageFor(path, headOnly).name in ASSETS
  {
  }

  lemma RequestSendsAssets(c: Client, r: Http.HttpRequest)
    requires OnlyAssets(c.out)
    ensures OnlyAssets(Serve(c, r).out) && OnlyAssets(Upgrade(c, r).out)
  {
    hide HandleFrames, UpgradeStatus, PageFor, OnlyAssets;
    PageIsAsset(r.path, r.method_ == "HEAD");
    OneMoreReply(c.out, HttpStatus(405));
    OneMoreReply(c.out, PageFor(r.path, r.method_ == "HEAD"));
    OneMoreReply(c.out, HttpStatus(UpgradeStatus(r)));
    var key := SwitchedProtocols(Http.HeaderValue(r.headers, "sec-websocket-key"));
    OneMoreReply(c.out, key);
    OneMoreReply(c.out + [key], Hello);
    OneMoreReply(c.out + [key] + [Hello], Snapshot);
    FramesSendNoAsset(Greet(c, r));
  }

  lemma FeedSendsAssets(c: Client, x: octets)
    requires OnlyAssets(c.out)
    ensures OnlyAssets(Feed(c, x).out)
  {
    hide HandleFrames, Http.ParseHttp, Upgrade, Serve, OnlyAssets;
    var d := AppendInput(c, x);
    FramesSendNoAsset(d);
    if !c.closing && !c.websocket {
      match Http.ParseHttp(d.input, MAX_HEADER_BYTES)
      case NeedMore =>
      case Rejected(e) => OneMoreReply(d.out, HttpStatus(StatusOf(e)));
      case Request(r, n) => RequestSendsAssets(d.(input := d.input[n..]), r);
    }
  }

  // Whatever bytes arrive on a connection, the only files it is ever sent are those embedded in the program.
  lemma {:induction false} OnlyAssetsAreServed(chunks: seq<octets>)
    ensures OnlyAssets(FeedAll(NEW_CLIENT, chunks).out)
    decreases |chunks|
  {
    hide Feed;
    if chunks != [] {
      OnlyAssetsAreServed(chunks[..|chunks| - 1]);
      FeedSendsAssets(FeedAll(NEW_CLIENT, chunks[..|chunks| - 1]), chunks[|chunks| - 1]);
    }
  }
}
