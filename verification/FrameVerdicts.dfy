// When the frame parser waits, when it gives up, and with which close code the connection ends, in numbers
// (tools/ctl/backend/websocket.cpp:93-158, tools/ctl/backend/control_server.cpp:363-411, RFC 6455 sections 5.2 to 5.5
// and 7.4.1).
module FrameVerdicts {
  import opened ByteOrder
  import opened WebSocket
  import opened ControlModel

  // The first two bytes may begin a frame: no reserved bit, a known opcode, and the mask bit.
  predicate MayBegin(b0: nat, b1: nat) {
    b0 / 16 % 8 == 0 && b0 % 16 in {0, 1, 2, 8, 9, 10} && b1 >= 128
  }

  // How many more bytes give the length.
  function Extension(b1: nat): nat {
    if b1 % 128 == 126 then 2 else if b1 % 128 == 127 then 8 else 0
  }

  // The length announced, if its bytes are all there.
  function Announced(buf: octets): nat
    requires |buf| >= 2 && |buf| >= 2 + Extension(buf[1] as int)
  {
    var ext := Extension(buf[1] as int);
    if ext == 0 then buf[1] as int % 128 else BigEndian(buf[2..2 + ext])
  }

  // A frame of this length may have this first byte: control frames are whole and hold at most 125 bytes.
  predicate MayHold(b0: nat, n: nat, maxPayload: nat) {
    n <= maxPayload && (b0 % 16 >= 8 ==> b0 >= 128 && n <= 125)
  }

  // For any bytes: a frame is read as soon as its last byte is there; the parser waits as long as the bytes may begin
  // one; and it gives up on the first two bytes, or on the length, as soon as they rule that out. A length beyond the
  // limit is told apart from every other error.
  lemma VerdictInBytes(buf: octets, maxPayload: nat)
    ensures |buf| < 2 ==> ParseFrame(buf, maxPayload) == NeedMore
    ensures |buf| >= 2 && !MayBegin(buf[0] as int, buf[1] as int) ==>
      var r := ParseFrame(buf, maxPayload); r.Broken? && r.error in {ReservedBits, UnknownOpcode, NotMasked}
    ensures |buf| >= 2 && MayBegin(buf[0] as int, buf[1] as int) && |buf| < 2 + Extension(buf[1] as int) ==>
      ParseFrame(buf, maxPayload) == NeedMore
    ensures |buf| >= 2 && MayBegin(buf[0] as int, buf[1] as int) && |buf| >= 2 + Extension(buf[1] as int) ==>
      var r, b0, n := ParseFrame(buf, maxPayload), buf[0] as int, Announced(buf);
      var whole := 2 + Extension(buf[1] as int) + 4 + n;
      && (r.Broken? <==> !MayHold(b0, n, maxPayload))
      && (r.Broken? ==> r.error == if b0 % 16 >= 8 && (b0 < 128 || n > 125) then BadControlFrame else PayloadTooBig)
      && (MayHold(b0, n, maxPayload) && |buf| < whole ==> r == NeedMore)
      && (MayHold(b0, n, maxPayload) && |buf| >= whole ==>
            r.Got? && r.consumed == whole && r.frame.fin == (b0 >= 128) && r.frame.opcode == b0 % 16)
  {
    hide Mask, BigEndian;
  }

  // Of the errors in the first two bytes, the first one is told.
  lemma FirstErrorIsTold(buf: octets, maxPayload: nat)
    requires |buf| >= 2 && !MayBegin(buf[0] as int, buf[1] as int)
    ensures var r, b0 := ParseFrame(buf, maxPayload), buf[0] as int;
      && (b0 / 16 % 8 != 0 <==> r == Broken(ReservedBits))
      && (b0 / 16 % 8 == 0 && b0 % 16 !in {0, 1, 2, 8, 9, 10} <==> r == Broken(UnknownOpcode))
  {
    hide Mask, BigEndian;
  }

  // What is broken stays broken, and what waits with its length known can still become a frame.
  lemma WaitingIsHonest(buf: octets, maxPayload: nat) returns (more: octets)
    requires |buf| >= 2 && |buf| >= 2 + Extension(buf[1] as int) && ParseFrame(buf, maxPayload) == NeedMore
    ensures ParseFrame(buf + more, maxPayload).Got?
  {
    hide ParseFrame, BigEndian;
    VerdictInBytes(buf, maxPayload);
    var ext := Extension(buf[1] as int);
    more := seq(4 + Announced(buf), _ => 0 as char);
    assert (buf + more)[0] == buf[0] && (buf + more)[1] == buf[1] && (buf + more)[2..2 + ext] == buf[2..2 + ext];
    VerdictInBytes(buf + more, maxPayload);
  }

  lemma BrokenIsHopeless(buf: octets, more: octets, maxPayload: nat)
    requires ParseFrame(buf, maxPayload).Broken?
    ensures !ParseFrame(buf + more, maxPayload).Got?
  {
    hide ParseFrame;
    FrameVerdictIsStable(buf, more, maxPayload);
  }

  // What each kind of frame does, by its opcode.
  lemma FramesAct(c: Client, f: Frame)
    requires !c.closing
    ensures f.opcode == 9 ==> ApplyFrame(c, f) == c.(out := c.out + [Pong(f.payload)])
    ensures f.opcode == 10 ==> ApplyFrame(c, f) == c
    ensures f.opcode == 8 ==>
              var code := f.payload[..if |f.payload| < 2 then |f.payload| else 2];
              ApplyFrame(c, f) == c.(out := c.out + [CloseEcho(code)], closing := true)
    ensures f.opcode == 2 ==>
              ApplyFrame(c, f) == c.(out := c.out + [CloseWith(1003, BinaryMessage)], closing := true)
    ensures (f.opcode == 1 && c.inMessage) || (f.opcode == 0 && !c.inMessage) ==>
              ApplyFrame(c, f) == c.(out := c.out + [CloseWith(1002, UnexpectedContinuation)], closing := true)
    ensures (f.opcode == 1 && !c.inMessage) || (f.opcode == 0 && c.inMessage) ==>
              var text := (if f.opcode == 1 then [] else c.message) + f.payload;
              var d := ApplyFrame(c, f);
              && d.inMessage == !f.fin
              && (|text| > 65536 ==> d.closing && d.out == c.out + [CloseWith(1009, MessageTooLarge)])
              && (|text| <= 65536 && f.fin ==> !d.closing && d.out == c.out + [Answer(text)] && d.message == [])
              && (|text| <= 65536 && !f.fin ==> !d.closing && d.out == c.out && d.message == text)
  {
    assert |f.payload| <= 2 ==> f.payload[..|f.payload|] == f.payload;
  }

  // A frame that is broken closes the connection: with 1009 if it announces more than 64 KiB, and with 1002 otherwise.
  lemma BrokenCloses(c: Client)
    requires !c.closing && !c.dead && ParseFrame(c.input, 65536).Broken?
    ensures var e := ParseFrame(c.input, 65536).error;
      HandleFrames(c) ==
      c.(out := c.out + [CloseWith(if e == PayloadTooBig then 1009 else 1002, BadFrame(e))], closing := true)
  {
    hide ParseFrame;
  }
}
