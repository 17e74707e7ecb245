// The per-client part of the control server (tools/ctl/backend/control_server.hpp,
// tools/ctl/backend/control_server.cpp).
module Control {
  import opened WebSocket
  import opened ControlModel
  import Http

  class Connection {
    var websocket: bool
    var closing: bool
    var dead: bool
    var input: octets
    var out: seq<Reply>
    var message: octets
    var inMessage: bool

    constructor ()
      ensures View() == NEW_CLIENT
    {
      websocket, closing, dead, input, out, message, inMessage := false, false, false, [], [], [], false;
    }

    function View(): Client
      reads this
    {
      Client(websocket, closing, dead, input, out, message, inMessage)
    }

    method Fail(code: nat, reason: Reason)
      modifies `out, `closing
      ensures View() == WsFail(old(View()), code, reason)
    {
      out := out + [CloseWith(code, reason)];
      closing := true;
    }

    method HandleWsFrames()
      modifies this
      ensures View() == HandleFrames(old(View()))
    {
      hide ParseFrame;
      while !dead && !closing
        invariant HandleFrames(View()) == HandleFrames(old(View()))
        decreases |input|
      {
        var r := WsParseFrame(input, MAX_WS_MESSAGE);
        match r
        case NeedMore => return;
        case Broken(e) =>
          Fail(if e == PayloadTooBig then CLOSE_TOO_BIG else CLOSE_PROTOCOL_ERROR, BadFrame(e));
          return;
        case Got(f, consumed) =>
          input := input[consumed..];
          HandleFrame(f);
      }
    }

    // The switch of handle_ws_frames.
    method HandleFrame(f: Frame)
      modifies this
      ensures View() == ApplyFrame(old(View()), f)
      ensures input == old(input)
    {
      if f.opcode == PING {
        out := out + [Pong(f.payload)];
      } else if f.opcode == PONG {
      } else if f.opcode == CLOSE {
        out := out + [CloseEcho(if |f.payload| <= 2 then f.payload else f.payload[..2])];
        closing := true;
      } else if f.opcode == BINARY {
        Fail(CLOSE_UNSUPPORTED_DATA, BinaryMessage);
      } else if f.opcode == TEXT || f.opcode == CONTINUATION {
        if (f.opcode == TEXT) == inMessage {
          Fail(CLOSE_PROTOCOL_ERROR, UnexpectedContinuation);
          return;
        }
        if f.opcode == TEXT { message := []; }
        message := message + f.payload;
        inMessage := !f.fin;
        if |message| > MAX_WS_MESSAGE {
          Fail(CLOSE_TOO_BIG, MessageTooLarge);
          return;
        }
        if f.fin {
          out := out + [Answer(message)];
          message := [];
        }
      }
    }

    method UpgradeWebsocket(r: Http.HttpRequest)
      modifies this
      ensures View() == Upgrade(old(View()), r)
    {
      hide HandleFrames;
      var status := UpgradeStatus(r);
      if status != 101 {
        out := out + [HttpStatus(status)];
        closing := true;
        return;
      }
      out := out + [SwitchedProtocols(Http.HeaderValue(r.headers, "sec-websocket-key"))];
      websocket := true;
      out := out + [Hello];
      out := out + [Snapshot];
      if input != [] {
        HandleWsFrames();
      } else {
        NothingToHandle(View());
      }
    }

    method ServeHttp(r: Http.HttpRequest)
      modifies this
      ensures View() == Serve(old(View()), r)
    {
      closing := true;
      var headOnly := r.method_ == "HEAD";
      if r.method_ != "GET" && !headOnly {
        out := out + [HttpStatus(405)];
        return;
      }
      if r.path == "/api/stats" {
        out := out + [Statistics(headOnly)];
        return;
      }
      var name := if r.path == "/" then "/index.html" else r.path;
      var found := LoadAsset(name);
      if !found {
        out := out + [NotFound(headOnly)];
        return;
      }
      out := out + [Asset(name, headOnly)];
    }

    // Looks for a file among the embedded ones; what is in it is not modelled.
    method LoadAsset(path: string) returns (found: bool)
      ensures found <==> path in ASSETS
    {
      for i := 0 to |ASSETS|
        invariant path !in ASSETS[..i]
      {
        if ASSETS[i] == path { return true; }
      }
      return false;
    }

    method HandleHttpRequest()
      modifies this
      ensures View() == HandleHttp(old(View()))
    {
      hide Http.ParseHttp, Upgrade;
      var r := Http.ParseHttpRequest(input, MAX_HEADER_BYTES);
      match r
      case NeedMore => return;
      case Rejected(e) =>
        out := out + [HttpStatus(if e == Http.TooLarge then 431 else 400)];
        closing := true;
      case Request(request, consumed) =>
        input := input[consumed..];
        if request.path == "/ws" { UpgradeWebsocket(request); } else { ServeHttp(request); }
    }

    // One readable event; results is what recv returns, call by call.
    method ReadEvent(results: seq<RecvResult>)
      modifies this
      ensures View() == ReadClient(old(View()), results)
    {
      hide HandleFrames, HandleHttp;
      var i := 0;
      while i < |results|
        invariant 0 <= i <= |results|
        invariant ReadClient(View(), results[i..]) == ReadClient(old(View()), results)
        decreases |results| - i
      {
        assert results[i..][1..] == results[i + 1..];
        match results[i] {
          case Data(chunk) =>
            if !closing { input := input + chunk; }
          case EndOfStream =>
            dead := true;
            return;
          case RecvInterrupted =>
          case WouldBlock => break;
          case RecvError =>
            dead := true;
            break;
        }
        i := i + 1;
      }
      if closing { return; }
      if websocket { HandleWsFrames(); } else { HandleHttpRequest(); }
    }
  }

  lemma NothingToHandle(c: Client)
    requires c.input == []
    ensures HandleFrames(c) == c
  {
  }
}
