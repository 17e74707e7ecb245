// What the control server does with the bytes of one client connection: HTTP, the WebSocket upgrade, frames
// and messages (tools/ctl/backend/control_server.cpp).
//
// What is sent back is a list of replies. Response bodies, the accept key, the JSON of snapshots and the
// answer to a message are not spelled out: a reply names what is sent and what it is made from.
module ControlModel {
  import opened WebSocket
  import Http
  import Text

  const MAX_HEADER_BYTES := 16 * 1024
  const MAX_WS_MESSAGE := 64 * 1024

  const CLOSE_PROTOCOL_ERROR := 1002
  const CLOSE_UNSUPPORTED_DATA := 1003
  const CLOSE_TOO_BIG := 1009

  datatype Reason = BadFrame(error: WsError) | BinaryMessage | UnexpectedContinuation | MessageTooLarge

  datatype Reply =
    | HttpStatus(status: nat)             // an error response, after which the connection closes
    | Statistics(headOnly: bool)                // the current statistics
    | Asset(name: string, headOnly: bool)       // a file of the browser interface
    | NotFound(headOnly: bool)
    | SwitchedProtocols(key: string)      // 101 with the accept key for this client key
    | Hello
    | Snapshot
    | Answer(text: octets)                // the command result for this message: handle_ws_message
    | Pong(payload: octets)
    | CloseEcho(payload: octets)
    | CloseWith(code: nat, reason: Reason)

  datatype Client = Client(
    websocket: bool,
    closing: bool,
    dead: bool,
    input: octets,
    out: seq<Reply>,
    message: octets,
    inMessage: bool)

  const NEW_CLIENT := Client(false, false, false, [], [], [], false)

  function Send(c: Client, r: Reply): Client {
    c.(out := c.out + [r])
  }

  function SendAndClose(c: Client, r: Reply): Client {
    c.(out := c.out + [r], closing := true)
  }

  // ---------- Frames ----------

  function FailCode(e: WsError): nat {
    if e == PayloadTooBig then CLOSE_TOO_BIG else CLOSE_PROTOCOL_ERROR
  }

  function WsFail(c: Client, code: nat, reason: Reason): Client {
    SendAndClose(c, CloseWith(code, reason))
  }

  // A text or continuation frame.
  function ApplyData(c: Client, f: Frame): Client {
    if (f.opcode == TEXT) == c.inMessage then WsFail(c, CLOSE_PROTOCOL_ERROR, UnexpectedContinuation)
    else
      var message := (if f.opcode == TEXT then [] else c.message) + f.payload;
      var extended := c.(message := message, inMessage := !f.fin);
      if |message| > MAX_WS_MESSAGE then WsFail(extended, CLOSE_TOO_BIG, MessageTooLarge)
      else if f.fin then Send(extended, Answer(message)).(message := [])
      else extended
  }

  function ApplyFrame(c: Client, f: Frame): Client {
    if f.opcode == PING then Send(c, Pong(f.payload))
    else if f.opcode == PONG then c
    else if f.opcode == CLOSE then SendAndClose(c, CloseEcho(if |f.payload| <= 2 then f.payload else f.payload[..2]))
    else if f.opcode == BINARY then WsFail(c, CLOSE_UNSUPPORTED_DATA, BinaryMessage)
    else if f.opcode == TEXT || f.opcode == CONTINUATION then ApplyData(c, f)
    else c
  }

  function HandleFrames(c: Client): Client
    decreases |c.input|
  {
    if c.dead || c.closing then c
    else
      match ParseFrame(c.input, MAX_WS_MESSAGE)
      case NeedMore => c
      case Broken(e) => WsFail(c, FailCode(e), BadFrame(e))
      case Got(f, n) =>
        AppliedKeepsInput(c.(input := c.input[n..]), f);
        HandleFrames(ApplyFrame(c.(input := c.input[n..]), f))
  }

  lemma AppliedKeepsInput(c: Client, f: Frame)
    ensures ApplyFrame(c, f).input == c.input && ApplyFrame(c, f).websocket == c.websocket
        && ApplyFrame(c, f).dead == c.dead
  {
  }

  // ---------- HTTP ----------

  function StatusOf(e: Http.HttpError): nat {
    if e == Http.TooLarge then 431 else 400
  }

  // Requests without an Origin header come from other programs than browsers and are allowed.
  predicate OriginAllowed(r: Http.HttpRequest) {
    !Http.HasHeader(r.headers, "origin") ||
    var origin := Http.HeaderValue(r.headers, "origin");
    var p := Http.Find(origin, "://", 0);
    p >= 0 && Text.ToLower(origin[p + 3..]) == Text.ToLower(Http.HeaderValue(r.headers, "host"))
  }

  // Why an upgrade is refused; 101 if it is not.
  function UpgradeStatus(r: Http.HttpRequest): nat {
    if r.method_ != "GET" then 405
    else if !Http.HasToken(Http.HeaderValue(r.headers, "upgrade"), "websocket") ||
            !Http.HasToken(Http.HeaderValue(r.headers, "connection"), "upgrade") then 426
    else if Http.HeaderValue(r.headers, "sec-websocket-version") != "13" then 426
    else if |Http.HeaderValue(r.headers, "sec-websocket-key")| != 24 then 400
    else if !OriginAllowed(r) then 403
    else 101
  }

  function Greet(c: Client, r: Http.HttpRequest): Client {
    c.(websocket := true,
       out := c.out + [SwitchedProtocols(Http.HeaderValue(r.headers, "sec-websocket-key"))] + [Hello] + [Snapshot])
  }

  function Upgrade(c: Client, r: Http.HttpRequest): Client {
    if UpgradeStatus(r) != 101 then SendAndClose(c, HttpStatus(UpgradeStatus(r)))
    else HandleFrames(Greet(c, r))
  }

  // The files that are embedded when the program is built (tools/ctl/CMakeLists.txt, tools/ctl/embed_assets.cmake).
  const ASSETS: seq<string> := ["/index.html", "/app.js", "/style.css"]

  function PageFor(path: string, headOnly: bool): Reply {
    var name := if path == "/" then "/index.html" else path;
    if path == "/api/stats" then Statistics(headOnly)
    else if name in ASSETS then Asset(name, headOnly)
    else NotFound(headOnly)
  }

  function Serve(c: Client, r: Http.HttpRequest): Client {
    if r.method_ != "GET" && r.method_ != "HEAD" then SendAndClose(c, HttpStatus(405))
    else SendAndClose(c, PageFor(r.path, r.method_ == "HEAD"))
  }

  function HandleHttp(c: Client): Client {
    match Http.ParseHttp(c.input, MAX_HEADER_BYTES)
    case NeedMore => c
    case Rejected(e) => SendAndClose(c, HttpStatus(StatusOf(e)))
    case Request(r, n) =>
      var rest := c.(input := c.input[n..]);
      if r.path == "/ws" then Upgrade(rest, r) else Serve(rest, r)
  }

  function Handle(c: Client): Client {
    if c.closing then c else if c.websocket then HandleFrames(c) else HandleHttp(c)
  }

  // ---------- Reading ----------

  datatype RecvResult = Data(chunk: octets) | EndOfStream | WouldBlock | RecvInterrupted | RecvError

  // Anything a client sends after the server decided to close is ignored.
  function AppendInput(c: Client, chunk: octets): Client {
    if c.closing then c else c.(input := c.input + chunk)
  }

  // One readable event: receive until there is no more, then handle what has arrived. If the client
  // closes its side in the same event, what it sent just before is not handled.
  function ReadClient(c: Client, results: seq<RecvResult>): Client
    decreases |results|
  {
    if results == [] then Handle(c)
    else
      match results[0]
      case Data(chunk) => ReadClient(AppendInput(c, chunk), results[1..])
      case EndOfStream => c.(dead := true)
      case RecvInterrupted => ReadClient(c, results[1..])
      case WouldBlock => Handle(c)
      case RecvError => Handle(c.(dead := true))
  }

  // One event in which chunk arrives.
  function Feed(c: Client, chunk: octets): Client {
    Handle(AppendInput(c, chunk))
  }
}
