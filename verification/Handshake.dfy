// Which requests are upgraded and how the others are answered, in terms of the headers the client wrote
// (tools/ctl/backend/control_server.cpp:274-361, RFC 6455 section 4.2.1).
module Handshake {
  import opened Text
  import opened Http
  import opened HttpRoundTrip
  import opened HttpDerivation
  import opened WebSocket
  import opened ControlModel

  // ---------- What the client wrote ----------

  predicate IsNamed(h: RawHeader, name: string) {
    ToLower(h.name) == name
  }

  predicate NoneNamed(q: RawRequest, name: string) {
    forall i :: 0 <= i < |q.headers| ==> !IsNamed(q.headers[i], name)
  }

  // The value of the first header with this lower-case name is v, blanks around it aside; or there is none and v is
  // empty.
  predicate Says(q: RawRequest, name: string, v: string) {
    (NoneNamed(q, name) && v == "") ||
    exists i :: 0 <= i < |q.headers| && IsNamed(q.headers[i], name) && Trim(q.headers[i].value) == v &&
      forall j :: 0 <= j < i ==> !IsNamed(q.headers[j], name)
  }

  // One of the parts of that value between commas is the token.
  ghost predicate SaysToken(q: RawRequest, name: string, token: string) {
    exists v, a, b :: Says(q, name, v) && PartIs(v, a, b, token)
  }

  // The part of an origin behind the first "://" is the host.
  predicate IsOriginOf(origin: string, host: string) {
    exists p :: 0 <= p <= |origin| - 3 && OccursAt(origin, "://", p) && NoneBetween(origin, "://", 0, p) &&
      ToLower(origin[p + 3..]) == ToLower(host)
  }

  ghost predicate OriginMatches(q: RawRequest) {
    NoneNamed(q, "origin") || exists o, h :: Says(q, "origin", o) && Says(q, "host", h) && IsOriginOf(o, h)
  }

  // The target up to a question mark is path.
  predicate IsFor(q: RawRequest, path: string) {
    q.target == path || path + "?" <= q.target
  }

  ghost predicate KeyHas24(q: RawRequest) {
    exists v :: Says(q, "sec-websocket-key", v) && |v| == 24
  }

  ghost predicate Accepts(q: RawRequest) {
    && q.method_ == "GET" && SaysToken(q, "upgrade", "websocket") && SaysToken(q, "connection", "upgrade")
    && Says(q, "sec-websocket-version", "13") && KeyHas24(q) && OriginMatches(q)
  }

  // The status for the first condition that is not met.
  ghost function Refusal(q: RawRequest): nat {
    if q.method_ != "GET" then 405
    else if !SaysToken(q, "upgrade", "websocket") || !SaysToken(q, "connection", "upgrade") then 426
    else if !Says(q, "sec-websocket-version", "13") then 426
    else if !KeyHas24(q) then 400
    else 403
  }

  // ---------- What the server finds ----------

  lemma {:induction false} ValueIsSaid(q: RawRequest, name: string, n: nat)
    requires n <= |q.headers| && forall j :: 0 <= j < n ==> !IsNamed(q.headers[j], name)
    ensures Says(q, name, HeaderValue(MeaningsOf(q.headers[n..]), name))
    decreases |q.headers| - n
  {
    hide ToLower, Trim;
    if n < |q.headers| {
      assert MeaningsOf(q.headers[n..])[0] == MeaningOf(q.headers[n]);
      assert MeaningsOf(q.headers[n..])[1..] == MeaningsOf(q.headers[n + 1..]);
      if !IsNamed(q.headers[n], name) { ValueIsSaid(q, name, n + 1); }
    }
  }

  lemma OneValue(q: RawRequest, name: string, v: string, w: string)
    requires Says(q, name, v) && Says(q, name, w)
    ensures v == w
  {
    hide IsNamed;
  }

  function ValueOf(q: RawRequest, name: string): string {
    HeaderValue(MeaningsOf(q.headers), name)
  }

  // The value the server looks up is the one the client wrote.
  lemma SaysIff(q: RawRequest, name: string, v: string)
    ensures Says(q, name, v) <==> v == ValueOf(q, name)
  {
    hide Says, HeaderValue, MeaningsOf;
    ValueIsSaid(q, name, 0);
    assert q.headers[0..] == q.headers;
    if Says(q, name, v) { OneValue(q, name, v, ValueOf(q, name)); }
  }

  lemma TokenIff(q: RawRequest, name: string, token: string)
    ensures SaysToken(q, name, ToLower(token)) <==> HasToken(ValueOf(q, name), token)
  {
    hide Says, HasToken, PartIs, ToLower;
    var v := ValueOf(q, name);
    SaysIff(q, name, v);
    HasTokenIff(v, token);
    if SaysToken(q, name, ToLower(token)) {
      var w, a, b :| Says(q, name, w) && PartIs(w, a, b, ToLower(token));
      SaysIff(q, name, w);
    }
  }

  lemma NamedIff(q: RawRequest, name: string)
    ensures HasHeader(MeaningsOf(q.headers), name) <==> !NoneNamed(q, name)
  {
    hide ToLower, Trim;
    var hs := MeaningsOf(q.headers);
    forall i | 0 <= i < |q.headers|
      ensures hs[i].name == name <==> IsNamed(q.headers[i], name)
    {
    }
  }

  lemma OriginIff(q: RawRequest)
    ensures OriginAllowed(RequestOf(q)) <==> OriginMatches(q)
  {
    hide Says, NoneNamed, ToLower, HeaderValue, MeaningsOf, Find, NoneBetween;
    NamedIff(q, "origin");
    var origin, host := ValueOf(q, "origin"), ValueOf(q, "host");
    SaysIff(q, "origin", origin);
    SaysIff(q, "host", host);
    SchemeEnds(origin, host);
    forall o, h | Says(q, "origin", o) && Says(q, "host", h)
      ensures o == origin && h == host
    {
      SaysIff(q, "origin", o);
      SaysIff(q, "host", h);
    }
  }

  lemma SchemeEnds(origin: string, host: string)
    ensures IsOriginOf(origin, host) <==>
      Find(origin, "://", 0) >= 0 && ToLower(origin[Find(origin, "://", 0) + 3..]) == ToLower(host)
  {
    hide ToLower;
    var f := Find(origin, "://", 0);
    FindsTheFirst(origin, "://", 0);
    if f >= 0 { assert OccursAt(origin, "://", f); }
    if p :| 0 <= p <= |origin| - 3 && OccursAt(origin, "://", p) && NoneBetween(origin, "://", 0, p) &&
            ToLower(origin[p + 3..]) == ToLower(host) {
      FindSkips(origin, "://", 0, p);
      FindHere(origin, "://", p);
    }
  }

  lemma LowerTokens()
    ensures ToLower("websocket") == "websocket" && ToLower("upgrade") == "upgrade"
  {
  }

  // The server accepts exactly the requests that meet all conditions, and otherwise answers with the status for the
  // first that is not met.
  lemma StatusIs(q: RawRequest)
    ensures UpgradeStatus(RequestOf(q)) == if Accepts(q) then 101 else Refusal(q)
  {
    hide Says, SaysToken, HasToken, ToLower, HeaderValue, MeaningsOf, OriginAllowed, OriginMatches;
    LowerTokens();
    TokenIff(q, "upgrade", "websocket");
    TokenIff(q, "connection", "upgrade");
    SaysIff(q, "sec-websocket-version", "13");
    SaysIff(q, "sec-websocket-key", ValueOf(q, "sec-websocket-key"));
    forall v | Says(q, "sec-websocket-key", v)
      ensures v == ValueOf(q, "sec-websocket-key")
    {
      SaysIff(q, "sec-websocket-key", v);
    }
    OriginIff(q);
  }

  lemma PathIs(q: RawRequest, path: string)
    requires Without(path, '?')
    ensures RequestOf(q).path == path <==> IsFor(q, path)
  {
    hide MeaningsOf, Find;
    var mark := Find(q.target, "?", 0);
    if path + "?" <= q.target {
      assert q.target[..|path|] == path == q.target[0..|path|] && q.target[|path|] == (path + "?")[|path|];
      FindsChar(q.target, '?', 0, |path|);
    } else if q.target == path {
      assert q.target[0..] == q.target;
      FindsNoChar(q.target, '?', 0);
    } else if mark >= 0 {
      assert q.target[mark..mark + 1] == "?";
      assert q.target[..mark + 1] == q.target[..mark] + "?";
    } else {
      assert q.target[0..] == q.target;
    }
  }

  // ---------- From bytes ----------

  // A new connection that is sent a whole request for path, and nothing behind it.
  predicate Sends(q: RawRequest, bytes: octets, path: string) {
    ValidRequest(q) && bytes == RequestBytes(q) && |bytes| <= 16384 && IsFor(q, path)
  }

  lemma RequestIsHandled(q: RawRequest, bytes: octets, path: string)
    requires Sends(q, bytes, path) && Without(path, '?')
    ensures RequestOf(q).path == path
    ensures Feed(NEW_CLIENT, bytes) ==
            if path == "/ws" then Upgrade(NEW_CLIENT, RequestOf(q)) else Serve(NEW_CLIENT, RequestOf(q))
  {
    hide ParseHttp, RequestBytes, ValidRequest, RequestOf, UpgradeStatus, ParseFrame, Upgrade, Serve, IsFor;
    PathIs(q, path);
    RequestParses(q, [], 16384);
    assert bytes + [] == bytes && [] + bytes == bytes && bytes[|bytes|..] == [];
  }

  // A request for /ws is upgraded if and only if it meets all conditions: the answer is the handshake for the key the
  // client wrote, and two greetings. Otherwise it is refused with the status of the first condition that is not met,
  // and the connection closes.
  lemma UpgradedIff(q: RawRequest, bytes: octets)
    requires Sends(q, bytes, "/ws")
    ensures var c := Feed(NEW_CLIENT, bytes);
      && (c.websocket <==> Accepts(q)) && (c.closing <==> !Accepts(q))
      && (Accepts(q) ==>
            exists key :: Says(q, "sec-websocket-key", key) && c.out == [SwitchedProtocols(key), Hello, Snapshot])
      && (!Accepts(q) ==> c.out == [HttpStatus(Refusal(q))])
  {
    hide Says, Accepts, Refusal, UpgradeStatus, RequestBytes, ValidRequest, ParseFrame, Feed, HeaderValue, IsFor, Sends,
      Cut;
    RequestIsHandled(q, bytes, "/ws");
    StatusIs(q);
    SaysIff(q, "sec-websocket-key", ValueOf(q, "sec-websocket-key"));
    RefusalIsNo101(q);
    assert RequestOf(q).headers == MeaningsOf(q.headers);
    NothingBehind(Greet(NEW_CLIENT, RequestOf(q)));
  }

  lemma NothingBehind(c: Client)
    requires c.input == []
    ensures HandleFrames(c) == c
  {
  }

  lemma RefusalIsNo101(q: RawRequest)
    ensures Refusal(q) != 101
  {
  }

  // ---------- Other requests ----------

  predicate IsRead(q: RawRequest) {
    q.method_ == "GET" || q.method_ == "HEAD"
  }

  // Any other request is answered once, without a body for HEAD, and the connection closes: the page for "/", a file of
  // the interface, the statistics, 404 for every other path and 405 for every other method.
  lemma Answered(q: RawRequest, bytes: octets, path: string)
    requires Sends(q, bytes, path) && Without(path, '?') && path != "/ws"
    ensures var c, head := Feed(NEW_CLIENT, bytes), q.method_ == "HEAD";
      && c.closing && !c.websocket && |c.out| == 1
      && (!IsRead(q) ==> c.out == [HttpStatus(405)])
      && (IsRead(q) && path == "/api/stats" ==> c.out == [Statistics(head)])
      && (IsRead(q) && path == "/" ==> c.out == [Asset("/index.html", head)])
      && (IsRead(q) && path in {"/index.html", "/app.js", "/style.css"} ==> c.out == [Asset(path, head)])
      && (IsRead(q) && path !in {"/api/stats", "/", "/index.html", "/app.js", "/style.css"} ==>
            c.out == [NotFound(head)])
  {
    hide RequestBytes, ValidRequest, Feed, IsFor, MeaningsOf, Cut;
    RequestIsHandled(q, bytes, path);
  }

  // ---------- What is no request ----------

  // Until the blank line arrives the connection waits, as long as 16 KiB are enough; a header beyond that is refused
  // with 431 and a malformed one with 400, and the connection closes.
  lemma RefusedInBytes(bytes: octets)
    ensures var c, r := Feed(NEW_CLIENT, bytes), ParseHttp(bytes, 16384);
      && (r.NeedMore? <==> |bytes| <= 16384 && forall k: nat :: !BlankAt(bytes, k))
      && (r.NeedMore? ==> c == NEW_CLIENT.(input := bytes))
      && (r == Rejected(TooLarge) ==> c.out == [HttpStatus(431)] && c.closing)
      && (r.Rejected? && r != Rejected(TooLarge) ==> c.out == [HttpStatus(400)] && c.closing)
      && (r.Request? ==> exists q :: ValidRequest(q) && RequestBytes(q) <= bytes && |RequestBytes(q)| <= 16384)
  {
    hide ParseHttp, BlankAt, ValidRequest, RequestBytes, Upgrade, Serve;
    HttpDerivation.VerdictInBytes(bytes, 16384);
    assert [] + bytes == bytes;
    if ParseHttp(bytes, 16384).Request? {
      var q := RequestDerives(bytes, 16384);
    }
  }

  // ---------- A browser ----------

  // What a browser sends to upgrade, for any host and any key of 24 characters.
  function Browser(host: string, key: string): RawRequest {
    RawRequest("GET", "/ws", "HTTP/1.1",
               [RawHeader("Host", host), RawHeader("Upgrade", "websocket"), RawHeader("Connection", "Upgrade"),
                RawHeader("Sec-WebSocket-Version", "13"), RawHeader("Sec-WebSocket-Key", key)])
  }

  lemma LowerNames()
    ensures ToLower("Host") == "host" && ToLower("Upgrade") == "upgrade" && ToLower("Connection") == "connection"
    ensures ToLower("Sec-WebSocket-Version") == "sec-websocket-version"
    ensures ToLower("Sec-WebSocket-Key") == "sec-websocket-key"
  {
  }

  lemma TightValues(key: string)
    requires IsTight(key)
    ensures Trim("websocket") == "websocket" && Trim("Upgrade") == "Upgrade" && Trim("13") == "13" && Trim(key) == key
  {
    hide Trim;
    TrimTakesBlanks("", "websocket", "");
    TrimTakesBlanks("", "Upgrade", "");
    TrimTakesBlanks("", "13", "");
    TrimTakesBlanks("", key, "");
    assert "" + "websocket" + "" == "websocket" && "" + "Upgrade" + "" == "Upgrade" && "" + "13" + "" == "13";
    assert "" + key + "" == key;
  }

  lemma BrowserIsAccepted(host: string, key: string)
    requires IsTight(key) && |key| == 24
    ensures IsFor(Browser(host, key), "/ws") && Accepts(Browser(host, key))
  {
    hide ToLower, Trim;
    var q := Browser(host, key);
    LowerNames();
    LowerTokens();
    TightValues(key);
    BrowserSays(host, key);
    assert IsPart("websocket", 0, 9) && "websocket"[0..9] == "websocket";
    assert PartIs("websocket", 0, 9, "websocket");
    assert IsPart("Upgrade", 0, 7) && "Upgrade"[0..7] == "Upgrade";
    assert PartIs("Upgrade", 0, 7, "upgrade");
  }

  lemma BrowserSays(host: string, key: string)
    requires IsTight(key)
    ensures var q := Browser(host, key);
      && Says(q, "upgrade", "websocket") && Says(q, "connection", "Upgrade") && Says(q, "sec-websocket-version", "13")
      && Says(q, "sec-websocket-key", key) && NoneNamed(q, "origin")
  {
    hide ToLower, Trim;
    var q := Browser(host, key);
    LowerNames();
    TightValues(key);
    assert IsNamed(q.headers[1], "upgrade") && IsNamed(q.headers[2], "connection");
    assert IsNamed(q.headers[3], "sec-websocket-version") && IsNamed(q.headers[4], "sec-websocket-key");
  }
}
