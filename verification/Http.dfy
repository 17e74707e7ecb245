// HTTP request headers (tools/ctl/backend/http.cpp, tools/ctl/backend/http.hpp).
module Http {
  import opened Text

  const CRLF := "\r\n"
  const BLANK_LINE := "\r\n\r\n"

  datatype Header = Header(name: string, value: string)

  // Names are lower-cased; the path is the target without its query string.
  datatype HttpRequest = HttpRequest(method_: string, target: string, path: string, version: string,
                                     headers: seq<Header>)

  datatype HttpError = TooLarge | MalformedRequestLine | MalformedHeaderLine

  datatype HttpResult = NeedMore | Request(request: HttpRequest, consumed: nat) | Rejected(error: HttpError)

  // ---------- std::string operations ----------

  // The first position from which pat occurs in s, at or after from; -1 if there is none.
  function Find(s: string, pat: string, from: nat): (r: int)
    ensures r == -1 || from <= r
    ensures r >= 0 ==> r + |pat| <= |s| && s[r..r + |pat|] == pat
    decreases |s| - from
  {
    if from + |pat| > |s| || from >= |s| then -1
    else if s[from..from + |pat|] == pat then from
    else Find(s, pat, from + 1)
  }

  // The substring from a to b, or to the end if b is -1.
  function Cut(s: string, a: nat, b: int): string
    requires a <= |s| && (b == -1 || a <= b <= |s|)
  {
    if b == -1 then s[a..] else s[a..b]
  }

  // ---------- The request line ----------

  datatype Line = GoodLine(request: HttpRequest) | BadLine

  function ParseRequestLine(line: string): Line {
    var sp1 := Find(line, " ", 0);
    var sp2 := if sp1 == -1 then -1 else Find(line, " ", sp1 + 1);
    if sp1 == -1 || sp2 == -1 || Find(line, " ", sp2 + 1) != -1 then BadLine
    else
      var method_, target, version := line[..sp1], line[sp1 + 1..sp2], line[sp2 + 1..];
      if method_ == "" || target == "" || target[0] != '/' || !("HTTP/1." <= version) then BadLine
      else GoodLine(HttpRequest(method_, target, Cut(target, 0, Find(target, "?", 0)), version, []))
  }

  // ---------- The header lines ----------

  datatype Lines = GoodLines(headers: seq<Header>) | BadLines

  // A header line: a name that starts in the first column, a colon, and the value.
  predicate IsHeaderLine(line: string) {
    var colon := Find(line, ":", 0);
    colon > 0 && line[0] != ' ' && line[0] != '\t'
  }

  function HeaderOf(line: string): Header
    requires IsHeaderLine(line)
  {
    var colon := Find(line, ":", 0);
    Header(ToLower(line[..colon]), Trim(line[colon + 1..]))
  }

  // The header lines from pos on, up to the blank line at end.
  function ParseHeaderLines(buf: string, pos: nat, end: nat, acc: seq<Header>): Lines
    requires pos <= end + 2 && pos != end + 1 && end + 4 <= |buf| && buf[end..end + 4] == BLANK_LINE
    decreases end + 2 - pos
  {
    if pos >= end + 2 then GoodLines(acc)
    else
      LineEndsInTime(buf, pos, end);
      var lineEnd := Find(buf, CRLF, pos);
      var line := buf[pos..lineEnd];
      if !IsHeaderLine(line) then BadLines
      else ParseHeaderLines(buf, lineEnd + 2, end, acc + [HeaderOf(line)])
  }

  // Every line in front of the blank line ends at or before it.
  lemma LineEndsInTime(buf: string, pos: nat, end: nat)
    requires pos <= end && end + 4 <= |buf| && buf[end..end + 4] == BLANK_LINE
    ensures pos <= Find(buf, CRLF, pos) <= end && Find(buf, CRLF, pos) != end - 1
  {
    assert buf[end..end + 2] == buf[end..end + 4][..2] == CRLF;
    FindsNoLater(buf, CRLF, pos, end);
    var r := Find(buf, CRLF, pos);
    assert buf[r..r + 2][1] == '\n' && buf[end] == '\r';
  }

  lemma {:induction false} FindsNoLater(s: string, pat: string, from: nat, at: nat)
    requires from <= at && at + |pat| <= |s| && pat != [] && s[at..at + |pat|] == pat
    ensures from <= Find(s, pat, from) <= at
    decreases at - from
  {
    if from < at {
      FindsNoLater(s, pat, from + 1, at);
    }
  }

  // ---------- The whole header ----------

  function ParseHttp(buf: string, maxHeaderBytes: nat): (r: HttpResult)
    ensures r.Request? ==> 0 < r.consumed <= |buf|
  {
    var end := Find(buf, BLANK_LINE, 0);
    if end == -1 then
      if |buf| > maxHeaderBytes then Rejected(TooLarge) else NeedMore
    else if end + 4 > maxHeaderBytes then Rejected(TooLarge)
    else
      LineEndsInTime(buf, 0, end);
      var lineEnd := Find(buf, CRLF, 0);
      match ParseRequestLine(buf[..lineEnd])
      case BadLine => Rejected(MalformedRequestLine)
      case GoodLine(request) =>
        match ParseHeaderLines(buf, lineEnd + 2, end, [])
        case BadLines => Rejected(MalformedHeaderLine)
        case GoodLines(headers) => Request(request.(headers := headers), end + 4)
  }

  // The loop over the header lines.
  method ReadHeaderLines(buf: string, start: nat, end: nat) returns (r: Lines)
    requires start <= end + 2 && start != end + 1 && end + 4 <= |buf| && buf[end..end + 4] == BLANK_LINE
    ensures r == ParseHeaderLines(buf, start, end, [])
  {
    hide Find, IsHeaderLine, HeaderOf;
    var headers: seq<Header> := [];
    var pos := start;
    while pos < end + 2
      invariant pos <= end + 2 && pos != end + 1
      invariant ParseHeaderLines(buf, pos, end, headers) == ParseHeaderLines(buf, start, end, [])
    {
      LineEndsInTime(buf, pos, end);
      var lineEnd := Find(buf, CRLF, pos);
      var line := buf[pos..lineEnd];
      pos := lineEnd + 2;
      if !IsHeaderLine(line) { return BadLines; }
      headers := headers + [HeaderOf(line)];
    }
    return GoodLines(headers);
  }

  method ParseHttpRequest(buf: string, maxHeaderBytes: nat) returns (r: HttpResult)
    ensures r == ParseHttp(buf, maxHeaderBytes)
  {
    hide Find, ParseRequestLine, ParseHeaderLines;
    var end := Find(buf, BLANK_LINE, 0);
    if end == -1 {
      if |buf| > maxHeaderBytes { return Rejected(TooLarge); }
      return NeedMore;
    }
    if end + 4 > maxHeaderBytes { return Rejected(TooLarge); }
    LineEndsInTime(buf, 0, end);
    var lineEnd := Find(buf, CRLF, 0);
    var line := ParseRequestLine(buf[..lineEnd]);
    if line == BadLine { return Rejected(MalformedRequestLine); }
    var lines := ReadHeaderLines(buf, lineEnd + 2, end);
    if lines == BadLines { return Rejected(MalformedHeaderLine); }
    return Request(line.request.(headers := lines.headers), end + 4);
  }

  // ---------- Prefix stability ----------

  lemma {:induction false} FindIsStable(s: string, more: string, pat: string, from: nat)
    requires pat != []
    ensures Find(s, pat, from) >= 0 ==> Find(s + more, pat, from) == Find(s, pat, from)
    ensures Find(s, pat, from) == -1 && Find(s + more, pat, from) >= 0 ==> Find(s + more, pat, from) + |pat| > |s|
    decreases |s| - from
  {
    if from + |pat| <= |s| && from < |s| {
      assert (s + more)[from..from + |pat|] == s[from..from + |pat|];
      FindIsStable(s, more, pat, from + 1);
    }
  }

  lemma {:induction false} HeaderLinesAreStable(buf: string, more: string, pos: nat, end: nat, acc: seq<Header>)
    requires pos <= end + 2 && pos != end + 1 && end + 4 <= |buf| && buf[end..end + 4] == BLANK_LINE
    requires (buf + more)[end..end + 4] == BLANK_LINE
    ensures ParseHeaderLines(buf + more, pos, end, acc) == ParseHeaderLines(buf, pos, end, acc)
    decreases end + 2 - pos
  {
    hide IsHeaderLine, HeaderOf, Find;
    if pos < end + 2 {
      LineEndsInTime(buf, pos, end);
      FindIsStable(buf, more, CRLF, pos);
      var lineEnd := Find(buf, CRLF, pos);
      assert (buf + more)[pos..lineEnd] == buf[pos..lineEnd];
      if IsHeaderLine(buf[pos..lineEnd]) {
        HeaderLinesAreStable(buf, more, lineEnd + 2, end, acc + [HeaderOf(buf[pos..lineEnd])]);
      }
    }
  }

  // A verdict other than "need more" never changes when bytes are appended.
  lemma HttpVerdictIsStable(buf: string, more: string, maxHeaderBytes: nat)
    requires ParseHttp(buf, maxHeaderBytes) != NeedMore
    ensures ParseHttp(buf + more, maxHeaderBytes) == ParseHttp(buf, maxHeaderBytes)
  {
    hide ParseHeaderLines, ParseRequestLine, Find;
    var end := Find(buf, BLANK_LINE, 0);
    FindIsStable(buf, more, BLANK_LINE, 0);
    if end >= 0 && end + 4 <= maxHeaderBytes {
      LineEndsInTime(buf, 0, end);
      FindIsStable(buf, more, CRLF, 0);
      var lineEnd := Find(buf, CRLF, 0);
      assert (buf + more)[..lineEnd] == buf[..lineEnd];
      assert (buf + more)[end..end + 4] == buf[end..end + 4];
      HeaderLinesAreStable(buf, more, lineEnd + 2, end, []);
    }
  }

  // ---------- Headers ----------

  // The value of the first header with this lower-case name.
  function HeaderValue(headers: seq<Header>, name: string): string {
    if headers == [] then "" else if headers[0].name == name then headers[0].value else HeaderValue(headers[1..], name)
  }

  predicate HasHeader(headers: seq<Header>, name: string) {
    exists i :: 0 <= i < |headers| && headers[i].name == name
  }

  // A comma-separated value, from start on, contains the lower-case token want.
  function HasTokenFrom(value: string, want: string, start: nat): bool
    requires start <= |value| + 1
    decreases |value| + 1 - start
  {
    if start > |value| then false
    else
      var found := Find(value, ",", start);
      var comma := if found == -1 then |value| else found;
      ToLower(Trim(value[start..comma])) == want || HasTokenFrom(value, want, comma + 1)
  }

  function HasToken(value: string, token: string): bool {
    HasTokenFrom(value, ToLower(token), 0)
  }

  method HeaderHasToken(value: string, token: string) returns (has: bool)
    ensures has == HasToken(value, token)
  {
    var want := ToLower(token);
    var start := 0;
    while start <= |value|
      invariant start <= |value| + 1
      invariant HasTokenFrom(value, want, start) == HasToken(value, token)
      decreases |value| + 1 - start
    {
      var comma := Find(value, ",", start);
      if comma == -1 { comma := |value|; }
      if ToLower(Trim(value[start..comma])) == want { return true; }
      start := comma + 1;
    }
    has := false;
  }
}
