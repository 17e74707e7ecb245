// Requests written as HTTP/1 messages (RFC 9112, section 3) are read back by the parser of
// tools/ctl/backend/http.cpp:22-69.
module HttpRoundTrip {
  import opened Http
  import opened Text

  // ---------- Lines ----------

  predicate NoCrlf(s: string) {
    forall k :: 0 <= k < |s| - 1 ==> !(s[k] == '\r' && s[k + 1] == '\n')
  }

  predicate Without(s: string, c: char) {
    forall k :: 0 <= k < |s| ==> s[k] != c
  }

  predicate AreLines(lines: seq<string>) {
    forall i :: 0 <= i < |lines| ==> lines[i] != "" && NoCrlf(lines[i])
  }

  function Joined(lines: seq<string>): string {
    if lines == [] then "" else lines[0] + CRLF + Joined(lines[1..])
  }

  lemma Middle(a: string, b: string, c: string)
    ensures |a + b + c| == |a| + |b| + |c| && (a + b + c)[|a|..|a| + |b|] == b
  {
  }

  lemma Regroup(a: string, b: string, c: string, d: string)
    ensures a + b + c + d == a + b + (c + d)
  {
  }

  lemma BlankLineIsTwoEnds(rest: string)
    ensures CRLF + (CRLF + rest) == BLANK_LINE + rest
  {
  }

  predicate OccursAt(s: string, pat: string, k: nat) {
    k + |pat| <= |s| && s[k..k + |pat|] == pat
  }

  // No occurrence of pat starts in [from, end).
  predicate NoneBetween(s: string, pat: string, from: nat, end: nat) {
    forall k :: from <= k < end ==> !OccursAt(s, pat, k)
  }

  lemma {:induction false} FindSkips(s: string, pat: string, from: nat, end: nat)
    requires pat != "" && from <= end <= |s|
    requires NoneBetween(s, pat, from, end)
    ensures Find(s, pat, from) == Find(s, pat, end)
    decreases end - from
  {
    if from < end {
      assert !OccursAt(s, pat, from);
      FindSkips(s, pat, from + 1, end);
    }
  }

  lemma FindsChar(s: string, c: char, from: nat, at: nat)
    requires from <= at < |s| && s[at] == c && Without(s[from..at], c)
    ensures Find(s, [c], from) == at
  {
    forall k | from <= k < at
      ensures !OccursAt(s, [c], k)
    {
      assert s[from..at][k - from] == s[k] == s[k..k + 1][0];
    }
    FindSkips(s, [c], from, at);
  }

  lemma FindsNoChar(s: string, c: char, from: nat)
    requires from <= |s| && Without(s[from..], c)
    ensures Find(s, [c], from) == -1
  {
    forall k | from <= k < |s|
      ensures !OccursAt(s, [c], k)
    {
      assert s[from..][k - from] == s[k] == s[k..k + 1][0];
    }
    FindSkips(s, [c], from, |s|);
  }

  // The line that starts at pos ends where it was written to end.
  lemma FindsLineEnd(front: string, line: string, rest: string)
    requires NoCrlf(line)
    ensures Find(front + line + CRLF + rest, CRLF, |front|) == |front| + |line|
  {
    var s, at := front + line + CRLF + rest, |front| + |line|;
    assert s[at..at + 2] == CRLF;
    forall k | |front| <= k < at
      ensures !OccursAt(s, CRLF, k)
    {
      assert s[k..k + 2] == [s[k], s[k + 1]];
      if k + 1 < at { assert line[k - |front|] == s[k] && line[k - |front| + 1] == s[k + 1]; }
    }
    FindSkips(s, CRLF, |front|, at);
  }

  // The first blank line is the one behind all the lines.
  lemma {:induction false} FindsBlankLine(front: string, lines: seq<string>, rest: string)
    requires lines != [] && AreLines(lines)
    ensures Find(front + Joined(lines) + CRLF + rest, BLANK_LINE, |front|) == |front| + |Joined(lines)| - 2
    decreases |lines|
  {
    hide Find, NoCrlf, NoneBetween;
    var line, later := lines[0], Joined(lines[1..]);
    if |lines| == 1 {
      assert front + Joined(lines) + CRLF + rest == front + line + CRLF + (CRLF + rest);
      FindsBlankHere(front, line, rest);
    } else {
      var next, last := lines[1], Joined(lines[2..]) + CRLF + rest;
      assert lines[1..][1..] == lines[2..];
      assert front + Joined(lines) + CRLF + rest == front + line + CRLF + (next + CRLF + last) ==
             (front + line + CRLF) + later + CRLF + rest;
      SkipsLine(front, line, next, last);
      FindsBlankLine(front + line + CRLF, lines[1..], rest);
    }
  }

  lemma OccurrenceOfBlankLine(s: string, k: nat)
    ensures OccursAt(s, BLANK_LINE, k) ==>
      k + 4 <= |s| && s[k] == '\r' && s[k + 1] == '\n' && s[k + 2] == '\r' && s[k + 3] == '\n'
  {
    if k + 4 <= |s| {
      var t := s[k..k + 4];
      assert t[0] == s[k] && t[1] == s[k + 1] && t[2] == s[k + 2] && t[3] == s[k + 3];
    }
  }

  lemma NoBlankInLine(front: string, line: string, rest: string)
    requires NoCrlf(line)
    ensures NoneBetween(front + line + CRLF + rest, BLANK_LINE, |front|, |front| + |line|)
  {
    var s, at := front + line + CRLF + rest, |front| + |line|;
    forall k | |front| <= k < at
      ensures !OccursAt(s, BLANK_LINE, k)
    {
      OccurrenceOfBlankLine(s, k);
      assert s[k] == line[k - |front|];
      assert s[k + 1] == if k + 1 < at then line[k - |front| + 1] else '\r';
    }
  }

  lemma FindsBlankHere(front: string, line: string, rest: string)
    requires NoCrlf(line)
    ensures Find(front + line + CRLF + (CRLF + rest), BLANK_LINE, |front|) == |front| + |line|
  {
    hide Find, NoCrlf, NoneBetween;
    var s, at := front + line + CRLF + (CRLF + rest), |front| + |line|;
    NoBlankInLine(front, line, CRLF + rest);
    Regroup(front, line, CRLF, CRLF + rest);
    BlankLineIsTwoEnds(rest);
    Regroup(front, line, BLANK_LINE, rest);
    Middle(front + line, BLANK_LINE, rest);
    FindSkips(s, BLANK_LINE, |front|, at);
    FindHere(s, BLANK_LINE, at);
  }

  lemma FindHere(s: string, pat: string, at: nat)
    requires pat != "" && at + |pat| <= |s| && s[at..at + |pat|] == pat
    ensures Find(s, pat, at) == at
  {
  }

  lemma SkipsLine(front: string, line: string, next: string, rest: string)
    requires NoCrlf(line) && NoCrlf(next) && next != ""
    ensures Find(front + line + CRLF + (next + CRLF + rest), BLANK_LINE, |front|) ==
            Find(front + line + CRLF + (next + CRLF + rest), BLANK_LINE, |front| + |line| + 2)
  {
    hide Find;
    var s, at := front + line + CRLF + (next + CRLF + rest), |front| + |line|;
    NoBlankInLine(front, line, next + CRLF + rest);
    assert s[at + 1] == '\n' && s[at + 2] == next[0];
    assert s[at + 3] == if |next| > 1 then next[1] else '\r';
    forall k | |front| <= k < at + 2
      ensures !OccursAt(s, BLANK_LINE, k)
    {
      OccurrenceOfBlankLine(s, k);
    }
    FindSkips(s, BLANK_LINE, |front|, at + 2);
  }

  // ---------- Requests ----------

  // A header as it is written: the name in any case, and anything around the value.
  datatype RawHeader = RawHeader(name: string, value: string)

  datatype RawRequest = RawRequest(method_: string, target: string, version: string, headers: seq<RawHeader>)

  predicate ValidHeader(h: RawHeader) {
    && h.name != "" && Without(h.name, ':') && h.name[0] != ' ' && h.name[0] != '\t' && NoCrlf(HeaderLine(h))
  }

  function HeaderLine(h: RawHeader): string {
    h.name + ":" + h.value
  }

  // What a header means: names are compared in lower case, and blanks around a value do not count.
  function MeaningOf(h: RawHeader): Header {
    Header(ToLower(h.name), Trim(h.value))
  }

  function MeaningsOf(hs: seq<RawHeader>): seq<Header> {
    seq(|hs|, i requires 0 <= i < |hs| => MeaningOf(hs[i]))
  }

  predicate ValidRequest(r: RawRequest) {
    && r.method_ != "" && Without(r.method_, ' ')
    && r.target != "" && r.target[0] == '/' && Without(r.target, ' ')
    && "HTTP/1." <= r.version && Without(r.version, ' ')
    && NoCrlf(RequestLine(r))
    && forall i :: 0 <= i < |r.headers| ==> ValidHeader(r.headers[i])
  }

  function RequestOf(r: RawRequest): HttpRequest {
    LineRequest(r).(headers := MeaningsOf(r.headers))
  }

  // The request without its headers.
  function LineRequest(r: RawRequest): HttpRequest {
    HttpRequest(r.method_, r.target, Cut(r.target, 0, Find(r.target, "?", 0)), r.version, [])
  }

  function RequestLine(r: RawRequest): string {
    r.method_ + " " + r.target + " " + r.version
  }

  function HeaderLines(hs: seq<RawHeader>): seq<string> {
    seq(|hs|, i requires 0 <= i < |hs| => HeaderLine(hs[i]))
  }

  function RequestBytes(r: RawRequest): string {
    Joined([RequestLine(r)] + HeaderLines(r.headers)) + CRLF
  }

  lemma RequestLineParses(r: RawRequest)
    requires ValidRequest(r)
    ensures ParseRequestLine(RequestLine(r)) == GoodLine(LineRequest(r))
  {
    hide Find, NoCrlf, Cut;
    var line, sp1 := RequestLine(r), |r.method_|;
    var sp2 := sp1 + 1 + |r.target|;
    assert line[..sp1] == r.method_ && line[0..sp1] == r.method_;
    assert line[sp1 + 1..sp2] == r.target && line[sp2 + 1..] == r.version;
    FindsChar(line, ' ', 0, sp1);
    FindsChar(line, ' ', sp1 + 1, sp2);
    FindsNoChar(line, ' ', sp2 + 1);
  }

  lemma HeaderLineParses(h: RawHeader)
    requires ValidHeader(h)
    ensures IsHeaderLine(HeaderLine(h)) && HeaderOf(HeaderLine(h)) == MeaningOf(h)
  {
    hide Find, NoCrlf, Trim, ToLower;
    var line, colon := HeaderLine(h), |h.name|;
    assert line[0..colon] == h.name == line[..colon];
    assert line[colon + 1..] == h.value;
    FindsChar(line, ':', 0, colon);
  }

  lemma {:induction false} HeaderLinesParse(front: string, hs: seq<RawHeader>, rest: string, acc: seq<Header>)
    requires forall i :: 0 <= i < |hs| ==> ValidHeader(hs[i])
    requires |front| >= 2 && front[|front| - 2..] == CRLF
    ensures LinesParse(front + Joined(HeaderLines(hs)) + CRLF + rest,
                       |front|, |front| + |Joined(HeaderLines(hs))| - 2, acc, hs)
    decreases |hs|
  {
    hide Find, ValidHeader, IsHeaderLine, HeaderOf, HeaderLine, NoCrlf, LinesParse, ParseHeaderLines;
    if hs == [] {
      NoHeaderLines(front, rest, acc);
    } else {
      var line, later := HeaderLine(hs[0]), Joined(HeaderLines(hs[1..]));
      assert HeaderLines(hs)[1..] == HeaderLines(hs[1..]);
      HeaderLinesParse(front + line + CRLF, hs[1..], rest, acc + [MeaningOf(hs[0])]);
      assert front + Joined(HeaderLines(hs)) + CRLF + rest == (front + line + CRLF) + later + CRLF + rest ==
             front + line + CRLF + (later + CRLF + rest);
      OneMoreLine(front, hs, later + CRLF + rest, |front| + |Joined(HeaderLines(hs))| - 2, acc);
    }
  }

  // The header lines from pos on, up to the blank line at end, say hs.
  predicate LinesParse(buf: string, pos: nat, end: int, acc: seq<Header>, hs: seq<RawHeader>) {
    && 0 <= end && pos <= end + 2 && pos != end + 1 && end + 4 <= |buf| && buf[end..end + 4] == BLANK_LINE
    && ParseHeaderLines(buf, pos, end, acc) == GoodLines(acc + MeaningsOf(hs))
  }

  lemma NoHeaderLines(front: string, rest: string, acc: seq<Header>)
    requires |front| >= 2 && front[|front| - 2..] == CRLF
    ensures LinesParse(front + "" + CRLF + rest, |front|, |front| - 2, acc, [])
  {
    assert MeaningsOf([]) == [] && acc + [] == acc;
    var before := front[..|front| - 2];
    assert front == before + CRLF;
    assert front + "" + CRLF + rest == before + BLANK_LINE + rest;
    Middle(before, BLANK_LINE, rest);
  }

  lemma OneMoreLine(front: string, hs: seq<RawHeader>, rest: string, end: int, acc: seq<Header>)
    requires hs != [] && ValidHeader(hs[0])
    requires LinesParse(front + HeaderLine(hs[0]) + CRLF + rest,
                        |front| + |HeaderLine(hs[0])| + 2, end, acc + [MeaningOf(hs[0])], hs[1..])
    ensures LinesParse(front + HeaderLine(hs[0]) + CRLF + rest, |front|, end, acc, hs)
  {
    hide Find, ValidHeader, IsHeaderLine, HeaderOf, HeaderLine, NoCrlf;
    OneHeaderLine(front, hs[0], rest);
    assert acc + [MeaningOf(hs[0])] + MeaningsOf(hs[1..]) == acc + MeaningsOf(hs);
  }

  lemma OneHeaderLine(front: string, h: RawHeader, rest: string)
    requires ValidHeader(h)
    ensures var buf, line := front + HeaderLine(h) + CRLF + rest, HeaderLine(h);
      Find(buf, CRLF, |front|) == |front| + |line| && IsHeaderLine(buf[|front|..|front| + |line|])
      && HeaderOf(buf[|front|..|front| + |line|]) == MeaningOf(h)
  {
    hide Find, ValidHeader, IsHeaderLine, HeaderOf, HeaderLine, NoCrlf;
    var buf, line := front + HeaderLine(h) + CRLF + rest, HeaderLine(h);
    ValidHeaderLine(h);
    FindsLineEnd(front, line, rest);
    Middle(front, line, CRLF + rest);
    Regroup(front, line, CRLF, rest);
    HeaderLineParses(h);
  }

  lemma ValidHeaderLine(h: RawHeader)
    requires ValidHeader(h)
    ensures HeaderLine(h) != "" && NoCrlf(HeaderLine(h))
  {
  }

  // A valid request within the size limit is read as what it means, with its headers in order, and nothing behind it is
  // used.
  lemma RequestParses(r: RawRequest, rest: string, maxHeaderBytes: nat)
    requires ValidRequest(r) && |RequestBytes(r)| <= maxHeaderBytes
    ensures ParseHttp(RequestBytes(r) + rest, maxHeaderBytes) == Request(RequestOf(r), |RequestBytes(r)|)
  {
    hide Find, ValidHeader, ParseRequestLine, ParseHeaderLines, HeaderLine, RequestLine, NoCrlf;
    var line, lines := RequestLine(r), HeaderLines(r.headers);
    var all := [line] + lines;
    assert all[1..] == lines;
    var buf := RequestBytes(r) + rest;
    var front := line + CRLF;
    assert buf == "" + Joined(all) + CRLF + rest;
    assert buf == front + Joined(lines) + CRLF + rest == "" + line + CRLF + (Joined(lines) + CRLF + rest);
    ValidLines(r);
    FindsBlankLine("", all, rest);
    FindsLineEnd("", line, Joined(lines) + CRLF + rest);
    assert buf[..|line|] == line;
    RequestLineParses(r);
    HeaderLinesParse(front, r.headers, rest, []);
    assert [] + MeaningsOf(r.headers) == MeaningsOf(r.headers);
  }

  lemma ValidLines(r: RawRequest)
    requires ValidRequest(r)
    ensures AreLines([RequestLine(r)] + HeaderLines(r.headers)) && NoCrlf(RequestLine(r))
  {
    hide ValidHeader, NoCrlf, HeaderLine;
    forall i | 0 <= i < |r.headers|
      ensures HeaderLine(r.headers[i]) != "" && NoCrlf(HeaderLine(r.headers[i]))
    {
      ValidHeaderLine(r.headers[i]);
    }
  }
}
