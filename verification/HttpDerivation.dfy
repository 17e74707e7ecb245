// What the header parser accepts, both ways: exactly the texts that HttpRoundTrip writes, with what they mean; and
// which tokens a comma-separated value holds (tools/ctl/backend/http.cpp:22-81).
module HttpDerivation {
  import opened Text
  import opened Http
  import opened HttpRoundTrip

  // ---------- Searching ----------

  lemma {:induction false} FindsTheFirst(s: string, pat: string, from: nat)
    ensures Find(s, pat, from) >= 0 ==> NoneBetween(s, pat, from, Find(s, pat, from))
    ensures Find(s, pat, from) == -1 && pat != "" ==> NoneBetween(s, pat, from, |s|)
    decreases |s| - from
  {
    if from + |pat| <= |s| && from < |s| && s[from..from + |pat|] != pat {
      FindsTheFirst(s, pat, from + 1);
    }
  }

  lemma NoCharBefore(s: string, c: char, from: nat)
    requires from <= |s|
    ensures var r := Find(s, [c], from); Without(s[from..if r >= 0 then r else |s|], c)
  {
    var r := Find(s, [c], from);
    var end := if r >= 0 then r else |s|;
    FindsTheFirst(s, [c], from);
    forall k | 0 <= k < |s[from..end]|
      ensures s[from..end][k] != c
    {
      assert !OccursAt(s, [c], from + k);
      assert s[from + k..from + k + 1] == [s[from + k]];
    }
  }

  lemma NoCrlfBefore(s: string, from: nat)
    requires Find(s, CRLF, from) >= 0
    ensures NoCrlf(s[from..Find(s, CRLF, from)])
  {
    var end := Find(s, CRLF, from);
    var line := s[from..end];
    FindsTheFirst(s, CRLF, from);
    forall k | 0 <= k < |line| - 1
      ensures !(line[k] == '\r' && line[k + 1] == '\n')
    {
      assert !OccursAt(s, CRLF, from + k);
      assert s[from + k..from + k + 2] == [line[k], line[k + 1]];
    }
  }

  // ---------- The lines of an accepted request ----------

  lemma SpacesOf(line: string) returns (sp1: nat, sp2: nat)
    requires ParseRequestLine(line).GoodLine?
    ensures sp1 < sp2 < |line| && line[sp1..sp1 + 1] == " " && line[sp2..sp2 + 1] == " "
    ensures Without(line[..sp1], ' ') && Without(line[sp1 + 1..sp2], ' ') && Without(line[sp2 + 1..], ' ')
    ensures sp1 == Find(line, " ", 0) && sp2 == Find(line, " ", sp1 + 1)
  {
    hide Without, Cut, Find;
    sp1 := Find(line, " ", 0);
    sp2 := Find(line, " ", sp1 + 1);
    NoCharBefore(line, ' ', 0);
    NoCharBefore(line, ' ', sp1 + 1);
    NoCharBefore(line, ' ', sp2 + 1);
    assert line[0..sp1] == line[..sp1] && line[sp2 + 1..|line|] == line[sp2 + 1..];
  }

  lemma RequestLineDerives(line: string) returns (q: RawRequest)
    requires ParseRequestLine(line).GoodLine? && NoCrlf(line)
    ensures ValidRequest(q) && q.headers == [] && RequestLine(q) == line
    ensures ParseRequestLine(line) == GoodLine(LineRequest(q))
  {
    hide Find, NoCrlf, Without, Cut;
    var sp1, sp2 := SpacesOf(line);
    q := RawRequest(line[..sp1], line[sp1 + 1..sp2], line[sp2 + 1..], []);
    ThreeWords(line, sp1, sp2);
  }

  lemma ThreeWords(line: string, sp1: nat, sp2: nat)
    requires sp1 < sp2 < |line| && line[sp1..sp1 + 1] == " " && line[sp2..sp2 + 1] == " "
    ensures line == line[..sp1] + " " + line[sp1 + 1..sp2] + " " + line[sp2 + 1..]
  {
    SplitsAt(line, sp2);
    SplitsAt(line[..sp2], sp1);
    assert line[..sp2][..sp1] == line[..sp1] && line[..sp2][sp1 + 1..] == line[sp1 + 1..sp2];
    assert line[..sp2][sp1..sp1 + 1] == line[sp1..sp1 + 1];
  }

  lemma SplitsAt(s: string, i: nat)
    requires i < |s|
    ensures s == s[..i] + s[i..i + 1] + s[i + 1..]
  {
  }

  lemma HeaderLineDerives(line: string) returns (h: RawHeader)
    requires IsHeaderLine(line) && NoCrlf(line)
    ensures ValidHeader(h) && HeaderLine(h) == line && HeaderOf(line) == MeaningOf(h)
  {
    hide Find, NoCrlf, Without;
    var colon := Find(line, ":", 0);
    NoCharBefore(line, ':', 0);
    assert line[0..colon] == line[..colon] && line[colon..colon + 1] == ":";
    h := RawHeader(line[..colon], line[colon + 1..]);
    assert line == line[..colon] + ":" + line[colon + 1..];
  }

  lemma {:induction false} HeaderLinesDerive(buf: string, pos: nat, end: nat, acc: seq<Header>)
    returns (hs: seq<RawHeader>)
    requires pos <= end + 2 && pos != end + 1 && end + 4 <= |buf| && buf[end..end + 4] == BLANK_LINE
    requires ParseHeaderLines(buf, pos, end, acc).GoodLines?
    ensures forall i :: 0 <= i < |hs| ==> ValidHeader(hs[i])
    ensures buf[pos..end + 2] == Joined(HeaderLines(hs))
    ensures ParseHeaderLines(buf, pos, end, acc) == GoodLines(acc + MeaningsOf(hs))
    decreases end + 2 - pos
  {
    hide Find, NoCrlf, IsHeaderLine, HeaderOf, ValidHeader, HeaderLine;
    if pos >= end + 2 {
      hs := [];
      assert acc + MeaningsOf([]) == acc && HeaderLines([]) == [];
    } else {
      LineEndsInTime(buf, pos, end);
      var lineEnd := Find(buf, CRLF, pos);
      var line := buf[pos..lineEnd];
      NoCrlfBefore(buf, pos);
      var h := HeaderLineDerives(line);
      var more := HeaderLinesDerive(buf, lineEnd + 2, end, acc + [HeaderOf(line)]);
      hs := [h] + more;
      assert HeaderLines(hs)[1..] == HeaderLines(more) && HeaderLines(hs)[0] == line;
      assert buf[pos..end + 2] == line + buf[lineEnd..lineEnd + 2] + buf[lineEnd + 2..end + 2];
      assert acc + [MeaningOf(h)] + MeaningsOf(more) == acc + MeaningsOf(hs);
    }
  }

  lemma HeadersAdded(q: RawRequest, hs: seq<RawHeader>)
    requires ValidRequest(q) && q.headers == [] && forall i :: 0 <= i < |hs| ==> ValidHeader(hs[i])
    ensures var r := q.(headers := hs);
      && ValidRequest(r) && RequestLine(r) == RequestLine(q) && LineRequest(r) == LineRequest(q)
      && RequestBytes(r) == RequestLine(q) + CRLF + Joined(HeaderLines(hs)) + CRLF
  {
    hide NoCrlf, Without, ValidHeader, HeaderLine, Find, Cut;
    var r := q.(headers := hs);
    var all := [RequestLine(r)] + HeaderLines(hs);
    assert all[1..] == HeaderLines(hs);
  }

  // Whatever is accepted was written as a valid request.
  lemma RequestDerives(buf: string, maxHeaderBytes: nat) returns (q: RawRequest)
    requires ParseHttp(buf, maxHeaderBytes).Request?
    ensures ValidRequest(q) && |RequestBytes(q)| <= maxHeaderBytes && RequestBytes(q) <= buf
    ensures ParseHttp(buf, maxHeaderBytes) == Request(RequestOf(q), |RequestBytes(q)|)
  {
    hide Find, NoCrlf, ParseRequestLine, ParseHeaderLines, ValidHeader, ValidRequest, RequestBytes, RequestLine,
      LineRequest, Joined, HeaderLines, MeaningsOf;
    var end := Find(buf, BLANK_LINE, 0);
    LineEndsInTime(buf, 0, end);
    var lineEnd := Find(buf, CRLF, 0);
    NoCrlfBefore(buf, 0);
    assert buf[0..lineEnd] == buf[..lineEnd];
    var front := RequestLineDerives(buf[..lineEnd]);
    var hs := HeaderLinesDerive(buf, lineEnd + 2, end, []);
    q := front.(headers := hs);
    HeadersAdded(front, hs);
    assert [] + MeaningsOf(hs) == MeaningsOf(hs);
    HeaderSplits(buf, lineEnd, end);
  }

  lemma HeaderSplits(buf: string, lineEnd: nat, end: nat)
    requires lineEnd <= end && end + 4 <= |buf| && buf[end..end + 4] == BLANK_LINE && buf[lineEnd..lineEnd + 2] == CRLF
    ensures buf[..end + 4] == buf[..lineEnd] + CRLF + buf[lineEnd + 2..end + 2] + CRLF
  {
    assert buf[end + 2..end + 4] == buf[end..end + 4][2..] == CRLF;
    assert buf[..end + 4] ==
      buf[..lineEnd] + buf[lineEnd..lineEnd + 2] + buf[lineEnd + 2..end + 2] + buf[end + 2..end + 4];
  }

  // buf begins with q, which is n bytes long and means r.
  predicate BeginsWith(buf: string, q: RawRequest, r: HttpRequest, n: nat) {
    ValidRequest(q) && |RequestBytes(q)| == n && RequestBytes(q) <= buf && RequestOf(q) == r
  }

  // So the parser accepts exactly the valid requests within the size limit.
  lemma AcceptedIffWritten(buf: string, maxHeaderBytes: nat, r: HttpRequest, n: nat)
    ensures ParseHttp(buf, maxHeaderBytes) == Request(r, n) <==>
      n <= maxHeaderBytes && exists q :: BeginsWith(buf, q, r, n)
  {
    hide ParseHttp, ValidRequest, RequestBytes, RequestOf;
    if ParseHttp(buf, maxHeaderBytes) == Request(r, n) {
      var q := RequestDerives(buf, maxHeaderBytes);
      assert BeginsWith(buf, q, r, n);
    }
    if n <= maxHeaderBytes {
      if q :| BeginsWith(buf, q, r, n) {
        RequestParses(q, buf[n..], maxHeaderBytes);
        assert buf == RequestBytes(q) + buf[n..];
      }
    }
  }

  // ---------- Everything else ----------

  // The first blank line begins at k.
  predicate BlankAt(buf: string, k: nat) {
    OccursAt(buf, BLANK_LINE, k) && NoneBetween(buf, BLANK_LINE, 0, k)
  }

  // A well-formed request line.
  ghost predicate IsRequestLine(line: string) {
    exists q :: ValidRequest(q) && q.headers == [] && RequestLine(q) == line
  }

  lemma BlankLineFound(buf: string)
    ensures var k := Find(buf, BLANK_LINE, 0);
      if k >= 0 then BlankAt(buf, k) else forall j: nat :: !BlankAt(buf, j)
    ensures forall j: nat :: BlankAt(buf, j) ==> Find(buf, BLANK_LINE, 0) == j
  {
    var k := Find(buf, BLANK_LINE, 0);
    FindsTheFirst(buf, BLANK_LINE, 0);
    if k >= 0 { assert OccursAt(buf, BLANK_LINE, k); }
    forall j: nat | BlankAt(buf, j)
      ensures k == j
    {
      FindSkips(buf, BLANK_LINE, 0, j);
      FindHere(buf, BLANK_LINE, j);
    }
  }

  // For any bytes: the parser waits if and only if there is no blank line yet and they are within the limit; the
  // header is too large if and only if its blank line, or the bytes without one, go beyond the limit; and otherwise it
  // is a request, or malformed: in its first line if that is no request line, and behind it otherwise.
  lemma VerdictInBytes(buf: string, maxHeaderBytes: nat)
    ensures var r := ParseHttp(buf, maxHeaderBytes);
      && (r == NeedMore <==> |buf| <= maxHeaderBytes && forall k: nat :: !BlankAt(buf, k))
      && (r == Rejected(TooLarge) <==>
            (|buf| > maxHeaderBytes && forall k: nat :: !BlankAt(buf, k)) ||
            (exists k: nat :: BlankAt(buf, k) && k + 4 > maxHeaderBytes))
      && (r == Rejected(MalformedRequestLine) <==>
            && (exists k: nat :: BlankAt(buf, k) && k + 4 <= maxHeaderBytes)
            && Find(buf, CRLF, 0) >= 0 && !IsRequestLine(buf[..Find(buf, CRLF, 0)]))
  {
    hide Find, ParseRequestLine, ParseHeaderLines, BlankAt, NoCrlf;
    BlankLineFound(buf);
    var end := Find(buf, BLANK_LINE, 0);
    if end >= 0 {
      LineEndsInTime(buf, 0, end);
      NoCrlfBefore(buf, 0);
      assert buf[0..Find(buf, CRLF, 0)] == buf[..Find(buf, CRLF, 0)];
      RequestLineIff(buf[..Find(buf, CRLF, 0)]);
    }
  }

  lemma RequestLineIff(line: string)
    requires NoCrlf(line)
    ensures ParseRequestLine(line).GoodLine? <==> IsRequestLine(line)
  {
    hide ParseRequestLine, RequestLine, ValidRequest, NoCrlf;
    if ParseRequestLine(line).GoodLine? {
      var q := RequestLineDerives(line);
    }
    if q :| ValidRequest(q) && q.headers == [] && RequestLine(q) == line {
      RequestLineParses(q);
    }
  }

  // ---------- Tokens ----------

  // value[a..b] is one of the parts of value between commas.
  predicate IsPart(value: string, a: nat, b: nat) {
    && a <= b <= |value| && Without(value[a..b], ',')
    && (a > 0 ==> value[a - 1] == ',') && (b < |value| ==> value[b] == ',')
  }

  predicate PartIs(value: string, a: nat, b: nat, want: string) {
    IsPart(value, a, b) && ToLower(Trim(value[a..b])) == want
  }

  lemma PartEndsAtComma(value: string, start: nat, b: nat)
    requires start <= b && IsPart(value, start, b)
    ensures Find(value, ",", start) == if b < |value| then b else -1
  {
    if b < |value| {
      FindsChar(value, ',', start, b);
    } else {
      assert value[start..] == value[start..b];
      FindsNoChar(value, ',', start);
    }
  }

  lemma {:induction false} HasTokenFromIff(value: string, want: string, start: nat)
    requires start <= |value| + 1 && (0 < start <= |value| ==> value[start - 1] == ',')
    ensures HasTokenFrom(value, want, start) <==> exists a, b :: start <= a && PartIs(value, a, b, want)
    decreases |value| + 1 - start
  {
    hide Find, ToLower, Trim, Without;
    if start <= |value| {
      var found := Find(value, ",", start);
      var comma := if found == -1 then |value| else found;
      NoCharBefore(value, ',', start);
      if found >= 0 { assert value[found..found + 1] == ","; }
      assert IsPart(value, start, comma);
      HasTokenFromIff(value, want, comma + 1);
      if a, b :| start <= a && PartIs(value, a, b, want) {
        if a == start {
          PartEndsAtComma(value, start, b);
          assert b == comma;
        } else if a <= comma {
          CommaInside(value, start, comma, a);
        }
      }
      if HasTokenFrom(value, want, comma + 1) {
        var a, b :| comma + 1 <= a && PartIs(value, a, b, want);
        assert start <= a;
      }
      assert ToLower(Trim(value[start..comma])) == want ==> PartIs(value, start, comma, want);
    }
  }

  lemma CommaInside(value: string, start: nat, comma: nat, a: nat)
    requires start < a <= comma <= |value| && Without(value[start..comma], ',')
    ensures value[a - 1] != ','
  {
    assert value[a - 1] == value[start..comma][a - 1 - start];
  }

  // A value has a token if and only if one of its parts between commas is the token, blanks around it and case aside.
  lemma HasTokenIff(value: string, token: string)
    ensures HasToken(value, token) <==> exists a, b :: PartIs(value, a, b, ToLower(token))
  {
    hide HasTokenFrom, PartIs, ToLower;
    HasTokenFromIff(value, ToLower(token), 0);
  }
}
