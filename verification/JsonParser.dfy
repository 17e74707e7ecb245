// The JSON parser object (tools/ctl/backend/json_value.cpp): recursive descent over a mutable position.
module JsonParser {
  import opened JsonValue
  import opened JsonGrammar

  class Parser {
    const s: string
    const maxDepth: nat
    var pos: nat
    var error: Complaint

    constructor (text: string, maxDepth: nat)
      ensures s == text && this.maxDepth == maxDepth && pos == 0
    {
      s, this.maxDepth := text, maxDepth;
      pos, error := 0, UnexpectedEnd;
    }

    ghost predicate Valid()
      reads this
    {
      pos <= |s|
    }

    // The text still to be read.
    ghost function Left(): string
      requires Valid()
      reads this
    {
      s[pos..]
    }

    // A step ended as r says: with its value, or with its complaint, and at its position.
    ghost predicate EndsAs<T>(ok: bool, value: T, r: Parsed<T>)
      reads this
    {
      && Valid() && Left() == r.rest
      && (r.Ok? <==> ok)
      && (r.Ok? ==> value == r.value)
      && (r.Failed? ==> error == r.complaint)
    }

    method Fail(what: Complaint) returns (ok: bool)
      modifies `error
      ensures !ok && error == what
    {
      error := what;
      ok := false;
    }

    method SkipWhite()
      requires Valid()
      modifies `pos
      ensures Valid() && Left() == SkipSpace(old(Left())) && pos >= old(pos)
    {
      while pos < |s| && (s[pos] == ' ' || s[pos] == '\t' || s[pos] == '\n' || s[pos] == '\r')
        invariant old(pos) <= pos <= |s| && SkipSpace(s[pos..]) == SkipSpace(old(Left()))
      {
        assert s[pos..][1..] == s[pos + 1..];
        pos := pos + 1;
      }
    }

    method Digits() returns (any: bool)
      requires Valid()
      modifies `pos
      ensures Valid() && Left() == SkipDigits(old(Left())) && pos >= old(pos)
      ensures any <==> Left() != old(Left())
    {
      var start := pos;
      while pos < |s| && '0' <= s[pos] <= '9'
        invariant old(pos) <= pos <= |s| && SkipDigits(s[pos..]) == SkipDigits(old(Left()))
      {
        assert s[pos..][1..] == s[pos + 1..];
        pos := pos + 1;
      }
      any := pos > start;
      assert |Left()| == |s| - pos && |old(Left())| == |s| - old(pos);
    }

    method LiteralWord(word: string, v: Value) returns (ok: bool)
      requires Valid() && word != []
      modifies `pos, `error
      ensures EndsAs(ok, v, Literal(old(Left()), word, v)) && pos >= old(pos)
    {
      var i := 0;
      while i < |word|
        invariant 0 <= i <= |word| && pos + i <= |s| && s[pos..pos + i] == word[..i]
      {
        if pos + i >= |s| || s[pos + i] != word[i] {
          assert |Left()| <= i || Left()[i] != word[i];
          ok := Fail(InvalidLiteral);
          return;
        }
        assert s[pos..pos + i + 1] == s[pos..pos + i] + [word[i]];
        assert word[..i + 1] == word[..i] + [word[i]];
        i := i + 1;
      }
      assert s[pos..pos + i] == word;
      pos := pos + i;
      ok := true;
    }

    // ---------- Strings ----------

    method Hex() returns (ok: bool, cp: nat)
      requires Valid()
      modifies `pos, `error
      ensures EndsAs(ok, cp, Hex4(old(Left()))) && pos >= old(pos)
    {
      cp := 0;
      if |s| - pos < 4 {
        ok := Fail(TruncatedHex);
        return;
      }
      ghost var t := Left();
      var i := 0;
      while i < 4
        invariant 0 <= i <= 4 && forall k :: 0 <= k < i ==> IsHex(t[k])
        invariant cp == (if i > 0 then HexOf(t[0]) else 0) *
            (if i == 4 then 0x1000 else if i == 3 then 0x100 else if i == 2 then 0x10 else 1)
                      + (if i > 1 then HexOf(t[1]) else 0) * (if i == 4 then 0x100 else if i == 3 then 0x10 else 1)
                      + (if i > 2 then HexOf(t[2]) else 0) * (if i == 4 then 0x10 else 1)
                      + (if i > 3 then HexOf(t[3]) else 0)
      {
        var c := s[pos + i];
        assert c == t[i];
        var d: nat;
        if '0' <= c <= '9' { d := c as int - '0' as int; }
        else if 'a' <= c <= 'f' { d := c as int - 'a' as int + 10; }
        else if 'A' <= c <= 'F' { d := c as int - 'A' as int + 10; }
        else {
          ok := Fail(InvalidHex);
          return;
        }
        cp := cp * 16 + d;
        i := i + 1;
      }
      pos := pos + 4;
      ok := true;
      assert Left() == t[4..];
    }

    // The part of string() behind "\u".
    method UnicodeEscape() returns (ok: bool, cp: nat)
      requires Valid()
      modifies `pos, `error
      ensures EndsAs(ok, cp, CodePoint(old(Left()))) && pos >= old(pos)
    {
      hide Hex4;
      ok, cp := Hex();
      if !ok { return; }
      if 0xD800 <= cp <= 0xDBFF {
        if |s| - pos < 2 || s[pos..pos + 2] != "\\u" {
          ok := Fail(UnpairedSurrogate);
          return;
        }
        assert Left()[..2] == "\\u" && Left()[2..] == s[pos + 2..];
        pos := pos + 2;
        var lo;
        ok, lo := Hex();
        if !ok { return; }
        if lo < 0xDC00 || lo > 0xDFFF {
          ok := Fail(UnpairedSurrogate);
          return;
        }
        cp := 0x10000 + (cp - 0xD800) * 0x400 + (lo - 0xDC00);
      } else if 0xDC00 <= cp <= 0xDFFF {
        ok := Fail(UnpairedSurrogate);
      }
    }

    // The part of string() behind a backslash.
    method Escape() returns (ok: bool, text: string)
      requires Valid()
      modifies `pos, `error
      ensures EndsAs(ok, text, ParseEscape(old(Left()))) && pos >= old(pos)
    {
      hide CodePoint, Utf8, SimpleEscape;
      text := "";
      if pos >= |s| {
        ok := Fail(UnterminatedEscape);
        return;
      }
      var e := s[pos];
      assert Left()[1..] == s[pos + 1..];
      pos := pos + 1;
      if e == 'u' {
        var cp;
        ok, cp := UnicodeEscape();
        if ok { text := Utf8(cp); }
      } else if SimpleEscape(e) != "" {
        ok, text := true, SimpleEscape(e);
      } else {
        ok := Fail(InvalidEscape);
      }
    }

    // Reads a string behind its opening quote.
    method StringText() returns (ok: bool, out: string)
      requires Valid()
      modifies `pos, `error
      ensures EndsAs(ok, out, ParseString(old(Left()), "")) && pos >= old(pos)
    {
      hide ParseEscape;
      out := "";
      while true
        invariant old(pos) <= pos && Valid() && ParseString(Left(), out) == ParseString(old(Left()), "")
        decreases |s| - pos
      {
        if pos >= |s| {
          ok := Fail(UnterminatedString);
          return;
        }
        var c := s[pos];
        assert Left()[1..] == s[pos + 1..];
        pos := pos + 1;
        if c == '"' { return true, out; }
        if c < ' ' {
          ok := Fail(ControlCharacter);
          return;
        }
        if c != '\\' {
          out := out + [c];
          continue;
        }
        var text;
        ok, text := Escape();
        if !ok { return; }
        out := out + text;
      }
    }

    // ---------- Numbers ----------

    method NumberText() returns (ok: bool, lexeme: string)
      requires Valid()
      modifies `pos, `error
      ensures EndsAs(ok, lexeme, ParseNumber(old(Left()))) && pos >= old(pos)
    {
      hide Fraction, Exponent, SkipDigits;
      lexeme := "";
      var start := pos;
      if pos < |s| && s[pos] == '-' { pos := pos + 1; }
      if pos >= |s| {
        ok := Fail(InvalidNumber);
        return;
      }
      if s[pos] == '0' {
        assert Left()[1..] == s[pos + 1..];
        pos := pos + 1;
      } else {
        var any := Digits();
        if !any {
          ok := Fail(InvalidValue);
          return;
        }
      }
      ok := FractionPart();
      if !ok { return; }
      ok := ExponentPart();
      if !ok { return; }
      lexeme := s[start..pos];
      assert lexeme == s[start..][..pos - start];
    }

    method FractionPart() returns (ok: bool)
      requires Valid()
      modifies `pos, `error
      ensures EndsAs(ok, (), Fraction(old(Left()))) && pos >= old(pos)
    {
      if pos < |s| && s[pos] == '.' {
        assert Left()[1..] == s[pos + 1..];
        pos := pos + 1;
        var any := Digits();
        if !any {
          ok := Fail(InvalidNumber);
          return;
        }
      }
      ok := true;
    }

    method ExponentPart() returns (ok: bool)
      requires Valid()
      modifies `pos, `error
      ensures EndsAs(ok, (), Exponent(old(Left()))) && pos >= old(pos)
    {
      if pos < |s| && (s[pos] == 'e' || s[pos] == 'E') {
        assert Left()[1..] == s[pos + 1..];
        pos := pos + 1;
        if pos < |s| && (s[pos] == '+' || s[pos] == '-') {
          assert Left()[1..] == s[pos + 1..];
          pos := pos + 1;
        }
        var any := Digits();
        if !any {
          ok := Fail(InvalidNumber);
          return;
        }
      }
      ok := true;
    }

    // ---------- Values ----------

    method ReadValue(depth: nat) returns (ok: bool, v: Value)
      requires Valid()
      modifies `pos, `error
      ensures EndsAs(ok, v, ParseValue(old(Left()), depth, maxDepth)) && pos >= old(pos)
      decreases |s| - pos, 2
    {
      hide ParseObject, ParseArray, ParseString, ParseNumber, Literal;
      v := Null;
      if pos >= |s| {
        ok := Fail(UnexpectedEnd);
        return;
      }
      var c := s[pos];
      if c == '{' { ok, v := ReadObject(depth + 1); }
      else if c == '[' { ok, v := ReadArray(depth + 1); }
      else if c == '"' {
        assert Left()[1..] == s[pos + 1..];
        pos := pos + 1;
        var text;
        ok, text := StringText();
        v := String(text);
      }
      else if c == 't' { v := Bool(true); ok := LiteralWord("true", v); }
      else if c == 'f' { v := Bool(false); ok := LiteralWord("false", v); }
      else if c == 'n' { ok := LiteralWord("null", v); }
      else {
        var lexeme;
        ok, lexeme := NumberText();
        v := Number(lexeme);
      }
    }

    method ReadObject(depth: nat) returns (ok: bool, v: Value)
      requires Valid() && pos < |s|
      modifies `pos, `error
      ensures EndsAs(ok, v, ParseObject(old(Left()), depth, maxDepth)) && pos >= old(pos)
      decreases |s| - pos, 1
    {
      hide ParseValue, ParseString, ParseMembers;
      v := Object([]);
      if depth > maxDepth {
        ok := Fail(NestingTooDeep);
        return;
      }
      assert Left()[1..] == s[pos + 1..];
      pos := pos + 1;
      SkipWhite();
      if pos < |s| && s[pos] == '}' {
        assert Left()[1..] == s[pos + 1..];
        pos := pos + 1;
        return true, v;
      }
      ok, v := ReadMembers(depth);
    }

    // The first half of a round of the loop of object().
    method ReadMember(depth: nat) returns (ok: bool, m: Member)
      requires Valid()
      modifies `pos, `error
      ensures EndsAs(ok, m, ParseMember(old(Left()), depth, maxDepth)) && pos >= old(pos)
      decreases |s| - pos, 0
    {
      hide ParseValue, ParseString, SkipSpace;
      m := Member("", Null);
      SkipWhite();
      if pos >= |s| || s[pos] != '"' {
        ok := Fail(ExpectedKey);
        return;
      }
      assert Left()[1..] == s[pos + 1..];
      pos := pos + 1;
      var key;
      ok, key := StringText();
      if !ok { return; }
      SkipWhite();
      if pos >= |s| || s[pos] != ':' {
        ok := Fail(ExpectedColon);
        return;
      }
      assert Left()[1..] == s[pos + 1..];
      pos := pos + 1;
      SkipWhite();
      var value;
      ok, value := ReadValue(depth);
      m := Member(key, value);
    }

    // The loop of object().
    method ReadMembers(depth: nat) returns (ok: bool, v: Value)
      requires Valid()
      modifies `pos, `error
      ensures EndsAs(ok, v, ParseMembers(old(Left()), depth, maxDepth, [])) && pos >= old(pos)
      decreases |s| - pos, 3
    {
      hide ParseMember, SkipSpace;
      v := Object([]);
      var members: seq<Member> := [];
      while true
        invariant old(pos) <= pos && Valid()
        invariant ParseMembers(Left(), depth, maxDepth, members) == ParseMembers(old(Left()), depth, maxDepth, [])
        decreases |s| - pos
      {
        var member;
        ok, member := ReadMember(depth);
        if !ok { return; }
        members := members + [member];
        SkipWhite();
        if pos >= |s| {
          ok := Fail(UnterminatedObject);
          return;
        }
        assert Left()[1..] == s[pos + 1..];
        if s[pos] == ',' {
          pos := pos + 1;
          continue;
        }
        if s[pos] == '}' {
          pos := pos + 1;
          return true, Object(members);
        }
        ok := Fail(ExpectedCommaOrBrace);
        return;
      }
    }

    method ReadArray(depth: nat) returns (ok: bool, v: Value)
      requires Valid() && pos < |s|
      modifies `pos, `error
      ensures EndsAs(ok, v, ParseArray(old(Left()), depth, maxDepth)) && pos >= old(pos)
      decreases |s| - pos, 1
    {
      hide ParseValue, ParseItems;
      v := Array([]);
      if depth > maxDepth {
        ok := Fail(NestingTooDeep);
        return;
      }
      assert Left()[1..] == s[pos + 1..];
      pos := pos + 1;
      SkipWhite();
      if pos < |s| && s[pos] == ']' {
        assert Left()[1..] == s[pos + 1..];
        pos := pos + 1;
        return true, v;
      }
      ok, v := ReadItems(depth);
    }

    // The loop of array().
    method ReadItems(depth: nat) returns (ok: bool, v: Value)
      requires Valid()
      modifies `pos, `error
      ensures EndsAs(ok, v, ParseItems(old(Left()), depth, maxDepth, [])) && pos >= old(pos)
      decreases |s| - pos, 3
    {
      hide ParseValue, SkipSpace;
      v := Array([]);
      var items: seq<Value> := [];
      while true
        invariant old(pos) <= pos && Valid()
        invariant ParseItems(Left(), depth, maxDepth, items) == ParseItems(old(Left()), depth, maxDepth, [])
        decreases |s| - pos
      {
        SkipWhite();
        var item;
        ok, item := ReadValue(depth);
        if !ok { return; }
        items := items + [item];
        SkipWhite();
        if pos >= |s| {
          ok := Fail(UnterminatedArray);
          return;
        }
        assert Left()[1..] == s[pos + 1..];
        if s[pos] == ',' {
          pos := pos + 1;
          continue;
        }
        if s[pos] == ']' {
          pos := pos + 1;
          return true, Array(items);
        }
        ok := Fail(ExpectedCommaOrBracket);
        return;
      }
    }

    method Document() returns (ok: bool, v: Value)
      requires pos == 0
      modifies this
      ensures EndsAs(ok, v, ParseDocument(s, maxDepth))
    {
      assert Left() == s;
      SkipWhite();
      ok, v := ReadValue(0);
      if !ok { return; }
      SkipWhite();
      if pos != |s| { ok := Fail(TrailingCharacters); }
    }
  }
}
