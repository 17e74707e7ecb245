// The printer and the parser undo each other: what the printer writes is derived by the grammar without white space
// (tools/receiver/lib/json_writer.cpp, tools/ctl/backend/json_value.cpp).
module JsonRoundTrip {
  import opened JsonValue
  import opened JsonGrammar
  import opened JsonSyntax
  import opened JsonReading
  import JsonWriter
  import JsonParser

  // ---------- Strings ----------

  // Escaped text holds no control character, as section 7 of RFC 8259 demands of every JSON string.
  lemma {:induction false} EscapedHasNoControls(s: string)
    ensures forall i :: 0 <= i < |EscapeAll(s)| ==> EscapeAll(s)[i] >= ' '
  {
    if s != [] {
      EscapedHasNoControls(s[1..]);
      EscapeAllUnfolds(s);
    }
  }

  // How the printer spells one byte.
  function Spelling(c: char): CharSyntax {
    if c == '"' || c == '\\' then Short(c)
    else if c == '\n' then Short('n')
    else if c == '\r' then Short('r')
    else if c == '\t' then Short('t')
    else if c < ' ' then Unicode("00" + [HexDigit(c as int / 16), HexDigit(c as int % 16)])
    else Plain(c)
  }

  lemma ControlIsSpelled(c: char)
    requires c < ' '
    ensures var digits := "00" + [HexDigit(c as int / 16), HexDigit(c as int % 16)];
      FourDigits(digits) && HexNumber(digits) == c as int && Utf8(c as int) == [c]
  {
    var a, b := HexDigit(c as int / 16), HexDigit(c as int % 16);
    var digits := "00" + [a, b];
    assert digits[0] == '0' && digits[1] == '0' && digits[2] == a && digits[3] == b;
    assert HexOf('0') == 0 && HexOf(a) == c as int / 16 && HexOf(b) == c as int % 16;
  }

  lemma EscapeIsSpelling(c: char)
    ensures CharOk(Spelling(c)) && CharText(Spelling(c)) == EscapeChar(c) && CharValue(Spelling(c)) == [c]
    ensures !IsHigh(Spelling(c)) && !IsLow(Spelling(c))
  {
    hide HexDigit, HexNumber, Utf8;
    if c < ' ' {
      ControlIsSpelled(c);
      var digits := "00" + [HexDigit(c as int / 16), HexDigit(c as int % 16)];
      assert "\\u" + digits == "\\u00" + [HexDigit(c as int / 16), HexDigit(c as int % 16)];
    }
  }

  // One escaped character, wherever it stands, is read back as itself.
  lemma EscapeCharParses(c: char, rest: string, acc: string)
    ensures ParseString(EscapeChar(c) + rest, acc) == ParseString(rest, acc + [c])
  {
    hide ParseString, Spelling, EscapeChar;
    EscapeIsSpelling(c);
    CharReads(Spelling(c), rest, acc);
  }

  function SpellingsOf(s: string): seq<CharSyntax> {
    if s == [] then [] else [Spelling(s[0])] + SpellingsOf(s[1..])
  }

  lemma {:induction false} EscapedIsSpelled(s: string)
    ensures CharsOk(SpellingsOf(s)) && CharsText(SpellingsOf(s)) == EscapeAll(s) && CharsValue(SpellingsOf(s)) == s
    ensures PairedChars(SpellingsOf(s))
  {
    hide CharOk, CharText, CharValue, Spelling, EscapeChar, PairedChars, IsHigh, IsLow;
    if s == [] {
      NothingIsPaired();
    } else {
      EscapeIsSpelling(s[0]);
      EscapedIsSpelled(s[1..]);
      assert SpellingsOf(s)[1..] == SpellingsOf(s[1..]);
      PairedFront(SpellingsOf(s));
    }
  }

  lemma QuotedParses(s: string, rest: string, acc: string)
    ensures ParseString(EscapeAll(s) + ("\"" + rest), acc) == Ok(acc + s, rest)
  {
    hide ParseString, SpellingsOf, EscapeAll;
    EscapedIsSpelled(s);
    CharsRead(SpellingsOf(s), rest, acc);
  }

  // ---------- Values ----------

  lemma IntegerIsNumber(lexeme: string) returns (n: NumberSyntax)
    requires IsIntText(lexeme)
    ensures NumberOk(n) && NumberText(n) == lexeme
  {
    if lexeme[0] == '-' {
      n := NumberSyntax(true, lexeme[1..], "", "");
      assert lexeme == "-" + lexeme[1..];
    } else {
      n := NumberSyntax(false, lexeme, "", "");
    }
  }

  // The derivation of what the printer writes for a value.
  lemma {:induction false} RenderIsDerived(v: Value) returns (x: Syntax)
    requires Writable(v)
    ensures Derived(x) && Paired(x) && TextOf(x) == Render(v) && ValueOf(x) == v
    decreases v, 1
  {
    hide EscapeAll, SpellingsOf, JoinItems, JoinMembers, ItemsText, MembersText, PairedChars, CharsValue, CharsOk;
    match v
    case Null => x := NullWord;
    case Bool(b) => x := if b then TrueWord else FalseWord;
    case Number(lexeme) =>
      var n := IntegerIsNumber(lexeme);
      x := NumberOf(n);
    case String(text) =>
      EscapedIsSpelled(text);
      x := StringOf(SpellingsOf(text));
    case Array(items) =>
      var syntax := ItemsAreDerived(items);
      NoneJoined();
      x := ArrayOf("", syntax);
    case Object(members) =>
      var syntax := MembersAreDerived(members);
      NoneJoined();
      x := ObjectOf("", syntax);
  }

  lemma NoneJoined()
    ensures JoinItems([]) == "" && JoinMembers([]) == ""
  {
  }

  lemma {:induction false} ItemsAreDerived(items: seq<Value>) returns (syntax: seq<ItemSyntax>)
    requires forall i :: 0 <= i < |items| ==> Writable(items[i])
    ensures ItemsOk(syntax) && ItemsOf(syntax) == items && (items != [] ==> ItemsText(syntax) == JoinItems(items))
    ensures ItemsPaired(syntax)
    decreases items, 0
  {
    hide Render, TextOf, ValueOf, Derived, Writable, Paired;
    if items == [] {
      syntax := [];
    } else {
      var x := RenderIsDerived(items[0]);
      var more := ItemsAreDerived(items[1..]);
      syntax := [ItemSyntax("", x, "")] + more;
      assert syntax[1..] == more;
      assert ItemText(syntax[0]) == Render(items[0]);
      assert items == [items[0]] + items[1..];
    }
  }

  lemma {:induction false} MembersAreDerived(members: seq<Member>) returns (syntax: seq<MemberSyntax>)
    requires forall i :: 0 <= i < |members| ==> Writable(members[i].value)
    ensures MembersOk(syntax) && MembersOf(syntax) == members
        && (members != [] ==> MembersText(syntax) == JoinMembers(members))
    ensures MembersPaired(syntax)
    decreases members, 0
  {
    hide Render, TextOf, ValueOf, Derived, Writable, EscapeAll, SpellingsOf, CharsText, CharsValue, CharsOk,
        MemberText, RenderMember, MemberPaired;
    if members == [] {
      syntax := [];
    } else {
      var x := RenderIsDerived(members[0].value);
      var more := MembersAreDerived(members[1..]);
      var first := MemberIsDerived(members[0], x);
      syntax := [first] + more;
      assert syntax[1..] == more;
      assert members == [members[0]] + members[1..];
    }
  }

  lemma MemberIsDerived(m: Member, x: Syntax) returns (syntax: MemberSyntax)
    requires Derived(x) && Paired(x) && TextOf(x) == Render(m.value) && ValueOf(x) == m.value
    ensures MemberOk(syntax) && MemberPaired(syntax)
    ensures MemberText(syntax) == RenderMember(m) && MemberOf(syntax) == m
  {
    hide Render, TextOf, ValueOf, Derived, Paired, PairedChars, EscapeAll, SpellingsOf, CharsText, CharsValue;
    EscapedIsSpelled(m.key);
    syntax := MemberSyntax("", SpellingsOf(m.key), "", "", x, "");
    MemberTextUnfolds(syntax, "");
    assert MemberText(syntax) + "" == MemberText(syntax);
    assert "" + ("\"" + (EscapeAll(m.key) + ("\"" + ("" + (":" + ("" + (Render(m.value) + ("" + "")))))))) ==
        RenderMember(m);
  }

  // ---------- The theorem ----------

  // For every value the writer can write: parsing its text gives the value back, in the same order and
  // with nothing left over, exactly when it is nested no more deeply than the parser allows; otherwise
  // the complaint is that it is nested too deeply.
  lemma PrintedValueParses(v: Value, maxDepth: nat)
    requires Writable(v)
    ensures ParseDocument(Render(v), maxDepth) == Ok(v, []) <==> Height(v) <= maxDepth
    ensures Height(v) > maxDepth ==>
      ParseDocument(Render(v), maxDepth).Failed? && ParseDocument(Render(v), maxDepth).complaint == NestingTooDeep
  {
    hide ParseDocument, Render, TextOf, Derived, ValueOf, Height, Paired;
    var x := RenderIsDerived(v);
    var d := Document("", x, "");
    assert DocumentText(d) == Render(v);
    DocumentReads(d, maxDepth);
  }

  // Writing with one object and reading with the other, as the receiver and the control tool do.
  method WriteThenRead(v: Value, maxDepth: nat) returns (ok: bool, r: Value)
    requires Writable(v)
    ensures ok <==> Height(v) <= maxDepth
    ensures ok ==> r == v
  {
    PrintedValueParses(v, maxDepth);
    hide Render, ParseDocument;
    var j := new JsonWriter.JsonWriter();
    JsonWriter.WriteValue(j, v);
    assert j.out == Render(v);
    var p := new JsonParser.Parser(j.out, maxDepth);
    ok, r := p.Document();
  }

  // ---------- UTF-8 ----------

  // The code point that a UTF-8 sequence encodes (RFC 3629, section 3).
  function CodePointOf(s: string): int
    requires 1 <= |s| <= 4
  {
    if |s| == 1 then s[0] as int
    else if |s| == 2 then (s[0] as int - 0xC0) * 0x40 + (s[1] as int - 0x80)
    else if |s| == 3 then (s[0] as int - 0xE0) * 0x1000 + (s[1] as int - 0x80) * 0x40 + (s[2] as int - 0x80)
    else
      (s[0] as int - 0xF0) * 0x40000 + (s[1] as int - 0x80) * 0x1000 + (s[2] as int - 0x80) * 0x40
      + (s[3] as int - 0x80)
  }

  // append_utf8 writes bytes, in the shortest form, that encode the code point.
  lemma Utf8Encodes(cp: nat)
    requires cp < 0x110000
    ensures var s := Utf8(cp);
      && 1 <= |s| <= 4 && CodePointOf(s) == cp
      && (forall i :: 0 <= i < |s| ==> s[i] as int < 0x100)
      && |s| == (if cp < 0x80 then 1 else if cp < 0x800 then 2 else if cp < 0x10000 then 3 else 4)
      && forall i :: 1 <= i < |s| ==> 0x80 <= s[i] as int < 0xC0
  {
    assert cp / 0x40 == cp / 0x1000 * 0x40 + cp / 0x40 % 0x40;
    assert cp / 0x1000 == cp / 0x40000 * 0x40 + cp / 0x1000 % 0x40;
  }
}
