// Every text that the parser accepts is derived by the grammar of RFC 8259 and denotes the value returned; so a text
// is accepted if and only if it is derived, without lone surrogates and within the nesting limit
// (tools/ctl/backend/json_value.cpp:22-250).
module JsonDerivation {
  import opened JsonValue
  import opened JsonGrammar
  import opened JsonSyntax
  import opened JsonReading

  lemma {:induction false} SpaceOf(t: string) returns (space: string)
    ensures AllSpace(space) && t == space + SkipSpace(t)
  {
    if t != [] && IsSpace(t[0]) {
      var more := SpaceOf(t[1..]);
      space := [t[0]] + more;
      assert t == [t[0]] + t[1..];
    } else {
      space := [];
    }
  }

  // ---------- Strings ----------

  lemma FourDigitsOf(t: string)
    requires Hex4(t).Ok?
    ensures |t| >= 4 && FourDigits(t[..4]) && Hex4(t) == Ok(HexNumber(t[..4]), t[4..])
  {
    hide IsHex, HexOf;
  }

  // A character that is no high surrogate, or a pair.
  predicate IsUnit(cs: seq<CharSyntax>) {
    CharsOk(cs) && if |cs| == 1 then !IsHigh(cs[0]) else |cs| == 2 && IsHigh(cs[0]) && IsLow(cs[1])
  }

  lemma OneUnit(c: CharSyntax)
    requires CharOk(c) && !IsHigh(c)
    ensures IsUnit([c]) && CharsText([c]) == CharText(c) && CharsValue([c]) == CharValue(c)
  {
    hide CharText, CharValue;
    assert [c][1..] == [];
  }

  lemma TwoUnits(high: CharSyntax, low: CharSyntax)
    requires IsHigh(high) && IsLow(low)
    ensures IsUnit([high, low]) && CharsText([high, low]) == CharText(high) + CharText(low)
    ensures CharsValue([high, low]) == PairValue(high, low)
  {
    hide PairValue, HexNumber;
    assert [high, low][1..] == [low] && [low][1..] == [] && [high, low][2..] == [];
    assert CharsText([low]) == CharText(low);
  }

  // The escape that the parser read, behind its backslash.
  lemma EscapeDerives(t: string) returns (cs: seq<CharSyntax>)
    requires ParseEscape(t).Ok?
    ensures IsUnit(cs) && "\\" + t == CharsText(cs) + ParseEscape(t).rest && ParseEscape(t).value == CharsValue(cs)
  {
    hide CodePoint, CharsText, CharsValue, IsUnit, Utf8;
    if t[0] == 'u' {
      cs := UnicodeDerives(t[1..]);
      assert t == "u" + t[1..];
      assert "\\" + t == "\\u" + t[1..];
    } else {
      cs := [Short(t[0])];
      OneUnit(Short(t[0]));
      assert t == [t[0]] + t[1..];
    }
  }

  lemma UnicodeDerives(t: string) returns (cs: seq<CharSyntax>)
    requires CodePoint(t).Ok?
    ensures IsUnit(cs) && "\\u" + t == CharsText(cs) + CodePoint(t).rest && Utf8(CodePoint(t).value) == CharsValue(cs)
  {
    hide Hex4, HexNumber, Utf8, CharsText, CharsValue, IsUnit;
    FourDigitsOf(t);
    var behind := t[4..];
    if 0xD800 <= HexNumber(t[..4]) <= 0xDBFF {
      var low := behind[2..];
      FourDigitsOf(low);
      cs := [Unicode(t[..4]), Unicode(low[..4])];
      TwoUnits(Unicode(t[..4]), Unicode(low[..4]));
      PairSplits(t);
    } else {
      cs := [Unicode(t[..4])];
      OneUnit(Unicode(t[..4]));
      assert "\\u" + t == "\\u" + t[..4] + behind;
    }
  }

  lemma PairSplits(t: string)
    requires |t| >= 10 && t[4..][..2] == "\\u"
    ensures var low := t[4..][2..]; "\\u" + t == ("\\u" + t[..4]) + ("\\u" + low[..4]) + low[4..]
  {
    var behind := t[4..];
    assert t == t[..4] + behind && behind == behind[..2] + behind[2..];
  }

  lemma {:induction false} CharsDerive(t: string, acc: string) returns (cs: seq<CharSyntax>)
    requires ParseString(t, acc).Ok?
    ensures CharsOk(cs) && t == CharsText(cs) + ("\"" + ParseString(t, acc).rest)
    ensures ParseString(t, acc).value == acc + CharsValue(cs)
    decreases |t|
  {
    hide ParseEscape, CharOk, CharText, CharValue, IsUnit, CharsValue, CharsText;
    if t[0] == '"' {
      cs := [];
      NoChars();
      assert t == "\"" + t[1..] && acc + "" == acc && "" + t == t;
    } else if t[0] == '\\' {
      var unit := EscapeDerives(t[1..]);
      var r := ParseEscape(t[1..]);
      var more := CharsDerive(r.rest, acc + r.value);
      cs := unit + more;
      UnitInFront(unit, more);
      assert t == "\\" + t[1..];
      TwoParts(CharsText(unit), CharsText(more), "\"" + ParseString(t, acc).rest);
      TwoParts(acc, r.value, CharsValue(more));
    } else {
      PlainChar(t[0]);
      OneUnit(Plain(t[0]));
      var more := CharsDerive(t[1..], acc + [t[0]]);
      cs := [Plain(t[0])] + more;
      UnitInFront([Plain(t[0])], more);
      assert t == [t[0]] + t[1..];
      TwoParts([t[0]], CharsText(more), "\"" + ParseString(t, acc).rest);
      TwoParts(acc, [t[0]], CharsValue(more));
    }
  }

  lemma NoChars()
    ensures CharsOk([]) && CharsText([]) == "" && CharsValue([]) == ""
  {
  }

  lemma UnitInFront(unit: seq<CharSyntax>, more: seq<CharSyntax>)
    requires IsUnit(unit) && CharsOk(more)
    ensures CharsOk(unit + more) && CharsText(unit + more) == CharsText(unit) + CharsText(more)
        && CharsValue(unit + more) == CharsValue(unit) + CharsValue(more)
  {
    hide CharOk, CharText, CharValue, IsHigh, IsLow, PairValue;
    var cs := unit + more;
    assert unit[1..] + more == cs[1..];
    if |unit| == 1 {
      assert cs[1..] == more && unit[1..] == [];
    } else {
      assert cs[2..] == more && cs[1..][1..] == more && unit[1..][1..] == [] && unit[2..] == [];
      assert CharsText(cs[1..]) == CharText(cs[1]) + CharsText(more);
      assert CharsText(unit[1..]) == CharText(cs[1]);
    }
  }

  lemma PlainChar(c: char)
    requires c >= ' ' && c != '"' && c != '\\'
    ensures CharOk(Plain(c)) && CharText(Plain(c)) == [c] && CharValue(Plain(c)) == [c]
  {
  }

  lemma TwoParts(a: string, b: string, c: string)
    ensures a + b + c == a + (b + c)
  {
  }

  // ---------- Numbers ----------

  lemma {:induction false} DigitsOf(t: string) returns (digits: string)
    ensures AllDigits(digits) && t == digits + SkipDigits(t)
  {
    if t != [] && IsDigit(t[0]) {
      var more := DigitsOf(t[1..]);
      digits := [t[0]] + more;
      assert t == [t[0]] + t[1..];
    } else {
      digits := [];
    }
  }

  lemma FractionOf(t: string) returns (fraction: string)
    requires Fraction(t).Ok?
    ensures IsFraction(fraction) && t == fraction + Fraction(t).rest
  {
    if t != [] && t[0] == '.' {
      var digits := DigitsOf(t[1..]);
      fraction := "." + digits;
      assert fraction[1..] == digits && t == "." + t[1..];
    } else {
      fraction := "";
    }
  }

  lemma ExponentOf(t: string) returns (exponent: string)
    requires Exponent(t).Ok?
    ensures IsExponent(exponent) && t == exponent + Exponent(t).rest
  {
    hide IsExponent, SkipDigits;
    if t != [] && (t[0] == 'e' || t[0] == 'E') {
      var u := t[1..];
      var sign := if u != [] && (u[0] == '+' || u[0] == '-') then [u[0]] else [];
      var v := u[|sign|..];
      var digits := DigitsOf(v);
      exponent := [t[0]] + (sign + digits);
      assert u == sign + v;
      ExponentIsOk(t[0], sign, digits);
      Reassemble(t, sign, digits, SkipDigits(v));
    } else {
      exponent := "";
      NoExponent();
    }
  }

  lemma NoExponent()
    ensures IsExponent("")
  {
  }

  lemma Reassemble(t: string, sign: string, digits: string, rest: string)
    requires t != [] && t[1..] == sign + (digits + rest)
    ensures t == [t[0]] + (sign + digits) + rest
  {
    assert t == [t[0]] + t[1..];
  }

  lemma ExponentIsOk(e: char, sign: string, digits: string)
    requires (e == 'e' || e == 'E') && (sign == "" || sign == "+" || sign == "-") && digits != "" && AllDigits(digits)
    ensures IsExponent([e] + (sign + digits))
  {
    var s := [e] + (sign + digits);
    assert IsDigit(digits[0]);
    if sign == "" {
      assert s[1] == digits[0] && s[1..] == digits;
    } else {
      assert s[1] == sign[0] && s[2..] == digits;
    }
  }

  lemma IntegerOf(a: string) returns (integer: string)
    requires a != [] && (a[0] == '0' || SkipDigits(a) != a)
    ensures IsNatText(integer) && a == integer + if a[0] == '0' then a[1..] else SkipDigits(a)
  {
    if a[0] == '0' {
      integer := "0";
    } else {
      integer := DigitsOf(a);
      assert integer[0] == a[0];
    }
  }

  lemma NumberDerives(t: string) returns (n: NumberSyntax)
    requires ParseNumber(t).Ok?
    ensures NumberOk(n) && t == NumberText(n) + ParseNumber(t).rest && ParseNumber(t).value == NumberText(n)
  {
    hide Fraction, Exponent, IsFraction, IsExponent, IsNatText, SkipDigits;
    var a := if t[0] == '-' then t[1..] else t;
    var integer := IntegerOf(a);
    var b := if a[0] == '0' then a[1..] else SkipDigits(a);
    var fraction := FractionOf(b);
    var c := Fraction(b).rest;
    var exponent := ExponentOf(c);
    n := NumberSyntax(t[0] == '-', integer, fraction, exponent);
    NumberSplits(n, Exponent(c).rest);
    assert t[0] == '-' ==> t == "-" + a;
  }

  // ---------- Values ----------

  // x derives the text in front of r's rest, and denotes r's value.
  predicate Explains(x: Syntax, t: string, r: Parsed<Value>) {
    r.Ok? && Derived(x) && t == TextOf(x) + r.rest && ValueOf(x) == r.value
  }

  lemma {:induction false} ValueDerives(t: string, depth: nat, maxDepth: nat) returns (x: Syntax)
    requires ParseValue(t, depth, maxDepth).Ok?
    ensures Explains(x, t, ParseValue(t, depth, maxDepth))
    decreases |t|, 2
  {
    hide ParseObject, ParseArray, ParseString, ParseNumber, CharsText, CharsValue, CharsOk, NumberOk, NumberText;
    var r := ParseValue(t, depth, maxDepth);
    if t[0] == '{' {
      x := ObjectDerives(t, depth + 1, maxDepth);
    } else if t[0] == '[' {
      x := ArrayDerives(t, depth + 1, maxDepth);
    } else if t[0] == '"' {
      var cs := CharsDerive(t[1..], "");
      x := StringOf(cs);
      StringExplained(t, cs, r.rest);
      assert "" + CharsValue(cs) == CharsValue(cs);
    } else if t[0] == 't' {
      x := TrueWord;
      WordExplained(t, "true");
    } else if t[0] == 'f' {
      x := FalseWord;
      WordExplained(t, "false");
    } else if t[0] == 'n' {
      x := NullWord;
      WordExplained(t, "null");
    } else {
      var n := NumberDerives(t);
      x := NumberOf(n);
    }
  }

  lemma WordExplained(t: string, word: string)
    ensures word <= t ==> t == word + t[|word|..]
  {
  }

  lemma StringExplained(t: string, cs: seq<CharSyntax>, rest: string)
    requires t != [] && t[0] == '"' && t[1..] == CharsText(cs) + ("\"" + rest)
    ensures t == StringText(cs) + rest
  {
    hide CharsText;
    assert t == "\"" + t[1..];
  }

  lemma ArrayDerives(t: string, depth: nat, maxDepth: nat) returns (x: Syntax)
    requires t != [] && t[0] == '[' && ParseArray(t, depth, maxDepth).Ok?
    ensures Explains(x, t, ParseArray(t, depth, maxDepth))
    decreases |t|, 1
  {
    hide ParseItems, SkipSpace, ItemsText, ItemsOk, TextOf, ValueOf, Derived;
    var u := SkipSpace(t[1..]);
    var space := SpaceOf(t[1..]);
    if u != [] && u[0] == ']' {
      x := ArrayOf(space, []);
      NothingIn(space);
      Bracketed(t, "[", space, "", "]", u[1..]);
      assert space + "" == space;
    } else {
      var items := ItemsDerive(u, depth, maxDepth, []);
      x := SpacedItems(space, items);
      Bracketed(t, "[", space, ItemsText(items), "]", ParseArray(t, depth, maxDepth).rest);
      assert [] + ItemsOf(items) == ItemsOf(items);
    }
  }

  lemma Bracketed(t: string, open: string, space: string, inner: string, close: string, rest: string)
    requires t != [] && t[..1] == open && (t[1..] == space + (inner + (close + rest)))
    ensures t == open + (space + inner) + close + rest
  {
    assert t == t[..1] + t[1..];
  }

  lemma NothingIn(space: string)
    requires AllSpace(space)
    ensures Derived(ArrayOf(space, [])) && TextOf(ArrayOf(space, [])) == "[" + space + "]"
    ensures Derived(ObjectOf(space, [])) && TextOf(ObjectOf(space, [])) == "{" + space + "}"
    ensures ValueOf(ArrayOf(space, [])) == Array([]) && ValueOf(ObjectOf(space, [])) == Object([])
  {
  }

  // The white space behind the bracket belongs to the first item.
  lemma SpacedItems(space: string, items: seq<ItemSyntax>) returns (x: Syntax)
    requires AllSpace(space) && items != [] && ItemsOk(items)
    ensures Derived(x) && TextOf(x) == "[" + (space + ItemsText(items)) + "]" && ValueOf(x) == Array(ItemsOf(items))
  {
    hide ItemText, ItemsText, ItemsOf, ItemOk, Derived, ValueOf;
    assert ItemOk(items[0]);
    var first := SpacedItem(space, items[0]);
    var spaced := [first] + items[1..];
    assert spaced[1..] == items[1..];
    FirstItem(items);
    FirstItem(spaced);
    x := SpacedArray(spaced);
  }

  lemma SpacedItem(space: string, i: ItemSyntax) returns (first: ItemSyntax)
    requires AllSpace(space) && ItemOk(i)
    ensures ItemOk(first) && ItemText(first) == space + ItemText(i) && ValueOf(first.value) == ValueOf(i.value)
  {
    hide TextOf, ValueOf, Derived;
    first := i.(before := space + i.before);
    var text := TextOf(i.value);
    assert (space + i.before) + text + i.after == space + (i.before + text + i.after);
  }

  lemma FirstItem(items: seq<ItemSyntax>)
    requires items != [] && ItemsOk(items)
    ensures ItemOk(items[0]) && ItemsOk(items[1..])
    ensures ItemsText(items) == ItemText(items[0]) + if |items| == 1 then "" else "," + ItemsText(items[1..])
    ensures ItemsOf(items) == [ValueOf(items[0].value)] + ItemsOf(items[1..])
  {
    hide ItemText, ValueOf, Derived;
    assert ItemOk(items[0]);
  }

  lemma SpacedArray(items: seq<ItemSyntax>) returns (x: Syntax)
    requires items != [] && ItemsOk(items)
    ensures Derived(x) && TextOf(x) == "[" + ItemsText(items) + "]" && ValueOf(x) == Array(ItemsOf(items))
  {
    hide ItemsText, ItemsOf, ItemsOk;
    x := ArrayOf("", items);
  }

  lemma {:induction false} ItemsDerive(t: string, depth: nat, maxDepth: nat, acc: seq<Value>)
    returns (items: seq<ItemSyntax>)
    requires ParseItems(t, depth, maxDepth, acc).Ok?
    ensures var r := ParseItems(t, depth, maxDepth, acc);
      items != [] && ItemsOk(items) && t == ItemsText(items) + ("]" + r.rest) && r.value == Array(acc + ItemsOf(items))
    decreases |t|, 3
  {
    hide ParseValue, SkipSpace, TextOf, ItemText, ItemsText, ItemOk, ItemsOf, ValueOf, Derived;
    var r := ParseItems(t, depth, maxDepth, acc);
    var u := SkipSpace(t);
    var before := SpaceOf(t);
    var x := ValueDerives(u, depth, maxDepth);
    var behind := ParseValue(u, depth, maxDepth).rest;
    var after := SpaceOf(behind);
    var end := SkipSpace(behind);
    var i := ItemSyntax(before, x, after);
    ItemExplained(t, i, end);
    if end[0] == ',' {
      var more := ItemsDerive(end[1..], depth, maxDepth, acc + [ValueOf(x)]);
      items := OneMoreItem(i, more);
      assert end == "," + end[1..];
      assert t == ItemText(i) + "," + ItemsText(more) + ("]" + r.rest);
      assert acc + [ValueOf(x)] + ItemsOf(more) == acc + ItemsOf(items);
    } else {
      items := OnlyItem(i);
      assert end == "]" + end[1..];
    }
  }

  lemma ItemExplained(t: string, i: ItemSyntax, end: string)
    requires AllSpace(i.before) && AllSpace(i.after) && Derived(i.value)
    requires t == i.before + (TextOf(i.value) + (i.after + end))
    ensures ItemOk(i) && t == ItemText(i) + end
  {
    hide TextOf;
  }

  lemma OneMoreItem(i: ItemSyntax, more: seq<ItemSyntax>) returns (items: seq<ItemSyntax>)
    requires ItemOk(i) && more != [] && ItemsOk(more)
    ensures items != [] && ItemsOk(items) && ItemsText(items) == ItemText(i) + "," + ItemsText(more)
    ensures Derived(i.value) && ItemsOf(items) == [ValueOf(i.value)] + ItemsOf(more)
  {
    hide ItemText, ValueOf;
    items := [i] + more;
    assert items[1..] == more;
  }

  lemma OnlyItem(i: ItemSyntax) returns (items: seq<ItemSyntax>)
    requires ItemOk(i)
    ensures items != [] && ItemsOk(items) && ItemsText(items) == ItemText(i)
    ensures Derived(i.value) && ItemsOf(items) == [ValueOf(i.value)]
  {
    hide ItemText, ValueOf;
    items := [i];
    assert items[1..] == [] && ItemText(i) + "" == ItemText(i);
  }

  // ---------- Objects ----------

  lemma ObjectDerives(t: string, depth: nat, maxDepth: nat) returns (x: Syntax)
    requires t != [] && t[0] == '{' && ParseObject(t, depth, maxDepth).Ok?
    ensures Explains(x, t, ParseObject(t, depth, maxDepth))
    decreases |t|, 1
  {
    hide ParseMembers, SkipSpace, MembersText, MembersOk, TextOf, ValueOf, Derived;
    var u := SkipSpace(t[1..]);
    var space := SpaceOf(t[1..]);
    if u != [] && u[0] == '}' {
      x := ObjectOf(space, []);
      NothingIn(space);
      Bracketed(t, "{", space, "", "}", u[1..]);
      assert space + "" == space;
    } else {
      var members := MembersDerive(u, depth, maxDepth, []);
      x := SpacedMembers(space, members);
      Bracketed(t, "{", space, MembersText(members), "}", ParseObject(t, depth, maxDepth).rest);
      assert [] + MembersOf(members) == MembersOf(members);
    }
  }

  lemma SpacedMembers(space: string, members: seq<MemberSyntax>) returns (x: Syntax)
    requires AllSpace(space) && members != [] && MembersOk(members)
    ensures Derived(x) && TextOf(x) == "{" + (space + MembersText(members)) + "}"
        && ValueOf(x) == Object(MembersOf(members))
  {
    hide MemberText, MemberOf, MembersText, MembersOf, MemberOk;
    assert MemberOk(members[0]);
    var first := SpacedMember(space, members[0]);
    var spaced := [first] + members[1..];
    assert spaced[1..] == members[1..];
    FirstMember(members);
    FirstMember(spaced);
    x := ObjectOf("", spaced);
  }

  lemma SpacedMember(space: string, m: MemberSyntax) returns (first: MemberSyntax)
    requires AllSpace(space) && MemberOk(m)
    ensures MemberOk(first) && MemberText(first) == space + MemberText(m) && MemberOf(first) == MemberOf(m)
  {
    hide CharsText, CharsValue, TextOf, ValueOf;
    first := m.(before := space + m.before);
    MemberTextUnfolds(first, "");
    MemberTextUnfolds(m, "");
    assert MemberText(first) + "" == MemberText(first) && MemberText(m) + "" == MemberText(m);
  }

  lemma FirstMember(members: seq<MemberSyntax>)
    requires members != [] && MembersOk(members)
    ensures MembersText(members) ==
        MemberText(members[0]) + if |members| == 1 then "" else "," + MembersText(members[1..])
    ensures MemberOk(members[0]) && MembersOf(members) == [MemberOf(members[0])] + MembersOf(members[1..])
  {
    hide MemberText, MemberOf;
  }

  // The member that the parser read; the white space behind it is still to be read.
  lemma {:induction false} MemberDerives(t: string, depth: nat, maxDepth: nat) returns (m: MemberSyntax)
    requires ParseMember(t, depth, maxDepth).Ok?
    ensures MemberOk(m) && m.after == "" && t == MemberText(m) + ParseMember(t, depth, maxDepth).rest
    ensures ParseMember(t, depth, maxDepth).value == MemberOf(m)
    decreases |t|, 0
  {
    hide ParseValue, ParseString, SkipSpace, TextOf, ValueOf, Derived, CharsText, CharsValue, CharsOk, MemberText;
    var rest := ParseMember(t, depth, maxDepth).rest;
    var before := SpaceOf(t);
    var u := SkipSpace(t);
    var key := CharsDerive(u[1..], "");
    var afterKey := ParseString(u[1..], "").rest;
    var space := SpaceOf(afterKey);
    var w := SkipSpace(afterKey);
    var beforeValue := SpaceOf(w[1..]);
    var x := ValueDerives(SkipSpace(w[1..]), depth, maxDepth);
    m := MemberSyntax(before, key, space, beforeValue, x, "");
    assert "" + CharsValue(key) == CharsValue(key) && "" + rest == rest;
    assert u == "\"" + u[1..] && w == ":" + w[1..];
    MemberTextUnfolds(m, rest);
  }

  lemma {:induction false} MembersDerive(t: string, depth: nat, maxDepth: nat, acc: seq<Member>)
    returns (members: seq<MemberSyntax>)
    requires ParseMembers(t, depth, maxDepth, acc).Ok?
    ensures var r := ParseMembers(t, depth, maxDepth, acc);
      members != [] && MembersOk(members) && t == MembersText(members) + ("}" + r.rest)
        && r.value == Object(acc + MembersOf(members))
    decreases |t|, 3
  {
    hide ParseMember, SkipSpace, MemberText, MembersText, MemberOk, MemberOf, MembersOf;
    var r := ParseMembers(t, depth, maxDepth, acc);
    var m0 := MemberDerives(t, depth, maxDepth);
    var behind := ParseMember(t, depth, maxDepth).rest;
    var after := SpaceOf(behind);
    var end := SkipSpace(behind);
    var m := m0.(after := after);
    MemberExplained(m0, after, end);
    if end[0] == ',' {
      var more := MembersDerive(end[1..], depth, maxDepth, acc + [MemberOf(m)]);
      members := OneMoreMember(m, more);
      assert end == "," + end[1..];
      assert t == MemberText(m) + "," + MembersText(more) + ("}" + r.rest);
      assert acc + [MemberOf(m)] + MembersOf(more) == acc + MembersOf(members);
    } else {
      members := OnlyMember(m);
      assert end == "}" + end[1..];
    }
  }

  lemma MemberExplained(m: MemberSyntax, after: string, end: string)
    requires MemberOk(m) && m.after == "" && AllSpace(after)
    ensures MemberOk(m.(after := after)) && MemberOf(m.(after := after)) == MemberOf(m)
    ensures MemberText(m) + (after + end) == MemberText(m.(after := after)) + end
  {
    hide TextOf, CharsText, ValueOf, CharsValue;
    MemberTextUnfolds(m, after + end);
    MemberTextUnfolds(m.(after := after), end);
    assert "" + (after + end) == after + end;
  }

  lemma OneMoreMember(m: MemberSyntax, more: seq<MemberSyntax>) returns (members: seq<MemberSyntax>)
    requires MemberOk(m) && more != [] && MembersOk(more)
    ensures members != [] && MembersOk(members) && MembersText(members) == MemberText(m) + "," + MembersText(more)
    ensures MembersOf(members) == [MemberOf(m)] + MembersOf(more)
  {
    hide MemberText, MemberOf;
    members := [m] + more;
    assert members[1..] == more;
  }

  lemma OnlyMember(m: MemberSyntax) returns (members: seq<MemberSyntax>)
    requires MemberOk(m)
    ensures members != [] && MembersOk(members) && MembersText(members) == MemberText(m)
    ensures MembersOf(members) == [MemberOf(m)]
  {
    hide MemberText, MemberOf;
    members := [m];
    assert members[1..] == [] && MemberText(m) + "" == MemberText(m);
  }

  // ---------- The theorems ----------

  // d derives the text t.
  predicate Derives(d: Document, t: string) {
    DocumentOk(d) && t == DocumentText(d)
  }

  lemma DocumentDerives(t: string, maxDepth: nat) returns (d: Document)
    requires ParseDocument(t, maxDepth).Ok?
    ensures Derives(d, t) && ValueOf(d.value) == ParseDocument(t, maxDepth).value
  {
    hide ParseValue, SkipSpace, TextOf, ValueOf, Derived;
    var before := SpaceOf(t);
    var x := ValueDerives(SkipSpace(t), 0, maxDepth);
    var behind := ParseValue(SkipSpace(t), 0, maxDepth).rest;
    var after := SpaceOf(behind);
    d := Document(before, x, after);
    assert after + [] == after;
    assert t == before + TextOf(x) + after;
  }

  // For every text: the parser accepts it if and only if the grammar of RFC 8259 derives it with all surrogates
  // paired, as a value that nests within the limit.
  lemma AcceptedIffDerived(t: string, maxDepth: nat)
    ensures ParseDocument(t, maxDepth).Ok? <==>
      exists d :: Derives(d, t) && Paired(d.value) && Height(ValueOf(d.value)) <= maxDepth
  {
    hide ParseDocument, Height, DocumentOk, DocumentText, ValueOf, Paired;
    if ParseDocument(t, maxDepth).Ok? {
      var d := DocumentDerives(t, maxDepth);
      DocumentReads(d, maxDepth);
    } else {
      forall d | Derives(d, t)
        ensures !Paired(d.value) || Height(DenotedBy(d)) > maxDepth
      {
        DocumentReads(d, maxDepth);
      }
    }
  }

  function DenotedBy(d: Document): Value
    requires DocumentOk(d)
  {
    ValueOf(d.value)
  }

  // Two derivations of a text agree on whether its surrogates are paired, and if so they denote the same value, which
  // is the one the parser returns if the limit allows it.
  lemma DerivationsAgree(t: string, d: Document, e: Document)
    requires Derives(d, t) && Derives(e, t)
    ensures Paired(d.value) <==> Paired(e.value)
    ensures Paired(d.value) ==> ValueOf(d.value) == ValueOf(e.value)
  {
    hide ParseDocument, DocumentOk, DocumentText, ValueOf, Height, Paired;
    var limit := Max(Height(DenotedBy(d)), Height(DenotedBy(e)));
    DocumentReads(d, limit);
    DocumentReads(e, limit);
  }

  // The texts that RFC 8259 derives and the parser refuses whatever the limit: those with a lone surrogate, such as
  // "\ud800".
  lemma LoneSurrogateIsRefused(maxDepth: nat)
    ensures var d := Document("", StringOf([Unicode("d800")]), "");
      && Derives(d, "\"\\ud800\"") && !Paired(d.value)
      && ParseDocument("\"\\ud800\"", maxDepth).Failed?
      && ParseDocument("\"\\ud800\"", maxDepth).complaint == UnpairedSurrogate
  {
    hide ParseDocument;
    var c := Unicode("d800");
    var d := Document("", StringOf([c]), "");
    assert HexNumber("d800") == 0xD800;
    assert HighAt([c], 0) && !LowAt([c], 1);
    assert [c][1..] == [];
    assert CharsText([c]) == CharText(c) == "\\ud800";
    assert DocumentText(d) == "\"\\ud800\"";
    assert Height(ValueOf(d.value)) == 0;
    DocumentReads(d, maxDepth);
  }
}
