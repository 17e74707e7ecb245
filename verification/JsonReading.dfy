// Every text that the grammar derives is read as the value it denotes, if and only if it is free of lone surrogates and
// nests within the limit (tools/ctl/backend/json_value.cpp:22-250).
module JsonReading {
  import opened JsonValue
  import opened JsonGrammar
  import opened JsonSyntax

  // ---------- White space ----------

  lemma {:induction false} SpaceIsSkipped(space: string, t: string)
    requires AllSpace(space) && (t == [] || !IsSpace(t[0]))
    ensures SkipSpace(space + t) == t
  {
    if space == [] {
      assert space + t == t;
    } else {
      assert (space + t)[1..] == space[1..] + t;
      SpaceIsSkipped(space[1..], t);
    }
  }

  lemma StopsAt(space: string, c: char, rest: string)
    requires AllSpace(space) && !IsSpace(c)
    ensures SkipSpace(space + ([c] + rest)) == [c] + rest && ([c] + rest)[0] == c && ([c] + rest)[1..] == rest
  {
    SpaceIsSkipped(space, [c] + rest);
  }

  lemma {:induction false} SkippingTwice(t: string)
    ensures SkipSpace(SkipSpace(t)) == SkipSpace(t)
  {
    if t != [] && IsSpace(t[0]) {
      SkippingTwice(t[1..]);
    }
  }

  // ---------- Strings ----------

  lemma FourHexRead(digits: string, rest: string)
    requires FourDigits(digits)
    ensures Hex4(digits + rest) == Ok(HexNumber(digits), rest)
  {
    hide IsHex, HexOf;
    assert (digits + rest)[4..] == rest;
  }

  lemma UnicodeReads(c: CharSyntax, rest: string)
    requires CharOk(c) && c.Unicode? && !IsHigh(c)
    ensures CodePoint(c.digits + rest) ==
            if IsLow(c) then Failed(UnpairedSurrogate, rest) else Ok(HexNumber(c.digits), rest)
  {
    hide Hex4, HexNumber;
    FourHexRead(c.digits, rest);
  }

  // Behind a high surrogate the parser wants a low one.
  lemma HighReads(high: CharSyntax, low: CharSyntax, rest: string)
    requires IsHigh(high) && CharOk(low) && low.Unicode?
    ensures CodePoint(high.digits + ("\\u" + (low.digits + rest))) ==
            if IsLow(low) then
              Ok(0x10000 + (HexNumber(high.digits) - 0xD800) * 0x400 + (HexNumber(low.digits) - 0xDC00), rest)
            else Failed(UnpairedSurrogate, rest)
  {
    hide Hex4, HexNumber;
    var behind := "\\u" + (low.digits + rest);
    FourHexRead(high.digits, behind);
    assert behind[..2] == "\\u" && behind[2..] == low.digits + rest;
    FourHexRead(low.digits, rest);
  }

  lemma HighAlone(high: CharSyntax, behind: string)
    requires IsHigh(high) && !("\\u" <= behind)
    ensures CodePoint(high.digits + behind) == Failed(UnpairedSurrogate, behind)
  {
    hide Hex4, HexNumber;
    FourHexRead(high.digits, behind);
    assert |behind| >= 2 ==> behind[..2] != "\\u";
  }

  // A \u escape in a string.
  lemma BehindUnicode(c: CharSyntax, rest: string, acc: string)
    requires CharOk(c) && c.Unicode?
    ensures var r, e := ParseString(CharText(c) + rest, acc), CodePoint(c.digits + rest);
      r == if e.Ok? then ParseString(e.rest, acc + Utf8(e.value)) else Failed(e.complaint, e.rest)
  {
    hide CodePoint, Utf8;
    assert (CharText(c) + rest)[1..] == "u" + (c.digits + rest);
    assert ("u" + (c.digits + rest))[1..] == c.digits + rest;
  }

  lemma ShortReads(e: char, rest: string, acc: string)
    requires CharOk(Short(e))
    ensures ParseString(CharText(Short(e)) + rest, acc) == ParseString(rest, acc + CharValue(Short(e)))
  {
    hide CodePoint, Utf8;
    assert (CharText(Short(e)) + rest)[1..] == [e] + rest;
    assert ([e] + rest)[1..] == rest;
  }

  // A character that is not half of a surrogate pair, wherever it stands.
  lemma CharReads(c: CharSyntax, rest: string, acc: string)
    requires CharOk(c) && !IsHigh(c) && !IsLow(c)
    ensures ParseString(CharText(c) + rest, acc) == ParseString(rest, acc + CharValue(c))
  {
    hide ParseString, CharText, CodePoint, Utf8;
    match c
    case Plain(x) => PlainReads(x, rest, acc);
    case Short(e) => ShortReads(e, rest, acc);
    case Unicode(digits) =>
      BehindUnicode(c, rest, acc);
      UnicodeReads(c, rest);
  }

  lemma PlainReads(x: char, rest: string, acc: string)
    requires CharOk(Plain(x))
    ensures ParseString(CharText(Plain(x)) + rest, acc) == ParseString(rest, acc + CharValue(Plain(x)))
  {
    hide ParseEscape;
    assert ([x] + rest)[1..] == rest;
  }

  lemma LowFails(c: CharSyntax, rest: string, acc: string)
    requires IsLow(c)
    ensures ParseString(CharText(c) + rest, acc) == Failed(UnpairedSurrogate, rest)
  {
    hide ParseString, CharText, CodePoint, Utf8;
    BehindUnicode(c, rest, acc);
    UnicodeReads(c, rest);
  }

  lemma PairReads(high: CharSyntax, low: CharSyntax, rest: string, acc: string)
    requires IsHigh(high) && IsLow(low)
    ensures ParseString(CharText(high) + (CharText(low) + rest), acc) == ParseString(rest, acc + PairValue(high, low))
  {
    hide ParseString, CodePoint, Utf8, HexNumber;
    assert CharText(low) + rest == "\\u" + (low.digits + rest);
    BehindUnicode(high, CharText(low) + rest, acc);
    HighReads(high, low, rest);
  }

  // A high surrogate with something else than a low one behind it.
  lemma HighFails(high: CharSyntax, more: seq<CharSyntax>, rest: string, acc: string)
    requires IsHigh(high) && CharsOk(more) && !(more != [] && IsLow(more[0]))
    ensures var r := ParseString(CharText(high) + (CharsText(more) + ("\"" + rest)), acc);
      r.Failed? && r.complaint == UnpairedSurrogate
  {
    hide ParseString, CodePoint, Utf8, IsHigh, IsLow;
    var behind := CharsText(more) + ("\"" + rest);
    HighIsUnicode(high);
    BehindUnicode(high, behind, acc);
    if more != [] && more[0].Unicode? {
      var tail := CharsText(more[1..]) + ("\"" + rest);
      assert behind == "\\u" + (more[0].digits + tail);
      HighReads(high, more[0], tail);
    } else {
      assert !("\\u" <= behind) by { NoUnicodeAhead(more, rest); }
      HighAlone(high, behind);
    }
  }

  lemma HighIsUnicode(c: CharSyntax)
    requires IsHigh(c)
    ensures CharOk(c) && c.Unicode?
  {
  }

  lemma NoUnicodeAhead(more: seq<CharSyntax>, rest: string)
    requires CharsOk(more) && !(more != [] && more[0].Unicode?)
    ensures !("\\u" <= CharsText(more) + ("\"" + rest))
  {
    if more == [] {
      assert (CharsText(more) + ("\"" + rest))[0] == '"';
    } else {
      assert CharOk(more[0]);
      assert (CharsText(more) + ("\"" + rest))[0] == CharText(more[0])[0];
      assert more[0].Short? ==> (CharsText(more) + ("\"" + rest))[1] == more[0].e;
    }
  }

  // Whether the surrogates of a string are paired, from its front.
  lemma PairedFront(cs: seq<CharSyntax>)
    requires cs != []
    ensures !IsHigh(cs[0]) && !IsLow(cs[0]) ==> (PairedChars(cs) <==> PairedChars(cs[1..]))
    ensures IsLow(cs[0]) ==> !PairedChars(cs)
    ensures IsHigh(cs[0]) ==>
              (PairedChars(cs) <==> |cs| > 1 && IsLow(cs[1]) && PairedChars(cs[2..]))
  {
    hide IsHigh, IsLow;
    HighIsNotLow(cs[0]);
    assert !HighAt(cs, -1);
    if IsLow(cs[0]) {
      assert LowAt(cs, 0);
    } else if !IsHigh(cs[0]) {
      PairedBehind(cs, 1);
    } else if |cs| > 1 && IsLow(cs[1]) {
      HighIsNotLow(cs[1]);
      PairedBehind(cs, 2);
    } else {
      assert HighAt(cs, 0) && !LowAt(cs, 1);
    }
  }

  lemma HighIsNotLow(c: CharSyntax)
    ensures !(IsHigh(c) && IsLow(c))
  {
  }

  // The first n characters are complete.
  lemma PairedBehind(cs: seq<CharSyntax>, n: nat)
    requires 0 < n <= |cs| && !IsHigh(cs[n - 1])
    requires forall i :: 0 <= i < n ==> (HighAt(cs, i - 1) <==> LowAt(cs, i))
    ensures PairedChars(cs) <==> PairedChars(cs[n..])
  {
    hide IsHigh, IsLow;
    var tail := cs[n..];
    if PairedChars(cs) {
      forall i | 0 <= i <= |tail| ensures HighAt(tail, i - 1) <==> LowAt(tail, i) {
        assert HighAt(cs, n + i - 1) <==> LowAt(cs, n + i);
      }
    }
    if PairedChars(tail) {
      forall i | 0 <= i <= |cs| ensures HighAt(cs, i - 1) <==> LowAt(cs, i) {
        if i >= n {
          assert HighAt(tail, i - n - 1) <==> LowAt(tail, i - n);
        }
      }
    }
  }

  // A string is read as the bytes it denotes, unless it has a lone surrogate.
  lemma {:induction false} CharsRead(cs: seq<CharSyntax>, rest: string, acc: string)
    requires CharsOk(cs)
    ensures var r := ParseString(CharsText(cs) + ("\"" + rest), acc);
      if PairedChars(cs) then r == Ok(acc + CharsValue(cs), rest) else r.Failed? && r.complaint == UnpairedSurrogate
    decreases |cs|
  {
    hide CharText, CharValue, CharOk, ParseString, IsHigh, IsLow, PairedChars, PairValue;
    if cs == [] {
      assert CharsText(cs) + ("\"" + rest) == "\"" + rest;
      assert acc + "" == acc;
      QuoteEnds(rest, acc);
      NothingIsPaired();
    } else {
      PairedFront(cs);
      HighIsNotLow(cs[0]);
      var tail := CharsText(cs[1..]) + ("\"" + rest);
      assert CharsText(cs) + ("\"" + rest) == CharText(cs[0]) + tail;
      if IsLow(cs[0]) {
        LowFails(cs[0], tail, acc);
      } else if !IsHigh(cs[0]) {
        CharReads(cs[0], tail, acc);
        CharsRead(cs[1..], rest, acc + CharValue(cs[0]));
        assert acc + CharValue(cs[0]) + CharsValue(cs[1..]) == acc + CharsValue(cs);
      } else if |cs| > 1 && IsLow(cs[1]) {
        var later := CharsText(cs[2..]) + ("\"" + rest);
        assert cs[1..][1..] == cs[2..];
        assert tail == CharText(cs[1]) + later;
        PairReads(cs[0], cs[1], later, acc);
        CharsRead(cs[2..], rest, acc + PairValue(cs[0], cs[1]));
        assert acc + PairValue(cs[0], cs[1]) + CharsValue(cs[2..]) == acc + CharsValue(cs);
      } else {
        HighFails(cs[0], cs[1..], rest, acc);
      }
    }
  }

  lemma NothingIsPaired()
    ensures PairedChars([])
  {
  }

  lemma QuoteEnds(rest: string, acc: string)
    ensures ParseString("\"" + rest, acc) == Ok(acc, rest)
  {
    assert ("\"" + rest)[1..] == rest;
  }

  // ---------- Numbers ----------

  // What may follow a number without becoming part of it.
  predicate EndsNumber(rest: string) {
    rest == [] || (!IsDigit(rest[0]) && rest[0] != '.' && rest[0] != 'e' && rest[0] != 'E')
  }

  lemma {:induction false} DigitsAreSkipped(s: string, rest: string)
    requires AllDigits(s) && (rest == [] || !IsDigit(rest[0]))
    ensures SkipDigits(s + rest) == rest
  {
    if s == [] {
      assert s + rest == rest;
    } else {
      assert (s + rest)[1..] == s[1..] + rest;
      DigitsAreSkipped(s[1..], rest);
    }
  }

  lemma ExponentReads(exponent: string, rest: string)
    requires IsExponent(exponent) && EndsNumber(rest)
    ensures Exponent(exponent + rest) == Ok((), rest)
    ensures exponent + rest == [] || (!IsDigit((exponent + rest)[0]) && (exponent + rest)[0] != '.')
  {
    if exponent == "" {
      assert exponent + rest == rest;
    } else {
      var signed := exponent[1] == '+' || exponent[1] == '-';
      var digits := if signed then exponent[2..] else exponent[1..];
      var u := (exponent + rest)[1..];
      assert u == exponent[1..] + rest && u[0] == exponent[1];
      assert (if signed then u[1..] else u) == digits + rest;
      DigitsAreSkipped(digits, rest);
      assert |digits + rest| > |rest|;
    }
  }

  lemma FractionReads(fraction: string, tail: string)
    requires IsFraction(fraction) && (tail == [] || (!IsDigit(tail[0]) && tail[0] != '.'))
    ensures Fraction(fraction + tail) == Ok((), tail)
    ensures fraction + tail == [] || !IsDigit((fraction + tail)[0])
  {
    if fraction == "" {
      assert fraction + tail == tail;
    } else {
      assert (fraction + tail)[1..] == fraction[1..] + tail;
      DigitsAreSkipped(fraction[1..], tail);
      assert |fraction[1..] + tail| > |tail|;
    }
  }

  lemma NumberSplits(n: NumberSyntax, rest: string)
    ensures var t, behind := NumberText(n) + rest, n.integer + (n.fraction + (n.exponent + rest));
      t == (if n.minus then "-" + behind else behind) && t[..|t| - |rest|] == NumberText(n)
  {
  }

  lemma NumberReads(n: NumberSyntax, rest: string)
    requires NumberOk(n) && EndsNumber(rest)
    ensures ParseNumber(NumberText(n) + rest) == Ok(NumberText(n), rest)
  {
    hide Fraction, Exponent, IsFraction, IsExponent, NumberText, IsNatText, SkipDigits;
    ExponentReads(n.exponent, rest);
    FractionReads(n.fraction, n.exponent + rest);
    IntegerReads(n.integer, n.fraction + (n.exponent + rest));
    NumberSplits(n, rest);
    assert ("-" + (n.integer + (n.fraction + (n.exponent + rest))))[1..] ==
        n.integer + (n.fraction + (n.exponent + rest));
  }

  lemma IntegerReads(integer: string, behind: string)
    requires IsNatText(integer) && (behind == [] || !IsDigit(behind[0]))
    ensures var a := integer + behind;
      && a != [] && a[0] != '-' && behind != a
      && (if a[0] == '0' then a[1..] else SkipDigits(a)) == behind
  {
    var a := integer + behind;
    assert IsDigit(integer[0]) && |a| > |behind|;
    if integer[0] == '0' {
      assert integer == "0" && a[1..] == behind;
    } else {
      DigitsAreSkipped(integer, behind);
    }
  }

  // ---------- Values ----------

  // r is the value v with rest behind it, if its surrogates are paired and it fits the nesting limit; otherwise it
  // is the complaint about one that is not met.
  predicate Reads(r: Parsed<Value>, paired: bool, fits: bool, v: Value, rest: string) {
    if paired && fits then r == Ok(v, rest) else Refuses(r, paired, fits)
  }

  predicate Refuses<T>(r: Parsed<T>, paired: bool, fits: bool) {
    r.Failed? && ((!fits && r.complaint == NestingTooDeep) || (!paired && r.complaint == UnpairedSurrogate))
  }

  lemma TextBegins(x: Syntax, rest: string)
    requires Derived(x)
    ensures TextOf(x) != [] && (TextOf(x) + rest)[0] == TextOf(x)[0] && !IsSpace(TextOf(x)[0])
    ensures TextOf(x)[0] != ']' && TextOf(x)[0] != '}' && TextOf(x)[0] != ','
    ensures (x.ArrayOf? <==> TextOf(x)[0] == '[') && (x.ObjectOf? <==> TextOf(x)[0] == '{')
    ensures (x.StringOf? <==> TextOf(x)[0] == '"') && (x.NumberOf? <==> TextOf(x)[0] == '-' || IsDigit(TextOf(x)[0]))
  {
    hide ItemsText, MembersText, CharsText;
    match x
    case NumberOf(n) => assert TextOf(x)[0] == if n.minus then '-' else n.integer[0];
    case _ =>
  }

  lemma {:induction false} ValueReads(x: Syntax, rest: string, depth: nat, maxDepth: nat)
    requires Derived(x) && depth <= maxDepth && EndsNumber(rest)
    ensures Reads(ParseValue(TextOf(x) + rest, depth, maxDepth),
                  Paired(x), depth + Height(ValueOf(x)) <= maxDepth, ValueOf(x), rest)
    decreases x, 1
  {
    hide ParseObject, ParseArray, ParseString, ParseNumber, CharsText, ItemsText, MembersText, ItemsOk, MembersOk,
      CharsOk, NumberOk, PairedChars, ItemsPaired, MembersPaired, CharsValue;
    var t := TextOf(x) + rest;
    TextBegins(x, rest);
    match x
    case NullWord => assert "null" <= t && t[4..] == rest;
    case TrueWord => assert "true" <= t && t[4..] == rest;
    case FalseWord => assert "false" <= t && t[5..] == rest;
    case NumberOf(n) => NumberReads(n, rest);
    case StringOf(cs) =>
      assert t[1..] == CharsText(cs) + ("\"" + rest);
      CharsRead(cs, rest, "");
      assert "" + CharsValue(cs) == CharsValue(cs);
    case ArrayOf(space, items) => ArrayReads(space, items, rest, depth + 1, maxDepth);
    case ObjectOf(space, members) => ObjectReads(space, members, rest, depth + 1, maxDepth);
  }

  lemma ItemsIgnoreSpace(t: string, depth: nat, maxDepth: nat, acc: seq<Value>)
    ensures ParseItems(SkipSpace(t), depth, maxDepth, acc) == ParseItems(t, depth, maxDepth, acc)
  {
    hide ParseValue, SkipSpace;
    SkippingTwice(t);
  }

  lemma ItemBegins(i: ItemSyntax, rest: string)
    requires ItemOk(i)
    ensures SkipSpace(ItemText(i) + rest) == TextOf(i.value) + (i.after + rest)
    ensures SkipSpace(ItemText(i) + rest) != [] && SkipSpace(ItemText(i) + rest)[0] != ']'
  {
    hide SkipSpace, TextOf;
    TextBegins(i.value, i.after + rest);
    SpaceIsSkipped(i.before, TextOf(i.value) + (i.after + rest));
    assert ItemText(i) + rest == i.before + (TextOf(i.value) + (i.after + rest));
  }

  lemma ArrayReads(space: string, items: seq<ItemSyntax>, rest: string, depth: nat, maxDepth: nat)
    requires AllSpace(space) && ItemsOk(items) && depth > 0
    ensures Reads(ParseArray("[" + (if items == [] then space else ItemsText(items)) + "]" + rest, depth, maxDepth),
                  ItemsPaired(items), depth + ItemsHeight(ItemsOf(items)) <= maxDepth, Array(ItemsOf(items)), rest)
    decreases items, 2
  {
    hide ParseItems, SkipSpace, ItemText, Paired, Height, ValueOf, ItemsOf, ItemsHeight;
    var t := "[" + (if items == [] then space else ItemsText(items)) + "]" + rest;
    if items == [] {
      assert t[1..] == space + ([']'] + rest);
      StopsAt(space, ']', rest);
      NoItems();
    } else {
      var behind := if |items| == 1 then "" else "," + ItemsText(items[1..]);
      assert t[1..] == ItemsText(items) + ("]" + rest) == ItemText(items[0]) + (behind + ("]" + rest));
      ItemBegins(items[0], behind + ("]" + rest));
      if depth <= maxDepth {
        ItemsRead(items, rest, depth, maxDepth, []);
        ItemsIgnoreSpace(t[1..], depth, maxDepth, []);
        assert [] + ItemsOf(items) == ItemsOf(items);
      }
    }
  }

  // The end of a value in an array or object: white space, and a comma or bracket.
  lemma ValueEnds(after: string, behind: string)
    requires AllSpace(after) && behind != [] && (behind[0] == ',' || behind[0] == ']' || behind[0] == '}')
    ensures EndsNumber(after + behind) && SkipSpace(after + behind) == behind
  {
    SpaceIsSkipped(after, behind);
    assert (after + behind)[0] == if after == [] then behind[0] else after[0];
  }

  lemma ItemsOfFirst(items: seq<ItemSyntax>)
    requires ItemsOk(items) && items != []
    ensures ItemOk(items[0]) && ItemsOk(items[1..]) && ItemsOf(items) == [ValueOf(items[0].value)] + ItemsOf(items[1..])
    ensures ItemsHeight(ItemsOf(items)) == Max(Height(ValueOf(items[0].value)), ItemsHeight(ItemsOf(items[1..])))
  {
    hide Height, ValueOf;
    assert ItemsOf(items)[1..] == ItemsOf(items[1..]);
  }

  lemma {:induction false} ItemsRead(items: seq<ItemSyntax>, rest: string, depth: nat, maxDepth: nat, acc: seq<Value>)
    requires items != [] && ItemsOk(items) && depth <= maxDepth
    ensures Reads(ParseItems(ItemsText(items) + ("]" + rest), depth, maxDepth, acc),
                  ItemsPaired(items), depth + ItemsHeight(ItemsOf(items)) <= maxDepth,
                  Array(acc + ItemsOf(items)), rest)
    decreases items, 0
  {
    hide ParseValue, SkipSpace, ItemText, ItemOk, ItemsOf, ItemsHeight, Height, ValueOf, TextOf, Paired;
    var i := items[0];
    var more := items[1..];
    var behind := (if more == [] then "" else "," + ItemsText(more)) + ("]" + rest);
    ItemsOfFirst(items);
    assert ItemsText(items) + ("]" + rest) == ItemText(i) + behind;
    ItemBegins(i, behind);
    ItemParts(i);
    ValueEnds(i.after, behind);
    ValueReads(i.value, i.after + behind, depth, maxDepth);
    var v := ValueOf(i.value);
    if Paired(i.value) && depth + Height(v) <= maxDepth {
      if more == [] {
        assert behind == "]" + rest && behind[1..] == rest;
        NoItems();
        assert acc + [v] == acc + ItemsOf(items);
      } else {
        assert behind[1..] == ItemsText(more) + ("]" + rest);
        ItemsRead(more, rest, depth, maxDepth, acc + [v]);
        assert acc + [v] + ItemsOf(more) == acc + ItemsOf(items);
      }
    }
  }

  lemma ItemParts(i: ItemSyntax)
    requires ItemOk(i)
    ensures AllSpace(i.before) && AllSpace(i.after) && Derived(i.value)
  {
  }

  lemma NoItems()
    ensures ItemsOf([]) == [] && ItemsHeight([]) == 0 && MembersOf([]) == [] && MembersHeight([]) == 0
  {
  }

  // ---------- Objects ----------

  lemma MembersIgnoreSpace(t: string, depth: nat, maxDepth: nat, acc: seq<Member>)
    ensures ParseMembers(SkipSpace(t), depth, maxDepth, acc) == ParseMembers(t, depth, maxDepth, acc)
  {
    hide SkipSpace, ParseValue, ParseString;
    SkippingTwice(t);
  }

  lemma MemberBegins(m: MemberSyntax, rest: string)
    requires MemberOk(m)
    ensures var inner := m.afterKey + (":" + (m.beforeValue + (TextOf(m.value) + (m.after + rest))));
      SkipSpace(MemberText(m) + rest) == "\"" + (CharsText(m.key) + ("\"" + inner))
  {
    hide SkipSpace, TextOf, CharsText;
    var inner := m.afterKey + (":" + (m.beforeValue + (TextOf(m.value) + (m.after + rest))));
    var t := "\"" + (CharsText(m.key) + ("\"" + inner));
    SpaceIsSkipped(m.before, t);
    MemberTextUnfolds(m, rest);
  }

  lemma MemberTextUnfolds(m: MemberSyntax, rest: string)
    ensures MemberText(m) + rest ==
      m.before + ("\"" + (CharsText(m.key) +
                          ("\"" + (m.afterKey + (":" + (m.beforeValue + (TextOf(m.value) + (m.after + rest))))))))
  {
    hide TextOf, CharsText;
  }

  lemma {:induction false} MemberReads(m: MemberSyntax, rest: string, depth: nat, maxDepth: nat)
    requires MemberOk(m) && depth <= maxDepth && rest != [] && (rest[0] == ',' || rest[0] == '}')
    ensures var r := ParseMember(MemberText(m) + rest, depth, maxDepth);
      var fits := depth + Height(ValueOf(m.value)) <= maxDepth;
      if MemberPaired(m) && fits then r.Ok? && r.value == MemberOf(m) && SkipSpace(r.rest) == rest
      else Refuses(r, MemberPaired(m), fits)
    decreases m, 2
  {
    hide ParseValue, ParseString, SkipSpace, TextOf, CharsText, CharsValue, MemberText, Height, ValueOf, PairedChars,
      Paired;
    var behind := m.after + rest;
    var value := TextOf(m.value) + behind;
    var inner := m.afterKey + (":" + (m.beforeValue + value));
    MemberBegins(m, rest);
    assert ("\"" + (CharsText(m.key) + ("\"" + inner)))[1..] == CharsText(m.key) + ("\"" + inner);
    CharsRead(m.key, inner, "");
    assert "" + CharsValue(m.key) == CharsValue(m.key);
    SpaceIsSkipped(m.afterKey, ":" + (m.beforeValue + value));
    assert (":" + (m.beforeValue + value))[1..] == m.beforeValue + value;
    TextBegins(m.value, behind);
    SpaceIsSkipped(m.beforeValue, value);
    ValueEnds(m.after, rest);
    ValueReads(m.value, behind, depth, maxDepth);
  }

  lemma MembersOfFirst(members: seq<MemberSyntax>)
    requires MembersOk(members) && members != []
    ensures MemberOk(members[0]) && MembersOk(members[1..])
    ensures MembersOf(members) == [MemberOf(members[0])] + MembersOf(members[1..])
    ensures MembersHeight(MembersOf(members)) ==
            Max(Height(ValueOf(members[0].value)), MembersHeight(MembersOf(members[1..])))
  {
    hide Height, ValueOf, CharsValue;
    assert MembersOf(members)[1..] == MembersOf(members[1..]);
  }

  lemma ObjectReads(space: string, members: seq<MemberSyntax>, rest: string, depth: nat, maxDepth: nat)
    requires AllSpace(space) && MembersOk(members) && depth > 0
    ensures Reads(ParseObject("{" + (if members == [] then space else MembersText(members)) + "}" + rest,
                              depth, maxDepth),
                  MembersPaired(members), depth + MembersHeight(MembersOf(members)) <= maxDepth,
                  Object(MembersOf(members)), rest)
    decreases members, 2
  {
    hide ParseMembers, SkipSpace, MemberText, MemberPaired;
    var t := "{" + (if members == [] then space else MembersText(members)) + "}" + rest;
    if members == [] {
      assert t[1..] == space + (['}'] + rest);
      StopsAt(space, '}', rest);
    } else {
      var behind := if |members| == 1 then "" else "," + MembersText(members[1..]);
      assert t[1..] == MembersText(members) + ("}" + rest) == MemberText(members[0]) + (behind + ("}" + rest));
      MemberBegins(members[0], behind + ("}" + rest));
      if depth <= maxDepth {
        MembersRead(members, rest, depth, maxDepth, []);
        MembersIgnoreSpace(t[1..], depth, maxDepth, []);
        assert [] + MembersOf(members) == MembersOf(members);
      }
    }
  }

  lemma {:induction false} MembersRead(members: seq<MemberSyntax>, rest: string, depth: nat, maxDepth: nat,
                                       acc: seq<Member>)
    requires members != [] && MembersOk(members) && depth <= maxDepth
    ensures Reads(ParseMembers(MembersText(members) + ("}" + rest), depth, maxDepth, acc),
                  MembersPaired(members), depth + MembersHeight(MembersOf(members)) <= maxDepth,
                  Object(acc + MembersOf(members)), rest)
    decreases members, 0
  {
    hide ParseMember, SkipSpace, MemberText, MemberOk, MemberOf, MembersOf, MembersHeight, Height, ValueOf,
      MemberPaired;
    var m := members[0];
    var more := members[1..];
    var behind := (if more == [] then "" else "," + MembersText(more)) + ("}" + rest);
    MembersOfFirst(members);
    assert MembersText(members) + ("}" + rest) == MemberText(m) + behind;
    MemberReads(m, behind, depth, maxDepth);
    if ParseMember(MemberText(m) + behind, depth, maxDepth).Ok? {
      if more == [] {
        assert behind == "}" + rest && behind[1..] == rest;
        NoItems();
        assert acc + [MemberOf(m)] == acc + MembersOf(members);
      } else {
        assert behind[1..] == MembersText(more) + ("}" + rest);
        MembersRead(more, rest, depth, maxDepth, acc + [MemberOf(m)]);
        assert acc + [MemberOf(m)] + MembersOf(more) == acc + MembersOf(members);
      }
    }
  }

  // ---------- Documents ----------

  // A text that the grammar derives is read as the value it denotes, with nothing left over, if its surrogates are
  // paired and the value nests within the limit; otherwise the complaint is about one of the two.
  lemma DocumentReads(d: Document, maxDepth: nat)
    requires DocumentOk(d)
    ensures Reads(ParseDocument(DocumentText(d), maxDepth),
                  Paired(d.value), Height(ValueOf(d.value)) <= maxDepth, ValueOf(d.value), [])
  {
    hide ParseValue, SkipSpace, TextOf, ValueOf, Height, Derived, Paired;
    var t := TextOf(d.value) + d.after;
    TextBegins(d.value, d.after);
    assert DocumentText(d) == d.before + t;
    SpaceIsSkipped(d.before, t);
    SpaceIsSkipped(d.after, []);
    assert d.after + [] == d.after;
    SpaceEndsNumber(d.after);
    ValueReads(d.value, d.after, 0, maxDepth);
  }

  lemma SpaceEndsNumber(space: string)
    requires AllSpace(space)
    ensures EndsNumber(space)
  {
  }
}
