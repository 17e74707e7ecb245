// What the JSON parser accepts beyond what the printer writes: Unicode escapes (RFC 8259, section 7), and the
// nesting limit for every text (tools/ctl/backend/json_value.cpp).
module JsonAcceptance {
  import opened JsonValue
  import opened JsonGrammar

  // ---------- Unicode escapes ----------

  // Unicode scalar values: code points that are not surrogates.
  predicate IsScalar(cp: nat) {
    cp < 0x110000 && !(0xD800 <= cp <= 0xDFFF)
  }

  function FourHex(n: nat): string
    requires n < 0x10000
  {
    [HexDigit(n / 0x1000), HexDigit(n / 0x100 % 16), HexDigit(n / 0x10 % 16), HexDigit(n % 16)]
  }

  // A character escaped as RFC 8259 says, behind its backslash: above U+FFFF as a UTF-16 surrogate pair.
  function UnicodeText(cp: nat): string
    requires IsScalar(cp)
  {
    if cp < 0x10000 then "u" + FourHex(cp)
    else "u" + FourHex(0xD800 + (cp - 0x10000) / 0x400) + "\\u" + FourHex(0xDC00 + (cp - 0x10000) % 0x400)
  }

  lemma HexDigitDenotes(n: nat)
    requires n < 16
    ensures IsHex(HexDigit(n)) && HexOf(HexDigit(n)) == n
  {
  }

  lemma FourHexDigits(n: nat)
    ensures n == n / 0x1000 * 0x1000 + n / 0x100 % 16 * 0x100 + n / 0x10 % 16 * 0x10 + n % 16
  {
    assert n / 0x100 == n / 0x10 / 16 && n / 0x1000 == n / 0x100 / 16;
  }

  lemma HexParses(a: nat, b: nat, c: nat, d: nat, rest: string)
    requires a < 16 && b < 16 && c < 16 && d < 16
    ensures Hex4([HexDigit(a), HexDigit(b), HexDigit(c), HexDigit(d)] + rest) ==
        Ok(a * 0x1000 + b * 0x100 + c * 0x10 + d, rest)
  {
    hide HexDigit, HexOf, IsHex;
    HexDigitDenotes(a);
    HexDigitDenotes(b);
    HexDigitDenotes(c);
    HexDigitDenotes(d);
    assert ([HexDigit(a), HexDigit(b), HexDigit(c), HexDigit(d)] + rest)[4..] == rest;
  }

  lemma FourHexParses(n: nat, rest: string)
    requires n < 0x10000
    ensures Hex4(FourHex(n) + rest) == Ok(n, rest)
  {
    hide HexDigit, Hex4;
    FourHexDigits(n);
    HexParses(n / 0x1000, n / 0x100 % 16, n / 0x10 % 16, n % 16, rest);
  }

  // Every character can be written as a Unicode escape, and is read back as its UTF-8 bytes.
  lemma UnicodeEscapeParses(cp: nat, rest: string)
    requires IsScalar(cp)
    ensures ParseEscape(UnicodeText(cp) + rest) == Ok(Utf8(cp), rest)
  {
    hide Utf8, FourHex, CodePoint;
    var t := (UnicodeText(cp) + rest)[1..];
    if cp < 0x10000 {
      assert t == FourHex(cp) + rest;
      OneUnitParses(cp, rest);
    } else {
      var high, low := 0xD800 + (cp - 0x10000) / 0x400, 0xDC00 + (cp - 0x10000) % 0x400;
      assert t == FourHex(high) + ("\\u" + (FourHex(low) + rest));
      TwoUnitsParse(cp, rest);
    }
  }

  lemma OneUnitParses(cp: nat, rest: string)
    requires IsScalar(cp) && cp < 0x10000
    ensures CodePoint(FourHex(cp) + rest) == Ok(cp, rest)
  {
    hide FourHex, Hex4;
    FourHexParses(cp, rest);
  }

  lemma TwoUnitsParse(cp: nat, rest: string)
    requires 0x10000 <= cp < 0x110000
    ensures var high, low := 0xD800 + (cp - 0x10000) / 0x400, 0xDC00 + (cp - 0x10000) % 0x400;
      CodePoint(FourHex(high) + ("\\u" + (FourHex(low) + rest))) == Ok(cp, rest)
  {
    hide FourHex, Hex4;
    var high, low := 0xD800 + (cp - 0x10000) / 0x400, 0xDC00 + (cp - 0x10000) % 0x400;
    var behind := "\\u" + (FourHex(low) + rest);
    FourHexParses(high, behind);
    assert behind[..2] == "\\u" && behind[2..] == FourHex(low) + rest;
    FourHexParses(low, rest);
  }

  // Whatever follows "\u": it is refused, or it denotes a character and not half of a surrogate pair.
  lemma CodePointsAreScalars(t: string)
    ensures CodePoint(t).Ok? ==> IsScalar(CodePoint(t).value)
  {
  }

  // ---------- The nesting limit ----------

  lemma {:induction false} ItemsHeightSnoc(items: seq<Value>, v: Value)
    ensures ItemsHeight(items + [v]) == Max(ItemsHeight(items), Height(v))
  {
    if items == [] {
      assert items + [v] == [v];
    } else {
      assert (items + [v])[1..] == items[1..] + [v];
      ItemsHeightSnoc(items[1..], v);
    }
  }

  lemma {:induction false} MembersHeightSnoc(members: seq<Member>, m: Member)
    ensures MembersHeight(members + [m]) == Max(MembersHeight(members), Height(m.value))
  {
    if members == [] {
      assert members + [m] == [m];
    } else {
      assert (members + [m])[1..] == members[1..] + [m];
      MembersHeightSnoc(members[1..], m);
    }
  }

  // r is a complaint, or a value that nests no more than room levels deep.
  predicate Fits(r: Parsed<Value>, room: int) {
    r.Ok? ==> Height(r.value) <= room
  }

  lemma {:induction false} ValuesFit(t: string, depth: nat, maxDepth: nat)
    requires depth <= maxDepth
    ensures Fits(ParseValue(t, depth, maxDepth), maxDepth - depth)
    decreases |t|, 2
  {
    hide ParseString, ParseNumber, ParseItems, ParseMembers, ParseObject, ParseArray;
    if t != [] && t[0] == '{' {
      ObjectsFit(t, depth + 1, maxDepth);
    } else if t != [] && t[0] == '[' {
      ArraysFit(t, depth + 1, maxDepth);
    }
  }

  lemma {:induction false} ArraysFit(t: string, depth: nat, maxDepth: nat)
    requires t != [] && depth > 0
    ensures Fits(ParseArray(t, depth, maxDepth), maxDepth - depth + 1)
    decreases |t|, 1
  {
    hide ParseItems;
    if depth <= maxDepth {
      ItemsFit(SkipSpace(t[1..]), depth, maxDepth, []);
    }
  }

  lemma {:induction false} ItemsFit(t: string, depth: nat, maxDepth: nat, acc: seq<Value>)
    requires 0 < depth <= maxDepth && depth + ItemsHeight(acc) <= maxDepth
    ensures Fits(ParseItems(t, depth, maxDepth, acc), maxDepth - depth + 1)
    decreases |t|, 3
  {
    hide ParseValue, SkipSpace;
    ValuesFit(SkipSpace(t), depth, maxDepth);
    match ParseValue(SkipSpace(t), depth, maxDepth)
    case Failed(_, _) =>
    case Ok(v, afterValue) =>
      ItemsHeightSnoc(acc, v);
      var x := SkipSpace(afterValue);
      if x != [] && x[0] == ',' { ItemsFit(x[1..], depth, maxDepth, acc + [v]); }
  }

  lemma {:induction false} ObjectsFit(t: string, depth: nat, maxDepth: nat)
    requires t != [] && depth > 0
    ensures Fits(ParseObject(t, depth, maxDepth), maxDepth - depth + 1)
    decreases |t|, 1
  {
    hide ParseMembers;
    if depth <= maxDepth {
      MembersFit(SkipSpace(t[1..]), depth, maxDepth, []);
    }
  }

  lemma {:induction false} MemberFits(t: string, depth: nat, maxDepth: nat)
    requires depth <= maxDepth
    ensures var r := ParseMember(t, depth, maxDepth); r.Ok? ==> Height(r.value.value) <= maxDepth - depth
    decreases |t|, 2
  {
    hide ParseValue, ParseString, SkipSpace;
    var u := SkipSpace(t);
    if u != [] && u[0] == '"' {
      match ParseString(u[1..], "")
      case Failed(_, _) =>
      case Ok(_, afterKey) =>
        var w := SkipSpace(afterKey);
        if w != [] && w[0] == ':' { ValuesFit(SkipSpace(w[1..]), depth, maxDepth); }
    }
  }

  lemma {:induction false} MembersFit(t: string, depth: nat, maxDepth: nat, acc: seq<Member>)
    requires 0 < depth <= maxDepth && depth + MembersHeight(acc) <= maxDepth
    ensures Fits(ParseMembers(t, depth, maxDepth, acc), maxDepth - depth + 1)
    decreases |t|, 3
  {
    hide ParseMember, SkipSpace;
    MemberFits(t, depth, maxDepth);
    match ParseMember(t, depth, maxDepth)
    case Failed(_, _) =>
    case Ok(m, afterMember) =>
      MembersHeightSnoc(acc, m);
      var x := SkipSpace(afterMember);
      if x != [] && x[0] == ',' { MembersFit(x[1..], depth, maxDepth, acc + [m]); }
  }

  // No text, however it is made, yields a value that is nested more deeply than the limit.
  lemma NestingIsLimited(t: string, maxDepth: nat)
    ensures Fits(ParseDocument(t, maxDepth), maxDepth)
  {
    hide ParseValue, SkipSpace;
    ValuesFit(SkipSpace(t), 0, maxDepth);
  }
}
