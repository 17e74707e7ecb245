// What the recursive-descent parser accepts and returns (tools/ctl/backend/json_value.cpp).
//
// Each function takes the text still to be read and returns what it parses and the text behind it, or the
// first complaint and the text at the position where it is made.
module JsonGrammar {
  import opened JsonValue

  datatype Complaint =
    | UnexpectedEnd | InvalidLiteral | NestingTooDeep | ExpectedKey | ExpectedColon | UnterminatedObject
    | ExpectedCommaOrBrace | UnterminatedArray | ExpectedCommaOrBracket | TruncatedHex | InvalidHex
    | UnterminatedString | ControlCharacter | UnterminatedEscape | UnpairedSurrogate | InvalidEscape
    | InvalidNumber | InvalidValue | TrailingCharacters

  datatype Parsed<T> = Ok(value: T, rest: string) | Failed(complaint: Complaint, rest: string)

  predicate IsSpace(c: char) {
    c == ' ' || c == '\t' || c == '\n' || c == '\r'
  }

  function SkipSpace(t: string): (r: string)
    ensures |r| <= |t|
  {
    if t != [] && IsSpace(t[0]) then SkipSpace(t[1..]) else t
  }

  function SkipDigits(t: string): (r: string)
    ensures |r| <= |t|
  {
    if t != [] && IsDigit(t[0]) then SkipDigits(t[1..]) else t
  }

  // ---------- Strings ----------

  predicate IsHex(c: char) {
    IsDigit(c) || 'a' <= c <= 'f' || 'A' <= c <= 'F'
  }

  function HexOf(c: char): nat
    requires IsHex(c)
  {
    if IsDigit(c) then (c as int - '0' as int)
    else if 'a' <= c <= 'f' then (c as int - 'a' as int) + 10
    else (c as int - 'A' as int) + 10
  }

  function Hex4(t: string): (r: Parsed<nat>)
    ensures r.Ok? ==> |r.rest| < |t| && r.value < 0x10000
    ensures r.Failed? ==> r.rest == t
  {
    if |t| < 4 then Failed(TruncatedHex, t)
    else if !(IsHex(t[0]) && IsHex(t[1]) && IsHex(t[2]) && IsHex(t[3])) then Failed(InvalidHex, t)
    else Ok(HexOf(t[0]) * 0x1000 + HexOf(t[1]) * 0x100 + HexOf(t[2]) * 0x10 + HexOf(t[3]), t[4..])
  }

  // The UTF-8 bytes of a code point.
  function Utf8(cp: nat): string
    requires cp < 0x110000
  {
    if cp < 0x80 then [cp as char]
    else if cp < 0x800 then [(0xC0 + cp / 0x40) as char, (0x80 + cp % 0x40) as char]
    else if cp < 0x10000 then
      [(0xE0 + cp / 0x1000) as char, (0x80 + cp / 0x40 % 0x40) as char, (0x80 + cp % 0x40) as char]
    else
      [(0xF0 + cp / 0x40000) as char, (0x80 + cp / 0x1000 % 0x40) as char, (0x80 + cp / 0x40 % 0x40) as char,
       (0x80 + cp % 0x40) as char]
  }

  // The code point of a \u escape, with its second half if it is a high surrogate.
  function CodePoint(t: string): (r: Parsed<nat>)
    ensures r.Ok? ==> |r.rest| < |t| && r.value < 0x110000
    ensures |r.rest| <= |t|
  {
    match Hex4(t)
    case Failed(e, rest) => Failed(e, rest)
    case Ok(cp, rest) =>
      if 0xD800 <= cp <= 0xDBFF then
        if |rest| < 2 || rest[..2] != "\\u" then Failed(UnpairedSurrogate, rest)
        else
          (match Hex4(rest[2..])
           case Failed(e, rest') => Failed(e, rest')
           case Ok(lo, rest') =>
             if lo < 0xDC00 || lo > 0xDFFF then Failed(UnpairedSurrogate, rest')
             else Ok(0x10000 + (cp - 0xD800) * 0x400 + (lo - 0xDC00), rest'))
      else if 0xDC00 <= cp <= 0xDFFF then Failed(UnpairedSurrogate, rest)
      else Ok(cp, rest)
  }

  // What a one-letter escape stands for.
  function SimpleEscape(e: char): string {
    if e == '"' then "\""
    else if e == '\\' then "\\"
    else if e == '/' then "/"
    else if e == 'b' then [8 as char]
    else if e == 'f' then [12 as char]
    else if e == 'n' then "\n"
    else if e == 'r' then "\r"
    else if e == 't' then "\t"
    else ""
  }

  // What an escape stands for, behind its backslash.
  function ParseEscape(t: string): (r: Parsed<string>)
    ensures r.Ok? ==> |r.rest| < |t|
    ensures |r.rest| <= |t|
  {
    if t == [] then Failed(UnterminatedEscape, t)
    else if t[0] == 'u' then
      (match CodePoint(t[1..])
       case Failed(e, rest) => Failed(e, rest)
       case Ok(cp, rest) => Ok(Utf8(cp), rest))
    else if SimpleEscape(t[0]) == "" then Failed(InvalidEscape, t[1..])
    else Ok(SimpleEscape(t[0]), t[1..])
  }

  // The rest of a string behind its opening quote; acc is what has been read of it.
  function ParseString(t: string, acc: string): (r: Parsed<string>)
    ensures r.Ok? ==> |r.rest| < |t|
    ensures |r.rest| <= |t|
    decreases |t|
  {
    if t == [] then Failed(UnterminatedString, t)
    else
      var c, u := t[0], t[1..];
      if c == '"' then Ok(acc, u)
      else if c < ' ' then Failed(ControlCharacter, u)
      else if c != '\\' then ParseString(u, acc + [c])
      else
        match ParseEscape(u)
        case Failed(e, rest) => Failed(e, rest)
        case Ok(text, rest) => ParseString(rest, acc + text)
  }

  // ---------- Numbers ----------

  function Fraction(t: string): (r: Parsed<()>)
    ensures |r.rest| <= |t|
  {
    if t != [] && t[0] == '.' then
      var d := SkipDigits(t[1..]);
      if d == t[1..] then Failed(InvalidNumber, d) else Ok((), d)
    else Ok((), t)
  }

  function Exponent(t: string): (r: Parsed<()>)
    ensures |r.rest| <= |t|
  {
    if t != [] && (t[0] == 'e' || t[0] == 'E') then
      var u := t[1..];
      var v := if u != [] && (u[0] == '+' || u[0] == '-') then u[1..] else u;
      var d := SkipDigits(v);
      if d == v then Failed(InvalidNumber, d) else Ok((), d)
    else Ok((), t)
  }

  // Accepts the number grammar of RFC 8259, section 6; the value is the text itself.
  function ParseNumber(t: string): (r: Parsed<string>)
    ensures |r.rest| <= |t|
    ensures r.Ok? ==> |r.rest| < |t|
  {
    var a := if t != [] && t[0] == '-' then t[1..] else t;
    if a == [] then Failed(InvalidNumber, a)
    else
      var b := if a[0] == '0' then a[1..] else SkipDigits(a);
      if b == a then Failed(InvalidValue, a)
      else
        SkippingShrinks(a);
        (match Fraction(b)
         case Failed(e, rest) => Failed(e, rest)
         case Ok(_, c) =>
           match Exponent(c)
           case Failed(e, rest) => Failed(e, rest)
           case Ok(_, d) => Ok(t[..|t| - |d|], d))
  }

  lemma {:induction false} SkippingShrinks(t: string)
    ensures SkipDigits(t) == t || |SkipDigits(t)| < |t|
  {
  }

  // ---------- Values ----------

  function Literal(t: string, word: string, v: Value): (r: Parsed<Value>)
    requires word != []
    ensures |r.rest| <= |t|
    ensures r.Ok? ==> |r.rest| < |t|
  {
    if word <= t then Ok(v, t[|word|..]) else Failed(InvalidLiteral, t)
  }

  function ParseValue(t: string, depth: nat, maxDepth: nat): (r: Parsed<Value>)
    ensures |r.rest| <= |t|
    ensures r.Ok? ==> |r.rest| < |t|
    decreases |t|, 2
  {
    if t == [] then Failed(UnexpectedEnd, t)
    else if t[0] == '{' then ParseObject(t, depth + 1, maxDepth)
    else if t[0] == '[' then ParseArray(t, depth + 1, maxDepth)
    else if t[0] == '"' then
      (match ParseString(t[1..], "")
       case Failed(e, rest) => Failed(e, rest)
       case Ok(s, rest) => Ok(String(s), rest))
    else if t[0] == 't' then Literal(t, "true", Bool(true))
    else if t[0] == 'f' then Literal(t, "false", Bool(false))
    else if t[0] == 'n' then Literal(t, "null", Null)
    else
      (match ParseNumber(t)
       case Failed(e, rest) => Failed(e, rest)
       case Ok(lexeme, rest) => Ok(Number(lexeme), rest))
  }

  function ParseObject(t: string, depth: nat, maxDepth: nat): (r: Parsed<Value>)
    requires t != []
    ensures |r.rest| <= |t|
    ensures r.Ok? ==> |r.rest| < |t|
    decreases |t|, 1
  {
    if depth > maxDepth then Failed(NestingTooDeep, t)
    else
      var u := SkipSpace(t[1..]);
      if u != [] && u[0] == '}' then Ok(Object([]), u[1..]) else ParseMembers(u, depth, maxDepth, [])
  }

  // A key, a colon and a value.
  function ParseMember(t: string, depth: nat, maxDepth: nat): (r: Parsed<Member>)
    ensures |r.rest| <= |t|
    ensures r.Ok? ==> |r.rest| < |t|
    decreases |t|, 0
  {
    var u := SkipSpace(t);
    if u == [] || u[0] != '"' then Failed(ExpectedKey, u)
    else
      match ParseString(u[1..], "")
      case Failed(e, rest) => Failed(e, rest)
      case Ok(key, afterKey) =>
        var w := SkipSpace(afterKey);
        if w == [] || w[0] != ':' then Failed(ExpectedColon, w)
        else
          match ParseValue(SkipSpace(w[1..]), depth, maxDepth)
          case Failed(e, rest) => Failed(e, rest)
          case Ok(v, rest) => Ok(Member(key, v), rest)
  }

  // The object loop behind the members in acc.
  function ParseMembers(t: string, depth: nat, maxDepth: nat, acc: seq<Member>): (r: Parsed<Value>)
    ensures |r.rest| <= |t|
    decreases |t|, 3
  {
    match ParseMember(t, depth, maxDepth)
    case Failed(e, rest) => Failed(e, rest)
    case Ok(m, afterMember) =>
      var x := SkipSpace(afterMember);
      if x == [] then Failed(UnterminatedObject, x)
      else if x[0] == ',' then ParseMembers(x[1..], depth, maxDepth, acc + [m])
      else if x[0] == '}' then Ok(Object(acc + [m]), x[1..])
      else Failed(ExpectedCommaOrBrace, x)
  }

  function ParseArray(t: string, depth: nat, maxDepth: nat): (r: Parsed<Value>)
    requires t != []
    ensures |r.rest| <= |t|
    ensures r.Ok? ==> |r.rest| < |t|
    decreases |t|, 1
  {
    if depth > maxDepth then Failed(NestingTooDeep, t)
    else
      var u := SkipSpace(t[1..]);
      if u != [] && u[0] == ']' then Ok(Array([]), u[1..]) else ParseItems(u, depth, maxDepth, [])
  }

  // The array loop behind the items in acc.
  function ParseItems(t: string, depth: nat, maxDepth: nat, acc: seq<Value>): (r: Parsed<Value>)
    ensures |r.rest| <= |t|
    decreases |t|, 3
  {
    match ParseValue(SkipSpace(t), depth, maxDepth)
    case Failed(e, rest) => Failed(e, rest)
    case Ok(v, afterValue) =>
      var x := SkipSpace(afterValue);
      if x == [] then Failed(UnterminatedArray, x)
      else if x[0] == ',' then ParseItems(x[1..], depth, maxDepth, acc + [v])
      else if x[0] == ']' then Ok(Array(acc + [v]), x[1..])
      else Failed(ExpectedCommaOrBracket, x)
  }

  function ParseDocument(t: string, maxDepth: nat): Parsed<Value> {
    match ParseValue(SkipSpace(t), 0, maxDepth)
    case Failed(e, rest) => Failed(e, rest)
    case Ok(v, rest) =>
      var end := SkipSpace(rest);
      if end == [] then Ok(v, end) else Failed(TrailingCharacters, end)
  }
}
