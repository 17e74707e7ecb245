// JSON values and the compact text of each (tools/receiver/lib/json_writer.cpp,
// tools/ctl/backend/json_value.hpp). A string stands for a byte string: each char is one byte. Numbers are
// kept as the text that denotes them.
module JsonValue {

  datatype Value =
    | Null
    | Bool(b: bool)
    | Number(lexeme: string)
    | String(text: string)
    | Array(items: seq<Value>)
    | Object(members: seq<Member>)

  datatype Member = Member(key: string, value: Value)

  // ---------- Integers ----------

  predicate IsDigit(c: char) {
    '0' <= c <= '9'
  }

  function Digit(n: nat): (c: char)
    requires n < 10
    ensures IsDigit(c)
  {
    '0' + n as char
  }

  // std::to_string.
  function NatText(n: nat): (s: string)
    ensures s != [] && forall i :: 0 <= i < |s| ==> IsDigit(s[i])
  {
    if n < 10 then [Digit(n)] else NatText(n / 10) + [Digit(n % 10)]
  }

  function IntText(n: int): string {
    if n < 0 then "-" + NatText(-n) else NatText(n)
  }

  function NatOf(s: string): nat
    requires forall i :: 0 <= i < |s| ==> IsDigit(s[i])
  {
    if s == [] then 0
    else
      assert IsDigit(s[|s| - 1]);
      10 * NatOf(s[..|s| - 1]) + (s[|s| - 1] - '0') as nat
  }

  // Digits without a leading zero.
  predicate IsNatText(s: string) {
    && s != []
    && (forall i :: 0 <= i < |s| ==> IsDigit(s[i]))
    && (|s| > 1 ==> s[0] != '0')
  }

  // The text of an integer as std::to_string writes it: an optional minus sign, and no minus zero.
  predicate IsIntText(s: string) {
    if s != [] && s[0] == '-' then IsNatText(s[1..]) && s[1] != '0' else IsNatText(s)
  }

  function IntOf(s: string): int
    requires IsIntText(s)
  {
    if s[0] == '-' then 0 - NatOf(s[1..]) else NatOf(s)
  }

  lemma {:induction false} NatTextIsCanonical(n: nat)
    ensures IsNatText(NatText(n)) && NatOf(NatText(n)) == n && (NatText(n)[0] == '0' <==> n == 0)
  {
    if n >= 10 {
      NatTextIsCanonical(n / 10);
      var s := NatText(n);
      assert s[..|s| - 1] == NatText(n / 10);
    } else {
      assert NatText(n)[..0] == [];
    }
  }

  lemma {:induction false} NatTextOfNatOf(s: string)
    requires IsNatText(s)
    ensures NatText(NatOf(s)) == s && (NatOf(s) == 0 <==> s[0] == '0')
  {
    var init := s[..|s| - 1];
    if init == [] {
      assert s == [s[0]];
    } else {
      assert IsNatText(init);
      NatTextOfNatOf(init);
      assert s == init + [s[|s| - 1]];
      LastDigit(NatOf(init), (s[|s| - 1] - '0') as nat);
    }
  }

  lemma LastDigit(n: nat, d: nat)
    requires d < 10
    ensures (10 * n + d) / 10 == n && (10 * n + d) % 10 == d && (n > 0 ==> 10 * n + d >= 10)
  {
  }

  // Integers and their texts correspond one to one.
  lemma IntTextRoundTrip(n: int, s: string)
    ensures IsIntText(IntText(n)) && IntOf(IntText(n)) == n
    ensures IsIntText(s) ==> IntText(IntOf(s)) == s
  {
    NatTextIsCanonical(if n < 0 then -n else n);
    if n < 0 {
      assert IntText(n)[1..] == NatText(-n);
    }
    if IsIntText(s) {
      if s[0] == '-' {
        NatTextOfNatOf(s[1..]);
        assert s == "-" + s[1..];
      } else {
        NatTextOfNatOf(s);
      }
    }
  }

  // ---------- Strings ----------

  function HexDigit(n: nat): char
    requires n < 16
  {
    if n < 10 then '0' + n as char else 'a' + (n - 10) as char
  }

  function EscapeChar(c: char): string {
    if c == '"' then "\\\""
    else if c == '\\' then "\\\\"
    else if c == '\n' then "\\n"
    else if c == '\r' then "\\r"
    else if c == '\t' then "\\t"
    else if c < ' ' then "\\u00" + [HexDigit(c as int / 16), HexDigit(c as int % 16)]
    else [c]
  }

  function EscapeAll(s: string): string {
    if s == [] then [] else EscapeChar(s[0]) + EscapeAll(s[1..])
  }

  lemma EscapeAllOfNone()
    ensures EscapeAll("") == ""
  {
  }

  lemma {:induction false} EscapeAllConcat(a: string, b: string)
    ensures EscapeAll(a + b) == EscapeAll(a) + EscapeAll(b)
  {
    hide EscapeChar, EscapeAll;
    if a == [] {
      EscapeAllOfNone();
      assert a + b == b;
    } else {
      EscapeAllConcat(a[1..], b);
      EscapeAllUnfolds(a);
      EscapeAllUnfolds(a + b);
      assert (a + b)[1..] == a[1..] + b;
    }
  }

  lemma EscapeAllUnfolds(s: string)
    requires s != []
    ensures EscapeAll(s) == EscapeChar(s[0]) + EscapeAll(s[1..])
  {
  }

  function Quoted(s: string): string {
    "\"" + EscapeAll(s) + "\""
  }

  // ---------- Values ----------

  // The values that the writer can write: numbers are integers.
  predicate Writable(v: Value)
    decreases v
  {
    match v
    case Number(lexeme) => IsIntText(lexeme)
    case Array(items) => forall i :: 0 <= i < |items| ==> Writable(items[i])
    case Object(members) => forall i :: 0 <= i < |members| ==> Writable(members[i].value)
    case _ => true
  }

  function Max(a: nat, b: nat): nat {
    if a >= b then a else b
  }

  // How deeply arrays and objects are nested.
  function Height(v: Value): nat
    decreases v, 1
  {
    match v
    case Array(items) => 1 + ItemsHeight(items)
    case Object(members) => 1 + MembersHeight(members)
    case _ => 0
  }

  function ItemsHeight(items: seq<Value>): nat
    decreases items, 0
  {
    if items == [] then 0 else Max(Height(items[0]), ItemsHeight(items[1..]))
  }

  function MembersHeight(members: seq<Member>): nat
    decreases members, 0
  {
    if members == [] then 0 else Max(Height(members[0].value), MembersHeight(members[1..]))
  }

  // The compact text of a value: no white space, members and items separated by commas.
  function Render(v: Value): string
    decreases v, 1
  {
    match v
    case Null => "null"
    case Bool(b) => if b then "true" else "false"
    case Number(lexeme) => lexeme
    case String(text) => Quoted(text)
    case Array(items) => "[" + JoinItems(items) + "]"
    case Object(members) => "{" + JoinMembers(members) + "}"
  }

  function JoinItems(items: seq<Value>): string
    decreases items, 0
  {
    if items == [] then ""
    else Render(items[0]) + if |items| == 1 then "" else "," + JoinItems(items[1..])
  }

  function RenderMember(m: Member): string
    decreases m, 2
  {
    Quoted(m.key) + ":" + Render(m.value)
  }

  function JoinMembers(members: seq<Member>): string
    decreases members, 0
  {
    if members == [] then ""
    else RenderMember(members[0]) + if |members| == 1 then "" else "," + JoinMembers(members[1..])
  }
}
