// The grammar of RFC 8259 as derivation trees: what texts are JSON, and which value each denotes, without saying
// how they are read.
module JsonSyntax {
  import opened JsonValue
  import opened JsonGrammar

  // ---------- White space and strings (sections 2 and 7) ----------

  predicate AllSpace(s: string) {
    forall i :: 0 <= i < |s| ==> IsSpace(s[i])
  }

  // One character of a string: itself, a two-character escape, or \u and any four hex digits.
  datatype CharSyntax = Plain(c: char) | Short(e: char) | Unicode(digits: string)

  // White space, digits and hex digits (sections 2, 6 and 7).
  lemma Characters(c: char)
    ensures IsSpace(c) <==> c as int in {0x20, 0x09, 0x0A, 0x0D}
    ensures IsDigit(c) <==> 0x30 <= c as int <= 0x39
    ensures IsHex(c) <==> c in "0123456789abcdef" || c in "0123456789ABCDEF"
    ensures forall i :: 0 <= i < 16 ==> HexOf("0123456789abcdef"[i]) == i && HexOf("0123456789ABCDEF"[i]) == i
  {
  }

  // What each two-character escape stands for (section 7).
  lemma Escapes(c: char)
    ensures SimpleEscape('"') == [0x22 as char] && SimpleEscape('\\') == [0x5C as char]
    ensures SimpleEscape('/') == [0x2F as char] && SimpleEscape('b') == [0x08 as char]
    ensures SimpleEscape('f') == [0x0C as char] && SimpleEscape('n') == [0x0A as char]
    ensures SimpleEscape('r') == [0x0D as char] && SimpleEscape('t') == [0x09 as char]
    ensures SimpleEscape(c) == "" <==> c !in "\"\\/bfnrt"
  {
  }

  predicate FourDigits(s: string) {
    |s| == 4 && forall i :: 0 <= i < 4 ==> IsHex(s[i])
  }

  function HexNumber(s: string): nat
    requires FourDigits(s)
  {
    HexOf(s[0]) * 0x1000 + HexOf(s[1]) * 0x100 + HexOf(s[2]) * 0x10 + HexOf(s[3])
  }

  predicate CharOk(c: CharSyntax) {
    match c
    case Plain(x) => x >= ' ' && x != '"' && x != '\\'
    case Short(e) => e in {'"', '\\', '/', 'b', 'f', 'n', 'r', 't'}
    case Unicode(digits) => FourDigits(digits)
  }

  function CharText(c: CharSyntax): string {
    match c
    case Plain(x) => [x]
    case Short(e) => "\\" + [e]
    case Unicode(digits) => "\\u" + digits
  }

  // The bytes that a character denotes on its own. For half of a surrogate pair, section 8.2 leaves this open.
  function CharValue(c: CharSyntax): string
    requires CharOk(c)
  {
    match c
    case Plain(x) => [x]
    case Short(e) => SimpleEscape(e)
    case Unicode(digits) => Utf8(HexNumber(digits))
  }

  predicate IsHigh(c: CharSyntax) {
    c.Unicode? && FourDigits(c.digits) && 0xD800 <= HexNumber(c.digits) <= 0xDBFF
  }

  predicate IsLow(c: CharSyntax) {
    c.Unicode? && FourDigits(c.digits) && 0xDC00 <= HexNumber(c.digits) <= 0xDFFF
  }

  function PairValue(high: CharSyntax, low: CharSyntax): string
    requires IsHigh(high) && IsLow(low)
  {
    Utf8(0x10000 + (HexNumber(high.digits) - 0xD800) * 0x400 + (HexNumber(low.digits) - 0xDC00))
  }

  predicate CharsOk(cs: seq<CharSyntax>) {
    forall i :: 0 <= i < |cs| ==> CharOk(cs[i])
  }

  function CharsText(cs: seq<CharSyntax>): string {
    if cs == [] then "" else CharText(cs[0]) + CharsText(cs[1..])
  }

  function CharsValue(cs: seq<CharSyntax>): string
    requires CharsOk(cs)
  {
    if cs == [] then ""
    else if IsHigh(cs[0]) && |cs| > 1 && IsLow(cs[1]) then PairValue(cs[0], cs[1]) + CharsValue(cs[2..])
    else CharValue(cs[0]) + CharsValue(cs[1..])
  }

  predicate HighAt(cs: seq<CharSyntax>, i: int) {
    0 <= i < |cs| && IsHigh(cs[i])
  }

  predicate LowAt(cs: seq<CharSyntax>, i: int) {
    0 <= i < |cs| && IsLow(cs[i])
  }

  // Every surrogate is half of a pair: low ones stand exactly behind high ones.
  predicate PairedChars(cs: seq<CharSyntax>) {
    forall i :: 0 <= i <= |cs| ==> (HighAt(cs, i - 1) <==> LowAt(cs, i))
  }

  // ---------- Numbers (section 6) ----------

  predicate AllDigits(s: string) {
    forall i :: 0 <= i < |s| ==> IsDigit(s[i])
  }

  predicate IsFraction(s: string) {
    s == "" || (s[0] == '.' && |s| > 1 && AllDigits(s[1..]))
  }

  predicate IsExponent(s: string) {
    s == "" ||
    ((s[0] == 'e' || s[0] == 'E') && |s| > 1 &&
     var digits := if s[1] == '+' || s[1] == '-' then s[2..] else s[1..];
     digits != "" && AllDigits(digits))
  }

  datatype NumberSyntax = NumberSyntax(minus: bool, integer: string, fraction: string, exponent: string)

  predicate NumberOk(n: NumberSyntax) {
    IsNatText(n.integer) && IsFraction(n.fraction) && IsExponent(n.exponent)
  }

  function NumberText(n: NumberSyntax): string {
    (if n.minus then "-" else "") + n.integer + n.fraction + n.exponent
  }

  // ---------- Values (sections 3 to 5) ----------

  datatype Syntax =
    | NullWord
    | TrueWord
    | FalseWord
    | NumberOf(number: NumberSyntax)
    | StringOf(chars: seq<CharSyntax>)
    | ArrayOf(space: string, items: seq<ItemSyntax>)      // space is what an empty one contains
    | ObjectOf(space: string, members: seq<MemberSyntax>)

  datatype ItemSyntax = ItemSyntax(before: string, value: Syntax, after: string)

  datatype MemberSyntax = MemberSyntax(before: string, key: seq<CharSyntax>, afterKey: string,
                                       beforeValue: string, value: Syntax, after: string)

  predicate Derived(x: Syntax)
    decreases x, 0
  {
    match x
    case NumberOf(n) => NumberOk(n)
    case StringOf(cs) => CharsOk(cs)
    case ArrayOf(space, items) => AllSpace(space) && ItemsOk(items)
    case ObjectOf(space, members) => AllSpace(space) && MembersOk(members)
    case _ => true
  }

  predicate ItemsOk(items: seq<ItemSyntax>)
    decreases items, 0
  {
    forall i :: 0 <= i < |items| ==> ItemOk(items[i])
  }

  predicate MembersOk(members: seq<MemberSyntax>)
    decreases members, 0
  {
    forall i :: 0 <= i < |members| ==> MemberOk(members[i])
  }

  predicate ItemOk(i: ItemSyntax)
    decreases i, 1
  {
    AllSpace(i.before) && AllSpace(i.after) && Derived(i.value)
  }

  predicate MemberOk(m: MemberSyntax)
    decreases m, 1
  {
    && AllSpace(m.before) && CharsOk(m.key) && AllSpace(m.afterKey) && AllSpace(m.beforeValue) && AllSpace(m.after)
    && Derived(m.value)
  }

  function TextOf(x: Syntax): string
    decreases x, 0
  {
    match x
    case NullWord => "null"
    case TrueWord => "true"
    case FalseWord => "false"
    case NumberOf(n) => NumberText(n)
    case StringOf(cs) => StringText(cs)
    case ArrayOf(space, items) => "[" + (if items == [] then space else ItemsText(items)) + "]"
    case ObjectOf(space, members) => "{" + (if members == [] then space else MembersText(members)) + "}"
  }

  function StringText(cs: seq<CharSyntax>): string {
    "\"" + CharsText(cs) + "\""
  }

  function ItemText(i: ItemSyntax): string
    decreases i, 1
  {
    i.before + TextOf(i.value) + i.after
  }

  function ItemsText(items: seq<ItemSyntax>): string
    requires items != []
    decreases items, 0
  {
    ItemText(items[0]) + if |items| == 1 then "" else "," + ItemsText(items[1..])
  }

  function MemberText(m: MemberSyntax): string
    decreases m, 1
  {
    m.before + StringText(m.key) + m.afterKey + ":" + m.beforeValue + TextOf(m.value) + m.after
  }

  function MembersText(members: seq<MemberSyntax>): string
    requires members != []
    decreases members, 0
  {
    MemberText(members[0]) + if |members| == 1 then "" else "," + MembersText(members[1..])
  }

  // All strings in it are free of lone surrogates.
  predicate Paired(x: Syntax)
    decreases x, 0
  {
    match x
    case StringOf(cs) => PairedChars(cs)
    case ArrayOf(_, items) => ItemsPaired(items)
    case ObjectOf(_, members) => MembersPaired(members)
    case _ => true
  }

  predicate ItemsPaired(items: seq<ItemSyntax>)
    decreases items, 0
  {
    items != [] ==> Paired(items[0].value) && ItemsPaired(items[1..])
  }

  predicate MemberPaired(m: MemberSyntax)
    decreases m, 1
  {
    PairedChars(m.key) && Paired(m.value)
  }

  predicate MembersPaired(members: seq<MemberSyntax>)
    decreases members, 0
  {
    members != [] ==> MemberPaired(members[0]) && MembersPaired(members[1..])
  }

  // The value that a text denotes: numbers as their texts, strings as their bytes, members in order.
  function ValueOf(x: Syntax): Value
    requires Derived(x)
    decreases x, 0
  {
    match x
    case NullWord => Null
    case TrueWord => Bool(true)
    case FalseWord => Bool(false)
    case NumberOf(n) => Number(NumberText(n))
    case StringOf(cs) => String(CharsValue(cs))
    case ArrayOf(_, items) => Array(ItemsOf(items))
    case ObjectOf(_, members) => Object(MembersOf(members))
  }

  function ItemsOf(items: seq<ItemSyntax>): (vs: seq<Value>)
    requires ItemsOk(items)
    ensures |vs| == |items|
    decreases items, 0
  {
    if items == [] then [] else assert ItemOk(items[0]); [ValueOf(items[0].value)] + ItemsOf(items[1..])
  }

  function MemberOf(m: MemberSyntax): Member
    requires MemberOk(m)
    decreases m, 1
  {
    Member(CharsValue(m.key), ValueOf(m.value))
  }

  function MembersOf(members: seq<MemberSyntax>): (ms: seq<Member>)
    requires MembersOk(members)
    ensures |ms| == |members|
    decreases members, 0
  {
    if members == [] then [] else assert MemberOk(members[0]); [MemberOf(members[0])] + MembersOf(members[1..])
  }

  // A JSON text is a value with white space around it.
  datatype Document = Document(before: string, value: Syntax, after: string)

  predicate DocumentOk(d: Document) {
    AllSpace(d.before) && Derived(d.value) && AllSpace(d.after)
  }

  function DocumentText(d: Document): string {
    d.before + TextOf(d.value) + d.after
  }
}
