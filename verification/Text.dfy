// The string helpers of src/common/config.cpp, on byte strings.
module Text {

  predicate IsBlank(c: char) {
    c == ' ' || c == '\t' || c == '\n' || c == '\r' || c == 11 as char || c == 12 as char
  }

  function TrimLeft(s: string): string {
    if s != [] && IsBlank(s[0]) then TrimLeft(s[1..]) else s
  }

  function TrimRight(s: string): string {
    if s != [] && IsBlank(s[|s| - 1]) then TrimRight(s[..|s| - 1]) else s
  }

  function Trim(s: string): string {
    TrimRight(TrimLeft(s))
  }

  function LowerChar(c: char): char {
    if 'A' <= c <= 'Z' then (c as int + 32) as char else c
  }

  function ToLower(s: string): string {
    seq(|s|, i requires 0 <= i < |s| => LowerChar(s[i]))
  }

  // The blanks and the capital letters of ASCII, by their codes.
  lemma Characters(c: char)
    ensures IsBlank(c) <==> c as int == 32 || 9 <= c as int <= 13
    ensures LowerChar(c) as int == c as int + if 65 <= c as int <= 90 then 32 else 0
  {
  }

  predicate AllBlank(s: string) {
    forall i :: 0 <= i < |s| ==> IsBlank(s[i])
  }

  // s begins and ends with something that is not blank.
  predicate IsTight(s: string) {
    s != [] && !IsBlank(s[0]) && !IsBlank(s[|s| - 1])
  }

  // Trimming takes away the blanks around a text and nothing else.
  lemma {:induction false} TrimTakesBlanks(before: string, s: string, after: string)
    requires AllBlank(before) && AllBlank(after) && IsTight(s)
    ensures Trim(before + s + after) == s
    decreases |before|, |after|
  {
    var t := before + s + after;
    if before != [] {
      assert t[1..] == before[1..] + s + after;
      TrimTakesBlanks(before[1..], s, after);
    } else if after != [] {
      var last := |after| - 1;
      assert t[..|t| - 1] == before + s + after[..last] && t[|t| - 1] == after[last];
      assert t[0] == s[0] == t[..|t| - 1][0];
      TrimTakesBlanks(before, s, after[..last]);
    } else {
      assert t == s;
    }
  }

  lemma ToLowerConcat(a: string, b: string)
    ensures ToLower(a + b) == ToLower(a) + ToLower(b)
  {
  }
}
