// The text of a receiver command and what it stands for (tools/receiver/receiver.cpp:157-192).
module CommandText {
  import opened Text

  datatype Command = RecordOn | RecordOff | RecordToggle | FlushFile | ReportStats | UnknownCommand

  // std::replace with a space.
  function Replace(s: string, c: char): string {
    seq(|s|, i requires 0 <= i < |s| => if s[i] == c then ' ' else s[i])
  }

  function Separated(s: string): string {
    Replace(Replace(Replace(s, '_'), '='), ':')
  }

  // Appends s to norm, without a space behind a space.
  function Collapse(norm: string, s: string): string
    decreases |s|
  {
    if s == [] then norm
    else if s[0] == ' ' && norm != [] && norm[|norm| - 1] == ' ' then Collapse(norm, s[1..])
    else Collapse(norm + [s[0]], s[1..])
  }

  function Normal(raw: string): string {
    Collapse([], Separated(ToLower(Trim(raw))))
  }

  function CommandOf(norm: string): Command {
    if norm == "record on" || norm == "record start" || norm == "record enable" || norm == "record true" ||
       norm == "record 1" then RecordOn
    else if norm == "record off" || norm == "record stop" || norm == "record disable" || norm == "record false" ||
            norm == "record 0" then RecordOff
    else if norm == "record toggle" then RecordToggle
    else if norm == "flush" then FlushFile
    else if norm == "stats" || norm == "status" then ReportStats
    else UnknownCommand
  }

  // The first part of handle_command, with its loop.
  method Normalise(raw: string) returns (norm: string)
    ensures norm == Normal(raw)
  {
    var cmd := ToLower(Trim(raw));
    cmd := Replace(cmd, '_');
    cmd := Replace(cmd, '=');
    cmd := Replace(cmd, ':');
    norm := [];
    assert cmd[0..] == cmd;
    for i := 0 to |cmd|
      invariant Collapse(norm, cmd[i..]) == Normal(raw)
    {
      assert cmd[i..][1..] == cmd[i + 1..];
      if cmd[i] == ' ' && norm != [] && norm[|norm| - 1] == ' ' { continue; }
      norm := norm + [cmd[i]];
    }
  }

  // ---------- Spellings ----------

  predicate IsSeparator(c: char) {
    c == ' ' || c == '_' || c == '=' || c == ':'
  }

  // A word in any mixture of cases: no blanks and no separators.
  predicate IsWord(w: string) {
    w != [] && forall i :: 0 <= i < |w| ==> !IsBlank(w[i]) && !IsSeparator(w[i])
  }

  // What stands between two words.
  predicate IsGap(s: string) {
    s != [] && forall i :: 0 <= i < |s| ==> IsSeparator(s[i])
  }

  // A word, and the words behind it with the gaps in front of them.
  datatype Spelling = Spelling(word: string, rest: seq<(string, string)>)

  predicate IsSpelling(p: Spelling) {
    IsWord(p.word) && forall i :: 0 <= i < |p.rest| ==> IsGap(p.rest[i].0) && IsWord(p.rest[i].1)
  }

  function Spelled(p: Spelling): string
    decreases |p.rest|
  {
    if p.rest == [] then p.word
    else
      var last := p.rest[|p.rest| - 1];
      Spelled(p.(rest := p.rest[..|p.rest| - 1])) + last.0 + last.1
  }

  // The words in lower case, with one space between them.
  function Words(p: Spelling): string
    decreases |p.rest|
  {
    if p.rest == [] then ToLower(p.word)
    else Words(p.(rest := p.rest[..|p.rest| - 1])) + " " + ToLower(p.rest[|p.rest| - 1].1)
  }

  lemma SeparatedConcat(a: string, b: string)
    ensures Separated(a + b) == Separated(a) + Separated(b)
  {
  }

  lemma SeparatedWord(w: string)
    requires IsWord(w)
    ensures Separated(ToLower(w)) == ToLower(w)
    ensures forall i :: 0 <= i < |w| ==> ToLower(w)[i] != ' '
  {
    var t := ToLower(w);
    forall i | 0 <= i < |t|
      ensures t[i] != ' ' && !IsSeparator(t[i])
    {
      assert !IsSeparator(w[i]);
    }
  }

  lemma SeparatedGap(s: string)
    requires IsGap(s)
    ensures |Separated(ToLower(s))| == |s| && forall i :: 0 <= i < |s| ==> Separated(ToLower(s))[i] == ' '
  {
    forall i | 0 <= i < |s|
      ensures Separated(ToLower(s))[i] == ' '
    {
      assert IsSeparator(s[i]) && ToLower(s)[i] == s[i];
    }
  }

  lemma {:induction false} CollapseConcat(norm: string, a: string, b: string)
    ensures Collapse(norm, a + b) == Collapse(Collapse(norm, a), b)
    decreases |a|
  {
    if a == [] {
      assert a + b == b;
    } else {
      assert (a + b)[1..] == a[1..] + b;
      if a[0] == ' ' && norm != [] && norm[|norm| - 1] == ' ' {
        CollapseConcat(norm, a[1..], b);
      } else {
        CollapseConcat(norm + [a[0]], a[1..], b);
      }
    }
  }

  lemma {:induction false} CollapseWord(norm: string, w: string)
    requires forall i :: 0 <= i < |w| ==> w[i] != ' '
    ensures Collapse(norm, w) == norm + w
    decreases |w|
  {
    if w == [] {
      assert norm + w == norm;
    } else {
      CollapseWord(norm + [w[0]], w[1..]);
      assert norm + [w[0]] + w[1..] == norm + w;
    }
  }

  // A run of spaces behind a space, or behind something else.
  lemma {:induction false} CollapseSpaces(norm: string, s: string)
    requires norm != [] && forall i :: 0 <= i < |s| ==> s[i] == ' '
    ensures Collapse(norm, s) == if s == [] || norm[|norm| - 1] == ' ' then norm else norm + " "
    decreases |s|
  {
    if s != [] {
      CollapseSpaces(if norm[|norm| - 1] == ' ' then norm else norm + [' '], s[1..]);
    }
  }

  lemma {:induction false} SpelledIsTight(p: Spelling)
    requires IsSpelling(p)
    ensures IsTight(Spelled(p)) && Words(p) != [] && Words(p)[|Words(p)| - 1] != ' '
    decreases |p.rest|
  {
    if p.rest == [] {
      SeparatedWord(p.word);
    } else {
      var earlier := p.(rest := p.rest[..|p.rest| - 1]);
      SpelledIsTight(earlier);
      SeparatedWord(p.rest[|p.rest| - 1].1);
      assert Spelled(p)[0] == Spelled(earlier)[0];
    }
  }

  lemma {:induction false} SpelledCollapses(p: Spelling)
    requires IsSpelling(p)
    ensures Collapse([], Separated(ToLower(Spelled(p)))) == Words(p)
    decreases |p.rest|
  {
    hide Separated, ToLower, Collapse, IsTight, IsGap, IsWord;
    if p.rest == [] {
      SeparatedWord(p.word);
      LowerWordHasNoSpace(p.word);
      CollapseWord([], ToLower(p.word));
      assert [] + ToLower(p.word) == ToLower(p.word);
    } else {
      var earlier, last := p.(rest := p.rest[..|p.rest| - 1]), p.rest[|p.rest| - 1];
      SpelledCollapses(earlier);
      SpelledIsTight(earlier);
      OneMoreWord(Spelled(earlier), last.0, last.1, Words(earlier));
    }
  }

  lemma OneMoreWord(text: string, gap: string, word: string, norm: string)
    requires Collapse([], Separated(ToLower(text))) == norm && norm != [] && norm[|norm| - 1] != ' '
    requires IsGap(gap) && IsWord(word)
    ensures Collapse([], Separated(ToLower(text + gap + word))) == norm + " " + ToLower(word)
  {
    hide Separated, ToLower, Collapse, IsWord;
    var a, g, w := Separated(ToLower(text)), Separated(ToLower(gap)), Separated(ToLower(word));
    ToLowerConcat(text + gap, word);
    ToLowerConcat(text, gap);
    SeparatedConcat(ToLower(text) + ToLower(gap), ToLower(word));
    SeparatedConcat(ToLower(text), ToLower(gap));
    CollapseConcat([], a + g, w);
    CollapseConcat([], a, g);
    SeparatedGap(gap);
    CollapseSpaces(norm, g);
    SeparatedWord(word);
    LowerWordHasNoSpace(word);
    CollapseWord(norm + " ", w);
  }

  lemma LowerWordHasNoSpace(w: string)
    requires IsWord(w)
    ensures forall i :: 0 <= i < |ToLower(w)| ==> ToLower(w)[i] != ' '
  {
    SeparatedWord(w);
  }

  // However a command is spelled, with blanks around it, in any mixture of cases and with any run of spaces,
  // underscores, equals signs and colons between its words, it is its words in lower case, one space between them.
  lemma SpellingsAreAlike(before: string, p: Spelling, after: string)
    requires AllBlank(before) && AllBlank(after) && IsSpelling(p)
    ensures Normal(before + Spelled(p) + after) == Words(p)
  {
    hide Separated, ToLower, Collapse, Trim, Spelled, Words;
    SpelledIsTight(p);
    TrimTakesBlanks(before, Spelled(p), after);
    SpelledCollapses(p);
  }
}
