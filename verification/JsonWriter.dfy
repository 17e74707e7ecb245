// The JSON serializer (tools/receiver/include/ipcrelay/json_writer.hpp, tools/receiver/lib/json_writer.cpp).
module JsonWriter {
  import opened JsonValue

  lemma EscapeAllSnoc(s: string, i: nat)
    requires i < |s|
    ensures EscapeAll(s[..i + 1]) == EscapeAll(s[..i]) + EscapeChar(s[i])
  {
    hide EscapeChar;
    assert s[..i + 1] == s[..i] + [s[i]];
    EscapeAllConcat(s[..i], [s[i]]);
    assert EscapeAll([s[i]]) == EscapeChar(s[i]) + EscapeAll([s[i]][1..]);
  }

  lemma QuotedAppends(before: string, s: string)
    ensures before + "\"" + EscapeAll(s) + "\"" == before + Quoted(s)
  {
    hide EscapeAll;
  }

  class JsonWriter {
    var out: string
    var needComma: bool

    constructor ()
      ensures out == "" && !needComma
    {
      out, needComma := "", false;
    }

    // What separator() appends before the next item.
    function Comma(): string
      reads this
    {
      if needComma then "," else ""
    }

    method Separator()
      modifies this
      ensures out == old(out) + old(Comma()) && needComma
    {
      if needComma { out := out + ","; }
      needComma := true;
    }

    method Escape(s: string)
      modifies `out
      ensures out == old(out) + Quoted(s)
    {
      hide EscapeAll, EscapeChar;
      out := out + "\"";
      ghost var start := out;
      EscapeAllOfNone();
      for i := 0 to |s|
        invariant out == start + EscapeAll(s[..i])
      {
        EscapeOne(s[i]);
        EscapeAllSnoc(s, i);
      }
      assert s[..|s|] == s;
      out := out + "\"";
      QuotedAppends(old(out), s);
    }

    method EscapeOne(c: char)
      modifies `out
      ensures out == old(out) + EscapeChar(c)
    {
      if c == '"' { out := out + "\\\""; }
      else if c == '\\' { out := out + "\\\\"; }
      else if c == '\n' { out := out + "\\n"; }
      else if c == '\r' { out := out + "\\r"; }
      else if c == '\t' { out := out + "\\t"; }
      else if c < ' ' { out := out + ("\\u00" + [HexDigit(c as int / 16), HexDigit(c as int % 16)]); }
      else { out := out + [c]; }
    }

    method BeginObject()
      modifies this
      ensures out == old(out) + old(Comma()) + "{" && !needComma
    {
      Separator();
      out := out + "{";
      needComma := false;
    }

    method EndObject()
      modifies this
      ensures out == old(out) + "}" && needComma
    {
      out := out + "}";
      needComma := true;
    }

    method BeginArray()
      modifies this
      ensures out == old(out) + old(Comma()) + "[" && !needComma
    {
      Separator();
      out := out + "[";
      needComma := false;
    }

    method EndArray()
      modifies this
      ensures out == old(out) + "]" && needComma
    {
      out := out + "]";
      needComma := true;
    }

    method Key(k: string)
      modifies this
      ensures out == old(out) + old(Comma()) + Quoted(k) + ":" && !needComma
    {
      Separator();
      Escape(k);
      out := out + ":";
      needComma := false;
    }

    method StringValue(v: string)
      modifies this
      ensures out == old(out) + old(Comma()) + Quoted(v) && needComma
    {
      Separator();
      Escape(v);
    }

    method IntValue(v: int)
      modifies this
      ensures out == old(out) + old(Comma()) + IntText(v) && needComma
    {
      Separator();
      out := out + IntText(v);
    }

    method BoolValue(v: bool)
      modifies this
      ensures out == old(out) + old(Comma()) + (if v then "true" else "false") && needComma
    {
      Separator();
      out := out + if v then "true" else "false";
    }

    method NullValue()
      modifies this
      ensures out == old(out) + old(Comma()) + "null" && needComma
    {
      Separator();
      out := out + "null";
    }

    method Raw(json: string)
      modifies this
      ensures out == old(out) + old(Comma()) + json && needComma
    {
      Separator();
      out := out + json;
    }
  }

  // ---------- Writing a whole value with these calls ----------

  lemma JoinItemsUnfolds(items: seq<Value>)
    requires items != []
    ensures JoinItems(items) ==
        if |items| == 1 then Render(items[0]) else Render(items[0]) + ("," + JoinItems(items[1..]))
  {
    hide Render;
    assert Render(items[0]) + "" == Render(items[0]);
  }

  lemma {:induction false} JoinItemsSnoc(items: seq<Value>, v: Value)
    ensures JoinItems(items + [v]) == JoinItems(items) + (if items == [] then "" else ",") + Render(v)
  {
    hide Render, JoinItems;
    JoinItemsUnfolds(items + [v]);
    if items == [] {
      JoinOfNone();
    } else {
      JoinItemsSnoc(items[1..], v);
      JoinItemsUnfolds(items);
      assert (items + [v])[1..] == items[1..] + [v];
      if |items| == 1 { JoinOfNone(); }
    }
  }

  lemma JoinMembersUnfolds(members: seq<Member>)
    requires members != []
    ensures JoinMembers(members) ==
            if |members| == 1 then RenderMember(members[0])
            else RenderMember(members[0]) + ("," + JoinMembers(members[1..]))
  {
    hide RenderMember;
    assert RenderMember(members[0]) + "" == RenderMember(members[0]);
  }

  lemma {:induction false} JoinMembersSnoc(members: seq<Member>, m: Member)
    ensures JoinMembers(members + [m]) == JoinMembers(members) + (if members == [] then "" else ",") + RenderMember(m)
  {
    hide RenderMember, JoinMembers;
    JoinMembersUnfolds(members + [m]);
    if members == [] {
      JoinOfNone();
    } else {
      JoinMembersSnoc(members[1..], m);
      JoinMembersUnfolds(members);
      assert (members + [m])[1..] == members[1..] + [m];
      if |members| == 1 { JoinOfNone(); }
    }
  }

  lemma MemberAppends(before: string, m: Member)
    ensures before + Quoted(m.key) + ":" + "" + Render(m.value) == before + RenderMember(m)
  {
    hide Quoted, Render;
  }

  lemma JoinOfNone()
    ensures JoinItems([]) == "" && JoinMembers([]) == ""
  {
  }

  // Writing any value appends exactly its compact text, after a comma if one is due: the comma state
  // machine separates items and members and nothing else, at every depth.
  method WriteValue(j: JsonWriter, v: Value)
    requires Writable(v)
    modifies j
    ensures j.out == old(j.out) + old(j.Comma()) + Render(v) && j.needComma
    decreases v, 1
  {
    match v
    case Null => j.NullValue();
    case Bool(b) => j.BoolValue(b);
    case Number(lexeme) =>
      IntTextRoundTrip(0, lexeme);
      j.IntValue(IntOf(lexeme));
    case String(text) => j.StringValue(text);
    case Array(items) => WriteItems(j, items);
    case Object(members) => WriteMembers(j, members);
  }

  method WriteItems(j: JsonWriter, items: seq<Value>)
    requires forall i :: 0 <= i < |items| ==> Writable(items[i])
    modifies j
    ensures j.out == old(j.out) + old(j.Comma()) + ("[" + JoinItems(items) + "]") && j.needComma
    decreases items, 0
  {
    hide JoinItems, Render;
    JoinOfNone();
    j.BeginArray();
    ghost var start := j.out;
    for i := 0 to |items|
      invariant j.out == start + JoinItems(items[..i]) && j.needComma == (i > 0)
    {
      WriteValue(j, items[i]);
      JoinItemsSnoc(items[..i], items[i]);
      assert items[..i + 1] == items[..i] + [items[i]];
    }
    assert items[..|items|] == items;
    j.EndArray();
  }

  method WriteMembers(j: JsonWriter, members: seq<Member>)
    requires forall i :: 0 <= i < |members| ==> Writable(members[i].value)
    modifies j
    ensures j.out == old(j.out) + old(j.Comma()) + ("{" + JoinMembers(members) + "}") && j.needComma
    decreases members, 0
  {
    hide JoinMembers, Render, Quoted, RenderMember;
    JoinOfNone();
    j.BeginObject();
    ghost var start := j.out;
    for i := 0 to |members|
      invariant j.out == start + JoinMembers(members[..i]) && j.needComma == (i > 0)
    {
      ghost var before, comma := j.out, j.Comma();
      j.Key(members[i].key);
      WriteValue(j, members[i].value);
      MemberAppends(before + comma, members[i]);
      JoinMembersSnoc(members[..i], members[i]);
      assert members[..i + 1] == members[..i] + [members[i]];
    }
    assert members[..|members|] == members;
    j.EndObject();
  }
}
