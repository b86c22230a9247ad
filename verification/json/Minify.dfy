/**
 `cJSON_Minify`: drops white space and comments outside string literals, in
 place. Its result on a formatted print is the unformatted print.
 */
module Minify {
  import opened CString
  import opened JsonValue
  import opened JsonString
  import opened JsonText
  import opened Numerals

  /** The four white-space bytes it drops; the parser's `skip` drops more. */
  predicate White(c: char) {
    c == ' ' || c == '\t' || c == '\r' || c == '\n'
  }

  /** From inside a `//` comment to its line feed or the end of the text. */
  function SkipLine(s: string): (r: string)
    ensures |r| <= |s|
  {
    if At(s, 0) != NUL && s[0] != '\n' then SkipLine(s[1..]) else s
  }

  /** From inside a block comment to its closing star. */
  function SkipBlock(s: string): (r: string)
    ensures |r| <= |s|
  {
    if At(s, 0) != NUL && !(s[0] == '*' && At(s, 1) == '/') then SkipBlock(s[1..]) else s
  }

  /** Behind the opening quote: how many bytes are copied before the closing one. */
  function LiteralSpan(s: string): (n: nat)
    ensures n <= |s|
    decreases |s|
  {
    if At(s, 0) == NUL || s[0] == '"' then 0
    else if s[0] == '\\' then
      if |s| < 2 then 1 else 2 + LiteralSpan(s[2..])
    else 1 + LiteralSpan(s[1..])
  }

  /**
   Texts on which the minifier never steps over the terminator: every string
   literal is closed, no backslash ends the text inside one, and every block
   comment is closed.
   */
  predicate Closed(s: string)
    decreases |s|
  {
    if At(s, 0) == NUL then true
    else if White(s[0]) then Closed(s[1..])
    else if s[0] == '/' && At(s, 1) == '/' then Closed(SkipLine(s[1..]))
    else if s[0] == '/' && At(s, 1) == '*' then
      var t := SkipBlock(s[1..]);
      At(t, 0) != NUL && Closed(Advance(t, 2))
    else if s[0] == '"' then
      var n := LiteralSpan(s[1..]);
      At(s, 1 + n) == '"' && Closed(s[n + 2..])
    else Closed(s[1..])
  }

  function Minified(s: string): (r: string)
    decreases |s|
  {
    if At(s, 0) == NUL then ""
    else if White(s[0]) then Minified(s[1..])
    else if s[0] == '/' && At(s, 1) == '/' then Minified(SkipLine(s[1..]))
    else if s[0] == '/' && At(s, 1) == '*' then Minified(Advance(SkipBlock(s[1..]), 2))
    else if s[0] == '"' then
      var n := LiteralSpan(s[1..]);
      if At(s, 1 + n) == '"' then s[..n + 2] + Minified(s[n + 2..]) else s
    else [s[0]] + Minified(s[1..])
  }

  // ----- minifying a print -----

  /** A byte that is copied on its own: not white, no quote, no comment. */
  predicate Plain(c: char) {
    c != NUL && !White(c) && c != '"' && c != '/'
  }

  lemma {:induction false} MinifyPlain(word: string, s: string)
    requires forall i | 0 <= i < |word| :: Plain(word[i])
    ensures Minified(word + s) == word + Minified(s)
    ensures Closed(word + s) == Closed(s)
  {
    if word == "" {
      assert word + s == s;
    } else {
      assert (word + s)[1..] == word[1..] + s;
      MinifyPlain(word[1..], s);
    }
  }

  lemma {:induction false} MinifyWhite(blanks: string, s: string)
    requires forall i | 0 <= i < |blanks| :: White(blanks[i])
    ensures Minified(blanks + s) == Minified(s)
    ensures Closed(blanks + s) == Closed(s)
  {
    if blanks == "" {
      assert blanks + s == s;
    } else {
      assert (blanks + s)[1..] == blanks[1..] + s;
      MinifyWhite(blanks[1..], s);
    }
  }

  /** Escaping leaves no quote or backslash that could close the literal early. */
  lemma {:induction false} SpanOfEscape(t: string, s: string)
    ensures LiteralSpan(Escape(t) + ("\"" + s)) == |Escape(t)|
  {
    var tail := "\"" + s;
    if t == "" {
      assert Escape(t) + tail == tail;
    } else {
      var e := EscapeChar(t[0]);
      var more := Escape(t[1..]) + tail;
      SpanOfEscape(t[1..], s);
      EscapeSplit(t, tail);
      SpanOfChar(t[0], more);
    }
  }

  lemma SpanOfChar(c: char, s: string)
    ensures LiteralSpan(EscapeChar(c) + s) == |EscapeChar(c)| + LiteralSpan(s)
  {
    var e := EscapeChar(c);
    var t := e + s;
    assert t[|e|..] == s;
    if |e| == 6 {
      assert t[2..][1..] == t[3..] && t[3..][1..] == t[4..] && t[4..][1..] == t[5..] && t[5..][1..] == t[6..];
      assert LiteralSpan(t[4..]) == 2 + LiteralSpan(t[6..]);
      assert LiteralSpan(t[2..]) == 2 + LiteralSpan(t[4..]);
    }
  }

  lemma MinifyQuoted(t: string, s: string)
    ensures Minified(Quoted(t) + s) == Quoted(t) + Minified(s)
    ensures Closed(Quoted(t) + s) == Closed(s)
  {
    hide Escape;
    var u := Quoted(t) + s;
    var n := |Escape(t)|;
    assert u[1..] == Escape(t) + ("\"" + s);
    SpanOfEscape(t, s);
    assert u[..n + 2] == Quoted(t);
    assert u[n + 2..] == s && u[1 + n] == '"';
  }

  lemma {:induction false} TabsWhite(n: int)
    ensures forall i | 0 <= i < |Tabs(n)| :: White(Tabs(n)[i])
  {
    if n > 0 {
      TabsWhite(n - 1);
    }
  }

  /** White space that only the formatted print has. */
  lemma MinifyWhen(blanks: string, s: string)
    requires forall i | 0 <= i < |blanks| :: White(blanks[i])
    ensures Minified(When(true, blanks) + s) == When(false, blanks) + Minified(s)
    ensures Closed(When(true, blanks) + s) == Closed(s)
  {
    MinifyWhite(blanks, s);
    assert When(false, blanks) + Minified(s) == Minified(s);
  }

  /** `s` minifies to `m`, without ever stepping over the terminator if `z` does not. */
  ghost predicate MinifiesTo(s: string, m: string, z: string) {
    Minified(s) == m && Closed(s) == Closed(z)
  }

  /** The formatted text of a tree minifies to its unformatted text, whatever follows. */
  lemma {:induction false} MinifyValue(v: Json, depth: nat, d: nat, s: string)
    ensures MinifiesTo(Text(v, depth, true) + s, Text(v, d, false) + Minified(s), s)
    decreases v, 1
  {
    match v
    case Null | False | True => MinifyPlain(Text(v, depth, true), s);
    case Number(x) => MinifyPlain(IntText(x.Floor), s);
    case String(t) => MinifyQuoted(t, s);
    case Array(items) => MinifyArray(items, depth, d, s);
    case Object(members) => MinifyObject(members, depth, d, s);
  }

  lemma {:induction false} MinifyArray(items: Items, depth: nat, d: nat, s: string)
    ensures MinifiesTo(Text(Array(items), depth, true) + s, Text(Array(items), d, false) + Minified(s), s)
    decreases items, 2
  {
    hide Text, ItemsText, Minified, Closed;
    var tail := "]" + s;
    ArraySplits(items, depth, true, s);
    ArraySplits(items, d, false, Minified(s));
    MinifyPlain("[", ItemsText(items, depth + 1, true) + tail);
    MinifyItems(items, depth + 1, d + 1, tail);
    MinifyPlain("]", s);
  }

  lemma {:induction false} MinifyItems(items: Items, depth: nat, d: nat, s: string)
    ensures MinifiesTo(ItemsText(items, depth, true) + s, ItemsText(items, d, false) + Minified(s), s)
    decreases items, 1
  {
    hide Text, Minified, Closed;
    if items.NoItem? {
      assert ItemsText(items, depth, true) + s == s;
      assert ItemsText(items, d, false) + Minified(s) == Minified(s);
    } else if items.next.NoItem? {
      MinifyValue(items.first, depth, d, s);
    } else {
      var more := ItemsText(items.next, depth, true) + s;
      ItemsSplit(items, depth, true, s);
      ItemsSplit(items, d, false, Minified(s));
      MinifyValue(items.first, depth, d, "," + (When(true, " ") + more));
      MinifyPlain(",", When(true, " ") + more);
      MinifyWhen(" ", more);
      MinifyItems(items.next, depth, d, s);
    }
  }

  lemma {:induction false} MinifyObject(members: Members, depth: nat, d: nat, s: string)
    ensures MinifiesTo(Text(Object(members), depth, true) + s, Text(Object(members), d, false) + Minified(s), s)
    decreases members, 2
  {
    hide Text, MembersText, Minified, Closed, Tabs;
    if members.NoMember? {
      var blanks := "\n" + Tabs(depth - 1);
      TabsWhite(depth - 1);
      EmptyObjectSplits(depth, true, s);
      EmptyObjectSplits(d, false, Minified(s));
      MinifyPlain("{", When(true, blanks) + ("}" + s));
      MinifyWhen(blanks, "}" + s);
      MinifyPlain("}", s);
    } else {
      var tail := When(true, Tabs(depth)) + ("}" + s);
      var body := MembersText(members, depth + 1, true) + tail;
      ObjectSplits(members, depth, true, s);
      ObjectSplits(members, d, false, Minified(s));
      MinifyPlain("{", When(true, "\n") + body);
      MinifyWhen("\n", body);
      MinifyMembers(members, depth + 1, d + 1, tail);
      TabsWhite(depth);
      MinifyWhen(Tabs(depth), "}" + s);
      MinifyPlain("}", s);
    }
  }

  lemma {:induction false} MinifyMembers(members: Members, depth: nat, d: nat, s: string)
    ensures MinifiesTo(MembersText(members, depth, true) + s, MembersText(members, d, false) + Minified(s), s)
    decreases members, 1
  {
    hide Text, MemberFront, AfterValue, Minified, Closed;
    if members.NoMember? {
      assert MembersText(members, depth, true) + s == s;
      assert MembersText(members, d, false) + Minified(s) == Minified(s);
    } else {
      var last := members.next.NoMember?;
      var more := MembersText(members.next, depth, true) + s;
      MembersSplit(members, depth, true, s);
      MembersSplit(members, d, false, Minified(s));
      MinifyMembers(members.next, depth, d, s);
      MinifyAfter(last, more);
      MinifyValue(members.value, depth, d, AfterValue(last, true, more));
      MinifyFront(members.name, Text(members.value, depth, true), Text(members.value, d, false), depth, d,
                  AfterValue(last, true, more));
    }
  }

  lemma MinifyAfter(last: bool, more: string)
    ensures MinifiesTo(AfterValue(last, true, more), AfterValue(last, false, Minified(more)), more)
  {
    hide Minified, Closed;
    MinifyPlain(if last then "" else ",", When(true, "\n") + more);
    MinifyWhen("\n", more);
  }

  lemma MinifyFront(name: string, text: string, plain: string, depth: nat, d: nat, tail: string)
    requires MinifiesTo(text + tail, plain + Minified(tail), tail)
    ensures MinifiesTo(MemberFront(name, text, depth, true, tail), MemberFront(name, plain, d, false, Minified(tail)), tail)
  {
    hide Quoted, Minified, Closed, Tabs;
    var body := When(true, "\t") + (text + tail);
    TabsWhite(depth);
    MinifyWhen(Tabs(depth), Quoted(name) + (":" + body));
    MinifyQuoted(name, ":" + body);
    MinifyPlain(":", body);
    MinifyWhen("\t", text + tail);
  }

  /** Minifying the formatted print of any tree gives exactly its unformatted print. */
  lemma MinifyPrint(v: Json)
    ensures Closed(Text(v, 0, true)) && Minified(Text(v, 0, true)) == Text(v, 0, false)
  {
    MinifyValue(v, 0, 0, "");
    assert Text(v, 0, true) + "" == Text(v, 0, true);
    assert Text(v, 0, false) + "" == Text(v, 0, false);
  }

  /** Minifying never lengthens a text. */
  lemma {:induction false} MinifiedNoLonger(s: string)
    ensures |Minified(s)| <= |s|
    decreases |s|
  {
    if At(s, 0) == NUL {
    } else if White(s[0]) {
      MinifiedNoLonger(s[1..]);
    } else if s[0] == '/' && At(s, 1) == '/' {
      MinifiedNoLonger(SkipLine(s[1..]));
    } else if s[0] == '/' && At(s, 1) == '*' {
      MinifiedNoLonger(Advance(SkipBlock(s[1..]), 2));
    } else if s[0] == '"' {
      if At(s, 1 + LiteralSpan(s[1..])) == '"' {
        MinifiedNoLonger(s[LiteralSpan(s[1..]) + 2..]);
      }
    } else {
      MinifiedNoLonger(s[1..]);
    }
  }
}
