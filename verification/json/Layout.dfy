/**
 The layout of a formatted print, from the unformatted one: a walk over its bytes that
 inserts line ends, tabs and blanks, and knows of the tree only which brackets are open.
 */
module Layout {
  import opened CString
  import opened Sequences
  import opened JsonValue
  import opened JsonString
  import opened JsonText
  import opened Numerals
  import Minify
  import MinifyBytes
  import TextFacts

  datatype Place = Outer | InString | AfterBackslash

  function Indent(n: int): string {
    seq(if n < 0 then 0 else n, _ => '\t')
  }

  function Pop(open: seq<bool>): seq<bool> {
    if open == [] then [] else open[..|open| - 1]
  }

  predicate InObject(open: seq<bool>) {
    open != [] && open[|open| - 1]
  }

  /**
   `open` has one entry for each bracket that is open, true for a brace. An object puts
   each member on a line of its own, behind as many tabs as brackets are open, a tab
   behind each colon, and its closing brace on a line with one tab less; an array puts a
   blank behind each comma. The braces of an empty object stand on two lines, the second
   one tab short. Strings are as they are.
   */
  function Spread(t: string, open: seq<bool>, p: Place): string
    decreases |t|
  {
    if t == "" then ""
    else
      var c, rest := t[0], t[1..];
      match p
      case InString =>
        [c] + Spread(rest, open, if c == '"' then Outer else if c == '\\' then AfterBackslash else InString)
      case AfterBackslash => [c] + Spread(rest, open, InString)
      case Outer =>
        if c == '"' then [c] + Spread(rest, open, InString)
        else if c == '[' then [c] + Spread(rest, open + [false], Outer)
        else if c == ']' then [c] + Spread(rest, Pop(open), Outer)
        else if c == '{' && At(t, 1) == '}' then "{\n" + Indent(|open| - 1) + "}" + Spread(t[2..], open, Outer)
        else if c == '{' then "{\n" + Indent(|open| + 1) + Spread(rest, open + [true], Outer)
        else if c == '}' then "\n" + Indent(|open| - 1) + "}" + Spread(rest, Pop(open), Outer)
        else if c == ',' && InObject(open) then ",\n" + Indent(|open|) + Spread(rest, open, Outer)
        else if c == ',' then ", " + Spread(rest, open, Outer)
        else if c == ':' then ":\t" + Spread(rest, open, Outer)
        else [c] + Spread(rest, open, Outer)
  }

  lemma {:induction false} IndentIs(n: int)
    ensures Indent(n) == Tabs(n)
  {
    if n > 0 {
      IndentIs(n - 1);
      assert Indent(n) == "\t" + Indent(n - 1);
    }
  }

  // ----- bytes that stay as they are -----

  predicate Bare(c: char) {
    c != '"' && c != '[' && c != ']' && c != '{' && c != '}' && c != ',' && c != ':'
  }

  lemma {:induction false} SpreadBare(word: string, rest: string, open: seq<bool>)
    requires forall i | 0 <= i < |word| :: Bare(word[i])
    ensures Spread(word + rest, open, Outer) == word + Spread(rest, open, Outer)
  {
    if word == "" {
      assert word + rest == rest;
    } else {
      var t := word + rest;
      assert t[0] == word[0] && t[1..] == word[1..] + rest;
      SpreadBare(word[1..], rest, open);
      assert word == [word[0]] + word[1..];
    }
  }

  lemma SpreadEscaped(c: char, rest: string, open: seq<bool>)
    ensures Spread(EscapeChar(c) + rest, open, InString) == EscapeChar(c) + Spread(rest, open, InString)
  {
    var e := EscapeChar(c);
    var t := e + rest;
    if |e| == 1 {
      assert t[1..] == rest;
    } else {
      assert t[1..] == e[1..] + rest && t[1..][1..] == e[2..] + rest;
      if |e| == 2 {
        assert t[1..][1..] == rest && e == [e[0]] + [e[1]];
      } else {
        InsideString(e[2..], rest, open);
        assert e == [e[0]] + [e[1]] + e[2..];
      }
    }
  }

  lemma {:induction false} InsideString(word: string, rest: string, open: seq<bool>)
    requires forall i | 0 <= i < |word| :: word[i] != '"' && word[i] != '\\'
    ensures Spread(word + rest, open, InString) == word + Spread(rest, open, InString)
  {
    if word == "" {
      assert word + rest == rest;
    } else {
      var t := word + rest;
      assert t[0] == word[0] && t[1..] == word[1..] + rest;
      InsideString(word[1..], rest, open);
      assert word == [word[0]] + word[1..];
    }
  }

  lemma {:induction false} SpreadEscape(s: string, rest: string, open: seq<bool>)
    ensures Spread(Escape(s) + rest, open, InString) == Escape(s) + Spread(rest, open, InString)
  {
    if s == "" {
      assert Escape(s) + rest == rest;
    } else {
      hide Spread, EscapeChar;
      SpreadEscape(s[1..], rest, open);
      EscapeSplit(s, rest);
      SpreadEscaped(s[0], Escape(s[1..]) + rest, open);
      Regroup(EscapeChar(s[0]), Escape(s[1..]), Spread(rest, open, InString));
    }
  }

  lemma SpreadQuote(t: string, open: seq<bool>)
    ensures Spread("\"" + t, open, Outer) == "\"" + Spread(t, open, InString)
    ensures Spread("\"" + t, open, InString) == "\"" + Spread(t, open, Outer)
  {
    assert ("\"" + t)[1..] == t;
  }

  lemma SpreadQuoted(s: string, rest: string, open: seq<bool>)
    ensures Spread(Quoted(s) + rest, open, Outer) == Quoted(s) + Spread(rest, open, Outer)
  {
    hide Spread, Escape;
    assert Quoted(s) + rest == "\"" + (Escape(s) + ("\"" + rest));
    SpreadQuote(Escape(s) + ("\"" + rest), open);
    SpreadEscape(s, "\"" + rest, open);
    SpreadQuote(rest, open);
    var r := Spread(rest, open, Outer);
    assert "\"" + (Escape(s) + ("\"" + r)) == Quoted(s) + r;
  }

  // ----- brackets and separators -----

  lemma SpreadSign(c: char, t: string, open: seq<bool>)
    ensures c == '[' ==> Spread([c] + t, open, Outer) == "[" + Spread(t, open + [false], Outer)
    ensures c == ']' ==> Spread([c] + t, open, Outer) == "]" + Spread(t, Pop(open), Outer)
    ensures c == '{' && At(t, 0) != '}' ==>
      Spread([c] + t, open, Outer) == "{\n" + Indent(|open| + 1) + Spread(t, open + [true], Outer)
    ensures c == '}' ==> Spread([c] + t, open, Outer) == "\n" + Indent(|open| - 1) + "}" + Spread(t, Pop(open), Outer)
    ensures c == ',' && InObject(open) ==> Spread([c] + t, open, Outer) == ",\n" + Indent(|open|) + Spread(t, open, Outer)
    ensures c == ',' && !InObject(open) ==> Spread([c] + t, open, Outer) == ", " + Spread(t, open, Outer)
    ensures c == ':' ==> Spread([c] + t, open, Outer) == ":\t" + Spread(t, open, Outer)
  {
    assert ([c] + t)[1..] == t;
  }

  lemma SpreadEmptyObject(t: string, open: seq<bool>)
    ensures Spread("{" + ("}" + t), open, Outer) == "{\n" + Indent(|open| - 1) + "}" + Spread(t, open, Outer)
  {
    hide Indent;
    var s := "{" + ("}" + t);
    assert s[0] == '{' && s[1] == '}' && At(s, 1) == '}';
    SecondDropped(t, s);
  }

  lemma SecondDropped(t: string, s: string)
    requires s == "{" + ("}" + t)
    ensures s[2..] == t
  {
  }

  // ----- trees -----

  lemma {:induction false} SpreadValue(v: Json, rest: string, open: seq<bool>)
    ensures Spread(Text(v, |open|, false) + rest, open, Outer) == Text(v, |open|, true) + Spread(rest, open, Outer)
    decreases v, 2
  {
    hide Spread, Quoted;
    match v
    case Null => SpreadBare("null", rest, open);
    case False => SpreadBare("false", rest, open);
    case True => SpreadBare("true", rest, open);
    case Number(x) =>
      IntTextShape(x.Floor);
      BareNumber(x.Floor);
      SpreadBare(IntText(x.Floor), rest, open);
    case String(s) => SpreadQuoted(s, rest, open);
    case Array(items) => SpreadArray(items, rest, open);
    case Object(members) => SpreadObject(members, rest, open);
  }

  lemma BareNumber(n: int)
    ensures forall i | 0 <= i < |IntText(n)| :: Bare(IntText(n)[i])
  {
    var t := IntText(n);
    forall i | 0 <= i < |t| ensures Bare(t[i]) {
      if n < 0 && i > 0 {
        assert t[i] == t[1..][i - 1];
      }
    }
  }

  lemma PushPop(open: seq<bool>, b: bool)
    ensures Pop(open + [b]) == open && InObject(open + [b]) == b
  {
  }

  lemma {:induction false} SpreadArray(items: Items, rest: string, open: seq<bool>)
    ensures Spread(Text(Array(items), |open|, false) + rest, open, Outer)
         == Text(Array(items), |open|, true) + Spread(rest, open, Outer)
    decreases items, 1
  {
    hide Spread, ItemsText, Text;
    var d, inner := |open|, open + [false];
    ArraySplits(items, d, false, rest);
    ArraySplits(items, d, true, Spread(rest, open, Outer));
    SpreadSign('[', ItemsText(items, d + 1, false) + ("]" + rest), open);
    PushPop(open, false);
    SpreadItems(items, rest, inner);
  }

  lemma {:induction false} SpreadItems(items: Items, rest: string, open: seq<bool>)
    requires open != [] && !InObject(open)
    ensures Spread(ItemsText(items, |open|, false) + ("]" + rest), open, Outer)
         == ItemsText(items, |open|, true) + ("]" + Spread(rest, Pop(open), Outer))
    decreases items, 0
  {
    hide Spread, Text;
    var d, end, end' := |open|, "]" + rest, "]" + Spread(rest, Pop(open), Outer);
    SpreadSign(']', rest, open);
    if items.NoItem? {
      EmptyEnds(end);
      EmptyEnds(end');
    } else if items.next.NoItem? {
      SpreadValue(items.first, end, open);
    } else {
      ItemsSplit(items, d, false, end);
      ItemsSplit(items, d, true, end');
      var more := ItemsText(items.next, d, false) + end;
      SpreadItems(items.next, rest, open);
      assert When(false, " ") + more == more;
      SpreadValue(items.first, "," + more, open);
      SpreadSign(',', more, open);
      assert ", " + Spread(more, open, Outer) == "," + (" " + Spread(more, open, Outer));
    }
  }

  lemma {:induction false} SpreadObject(members: Members, rest: string, open: seq<bool>)
    ensures Spread(Text(Object(members), |open|, false) + rest, open, Outer)
         == Text(Object(members), |open|, true) + Spread(rest, open, Outer)
    decreases members, 1
  {
    hide Spread, MembersText, Text, Tabs, Indent;
    var d := |open|;
    var r := Spread(rest, open, Outer);
    if members.NoMember? {
      EmptyObjectSplits(d, false, rest);
      EmptyObjectSplits(d, true, r);
      SpreadEmptyObject(rest, open);
      IndentIs(d - 1);
      assert When(false, "\n" + Tabs(d - 1)) + ("}" + rest) == "}" + rest;
      assert "{\n" + Tabs(d - 1) + "}" + r == "{" + ("\n" + Tabs(d - 1) + ("}" + r));
    } else {
      var inner := open + [true];
      var body := MembersText(members, d + 1, false) + ("}" + rest);
      ObjectSplits(members, d, false, rest);
      ObjectSplits(members, d, true, r);
      assert When(false, "\n") + (MembersText(members, d + 1, false) + (When(false, Tabs(d)) + ("}" + rest))) == body;
      MembersOpen(members, d + 1, "}" + rest);
      SpreadSign('{', body, open);
      PushPop(open, true);
      SpreadMembers(members, rest, inner);
      IndentIs(d + 1);
      var lines := MembersText(members, d + 1, true);
      assert "{\n" + Tabs(d + 1) + Spread(body, inner, Outer) == "{" + ("\n" + (Tabs(d + 1) + Spread(body, inner, Outer)));
    }
  }

  lemma MembersOpen(members: Members, depth: nat, end: string)
    requires members.Member?
    ensures At(MembersText(members, depth, false) + end, 0) == '"'
  {
    MembersSplit(members, depth, false, end);
  }

  /** The members behind their first indentation, up to the closing brace. */
  lemma {:induction false} SpreadMembers(members: Members, rest: string, open: seq<bool>)
    requires members.Member? && InObject(open)
    ensures Tabs(|open|) + Spread(MembersText(members, |open|, false) + ("}" + rest), open, Outer)
         == MembersText(members, |open|, true) + (Tabs(|open| - 1) + ("}" + Spread(rest, Pop(open), Outer)))
    decreases members, 0
  {
    hide Spread, MembersText, Text, Tabs, Indent, Quoted;
    var d, end := |open|, "}" + rest;
    var end' := Tabs(d - 1) + ("}" + Spread(rest, Pop(open), Outer));
    var last := members.next.NoMember?;
    var tail := AfterValue(last, false, MembersText(members.next, d, false) + end);
    MembersSplit(members, d, false, end);
    MembersSplit(members, d, true, end');
    SpreadPair(members.name, members.value, tail, open);
    SpreadTail(members, rest, open);
  }

  /** Name, colon and value of a member. */
  lemma {:induction false} SpreadPair(name: string, value: Json, tail: string, open: seq<bool>)
    ensures Tabs(|open|) + Spread(MemberFront(name, Text(value, |open|, false), |open|, false, tail), open, Outer)
         == MemberFront(name, Text(value, |open|, true), |open|, true, Spread(tail, open, Outer))
    decreases value, 3
  {
    hide Spread, Text, Tabs, Quoted;
    var d := |open|;
    var text := Text(value, d, false);
    assert MemberFront(name, text, d, false, tail) == Quoted(name) + (":" + (text + tail));
    SpreadQuoted(name, ":" + (text + tail), open);
    SpreadSign(':', text + tail, open);
    SpreadValue(value, tail, open);
    var r := Text(value, d, true) + Spread(tail, open, Outer);
    assert ":\t" + r == ":" + ("\t" + r);
  }

  /** What stands behind the value: a comma and the next member, or the closing brace. */
  lemma {:induction false} SpreadTail(members: Members, rest: string, open: seq<bool>)
    requires members.Member? && InObject(open)
    ensures var d, last := |open|, members.next.NoMember?;
      Spread(AfterValue(last, false, MembersText(members.next, d, false) + ("}" + rest)), open, Outer)
      == AfterValue(last, true, MembersText(members.next, d, true) + (Tabs(d - 1) + ("}" + Spread(rest, Pop(open), Outer))))
    decreases members, 0, 0
  {
    hide Spread, Text, Tabs, Indent, Quoted;
    var d, end := |open|, "}" + rest;
    var end' := Tabs(d - 1) + ("}" + Spread(rest, Pop(open), Outer));
    IndentIs(d - 1);
    IndentIs(d);
    SpreadSign('}', rest, open);
    if members.next.NoMember? {
      assert AfterValue(true, false, "" + end) == end;
      assert "\n" + Tabs(d - 1) + "}" + Spread(rest, Pop(open), Outer) == "" + ("\n" + ("" + end'));
    } else {
      hide MembersText;
      var more := MembersText(members.next, d, false) + end;
      assert AfterValue(false, false, more) == "," + more;
      SpreadSign(',', more, open);
      SpreadMembers(members.next, rest, open);
      assert ",\n" + Tabs(d) + Spread(more, open, Outer) == "," + ("\n" + (Tabs(d) + Spread(more, open, Outer)));
    }
  }

  /** The formatted print of a tree is the unformatted one, spread out. */
  lemma FormattedIsSpread(v: Json)
    ensures Text(v, 0, true) == Spread(Text(v, 0, false), [], Outer)
  {
    hide Text, Spread;
    SpreadValue(v, "", []);
    EmptyEnds(Text(v, 0, false));
    EmptyEnds(Text(v, 0, true));
    SpreadNothing();
  }

  lemma SpreadNothing()
    ensures Spread("", [], Outer) == ""
  {
  }

  /** And the unformatted print holds no space, tab, CR or LF outside of its strings. */
  lemma UnformattedIsTight(v: Json)
    requires Printable(v)
    ensures MinifyBytes.NoBlanks(Text(v, 0, false))
  {
    hide Text, Minify.Minified, Minify.Closed, MinifyBytes.NoBlanks;
    TextFacts.TextNulFree(v, 0, true);
    Minify.MinifyPrint(v);
    MinifyBytes.MinifiedHasNoBlanks(Text(v, 0, true));
  }
}
