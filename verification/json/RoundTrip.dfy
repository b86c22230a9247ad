/** Parsing a printed tree rebuilds the tree and consumes exactly its text. */
module RoundTrip {
  import opened CString
  import opened JsonValue
  import opened JsonString
  import opened JsonNumber
  import opened JsonText
  import opened JsonParse
  import opened Numerals

  lemma StringParses(s: string, rest: string)
    requires NulFree(s)
    ensures ParseString(Quoted(s) + rest) == Ok(s, rest)
  {
    assert (Quoted(s) + rest)[1..] == Escape(s) + ("\"" + rest);
    UnescapeEscape(s, "\"" + rest);
  }

  /** The first byte of a printed value: not blank, and not a closing bracket or brace. */
  lemma TextStarts(v: Json, depth: nat, fmt: bool, rest: string)
    ensures var c := At(Text(v, depth, fmt) + rest, 0);
      c != NUL && !Blank(c) && c != ']' && c != '}' && c != ','
  {
    if v.Number? && v.value.Floor >= 0 {
      assert Digit(Numeral(v.value.Floor)[0]);
    }
  }

  lemma SkipText(v: Json, depth: nat, fmt: bool, rest: string)
    ensures Skip(Text(v, depth, fmt) + rest) == Text(v, depth, fmt) + rest
  {
    TextStarts(v, depth, fmt, rest);
  }

  lemma KeywordParses(rest: string)
    ensures ParseValue("null" + rest) == Ok(Null, rest)
    ensures ParseValue("false" + rest) == Ok(False, rest)
    ensures ParseValue("true" + rest) == Ok(True, rest)
  {
    hide ParseItems, ParseMembers, ParseNumber, ParseString;
    StartsWithPrefix("null", rest);
    StartsWithPrefix("false", rest);
    StartsWithPrefix("true", rest);
    assert ("null" + rest)[4..] == rest && ("false" + rest)[5..] == rest && ("true" + rest)[4..] == rest;
    assert ("false" + rest)[0] == 'f' && ("true" + rest)[0] == 't';
    assert ("false" + rest)[..4][0] == 'f' && ("true" + rest)[..4][0] == 't' && ("true" + rest)[0] == 't';
  }

  lemma NumberTextParses(x: real, rest: string)
    requires Int32(x) && NumberEnds(rest)
    ensures ParseValue(IntText(x.Floor) + rest) == Ok(Number(x), rest)
  {
    hide ParseItems, ParseMembers, ParseText, StartsWith, ParseNumber;
    var s := IntText(x.Floor) + rest;
    IntegerParses(x.Floor, rest);
    assert s[0] == '-' || Digit(s[0]);
    NoKeyword(s);
  }

  lemma StringTextParses(t: string, rest: string)
    requires NulFree(t)
    ensures ParseValue(Quoted(t) + rest) == Ok(String(t), rest)
  {
    hide ParseItems, ParseMembers, ParseString, ParseNumeral, Escape, StartsWith;
    StringParses(t, rest);
    assert (Quoted(t) + rest)[0] == '"';
    NoKeyword(Quoted(t) + rest);
  }

  lemma ScalarParses(v: Json, depth: nat, fmt: bool, rest: string)
    requires Printable(v) && NumberEnds(rest) && !v.Array? && !v.Object?
    ensures ParseValue(Text(v, depth, fmt) + rest) == Ok(v, rest)
  {
    hide ParseValue, Quoted;
    match v
    case Null => KeywordParses(rest);
    case False => KeywordParses(rest);
    case True => KeywordParses(rest);
    case Number(x) => NumberTextParses(x, rest);
    case String(t) => StringTextParses(t, rest);
  }

  /** Every printable tree, at every depth, formatted or not, before any text that ends a number. */
  lemma {:induction false} ValueParses(v: Json, depth: nat, fmt: bool, rest: string)
    requires Printable(v) && NumberEnds(rest)
    ensures ParseValue(Text(v, depth, fmt) + rest) == Ok(v, rest)
    decreases v, 1
  {
    match v
    case Array(items) => ArrayParses(items, depth, fmt, rest);
    case Object(members) => ObjectParses(members, depth, fmt, rest);
    case _ => ScalarParses(v, depth, fmt, rest);
  }

  /** A text that opens a string, a number, an array or an object matches no keyword. */
  lemma NoKeyword(s: string)
    requires s != "" && s[0] !in "nft"
    ensures !StartsWith(s, "null") && !StartsWith(s, "false") && !StartsWith(s, "true")
  {
    assert |s| >= 4 ==> s[..4][0] == s[0];
    assert |s| >= 5 ==> s[..5][0] == s[0];
  }

  lemma {:induction false} ArrayParses(items: Items, depth: nat, fmt: bool, rest: string)
    requires PrintableItems(items)
    ensures ParseValue(Text(Array(items), depth, fmt) + rest) == Ok(Array(items), rest)
    decreases items, 2
  {
    hide ParseItems, ParseText, ParseNumeral, Skip, Text;
    var t := ItemsText(items, depth + 1, fmt) + ("]" + rest);
    ArraySplits(items, depth, fmt, rest);
    if items.Item? {
      ItemsParse(items, depth + 1, fmt, rest);
      ItemsStart(items, depth + 1, fmt, "]" + rest);
    }
    BracketParses(items, t, rest);
  }

  lemma BracketParses(items: Items, w: string, rest: string)
    requires items.NoItem? ==> w == "]" + rest
    requires items.Item? ==> ParseItems(w) == Ok(items, rest) && Skip(w) == w && At(w, 0) != ']'
    ensures ParseValue("[" + w) == Ok(Array(items), rest)
  {
    hide ParseItems, ParseText, ParseNumeral;
    assert ("[" + w)[1..] == w;
    NoKeyword("[" + w);
    if items.NoItem? {
      assert Skip(w) == w && w[1..] == rest;
    }
  }

  lemma ItemsStart(items: Items, depth: nat, fmt: bool, rest: string)
    requires items.Item?
    ensures var t := ItemsText(items, depth, fmt) + rest;
      Skip(t) == t && At(t, 0) != ']'
  {
    TextStarts(items.first, depth, fmt, "");
    assert Text(items.first, depth, fmt) + "" == Text(items.first, depth, fmt);
  }

  lemma {:induction false} ItemsParse(items: Items, depth: nat, fmt: bool, rest: string)
    requires PrintableItems(items) && items.Item?
    ensures ParseItems(ItemsText(items, depth, fmt) + ("]" + rest)) == Ok(items, rest)
    decreases items, 1
  {
    hide ParseValue, Text;
    if items.next.NoItem? {
      var tail := "]" + rest;
      SkipText(items.first, depth, fmt, tail);
      ValueParses(items.first, depth, fmt, tail);
      assert ItemsText(items, depth, fmt) == Text(items.first, depth, fmt);
      assert Skip(tail) == tail && tail[1..] == rest;
    } else {
      var more := ItemsText(items.next, depth, fmt) + ("]" + rest);
      var tail := "," + (When(fmt, " ") + more);
      ItemsSplit(items, depth, fmt, "]" + rest);
      SkipText(items.first, depth, fmt, tail);
      ValueParses(items.first, depth, fmt, tail);
      ItemsParse(items.next, depth, fmt, rest);
      ParseItemsSkips(fmt, more);
      CommaParses(items, Text(items.first, depth, fmt), When(fmt, " ") + more, rest);
    }
  }

  lemma CommaParses(items: Items, text: string, w: string, rest: string)
    requires items.Item?
    requires Skip(text + ("," + w)) == text + ("," + w)
    requires ParseValue(text + ("," + w)) == Ok(items.first, "," + w)
    requires ParseItems(w) == Ok(items.next, rest)
    ensures ParseItems(text + ("," + w)) == Ok(items, rest)
  {
    hide ParseValue;
    assert Skip("," + w) == "," + w && ("," + w)[1..] == w;
  }

  /** The blank that the formatted separator puts after its comma changes nothing. */
  lemma ParseItemsSkips(fmt: bool, more: string)
    ensures ParseItems(When(fmt, " ") + more) == ParseItems(more)
  {
    hide ParseValue;
    SkipBlanks(When(fmt, " "), more);
  }

  lemma {:induction false} ObjectParses(members: Members, depth: nat, fmt: bool, rest: string)
    requires PrintableMembers(members)
    ensures ParseValue(Text(Object(members), depth, fmt) + rest) == Ok(Object(members), rest)
    decreases members, 2
  {
    hide ParseName, ParseText, ParseNumeral;
    if members.NoMember? {
      EmptyObjectParses(depth, fmt, rest);
    } else {
      var end := When(fmt, Tabs(depth)) + ("}" + rest);
      var t := MembersText(members, depth + 1, fmt) + end;
      MembersStart(members, depth + 1, fmt, end);
      MembersParse(members, depth + 1, fmt, rest, depth);
      ObjectOpens(members, depth, fmt, rest, t);
    }
  }

  lemma BraceParses(members: Members, w: string, rest: string)
    requires ParseMembers(Skip(w)) == Ok(members, rest) && At(Skip(w), 0) == '"'
    ensures ParseValue("{" + w) == Ok(Object(members), rest)
  {
    hide ParseMembers, ParseText, ParseNumeral, Skip;
    assert ("{" + w)[1..] == w;
    NoKeyword("{" + w);
  }

  lemma ObjectOpens(members: Members, depth: nat, fmt: bool, rest: string, t: string)
    requires members.Member?
    requires t == MembersText(members, depth + 1, fmt) + (When(fmt, Tabs(depth)) + ("}" + rest))
    requires ParseMembers(t) == Ok(members, rest) && At(Skip(t), 0) == '"'
    ensures ParseValue(Text(Object(members), depth, fmt) + rest) == Ok(Object(members), rest)
  {
    hide ParseMembers, ParseValue, MembersText, Text, Tabs, Skip;
    ObjectSplits(members, depth, fmt, rest);
    assert forall i | 0 <= i < |When(fmt, "\n")| :: Blank(When(fmt, "\n")[i]);
    SkipBlanks(When(fmt, "\n"), t);
    ParseMembersSkips(t);
    BraceParses(members, When(fmt, "\n") + t, rest);
  }

  lemma EmptyObjectParses(depth: nat, fmt: bool, rest: string)
    ensures ParseValue(Text(Object(NoMember), depth, fmt) + rest) == Ok(Object(NoMember), rest)
  {
    hide ParseMembers, ParseText, ParseNumeral;
    var s := Text(Object(NoMember), depth, fmt) + rest;
    var blanks := When(fmt, "\n" + Tabs(depth - 1));
    assert s[0] == '{' && s[1..] == blanks + ("}" + rest);
    TabsBlank(depth - 1);
    SkipBlanks(blanks, "}" + rest);
    assert ("}" + rest)[1..] == rest;
  }

  lemma {:induction false} TabsBlank(n: int)
    ensures forall i | 0 <= i < |Tabs(n)| :: Blank(Tabs(n)[i])
  {
    if n > 0 {
      TabsBlank(n - 1);
    }
  }

  lemma MembersStart(members: Members, depth: nat, fmt: bool, rest: string)
    requires members.Member?
    ensures At(Skip(MembersText(members, depth, fmt) + rest), 0) == '"'
  {
    var t := MembersText(members, depth, fmt) + rest;
    var tabs := When(fmt, Tabs(depth));
    TabsBlank(depth);
    assert |tabs| < |t| && t[..|tabs|] == tabs && t[|tabs|] == '"';
    SkipBlanks(tabs, t[|tabs|..]);
    assert tabs + t[|tabs|..] == t;
  }

  lemma ParseMembersSkips(t: string)
    ensures ParseMembers(Skip(t)) == ParseMembers(t)
  {
    assert Skip(Skip(t)) == Skip(t);
    assert ParseName(Skip(t)) == ParseName(t);
  }

  /** The name of a printed member, whatever indents it. */
  lemma NameParses(blanks: string, name: string, body: string)
    requires NulFree(name) && forall i | 0 <= i < |blanks| :: Blank(blanks[i])
    ensures ParseName(blanks + (Quoted(name) + (":" + body))) == Ok(name, body)
  {
    var t := Quoted(name) + (":" + body);
    SkipBlanks(blanks, t);
    assert t[0] == '"';
    StringParses(name, ":" + body);
    assert (":" + body)[1..] == body;
  }

  /** A printed value behind the colon, up to the byte that follows its line. */
  lemma BodyParses(v: Json, depth: nat, fmt: bool, tail: string)
    requires Printable(v) && NumberEnds(tail)
    requires ParseValue(Text(v, depth, fmt) + tail) == Ok(v, tail)
    ensures ParseValue(Skip(When(fmt, "\t") + (Text(v, depth, fmt) + tail))) == Ok(v, tail)
  {
    SkipBlanks(When(fmt, "\t"), Text(v, depth, fmt) + tail);
    SkipText(v, depth, fmt, tail);
  }

  lemma {:induction false} MembersParse(members: Members, depth: nat, fmt: bool, rest: string, close: nat)
    requires PrintableMembers(members) && members.Member?
    ensures ParseMembers(MembersText(members, depth, fmt) + (When(fmt, Tabs(close)) + ("}" + rest))) == Ok(members, rest)
    decreases members, 1
  {
    var last := members.next.NoMember?;
    var end := When(fmt, Tabs(close)) + ("}" + rest);
    var more := MembersText(members.next, depth, fmt) + end;
    var tail := AfterValue(last, fmt, more);
    TailEndsNumber(last, fmt, more, close, rest);
    ValueParses(members.value, depth, fmt, tail);
    MembersSplit(members, depth, fmt, end);
    if last {
      assert more == end;
      ClosingSkips(fmt, close, rest);
      LastMemberParses(members, depth, fmt, tail, rest);
    } else {
      MembersParse(members.next, depth, fmt, rest, close);
      MoreMembersParse(members, depth, fmt, more, rest);
    }
  }

  lemma LastMemberParses(members: Members, depth: nat, fmt: bool, tail: string, rest: string)
    requires members.Member? && members.next.NoMember?
    requires NulFree(members.name) && Printable(members.value) && NumberEnds(tail)
    requires ParseValue(Text(members.value, depth, fmt) + tail) == Ok(members.value, tail)
    requires Skip(tail) == "}" + rest
    ensures ParseMembers(MemberFront(members.name, Text(members.value, depth, fmt), depth, fmt, tail)) == Ok(members, rest)
  {
    hide ParseName, Text, Quoted;
    TabsBlank(depth);
    NameParses(When(fmt, Tabs(depth)), members.name, When(fmt, "\t") + (Text(members.value, depth, fmt) + tail));
    BodyParses(members.value, depth, fmt, tail);
    assert ("}" + rest)[1..] == rest;
  }

  lemma MoreMembersParse(members: Members, depth: nat, fmt: bool, more: string, rest: string)
    requires members.Member?
    requires NulFree(members.name) && Printable(members.value)
    requires var tail := AfterValue(false, fmt, more);
      NumberEnds(tail) && ParseValue(Text(members.value, depth, fmt) + tail) == Ok(members.value, tail)
    requires ParseMembers(more) == Ok(members.next, rest)
    ensures ParseMembers(MemberFront(members.name, Text(members.value, depth, fmt), depth, fmt, AfterValue(false, fmt, more)))
         == Ok(members, rest)
  {
    hide ParseName, Text, Quoted;
    var tail := AfterValue(false, fmt, more);
    TabsBlank(depth);
    NameParses(When(fmt, Tabs(depth)), members.name, When(fmt, "\t") + (Text(members.value, depth, fmt) + tail));
    BodyParses(members.value, depth, fmt, tail);
    assert tail[0] == ',' && Skip(tail) == tail && tail[1..] == When(fmt, "\n") + more;
    SkipBlanks(When(fmt, "\n"), more);
    ParseMembersSkips(tail[1..]);
    ParseMembersSkips(more);
  }

  lemma TailEndsNumber(last: bool, fmt: bool, more: string, close: nat, rest: string)
    requires last ==> more == When(fmt, Tabs(close)) + ("}" + rest)
    ensures NumberEnds(AfterValue(last, fmt, more))
  {
  }

  lemma ClosingSkips(fmt: bool, close: nat, rest: string)
    ensures Skip(AfterValue(true, fmt, When(fmt, Tabs(close)) + ("}" + rest))) == "}" + rest
  {
    hide Tabs;
    TabsBlank(close);
    var blanks := When(fmt, "\n") + When(fmt, Tabs(close));
    assert AfterValue(true, fmt, When(fmt, Tabs(close)) + ("}" + rest)) == blanks + ("}" + rest);
    SkipBlanks(blanks, "}" + rest);
  }

  /**
   The round trip: the formatted and the unformatted print of a tree parse back
   to it, consume the whole text, and satisfy the end-of-text check.
   */
  lemma PrintThenParse(v: Json, fmt: bool, requireEnd: bool)
    requires Printable(v)
    ensures Parse(Text(v, 0, fmt), requireEnd) == Ok(v, "")
  {
    var s := Text(v, 0, fmt);
    assert s + "" == s;
    SkipText(v, 0, fmt, "");
    ValueParses(v, 0, fmt, "");
  }
}
