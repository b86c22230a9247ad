/**
 The language of the parser as a grammar: trees of tokens and the blanks between them,
 what they spell and what they mean. The parser accepts a text exactly when it starts
 with the spelling of such a tree, and then finds its meaning.
 */
module Grammar {
  import opened CString
  import opened Sequences
  import opened JsonValue
  import opened JsonString
  import opened JsonNumber
  import opened JsonParse
  import opened Minify
  import M = MinifyMeaning

  /** A body is what stands between the quotes; `OpenString` has none behind it. */
  datatype Node =
    | NullWord | FalseWord | TrueWord
    | NumberToken(text: string)
    | StringToken(body: string)
    | OpenString(body: string)
    | EmptyArray(blanks: string)
    | FullArray(items: ItemNodes)
    | EmptyObject(blanks: string)
    | FullObject(members: MemberNodes)

  datatype ItemNodes =
    | LastItem(before: string, value: Node, after: string)
    | MoreItems(before: string, value: Node, after: string, next: ItemNodes)

  datatype MemberNodes =
    | LastMember(before: string, name: string, colon: string, gap: string, value: Node, after: string)
    | MoreMembers(before: string, name: string, colon: string, gap: string, value: Node, after: string, next: MemberNodes)

  // ----- spelling and meaning -----

  function Spell(d: Node): string {
    match d
    case NullWord => "null"
    case FalseWord => "false"
    case TrueWord => "true"
    case NumberToken(text) => text
    case StringToken(body) => "\"" + body + "\""
    case OpenString(body) => "\"" + body
    case EmptyArray(blanks) => "[" + blanks + "]"
    case FullArray(items) => "[" + SpellItems(items) + "]"
    case EmptyObject(blanks) => "{" + blanks + "}"
    case FullObject(members) => "{" + SpellMembers(members) + "}"
  }

  function SpellItems(items: ItemNodes): string {
    items.before + Spell(items.value) + items.after + if items.LastItem? then "" else "," + SpellItems(items.next)
  }

  function SpellMembers(members: MemberNodes): string {
    members.before + "\"" + members.name + "\"" + members.colon + ":" + members.gap + Spell(members.value) + members.after
    + if members.LastMember? then "" else "," + SpellMembers(members.next)
  }

  function Mean(d: Node): Json {
    match d
    case NullWord => Null
    case FalseWord => False
    case TrueWord => True
    case NumberToken(text) => Number(ParseNumber(text).value)
    case StringToken(body) => String(Unescape(body + "\"").text)
    case OpenString(body) => String(Unescape(body).text)
    case EmptyArray(_) => Array(NoItem)
    case FullArray(items) => Array(MeanItems(items))
    case EmptyObject(_) => Object(NoMember)
    case FullObject(members) => Object(MeanMembers(members))
  }

  function MeanItems(items: ItemNodes): Items {
    Item(Mean(items.value), if items.LastItem? then NoItem else MeanItems(items.next))
  }

  function MeanMembers(members: MemberNodes): Members {
    Member(Unescape(members.name + "\"").text, Mean(members.value),
           if members.LastMember? then NoMember else MeanMembers(members.next))
  }

  /** White space, as the library understands it: every byte from 1 to 32. */
  predicate Blanks(b: string) {
    forall i | 0 <= i < |b| :: 1 <= b[i] as int <= 32
  }

  /** No quote but behind a backslash, and escapes that the two passes take alike. */
  predicate Body(b: string) {
    LiteralOk(b + "\"") && LiteralSpan(b + "\"") == |b|
  }

  predicate Good(d: Node) {
    match d
    case NullWord | FalseWord | TrueWord => true
    case NumberToken(text) => text != "" && (text[0] == '-' || '0' <= text[0] <= '9') && ParseNumber(text).rest == ""
    case StringToken(body) => Body(body)
    case OpenString(body) => LiteralOk(body) && LiteralSpan(body) == |body|
    case EmptyArray(blanks) => Blanks(blanks)
    case FullArray(items) => GoodItems(items)
    case EmptyObject(blanks) => Blanks(blanks)
    case FullObject(members) => GoodMembers(members)
  }

  predicate GoodItems(items: ItemNodes) {
    && Blanks(items.before) && Good(items.value) && !items.value.OpenString? && Blanks(items.after)
    && (items.MoreItems? ==> GoodItems(items.next))
  }

  predicate GoodMembers(members: MemberNodes) {
    && Blanks(members.before) && Body(members.name) && Blanks(members.colon) && Blanks(members.gap)
    && Good(members.value) && !members.value.OpenString? && Blanks(members.after)
    && (members.MoreMembers? ==> GoodMembers(members.next))
  }

  /** What may follow: nothing that continues a number, and nothing at all behind an open string. */
  predicate Ends(d: Node, rest: string) {
    match d
    case NumberToken(text) => !M.Continues(text, rest)
    case OpenString(_) => rest == ""
    case _ => true
  }

  // ----- blanks -----

  lemma SkipOver(b: string, t: string)
    requires Blanks(b)
    ensures Skip(b + t) == Skip(t)
  {
    SkipBlanks(b, t);
  }

  lemma SkipFront(t: string)
    requires !Blank(At(t, 0))
    ensures Skip(t) == t
  {
  }

  lemma {:induction false} SkipSplits(s: string) returns (b: string)
    requires NulFree(s)
    ensures Blanks(b) && s == b + Skip(s) && NulFree(Skip(s))
  {
    if s != "" && Blank(s[0]) {
      b := SkipSplits(s[1..]);
      b := [s[0]] + b;
      assert s == [s[0]] + s[1..];
    } else {
      b := "";
    }
  }

  lemma NulFreeParts(a: string, b: string)
    ensures NulFree(a + b) <==> NulFree(a) && NulFree(b)
  {
    if NulFree(a + b) {
      forall i | 0 <= i < |a| ensures a[i] != NUL { assert (a + b)[i] == a[i]; }
      forall i | 0 <= i < |b| ensures b[i] != NUL { assert (a + b)[|a| + i] == b[i]; }
    }
  }

  // ----- tokens -----

  /** A quote and a body are read as a string up to the closing quote. */
  lemma BodyReads(b: string, y: string)
    requires Body(b)
    ensures ParseString("\"" + b + "\"" + y) == Ok(Unescape(b + "\"").text, y)
  {
    hide Unescape, LiteralOk, LiteralSpan, ParseString;
    var t := b + "\"";
    M.LiteralLocal(t, y);
    var s := "\"" + b + "\"" + y;
    assert t[..|b| + 1] == t;
    assert s[1..] == t + y;
    M.QuotedReads(s, Unescape(t).text, y);
  }

  lemma SpanCut(t: string)
    requires At(t, LiteralSpan(t)) == '"'
    ensures var b := t[..LiteralSpan(t)]; b + "\"" == t[..LiteralSpan(t) + 1] && LiteralSpan(b + "\"") == |b|
    decreases |t|
  {
    var n := LiteralSpan(t);
    assert t[..n] + "\"" == t[..n + 1];
    if t[0] == '"' {
    } else if t[0] != '\\' {
      SpanCut(t[1..]);
      assert t[..n + 1][1..] == t[1..][..n];
    } else if |t| >= 2 {
      SpanCut(t[2..]);
      assert t[..n + 1][2..] == t[2..][..n - 1] && t[..n + 1][1] == t[1];
    }
  }

  /** What a literal that is read was: a body and its closing quote, or an open string. */
  lemma StringSplits(s: string)
    requires NulFree(s) && ParseString(s).Ok?
    ensures var t := s[1..]; var n := LiteralSpan(t); var r := ParseString(s);
      && s[0] == '"' && n <= |t|
      && (if n < |t| then t[n] == '"' && Body(t[..n]) && s == "\"" + t[..n] + "\"" + r.rest && r.value == Unescape(t[..n] + "\"").text
          else LiteralOk(t) && r.rest == "" && r.value == Unescape(t).text && s == "\"" + t)
  {
    hide Unescape, LiteralOk, LiteralSpan, ParseString;
    M.StringFront(s);
    var t := s[1..];
    var n := LiteralSpan(t);
    assert s == "\"" + t;
    SpanEnds(t);
    if n < |t| {
      M.LiteralLocal(t, "");
      SpanCut(t);
      EmptyEnds(t[..n + 1]);
      M.StringEnds(s);
      BodyReads(t[..n], s[n + 2..]);
      assert s == "\"" + t[..n] + "\"" + s[n + 2..];
    } else {
      OpenReads(s);
    }
  }

  lemma OpenReads(s: string)
    requires NulFree(s) && At(s, 0) == '"' && LiteralOk(s[1..]) && LiteralSpan(s[1..]) == |s| - 1
    ensures ParseString(s) == Ok(Unescape(s[1..]).text, "")
  {
    hide Unescape, LiteralOk;
    PassesAgree(s[1..]);
    OpenScan(s[1..]);
  }

  lemma OpenScan(t: string)
    requires NulFree(t) && LiteralSpan(t) == |t|
    ensures ScanEnd(t) == ""
    decreases |t|
  {
    if t != "" {
      if t[0] != '\\' {
        OpenScan(t[1..]);
      } else if |t| >= 2 {
        OpenScan(t[2..]);
      }
    }
  }

  lemma SpanEnds(t: string)
    requires NulFree(t)
    ensures LiteralSpan(t) <= |t| && (LiteralSpan(t) < |t| ==> t[LiteralSpan(t)] == '"')
    decreases |t|
  {
    if t != "" && t[0] != '"' {
      if t[0] != '\\' {
        SpanEnds(t[1..]);
      } else if |t| >= 2 {
        SpanEnds(t[2..]);
      }
    }
  }

  /** A number in front of a blank, a comma or a closing bracket goes no further. */
  lemma NotContinued(text: string, y: string)
    requires var c := At(y, 0); (1 <= c as int <= 32) || c == ',' || c == ']' || c == '}'
    ensures !M.Continues(text, y)
  {
    hide ParseNumber, WholePart, Fraction;
  }

  lemma EndsInside(d: Node, y: string)
    requires !d.OpenString?
    requires var c := At(y, 0); (1 <= c as int <= 32) || c == ',' || c == ']' || c == '}'
    ensures Ends(d, y)
  {
    hide M.Continues;
    if d.NumberToken? {
      NotContinued(d.text, y);
    }
  }

  lemma AfterBlanks(b: string, y: string)
    requires Blanks(b) && (At(y, 0) == ',' || At(y, 0) == ']' || At(y, 0) == '}')
    ensures var c := At(b + y, 0); (1 <= c as int <= 32) || c == ',' || c == ']' || c == '}'
    ensures Skip(b + y) == y
  {
    SkipOver(b, y);
    SkipFront(y);
    if b != "" {
      assert (b + y)[0] == b[0];
    }
  }

  // ----- every spelling is read to its meaning -----

  /** How the spelling of a list of items starts, in front of `end`. */
  function ItemsEnd(items: ItemNodes, end: string): string {
    if items.LastItem? then end else "," + (SpellItems(items.next) + end)
  }

  lemma ItemsOpen(items: ItemNodes, end: string)
    ensures SpellItems(items) + end == items.before + (Spell(items.value) + (items.after + ItemsEnd(items, end)))
  {
    hide Spell;
  }

  function MembersEnd(members: MemberNodes, end: string): string {
    if members.LastMember? then end else "," + (SpellMembers(members.next) + end)
  }

  lemma MembersOpen(members: MemberNodes, end: string)
    ensures SpellMembers(members) + end ==
      members.before + ("\"" + members.name + "\"" + (members.colon + (":" + (members.gap +
        (Spell(members.value) + (members.after + MembersEnd(members, end)))))))
  {
    hide Spell;
    var more := if members.LastMember? then "" else "," + SpellMembers(members.next);
    assert more + end == MembersEnd(members, end);
    MemberRegroups(members.before, "\"" + members.name + "\"", members.colon, members.gap, Spell(members.value), members.after, more, end);
    Quotes(members.before, members.name);
  }

  lemma Quotes(before: string, name: string)
    ensures before + "\"" + name + "\"" == before + ("\"" + name + "\"")
  {
  }

  lemma MemberRegroups(b: string, n: string, c: string, g: string, v: string, f: string, more: string, end: string)
    ensures b + n + c + ":" + g + v + f + more + end == b + (n + (c + (":" + (g + (v + (f + (more + end)))))))
  {
    Regroup(b + n + c + ":" + g + v + f, more, end);
    Regroup(b + n + c + ":" + g + v, f, more + end);
    Regroup(b + n + c + ":" + g, v, f + (more + end));
    Regroup(b + n + c + ":", g, v + (f + (more + end)));
    Regroup(b + n + c, ":", g + (v + (f + (more + end))));
    Regroup(b + n, c, ":" + (g + (v + (f + (more + end)))));
    Regroup(b, n, c + (":" + (g + (v + (f + (more + end))))));
  }

  /** The first byte of a spelling is none that a reader of lists looks for. */
  lemma SpellFront(d: Node, y: string)
    requires Good(d)
    ensures var c := At(Spell(d) + y, 0); !Blank(c) && c != NUL && c != ']' && c != '}' && c != ','
  {
    hide SpellItems, SpellMembers, GoodItems, GoodMembers, ParseNumber, LiteralOk, LiteralSpan;
  }

  lemma WordReads(y: string)
    ensures ParseValue("null" + y) == Ok(Null, y) && ParseValue("false" + y) == Ok(False, y) && ParseValue("true" + y) == Ok(True, y)
  {
    hide ParseItems, ParseMembers, ParseNumber, ParseString;
    StartsWithPrefix("null", y);
    StartsWithPrefix("false", y);
    StartsWithPrefix("true", y);
    assert ("null" + y)[4..] == y && ("false" + y)[5..] == y && ("true" + y)[4..] == y;
    M.OneWord("false" + y);
    M.OneWord("true" + y);
  }

  lemma NumberReads(text: string, y: string)
    requires Good(NumberToken(text)) && Ends(NumberToken(text), y)
    ensures ParseValue(text + y) == Ok(Number(ParseNumber(text).value), y)
  {
    hide ParseNumber, ParseValue, M.Continues;
    M.NumberBefore(text, y);
    assert (text + y)[0] == text[0];
    M.NumeralIsNumber(text + y);
  }

  lemma StringReads(b: string, y: string)
    requires Body(b)
    ensures ParseValue("\"" + b + "\"" + y) == Ok(String(Unescape(b + "\"").text), y)
  {
    hide ParseString, ParseValue, Unescape;
    BodyReads(b, y);
    M.QuoteIsText("\"" + b + "\"" + y);
  }

  lemma OpenStringReads(b: string)
    requires Good(OpenString(b)) && NulFree(b)
    ensures ParseValue("\"" + b) == Ok(String(Unescape(b).text), "")
  {
    hide ParseString, ParseValue, Unescape, LiteralOk, LiteralSpan;
    assert ("\"" + b)[1..] == b;
    NulFreeParts("\"", b);
    OpenReads("\"" + b);
    M.QuoteIsText("\"" + b);
  }

  /** A text that starts with the spelling of a good tree is read to its meaning, and the
      rest is left. */
  lemma {:induction false} Complete(d: Node, y: string)
    requires Good(d) && Ends(d, y) && (d.OpenString? ==> NulFree(d.body))
    ensures ParseValue(Spell(d) + y) == Ok(Mean(d), y)
    decreases d, 1
  {
    hide ParseValue, ParseNumber, LiteralOk, LiteralSpan, Unescape, M.Continues;
    match d
    case NullWord => WordReads(y);
    case FalseWord => WordReads(y);
    case TrueWord => WordReads(y);
    case NumberToken(text) => NumberReads(text, y);
    case StringToken(body) => StringReads(body, y);
    case OpenString(body) =>
      OpenStringReads(body);
      EmptyEnds("\"" + body);
    case EmptyArray(b) => EmptyArrayReads(b, y);
    case EmptyObject(b) => EmptyObjectReads(b, y);
    case FullArray(items) =>
      CompleteItems(items, y);
      ArrayReads(items, y);
    case FullObject(members) =>
      CompleteMembers(members, y);
      ObjectReads(members, y);
  }

  lemma EmptyArrayReads(b: string, y: string)
    requires Blanks(b)
    ensures ParseValue("[" + b + "]" + y) == Ok(Array(NoItem), y)
  {
    hide ParseValue, ParseItems;
    var s := "[" + b + "]" + y;
    assert s[1..] == b + ("]" + y) && ("]" + y)[1..] == y;
    AfterBlanks(b, "]" + y);
    M.ArrayOpens(s);
  }

  lemma EmptyObjectReads(b: string, y: string)
    requires Blanks(b)
    ensures ParseValue("{" + b + "}" + y) == Ok(Object(NoMember), y)
  {
    hide ParseValue, ParseMembers;
    var s := "{" + b + "}" + y;
    assert s[1..] == b + ("}" + y) && ("}" + y)[1..] == y;
    AfterBlanks(b, "}" + y);
    M.ObjectOpens(s);
  }

  /** Leading blanks make no difference to what is read. */
  lemma ItemsSkip(s: string)
    ensures ParseItems(Skip(s)) == ParseItems(s)
  {
    hide ParseValue, ParseItems;
    SkipFront(Skip(s));
    M.ItemsUnfold(s);
    M.ItemsUnfold(Skip(s));
    ItemsBySkip(s, Skip(s));
  }

  lemma ItemsBySkip(s: string, t: string)
    requires Skip(s) == Skip(t)
    ensures ParseItems(s) == ParseItems(t)
  {
    hide ParseValue;
  }

  lemma MembersSkip(s: string)
    ensures ParseMembers(Skip(s)) == ParseMembers(s)
  {
    hide ParseValue, ParseString;
    SkipFront(Skip(s));
  }

  lemma ArrayReads(items: ItemNodes, y: string)
    requires GoodItems(items) && ParseItems(SpellItems(items) + ("]" + y)) == Ok(MeanItems(items), y)
    ensures ParseValue("[" + SpellItems(items) + "]" + y) == Ok(Array(MeanItems(items)), y)
  {
    hide ParseValue, ParseItems, SpellItems, MeanItems, Spell, Skip;
    var s, body := "[" + SpellItems(items) + "]" + y, SpellItems(items) + ("]" + y);
    assert s[1..] == body;
    M.ArrayOpens(s);
    ItemsOpen(items, "]" + y);
    var t := Spell(items.value) + (items.after + ItemsEnd(items, "]" + y));
    SpellFront(items.value, items.after + ItemsEnd(items, "]" + y));
    SkipOver(items.before, t);
    SkipFront(t);
    ItemsSkip(body);
  }

  lemma {:induction false} CompleteItems(items: ItemNodes, y: string)
    requires GoodItems(items)
    ensures ParseItems(SpellItems(items) + ("]" + y)) == Ok(MeanItems(items), y)
    decreases items, 0
  {
    hide ParseValue, ParseItems, SpellItems, Spell, Skip, Good, Ends, Mean;
    var v, end := items.value, ItemsEnd(items, "]" + y);
    var s := SpellItems(items) + ("]" + y);
    ItemsOpen(items, "]" + y);
    SpellFront(v, items.after + end);
    SkipOver(items.before, Spell(v) + (items.after + end));
    SkipFront(Spell(v) + (items.after + end));
    AfterBlanks(items.after, end);
    EndsInside(v, items.after + end);
    Complete(v, items.after + end);
    M.ItemsUnfold(s);
    if items.MoreItems? {
      CompleteItems(items.next, y);
      assert end[1..] == SpellItems(items.next) + ("]" + y);
    } else {
      assert end[1..] == y;
    }
  }

  lemma ObjectReads(members: MemberNodes, y: string)
    requires GoodMembers(members) && ParseMembers(SpellMembers(members) + ("}" + y)) == Ok(MeanMembers(members), y)
    ensures ParseValue("{" + SpellMembers(members) + "}" + y) == Ok(Object(MeanMembers(members)), y)
  {
    hide ParseValue, ParseMembers, SpellMembers, MeanMembers, Spell, Skip;
    var s, body := "{" + SpellMembers(members) + "}" + y, SpellMembers(members) + ("}" + y);
    assert s[1..] == body;
    M.ObjectOpens(s);
    MembersOpen(members, "}" + y);
    var t := "\"" + members.name + "\"" + (members.colon + (":" + (members.gap +
        (Spell(members.value) + (members.after + MembersEnd(members, "}" + y))))));
    assert t[0] == '"';
    SkipOver(members.before, t);
    SkipFront(t);
    MembersSkip(body);
  }

  lemma NameReads(before: string, name: string, colon: string, y: string)
    requires Blanks(before) && Body(name) && Blanks(colon)
    ensures ParseName(before + ("\"" + name + "\"" + (colon + (":" + y)))) == Ok(Unescape(name + "\"").text, y)
  {
    hide ParseString, Unescape, Skip;
    var t := "\"" + name + "\"" + (colon + (":" + y));
    assert t[0] == '"';
    SkipOver(before, t);
    SkipFront(t);
    BodyReads(name, colon + (":" + y));
    SkipOver(colon, ":" + y);
    SkipFront(":" + y);
    assert (":" + y)[1..] == y;
  }

  lemma {:induction false} CompleteMembers(members: MemberNodes, y: string)
    requires GoodMembers(members)
    ensures ParseMembers(SpellMembers(members) + ("}" + y)) == Ok(MeanMembers(members), y)
    decreases members, 0
  {
    hide ParseValue, ParseMembers, ParseName, SpellMembers, Spell, Skip, Good, Ends, Mean, Unescape, Body;
    var v, end := members.value, MembersEnd(members, "}" + y);
    var s := SpellMembers(members) + ("}" + y);
    var text := Spell(v) + (members.after + end);
    MembersOpen(members, "}" + y);
    NameReads(members.before, members.name, members.colon, members.gap + text);
    SpellFront(v, members.after + end);
    SkipOver(members.gap, text);
    SkipFront(text);
    AfterBlanks(members.after, end);
    EndsInside(v, members.after + end);
    Complete(v, members.after + end);
    M.MembersUnfold(s);
    if members.MoreMembers? {
      CompleteMembers(members.next, y);
      assert end[1..] == SpellMembers(members.next) + ("}" + y);
    } else {
      assert end[1..] == y;
    }
  }

  // ----- all that is read is a spelling -----

  /** What is read is the spelling of a good tree with that meaning, and the rest. */
  lemma {:induction false} Sound(s: string) returns (d: Node)
    requires NulFree(s) && ParseValue(s).Ok?
    ensures var r := ParseValue(s);
      Good(d) && s == Spell(d) + r.rest && Mean(d) == r.value && Ends(d, r.rest)
    decreases |s|, 1
  {
    hide ParseValue, ParseNumber, LiteralOk, LiteralSpan, Unescape, M.Continues, ParseItems, ParseMembers, ParseString;
    M.ValueFront(s);
    if StartsWith(s, "null") || StartsWith(s, "false") || StartsWith(s, "true") {
      d := SoundWord(s);
    } else if s[0] == '"' {
      d := SoundString(s);
    } else if s[0] == '-' || Digit(s[0]) {
      d := SoundNumber(s);
    } else if s[0] == '[' {
      d := SoundArray(s);
    } else {
      BraceFront(s);
      d := SoundObject(s);
    }
  }

  lemma BraceFront(s: string)
    requires ParseValue(s).Ok? && !(StartsWith(s, "null") || StartsWith(s, "false") || StartsWith(s, "true"))
    requires At(s, 0) != '"' && At(s, 0) != '-' && !Digit(At(s, 0)) && At(s, 0) != '['
    ensures At(s, 0) == '{'
  {
    hide ParseItems, ParseMembers, ParseText, ParseNumeral, StartsWith;
  }

  lemma SoundWord(s: string) returns (d: Node)
    requires StartsWith(s, "null") || StartsWith(s, "false") || StartsWith(s, "true")
    ensures var r := ParseValue(s);
      r.Ok? && Good(d) && s == Spell(d) + r.rest && Mean(d) == r.value && Ends(d, r.rest)
  {
    hide ParseValue, Good, Ends, Mean;
    if StartsWith(s, "null") {
      d := NullWord;
      assert s == "null" + s[4..];
      WordReads(s[4..]);
    } else if StartsWith(s, "false") {
      d := FalseWord;
      assert s == "false" + s[5..];
      WordReads(s[5..]);
    } else {
      d := TrueWord;
      assert s == "true" + s[4..];
      WordReads(s[4..]);
    }
    WordsMean();
  }

  lemma WordsMean()
    ensures Mean(NullWord) == Null && Mean(FalseWord) == False && Mean(TrueWord) == True
    ensures Good(NullWord) && Good(FalseWord) && Good(TrueWord)
    ensures forall y: string :: Ends(NullWord, y) && Ends(FalseWord, y) && Ends(TrueWord, y)
  {
  }

  lemma SoundNumber(s: string) returns (d: Node)
    requires At(s, 0) == '-' || Digit(At(s, 0))
    ensures var r := ParseValue(s);
      r.Ok? && Good(d) && s == Spell(d) + r.rest && Mean(d) == r.value && Ends(d, r.rest)
  {
    hide ParseValue, ParseNumber, M.Continues, M.NumberText;
    M.NumeralIsNumber(s);
    M.NumberTextReads(s);
    var text := M.NumberText(s);
    d := NumberToken(text);
    M.NumberBefore(text, ParseNumber(s).rest);
    assert text[0] == s[0];
  }

  lemma SoundString(s: string) returns (d: Node)
    requires NulFree(s) && At(s, 0) == '"' && ParseValue(s).Ok?
    ensures var r := ParseValue(s);
      Good(d) && s == Spell(d) + r.rest && Mean(d) == r.value && Ends(d, r.rest)
  {
    hide ParseValue, ParseString, LiteralOk, LiteralSpan, Unescape;
    M.QuoteIsText(s);
    StringSplits(s);
    var t := s[1..];
    var n := LiteralSpan(t);
    if n < |t| {
      d := StringToken(t[..n]);
    } else {
      d := OpenString(t);
      EmptyEnds(s);
    }
  }

  lemma SoundArray(s: string) returns (d: Node)
    requires NulFree(s) && At(s, 0) == '[' && ParseValue(s).Ok?
    ensures var r := ParseValue(s);
      Good(d) && s == Spell(d) + r.rest && Mean(d) == r.value && Ends(d, r.rest)
    decreases |s|, 0
  {
    hide ParseValue, ParseItems, Skip, Spell;
    M.ArrayOpens(s);
    var t := s[1..];
    assert s == "[" + t;
    NulFreeParts("[", t);
    var b := SkipSplits(t);
    if At(Skip(t), 0) == ']' {
      d := EmptyArray(b);
      var y := Skip(t)[1..];
      assert Skip(t) == "]" + y;
      assert "[" + (b + ("]" + y)) == "[" + b + "]" + y;
      SpellsEmpty(b);
    } else {
      ItemsSkip(t);
      var items := SoundItems(t);
      d := FullArray(items);
      var y := ParseValue(s).rest;
      assert "[" + (SpellItems(items) + ("]" + y)) == "[" + SpellItems(items) + "]" + y;
      SpellsFull(items);
    }
  }

  lemma SpellsEmpty(b: string)
    ensures Spell(EmptyArray(b)) == "[" + b + "]" && Spell(EmptyObject(b)) == "{" + b + "}"
  {
  }

  lemma SpellsFull(items: ItemNodes)
    ensures Spell(FullArray(items)) == "[" + SpellItems(items) + "]"
  {
  }

  lemma SpellsFullObject(members: MemberNodes)
    ensures Spell(FullObject(members)) == "{" + SpellMembers(members) + "}"
  {
  }

  lemma {:induction false} SoundItems(s: string) returns (items: ItemNodes)
    requires NulFree(s) && ParseItems(s).Ok?
    ensures var r := ParseItems(s);
      GoodItems(items) && s == SpellItems(items) + ("]" + r.rest) && MeanItems(items) == r.value
    decreases |s|, 2
  {
    hide ParseValue, ParseItems, Skip, Spell, SpellItems, Good, Mean, Ends;
    M.ItemsUnfold(s);
    var before := SkipSplits(s);
    var v := Sound(Skip(s));
    var rest := ParseValue(Skip(s)).rest;
    NulFreeParts(Spell(v), rest);
    var after := SkipSplits(rest);
    var t := Skip(rest);
    var y := ParseItems(s).rest;
    NotOpen(v, rest);
    if At(t, 0) == ',' {
      assert t == "," + t[1..];
      NulFreeParts(",", t[1..]);
      var next := SoundItems(t[1..]);
      items := MoreItems(before, v, after, next);
    } else {
      assert t == "]" + t[1..];
      items := LastItem(before, v, after);
    }
    ItemsOpen(items, "]" + y);
  }

  lemma NotOpen(d: Node, y: string)
    requires Ends(d, y) && y != ""
    ensures !d.OpenString?
  {
  }

  lemma SoundObject(s: string) returns (d: Node)
    requires NulFree(s) && At(s, 0) == '{' && ParseValue(s).Ok?
    ensures var r := ParseValue(s);
      Good(d) && s == Spell(d) + r.rest && Mean(d) == r.value && Ends(d, r.rest)
    decreases |s|, 0
  {
    hide ParseValue, ParseMembers, Skip, Spell;
    M.ObjectOpens(s);
    var t := s[1..];
    assert s == "{" + t;
    NulFreeParts("{", t);
    var b := SkipSplits(t);
    if At(Skip(t), 0) == '}' {
      d := EmptyObject(b);
      var y := Skip(t)[1..];
      assert Skip(t) == "}" + y;
      assert "{" + (b + ("}" + y)) == "{" + b + "}" + y;
      SpellsEmpty(b);
    } else {
      MembersSkip(t);
      var members := SoundMembers(t);
      d := FullObject(members);
      var y := ParseValue(s).rest;
      assert "{" + (SpellMembers(members) + ("}" + y)) == "{" + SpellMembers(members) + "}" + y;
      SpellsFullObject(members);
    }
  }

  /** A name, the colon, and the blanks around them. */
  lemma SoundName(s: string) returns (before: string, name: string, colon: string)
    requires NulFree(s) && ParseName(s).Ok?
    ensures var r := ParseName(s);
      && Blanks(before) && Body(name) && Blanks(colon) && r.value == Unescape(name + "\"").text && NulFree(r.rest)
      && s == before + ("\"" + name + "\"" + (colon + (":" + r.rest)))
  {
    hide ParseString, Unescape, Skip, LiteralSpan, LiteralOk;
    before := SkipSplits(s);
    var t := Skip(s);
    NameCloses(s);
    StringSplits(t);
    var rest := ParseString(t).rest;
    NulFreeParts(t[..|t| - |rest|], rest);
    SplitAt(t, rest);
    colon := SkipSplits(rest);
    var u := Skip(rest);
    assert u == ":" + u[1..];
    NulFreeParts(":", u[1..]);
    name := t[1..][..LiteralSpan(t[1..])];
  }

  /** A name with no closing quote has no colon behind it. */
  lemma NameCloses(s: string)
    requires ParseName(s).Ok?
    ensures ParseString(Skip(s)).Ok? && ParseString(Skip(s)).rest != ""
  {
    hide ParseString;
  }

  lemma SplitAt(t: string, rest: string)
    ensures |rest| <= |t| && t[|t| - |rest|..] == rest ==> t == t[..|t| - |rest|] + rest
  {
  }

  lemma {:induction false} SoundMembers(s: string) returns (members: MemberNodes)
    requires NulFree(s) && ParseMembers(s).Ok?
    ensures var r := ParseMembers(s);
      GoodMembers(members) && s == SpellMembers(members) + ("}" + r.rest) && MeanMembers(members) == r.value
    decreases |s|, 2
  {
    hide ParseValue, ParseMembers, ParseName, Skip, Spell, SpellMembers, Good, Mean, Ends, Body, Unescape;
    M.MembersUnfold(s);
    var before, name, colon := SoundName(s);
    var body := ParseName(s).rest;
    var gap := SkipSplits(body);
    var v := Sound(Skip(body));
    var rest := ParseValue(Skip(body)).rest;
    NulFreeParts(Spell(v), rest);
    var after := SkipSplits(rest);
    var t := Skip(rest);
    var y := ParseMembers(s).rest;
    NotOpen(v, rest);
    if At(t, 0) == ',' {
      assert t == "," + t[1..];
      NulFreeParts(",", t[1..]);
      var next := SoundMembers(t[1..]);
      members := MoreMembers(before, name, colon, gap, v, after, next);
    } else {
      assert t == "}" + t[1..];
      members := LastMember(before, name, colon, gap, v, after);
    }
    MembersOpen(members, "}" + y);
  }

  /**
   The parser accepts a text exactly when it starts with the spelling of a good tree that
   ends there; the value is what the tree means and the rest is what stands behind it.
   */
  lemma AcceptsExactly(s: string, v: Json, rest: string)
    requires NulFree(s)
    ensures ParseValue(s) == Ok(v, rest) <==>
      exists d :: Good(d) && s == Spell(d) + rest && Ends(d, rest) && Mean(d) == v
  {
    hide ParseValue, Good, Spell, Ends, Mean;
    if ParseValue(s) == Ok(v, rest) {
      var d := Sound(s);
    }
    forall d | Good(d) && s == Spell(d) + rest && Ends(d, rest) && Mean(d) == v ensures ParseValue(s) == Ok(v, rest) {
      NulFreeParts(Spell(d), rest);
      BodyNulFree(d);
      Complete(d, rest);
    }
  }

  lemma BodyNulFree(d: Node)
    requires NulFree(Spell(d))
    ensures d.OpenString? ==> NulFree(d.body)
  {
    if d.OpenString? {
      NulFreeParts("\"", d.body);
    }
  }

  /** Blanks, the spelling of a good tree that means `v`, and `rest`. */
  ghost predicate Reads(s: string, v: Json, rest: string) {
    exists d, b :: ReadsAs(s, v, rest, d, b)
  }

  ghost predicate ReadsAs(s: string, v: Json, rest: string, d: Node, b: string) {
    Blanks(b) && Good(d) && s == b + (Spell(d) + rest) && Ends(d, rest) && Mean(d) == v
  }

  lemma ReadsExactly(s: string, v: Json, rest: string)
    requires NulFree(s)
    ensures ParseValue(Skip(s)) == Ok(v, rest) <==> Reads(s, v, rest)
  {
    hide ParseValue, Good, Spell, Ends, Mean, Skip, Blanks;
    if ParseValue(Skip(s)) == Ok(v, rest) {
      var b := SkipSplits(s);
      var d := Sound(Skip(s));
      assert ReadsAs(s, v, rest, d, b);
    }
    if Reads(s, v, rest) {
      var d, b :| ReadsAs(s, v, rest, d, b);
      SkipOver(b, Spell(d) + rest);
      SpellFront(d, rest);
      SkipFront(Spell(d) + rest);
      NulFreeParts(b, Spell(d) + rest);
      NulFreeParts(Spell(d), rest);
      BodyNulFree(d);
      Complete(d, rest);
    }
  }

  lemma RestNulFree(s: string, v: Json, rest: string)
    requires NulFree(s) && Reads(s, v, rest)
    ensures NulFree(rest)
  {
    hide Good, Spell, Ends, Mean, Blanks;
    var d, b :| ReadsAs(s, v, rest, d, b);
    NulFreeParts(b, Spell(d) + rest);
    NulFreeParts(Spell(d), rest);
  }

  /** The whole call: blanks, such a spelling, and what is left; or, when the end of the text
      is asked for, blanks and nothing else. */
  lemma ParseExactly(s: string, v: Json, rest: string)
    requires NulFree(s)
    ensures Parse(s, false) == Ok(v, rest) <==> Reads(s, v, rest)
    ensures Parse(s, true) == Ok(v, rest) <==> rest == "" && exists b :: Blanks(b) && Reads(s, v, b)
  {
    hide ParseValue, Reads, Skip;
    ReadsExactly(s, v, rest);
    var r := ParseValue(Skip(s));
    if r.Ok? {
      ReadsExactly(s, r.value, r.rest);
      RestNulFree(s, r.value, r.rest);
      var b2 := SkipSplits(r.rest);
      EmptyEnds(b2);
      NoByteLeft(Skip(r.rest));
    }
    forall b | Blanks(b) && Reads(s, v, b) ensures r == Ok(v, b) && Skip(b) == "" {
      ReadsExactly(s, v, b);
      OnlyBlanks(b);
    }
  }

  lemma OnlyBlanks(b: string)
    requires Blanks(b)
    ensures Skip(b) == ""
  {
    SkipOver(b, "");
    EmptyEnds(b);
  }

  lemma NoByteLeft(t: string)
    requires NulFree(t)
    ensures At(t, 0) == NUL <==> t == ""
  {
  }
}
