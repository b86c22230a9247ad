/**
 Where the parser stops on a text that it refuses: behind an unfinished tree, at a byte
 that cannot go on from there. The error pointer is that place and no other.
 */
module GrammarErrors {
  import opened CString
  import opened Sequences
  import opened JsonValue
  import opened JsonString
  import opened JsonNumber
  import opened JsonParse
  import opened Minify
  import opened Grammar
  import M = MinifyMeaning

  /** An unfinished tree: nothing yet where a value is wanted, or an open bracket with what was
      read behind it. */
  datatype Stuck = NoValue | InArray(items: StuckItems) | InObject(members: StuckMembers)

  datatype StuckItems =
    | AtItem(before: string, inner: Stuck)
    | AtComma(before: string, value: Node, after: string)
    | PastItem(before: string, value: Node, after: string, next: StuckItems)

  datatype StuckMembers =
    | AtName(before: string)
    | AtColon(before: string, name: Node, colon: string)
    | AtMember(before: string, word: string, colon: string, gap: string, inner: Stuck)
    | AtMemberComma(before: string, word: string, colon: string, gap: string, value: Node, after: string)
    | PastMember(before: string, word: string, colon: string, gap: string, value: Node, after: string, next: StuckMembers)

  /** The text that was read. */
  function Lead(k: Stuck): string {
    match k
    case NoValue => ""
    case InArray(items) => "[" + LeadItems(items)
    case InObject(members) => "{" + LeadMembers(members)
  }

  function LeadItems(k: StuckItems): string {
    match k
    case AtItem(before, inner) => before + Lead(inner)
    case AtComma(before, value, after) => before + (Spell(value) + after)
    case PastItem(before, value, after, next) => before + (Spell(value) + (after + ("," + LeadItems(next))))
  }

  /** Name and colon with their blanks. */
  function Front(before: string, word: string, colon: string): string {
    before + ("\"" + word + "\"" + (colon + ":"))
  }

  function LeadMembers(k: StuckMembers): string {
    match k
    case AtName(before) => before
    case AtColon(before, name, colon) => before + (Spell(name) + colon)
    case AtMember(before, word, colon, gap, inner) => Front(before, word, colon) + (gap + Lead(inner))
    case AtMemberComma(before, word, colon, gap, value, after) => Front(before, word, colon) + (gap + (Spell(value) + after))
    case PastMember(before, word, colon, gap, value, after, next) =>
      Front(before, word, colon) + (gap + (Spell(value) + (after + ("," + LeadMembers(next)))))
  }

  /** The text at `at` starts no value. */
  predicate NotValue(at: string) {
    var c := At(at, 0);
    && c != '"' && c != '-' && !('0' <= c <= '9') && c != '[' && c != '{'
    && !StartsWith(at, "null") && !StartsWith(at, "false") && !StartsWith(at, "true")
  }

  /** It cannot go on from the unfinished tree. */
  predicate Blocked(k: Stuck, at: string) {
    match k
    case NoValue => NotValue(at)
    case InArray(items) => BlockedItems(items, at) && (items.AtItem? && items.inner.NoValue? ==> At(at, 0) != ']')
    case InObject(members) => BlockedMembers(members, at) && (members.AtName? ==> At(at, 0) != '}')
  }

  predicate BlockedItems(k: StuckItems, at: string) {
    Blanks(k.before) &&
    match k
    case AtItem(before, inner) => Blocked(inner, at) && (inner.NoValue? ==> !Blank(At(at, 0)))
    case AtComma(before, value, after) =>
      Good(value) && Blanks(after) && Ends(value, after + at) && !Blank(At(at, 0)) && At(at, 0) != ',' && At(at, 0) != ']'
    case PastItem(before, value, after, next) =>
      Good(value) && !value.OpenString? && Blanks(after) && BlockedItems(next, at)
  }

  predicate BlockedMembers(k: StuckMembers, at: string) {
    Blanks(k.before) &&
    match k
    case AtName(before) => !Blank(At(at, 0)) && At(at, 0) != '"'
    case AtColon(before, name, colon) =>
      (name.StringToken? || name.OpenString?) && Good(name) && Ends(name, colon + at) && Blanks(colon)
      && !Blank(At(at, 0)) && At(at, 0) != ':'
    case AtMember(before, word, colon, gap, inner) =>
      Body(word) && Blanks(colon) && Blanks(gap) && Blocked(inner, at) && (inner.NoValue? ==> !Blank(At(at, 0)))
    case AtMemberComma(before, word, colon, gap, value, after) =>
      Body(word) && Blanks(colon) && Blanks(gap) && Good(value) && Blanks(after) && Ends(value, after + at)
      && !Blank(At(at, 0)) && At(at, 0) != ',' && At(at, 0) != '}'
    case PastMember(before, word, colon, gap, value, after, next) =>
      Body(word) && Blanks(colon) && Blanks(gap) && Good(value) && !value.OpenString? && Blanks(after) && BlockedMembers(next, at)
  }

  // ----- the parser, one step at a time -----

  lemma ValueStep(s: string)
    ensures NotValue(s) ==> ParseValue(s) == Fail(s)
    ensures At(s, 0) == '"' ==> !ParseValue(s).Fail?
    ensures At(s, 0) == '-' || Digit(At(s, 0)) ==> ParseValue(s).Ok?
    ensures StartsWith(s, "null") || StartsWith(s, "false") || StartsWith(s, "true") ==> ParseValue(s).Ok?
  {
    hide ParseItems, ParseMembers, ParseNumber, StartsWith, LiteralOk, Unescape;
    if At(s, 0) == '"' {
      M.QuoteIsText(s);
    }
    if At(s, 0) == '-' || Digit(At(s, 0)) {
      M.NumeralIsNumber(s);
    }
  }

  lemma ArrayStep(s: string)
    requires At(s, 0) == '['
    ensures var t := Skip(s[1..]);
      At(t, 0) != ']' ==> match ParseItems(t)
        case Ok(_, _) => ParseValue(s).Ok?
        case Fail(at) => ParseValue(s) == Fail(at)
        case Undefined => ParseValue(s) == Undefined
    ensures At(Skip(s[1..]), 0) == ']' ==> ParseValue(s).Ok?
  {
    hide ParseString, ParseNumber, Skip, ParseItems, ParseMembers;
    OpensNothing(s);
  }

  lemma ObjectStep(s: string)
    requires At(s, 0) == '{'
    ensures var t := Skip(s[1..]);
      At(t, 0) != '}' ==> match ParseMembers(t)
        case Ok(_, _) => ParseValue(s).Ok?
        case Fail(at) => ParseValue(s) == Fail(at)
        case Undefined => ParseValue(s) == Undefined
    ensures At(Skip(s[1..]), 0) == '}' ==> ParseValue(s).Ok?
  {
    hide ParseString, ParseNumber, Skip, ParseItems, ParseMembers;
    OpensNothing(s);
  }

  lemma OpensNothing(s: string)
    requires At(s, 0) == '[' || At(s, 0) == '{'
    ensures !StartsWith(s, "null") && !StartsWith(s, "false") && !StartsWith(s, "true")
  {
    assert |s| >= 4 ==> s[..4][0] == s[0];
    assert |s| >= 5 ==> s[..5][0] == s[0];
  }

  /** How an outcome of the rest of a list becomes the outcome of the list. */
  predicate Same<T, U>(r: Result<T>, q: Result<U>) {
    match q
    case Ok(_, _) => r.Ok?
    case Fail(at) => r == Fail(at)
    case Undefined => r == Undefined
  }

  lemma ItemsStep(s: string)
    ensures match ParseValue(Skip(s))
      case Ok(v, rest) =>
        (var t := Skip(rest);
         if At(t, 0) == ',' then Same(ParseItems(s), ParseItems(t[1..]))
         else if At(t, 0) == ']' then ParseItems(s).Ok?
         else ParseItems(s) == Fail(t))
      case Fail(at) => ParseItems(s) == Fail(at)
      case Undefined => ParseItems(s) == Undefined
  {
    hide ParseValue, Skip;
  }

  lemma NameStep(s: string)
    ensures match ParseString(Skip(s))
      case Ok(name, rest) =>
        (var t := Skip(rest); if At(t, 0) != ':' then ParseName(s) == Fail(t) else ParseName(s) == Ok(name, t[1..]))
      case Fail(at) => ParseName(s) == Fail(at)
      case Undefined => ParseName(s) == Undefined
  {
    hide ParseString, Skip;
  }

  lemma MembersStep(s: string)
    ensures match ParseName(s)
      case Ok(name, body) => (
        match ParseValue(Skip(body))
        case Ok(v, rest) =>
          (var t := Skip(rest);
           if At(t, 0) == ',' then Same(ParseMembers(s), ParseMembers(t[1..]))
           else if At(t, 0) == '}' then ParseMembers(s).Ok?
           else ParseMembers(s) == Fail(t))
        case Fail(at) => ParseMembers(s) == Fail(at)
        case Undefined => ParseMembers(s) == Undefined)
      case Fail(at) => ParseMembers(s) == Fail(at)
      case Undefined => ParseMembers(s) == Undefined
  {
    hide ParseValue, Skip, ParseName;
  }

  lemma StringStep(s: string)
    ensures ParseString(s).Fail? ==> ParseString(s) == Fail(s) && At(s, 0) != '"'
    ensures At(s, 0) != '"' ==> ParseString(s) == Fail(s)
  {
    hide LiteralOk, Unescape;
  }

  // ----- every unfinished tree stops there -----

  lemma SkipTo(b: string, t: string)
    requires Blanks(b) && !Blank(At(t, 0))
    ensures Skip(b + t) == t
  {
    SkipOver(b, t);
    SkipFront(t);
  }

  /** What stands where a value is wanted is no blank. */
  lemma LeadFront(k: Stuck, at: string)
    requires Blocked(k, at) && (k.NoValue? ==> !Blank(At(at, 0)))
    ensures !Blank(At(Lead(k) + at, 0)) && (At(Lead(k) + at, 0) == ']' ==> k.NoValue?)
    ensures k.NoValue? ==> Lead(k) + at == at
  {
    hide LeadItems, LeadMembers, BlockedItems, BlockedMembers;
    if k.NoValue? {
      EmptyEnds(at);
    }
  }

  lemma {:induction false} StopsAt(k: Stuck, at: string)
    requires Blocked(k, at) && NulFree(Lead(k) + at)
    ensures ParseValue(Lead(k) + at) == Fail(at)
    decreases k, 1
  {
    hide ParseValue, ParseItems, ParseMembers, NotValue, BlockedItems, BlockedMembers, LeadItems, LeadMembers, Skip;
    match k
    case NoValue =>
      EmptyEnds(at);
      ValueStep(at);
    case InArray(items) =>
      var s, t := "[" + LeadItems(items) + at, LeadItems(items) + at;
      assert s == "[" + t && s[1..] == t;
      NulFreeParts("[", t);
      ArrayStep(s);
      StopsAtItems(items, at);
      ItemsSkip(t);
      FirstItemFront(items, at);
    case InObject(members) =>
      var s, t := "{" + LeadMembers(members) + at, LeadMembers(members) + at;
      assert s == "{" + t && s[1..] == t;
      NulFreeParts("{", t);
      ObjectStep(s);
      StopsAtMembers(members, at);
      MembersSkip(t);
      FirstMemberFront(members, at);
  }

  lemma FirstItemFront(k: StuckItems, at: string)
    requires BlockedItems(k, at) && (k.AtItem? && k.inner.NoValue? ==> At(at, 0) != ']')
    ensures At(Skip(LeadItems(k) + at), 0) != ']'
  {
    hide Good, Spell, Skip, Blocked, Lead, Ends;
    match k
    case AtItem(before, inner) =>
      LeadFront(inner, at);
      Regroup(before, Lead(inner), at);
      SkipTo(before, Lead(inner) + at);
    case AtComma(before, value, after) =>
      SpellFront(value, after + at);
      assert LeadItems(k) + at == before + (Spell(value) + (after + at));
      SkipTo(before, Spell(value) + (after + at));
    case PastItem(before, value, after, next) =>
      var y := after + ("," + LeadItems(next)) + at;
      SpellFront(value, y);
      assert LeadItems(k) + at == before + (Spell(value) + y);
      SkipTo(before, Spell(value) + y);
  }

  lemma FrontQuote(before: string, word: string, colon: string, y: string)
    requires Blanks(before)
    ensures At(Skip(Front(before, word, colon) + y), 0) == '"'
  {
    hide Skip;
    var t := "\"" + word + "\"" + (colon + ":") + y;
    assert Front(before, word, colon) + y == before + t && t[0] == '"';
    SkipTo(before, t);
  }

  lemma FirstMemberFront(k: StuckMembers, at: string)
    requires BlockedMembers(k, at) && (k.AtName? ==> At(at, 0) != '}')
    ensures At(Skip(LeadMembers(k) + at), 0) != '}'
  {
    hide Good, Spell, Skip, Blocked, Lead, Ends, Front, Body;
    match k
    case AtName(before) => SkipTo(before, at);
    case AtColon(before, name, colon) =>
      SpellFront(name, colon + at);
      assert LeadMembers(k) + at == before + (Spell(name) + (colon + at));
      SkipTo(before, Spell(name) + (colon + at));
    case AtMember(before, word, colon, gap, inner) =>
      Regroup(Front(before, word, colon), gap + Lead(inner), at);
      FrontQuote(before, word, colon, gap + Lead(inner) + at);
    case AtMemberComma(before, word, colon, gap, value, after) =>
      Regroup(Front(before, word, colon), gap + (Spell(value) + after), at);
      FrontQuote(before, word, colon, gap + (Spell(value) + after) + at);
    case PastMember(before, word, colon, gap, value, after, next) =>
      var y := gap + (Spell(value) + (after + ("," + LeadMembers(next))));
      Regroup(Front(before, word, colon), y, at);
      FrontQuote(before, word, colon, y + at);
  }

  lemma NulFreeAll(a: string, b: string, c: string)
    requires NulFree(a + (b + c))
    ensures NulFree(a) && NulFree(b) && NulFree(c) && NulFree(b + c)
  {
    NulFreeParts(a, b + c);
    NulFreeParts(b, c);
  }

  /** A value of an unfinished list is read, and what follows it is left. */
  lemma ReadsValue(before: string, value: Node, y: string)
    requires Blanks(before) && Good(value) && Ends(value, y) && NulFree(before + (Spell(value) + y))
    ensures Skip(before + (Spell(value) + y)) == Spell(value) + y && ParseValue(Spell(value) + y) == Ok(Mean(value), y)
  {
    hide ParseValue, Good, Spell, Mean, Ends, Skip;
    SpellFront(value, y);
    SkipTo(before, Spell(value) + y);
    NulFreeAll(before, Spell(value), y);
    BodyNulFree(value);
    Complete(value, y);
  }

  lemma CommaFollows(value: Node, after: string, y: string)
    requires !value.OpenString? && Blanks(after)
    ensures Ends(value, after + ("," + y)) && Skip(after + ("," + y)) == "," + y && ("," + y)[1..] == y
  {
    hide Ends, Skip;
    AfterBlanks(after, "," + y);
    EndsInside(value, after + ("," + y));
  }

  lemma {:induction false} StopsAtItems(k: StuckItems, at: string)
    requires BlockedItems(k, at) && NulFree(LeadItems(k) + at)
    ensures ParseItems(LeadItems(k) + at) == Fail(at)
    decreases k, 0
  {
    hide ParseValue, ParseItems, Good, Spell, Skip, Blocked, Lead, Ends, Mean;
    var s := LeadItems(k) + at;
    ItemsStep(s);
    match k
    case AtItem(before, inner) =>
      Regroup(before, Lead(inner), at);
      LeadFront(inner, at);
      SkipTo(before, Lead(inner) + at);
      NulFreeParts(before, Lead(inner) + at);
      StopsAt(inner, at);
    case AtComma(before, value, after) =>
      assert s == before + (Spell(value) + (after + at));
      ReadsValue(before, value, after + at);
      SkipTo(after, at);
    case PastItem(before, value, after, next) =>
      var y := LeadItems(next) + at;
      assert s == before + (Spell(value) + (after + ("," + y)));
      CommaFollows(value, after, y);
      ReadsValue(before, value, after + ("," + y));
      NulFreeAll(before, Spell(value), after + ("," + y));
      NulFreeAll(after, ",", y);
      StopsAtItems(next, at);
  }

  lemma FrontReads(before: string, word: string, colon: string, y: string)
    requires Blanks(before) && Body(word) && Blanks(colon)
    ensures ParseName(Front(before, word, colon) + y) == Ok(Unescape(word + "\"").text, y)
  {
    hide ParseName, Unescape, Body;
    NameReads(before, word, colon, y);
    var q := "\"" + word + "\"";
    assert before + (q + (colon + ":")) + y == before + (q + (colon + (":" + y)));
  }

  lemma {:induction false} StopsAtMembers(k: StuckMembers, at: string)
    requires BlockedMembers(k, at) && NulFree(LeadMembers(k) + at)
    ensures ParseMembers(LeadMembers(k) + at) == Fail(at)
    decreases k, 0
  {
    hide ParseValue, ParseMembers, ParseName, ParseString, Good, Spell, Skip, Blocked, Lead, Ends, Mean, Front, Body, Unescape;
    var s := LeadMembers(k) + at;
    MembersStep(s);
    match k
    case AtName(before) =>
      SkipTo(before, at);
      NameStep(s);
      StringStep(at);
    case AtColon(before, name, colon) =>
      assert s == before + (Spell(name) + (colon + at));
      NulFreeAll(before, Spell(name), colon + at);
      NameStops(before, name, colon, at);
    case AtMember(before, word, colon, gap, inner) =>
      var y := gap + (Lead(inner) + at);
      assert s == Front(before, word, colon) + y;
      FrontReads(before, word, colon, y);
      LeadFront(inner, at);
      SkipTo(gap, Lead(inner) + at);
      NulFreeAll(Front(before, word, colon), gap, Lead(inner) + at);
      StopsAt(inner, at);
    case AtMemberComma(before, word, colon, gap, value, after) =>
      var y := gap + (Spell(value) + (after + at));
      assert s == Front(before, word, colon) + y;
      FrontReads(before, word, colon, y);
      NulFreeParts(Front(before, word, colon), y);
      ReadsValue(gap, value, after + at);
      SkipTo(after, at);
    case PastMember(before, word, colon, gap, value, after, next) =>
      var z := LeadMembers(next) + at;
      var y := gap + (Spell(value) + (after + ("," + z)));
      assert s == Front(before, word, colon) + y;
      FrontReads(before, word, colon, y);
      CommaFollows(value, after, z);
      NulFreeParts(Front(before, word, colon), y);
      ReadsValue(gap, value, after + ("," + z));
      NulFreeAll(gap, Spell(value), after + ("," + z));
      NulFreeAll(after, ",", z);
      StopsAtMembers(next, at);
  }

  lemma NameStops(before: string, name: Node, colon: string, at: string)
    requires (name.StringToken? || name.OpenString?) && Good(name) && Ends(name, colon + at)
    requires Blanks(before) && Blanks(colon) && !Blank(At(at, 0)) && At(at, 0) != ':' && NulFree(Spell(name))
    ensures ParseName(before + (Spell(name) + (colon + at))) == Fail(at)
  {
    hide ParseString, ParseName, LiteralOk, LiteralSpan, Unescape, Skip, Body;
    var t := Spell(name) + (colon + at);
    assert t[0] == '"';
    NameStep(before + t);
    SkipTo(before, t);
    SkipTo(colon, at);
    if name.StringToken? {
      BodyReads(name.body, colon + at);
      assert t == "\"" + name.body + "\"" + (colon + at);
    } else {
      EmptyEnds(Spell(name));
      NulFreeParts("\"", name.body);
      assert ("\"" + name.body)[1..] == name.body;
      OpenReads(t);
    }
  }

  // ----- every refusal is one of these -----

  lemma {:induction false} Refused(s: string) returns (k: Stuck)
    requires NulFree(s) && ParseValue(s).Fail?
    ensures var at := ParseValue(s).at; Blocked(k, at) && s == Lead(k) + at
    decreases |s|, 1
  {
    hide ParseValue, ParseItems, ParseMembers, BlockedItems, BlockedMembers, LeadItems, LeadMembers, Skip, StartsWith;
    ValueStep(s);
    EmptyEnds(s);
    if At(s, 0) == '[' {
      var t := s[1..];
      assert s == "[" + t;
      NulFreeParts("[", t);
      ArrayStep(s);
      ItemsSkip(t);
      var items := RefusedItems(t);
      NotClosedYet(items, ParseValue(s).at);
      k := InArray(items);
      Regroup("[", LeadItems(items), ParseValue(s).at);
    } else if At(s, 0) == '{' {
      var t := s[1..];
      assert s == "{" + t;
      NulFreeParts("{", t);
      ObjectStep(s);
      MembersSkip(t);
      var members := RefusedMembers(t);
      NotClosedMembers(members, ParseValue(s).at);
      k := InObject(members);
      Regroup("{", LeadMembers(members), ParseValue(s).at);
    } else {
      k := NoValue;
    }
  }

  lemma NotClosedYet(k: StuckItems, at: string)
    requires BlockedItems(k, at) && At(Skip(LeadItems(k) + at), 0) != ']'
    ensures k.AtItem? && k.inner.NoValue? ==> At(at, 0) != ']'
  {
    hide Skip;
    if k.AtItem? && k.inner.NoValue? {
      EmptyEnds(k.before);
      SkipTo(k.before, at);
    }
  }

  lemma NotClosedMembers(k: StuckMembers, at: string)
    requires BlockedMembers(k, at) && At(Skip(LeadMembers(k) + at), 0) != '}'
    ensures k.AtName? ==> At(at, 0) != '}'
  {
    hide Skip;
    if k.AtName? {
      SkipTo(k.before, at);
    }
  }

  lemma {:induction false} RefusedItems(s: string) returns (k: StuckItems)
    requires NulFree(s) && ParseItems(s).Fail?
    ensures var at := ParseItems(s).at; BlockedItems(k, at) && s == LeadItems(k) + at
    decreases |s|, 2
  {
    hide ParseValue, ParseItems, Good, Spell, Skip, Blocked, Lead, Ends, Mean;
    var at := ParseItems(s).at;
    ItemsStep(s);
    var before := SkipSplits(s);
    SkippedFront(s);
    if ParseValue(Skip(s)).Ok? {
      var v := Sound(Skip(s));
      var rest := ParseValue(Skip(s)).rest;
      NulFreeParts(Spell(v), rest);
      var after := SkipSplits(rest);
      var t := Skip(rest);
      SkippedFront(rest);
      if At(t, 0) == ',' {
        assert t == "," + t[1..];
        NulFreeParts(",", t[1..]);
        NotOpen(v, rest);
        var next := RefusedItems(t[1..]);
        k := PastItem(before, v, after, next);
        assert before + (Spell(v) + (after + ("," + (LeadItems(next) + at)))) == LeadItems(k) + at;
      } else {
        k := AtComma(before, v, after);
        assert before + (Spell(v) + (after + at)) == LeadItems(k) + at;
      }
    } else {
      var inner := Refused(Skip(s));
      k := AtItem(before, inner);
      NoValueFront(inner, at, Skip(s));
      Regroup(before, Lead(inner), at);
    }
  }

  lemma SkippedFront(s: string)
    ensures !Blank(At(Skip(s), 0))
  {
  }

  lemma NoValueFront(k: Stuck, at: string, t: string)
    requires t == Lead(k) + at && !Blank(At(t, 0))
    ensures k.NoValue? ==> !Blank(At(at, 0))
  {
    if k.NoValue? {
      EmptyEnds(at);
    }
  }

  lemma {:induction false} RefusedMembers(s: string) returns (k: StuckMembers)
    requires NulFree(s) && ParseMembers(s).Fail?
    ensures var at := ParseMembers(s).at; BlockedMembers(k, at) && s == LeadMembers(k) + at
    decreases |s|, 2
  {
    hide ParseValue, ParseMembers, ParseName, Good, Spell, Skip, Blocked, Lead, Ends, Mean, Front, Body, Unescape;
    var at := ParseMembers(s).at;
    MembersStep(s);
    if ParseName(s).Ok? {
      var before, word, colon := SoundName(s);
      var body := ParseName(s).rest;
      FrontIs(before, word, colon, body);
      var gap := SkipSplits(body);
      SkippedFront(body);
      if ParseValue(Skip(body)).Ok? {
        var v := Sound(Skip(body));
        var rest := ParseValue(Skip(body)).rest;
        NulFreeParts(Spell(v), rest);
        var after := SkipSplits(rest);
        var t := Skip(rest);
        SkippedFront(rest);
        if At(t, 0) == ',' {
          assert t == "," + t[1..];
          NulFreeParts(",", t[1..]);
          NotOpen(v, rest);
          var next := RefusedMembers(t[1..]);
          k := PastMember(before, word, colon, gap, v, after, next);
          assert Front(before, word, colon) + (gap + (Spell(v) + (after + ("," + (LeadMembers(next) + at))))) == LeadMembers(k) + at;
        } else {
          k := AtMemberComma(before, word, colon, gap, v, after);
          assert Front(before, word, colon) + (gap + (Spell(v) + (after + at))) == LeadMembers(k) + at;
        }
      } else {
        var inner := Refused(Skip(body));
        k := AtMember(before, word, colon, gap, inner);
        NoValueFront(inner, at, Skip(body));
        assert Front(before, word, colon) + (gap + (Lead(inner) + at)) == LeadMembers(k) + at;
      }
    } else {
      k := RefusedName(s);
    }
  }

  lemma FrontIs(before: string, word: string, colon: string, y: string)
    ensures before + ("\"" + word + "\"" + (colon + (":" + y))) == Front(before, word, colon) + y
  {
    var q := "\"" + word + "\"";
    assert before + (q + (colon + ":")) + y == before + (q + (colon + (":" + y)));
  }

  lemma RefusedName(s: string) returns (k: StuckMembers)
    requires NulFree(s) && ParseName(s).Fail?
    ensures var at := ParseName(s).at; BlockedMembers(k, at) && s == LeadMembers(k) + at
  {
    hide ParseName, ParseString, LiteralOk, LiteralSpan, Unescape, Skip, Body;
    var at := ParseName(s).at;
    NameStep(s);
    var before := SkipSplits(s);
    SkippedFront(s);
    var t := Skip(s);
    StringStep(t);
    if ParseString(t).Ok? {
      var rest := ParseString(t).rest;
      var name := SoundLiteral(t);
      NulFreeParts(Spell(name), rest);
      var colon := SkipSplits(rest);
      SkippedFront(rest);
      k := AtColon(before, name, colon);
      assert before + (Spell(name) + (colon + at)) == LeadMembers(k) + at;
    } else {
      k := AtName(before);
    }
  }

  lemma SoundLiteral(t: string) returns (d: Node)
    requires NulFree(t) && ParseString(t).Ok?
    ensures (d.StringToken? || d.OpenString?) && Good(d) && t == Spell(d) + ParseString(t).rest && Ends(d, ParseString(t).rest)
  {
    hide ParseString, LiteralOk, LiteralSpan, Unescape;
    StringSplits(t);
    var b := t[1..];
    var n := LiteralSpan(b);
    if n < |b| {
      d := StringToken(b[..n]);
    } else {
      d := OpenString(b);
      EmptyEnds(t);
    }
  }

  /**
   The parser refuses a text at a place exactly when an unfinished tree stands before the
   place and the text there cannot go on from it.
   */
  lemma RefusesExactly(s: string, at: string)
    requires NulFree(s)
    ensures ParseValue(s) == Fail(at) <==> exists k :: Blocked(k, at) && s == Lead(k) + at
  {
    hide ParseValue, Blocked, Lead;
    if ParseValue(s) == Fail(at) {
      var k := Refused(s);
    }
    forall k | Blocked(k, at) && s == Lead(k) + at ensures ParseValue(s) == Fail(at) {
      StopsAt(k, at);
    }
  }

  /** Blanks and an unfinished tree in front of `at`, where it cannot go on. */
  ghost predicate Sticks(s: string, at: string) {
    exists k, b :: SticksAs(s, at, k, b)
  }

  ghost predicate SticksAs(s: string, at: string, k: Stuck, b: string) {
    Blanks(b) && Blocked(k, at) && s == b + (Lead(k) + at) && (k.NoValue? ==> !Blank(At(at, 0)))
  }

  lemma SticksExactly(s: string, at: string)
    requires NulFree(s)
    ensures ParseValue(Skip(s)) == Fail(at) <==> Sticks(s, at)
  {
    hide ParseValue, Blocked, Lead, Skip, Blanks;
    if ParseValue(Skip(s)) == Fail(at) {
      var b := SkipSplits(s);
      var k := Refused(Skip(s));
      SkippedFront(s);
      NoValueFront(k, at, Skip(s));
      assert SticksAs(s, at, k, b);
    }
    if Sticks(s, at) {
      var k, b :| SticksAs(s, at, k, b);
      LeadFront(k, at);
      SkipTo(b, Lead(k) + at);
      NulFreeParts(b, Lead(k) + at);
      StopsAt(k, at);
    }
  }

  /** The error pointer of the whole call: such a place; or, when the end of the text is asked
      for, the first byte that is no blank behind a text that was read. */
  lemma ErrorPlaceExactly(s: string, at: string)
    requires NulFree(s)
    ensures Parse(s, false) == Fail(at) <==> Sticks(s, at)
    ensures Parse(s, true) == Fail(at) <==> Sticks(s, at) || exists v, b :: TrailsWith(s, at, v, b)
  {
    hide ParseValue, Sticks, Reads, Skip, Blanks;
    SticksExactly(s, at);
    var r := ParseValue(Skip(s));
    if r.Ok? {
      ReadsExactly(s, r.value, r.rest);
      RestNulFree(s, r.value, r.rest);
      var b := SkipSplits(r.rest);
      SkippedFront(r.rest);
      NoByteLeft(Skip(r.rest));
      assert Skip(r.rest) == at != "" ==> TrailsWith(s, at, r.value, b);
    }
    forall v, b | TrailsWith(s, at, v, b) ensures r == Ok(v, b + at) && Skip(b + at) == at && At(at, 0) != NUL {
      ReadsExactly(s, v, b + at);
      RestNulFree(s, v, b + at);
      SkipTo(b, at);
      NulFreeParts(b, at);
    }
  }

  ghost predicate TrailsWith(s: string, at: string, v: Json, b: string) {
    Blanks(b) && at != "" && !Blank(at[0]) && Reads(s, v, b + at)
  }
}
