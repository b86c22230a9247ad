/**
 Whole string literals as section 7 of RFC 8259 writes them: a sequence of plain
 bytes, short escapes, and escapes that spell a scalar, alone or as a surrogate pair.
 */
module Literals {
  import opened CString
  import opened Sequences
  import opened Utf8
  import opened JsonString
  import opened JsonParse

  datatype Piece =
    | Plain(c: char)
    | Short(c: char)
    | Spelled(h: string, uc: nat)

  predicate WellFormed(p: Piece) {
    match p
    case Plain(c) => c >= ' ' && c != '"' && c != '\\'
    case Short(c) => ShortEscape(c) || c == '/'
    case Spelled(h, uc) => Scalar(uc) && 0 < uc && Spells(h, uc)
  }

  /** How it stands in the literal. */
  function Written(p: Piece): string
    requires WellFormed(p)
  {
    match p
    case Plain(c) => [c]
    case Short(c) => if c == '/' then "\\/" else "\\" + [ShortLetter(c)]
    case Spelled(h, _) => h
  }

  /** The bytes it stands for. */
  function Meant(p: Piece): string
    requires WellFormed(p)
  {
    match p
    case Plain(c) => [c]
    case Short(c) => [c]
    case Spelled(_, uc) => Encode(uc)
  }

  function Body(pieces: seq<Piece>): string
    requires forall p <- pieces :: WellFormed(p)
  {
    if pieces == [] then "" else Written(pieces[0]) + Body(pieces[1..])
  }

  function Meaning(pieces: seq<Piece>): string
    requires forall p <- pieces :: WellFormed(p)
  {
    if pieces == [] then "" else Meant(pieces[0]) + Meaning(pieces[1..])
  }

  /** The spelling of a scalar is crossed digit by digit. */
  lemma SpellingCrossed(h: string, uc: nat, s: string)
    requires Scalar(uc) && Spells(h, uc)
    ensures |h| == (if uc < 0x10000 then 6 else 12) && (h + s)[0] == '\\' && (h + s)[1] == 'u' && Crossed(h + s, |h|).Arrives?
  {
    hide ParseHex4, FourHex, Crossed, HighSurrogate, LowSurrogate;
    var t := h + s;
    if uc < 0x10000 {
      UnitAt(h, uc, s);
    } else {
      assert t == h[..6] + (h[6..] + s) && t[6..] == h[6..] + s;
      UnitAt(h[..6], HighSurrogate(uc), h[6..] + s);
      UnitAt(h[6..], LowSurrogate(uc), s);
      CrossedOn(t, 6, 6);
    }
  }

  lemma UnitAt(h: string, code: nat, s: string)
    requires SpellsUnit(h, code)
    ensures (h + s)[0] == '\\' && (h + s)[1] == 'u' && Crossed(h + s, 6).Arrives?
  {
    hide ParseHex4, FourHex, Crossed;
    assert (h + s)[2..] == h[2..] + s;
    ParseHexPrefix(h[2..], s);
    UnitCrossed(h + s);
  }

  lemma SpellingOk(h: string, uc: nat, s: string)
    requires Scalar(uc) && 0 < uc && Spells(h, uc)
    ensures LiteralOk(h + s) == LiteralOk(s)
  {
    hide LiteralOk, Crossed, Spells, DecodeUnicode;
    SpellingCrossed(h, uc, s);
    SpellingDecodes(h, uc, s);
    OkBehind(h, s);
  }

  lemma UnescapeSlash(s: string)
    ensures Unescape("\\/" + s) == Decoded("/" + Unescape(s).text, Unescape(s).rest)
    ensures LiteralOk("\\/" + s) == LiteralOk(s)
  {
    hide DecodeUnicode, FourHex;
    var t := "\\/" + s;
    assert t[2..] == s == Advance(t, 2);
    assert DecodeEscape(t[1..]) == Escaped("/", 1);
  }

  /** Each piece contributes what it means, and decoding goes on behind it. */
  lemma PieceDecodes(p: Piece, s: string)
    requires WellFormed(p)
    ensures Unescape(Written(p) + s) == Decoded(Meant(p) + Unescape(s).text, Unescape(s).rest)
    ensures LiteralOk(Written(p) + s) == LiteralOk(s)
  {
    hide Unescape, LiteralOk, Spells, Encode;
    match p
    case Plain(c) => UnescapePlain(c, s);
    case Short(c) =>
      if c == '/' {
        UnescapeSlash(s);
      } else {
        UnescapePair(c, s);
      }
    case Spelled(h, uc) =>
      EscapeDecodesToUtf8(h, uc, s);
      SpellingOk(h, uc, s);
  }

  /** A whole literal of any such pieces: both passes take it up to its closing quote,
      and the text written is what the pieces mean, in order. */
  lemma {:induction false} LiteralDecodes(pieces: seq<Piece>, rest: string)
    requires forall p <- pieces :: WellFormed(p)
    ensures LiteralOk(Body(pieces) + ("\"" + rest))
    ensures Unescape(Body(pieces) + ("\"" + rest)) == Decoded(Meaning(pieces), "\"" + rest)
  {
    var end := "\"" + rest;
    if pieces == [] {
      EmptyEnds(end);
    } else {
      hide Unescape, LiteralOk, Written, Meant;
      LiteralDecodes(pieces[1..], rest);
      PieceDecodes(pieces[0], Body(pieces[1..]) + end);
      Regroup(Written(pieces[0]), Body(pieces[1..]), end);
    }
  }

  /** What the first pass counts for a piece: one for a byte or a short escape, and five for
      each escape of four digits. */
  function Counted(p: Piece): nat {
    if p.Spelled? then (if p.uc < 0x10000 then 5 else 10) else 1
  }

  function CountOf(pieces: seq<Piece>): nat {
    if pieces == [] then 0 else Counted(pieces[0]) + CountOf(pieces[1..])
  }

  lemma PieceCounts(p: Piece, s: string)
    requires WellFormed(p)
    ensures ScanCount(Written(p) + s) == Counted(p) + ScanCount(s)
  {
    hide Spells, ScanCount;
    var t := Written(p) + s;
    match p
    case Plain(c) =>
      ScanOver(t);
      assert t[1..] == s;
    case Short(c) =>
      ScanOver(t);
      assert t[2..] == s;
    case Spelled(h, uc) => SpellingCounts(h, uc, s);
  }

  lemma SpellingCounts(h: string, uc: nat, s: string)
    requires Scalar(uc) && Spells(h, uc)
    ensures ScanCount(h + s) == (if uc < 0x10000 then 5 else 10) + ScanCount(s)
  {
    hide ScanCount;
    if uc < 0x10000 {
      UnitCounts(h, uc, s);
    } else {
      assert h + s == h[..6] + (h[6..] + s);
      UnitCounts(h[..6], HighSurrogate(uc), h[6..] + s);
      UnitCounts(h[6..], LowSurrogate(uc), s);
    }
  }

  lemma UnitCounts(h: string, code: nat, s: string)
    requires SpellsUnit(h, code)
    ensures ScanCount(h + s) == 5 + ScanCount(s)
  {
    hide ScanCount, ParseHex4;
    var t := h + s;
    assert t[2..] == h[2..] + s;
    DigitsCount(h[2..], s);
    ScanOver(t);
  }

  lemma DigitsCount(h: string, s: string)
    requires |h| == 4 && FourHex(h)
    ensures ScanCount(h + s) == 4 + ScanCount(s)
  {
    hide ScanCount;
    assert forall k: nat | k < 4 :: At(h, k) == h[k] && HexValue(h[k]) >= 0;
    var t := h + s;
    assert t[1..][1..][1..][1..] == s && t[1..][0] == h[1] && t[1..][1..][0] == h[2] && t[1..][1..][1..][0] == h[3];
    ScanOver(t);
    ScanOver(t[1..]);
    ScanOver(t[1..][1..]);
    ScanOver(t[1..][1..][1..]);
  }

  /** So the memory asked for is exactly that of the pieces. */
  lemma {:induction false} LiteralCounts(pieces: seq<Piece>, rest: string)
    requires forall p <- pieces :: WellFormed(p)
    ensures ScanCount(Body(pieces) + ("\"" + rest)) == CountOf(pieces)
  {
    var end := "\"" + rest;
    if pieces == [] {
      EmptyEnds(end);
    } else {
      hide ScanCount, Written;
      LiteralCounts(pieces[1..], rest);
      PieceCounts(pieces[0], Body(pieces[1..]) + end);
      Regroup(Written(pieces[0]), Body(pieces[1..]), end);
    }
  }

  /** So `parse_string` reads it to its meaning and goes on behind the closing quote. */
  lemma LiteralParses(pieces: seq<Piece>, rest: string)
    requires forall p <- pieces :: WellFormed(p)
    ensures ParseString("\"" + Body(pieces) + "\"" + rest) == Ok(Meaning(pieces), rest)
  {
    hide Unescape, LiteralOk, Body, Meaning;
    LiteralDecodes(pieces, rest);
    var s := "\"" + Body(pieces) + "\"" + rest;
    assert s[1..] == Body(pieces) + ("\"" + rest);
    assert ("\"" + rest)[1..] == rest;
  }

  // ----- escapes that spell nothing -----

  /** `\u` and four bytes of the literal that are not all digits: the escape is taken
      whole and contributes nothing. */
  lemma MalformedIsDropped(h: string, s: string)
    requires |h| == 6 && h[0] == '\\' && h[1] == 'u' && !FourHex(h[2..])
    requires forall k | 2 <= k < 6 :: h[k] != '\\' && !AtEnd([h[k]])
    ensures Unescape(h + s) == Unescape(s) && LiteralOk(h + s) == LiteralOk(s)
  {
    hide Unescape, LiteralOk, Encode;
    var t := h + s;
    assert Advance(t[1..], 1) == h[2..] + s && Advance(t, 6) == s;
    ParseHexPrefix(h[2..], s);
    assert DecodeUnicode(t[1..]) == Escaped("", 5);
    UnescapeRound(t);
    PlainCrossed(t, 2, 6);
    OkBehind(h, s);
  }

  lemma PlainCrossed(t: string, i: nat, n: nat)
    requires 2 <= i <= n <= |t| && t[0] == '\\' && t[1] == 'u' && Crossed(t, i).Arrives?
    requires forall k | i <= k < n :: t[k] != '\\' && !AtEnd([t[k]])
    ensures Crossed(t, n).Arrives?
    decreases n - i
  {
    hide Crossed;
    if i < n {
      CrossedOn(t, i, 1);
      CrossedStep(t[i..], 1);
      CrossedNothing(t[i..][1..]);
      PlainCrossed(t, i + 1, n);
    }
  }

  /** A unit that is no scalar on its own, zero or the second half of a pair, is taken
      whole and contributes nothing. */
  lemma UselessIsDropped(h: string, code: nat, s: string)
    requires SpellsUnit(h, code) && (code == 0 || 0xDC00 <= code <= 0xDFFF)
    ensures Unescape(h + s) == Unescape(s) && LiteralOk(h + s) == LiteralOk(s)
  {
    hide Unescape, LiteralOk, Encode, ParseHex4, FourHex, Crossed;
    var t := h + s;
    UnitAt(h, code, s);
    assert Advance(t[1..], 1) == h[2..] + s && Advance(t, 6) == s;
    ParseHexPrefix(h[2..], s);
    assert DecodeUnicode(t[1..]) == Escaped("", 5);
    UnescapeRound(t);
    OkBehind(h, s);
  }

  /** So is a first half with no `\u` behind it. */
  lemma HalfIsDropped(h: string, code: nat, s: string)
    requires SpellsUnit(h, code) && 0xD800 <= code <= 0xDBFF && !(At(s, 0) == '\\' && At(s, 1) == 'u')
    ensures Unescape(h + s) == Unescape(s) && LiteralOk(h + s) == LiteralOk(s)
  {
    hide Unescape, LiteralOk, Encode, ParseHex4, FourHex, Crossed;
    var t := h + s;
    UnitAt(h, code, s);
    assert Advance(t[1..], 1) == h[2..] + s && Advance(t, 6) == s && At(t[1..], 5) == At(s, 0) && At(t[1..], 6) == At(s, 1);
    ParseHexPrefix(h[2..], s);
    assert DecodeUnicode(t[1..]) == Escaped("", 5);
    UnescapeRound(t);
    OkBehind(h, s);
  }

  /** A first half with a unit behind it that is no second half: both are dropped. */
  lemma BadPairIsDropped(h: string, code: nat, h2: string, code2: nat, s: string)
    requires SpellsUnit(h, code) && 0xD800 <= code <= 0xDBFF
    requires SpellsUnit(h2, code2) && !(0xDC00 <= code2 <= 0xDFFF)
    ensures Unescape(h + h2 + s) == Unescape(s) && LiteralOk(h + h2 + s) == LiteralOk(s)
  {
    hide Unescape, LiteralOk, Encode, ParseHex4, FourHex, Crossed;
    var t := h + (h2 + s);
    assert t == h + h2 + s && t[6..] == h2 + s;
    UnitAt(h, code, h2 + s);
    UnitAt(h2, code2, s);
    CrossedOn(t, 6, 6);
    assert Advance(t[1..], 1) == h[2..] + (h2 + s) && Advance(t, 12) == s && At(t[1..], 5) == h2[0] && At(t[1..], 6) == h2[1];
    assert Advance(t[1..], 7) == h2[2..] + s;
    ParseHexPrefix(h[2..], h2 + s);
    ParseHexPrefix(h2[2..], s);
    assert DecodeUnicode(t[1..]) == Escaped("", 11);
    UnescapeRound(t);
    OkBehind(h + h2, s);
  }

  /** Any other byte behind a backslash stands for itself. */
  lemma OtherEscape(c: char, s: string)
    requires c != NUL && c !in "bfnrtu"
    ensures Unescape("\\" + [c] + s) == Decoded([c] + Unescape(s).text, Unescape(s).rest)
    ensures LiteralOk("\\" + [c] + s) == LiteralOk(s)
  {
    hide Unescape, LiteralOk, DecodeUnicode;
    var h := "\\" + [c];
    assert (h + s)[1..] == [c] + s && Advance(h + s, 2) == s && (h + s)[2..] == s;
    assert DecodeEscape([c] + s) == Escaped([c], 1) by {
      assert c != 'b' && c != 'f' && c != 'n' && c != 'r' && c != 't' && c != 'u';
    }
    UnescapeRound(h + s);
    CrossedStep(h + s, 2);
    CrossedNothing(s);
    OkBehind(h, s);
  }

  /** Two bytes, then the closing quote: the second pass steps over it, stays inside the
      text, and stops at the next one. */
  lemma QuoteOverrun()
    ensures var s := "\\u12\", \"b\"";
      NulFree(s) && !LiteralOk(s) && FirstInside(s) && SecondInside(s) && ScanEnd(s) == "\", \"b\"" && Unescape(s) == Decoded(" ", "\"b\"")
  {
    var s := "\\u12\", \"b\"";
    OverrunNulFree(s);
    OverrunFirst(s);
    OverrunSecond(s);
    hide Unescape, ScanEnd, LiteralOk, FirstInside, SecondInside, NulFree, ScanCount;
    PassesAgreeExactly(s);
    assert |"\", \"b\""| != |"\"b\""|;
  }

  lemma OverrunNulFree(s: string)
    requires s == "\\u12\", \"b\""
    ensures NulFree(s)
  {
  }

  lemma SecondOver(s: string)
    requires !AtEnd(s)
    ensures SecondInside(s) == (Round(s) <= |s| && SecondInside(s[Round(s)..]))
  {
    hide Round;
  }

  lemma SecondAtEnd(s: string)
    requires AtEnd(s)
    ensures SecondInside(s)
  {
  }

  lemma OverrunSecond(s: string)
    requires s == "\\u12\", \"b\""
    ensures SecondInside(s) && Unescape(s) == Decoded(" ", "\"b\"")
  {
    OverrunRound(s);
    hide Round, Wrote, DecodeEscape, Unescape, SecondInside;
    var t := s[6..];
    assert t == " \"b\"" && t[1..] == "\"b\"" && Advance(s, 6) == t && Advance(t, 1) == t[1..];
    PlainRound(t);
    UnescapeRound(s);
    UnescapeRound(t);
    EndsAt(t[1..]);
    SecondOver(s);
    SecondOver(t);
    SecondAtEnd(t[1..]);
  }

  lemma PlainRound(t: string)
    requires t != "" && t[0] != '\\'
    ensures Round(t) == 1 && Wrote(t) == [t[0]]
  {
  }

  lemma OverrunRound(s: string)
    requires s == "\\u12\", \"b\""
    ensures Round(s) == 6 && Wrote(s) == ""
  {
    assert s[1..] == "u12\", \"b\"" && Advance(s[1..], 1) == "12\", \"b\"";
    assert !FourHex("12\", \"b\"");
  }

  lemma OverrunFirst(s: string)
    requires s == "\\u12\", \"b\""
    ensures FirstInside(s) && ScanEnd(s) == "\", \"b\""
  {
    var t := s[2..];
    assert t == "12\", \"b\"" && t[1..] == "2\", \"b\"" && t[1..][1..] == "\", \"b\"";
    ScanOver(s);
    ScanOver(t);
    ScanOver(t[1..]);
    EndsAt(t[1..][1..]);
    hide FirstInside;
    FirstOver(s);
    FirstOver(t);
    FirstOver(t[1..]);
    FirstAtEnd(t[1..][1..]);
  }
}
