/**
 String literals: `print_string_ptr` escapes, `parse_string` unescapes in two
 passes (one counts, one writes).
 */
module JsonString {
  import opened CString
  import opened Utf8
  import opened Wrappers
  import opened Sequences

  // ----- printing -----

  function HexDigit(d: nat): char
    requires d < 16
  {
    if d < 10 then '0' + d as char else 'a' + (d - 10) as char
  }

  /** `strchr("\"\\\b\f\n\r\t", c)` for a byte that is not the terminator. */
  predicate ShortEscape(c: char) {
    c == '"' || c == '\\' || c == BACKSPACE || c == FORM_FEED || c == '\n' || c == '\r' || c == '\t'
  }

  function ShortLetter(c: char): char
    requires ShortEscape(c)
  {
    if c == BACKSPACE then 'b' else if c == FORM_FEED then 'f' else if c == '\n' then 'n'
    else if c == '\r' then 'r' else if c == '\t' then 't' else c
  }

  /** The bytes the printer writes for one byte of the string. */
  function EscapeChar(c: char): (e: string)
    ensures |e| == if ShortEscape(c) then 2 else if c < ' ' then 6 else 1
  {
    if c >= ' ' && c != '"' && c != '\\' then [c]
    else if ShortEscape(c) then ['\\', ShortLetter(c)]
    else "\\u00" + [HexDigit(c as nat / 16), HexDigit(c as nat % 16)]
  }

  /** The printed form of every byte: seven two-byte escapes, four digits for the other
      control bytes, and all else as it is. */
  lemma EscapeTable(c: char)
    requires c as int < 256
    ensures EscapeChar('"') == "\\\"" && EscapeChar('\\') == "\\\\" && EscapeChar('\n') == "\\n" && EscapeChar('\r') == "\\r"
    ensures EscapeChar('\t') == "\\t" && EscapeChar(8 as char) == "\\b" && EscapeChar(12 as char) == "\\f"
    ensures c >= ' ' && c != '"' && c != '\\' ==> EscapeChar(c) == [c]
    ensures c < ' ' && c !in "\n\r\t" && c as int != 8 && c as int != 12 ==>
      EscapeChar(c) == "\\u00" + [if c as int < 16 then '0' else '1', "0123456789abcdef"[c as int % 16]]
  {
  }

  function Escape(s: string): string {
    if s == "" then "" else EscapeChar(s[0]) + Escape(s[1..])
  }

  /** The printed literal. */
  function Quoted(s: string): string {
    "\"" + Escape(s) + "\""
  }

  /** The bytes that switch the printer from its copy-only path to its general path. */
  predicate NeedsEscape(c: char) {
    (c != NUL && c < ' ') || c == '"' || c == '\\'
  }

  lemma EscapeAppend(s: string, t: string)
    ensures Escape(s + t) == Escape(s) + Escape(t)
  {
    if s == "" {
      assert s + t == t;
    } else {
      assert (s + t)[1..] == s[1..] + t;
      EscapeAppend(s[1..], t);
    }
  }

  /** The copy-only path writes what the general path would. */
  lemma {:induction false} FastPathAgrees(s: string)
    requires NulFree(s)
    requires forall i | 0 <= i < |s| :: !NeedsEscape(s[i])
    ensures Escape(s) == s
  {
    if s != "" {
      assert s[0] != NUL;
      FastPathAgrees(s[1..]);
      assert s == [s[0]] + s[1..];
    }
  }

  // ----- parsing -----

  /** The first pass: how many bytes it counts up to the closing quote. */
  function ScanCount(s: string): nat
    decreases |s|
  {
    if At(s, 0) == '"' || At(s, 0) == NUL then 0
    else 1 + ScanCount(Advance(s, if s[0] == '\\' then 2 else 1))
  }

  /** Where the first pass stops. */
  function ScanEnd(s: string): (rest: string)
    decreases |s|
    ensures |rest| <= |s|
  {
    if At(s, 0) == '"' || At(s, 0) == NUL then s
    else ScanEnd(Advance(s, if s[0] == '\\' then 2 else 1))
  }

  /** The bytes one escape writes, and how many bytes it takes after the backslash. */
  datatype Escaped = Escaped(bytes: string, taken: nat)

  /** The `u` case; `p` points at the letter. */
  function DecodeUnicode(p: string): (e: Escaped)
    ensures e.taken == 5 || e.taken == 11
  {
    var uc := ParseHex4(Advance(p, 1));
    if 0xDC00 <= uc <= 0xDFFF || uc == 0 then Escaped("", 5)
    else if 0xD800 <= uc <= 0xDBFF then
      if At(p, 5) != '\\' || At(p, 6) != 'u' then Escaped("", 5)
      else
        var uc2 := ParseHex4(Advance(p, 7));
        if uc2 < 0xDC00 || uc2 > 0xDFFF then Escaped("", 11)
        else Escaped(Encode(JoinSurrogates(uc, uc2)), 11)
    else Escaped(Encode(uc), 5)
  }

  function DecodeEscape(p: string): (e: Escaped)
    ensures 1 <= e.taken
  {
    match At(p, 0)
    case 'b' => Escaped([BACKSPACE], 1)
    case 'f' => Escaped([FORM_FEED], 1)
    case 'n' => Escaped("\n", 1)
    case 'r' => Escaped("\r", 1)
    case 't' => Escaped("\t", 1)
    case 'u' => DecodeUnicode(p)
    case c => Escaped([c], 1)
  }

  datatype Decoded = Decoded(text: string, rest: string)

  /** The second pass, from just after the opening quote. */
  function Unescape(s: string): (d: Decoded)
    decreases |s|
    ensures |d.rest| <= |s|
    ensures At(d.rest, 0) == '"' || At(d.rest, 0) == NUL
  {
    if At(s, 0) == '"' || At(s, 0) == NUL then Decoded("", s)
    else if s[0] != '\\' then
      var d := Unescape(s[1..]);
      Decoded([s[0]] + d.text, d.rest)
    else
      var e := DecodeEscape(s[1..]);
      var d := Unescape(Advance(s, 1 + e.taken));
      Decoded(e.bytes + d.text, d.rest)
  }

  // ----- the two passes side by side -----

  /** How far one round of the second pass moves, and what it writes. */
  function Round(s: string): (n: nat)
    requires s != ""
    ensures 1 <= n
  {
    if s[0] != '\\' then 1 else 1 + DecodeEscape(s[1..]).taken
  }

  function Wrote(s: string): string
    requires s != ""
  {
    if s[0] != '\\' then [s[0]] else DecodeEscape(s[1..]).bytes
  }

  predicate AtEnd(s: string) {
    At(s, 0) == '"' || At(s, 0) == NUL
  }

  /** How the first pass gets over the next `n` bytes: it may stop before, arrive, or
      take the byte behind them together with the last of them, a backslash. */
  datatype Crossing = Stops | Arrives | Straddles

  function Crossed(s: string, n: nat): Crossing
    decreases n
  {
    if n == 0 then Arrives
    else if AtEnd(s) then Stops
    else if s[0] != '\\' then Crossed(s[1..], n - 1)
    else if n == 1 then Straddles
    else if At(s, 1) == NUL then Stops
    else Crossed(s[2..], n - 2)
  }

  /**
   The second pass stands at `s` and the first at `s[ahead..]`: whatever the second
   jumps over, the first gets over too, so neither reaches the closing quote alone. A
   single walk over the literal decides it.
   */
  predicate Together(s: string, ahead: nat)
    requires ahead <= 1
    decreases |s|
  {
    if AtEnd(s) then ahead == 0
    else
      match Crossed(s[ahead..], Round(s) - ahead)
      case Stops => false
      case Arrives => Together(Advance(s, Round(s)), 0)
      case Straddles => Together(Advance(s, Round(s)), 1)
  }

  /** The body of a literal on which the passes stay together. */
  predicate LiteralOk(s: string) {
    Together(s, 0)
  }

  lemma UnescapeRound(s: string)
    requires !AtEnd(s)
    ensures var d := Unescape(Advance(s, Round(s))); Unescape(s) == Decoded(Wrote(s) + d.text, d.rest)
  {
    hide DecodeEscape;
  }

  // Crossing, one step of the first pass at a time.

  lemma CrossedStep(s: string, n: nat)
    requires n > 0 && !AtEnd(s) && (s[0] != '\\' || (n >= 2 && At(s, 1) != NUL))
    ensures var i := if s[0] == '\\' then 2 else 1; i <= |s| && i <= n && Crossed(s, n) == Crossed(s[i..], n - i)
  {
  }

  lemma CrossedOpens(s: string, n: nat)
    requires n > 0 && !Crossed(s, n).Stops?
    ensures !AtEnd(s) && (s[0] != '\\' || (n == 1 && Crossed(s, n).Straddles?) || (n >= 2 && At(s, 1) != NUL))
  {
  }

  lemma CrossedNothing(s: string)
    ensures Crossed(s, 0).Arrives? && s[0..] == s
  {
  }

  lemma ScanOver(s: string)
    requires !AtEnd(s) && (s[0] == '\\' ==> |s| >= 2)
    ensures var i := if s[0] == '\\' then 2 else 1; ScanEnd(s) == ScanEnd(s[i..]) && ScanCount(s) == 1 + ScanCount(s[i..])
  {
  }

  /** What the first pass has seen and counted after `n` bytes: at least every other one. */
  lemma {:induction false} CrossedIs(s: string, n: nat)
    ensures Crossed(s, n).Arrives? ==>
      n <= |s| && ScanEnd(s) == ScanEnd(s[n..]) && ScanCount(s) >= (n + 1) / 2 + ScanCount(s[n..])
    ensures Crossed(s, n).Straddles? ==>
      && 1 <= n <= |s| && s[n - 1] == '\\'
      && (n < |s| ==> ScanEnd(s) == ScanEnd(s[n + 1..]) && ScanCount(s) >= (n + 1) / 2 + ScanCount(s[n + 1..]))
    decreases n
  {
    hide Crossed, ScanEnd, ScanCount;
    if n == 0 {
      CrossedNothing(s);
    } else if !Crossed(s, n).Stops? {
      CrossedOpens(s, n);
      if s[0] != '\\' || n >= 2 {
        var i := if s[0] == '\\' then 2 else 1;
        CrossedStep(s, n);
        ScanOver(s);
        CrossedIs(s[i..], n - i);
        SliceTwice(s, i, n - i);
      } else if |s| >= 2 {
        ScanOver(s);
      }
    }
  }

  /** Four digits are crossed one by one, so the first pass is level again behind them. */
  lemma HexCrossed(s: string, i: nat, n: nat)
    requires i <= n <= 4 && |s| >= 4 && FourHex(s)
    ensures Crossed(s[i..], n - i).Arrives?
    decreases n - i
  {
    assert forall k: nat | k < 4 :: At(s, k) == s[k] && HexValue(s[k]) >= 0;
    if i < n {
      assert s[i..][1..] == s[i + 1..];
      HexCrossed(s, i + 1, n);
    }
  }

  lemma {:induction false} CrossedOn(s: string, n: nat, k: nat)
    requires Crossed(s, n).Arrives?
    ensures n <= |s| && Crossed(s, n + k) == Crossed(s[n..], k)
    decreases n
  {
    hide Crossed;
    if n > 0 {
      CrossedOpens(s, n);
      CrossedStep(s, n);
      CrossedStep(s, n + k);
      var i := if s[0] == '\\' then 2 else 1;
      CrossedOn(s[i..], n - i, k);
      SliceTwice(s, i, n - i);
    } else {
      assert s[0..] == s;
    }
  }

  /** An escape of four digits. */
  lemma UnitCrossed(s: string)
    requires |s| >= 2 && s[0] == '\\' && s[1] == 'u' && FourHex(s[2..])
    ensures |s| >= 6 && Crossed(s, 6).Arrives?
  {
    hide FourHex;
    FourLong(s[2..]);
    HexCrossed(s[2..], 0, 4);
    assert s[2..][0..] == s[2..];
  }

  lemma FourLong(s: string)
    requires FourHex(s)
    ensures |s| >= 4
  {
    assert At(s, 3) != NUL;
  }

  /** A round that the first pass follows. */
  lemma OkBehind(h: string, s: string)
    requires !AtEnd(h + s) && Round(h + s) == |h| && Crossed(h + s, |h|).Arrives?
    ensures LiteralOk(h + s) == LiteralOk(s)
  {
    hide Round, Crossed;
    assert (h + s)[0..] == h + s && Advance(h + s, |h|) == s;
  }

  /** A round writes no more bytes than the first pass counts on the way, with the one
      it may be ahead. */
  lemma WroteFits(s: string, ahead: nat)
    requires ahead <= 1 && !AtEnd(s) && !Crossed(s[ahead..], Round(s) - ahead).Stops?
    ensures var n := Round(s) - ahead;
      |Wrote(s)| + (if Crossed(s[ahead..], n).Straddles? then 1 else 0) <= (n + 1) / 2 + ahead
  {
    hide DecodeEscape, Crossed;
    var n := Round(s) - ahead;
    CrossedIs(s[ahead..], n);
    SliceTwice(s, ahead, n);
    if s[0] == '\\' {
      EscapeFits(s);
    }
    if ahead == 0 && n <= 2 {
      assert s[0..] == s;
      CrossedOpens(s, n);
      CrossedStep(s, n);
      CrossedNothing(s[n..]);
    }
  }

  lemma EscapeFits(s: string)
    requires s != "" && s[0] == '\\'
    ensures var e := DecodeEscape(s[1..]);
      || (e.taken == 1 && |e.bytes| == 1)
      || (e.taken == 5 && |e.bytes| <= 3 && (e.bytes != "" ==> |s| >= 6 && s[5] != '\\'))
      || (e.taken == 11 && |e.bytes| <= 4)
  {
    hide ParseHex4, FourHex, JoinSurrogates;
    if At(s[1..], 0) == 'u' && DecodeUnicode(s[1..]).bytes != "" {
      LastDigit(s);
    }
  }

  lemma LastDigit(s: string)
    requires s != "" && ParseHex4(Advance(s[1..], 1)) != 0
    ensures |s| >= 6 && s[5] != '\\'
  {
    assert At(Advance(s[1..], 1), 3) == At(s, 5);
  }

  /**
   While the passes are together both stop at the same byte, and the second writes no
   more bytes than the first counted, so the allocation holds them.
   */
  lemma {:induction false} TogetherFits(s: string, ahead: nat)
    requires ahead <= 1 && ahead <= |s| && Together(s, ahead)
    ensures Unescape(s).rest == ScanEnd(s[ahead..])
    ensures |Unescape(s).text| <= ScanCount(s[ahead..]) + ahead
    decreases |s|
  {
    hide DecodeEscape, Wrote, Round, Crossed, ScanCount, ScanEnd, Unescape;
    if AtEnd(s) {
      EndsAt(s);
    } else {
      var k := Round(s);
      var n := k - ahead;
      UnescapeRound(s);
      CrossedIs(s[ahead..], n);
      WroteFits(s, ahead);
      SliceTwice(s, ahead, n);
      if Crossed(s[ahead..], n).Arrives? {
        TogetherFits(s[k..], 0);
      } else {
        NotAtEnd(s, k);
        TogetherFits(s[k..], 1);
      }
    }
  }

  lemma EndsAt(s: string)
    requires AtEnd(s)
    ensures Unescape(s) == Decoded("", s) && ScanEnd(s) == s && ScanCount(s) == 0
  {
  }

  lemma NotAtEnd(s: string, k: nat)
    requires k <= |s| && Together(s[k..], 1)
    ensures k < |s| && s[k..][1..] == s[k + 1..]
  {
  }

  lemma PassesAgree(s: string)
    requires LiteralOk(s)
    ensures Unescape(s).rest == ScanEnd(s)
    ensures |Unescape(s).text| <= ScanCount(s)
  {
    hide Unescape, Together;
    TogetherFits(s, 0);
  }

  /** The passes on their own never step over the terminator. */
  predicate FirstInside(s: string)
    decreases |s|
  {
    AtEnd(s) || (if s[0] != '\\' then FirstInside(s[1..]) else At(s, 1) != NUL && FirstInside(s[2..]))
  }

  predicate SecondInside(s: string)
    decreases |s|
  {
    AtEnd(s) || (Round(s) <= |s| && SecondInside(s[Round(s)..]))
  }

  lemma {:induction false} CrossedInside(s: string, n: nat)
    requires NulFree(s)
    ensures Crossed(s, n).Arrives? ==> n <= |s| && FirstInside(s) == FirstInside(s[n..])
    ensures Crossed(s, n).Straddles? ==> n <= |s| && FirstInside(s) == (n < |s| && FirstInside(s[n + 1..]))
    ensures Crossed(s, n).Stops? ==> FirstInside(s) ==> |s| - n < |ScanEnd(s)|
    decreases n
  {
    hide Crossed, FirstInside, ScanEnd, AtEnd;
    if n == 0 {
      CrossedNothing(s);
    } else {
      CrossedCases(s, n);
      if !AtEnd(s) && (s[0] != '\\' || (n >= 2 && At(s, 1) != NUL)) {
        var i := if s[0] == '\\' then 2 else 1;
        CrossedStep(s, n);
        ScanOver(s);
        FirstOver(s);
        CrossedInside(s[i..], n - i);
        SliceTwice(s, i, n - i);
      } else if !AtEnd(s) {
        FirstOver(s);
      }
    }
  }

  lemma CrossedCases(s: string, n: nat)
    requires n > 0
    ensures AtEnd(s) ==> Crossed(s, n).Stops? && ScanEnd(s) == s
    ensures !AtEnd(s) ==> s != ""
    ensures !AtEnd(s) && s[0] == '\\' && n == 1 ==> Crossed(s, n).Straddles?
    ensures !AtEnd(s) && s[0] == '\\' && n >= 2 && At(s, 1) == NUL ==> Crossed(s, n).Stops?
  {
  }

  lemma FirstOver(s: string)
    requires !AtEnd(s)
    ensures s[0] != '\\' ==> FirstInside(s) == FirstInside(s[1..])
    ensures s[0] == '\\' ==> FirstInside(s) == (At(s, 1) != NUL && FirstInside(s[2..]))
  {
  }

  lemma {:induction false} ScanInside(s: string)
    ensures |ScanEnd(s)| <= |s| && |Unescape(s).rest| <= |s|
  {
  }

  lemma {:induction false} TogetherExactly(s: string, ahead: nat)
    requires ahead <= 1 && ahead <= |s| && NulFree(s)
    ensures Together(s, ahead) <==> FirstInside(s[ahead..]) && SecondInside(s) && Unescape(s).rest == ScanEnd(s[ahead..])
    decreases |s|
  {
    hide DecodeEscape, Wrote, Round, Crossed, ScanCount, ScanEnd, Unescape, FirstInside;
    if AtEnd(s) {
      EndsAt(s);
      ScanInside(s[ahead..]);
      FirstAtEnd(s);
    } else {
      var k := Round(s);
      var n := k - ahead;
      UnescapeRound(s);
      CrossedIs(s[ahead..], n);
      CrossedInside(s[ahead..], n);
      SliceTwice(s, ahead, n);
      if k <= |s| {
        ScanInside(s[k..]);
        match Crossed(s[ahead..], n)
        case Stops =>
        case Arrives => TogetherExactly(s[k..], 0);
        case Straddles => if k < |s| {
          assert s[k..][1..] == s[k + 1..];
          TogetherExactly(s[k..], 1);
        }
      }
    }
  }

  lemma FirstAtEnd(s: string)
    requires AtEnd(s)
    ensures FirstInside(s)
  {
  }

  /**
   The literals on which both passes stay inside the text and the second stops where
   the first did are exactly those found by the walk; and there what is written fits.
   */
  lemma PassesAgreeExactly(s: string)
    requires NulFree(s)
    ensures LiteralOk(s) <==> FirstInside(s) && SecondInside(s) && Unescape(s).rest == ScanEnd(s)
    ensures LiteralOk(s) ==> |Unescape(s).text| <= ScanCount(s)
  {
    hide Unescape, Together;
    TogetherExactly(s, 0);
    if LiteralOk(s) {
      PassesAgree(s);
    }
  }

  // ----- round trip -----

  /** The `\u00xx` form of a control byte reads back as that byte. */
  lemma ControlHex(c: char, s: string)
    requires NUL < c < ' '
    ensures var h := "00" + [HexDigit(c as nat / 16), HexDigit(c as nat % 16)] + s;
      FourHex(h) && ParseHex4(h) == c as nat
  {
  }

  lemma UnescapeControl(c: char, s: string)
    requires NUL < c < ' ' && !ShortEscape(c)
    ensures DecodeEscape((EscapeChar(c) + s)[1..]) == Escaped([c], 5)
  {
    var p := (EscapeChar(c) + s)[1..];
    ControlHex(c, s);
    assert Advance(p, 1) == "00" + [HexDigit(c as nat / 16), HexDigit(c as nat % 16)] + s;
  }

  lemma UnescapePair(c: char, s: string)
    requires ShortEscape(c)
    ensures Unescape("\\" + [ShortLetter(c)] + s) == Decoded([c] + Unescape(s).text, Unescape(s).rest)
    ensures LiteralOk("\\" + [ShortLetter(c)] + s) == LiteralOk(s)
  {
    hide DecodeUnicode, FourHex;
    var t := "\\" + [ShortLetter(c)] + s;
    assert t[2..] == s == Advance(t, 2);
    assert DecodeEscape(t[1..]) == Escaped([c], 1);
  }

  lemma UnescapePlain(c: char, s: string)
    requires c != NUL && c != '"' && c != '\\'
    ensures Unescape([c] + s) == Decoded([c] + Unescape(s).text, Unescape(s).rest)
    ensures LiteralOk([c] + s) == LiteralOk(s)
  {
    hide DecodeEscape, FourHex;
    assert ([c] + s)[1..] == s;
  }

  lemma UnescapeSix(c: char, s: string)
    requires NUL < c < ' ' && !ShortEscape(c)
    ensures Unescape(EscapeChar(c) + s) == Decoded([c] + Unescape(s).text, Unescape(s).rest)
    ensures LiteralOk(EscapeChar(c) + s) == LiteralOk(s)
  {
    hide DecodeEscape, FourHex;
    var t := EscapeChar(c) + s;
    assert t[6..] == s == Advance(t, 6);
    UnescapeControl(c, s);
    ControlHex(c, s);
    assert t[2..] == "00" + [HexDigit(c as nat / 16), HexDigit(c as nat % 16)] + s;
    UnitCrossed(t);
    OkBehind(EscapeChar(c), s);
    assert Advance(t, 2) == "00" + [HexDigit(c as nat / 16), HexDigit(c as nat % 16)] + s;
  }

  /** Unescaping one escaped byte gives it back and moves past it. */
  lemma UnescapeChar(c: char, s: string)
    requires c != NUL
    ensures Unescape(EscapeChar(c) + s) == Decoded([c] + Unescape(s).text, Unescape(s).rest)
    ensures LiteralOk(EscapeChar(c) + s) == LiteralOk(s)
  {
    hide Unescape, LiteralOk;
    if ShortEscape(c) {
      UnescapePair(c, s);
      assert EscapeChar(c) == "\\" + [ShortLetter(c)];
    } else if c < ' ' {
      UnescapeSix(c, s);
    } else {
      UnescapePlain(c, s);
    }
  }

  /** Reading back a printed literal: the string, the closing quote, and what follows it. */
  lemma {:induction false} UnescapeEscape(s: string, tail: string)
    requires NulFree(s) && At(tail, 0) == '"'
    ensures Unescape(Escape(s) + tail) == Decoded(s, tail)
    ensures LiteralOk(Escape(s) + tail)
  {
    if s == "" {
      assert Escape(s) + tail == tail;
    } else {
      hide Unescape, LiteralOk, EscapeChar;
      var t := Escape(s[1..]) + tail;
      UnescapeEscape(s[1..], tail);
      UnescapeChar(s[0], t);
      EscapeSplit(s, tail);
      assert [s[0]] + s[1..] == s;
    }
  }

  lemma EscapeSplit(s: string, tail: string)
    requires s != ""
    ensures Escape(s) + tail == EscapeChar(s[0]) + (Escape(s[1..]) + tail)
  {
  }

  // ----- what an escape means -----

  /** `h` is `\u` with four hexadecimal digits that spell `code`. */
  predicate SpellsUnit(h: string, code: nat) {
    |h| == 6 && h[0] == '\\' && h[1] == 'u' && FourHex(h[2..]) && ParseHex4(h[2..]) == code
  }

  /** Section 7 of RFC 8259: an escape, or a surrogate pair of escapes, for the scalar `uc`. */
  predicate Spells(h: string, uc: nat)
    requires uc <= 0x10ffff
  {
    if uc < 0x10000 then SpellsUnit(h, uc)
    else |h| == 12 && SpellsUnit(h[..6], HighSurrogate(uc)) && SpellsUnit(h[6..], LowSurrogate(uc))
  }

  lemma ParseHexPrefix(h: string, s: string)
    requires |h| == 4
    ensures ParseHex4(h + s) == ParseHex4(h) && FourHex(h + s) == FourHex(h)
  {
    assert forall k: nat | k < 4 :: At(h + s, k) == At(h, k);
  }

  lemma UnitDecodes(h: string, uc: nat, s: string)
    requires Scalar(uc) && 0 < uc < 0x10000 && SpellsUnit(h, uc)
    ensures DecodeUnicode((h + s)[1..]) == Escaped(Encode(uc), 5)
  {
    hide ParseHex4, FourHex, Encode;
    var p := (h + s)[1..];
    assert Advance(p, 1) == h[2..] + s;
    ParseHexPrefix(h[2..], s);
  }

  lemma PairDecodes(h1: string, h2: string, uc: nat, s: string)
    requires 0x10000 <= uc <= 0x10ffff && SpellsUnit(h1, HighSurrogate(uc)) && SpellsUnit(h2, LowSurrogate(uc))
    ensures DecodeUnicode((h1 + (h2 + s))[1..]) == Escaped(Encode(uc), 11)
  {
    hide ParseHex4, FourHex, Encode, JoinSurrogates, HighSurrogate, LowSurrogate;
    JoinInvertsPair(uc);
    var p := (h1 + (h2 + s))[1..];
    assert Advance(p, 1) == h1[2..] + (h2 + s);
    ParseHexPrefix(h1[2..], h2 + s);
    assert At(p, 5) == h2[0] && At(p, 6) == h2[1];
    assert Advance(p, 7) == h2[2..] + s;
    ParseHexPrefix(h2[2..], s);
  }

  /** Every spelling of a scalar from 1 to 0x10FFFF makes the decoder write that scalar's bytes. */
  lemma SpellingDecodes(h: string, uc: nat, s: string)
    requires Scalar(uc) && 0 < uc && Spells(h, uc)
    ensures DecodeUnicode((h + s)[1..]) == Escaped(Encode(uc), |h| - 1)
  {
    hide DecodeUnicode, Encode;
    if uc < 0x10000 {
      UnitDecodes(h, uc, s);
    } else {
      assert h + s == h[..6] + (h[6..] + s);
      PairDecodes(h[..6], h[6..], uc, s);
    }
  }

  /** Such an escape contributes exactly the scalar's UTF-8 form, and decoding goes on behind it. */
  lemma EscapeDecodesToUtf8(h: string, uc: nat, s: string)
    requires Scalar(uc) && 0 < uc && Spells(h, uc)
    ensures Unescape(h + s) == Decoded(Encode(uc) + Unescape(s).text, Unescape(s).rest)
    ensures Decode(Unescape(h + s).text) == Some((uc, |Encode(uc)|))
  {
    hide DecodeUnicode, Encode, Decode, Unescape;
    var t := h + s;
    SpellingDecodes(h, uc, s);
    assert t[0] == '\\' && t[1..][0] == 'u' by {
      assert uc >= 0x10000 ==> h[..6][0] == h[0] && h[..6][1] == h[1];
    }
    assert Advance(t, |h|) == s;
    UnescapeRound(t);
    EncodeIsUtf8(uc, Unescape(s).text);
  }
}
