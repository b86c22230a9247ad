/**
 Minifying keeps the meaning of every text the parser accepts to its end, not only
 of prints: white space and nothing else is dropped from it, and never between two
 bytes that would then be read together.
 */
module MinifyMeaning {
  import opened CString
  import opened Sequences
  import opened Utf8
  import opened JsonValue
  import opened JsonString
  import opened JsonNumber
  import opened JsonParse
  import opened Minify
  import opened Numerals

  // ----- what may follow a value -----

  predicate Delimits(c: char) {
    c == NUL || c == ',' || c == ']' || c == '}'
  }

  /** The next byte that is not blank ends a value. */
  predicate Follows(rest: string) {
    Delimits(At(Skip(rest), 0))
  }

  /** A byte that cannot be read as part of a number. */
  predicate Stops(c: char) {
    !Digit(c) && c != '.' && c != 'e' && c != 'E' && c != '+' && c != '-'
  }

  lemma {:induction false} FollowStops(rest: string)
    requires Follows(rest)
    ensures Stops(At(Minified(rest), 0))
  {
    if rest != "" && White(rest[0]) {
      FollowStops(rest[1..]);
    }
  }

  /** Skipping blanks and minifying commute in front of anything but a comment. */
  lemma {:induction false} SkipKeeps(s: string)
    requires Closed(s) && At(Skip(s), 0) != '/'
    ensures Closed(Skip(s)) && Skip(Minified(s)) == Minified(Skip(s))
  {
    if s != "" && Blank(s[0]) {
      SkipKeeps(s[1..]);
      assert !White(s[0]) ==> Minified(s) == [s[0]] + Minified(s[1..]);
    } else {
      assert s != "" && s[0] == '"' ==> At(s, 1 + LiteralSpan(s[1..])) == '"';
    }
  }

  /** A byte that stands for itself in front of a closed text. */
  lemma PlainFront(s: string)
    requires s != "" && Plain(s[0])
    ensures Closed(s) == Closed(s[1..]) && Minified(s) == [s[0]] + Minified(s[1..])
  {
  }

  // ----- numbers -----

  /** `t` with its tail `rest` replaced by `y`. */
  function Swap(t: string, rest: string, y: string): string
    requires |rest| <= |t|
  {
    t[..|t| - |rest|] + y
  }

  /** `rest` is the tail of `t`, and what stands before it is plain. */
  predicate Tail(t: string, rest: string) {
    |rest| <= |t| && t[|t| - |rest|..] == rest && forall i | 0 <= i < |t| - |rest| :: Plain(t[i])
  }

  lemma TailStep(t: string, rest: string)
    requires t != "" && Tail(t[1..], rest) && Plain(t[0])
    ensures Tail(t, rest)
  {
    assert forall i | 0 < i < |t| - |rest| :: t[i] == t[1..][i - 1];
  }

  lemma TailTwice(t: string, u: string, rest: string)
    requires Tail(t, u) && Tail(u, rest)
    ensures Tail(t, rest)
  {
    assert forall i | 0 <= i < |u| :: t[|t| - |u| + i] == u[i];
  }

  lemma TailSelf(t: string)
    ensures Tail(t, t)
  {
    assert t[0..] == t;
  }

  lemma {:induction false} ReadDigitsTail(n: nat, s: string)
    ensures Tail(s, ReadDigits(n, s).rest)
    decreases |s|
  {
    hide Tail;
    TailSelf(s);
    if s != "" && Digit(s[0]) {
      ReadDigitsTail(n * 10 + DigitValue(s[0]), s[1..]);
      TailStep(s, ReadDigits(n, s).rest);
    }
  }

  /** Reading digits up to or before the tail does not depend on the tail. */
  lemma {:induction false} ReadDigitsSwap(n: nat, s: string, rest: string, y: string)
    requires |rest| <= |ReadDigits(n, s).rest| && Tail(s, rest) && Stops(At(y, 0))
    ensures var r, r' := ReadDigits(n, s), ReadDigits(n, Swap(s, rest, y));
      r'.mantissa == r.mantissa && r'.count == r.count && r'.rest == Swap(r.rest, rest, y)
    decreases |s|
  {
    var s' := Swap(s, rest, y);
    if s != "" && Digit(s[0]) {
      assert s'[0] == s[0] && s'[1..] == Swap(s[1..], rest, y);
      ReadDigitsSwap(n * 10 + DigitValue(s[0]), s[1..], rest, y);
    }
  }

  lemma OneTail(s: string)
    requires s != "" && Plain(s[0])
    ensures Tail(s, s[1..])
  {
    hide Tail;
    TailSelf(s[1..]);
    TailStep(s, s[1..]);
  }

  lemma WholeTail(s: string)
    ensures Tail(s, WholePart(s).rest)
  {
    hide Tail;
    TailSelf(s);
    ReadDigitsTail(0, s);
  }

  lemma FractionTail(n: nat, s: string)
    ensures Tail(s, Fraction(n, s).rest)
  {
    hide Tail;
    TailSelf(s);
    if At(s, 0) == '.' && Digit(At(s, 1)) {
      ReadDigitsTail(n, s[1..]);
      TailStep(s, Fraction(n, s).rest);
    }
  }

  /** Where the digits of an exponent start. */
  function AfterMark(s: string): string
    requires At(s, 0) == 'e' || At(s, 0) == 'E'
  {
    var t := s[1..];
    if At(t, 0) == '+' || At(t, 0) == '-' then t[1..] else t
  }

  lemma ExponentRest(s: string)
    ensures if At(s, 0) == 'e' || At(s, 0) == 'E' then Exponent(s).1 == ReadDigits(0, AfterMark(s)).rest
            else Exponent(s).1 == s
  {
    hide ReadDigits;
  }

  lemma ExponentTail(s: string)
    ensures Tail(s, Exponent(s).1)
  {
    hide Tail, Exponent, ReadDigits;
    TailSelf(s);
    ExponentRest(s);
    if At(s, 0) == 'e' || At(s, 0) == 'E' {
      var t, u := s[1..], AfterMark(s);
      ReadDigitsTail(0, u);
      if u != t {
        TailStep(t, ReadDigits(0, u).rest);
      }
      TailStep(s, ReadDigits(0, u).rest);
    }
  }

  /** The four parts of a number and where each of them ends. */
  lemma NumberParts(s: string)
    ensures var a := AfterSign(s); var z := AfterZero(a); var w := WholePart(z);
      var f := Fraction(w.mantissa, w.rest); var rest := ParseNumber(s).rest;
      Tail(s, a) && Tail(a, z) && Tail(z, w.rest) && Tail(w.rest, f.rest) && Tail(f.rest, rest)
  {
    hide Tail;
    var a := AfterSign(s);
    var z := AfterZero(a);
    TailSelf(s);
    TailSelf(a);
    if a != s {
      OneTail(s);
    }
    if z != a {
      OneTail(a);
    }
    var w := WholePart(z);
    WholeTail(z);
    FractionTail(w.mantissa, w.rest);
    ExponentTail(Fraction(w.mantissa, w.rest).rest);
  }

  lemma WholeSwap(s: string, rest: string, y: string)
    requires Tail(s, rest) && |rest| <= |WholePart(s).rest| && Stops(At(y, 0))
    ensures var r, r' := WholePart(s), WholePart(Swap(s, rest, y));
      r'.mantissa == r.mantissa && r'.rest == Swap(r.rest, rest, y)
  {
    if '1' <= At(s, 0) <= '9' {
      ReadDigitsSwap(0, s, rest, y);
    }
  }

  lemma SwapFront(s: string, rest: string, y: string)
    requires |rest| < |s|
    ensures Swap(s, rest, y) != "" && Swap(s, rest, y)[0] == s[0] && Swap(s, rest, y)[1..] == Swap(s[1..], rest, y)
  {
  }

  lemma TailDrop(s: string, rest: string)
    requires Tail(s, rest) && |rest| < |s|
    ensures Tail(s[1..], rest)
  {
    assert forall i | 0 <= i < |s| - 1 - |rest| :: s[1..][i] == s[i + 1];
  }

  lemma NoFraction(n: nat, s: string, rest: string, y: string)
    requires |rest| <= |s| && Stops(At(y, 0)) && Fraction(n, s) == Run(n, 0, s) && !(At(s, 0) == '.' && Digit(At(s, 1)))
    ensures Fraction(n, Swap(s, rest, y)) == Run(n, 0, Swap(s, rest, y))
  {
  }

  lemma FractionSwap(n: nat, s: string, rest: string, y: string)
    requires Tail(s, rest) && |rest| <= |Fraction(n, s).rest| && Stops(At(y, 0))
    ensures var r, r' := Fraction(n, s), Fraction(n, Swap(s, rest, y));
      r'.mantissa == r.mantissa && r'.count == r.count && r'.rest == Swap(r.rest, rest, y)
  {
    if At(s, 0) == '.' && Digit(At(s, 1)) {
      hide Tail, Swap, ReadDigits, Stops;
      TailDrop(s, rest);
      ReadDigitsSwap(n, s[1..], rest, y);
      PointSwap(n, s, rest, y);
    } else {
      hide Tail, Swap, Stops;
      NoFraction(n, s, rest, y);
    }
  }

  lemma PointSwap(n: nat, s: string, rest: string, y: string)
    requires At(s, 0) == '.' && Digit(At(s, 1)) && |rest| < |s| && Stops(At(y, 0)) && |rest| <= |ReadDigits(n, s[1..]).rest|
    ensures var s' := Swap(s, rest, y);
      At(s', 0) == '.' && Digit(At(s', 1)) && s'[1..] == Swap(s[1..], rest, y)
  {
    assert |rest| < |s| - 1;
  }

  /** The digits of an exponent, up to the tail. */
  lemma ScaleSwap(u: string, rest: string, y: string)
    requires ReadDigits(0, u).rest == rest && Stops(At(y, 0))
    ensures |rest| <= |u| && ReadDigits(0, Swap(u, rest, y)).mantissa == ReadDigits(0, u).mantissa
    ensures ReadDigits(0, Swap(u, rest, y)).rest == y
  {
    ReadDigitsTail(0, u);
    ReadDigitsSwap(0, u, rest, y);
    assert Swap(rest, rest, y) == y;
  }

  /** An exponent by its sign and its digits. */
  lemma ExponentOf(s: string)
    requires At(s, 0) == 'e' || At(s, 0) == 'E'
    ensures var t := s[1..];
      if At(t, 0) == '+' then Exponent(s) == (ReadDigits(0, t[1..]).mantissa, ReadDigits(0, t[1..]).rest)
      else if At(t, 0) == '-' then Exponent(s) == (-(ReadDigits(0, t[1..]).mantissa as int), ReadDigits(0, t[1..]).rest)
      else Exponent(s) == (ReadDigits(0, t).mantissa, ReadDigits(0, t).rest)
  {
    hide ReadDigits;
  }

  lemma ExponentSwap(s: string, y: string)
    requires Tail(s, Exponent(s).1) && Stops(At(y, 0))
    ensures Exponent(Swap(s, Exponent(s).1, y)) == (Exponent(s).0, y)
  {
    if At(s, 0) == 'e' || At(s, 0) == 'E' {
      ExponentDigits(s, y);
    } else {
      assert Swap(s, s, y) == y;
    }
  }

  lemma ExponentDigits(s: string, y: string)
    requires Stops(At(y, 0)) && (At(s, 0) == 'e' || At(s, 0) == 'E') && |Exponent(s).1| <= |s|
    ensures Exponent(Swap(s, Exponent(s).1, y)) == (Exponent(s).0, y)
  {
    hide Exponent, ReadDigits, Swap, Stops;
    var rest, t := Exponent(s).1, s[1..];
    var signed := At(t, 0) == '+' || At(t, 0) == '-';
    ExponentOf(s);
    ScaleSwap(if signed then t[1..] else t, rest, y);
    SwapFront(s, rest, y);
    ExponentOf(Swap(s, rest, y));
    if signed {
      SwapFront(t, rest, y);
    } else {
      SwapSecond(t, rest, y);
    }
  }

  lemma SwapSecond(t: string, rest: string, y: string)
    requires |rest| <= |t| && Stops(At(y, 0)) && At(t, 0) != '+' && At(t, 0) != '-'
    ensures At(Swap(t, rest, y), 0) != '+' && At(Swap(t, rest, y), 0) != '-'
  {
  }

  lemma SignSwap(s: string, rest: string, y: string)
    requires Tail(s, rest) && |rest| <= |AfterSign(s)| && Stops(At(y, 0))
    ensures AfterSign(Swap(s, rest, y)) == Swap(AfterSign(s), rest, y)
    ensures (At(Swap(s, rest, y), 0) == '-') == (At(s, 0) == '-')
  {
  }

  lemma ZeroSwap(s: string, rest: string, y: string)
    requires Tail(s, rest) && |rest| <= |AfterZero(s)| && Stops(At(y, 0))
    ensures AfterZero(Swap(s, rest, y)) == Swap(AfterZero(s), rest, y)
  {
  }

  /** A number reads the same in front of any text that stops it. */
  lemma NumberSwap(s: string, y: string)
    requires Stops(At(y, 0))
    ensures var p := ParseNumber(s);
      Tail(s, p.rest) && ParseNumber(Swap(s, p.rest, y)) == Parsed(p.value, y)
  {
    hide Tail, WholePart, Fraction, Exponent, AfterSign, AfterZero, Swap;
    NumberParts(s);
    var rest := ParseNumber(s).rest;
    var a := AfterSign(s);
    var z := AfterZero(a);
    var w := WholePart(z);
    var f := Fraction(w.mantissa, w.rest);
    TailTwice(w.rest, f.rest, rest);
    TailTwice(z, w.rest, rest);
    TailTwice(a, z, rest);
    TailTwice(s, a, rest);
    TailLengths(s, a, z, w.rest, f.rest, rest);
    SignSwap(s, rest, y);
    ZeroSwap(a, rest, y);
    WholeSwap(z, rest, y);
    FractionSwap(w.mantissa, w.rest, rest, y);
    ExponentSwap(f.rest, y);
  }

  lemma TailLengths(s: string, a: string, z: string, w: string, f: string, rest: string)
    requires Tail(s, a) && Tail(a, z) && Tail(z, w) && Tail(w, f) && Tail(f, rest)
    ensures |rest| <= |f| <= |w| <= |z| <= |a| <= |s|
  {
  }

  /** A number followed by blanks and a delimiter, minified. */
  lemma NumberKeeps(s: string)
    requires Closed(s) && (At(s, 0) == '-' || Digit(At(s, 0))) && Follows(ParseNumber(s).rest)
    ensures var p := ParseNumber(s); Closed(p.rest) && ParseNumber(Minified(s)) == Parsed(p.value, Minified(p.rest))
  {
    hide ParseNumber, Minified, Closed, Follows;
    var rest := ParseNumber(s).rest;
    FollowStops(rest);
    NumberSwap(s, Minified(rest));
    var pre := s[..|s| - |rest|];
    assert s == pre + rest;
    MinifyPlain(pre, rest);
  }

  // ----- literals -----

  /** The parser and the minifier see the same end of a closed literal. */
  lemma {:induction false} SpanIsScan(t: string)
    requires At(t, LiteralSpan(t)) == '"'
    ensures ScanEnd(t) == t[LiteralSpan(t)..]
    decreases |t|
  {
    if t[0] == '"' {
    } else if t[0] == '\\' {
      if |t| >= 2 {
        SpanIsScan(t[2..]);
      }
    } else {
      SpanIsScan(t[1..]);
    }
  }

  /** What the first pass gets over, the minifier copies. */
  lemma {:induction false} CrossedSpan(s: string, n: nat)
    ensures Crossed(s, n).Arrives? ==> n <= |s| && LiteralSpan(s) == n + LiteralSpan(s[n..])
    ensures Crossed(s, n).Straddles? ==> n <= |s| && (n < |s| ==> LiteralSpan(s) == n + 1 + LiteralSpan(s[n + 1..]))
    decreases n
  {
    hide Crossed, LiteralSpan;
    if n == 0 {
      CrossedNothing(s);
    } else if !Crossed(s, n).Stops? {
      CrossedOpens(s, n);
      SpanOver(s);
      if s[0] != '\\' || n >= 2 {
        var i := if s[0] == '\\' then 2 else 1;
        CrossedStep(s, n);
        CrossedSpan(s[i..], n - i);
        SliceTwice(s, i, n - i);
      }
    }
  }

  lemma SpanOver(s: string)
    requires !AtEnd(s)
    ensures s[0] != '\\' ==> LiteralSpan(s) == 1 + LiteralSpan(s[1..])
    ensures s[0] == '\\' && |s| >= 2 ==> LiteralSpan(s) == 2 + LiteralSpan(s[2..])
  {
  }

  /** Crossing depends on the bytes that are crossed. */
  lemma {:induction false} CrossedLocal(t: string, u: string, n: nat)
    requires n <= |t| && n <= |u| && t[..n] == u[..n]
    ensures Crossed(u, n) == Crossed(t, n)
    decreases n
  {
    if n > 0 {
      assert t[..n][0] == t[0] && u[..n][0] == u[0];
      if !AtEnd(t) {
        if t[0] != '\\' {
          SameBehind(t, u, n, 1);
          CrossedLocal(t[1..], u[1..], n - 1);
        } else if n >= 2 {
          assert t[..n][1] == t[1] && u[..n][1] == u[1];
          SameBehind(t, u, n, 2);
          CrossedLocal(t[2..], u[2..], n - 2);
        }
      }
    }
  }

  lemma SameBehind(t: string, u: string, n: nat, i: nat)
    requires i <= n && n <= |t| && n <= |u| && t[..n] == u[..n]
    ensures t[i..][..n - i] == u[i..][..n - i]
  {
    assert t[i..][..n - i] == t[..n][i..] && u[i..][..n - i] == u[..n][i..];
  }

  /** What an escape decodes to depends on its own bytes, and on the next two only
      as far as they could begin the second half of a pair. */
  lemma DecodeUnicodeSame(p: string, q: string)
    requires forall k: nat | k <= 5 :: At(p, k) == At(q, k)
    requires At(p, 5) == '\\' ==> At(p, 6) == At(q, 6)
    requires DecodeUnicode(p).taken == 11 ==> forall k: nat | 7 <= k <= 10 :: At(p, k) == At(q, k)
    ensures DecodeUnicode(p) == DecodeUnicode(q)
  {
    SameHex(p, q, 1);
    if DecodeUnicode(p).taken == 11 {
      SameHex(p, q, 7);
    }
  }

  lemma SameHex(p: string, q: string, i: nat)
    requires forall k: nat | i <= k <= i + 3 :: At(p, k) == At(q, k)
    ensures ParseHex4(Advance(p, i)) == ParseHex4(Advance(q, i))
  {
    assert forall k: nat | k <= 3 :: At(Advance(p, i), k) == At(p, i + k) && At(Advance(q, i), k) == At(q, i + k);
  }

  /** A round that ends at or before the closing quote at `e` is the same in any text
      with the same bytes up to there. */
  lemma RoundLocal(t: string, u: string, e: nat)
    requires !AtEnd(t) && Round(t) <= e < |t| && e < |u| && t[e] == '"' && forall k | 0 <= k <= e :: u[k] == t[k]
    ensures Round(u) == Round(t) && Wrote(u) == Wrote(t)
  {
    if t[0] == '\\' {
      hide DecodeUnicode;
      var p, q := t[1..], u[1..];
      assert forall k: nat | k <= e - 1 :: At(p, k) == t[k + 1] && At(q, k) == u[k + 1];
      if p[0] == 'u' {
        DecodeUnicodeSame(p, q);
      }
    }
  }

  lemma CutFront(t: string, n: nat, y: string, k: nat)
    requires k <= n <= |t|
    ensures t[..n] + y == t[..k] + (t[k..][..n - k] + y) && t == t[..k] + t[k..]
    ensures (t[..n] + y)[k..] == t[k..][..n - k] + y
  {
  }

  /** How far ahead the first pass is after a round. */
  function Next(t: string, ahead: nat): (m: nat)
    requires !AtEnd(t) && ahead <= 1 && ahead <= |t|
    ensures m <= 1
  {
    if Crossed(t[ahead..], Round(t) - ahead).Arrives? then 0 else 1
  }

  lemma TogetherGoesOn(t: string, ahead: nat)
    requires !AtEnd(t) && ahead <= 1 && ahead <= |t| && Together(t, ahead)
    ensures var k, m := Round(t), Next(t, ahead);
      && k + m <= |t| && Together(t[k..], m) && t[k..][m..] == t[k + m..]
      && ahead + LiteralSpan(t[ahead..]) == k + m + LiteralSpan(t[k + m..])
  {
    hide DecodeEscape, Round, Crossed, LiteralSpan, Together;
    var k := Round(t);
    TogetherOpens(t, ahead);
    CrossedIs(t[ahead..], k - ahead);
    if Crossed(t[ahead..], k - ahead).Straddles? {
      NotAtEnd(t, k);
    } else {
      assert t[k..][0..] == t[k..];
    }
    SpanGoesOn(t, ahead, k);
  }

  lemma SpanGoesOn(t: string, ahead: nat, k: nat)
    requires ahead <= k <= |t|
    ensures Crossed(t[ahead..], k - ahead).Arrives? ==> ahead + LiteralSpan(t[ahead..]) == k + LiteralSpan(t[k..])
    ensures Crossed(t[ahead..], k - ahead).Straddles? && k < |t| ==>
      ahead + LiteralSpan(t[ahead..]) == k + 1 + LiteralSpan(t[k + 1..])
  {
    hide Crossed, LiteralSpan;
    CrossedSpan(t[ahead..], k - ahead);
    SliceTwice(t, ahead, k - ahead);
  }

  lemma TogetherOpens(t: string, ahead: nat)
    requires !AtEnd(t) && ahead <= 1 && ahead <= |t| && Together(t, ahead)
    ensures !Crossed(t[ahead..], Round(t) - ahead).Stops? && Together(Advance(t, Round(t)), Next(t, ahead))
  {
    hide DecodeEscape, Round, Crossed;
  }

  lemma TogetherBefore(u: string, ahead: nat)
    requires !AtEnd(u) && ahead <= 1 && ahead <= |u| && Round(u) <= |u|
    requires !Crossed(u[ahead..], Round(u) - ahead).Stops? && Together(u[Round(u)..], Next(u, ahead))
    ensures Together(u, ahead)
  {
    hide DecodeEscape, Round, Crossed;
  }

  /** The passes over a closed literal, whatever follows it. */
  lemma {:induction false} TogetherLocal(t: string, ahead: nat, y: string)
    requires ahead <= 1 && ahead <= |t| && Together(t, ahead) && At(t, ahead + LiteralSpan(t[ahead..])) == '"'
    ensures var u := t[..ahead + LiteralSpan(t[ahead..]) + 1] + y;
      Together(u, ahead) && Unescape(u) == Decoded(Unescape(t).text, "\"" + y)
    decreases |t|
  {
    hide Wrote, Round, Crossed, Unescape, LiteralSpan, Together, Next, AtEnd;
    var n := ahead + LiteralSpan(t[ahead..]);
    var u := t[..n + 1] + y;
    if AtEnd(t) {
      LevelAtEnd(t, ahead);
      SpanAtEnd(t);
      LiteralEnds(t, y);
    } else {
      NotEmpty(t);
      var k, m := Round(t), Next(t, ahead);
      TogetherGoesOn(t, ahead);
      TogetherLocal(t[k..], m, y);
      CutFront(t, n + 1, y, k);
      EndsAtQuote(t, y, n);
      RoundInFront(t, u, ahead, n, "\"" + y);
    }
  }

  lemma NotEmpty(t: string)
    requires !AtEnd(t)
    ensures t != ""
  {
  }

  lemma EndsAtQuote(t: string, y: string, n: nat)
    requires n < |t|
    ensures var u := t[..n + 1] + y; n < |u| && u[..n + 1] == t[..n + 1]
  {
  }

  /** What holds behind a round of both texts, holds in front of it. */
  lemma RoundInFront(t: string, u: string, ahead: nat, n: nat, end: string)
    requires ahead <= 1 && ahead <= |t| && !AtEnd(t) && Together(t, ahead)
    requires Round(t) <= n < |t| && n < |u| && t[n] == '"' && u[..n + 1] == t[..n + 1]
    requires Together(u[Round(t)..], Next(t, ahead))
    requires Unescape(u[Round(t)..]) == Decoded(Unescape(t[Round(t)..]).text, end)
    ensures Together(u, ahead) && Unescape(u) == Decoded(Unescape(t).text, end)
  {
    hide Wrote, Round, Crossed, Unescape, LiteralSpan, Together, Next;
    TogetherOpens(t, ahead);
    RoundSame(t, u, ahead, n);
    TogetherBefore(u, ahead);
    UnescapeRound(t);
    UnescapeRound(u);
  }

  lemma LevelAtEnd(t: string, ahead: nat)
    requires AtEnd(t) && ahead <= 1 && Together(t, ahead)
    ensures ahead == 0
  {
  }

  /** A round on either text, with its crossing. */
  lemma RoundSame(t: string, u: string, ahead: nat, n: nat)
    requires ahead <= 1 && !AtEnd(t) && Round(t) <= n < |t| && n < |u| && t[n] == '"' && u[..n + 1] == t[..n + 1]
    ensures !AtEnd(u) && Round(u) == Round(t) && Wrote(u) == Wrote(t) && Next(u, ahead) == Next(t, ahead)
    ensures Crossed(u[ahead..], Round(u) - ahead) == Crossed(t[ahead..], Round(t) - ahead)
  {
    hide Wrote, Round, Crossed;
    assert forall k | 0 <= k <= n :: u[k] == u[..n + 1][k] == t[..n + 1][k] == t[k];
    RoundLocal(t, u, n);
    SameFront(t, u, ahead, Round(t), n);
    CrossedLocal(t[ahead..], u[ahead..], Round(t) - ahead);
  }

  lemma SameFront(t: string, u: string, i: nat, k: nat, n: nat)
    requires i <= k <= n < |t| && n < |u| && forall j | 0 <= j <= n :: u[j] == t[j]
    ensures t[i..][..k - i] == u[i..][..k - i]
  {
  }

  lemma SpanAtEnd(t: string)
    requires AtEnd(t)
    ensures LiteralSpan(t) == 0 && t[0..] == t
  {
  }

  lemma LiteralEnds(t: string, y: string)
    requires At(t, 0) == '"'
    ensures var u := t[..1] + y; Together(u, 0) && Unescape(u) == Decoded("", "\"" + y) && Unescape(t).text == ""
  {
    assert t[..1] + y == "\"" + y;
  }

  /** A closed literal reads the same whatever follows it. */
  lemma LiteralLocal(t: string, y: string)
    requires LiteralOk(t) && At(t, LiteralSpan(t)) == '"'
    ensures var u := t[..LiteralSpan(t) + 1] + y;
      LiteralOk(u) && Unescape(u) == Decoded(Unescape(t).text, "\"" + y)
  {
    hide Together, Unescape, LiteralSpan;
    assert t[0..] == t;
    TogetherLocal(t, 0, y);
  }

  /** What the parser makes of a literal whose end it has found. */
  lemma QuotedReads(s: string, text: string, y: string)
    requires At(s, 0) == '"' && LiteralOk(s[1..]) && Unescape(s[1..]) == Decoded(text, "\"" + y)
    ensures ParseString(s) == Ok(text, y)
  {
    hide Unescape, LiteralOk;
    assert ("\"" + y)[1..] == y;
  }

  lemma StringFront(s: string)
    requires ParseString(s).Ok?
    ensures At(s, 0) == '"' && LiteralOk(s[1..])
  {
    hide Unescape, LiteralOk;
  }

  /** Where a closed literal ends, for the parser as for the minifier. */
  lemma StringEnds(s: string)
    requires At(s, 0) == '"' && LiteralOk(s[1..]) && At(s, 1 + LiteralSpan(s[1..])) == '"'
    ensures var n := LiteralSpan(s[1..]);
      At(s[1..], n) == '"' && Unescape(s[1..]).rest == "\"" + s[n + 2..]
  {
    hide Unescape, LiteralOk, LiteralSpan, ScanEnd;
    var t, n := s[1..], LiteralSpan(s[1..]);
    SpanIsScan(t);
    PassesAgree(t);
    assert t[n..] == "\"" + s[n + 2..];
  }

  /** A string literal of a closed text, minified with what follows it. */
  lemma StringKeeps(s: string)
    requires Closed(s) && ParseString(s).Ok?
    ensures var r := ParseString(s);
      Closed(r.rest) && ParseString(Minified(s)) == Ok(r.value, Minified(r.rest)) && At(Minified(s), 0) == '"'
  {
    hide Unescape, LiteralOk, Minified, Closed, LiteralSpan, ParseString;
    StringFront(s);
    LiteralMinified(s);
    var t, n := s[1..], LiteralSpan(s[1..]);
    StringEnds(s);
    var rest := s[n + 2..];
    QuotedReads(s, Unescape(t).text, rest);
    LiteralLocal(t, Minified(rest));
    var u := t[..n + 1] + Minified(rest);
    assert ("\"" + u)[1..] == u;
    QuotedReads(Minified(s), Unescape(t).text, Minified(rest));
  }

  lemma LiteralMinified(s: string)
    requires Closed(s) && At(s, 0) == '"'
    ensures var n := LiteralSpan(s[1..]);
      At(s, 1 + n) == '"' && Closed(s[n + 2..]) && Minified(s) == "\"" + (s[1..][..n + 1] + Minified(s[n + 2..]))
  {
    hide LiteralSpan;
    var n := LiteralSpan(s[1..]);
    assert s[..n + 2] == "\"" + s[1..][..n + 1];
    Regroup("\"", s[1..][..n + 1], Minified(s[n + 2..]));
  }

  // ----- values -----

  /** A keyword is plain, and reads the same in front of any text. */
  lemma WordKeeps(s: string, word: string)
    requires Closed(s) && StartsWith(s, word) && forall i | 0 <= i < |word| :: Plain(word[i])
    ensures Closed(s[|word|..]) && Minified(s) == word + Minified(s[|word|..]) && StartsWith(Minified(s), word)
    ensures Minified(s)[|word|..] == Minified(s[|word|..])
  {
    hide Minified, Closed;
    assert s == word + s[|word|..];
    MinifyPlain(word, s[|word|..]);
    StartsWithPrefix(word, Minified(s[|word|..]));
  }

  lemma WordsKeep(s: string)
    requires Closed(s) && (StartsWith(s, "null") || StartsWith(s, "false") || StartsWith(s, "true"))
    ensures var r := ParseValue(s);
      r.Ok? && Closed(r.rest) && ParseValue(Minified(s)) == Ok(r.value, Minified(r.rest))
  {
    hide Minified, Closed, ParseItems, ParseMembers, ParseText, ParseNumeral, Skip, StartsWith;
    if StartsWith(s, "null") {
      WordKeeps(s, "null");
    } else if StartsWith(s, "false") {
      WordKeeps(s, "false");
      OneWord(s);
      OneWord(Minified(s));
    } else {
      WordKeeps(s, "true");
      OneWord(s);
      OneWord(Minified(s));
    }
  }

  lemma OneWord(s: string)
    ensures StartsWith(s, "false") ==> !StartsWith(s, "null")
    ensures StartsWith(s, "true") ==> !StartsWith(s, "null") && !StartsWith(s, "false")
  {
    if StartsWith(s, "false") {
      assert s[..5][0] == s[0] == s[..4][0];
    }
    if StartsWith(s, "true") {
      assert |s| >= 5 ==> s[..5][0] == s[0];
      assert s[..4][0] == s[0];
    }
  }

  /** A value accepted in front of something that may follow it: the minified text is
      read to the same value, up to the minified rest. */
  lemma {:induction false} ValueKeeps(s: string)
    requires Closed(s) && ParseValue(s).Ok? && Follows(ParseValue(s).rest)
    ensures var r := ParseValue(s);
      Closed(r.rest) && ParseValue(Minified(s)) == Ok(r.value, Minified(r.rest))
    decreases |s|, 1
  {
    hide Minified, Closed, ParseItems, ParseMembers, ParseText, ParseNumeral, Skip, Follows;
    if StartsWith(s, "null") || StartsWith(s, "false") || StartsWith(s, "true") {
      WordsKeep(s);
    } else if At(s, 0) == '"' {
      TextKeeps(s);
    } else if At(s, 0) == '-' || Digit(At(s, 0)) {
      NumeralKeeps(s);
    } else if At(s, 0) == '[' {
      ArrayKeeps(s);
    } else {
      ObjectKeeps(s);
    }
  }

  lemma TextKeeps(s: string)
    requires Closed(s) && At(s, 0) == '"' && ParseValue(s).Ok?
    ensures var r := ParseValue(s);
      Closed(r.rest) && ParseValue(Minified(s)) == Ok(r.value, Minified(r.rest))
  {
    hide ParseString, Minified, Closed, ParseItems, ParseMembers;
    StringKeeps(s);
    QuoteIsText(s);
    QuoteIsText(Minified(s));
  }

  lemma QuoteIsText(s: string)
    requires At(s, 0) == '"'
    ensures ParseValue(s) == ParseText(s)
  {
    hide ParseText, ParseItems, ParseMembers;
    assert forall w: string | w != "" && StartsWith(s, w) :: At(s, 0) == w[0] by {
      forall w: string | w != "" && StartsWith(s, w) ensures At(s, 0) == w[0] {
        assert s[..|w|][0] == s[0];
      }
    }
  }

  lemma NumeralKeeps(s: string)
    requires Closed(s) && (At(s, 0) == '-' || Digit(At(s, 0))) && Follows(ParseValue(s).rest)
    ensures var r := ParseValue(s);
      Closed(r.rest) && ParseValue(Minified(s)) == Ok(r.value, Minified(r.rest))
  {
    hide ParseNumber, Closed, ParseItems, ParseMembers;
    NumeralIsNumber(s);
    NumberKeeps(s);
    PlainFront(s);
    NumeralIsNumber(Minified(s));
  }

  lemma NumeralIsNumber(s: string)
    requires At(s, 0) == '-' || Digit(At(s, 0))
    ensures ParseValue(s) == Ok(Number(ParseNumber(s).value), ParseNumber(s).rest)
  {
    hide ParseNumber, ParseItems, ParseMembers;
    assert forall w: string | w != "" && StartsWith(s, w) :: At(s, 0) == w[0] by {
      forall w: string | w != "" && StartsWith(s, w) ensures At(s, 0) == w[0] {
        assert s[..|w|][0] == s[0];
      }
    }
  }

  /** The first byte of a text that starts with neither white space nor a comment. */
  lemma FirstKept(t: string)
    requires Closed(t) && At(t, 0) != NUL && !White(t[0]) && t[0] != '/'
    ensures At(Minified(t), 0) == t[0]
  {
  }

  /** What `parse_array` finds behind the bracket. */
  lemma ArrayOpens(s: string)
    requires At(s, 0) == '['
    ensures var t := Skip(s[1..]);
      if At(t, 0) == ']' then ParseValue(s) == Ok(Array(NoItem), t[1..])
      else match ParseItems(t)
        case Ok(items, rest) => ParseValue(s) == Ok(Array(items), rest)
        case _ => !ParseValue(s).Ok?
  {
    hide ParseString, ParseNumber, Skip, ParseItems, ParseMembers;
  }

  lemma ObjectOpens(s: string)
    requires At(s, 0) == '{'
    ensures var t := Skip(s[1..]);
      if At(t, 0) == '}' then ParseValue(s) == Ok(Object(NoMember), t[1..])
      else match ParseMembers(t)
        case Ok(members, rest) => ParseValue(s) == Ok(Object(members), rest)
        case _ => !ParseValue(s).Ok?
  {
    hide ParseString, ParseNumber, Skip, ParseItems, ParseMembers;
  }

  /** No value starts with a byte that the parser does not know. */
  lemma ValueFront(s: string)
    requires ParseValue(s).Ok?
    ensures var c := At(s, 0);
      c != NUL && c != '/' && c != ']' && c != '}' && c != ',' && !Blank(c)
  {
    hide ParseItems, ParseMembers, ParseText, ParseNumeral;
    assert forall w: string | w != "" && StartsWith(s, w) :: At(s, 0) == w[0] by {
      forall w: string | w != "" && StartsWith(s, w) ensures At(s, 0) == w[0] {
        assert s[..|w|][0] == s[0];
      }
    }
  }

  lemma ItemsFront(t: string)
    requires ParseItems(t).Ok? && !Blank(At(t, 0))
    ensures At(t, 0) != NUL && At(t, 0) != '/' && At(t, 0) != ']'
  {
    hide ParseValue;
    SkipOfFront(t);
    ValueFront(t);
  }

  lemma MembersFront(t: string)
    requires ParseMembers(t).Ok? && !Blank(At(t, 0))
    ensures At(t, 0) == '"'
  {
    hide ParseValue;
    SkipOfFront(t);
  }

  lemma SkipOfFront(t: string)
    requires !Blank(At(t, 0))
    ensures Skip(t) == t
  {
  }

  lemma {:induction false} ArrayKeeps(s: string)
    requires Closed(s) && At(s, 0) == '[' && ParseValue(s).Ok?
    ensures var r := ParseValue(s);
      Closed(r.rest) && ParseValue(Minified(s)) == Ok(r.value, Minified(r.rest))
    decreases |s|, 0
  {
    hide Minified, Closed, ParseItems, ParseValue, Skip;
    PlainFront(s);
    var t := Skip(s[1..]);
    assert Minified(s)[1..] == Minified(s[1..]);
    ArrayOpens(s);
    if At(t, 0) != ']' {
      ItemsFront(t);
    }
    SkipKeeps(s[1..]);
    ArrayOpens(Minified(s));
    FirstKept(t);
    if At(t, 0) == ']' {
      PlainFront(t);
      assert Minified(t)[1..] == Minified(t[1..]);
    } else {
      ItemsKeep(t);
    }
  }

  lemma {:induction false} ObjectKeeps(s: string)
    requires Closed(s) && At(s, 0) == '{' && ParseValue(s).Ok?
    ensures var r := ParseValue(s);
      Closed(r.rest) && ParseValue(Minified(s)) == Ok(r.value, Minified(r.rest))
    decreases |s|, 0
  {
    hide Minified, Closed, ParseMembers, ParseValue, Skip;
    PlainFront(s);
    var t := Skip(s[1..]);
    assert Minified(s)[1..] == Minified(s[1..]);
    ObjectOpens(s);
    if At(t, 0) != '}' {
      MembersFront(t);
    }
    SkipKeeps(s[1..]);
    ObjectOpens(Minified(s));
    FirstKept(t);
    if At(t, 0) == '}' {
      PlainFront(t);
      assert Minified(t)[1..] == Minified(t[1..]);
    } else {
      MembersKeep(t);
    }
  }

  /** The elements from `s` on: the first of them, and what is made of the text behind it. */
  lemma ItemsUnfold(s: string)
    ensures match ParseValue(Skip(s))
      case Ok(v, rest) =>
        var t := Skip(rest);
        if At(t, 0) == ',' then
          match ParseItems(t[1..])
            case Ok(items, end) => ParseItems(s) == Ok(Item(v, items), end)
            case _ => !ParseItems(s).Ok?
        else if At(t, 0) == ']' then ParseItems(s) == Ok(Item(v, NoItem), t[1..])
        else !ParseItems(s).Ok?
      case _ => !ParseItems(s).Ok?
  {
    hide ParseValue, Skip;
  }

  lemma {:induction false} ItemsKeep(s: string)
    requires Closed(s) && ParseItems(s).Ok?
    ensures var r := ParseItems(s);
      Closed(r.rest) && ParseItems(Minified(s)) == Ok(r.value, Minified(r.rest))
    decreases |s|, 2
  {
    hide Minified, Closed, ParseItems, ParseValue, Skip;
    ItemsUnfold(s);
    ValueFront(Skip(s));
    SkipKeeps(s);
    var r := ParseValue(Skip(s));
    var t := Skip(r.rest);
    ValueKeeps(Skip(s));
    SkipKeeps(r.rest);
    PlainFront(t);
    ItemsUnfold(Minified(s));
    assert Minified(t)[1..] == Minified(t[1..]);
    if At(t, 0) == ',' {
      ItemsKeep(t[1..]);
    }
  }

  lemma MembersUnfold(s: string)
    ensures match ParseName(s)
      case Ok(name, body) => (
        match ParseValue(Skip(body))
        case Ok(v, rest) =>
          var t := Skip(rest);
          if At(t, 0) == ',' then
            match ParseMembers(t[1..])
              case Ok(members, end) => ParseMembers(s) == Ok(Member(name, v, members), end)
              case _ => !ParseMembers(s).Ok?
          else if At(t, 0) == '}' then ParseMembers(s) == Ok(Member(name, v, NoMember), t[1..])
          else !ParseMembers(s).Ok?
        case _ => !ParseMembers(s).Ok?)
      case _ => !ParseMembers(s).Ok?
  {
    hide ParseValue, Skip, ParseName;
  }

  lemma NameKeeps(s: string)
    requires Closed(s) && ParseName(s).Ok?
    ensures var r := ParseName(s);
      Closed(r.rest) && ParseName(Minified(s)) == Ok(r.value, Minified(r.rest))
  {
    hide Minified, Closed, Skip, ParseString;
    var r := ParseString(Skip(s));
    QuoteFront(Skip(s));
    SkipKeeps(s);
    StringKeeps(Skip(s));
    var t := Skip(r.rest);
    SkipKeeps(r.rest);
    PlainFront(t);
    assert Minified(t)[1..] == Minified(t[1..]);
  }

  lemma QuoteFront(s: string)
    requires ParseString(s).Ok?
    ensures At(s, 0) == '"'
  {
  }

  lemma {:induction false} MembersKeep(s: string)
    requires Closed(s) && ParseMembers(s).Ok?
    ensures var r := ParseMembers(s);
      Closed(r.rest) && ParseMembers(Minified(s)) == Ok(r.value, Minified(r.rest))
    decreases |s|, 2
  {
    hide Minified, Closed, ParseMembers, ParseValue, Skip, ParseName;
    MembersUnfold(s);
    NameKeeps(s);
    var body := ParseName(s).rest;
    ValueFront(Skip(body));
    SkipKeeps(body);
    var r := ParseValue(Skip(body));
    var t := Skip(r.rest);
    ValueKeeps(Skip(body));
    SkipKeeps(r.rest);
    PlainFront(t);
    MembersUnfold(Minified(s));
    assert Minified(t)[1..] == Minified(t[1..]);
    if At(t, 0) == ',' {
      MembersKeep(t[1..]);
    }
  }

  /** Every closed text that is accepted to its end means the same after minifying. */
  lemma MinifyKeepsMeaning(s: string)
    requires Closed(s) && Parse(s, true).Ok?
    ensures Parse(Minified(s), true) == Ok(Parse(s, true).value, "")
  {
    hide Minified, Closed, ParseValue, Skip;
    ValueFront(Skip(s));
    SkipKeeps(s);
    var r := ParseValue(Skip(s));
    ValueKeeps(Skip(s));
    SkipKeeps(r.rest);
    MinifiedOfNul(Skip(r.rest));
  }

  lemma MinifiedOfNul(t: string)
    requires At(t, 0) == NUL
    ensures Minified(t) == ""
  {
  }

  // ----- without the check for the end of the text -----

  /** What the text `pre` of a number could be read on into: how its next byte, or the
      next two, would continue it, by the part of a number that `pre` ends in. */
  predicate Continues(pre: string, y: string) {
    var c := At(y, 0);
    var a := AfterSign(pre);
    var z := AfterZero(a);
    var w := WholePart(z).rest;
    var f := Fraction(0, w).rest;
    var begins := (c == '.' && Digit(At(y, 1))) || c == 'e' || c == 'E';
    if f != "" then Digit(c) || (|f| == 1 && (c == '+' || c == '-'))   // exponent; just the mark
    else if w != "" then Digit(c) || c == 'e' || c == 'E'               // fraction
    else if z != "" then Digit(c) || begins                             // whole part
    else if a != "" then ('1' <= c <= '9') || begins                    // a leading zero
    else Digit(c) || begins                                             // just the sign
  }

  lemma {:induction false} ReadDigitsFront(n: nat, s: string, y: string)
    requires ReadDigits(n, s).rest == ""
    ensures var m := ReadDigits(n, s).mantissa; var r := ReadDigits(m, y);
      ReadDigits(n, s + y) == Run(r.mantissa, |s| + r.count, r.rest)
    decreases |s|
  {
    if s == "" {
      EmptyEnds(y);
    } else {
      assert (s + y)[1..] == s[1..] + y;
      ReadDigitsFront(n * 10 + DigitValue(s[0]), s[1..], y);
    }
  }

  lemma {:induction false} ReadDigitsInside(n: nat, s: string, y: string)
    requires ReadDigits(n, s).rest != ""
    ensures var r := ReadDigits(n, s); ReadDigits(n, s + y) == Run(r.mantissa, r.count, r.rest + y)
    decreases |s|
  {
    if s != "" && Digit(s[0]) {
      assert (s + y)[1..] == s[1..] + y;
      ReadDigitsInside(n * 10 + DigitValue(s[0]), s[1..], y);
    }
  }

  /** Digits that end where the text does: the next byte is read on exactly when it
      is a digit. */
  lemma DigitsOn(n: nat, s: string, y: string)
    ensures var r, r' := ReadDigits(n, s), ReadDigits(n, s + y);
      if r.rest == "" && Digit(At(y, 0)) then |r'.rest| < |y|
      else r' == Run(r.mantissa, r.count, r.rest + y)
  {
    if ReadDigits(n, s).rest == "" {
      ReadDigitsFront(n, s, y);
      CountsAll(n, s);
      assert "" + y == y;
    } else {
      ReadDigitsInside(n, s, y);
    }
  }

  lemma CountsAll(n: nat, s: string)
    ensures |ReadDigits(n, s).rest| + ReadDigits(n, s).count == |s|
  {
  }

  /** Each part of a number, in front of `y`: it ends where it did, or `y` is read on. */
  lemma ExponentOn(s: string, y: string)
    requires Exponent(s).1 == ""
    ensures var c := At(y, 0);
      var on := if s != "" then Digit(c) || (|s| == 1 && (c == '+' || c == '-')) else c == 'e' || c == 'E';
      if on then |Exponent(s + y).1| < |y| else Exponent(s + y) == (Exponent(s).0, y)
  {
    if s == "" {
      assert s + y == y;
      ExponentShrinks(y);
    } else {
      hide ReadDigits, Exponent;
      ExponentFront(s);
      var t := s[1..];
      assert (s + y)[0] == s[0] && (s + y)[1..] == t + y;
      ExponentOf(s);
      ExponentOf(s + y);
      if t == "" {
        assert t + y == y;
        MarkAlone(y);
      } else if t[0] == '+' || t[0] == '-' {
        assert (t + y)[0] == t[0] && (t + y)[1..] == t[1..] + y;
        DigitsOn(0, t[1..], y);
        assert "" + y == y;
      } else {
        assert (t + y)[0] == t[0];
        DigitsOn(0, t, y);
        assert "" + y == y;
      }
    }
  }

  lemma ExponentFront(s: string)
    requires Exponent(s).1 == "" && s != ""
    ensures s[0] == 'e' || s[0] == 'E'
  {
  }

  lemma ExponentShrinks(y: string)
    ensures At(y, 0) == 'e' || At(y, 0) == 'E' ==> |Exponent(y).1| < |y|
  {
    if At(y, 0) == 'e' || At(y, 0) == 'E' {
      var t := y[1..];
      CountsAll(0, t);
      CountsAll(0, if At(t, 0) == '+' || At(t, 0) == '-' then t[1..] else t);
    }
  }

  /** Behind the mark alone: a sign or digits are read on. */
  lemma MarkAlone(y: string)
    ensures ReadDigits(0, "") == Run(0, 0, "")
    ensures (At(y, 0) == '+' || At(y, 0) == '-') ==> |ReadDigits(0, y[1..]).rest| < |y|
    ensures Digit(At(y, 0)) ==> |ReadDigits(0, y).rest| < |y|
    ensures !Digit(At(y, 0)) ==> ReadDigits(0, y) == Run(0, 0, y)
  {
    if y != "" {
      CountsAll(0, y[1..]);
    }
  }

  lemma FractionOn(n: nat, s: string, y: string)
    requires s != "" ==> At(s, 0) != '.' || |s| >= 2
    ensures var r, r' := Fraction(n, s), Fraction(n, s + y);
      var on := if s == "" then At(y, 0) == '.' && Digit(At(y, 1)) else r.rest == "" && Digit(At(y, 0));
      if on then |r'.rest| < |y| else r' == Run(r.mantissa, r.count, r.rest + y)
  {
    if s == "" {
      assert s + y == y && "" + y == y;
      if y != "" {
        CountsAll(n, y[1..]);
      }
    } else if s[0] == '.' && Digit(At(s, 1)) {
      assert (s + y)[0] == s[0] && (s + y)[1..] == s[1..] + y && At(s + y, 1) == s[1];
      DigitsOn(n, s[1..], y);
    } else {
      assert (s + y)[0] == s[0] && (|s| >= 2 ==> (s + y)[1] == s[1]);
    }
  }

  lemma WholeOn(s: string, y: string)
    ensures var r, r' := WholePart(s), WholePart(s + y); var c := At(y, 0);
      var on := if s == "" then '1' <= c <= '9' else r.rest == "" && Digit(c);
      if on then |r'.rest| < |y| else r'.mantissa == r.mantissa && r'.rest == r.rest + y
  {
    if s == "" {
      assert s + y == y && "" + y == y;
      if y != "" {
        CountsAll(0, y);
      }
    } else {
      assert (s + y)[0] == s[0];
      DigitsOn(0, s, y);
    }
  }

  lemma SignOn(s: string, y: string)
    requires s != ""
    ensures AfterSign(s + y) == AfterSign(s) + y && (At(s + y, 0) == '-') == (At(s, 0) == '-')
  {
    assert (s + y)[0] == s[0] && (s + y)[1..] == s[1..] + y;
  }

  lemma ZeroOn(s: string, y: string)
    ensures if s == "" && At(y, 0) == '0' then |AfterZero(s + y)| < |y| else AfterZero(s + y) == AfterZero(s) + y
  {
    if s == "" {
      assert s + y == y && AfterZero("") + y == y;
    } else {
      assert (s + y)[0] == s[0] && (s + y)[1..] == s[1..] + y;
    }
  }

  lemma {:induction false} DigitsRest(n: nat, m: nat, s: string)
    ensures ReadDigits(n, s).rest == ReadDigits(m, s).rest
    decreases |s|
  {
    if s != "" && Digit(s[0]) {
      DigitsRest(n * 10 + DigitValue(s[0]), m * 10 + DigitValue(s[0]), s[1..]);
    }
  }

  /** Where the fraction ends does not depend on the digits before it; and a number
      does not end in a point. */
  lemma FractionEnds(n: nat, w: string)
    ensures Fraction(n, w).rest == Fraction(0, w).rest && (w == "" ==> Fraction(n, w).rest == "")
    ensures Exponent(Fraction(n, w).rest).1 == "" && w != "" ==> w[0] != '.' || |w| >= 2
  {
    if At(w, 0) == '.' && Digit(At(w, 1)) {
      DigitsRest(n, 0, w[1..]);
    }
  }

  lemma EmptyWhole()
    ensures WholePart("") == Run(0, 0, "") && AfterZero("") == ""
  {
  }

  /** The stages of `s + y` when every part of `s` ends inside `s`. */
  lemma NumberEndsInside(s: string, y: string)
    requires s != "" && ParseNumber(s).rest == "" && !Continues(s, y)
    ensures ParseNumber(s + y) == Parsed(ParseNumber(s).value, y)
  {
    hide Fraction, Exponent, WholePart, AfterSign, AfterZero;
    var a := AfterSign(s);
    var z := AfterZero(a);
    var w := WholePart(z);
    var f := Fraction(w.mantissa, w.rest);
    FractionEnds(w.mantissa, w.rest);
    EmptyWhole();
    SignOn(s, y);
    ZeroOn(a, y);
    WholeOn(z, y);
    FractionOn(w.mantissa, w.rest, y);
    ExponentOn(f.rest, y);
  }

  /** When one part is read on, so much of `y` is gone. */
  lemma NumberReadsOn(s: string, y: string)
    requires s != "" && ParseNumber(s).rest == "" && Continues(s, y)
    ensures |ParseNumber(s + y).rest| < |y|
  {
    hide Fraction, Exponent, WholePart, AfterSign, AfterZero, Tail;
    var a := AfterSign(s);
    var z := AfterZero(a);
    var w := WholePart(z);
    var f := Fraction(w.mantissa, w.rest);
    FractionEnds(w.mantissa, w.rest);
    EmptyWhole();
    PartLengths(s + y);
    SignOn(s, y);
    ZeroOn(a, y);
    WholeOn(z, y);
    FractionOn(w.mantissa, w.rest, y);
    ExponentOn(f.rest, y);
  }

  lemma PartLengths(s: string)
    ensures var z := AfterZero(AfterSign(s)); var w := WholePart(z);
      var f := Fraction(w.mantissa, w.rest);
      |ParseNumber(s).rest| <= |f.rest| <= |w.rest| <= |z|
  {
    NumberParts(s);
    var a := AfterSign(s);
    var z := AfterZero(a);
    var w := WholePart(z);
    TailLengths(s, a, z, w.rest, Fraction(w.mantissa, w.rest).rest, ParseNumber(s).rest);
  }

  /** A number in front of `y` keeps its value, and `y`, exactly when `y` does not
      continue it in the part it ends in. */
  lemma NumberBefore(s: string, y: string)
    requires s != "" && ParseNumber(s).rest == ""
    ensures ParseNumber(s + y) == Parsed(ParseNumber(s).value, y) <==> !Continues(s, y)
  {
    if Continues(s, y) {
      NumberReadsOn(s, y);
    } else {
      NumberEndsInside(s, y);
    }
  }

  /** The text of the number that `s` starts with. */
  function NumberText(s: string): string {
    s[..|s| - |ParseNumber(s).rest|]
  }

  lemma NumberTextReads(s: string)
    requires At(s, 0) == '-' || Digit(At(s, 0))
    ensures var p := ParseNumber(s); var pre := NumberText(s);
      pre != "" && Tail(s, p.rest) && s == pre + p.rest && ParseNumber(pre) == Parsed(p.value, "")
  {
    hide ParseNumber;
    NumberSwap(s, "");
    var pre := NumberText(s);
    assert Swap(s, ParseNumber(s).rest, "") == pre;
  }

  /**
   Without the check for the end of the text, minifying keeps the meaning of every
   accepted text whose value is not a number. A number keeps its value, and what is
   left of the text, exactly when the minified rest does not continue it.
   */
  lemma MinifyKeepsExactly(s: string)
    requires Closed(s) && Parse(s, false).Ok?
    ensures var r := Parse(s, false); var y := Minified(r.rest);
      Parse(Minified(s), false) == Ok(r.value, y) <==> (r.value.Number? ==> !Continues(NumberText(Skip(s)), y))
  {
    hide Minified, Closed, ParseValue, Skip, ParseNumber, Continues, NumberText;
    var t := Skip(s);
    ValueFront(t);
    SkipKeeps(s);
    KindOf(t);
    if At(t, 0) == '-' || Digit(At(t, 0)) {
      NumberKeepsExactly(t);
    } else {
      OthersKeep(t);
    }
  }

  /** Only a digit or a minus begins a number. */
  lemma KindOf(t: string)
    requires ParseValue(t).Ok?
    ensures ParseValue(t).value.Number? <==> At(t, 0) == '-' || Digit(At(t, 0))
  {
    hide ParseItems, ParseMembers, ParseString, ParseNumber;
    assert forall w: string | w != "" && StartsWith(t, w) :: At(t, 0) == w[0] by {
      forall w: string | w != "" && StartsWith(t, w) ensures At(t, 0) == w[0] {
        assert t[..|w|][0] == t[0];
      }
    }
  }

  lemma OthersKeep(t: string)
    requires Closed(t) && ParseValue(t).Ok? && At(t, 0) != '-' && !Digit(At(t, 0))
    ensures ParseValue(Minified(t)) == Ok(ParseValue(t).value, Minified(ParseValue(t).rest))
  {
    hide Minified, Closed, ParseItems, ParseMembers, ParseText, Skip;
    if StartsWith(t, "null") || StartsWith(t, "false") || StartsWith(t, "true") {
      WordsKeep(t);
    } else if At(t, 0) == '"' {
      TextKeeps(t);
    } else if At(t, 0) == '[' {
      ArrayKeeps(t);
    } else {
      ObjectKeeps(t);
    }
  }

  lemma NumberKeepsExactly(t: string)
    requires Closed(t) && (At(t, 0) == '-' || Digit(At(t, 0)))
    ensures var r := ParseValue(t); r.Ok? && var y := Minified(r.rest);
      ParseValue(Minified(t)) == Ok(r.value, y) <==> !Continues(NumberText(t), y)
  {
    hide ParseNumber, Minified, Closed, ParseValue, Continues, NumberText;
    NumeralIsNumber(t);
    NumberTextReads(t);
    var pre, rest := NumberText(t), ParseNumber(t).rest;
    PlainText(t, rest, pre);
    MinifyPlain(pre, rest);
    PlainFront(t);
    NumeralIsNumber(Minified(t));
    NumberBefore(pre, Minified(rest));
  }

  lemma PlainText(t: string, rest: string, pre: string)
    requires Tail(t, rest) && t == pre + rest && pre != ""
    ensures forall i | 0 <= i < |pre| :: Plain(pre[i])
    ensures Plain(t[0])
  {
    assert forall i | 0 <= i < |pre| :: pre[i] == t[i];
  }

  /** The failing case reached: two numbers become one. */
  lemma MinifyJoinsNumbers()
    ensures Closed("1 2") && Parse("1 2", false) == Ok(Number(1.0), " 2")
    ensures Minified("1 2") == "12" && Parse("12", false) == Ok(Number(12.0), "")
  {
    JoinedText();
    hide Minified, Closed, ParseNumber;
    IntegerParses(1, " 2");
    IntegerParses(12, "");
    assert IntText(1) == "1" && IntText(12) == "12";
    assert "1" + " 2" == "1 2" && "12" + "" == "12";
    NumeralIsNumber("1 2");
    NumeralIsNumber("12");
    SkipOfFront("1 2");
    SkipOfFront("12");
  }

  lemma JoinedText()
    ensures Closed("1 2") && Minified("1 2") == "12"
  {
    PlainFront("1 2");
    assert "1 2"[1..] == " 2" && " 2"[1..] == "2" && "2"[1..] == "";
    assert Closed("2") && Minified("2") == "2" by {
      PlainFront("2");
    }
    assert Closed(" 2") && Minified(" 2") == "2";
  }
}
