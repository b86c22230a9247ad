/**
 The scanning loops of the parser: skipping blanks, reading a number, and the two
 passes over a string literal, the second of which writes into memory that the
 first measured.
 */
module Scanner {
  import opened CString
  import opened Sequences
  import opened Bitwise
  import opened Utf8
  import opened Numerals
  import opened JsonString
  import opened JsonNumber

  /** `skip` */
  method SkipLoop(s: string) returns (p: string)
    ensures p == Skip(s)
  {
    p := s;
    while At(p, 0) != NUL && At(p, 0) <= ' '
      invariant Skip(p) == Skip(s)
      decreases |p|
    {
      p := p[1..];
    }
  }

  // ----- parse_number -----

  /** The digit loop: `n = n * 10.0 + (*num++ - '0')`. */
  method DigitLoop(n0: real, s: string, ghost m0: nat) returns (n: real, count: nat, p: string)
    requires n0 == m0 as real
    ensures n == ReadDigits(m0, s).mantissa as real && count == ReadDigits(m0, s).count && p == ReadDigits(m0, s).rest
  {
    n, count, p := n0, 0, s;
    ghost var m: nat := m0;
    while Digit(At(p, 0))
      invariant n == m as real
      invariant var r := ReadDigits(m, p);
        ReadDigits(m0, s) == r.(count := count + r.count)
      decreases |p|
    {
      assert Digit(p[0]);
      m := m * 10 + DigitValue(p[0]);
      n := n * 10.0 + DigitValue(p[0]) as real;
      count, p := count + 1, p[1..];
    }
  }

  /** The exponent loop: `subscale = subscale * 10 + (*num++ - '0')`. */
  method SubscaleLoop(s: string) returns (subscale: nat, p: string)
    ensures subscale == ReadDigits(0, s).mantissa && p == ReadDigits(0, s).rest
  {
    subscale, p := 0, s;
    while Digit(At(p, 0))
      invariant ReadDigits(0, s).mantissa == ReadDigits(subscale, p).mantissa
      invariant ReadDigits(0, s).rest == ReadDigits(subscale, p).rest
      decreases |p|
    {
      assert Digit(p[0]);
      subscale, p := subscale * 10 + DigitValue(p[0]), p[1..];
    }
  }

  lemma {:induction false} ScaleNegates(x: real, k: int)
    ensures Scale(-x, k) == -Scale(x, k)
    decreases if k < 0 then -k else k
  {
    if k > 0 {
      ScaleNegates(x, k - 1);
    } else if k < 0 {
      ScaleNegates(x, k + 1);
    }
  }

  /** The fraction and the exponent, after the whole part `n`. */
  method FractionLoop(n0: real, s: string, ghost m0: nat) returns (n: real, scale: nat, p: string)
    requires n0 == m0 as real
    ensures var f := Fraction(m0, s); n == f.mantissa as real && scale == f.count && p == f.rest
  {
    n, scale, p := n0, 0, s;
    if At(p, 0) == '.' && Digit(At(p, 1)) {
      n, scale, p := DigitLoop(n, p[1..], m0);
    }
  }

  method ExponentLoop(s: string) returns (e: int, p: string)
    ensures (e, p) == Exponent(s)
  {
    e, p := 0, s;
    if At(p, 0) == 'e' || At(p, 0) == 'E' {
      var signsubscale: int := 1;
      p := p[1..];
      if At(p, 0) == '+' {
        p := p[1..];
      } else if At(p, 0) == '-' {
        signsubscale, p := -1, p[1..];
      }
      var subscale, q := SubscaleLoop(p);
      e, p := subscale * signsubscale, q;
    }
  }

  /** `parse_number` accumulates sign, mantissa and scale; the value is what the
      recursive reading of the same text gives. */
  method ParseNumberLoop(num: string) returns (value: real, p: string)
    ensures Parsed(value, p) == ParseNumber(num)
  {
    hide Fraction, Exponent;
    var n, sign := 0.0, 1.0;
    p := num;
    if At(p, 0) == '-' {
      sign, p := -1.0, p[1..];
    }
    if At(p, 0) == '0' {
      p := p[1..];
    }
    ghost var w := WholePart(p);
    if '1' <= At(p, 0) <= '9' {
      var count;
      n, count, p := DigitLoop(n, p, 0);
    }
    var scale, e;
    ghost var m := w.mantissa;
    n, scale, p := FractionLoop(n, p, m);
    e, p := ExponentLoop(p);
    ScaleNegates(n, e - scale);
    value := Scale(sign * n, e - scale);
  }

  // ----- parse_string -----

  /** The first pass: how many bytes to reserve. */
  method CountLoop(s: string) returns (len: nat)
    ensures len == ScanCount(s)
  {
    len := 0;
    var p := s;
    while At(p, 0) != '"' && At(p, 0) != NUL
      invariant ScanCount(s) == len + ScanCount(p)
      decreases |p|
    {
      len := len + 1;
      var c := p[0];
      p := Advance(p, if c == '\\' then 2 else 1);
    }
  }

  function FirstByteMark(len: nat): nat {
    match len case 2 => 0xC0 case 3 => 0xE0 case 4 => 0xF0 case _ => 0
  }

  /** The C expression for the first byte, `uc | firstByteMark[len]`, on what is left of the scalar. */
  lemma FirstByteExpression(uc: nat, len: nat)
    requires 1 <= len <= 4 && (len > 1 ==> uc < Pow2(7 - len))
    ensures BitOr(uc, FirstByteMark(len)) == FirstByteMark(len) + uc
  {
    hide BitOr, ShiftLeft, Pow2;
    SmallPowers();
    match len
    case 2 => OrMark(uc, 6, 5);
    case 3 => OrMark(uc, 14, 4);
    case 4 => OrMark(uc, 30, 3);
    case _ => BitOrCommutes(uc, 0); NoMarks(uc);
  }

  lemma NoMarks(uc: nat)
    ensures BitOr(0, uc) == uc
  {
  }

  lemma OrMark(uc: nat, high: nat, k: nat)
    requires uc < Pow2(k)
    ensures BitOr(uc, high * Pow2(k)) == high * Pow2(k) + uc && BitOr(high * Pow2(k), uc) == high * Pow2(k) + uc
  {
    hide BitOr, Pow2;
    ShiftLeftIs(high, k);
    OrApart(uc, high, k);
    BitOrCommutes(uc, ShiftLeft(high, k));
  }

  /** The switch that writes a scalar from its last byte to its first. */
  method WriteUtf8(out: array<char>, k: nat, uc0: nat) returns (n: nat)
    requires uc0 <= 0x10ffff && k + |Encode(uc0)| <= out.Length
    modifies out
    ensures n == k + |Encode(uc0)| && out[..n] == old(out[..k]) + Encode(uc0)
  {
    var len := if uc0 < 0x80 then 1 else if uc0 < 0x800 then 2 else if uc0 < 0x10000 then 3 else 4;
    var uc, p := uc0, k + len;
    if len >= 4 {
      p := p - 1;
      out[p] := Continuation(uc);
      uc := uc / 0x40;
    }
    if len >= 3 {
      p := p - 1;
      out[p] := Continuation(uc);
      uc := uc / 0x40;
    }
    if len >= 2 {
      p := p - 1;
      out[p] := Continuation(uc);
      uc := uc / 0x40;
    }
    p := p - 1;
    out[p] := (FirstByteMark(len) + uc) as char;
    n := p + len;
    assert uc0 / 0x1000 == uc0 / 0x40 / 0x40 && uc0 / 0x40000 == uc0 / 0x40 / 0x40 / 0x40;
  }

  /** The `u` case: `p` points at the letter, `taken` says how far it moves. */
  method UnicodeCase(out: array<char>, k: nat, p: string) returns (n: nat, taken: nat)
    requires k + |DecodeUnicode(p).bytes| <= out.Length
    modifies out
    ensures n == k + |DecodeUnicode(p).bytes| && out[..n] == old(out[..k]) + DecodeUnicode(p).bytes
    ensures taken == DecodeUnicode(p).taken
  {
    hide ParseHex4, Encode;
    var uc := ParseHex4(Advance(p, 1));
    n, taken := k, 5;
    if (uc >= 0xDC00 && uc <= 0xDFFF) || uc == 0 {
      return;
    }
    if uc >= 0xD800 && uc <= 0xDBFF {
      if At(p, 5) != '\\' || At(p, 6) != 'u' {
        return;
      }
      var uc2 := ParseHex4(Advance(p, 7));
      taken := 11;
      if uc2 < 0xDC00 || uc2 > 0xDFFF {
        return;
      }
      uc := JoinSurrogates(uc, uc2);
    }
    n := WriteUtf8(out, k, uc);
  }

  /** One escape: `p` points behind the backslash. */
  method EscapeCase(out: array<char>, k: nat, p: string) returns (n: nat, taken: nat)
    requires k + |DecodeEscape(p).bytes| <= out.Length
    modifies out
    ensures n == k + |DecodeEscape(p).bytes| && out[..n] == old(out[..k]) + DecodeEscape(p).bytes
    ensures taken == DecodeEscape(p).taken
  {
    hide DecodeUnicode;
    if At(p, 0) == 'u' {
      n, taken := UnicodeCase(out, k, p);
      return;
    }
    var c := At(p, 0);
    out[k] := if c == 'b' then BACKSPACE else if c == 'f' then FORM_FEED else if c == 'n' then '\n'
              else if c == 'r' then '\r' else if c == 't' then '\t' else c;
    n, taken := k + 1, 1;
  }

  /** One round of the second pass. */
  method DecodeRound(s: string, out: array<char>, k: nat) returns (n: nat, p: string)
    requires s != "" && s[0] != '"' && s[0] != NUL
    requires k + |Unescape(s).text| < out.Length
    modifies out
    ensures |p| < |s| && Unescape(p).rest == Unescape(s).rest && k <= n
    ensures n + |Unescape(p).text| == k + |Unescape(s).text|
    ensures out[..n] + Unescape(p).text == old(out[..k]) + Unescape(s).text
  {
    hide DecodeEscape;
    if s[0] != '\\' {
      out[k] := s[0];
      n, p := k + 1, s[1..];
      assert out[..n] == old(out[..k]) + [s[0]];
      Regroup(old(out[..k]), [s[0]], Unescape(p).text);
    } else {
      var taken;
      n, taken := EscapeCase(out, k, s[1..]);
      p := Advance(s, 1 + taken);
      Regroup(old(out[..k]), DecodeEscape(s[1..]).bytes, Unescape(p).text);
    }
  }

  /** The second pass. What it writes fits the memory the first pass measured. */
  method DecodeLoop(s: string, out: array<char>) returns (n: nat, p: string)
    requires LiteralOk(s) && out.Length == ScanCount(s) + 1
    modifies out
    ensures n < out.Length && Decoded(out[..n], p) == Unescape(s)
  {
    hide DecodeEscape, FourHex, LiteralOk;
    PassesAgree(s);
    n, p := 0, s;
    while At(p, 0) != '"' && At(p, 0) != NUL
      invariant n + |Unescape(p).text| < out.Length
      invariant Unescape(s).text == out[..n] + Unescape(p).text && Unescape(p).rest == Unescape(s).rest
      decreases |p|
    {
      n, p := DecodeRound(p, out, n);
    }
  }
}
