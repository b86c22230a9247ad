/**
 `parse_number` in exact arithmetic, held to the number grammar of section 6
 of RFC 8259 read with place values.
 */
module JsonNumber {
  import opened CString
  import opened Numerals

  /** Digits read so far as a mantissa, how many were read, and what follows them. */
  datatype Run = Run(mantissa: nat, count: nat, rest: string)

  /** `n = n*10 + digit` for as long as digits last. */
  function ReadDigits(n: nat, s: string): (r: Run)
    decreases |s|
    ensures |r.rest| + r.count == |s|
    ensures !Digit(At(r.rest, 0))
  {
    if s != "" && Digit(s[0]) then
      var r := ReadDigits(n * 10 + DigitValue(s[0]), s[1..]);
      r.(count := r.count + 1)
    else Run(n, 0, s)
  }

  datatype Parsed = Parsed(value: real, rest: string)

  function AfterSign(s: string): string {
    if At(s, 0) == '-' then s[1..] else s
  }

  function AfterZero(s: string): string {
    if At(s, 0) == '0' then s[1..] else s
  }

  function WholePart(s: string): Run {
    if '1' <= At(s, 0) <= '9' then ReadDigits(0, s) else Run(0, 0, s)
  }

  /** The mantissa after a fraction, with the number of fraction digits as its count. */
  function Fraction(n: nat, s: string): Run {
    if At(s, 0) == '.' && Digit(At(s, 1)) then ReadDigits(n, s[1..]) else Run(n, 0, s)
  }

  /** The signed exponent and what follows it. */
  function Exponent(s: string): (int, string) {
    if At(s, 0) == 'e' || At(s, 0) == 'E' then
      var t := s[1..];
      var u := if At(t, 0) == '+' || At(t, 0) == '-' then t[1..] else t;
      var r := ReadDigits(0, u);
      (if At(t, 0) == '-' then -(r.mantissa as int) else r.mantissa, r.rest)
    else (0, s)
  }

  function Signed(minus: bool, x: real): real {
    if minus then -x else x
  }

  /** Zero, whole part, fraction and exponent. */
  function ParseUnsigned(s: string): Parsed {
    var w := WholePart(AfterZero(s));
    var f := Fraction(w.mantissa, w.rest);
    var e := Exponent(f.rest);
    Parsed(Scale(f.mantissa as real, e.0 - f.count), e.1)
  }

  function ParseNumber(s: string): (p: Parsed)
    ensures |p.rest| <= |s|
    ensures At(s, 0) == '-' || Digit(At(s, 0)) ==> |p.rest| < |s|
  {
    var u := ParseUnsigned(AfterSign(s));
    Parsed(Signed(At(s, 0) == '-', u.value), u.rest)
  }

  // ----- the grammar of RFC 8259 -----

  datatype Exp = NoExp | Exp(marker: char, sign: string, digits: string)

  datatype Literal = Literal(minus: bool, whole: string, fraction: string, exp: Exp)

  predicate AllDigits(s: string) {
    forall i | 0 <= i < |s| :: Digit(s[i])
  }

  /** Section 6: no leading zeros; a fraction or an exponent, when present, has a digit. */
  predicate Grammatical(l: Literal) {
    && AllDigits(l.whole) && l.whole != "" && (l.whole == "0" || l.whole[0] != '0')
    && AllDigits(l.fraction)
    && (l.exp.Exp? ==>
          && l.exp.marker in "eE"
          && l.exp.sign in ["", "+", "-"]
          && AllDigits(l.exp.digits) && l.exp.digits != "")
  }

  /** What the library reads besides: zeros in front, no whole part behind a minus sign, and
      an exponent without digits. */
  predicate Lenient(l: Literal, rest: string) {
    && AllDigits(l.whole) && (|l.whole| >= 2 && l.whole[0] == '0' ==> l.whole[1] != '0') && (l.minus || l.whole != "")
    && AllDigits(l.fraction)
    && (l.exp.Exp? ==>
          && l.exp.marker in "eE" && l.exp.sign in ["", "+", "-"] && AllDigits(l.exp.digits)
          && (l.exp.sign == "" && l.exp.digits == "" ==> At(rest, 0) != '+' && At(rest, 0) != '-'))
  }

  lemma GrammaticalIsLenient(l: Literal, rest: string)
    requires Grammatical(l)
    ensures Lenient(l, rest)
  {
  }

  function FractionText(fraction: string): string {
    if fraction == "" then "" else "." + fraction
  }

  function ExpText(e: Exp): string {
    if e.NoExp? then "" else [e.marker] + e.sign + e.digits
  }

  function LiteralText(l: Literal): string {
    (if l.minus then "-" else "") + l.whole + FractionText(l.fraction) + ExpText(l.exp)
  }

  /** Place-value reading: the first digit weighs ten to the `weight`, each next one a tenth of it. */
  function PlaceValue(digits: string, weight: int): real {
    if digits == "" then 0.0
    else Scale(DigitValue(digits[0]) as real, weight) + PlaceValue(digits[1..], weight - 1)
  }

  function NatValue(digits: string): int {
    if digits == "" then 0 else NatValue(digits[..|digits| - 1]) * 10 + DigitValue(digits[|digits| - 1])
  }

  function ExpValue(e: Exp): int {
    if e.NoExp? then 0 else if e.sign == "-" then -NatValue(e.digits) else NatValue(e.digits)
  }

  function Magnitude(l: Literal): real {
    Scale(PlaceValue(l.whole, |l.whole| - 1) + PlaceValue(l.fraction, -1), ExpValue(l.exp))
  }

  /** The number a literal denotes. */
  function LiteralValue(l: Literal): real {
    Signed(l.minus, Magnitude(l))
  }

  /** The next byte cannot belong to a number. */
  predicate NumberEnds(rest: string) {
    var c := At(rest, 0);
    !Digit(c) && c != '.' && c != 'e' && c != 'E'
  }

  // ----- digits -----

  /** Reading digits continues the mantissa, one decimal place per digit. */
  lemma {:induction false} ReadDigitsShifts(n: nat, ds: string, rest: string)
    requires AllDigits(ds) && !Digit(At(rest, 0))
    ensures var r := ReadDigits(n, ds + rest);
      r.count == |ds| && r.rest == rest && r.mantissa as real == Scale(n as real, |ds|) + PlaceValue(ds, |ds| - 1)
    decreases |ds|
  {
    if ds == "" {
      assert ds + rest == rest;
    } else {
      var d := DigitValue(ds[0]);
      assert (ds + rest)[1..] == ds[1..] + rest;
      ReadDigitsShifts(n * 10 + d, ds[1..], rest);
      ScaleSum(10.0 * n as real, d as real, |ds| - 1);
      ScaleTen(n as real, |ds| - 1);
    }
  }

  /** The digits read are the ones a left-to-right reading of the numeral gives. */
  lemma {:induction false} ReadDigitsSnoc(n: nat, ds: string, rest: string)
    requires AllDigits(ds) && ds != "" && !Digit(At(rest, 0))
    ensures ReadDigits(n, ds + rest).mantissa
         == ReadDigits(n, ds[..|ds| - 1]).mantissa * 10 + DigitValue(ds[|ds| - 1])
    decreases |ds|
  {
    assert (ds + rest)[1..] == ds[1..] + rest;
    var init := ds[..|ds| - 1];
    if |ds| == 1 {
      assert init == "" && ds[1..] + rest == rest;
    } else {
      ReadDigitsSnoc(n * 10 + DigitValue(ds[0]), ds[1..], rest);
      assert ds[1..][..|ds| - 2] == init[1..];
    }
  }

  lemma {:induction false} ReadDigitsNat(ds: string, rest: string)
    requires AllDigits(ds) && !Digit(At(rest, 0))
    ensures ReadDigits(0, ds + rest).mantissa == NatValue(ds)
    decreases |ds|
  {
    if ds == "" {
      assert ds + rest == rest;
    } else {
      var init := ds[..|ds| - 1];
      ReadDigitsSnoc(0, ds, rest);
      ReadDigitsNat(init, "");
      assert init + "" == init;
    }
  }

  lemma {:induction false} PlaceValueShift(ds: string, weight: int, k: int)
    ensures Scale(PlaceValue(ds, weight), k) == PlaceValue(ds, weight + k)
  {
    if ds == "" {
      ZeroScales(k);
    } else {
      PlaceValueShift(ds[1..], weight - 1, k);
      var d := DigitValue(ds[0]) as real;
      ScaleTwice(d, weight, k);
      ScaleSum(Scale(d, weight), PlaceValue(ds[1..], weight - 1), k);
    }
  }

  lemma {:induction false} ZeroScales(k: int)
    ensures Scale(0.0, k) == 0.0
    decreases if k < 0 then -k else k
  {
    if k != 0 {
      ZeroScales(if k > 0 then k - 1 else k + 1);
    }
  }

  // ----- the main result -----

  lemma ZeroReads(rest: string)
    requires !Digit(At(rest, 0))
    ensures WholePart(AfterZero("0" + rest)) == Run(0, 0, rest) && PlaceValue("0", 0) == 0.0
  {
    assert ("0" + rest)[1..] == rest;
    assert "0"[1..] == "";
  }

  lemma WholeReads(whole: string, rest: string)
    requires AllDigits(whole) && (|whole| >= 2 && whole[0] == '0' ==> whole[1] != '0') && !Digit(At(rest, 0))
    ensures var w := WholePart(AfterZero(whole + rest));
      w.rest == rest && w.mantissa as real == PlaceValue(whole, |whole| - 1)
  {
    hide PlaceValue, Scale, ReadDigits, WholePart, AfterZero;
    if whole == "" {
      NoDigits(rest);
    } else if whole == "0" {
      ZeroReads(rest);
    } else if whole[0] == '0' {
      ZeroLedReads(whole, rest);
    } else {
      PlainReads(whole, rest);
    }
  }

  lemma PlainReads(whole: string, rest: string)
    requires AllDigits(whole) && whole != "" && whole[0] != '0' && !Digit(At(rest, 0))
    ensures var w := WholePart(AfterZero(whole + rest));
      w.rest == rest && w.mantissa as real == PlaceValue(whole, |whole| - 1)
  {
    hide PlaceValue, Scale, ReadDigits;
    ReadDigitsShifts(0, whole, rest);
    ZeroScales(|whole|);
  }

  lemma ZeroLedReads(whole: string, rest: string)
    requires AllDigits(whole) && |whole| >= 2 && whole[0] == '0' && whole[1] != '0' && !Digit(At(rest, 0))
    ensures var w := WholePart(AfterZero(whole + rest));
      w.rest == rest && w.mantissa as real == PlaceValue(whole, |whole| - 1)
  {
    hide PlaceValue, Scale, ReadDigits;
    var w := whole[1..];
    assert (whole + rest)[1..] == w + rest;
    ReadDigitsShifts(0, w, rest);
    ZeroScales(|w|);
    LeadingZero(whole);
  }

  lemma NoDigits(rest: string)
    requires !Digit(At(rest, 0))
    ensures WholePart(AfterZero("" + rest)) == Run(0, 0, rest) && PlaceValue("", -1) == 0.0
  {
    assert "" + rest == rest;
  }

  lemma LeadingZero(whole: string)
    requires |whole| >= 2 && whole[0] == '0'
    ensures PlaceValue(whole, |whole| - 1) == PlaceValue(whole[1..], |whole| - 2)
  {
    ZeroScales(|whole| - 1);
  }

  lemma FractionReads(n: nat, fraction: string, rest: string)
    requires AllDigits(fraction) && !Digit(At(rest, 0)) && At(rest, 0) != '.'
    ensures var f := Fraction(n, FractionText(fraction) + rest);
      && f.rest == rest && f.count == |fraction|
      && f.mantissa as real == Scale(n as real, |fraction|) + PlaceValue(fraction, |fraction| - 1)
  {
    if fraction == "" {
      assert FractionText(fraction) + rest == rest;
    } else {
      assert (FractionText(fraction) + rest)[1..] == fraction + rest;
      ReadDigitsShifts(n, fraction, rest);
    }
  }

  lemma ExponentReads(e: Exp, rest: string)
    requires e.Exp? ==>
               && e.marker in "eE" && e.sign in ["", "+", "-"] && AllDigits(e.digits)
               && (e.sign == "" && e.digits == "" ==> At(rest, 0) != '+' && At(rest, 0) != '-')
    requires NumberEnds(rest)
    ensures Exponent(ExpText(e) + rest) == (ExpValue(e), rest)
  {
    if e.NoExp? {
      assert ExpText(e) + rest == rest;
    } else {
      var t := (ExpText(e) + rest)[1..];
      assert t == e.sign + (e.digits + rest);
      assert e.sign == "" || t[1..] == e.digits + rest;
      assert e.sign == "" ==> t == e.digits + rest && At(t, 0) != '+' && At(t, 0) != '-';
      ReadDigitsNat(e.digits, rest);
      ReadDigitsShifts(0, e.digits, rest);
    }
  }

  /** Scale and exponent put the mantissa back at its place. */
  lemma Rescale(w: real, fraction: string, mantissa: real, e: int)
    requires mantissa == Scale(w, |fraction|) + PlaceValue(fraction, |fraction| - 1)
    ensures Scale(mantissa, e - |fraction|) == Scale(w + PlaceValue(fraction, -1), e)
  {
    var k := |fraction|;
    var f := PlaceValue(fraction, -1);
    PlaceValueShift(fraction, -1, k);
    ScaleSum(w, f, k);
    ScaleTwice(w + f, k, e - k);
  }

  function Behind(l: Literal, rest: string): string {
    l.whole + (FractionText(l.fraction) + (ExpText(l.exp) + rest))
  }

  lemma LiteralSplits(l: Literal, rest: string)
    ensures LiteralText(l) + rest == (if l.minus then "-" else "") + Behind(l, rest)
  {
  }

  /** The parts of a literal delimit each other. */
  lemma PartsDelimit(l: Literal, rest: string)
    requires Lenient(l, rest) && NumberEnds(rest)
    ensures var t3 := ExpText(l.exp) + rest;
      && !Digit(At(t3, 0)) && At(t3, 0) != '.'
      && !Digit(At(FractionText(l.fraction) + t3, 0))
      && (l.minus || Digit(At(Behind(l, rest), 0)))
  {
  }

  lemma SignReads(minus: bool, t: string)
    requires minus || Digit(At(t, 0))
    ensures var s := (if minus then "-" else "") + t;
      AfterSign(s) == t && (At(s, 0) == '-') == minus
  {
    assert !minus ==> (if minus then "-" else "") + t == t;
  }

  lemma GrammarParts(l: Literal, rest: string)
    requires Lenient(l, rest)
    ensures AllDigits(l.whole) && (|l.whole| >= 2 && l.whole[0] == '0' ==> l.whole[1] != '0') && AllDigits(l.fraction)
    ensures l.exp.Exp? ==>
      && l.exp.marker in "eE" && l.exp.sign in ["", "+", "-"] && AllDigits(l.exp.digits)
      && (l.exp.sign == "" && l.exp.digits == "" ==> At(rest, 0) != '+' && At(rest, 0) != '-')
  {
  }

  /** The unsigned part of a literal. */
  lemma UnsignedReads(l: Literal, rest: string)
    requires Lenient(l, rest) && NumberEnds(rest)
    ensures ParseUnsigned(Behind(l, rest)) == Parsed(Magnitude(l), rest)
  {
    hide PlaceValue, Scale, WholePart, Fraction, Exponent, AfterZero, Lenient, ExpText, FractionText;
    var t3 := ExpText(l.exp) + rest;
    var t2 := FractionText(l.fraction) + t3;
    PartsDelimit(l, rest);
    GrammarParts(l, rest);
    WholeReads(l.whole, t2);
    var w := WholePart(AfterZero(l.whole + t2));
    FractionReads(w.mantissa, l.fraction, t3);
    ExponentReads(l.exp, rest);
    Rescale(PlaceValue(l.whole, |l.whole| - 1), l.fraction, Fraction(w.mantissa, t2).mantissa as real, ExpValue(l.exp));
  }

  /** Every literal of RFC 8259 is read to its end and to the value it denotes. */
  lemma LiteralParses(l: Literal, rest: string)
    requires Grammatical(l) && NumberEnds(rest)
    ensures ParseNumber(LiteralText(l) + rest) == Parsed(LiteralValue(l), rest)
  {
    GrammaticalIsLenient(l, rest);
    LenientParses(l, rest);
  }

  /** And so is every literal that the library reads besides. */
  lemma LenientParses(l: Literal, rest: string)
    requires Lenient(l, rest) && NumberEnds(rest)
    ensures ParseNumber(LiteralText(l) + rest) == Parsed(LiteralValue(l), rest)
  {
    LiteralSplits(l, rest);
    PartsDelimit(l, rest);
    UnsignedReads(l, rest);
    SignReads(l.minus, Behind(l, rest));
  }

  // ----- integers -----

  lemma {:induction false} NumeralValue(n: nat)
    ensures NatValue(Numeral(n)) == n
  {
    if n >= 10 {
      NumeralValue(n / 10);
      assert Numeral(n)[..|Numeral(n)| - 1] == Numeral(n / 10);
    } else {
      assert Numeral(n)[..0] == "";
    }
  }

  lemma NumeralReads(n: nat, rest: string)
    requires NumberEnds(rest)
    ensures var w := WholePart(AfterZero(Numeral(n) + rest));
      w.mantissa == n && w.rest == rest
  {
    var ds := Numeral(n);
    if n == 0 {
      assert (ds + rest)[1..] == rest;
    } else {
      ReadDigitsNat(ds, rest);
      ReadDigitsShifts(0, ds, rest);
      NumeralValue(n);
    }
  }

  /** Parsing the decimal print of an integer returns it. */
  lemma IntegerParses(n: int, rest: string)
    requires NumberEnds(rest)
    ensures ParseNumber(IntText(n) + rest) == Parsed(n as real, rest)
  {
    var m := if n < 0 then -n else n;
    var t := Numeral(m) + rest;
    assert IntText(n) + rest == (if n < 0 then "-" else "") + t;
    SignReads(n < 0, t);
    NumeralReads(m, rest);
    assert Scale(m as real, 0) == m as real;
  }

  // ----- what is read is such a literal -----

  /** The digits at the front of a text. */
  lemma {:induction false} DigitsSplit(n: nat, s: string)
    ensures var k := ReadDigits(n, s).count; var r := ReadDigits(n, s).rest;
      k <= |s| && AllDigits(s[..k]) && s == s[..k] + r && (k < |s| ==> r == s[k..])
    decreases |s|
  {
    if s != "" && Digit(s[0]) {
      DigitsSplit(n * 10 + DigitValue(s[0]), s[1..]);
      var k := ReadDigits(n, s).count;
      assert s[..k] == [s[0]] + s[1..][..k - 1];
      assert s == [s[0]] + s[1..];
    }
  }

  lemma AllRead(u: string)
    requires ReadDigits(0, u).rest == ""
    ensures AllDigits(u)
  {
    DigitsSplit(0, u);
    assert u[..|u|] == u;
  }

  lemma ExpSplits(s: string) returns (e: Exp)
    requires Exponent(s).1 == ""
    ensures s == ExpText(e)
    ensures e.Exp? ==> e.marker in "eE" && e.sign in ["", "+", "-"] && AllDigits(e.digits)
  {
    hide ReadDigits, AllDigits;
    if s == "" {
      e := NoExp;
    } else {
      var t := s[1..];
      var sign := if At(t, 0) == '+' then "+" else if At(t, 0) == '-' then "-" else "";
      var u := if At(t, 0) == '+' || At(t, 0) == '-' then t[1..] else t;
      AllRead(u);
      e := Exp(s[0], sign, u);
      ExpJoins(s, t, sign, u);
    }
  }

  lemma ExpJoins(s: string, t: string, sign: string, u: string)
    requires s != "" && t == s[1..]
    requires sign == (if At(t, 0) == '+' then "+" else if At(t, 0) == '-' then "-" else "")
    requires u == if At(t, 0) == '+' || At(t, 0) == '-' then t[1..] else t
    ensures s == [s[0]] + sign + u
  {
    assert t == sign + u;
  }

  lemma FractionSplits(n: nat, s: string) returns (fraction: string)
    ensures AllDigits(fraction) && s == FractionText(fraction) + Fraction(n, s).rest
  {
    if At(s, 0) == '.' && Digit(At(s, 1)) {
      DigitsSplit(n, s[1..]);
      var r := ReadDigits(n, s[1..]);
      fraction := s[1..][..r.count];
      assert s == "." + s[1..];
      assert r.count > 0;
      Grouped(".", fraction, r.rest);
    } else {
      fraction := "";
      assert FractionText("") + s == s;
    }
  }

  lemma Grouped(a: string, b: string, c: string)
    ensures a + (b + c) == a + b + c
  {
  }

  lemma WholeSplits(s: string) returns (whole: string)
    ensures AllDigits(whole) && (|whole| >= 2 && whole[0] == '0' ==> whole[1] != '0') && s == whole + WholePart(AfterZero(s)).rest
    ensures whole == "" ==> !Digit(At(s, 0))
  {
    var z := AfterZero(s);
    var k := WholePart(z).count;
    if '1' <= At(z, 0) <= '9' {
      DigitsSplit(0, z);
      assert z[..k][0] == z[0];
    }
    var front := if At(s, 0) == '0' then "0" else "";
    whole := front + z[..k];
    WholeJoins(s, z, k, WholePart(z).rest);
  }

  lemma WholeJoins(s: string, z: string, k: nat, rest: string)
    requires z == AfterZero(s) && k <= |z| && z == z[..k] + rest && AllDigits(z[..k])
    ensures var whole := (if At(s, 0) == '0' then "0" else "") + z[..k]; AllDigits(whole) && s == whole + rest
  {
    var front := if At(s, 0) == '0' then "0" else "";
    assert s == front + z;
    Grouped(front, z[..k], rest);
    var whole := front + z[..k];
    forall i | 0 <= i < |whole| ensures Digit(whole[i]) {
      if i >= |front| {
        assert whole[i] == z[..k][i - |front|];
      }
    }
  }

  /** A text that is read as a number to its end is such a literal. */
  lemma NumberIsLenient(text: string) returns (l: Literal)
    requires (At(text, 0) == '-' || Digit(At(text, 0))) && ParseNumber(text).rest == ""
    ensures Lenient(l, "") && text == LiteralText(l)
  {
    hide ReadDigits, Exponent, Fraction, WholePart, AfterZero, FractionText, ExpText, LiteralText;
    var s := AfterSign(text);
    var whole := WholeSplits(s);
    var w := WholePart(AfterZero(s));
    var fraction := FractionSplits(w.mantissa, w.rest);
    var f := Fraction(w.mantissa, w.rest);
    var e := ExpSplits(f.rest);
    l := Literal(At(text, 0) == '-', whole, fraction, e);
    SignSplits(text);
    LiteralSplits(l, "");
    assert ExpText(e) + "" == ExpText(e) && LiteralText(l) + "" == LiteralText(l);
  }

  lemma SignSplits(text: string)
    ensures text == (if At(text, 0) == '-' then "-" else "") + AfterSign(text)
  {
  }
}
