/**
 Decimal numerals: what `sprintf("%d")` writes, and powers of ten with a
 negative exponent for `pow(10.0, scale)`.
 */
module Numerals {
  import opened CString

  function DigitChar(d: nat): char
    requires d < 10
  {
    '0' + d as char
  }

  function DigitValue(c: char): (d: int)
    ensures Digit(c) ==> 0 <= d < 10
  {
    c as int - '0' as int
  }

  /** Decimal digits without leading zeros; "0" for zero. */
  function Numeral(n: nat): (s: string)
    ensures s != "" && forall i | 0 <= i < |s| :: Digit(s[i])
    ensures 0 < n ==> s[0] != '0'
    ensures n == 0 ==> s == "0"
  {
    if n < 10 then [DigitChar(n)] else Numeral(n / 10) + [DigitChar(n % 10)]
  }

  /** `sprintf("%d", n)` */
  function IntText(n: int): string {
    if n < 0 then "-" + Numeral(-n) else Numeral(n)
  }

  /** What `%d` writes: a minus sign for a negative number, then digits, the first of them no
      zero unless it is the only one. */
  lemma IntTextShape(n: int)
    ensures var t := IntText(n); var digits := if n < 0 then t[1..] else t;
      && t != "" && (n < 0 ==> t[0] == '-') && digits != ""
      && (forall i | 0 <= i < |digits| :: '0' <= digits[i] <= '9') && (digits[0] == '0' <==> n == 0) && (n == 0 ==> t == "0")
  {
    if n < 0 {
      assert ("-" + Numeral(-n))[1..] == Numeral(-n);
    }
  }

  /** `x * pow(10.0, k)` */
  function Scale(x: real, k: int): real
    decreases if k < 0 then -k else k
  {
    if k == 0 then x else if k > 0 then 10.0 * Scale(x, k - 1) else Scale(x, k + 1) / 10.0
  }

  lemma ScaleStep(x: real, k: int)
    ensures Scale(x, k + 1) == 10.0 * Scale(x, k)
  {
  }

  lemma {:induction false} ScaleTen(x: real, k: int)
    ensures Scale(10.0 * x, k) == Scale(x, k + 1)
    decreases if k < 0 then -k else k
  {
    if k > 0 {
      ScaleTen(x, k - 1);
    } else if k < 0 {
      ScaleTen(x, k + 1);
      ScaleStep(x, k + 1);
      ScaleStep(x, k);
    }
  }

  lemma {:induction false} ScaleSum(x: real, y: real, k: int)
    ensures Scale(x + y, k) == Scale(x, k) + Scale(y, k)
    decreases if k < 0 then -k else k
  {
    if k > 0 {
      ScaleSum(x, y, k - 1);
    } else if k < 0 {
      ScaleSum(x, y, k + 1);
    }
  }

  lemma {:induction false} ScaleTwice(x: real, a: int, b: int)
    ensures Scale(Scale(x, a), b) == Scale(x, a + b)
    decreases if b < 0 then -b else b
  {
    if b > 0 {
      ScaleTwice(x, a, b - 1);
      ScaleStep(x, a + b - 1);
    } else if b < 0 {
      ScaleTwice(x, a, b + 1);
      ScaleStep(x, a + b);
    }
  }

  /** A numeral has as many digits as the tens it takes to pass its number. */
  lemma {:induction false} NumeralLength(n: nat, k: nat)
    requires 0 < k && (n as real) < Scale(1.0, k)
    ensures |Numeral(n)| <= k
  {
    if n >= 10 {
      assert Scale(1.0, 1) == 10.0 * Scale(1.0, 0);
      assert (n / 10 * 10) as real <= n as real;
      NumeralLength(n / 10, k - 1);
    }
  }

  /** Every 32-bit integer fits the 21 bytes that `print_number` reserves. */
  lemma IntTextFits(n: int)
    requires -0x8000_0000 <= n <= 0x7fff_ffff
    ensures 1 <= |IntText(n)| <= 11
  {
    var m := if n < 0 then -n else n;
    assert Scale(1.0, 2) == 100.0;
    assert Scale(1.0, 4) == 10000.0;
    assert Scale(1.0, 6) == 1000000.0;
    assert Scale(1.0, 8) == 100000000.0;
    assert Scale(1.0, 10) == 10000000000.0;
    NumeralLength(m, 10);
  }
}
