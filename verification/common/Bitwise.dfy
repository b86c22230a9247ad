/** Words as natural numbers, and the C operators on them defined bit by bit. */
module Bitwise {

  /** `a | b` */
  function BitOr(a: nat, b: nat): nat {
    if a == 0 then b
    else if b == 0 then a
    else 2 * BitOr(a / 2, b / 2) + (if a % 2 == 1 || b % 2 == 1 then 1 else 0)
  }

  /** `a & b` */
  function BitAnd(a: nat, b: nat): nat {
    if a == 0 || b == 0 then 0
    else 2 * BitAnd(a / 2, b / 2) + (if a % 2 == 1 && b % 2 == 1 then 1 else 0)
  }

  /** `a >> m` */
  function ShiftRight(a: nat, m: nat): nat {
    if m == 0 then a else ShiftRight(a / 2, m - 1)
  }

  /** `a << m`, in a word wide enough */
  function ShiftLeft(a: nat, m: nat): nat {
    if m == 0 then a else 2 * ShiftLeft(a, m - 1)
  }

  function Pow2(n: nat): (p: nat)
    ensures 0 < p
  {
    if n == 0 then 1 else 2 * Pow2(n - 1)
  }

  lemma SmallPowers()
    ensures Pow2(3) == 8 && Pow2(4) == 0x10 && Pow2(5) == 0x20 && Pow2(6) == 0x40 && Pow2(8) == 0x100 && Pow2(10) == 0x400
  {
    assert Pow2(7) == 0x80 && Pow2(9) == 0x200;
  }

  lemma BitOrHalf(a: nat, b: nat)
    ensures BitOr(a, b) / 2 == BitOr(a / 2, b / 2)
    ensures BitOr(a, b) % 2 == if a % 2 == 1 || b % 2 == 1 then 1 else 0
  {
  }

  lemma BitAndHalf(a: nat, b: nat)
    ensures BitAnd(a, b) / 2 == BitAnd(a / 2, b / 2)
    ensures BitAnd(a, b) % 2 == if a % 2 == 1 && b % 2 == 1 then 1 else 0
  {
  }

  lemma {:induction false} ShiftHalf(a: nat, m: nat)
    ensures ShiftRight(a, m) / 2 == ShiftRight(a / 2, m)
    decreases m
  {
    if m > 0 {
      ShiftHalf(a / 2, m - 1);
    }
  }

  // ----- what masks and marks do to numbers -----

  /** And-ing with `k` ones keeps the lowest `k` bits. */
  lemma {:induction false} AndOnes(a: nat, k: nat)
    ensures BitAnd(a, Pow2(k) - 1) == a % Pow2(k)
    decreases k
  {
    if k > 0 {
      AndOnes(a / 2, k - 1);
      BitAndHalf(a, Pow2(k) - 1);
      assert (Pow2(k) - 1) / 2 == Pow2(k - 1) - 1 && (Pow2(k) - 1) % 2 == 1;
      ModDoubles(a, Pow2(k - 1));
    }
  }

  lemma ModDoubles(a: nat, m: nat)
    requires 0 < m
    ensures a % (2 * m) == 2 * (a / 2 % m) + a % 2
  {
    var q, r := a / 2 / m, a / 2 % m;
    assert a / 2 == m * q + r;
    ModIs(a, 2 * m, q, 2 * r + a % 2);
  }

  lemma ModIs(a: nat, m: nat, q: nat, r: nat)
    requires r < m && a == m * q + r
    ensures a % m == r
  {
    var d := a / m - q;
    assert m * d == r - a % m;
    Multiples(m, d);
  }

  lemma Multiples(m: int, d: int)
    requires 0 < m
    ensures d >= 1 ==> m * d >= m
    ensures d <= -1 ==> m * d <= -m
    ensures d == 0 ==> m * d == 0
  {
  }

  /** Or-ing words without a common bit position adds them. */
  lemma {:induction false} OrApart(a: nat, b: nat, k: nat)
    requires a < Pow2(k)
    ensures BitOr(a, ShiftLeft(b, k)) == a + ShiftLeft(b, k)
    decreases k
  {
    if k > 0 {
      OrApart(a / 2, b, k - 1);
      BitOrHalf(a, ShiftLeft(b, k));
    }
  }

  lemma OrAndHalf(a: nat, b: nat, c: nat)
    ensures BitAnd(BitOr(a, b), c) ==
      2 * BitAnd(BitOr(a / 2, b / 2), c / 2) + (if c % 2 == 1 && (a % 2 == 1 || b % 2 == 1) then 1 else 0)
  {
    hide BitOr, BitAnd;
    BitOrHalf(a, b);
    BitAndHalf(BitOr(a, b), c);
  }

  /** Setting bit `k + 1` and masking bit `k` out: the lowest `k` bits under the mark 10. */
  lemma {:induction false} MarkOverLow(a: nat, k: nat)
    ensures BitAnd(BitOr(a, 2 * Pow2(k)), 3 * Pow2(k) - 1) == 2 * Pow2(k) + a % Pow2(k)
    decreases k
  {
    hide BitOr, BitAnd;
    OrAndHalf(a, 2 * Pow2(k), 3 * Pow2(k) - 1);
    if k == 0 {
      OrAndHalf(a / 2, 1, 1);
      NoBits(BitOr(a / 4, 0));
    } else {
      MarkOverLow(a / 2, k - 1);
      assert 2 * Pow2(k) / 2 == 2 * Pow2(k - 1) && (3 * Pow2(k) - 1) / 2 == 3 * Pow2(k - 1) - 1;
      ModDoubles(a, Pow2(k - 1));
    }
  }

  lemma NoBits(a: nat)
    ensures BitAnd(a, 0) == 0
  {
  }

  lemma {:induction false} ShiftLeftIs(a: nat, m: nat)
    ensures ShiftLeft(a, m) == a * Pow2(m)
  {
    if m > 0 {
      ShiftLeftIs(a, m - 1);
    }
  }

  lemma BitOrCommutes(a: nat, b: nat)
    ensures BitOr(a, b) == BitOr(b, a)
  {
  }
}
