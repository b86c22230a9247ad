/**
 `pow2gt`, with the C word modelled as a natural number below 2^31.
 */
module PowerOfTwo {

  import opened Bitwise

  function Smear(x: nat, m: nat): nat {
    BitOr(x, ShiftRight(x, m))
  }

  function Pow2gt(x: nat): nat
    requires 1 <= x
  {
    Smear(Smear(Smear(Smear(Smear(x - 1, 1), 2), 4), 8), 16) + 1
  }

  // ----- bits -----

  /** `a` has `n` bits and the top `m` of them are ones (all of them when `m >= n`). */
  ghost predicate TopOnes(a: nat, n: nat, m: nat) {
    a < Pow2(n) && Pow2(n) <= a + Pow2(if m < n then n - m else 0)
  }

  lemma {:induction false} ShiftOfOnes(a: nat, n: nat, j: nat, m: nat)
    requires j <= m <= n && a < Pow2(n) <= a + Pow2(j)
    ensures ShiftRight(a, m) + 1 == Pow2(n - m)
    decreases m
  {
    if m > 0 {
      ShiftOfOnes(a / 2, n - 1, if j > 0 then j - 1 else 0, m - 1);
    }
  }

  lemma HalfTopOnes(a: nat, n: nat, m: nat)
    requires 1 <= n && TopOnes(a, n, m)
    ensures TopOnes(a / 2, n - 1, m)
  {
  }

  /** Or-ing a word with its shift by `m` doubles the run of ones at its top. */
  lemma {:induction false} SmearDoubles(a: nat, n: nat, m: nat)
    requires 1 <= m && TopOnes(a, n, m)
    ensures TopOnes(Smear(a, m), n, 2 * m)
    decreases n
  {
    if n > 0 {
      hide BitOr, ShiftRight;
      HalfTopOnes(a, n, m);
      SmearDoubles(a / 2, n - 1, m);
      ShiftHalf(a, m);
      BitOrHalf(a, ShiftRight(a, m));
      if m < n <= 2 * m {
        ShiftOfOnes(a, n, n - m, m);
        assert ShiftRight(a, m) % 2 == 1;
      }
    } else {
      ShiftZero(m);
    }
  }

  lemma {:induction false} ShiftZero(m: nat)
    ensures ShiftRight(0, m) == 0
  {
    if m > 0 {
      ShiftZero(m - 1);
    }
  }

  /** How many bits it takes to write `a`. */
  function Bits(a: nat): (n: nat)
    ensures a < Pow2(n) && (0 < a ==> 0 < n && Pow2(n - 1) <= a)
    ensures a == 0 ==> n == 0
  {
    if a == 0 then 0 else 1 + Bits(a / 2)
  }

  lemma {:induction false} Pow2Monotone(a: nat, b: nat)
    requires a <= b
    ensures Pow2(a) <= Pow2(b)
    decreases b
  {
    if a < b {
      Pow2Monotone(a, b - 1);
    }
  }

  lemma {:induction false} BitsFit(a: nat, k: nat)
    requires a < Pow2(k)
    ensures Bits(a) <= k
    decreases k
  {
    if a > 0 {
      BitsFit(a / 2, k - 1);
    }
  }

  /** Five smears fill every bit of a word of at most 32 bits. */
  lemma SmearFills(a: nat)
    requires Bits(a) <= 32
    ensures Pow2gt(a + 1) == Pow2(Bits(a))
  {
    hide Smear, Bits;
    var n := Bits(a);
    SmearDoubles(a, n, 1);
    var b := Smear(a, 1);
    SmearDoubles(b, n, 2);
    var c := Smear(b, 2);
    SmearDoubles(c, n, 4);
    var d := Smear(c, 4);
    SmearDoubles(d, n, 8);
    SmearDoubles(Smear(d, 8), n, 16);
  }

  lemma TwoToThe30()
    ensures Pow2(30) == 0x4000_0000
  {
    assert Pow2(6) == 64 && Pow2(12) == 4096 && Pow2(18) == 0x4_0000 && Pow2(24) == 0x100_0000;
  }

  ghost predicate LeastPowerOfTwo(p: nat, x: nat) {
    x <= p && (exists n: nat :: p == Pow2(n)) && forall k: nat | x <= Pow2(k) :: p <= Pow2(k)
  }

  /** Up to 2^30 the result is the least power of two that is not below the argument. */
  lemma Pow2gtIsLeast(x: nat)
    requires 1 <= x <= 0x4000_0000
    ensures LeastPowerOfTwo(Pow2gt(x), x) && x <= Pow2gt(x) <= 0x4000_0000
  {
    hide Pow2gt;
    TwoToThe30();
    var n := Bits(x - 1);
    BitsFit(x - 1, 30);
    SmearFills(x - 1);
    Pow2Monotone(n, 30);
    forall k: nat | x <= Pow2(k)
      ensures Pow2(n) <= Pow2(k)
    {
      BitsFit(x - 1, k);
      Pow2Monotone(n, k);
    }
  }
}
