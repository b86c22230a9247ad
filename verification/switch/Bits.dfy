/**
 Words of 16 bits seen as sets of bit positions. Every operation is given by its
 bits, so that the rest of the development need not reason about words.
 */
module Bits {

  const WIDTH: nat := 16

  /** 1 << i */
  function Mask(i: nat): bv16
    requires i < WIDTH
  {
    match i
    case 0 => 0x0001 case 1 => 0x0002 case 2 => 0x0004 case 3 => 0x0008
    case 4 => 0x0010 case 5 => 0x0020 case 6 => 0x0040 case 7 => 0x0080
    case 8 => 0x0100 case 9 => 0x0200 case 10 => 0x0400 case 11 => 0x0800
    case 12 => 0x1000 case 13 => 0x2000 case 14 => 0x4000 case 15 => 0x8000
  }

  predicate Single(m: bv16) {
    m != 0 && m & (m - 1) == 0
  }

  lemma MaskSingle(i: nat)
    requires i < WIDTH
    ensures Single(Mask(i))
  {
  }

  predicate Has(v: bv16, m: bv16) {
    v & m != 0
  }

  lemma AndRaw(a: bv16, b: bv16, m: bv16)
    requires m != 0 && m & (m - 1) == 0
    ensures (a & b) & m != 0 <==> a & m != 0 && b & m != 0
  {
  }

  lemma OrRaw(a: bv16, b: bv16, m: bv16)
    ensures (a | b) & m != 0 <==> a & m != 0 || b & m != 0
  {
  }

  lemma NotRaw(b: bv16, m: bv16)
    requires m != 0 && m & (m - 1) == 0
    ensures !b & m != 0 <==> b & m == 0
  {
  }

  lemma HalveRaw(v: bv16, m: bv16)
    requires m & 0x8000 == 0
    ensures (v >> 1) & m != 0 <==> v & (m << 1) != 0
  {
  }

  lemma DoubleMask(i: nat)
    requires i + 1 < WIDTH
    ensures Mask(i + 1) == Mask(i) << 1 && Mask(i) & 0x8000 == 0
  {
  }

  lemma AndHas(a: bv16, b: bv16, m: bv16)
    requires Single(m)
    ensures Has(a & b, m) <==> Has(a, m) && Has(b, m)
  {
    AndRaw(a, b, m);
  }

  lemma OrHas(a: bv16, b: bv16, m: bv16)
    ensures Has(a | b, m) <==> Has(a, m) || Has(b, m)
  {
    OrRaw(a, b, m);
  }

  lemma NotHas(b: bv16, m: bv16)
    requires Single(m)
    ensures Has(!b, m) <==> !Has(b, m)
  {
    NotRaw(b, m);
  }

  lemma HalveHas(v: bv16, m: bv16)
    requires m & 0x8000 == 0
    ensures Has(v >> 1, m) <==> Has(v, m << 1)
  {
    HalveRaw(v, m);
  }

  lemma HalveTop(v: bv16)
    ensures !Has(v >> 1, 0x8000)
  {
  }

  predicate Bit(v: bv16, i: nat)
    requires i < WIDTH
  {
    Has(v, Mask(i))
  }

  lemma MaskBit(j: nat, i: nat)
    requires j < WIDTH && i < WIDTH
    ensures Bit(Mask(j), i) <==> i == j
  {
  }

  lemma AndBit(a: bv16, b: bv16, i: nat)
    requires i < WIDTH
    ensures Bit(a & b, i) <==> Bit(a, i) && Bit(b, i)
  {
    hide Mask, Single, Has;
    MaskSingle(i);
    AndHas(a, b, Mask(i));
  }

  function And(a: bv16, b: bv16): (r: bv16)
    ensures forall i :: 0 <= i < WIDTH ==> (Bit(r, i) <==> Bit(a, i) && Bit(b, i))
  {
    assert forall i :: 0 <= i < WIDTH ==> (Bit(a & b, i) <==> Bit(a, i) && Bit(b, i)) by {
      hide *;
      forall i | 0 <= i < WIDTH ensures Bit(a & b, i) <==> Bit(a, i) && Bit(b, i) {
        AndBit(a, b, i);
      }
    }
    a & b
  }

  lemma OrBit(a: bv16, b: bv16, i: nat)
    requires i < WIDTH
    ensures Bit(a | b, i) <==> Bit(a, i) || Bit(b, i)
  {
    hide Mask, Single, Has;
    MaskSingle(i);
    OrHas(a, b, Mask(i));
  }

  function Or(a: bv16, b: bv16): (r: bv16)
    ensures forall i :: 0 <= i < WIDTH ==> (Bit(r, i) <==> Bit(a, i) || Bit(b, i))
  {
    assert forall i :: 0 <= i < WIDTH ==> (Bit(a | b, i) <==> Bit(a, i) || Bit(b, i)) by {
      hide *;
      forall i | 0 <= i < WIDTH ensures Bit(a | b, i) <==> Bit(a, i) || Bit(b, i) {
        OrBit(a, b, i);
      }
    }
    a | b
  }

  lemma NotBit(b: bv16, i: nat)
    requires i < WIDTH
    ensures Bit(!b, i) <==> !Bit(b, i)
  {
    hide Mask, Single, Has;
    MaskSingle(i);
    NotHas(b, Mask(i));
  }

  function Not(b: bv16): (r: bv16)
    ensures forall i :: 0 <= i < WIDTH ==> (Bit(r, i) <==> !Bit(b, i))
  {
    assert forall i :: 0 <= i < WIDTH ==> (Bit(!b, i) <==> !Bit(b, i)) by {
      hide *;
      forall i | 0 <= i < WIDTH ensures Bit(!b, i) <==> !Bit(b, i) {
        NotBit(b, i);
      }
    }
    !b
  }

  /** a & ~b */
  function Without(a: bv16, b: bv16): (r: bv16)
    ensures forall i :: 0 <= i < WIDTH ==> (Bit(r, i) <==> Bit(a, i) && !Bit(b, i))
  {
    And(a, Not(b))
  }

  lemma HalveBit(v: bv16, i: nat)
    requires i < WIDTH
    ensures Bit(v >> 1, i) <==> i + 1 < WIDTH && Bit(v, i + 1)
  {
    hide Has;
    if i + 1 < WIDTH {
      hide Mask;
      DoubleMask(i);
      HalveHas(v, Mask(i));
    } else {
      HalveTop(v);
    }
  }

  /** v >> 1 */
  function Halve(v: bv16): (r: bv16)
    ensures forall i :: 0 <= i < WIDTH ==> (Bit(r, i) <==> i + 1 < WIDTH && Bit(v, i + 1))
  {
    var h := v >> 1;
    assert forall i :: 0 <= i < WIDTH ==> (Bit(h, i) <==> i + 1 < WIDTH && Bit(v, i + 1)) by {
      hide *;
      forall i | 0 <= i < WIDTH ensures Bit(h, i) <==> i + 1 < WIDTH && Bit(v, i + 1) {
        HalveBit(v, i);
      }
    }
    h
  }

  predicate Odd(v: bv16)
    ensures Odd(v) <==> Bit(v, 0)
  {
    v & 1 != 0
  }

  lemma SameWords(a: bv16, b: bv16)
    requires Has(a, 0x0001) == Has(b, 0x0001) && Has(a, 0x0002) == Has(b, 0x0002)
    requires Has(a, 0x0004) == Has(b, 0x0004) && Has(a, 0x0008) == Has(b, 0x0008)
    requires Has(a, 0x0010) == Has(b, 0x0010) && Has(a, 0x0020) == Has(b, 0x0020)
    requires Has(a, 0x0040) == Has(b, 0x0040) && Has(a, 0x0080) == Has(b, 0x0080)
    requires Has(a, 0x0100) == Has(b, 0x0100) && Has(a, 0x0200) == Has(b, 0x0200)
    requires Has(a, 0x0400) == Has(b, 0x0400) && Has(a, 0x0800) == Has(b, 0x0800)
    requires Has(a, 0x1000) == Has(b, 0x1000) && Has(a, 0x2000) == Has(b, 0x2000)
    requires Has(a, 0x4000) == Has(b, 0x4000) && Has(a, 0x8000) == Has(b, 0x8000)
    ensures a == b
  {
  }

  /** Two words with the same bits are the same. */
  lemma SameBits(a: bv16, b: bv16)
    requires forall i :: 0 <= i < WIDTH ==> (Bit(a, i) <==> Bit(b, i))
    ensures a == b
  {
    hide Mask, Has;
    forall i | 0 <= i < WIDTH ensures Has(a, Mask(i)) == Has(b, Mask(i)) {
      assert Bit(a, i) <==> Bit(b, i);
    }
    Masks();
    SameWords(a, b);
  }

  lemma Masks()
    ensures Mask(0) == 0x0001 && Mask(1) == 0x0002 && Mask(2) == 0x0004 && Mask(3) == 0x0008
    ensures Mask(4) == 0x0010 && Mask(5) == 0x0020 && Mask(6) == 0x0040 && Mask(7) == 0x0080
    ensures Mask(8) == 0x0100 && Mask(9) == 0x0200 && Mask(10) == 0x0400 && Mask(11) == 0x0800
    ensures Mask(12) == 0x1000 && Mask(13) == 0x2000 && Mask(14) == 0x4000 && Mask(15) == 0x8000
  {
  }

  lemma ZeroBits()
    ensures forall i :: 0 <= i < WIDTH ==> !Bit(0, i)
  {
  }

  predicate Within(v: bv16, w: bv16) {
    forall i :: 0 <= i < WIDTH && Bit(v, i) ==> Bit(w, i)
  }
}
