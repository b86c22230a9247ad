/**
 The bitmaps of the RSTP library: 32-bit words, of which the bits of the ten ports
 are used. The macros are given by the port bits they set, clear, read and compare;
 nothing is assumed of the other bits.
 */
module Bitmap {

  const PORTS: nat := 10

  /** 1 << i */
  function Mask(i: nat): bv32
    requires i < PORTS
  {
    match i
    case 0 => 0x00000001 case 1 => 0x00000002 case 2 => 0x00000004 case 3 => 0x00000008 case 4 => 0x00000010
    case 5 => 0x00000020 case 6 => 0x00000040 case 7 => 0x00000080 case 8 => 0x00000100 case 9 => 0x00000200
  }

  predicate Single(m: bv32) {
    m != 0 && m & (m - 1) == 0
  }

  lemma MaskSingle(i: nat)
    requires i < PORTS
    ensures Single(Mask(i))
  {
  }

  predicate Has(v: bv32, m: bv32) {
    v & m != 0
  }

  predicate Bit(v: bv32, i: nat)
    requires i < PORTS
  {
    Has(v, Mask(i))
  }

  lemma MaskBit(j: nat, i: nat)
    requires j < PORTS && i < PORTS
    ensures Bit(Mask(j), i) <==> i == j
  {
  }

  // ----- words -----

  function Complement(v: bv32): bv32 {
    !v
  }

  lemma AndRaw(a: bv32, b: bv32, m: bv32)
    requires m != 0 && m & (m - 1) == 0
    ensures (a & b) & m != 0 <==> a & m != 0 && b & m != 0
  {
  }

  lemma OrRaw(a: bv32, b: bv32, m: bv32)
    ensures (a | b) & m != 0 <==> a & m != 0 || b & m != 0
  {
  }

  lemma NotRaw(b: bv32, m: bv32)
    requires m != 0 && m & (m - 1) == 0
    ensures !b & m != 0 <==> b & m == 0
  {
  }

  lemma XorRaw(a: bv32, b: bv32, m: bv32)
    requires m != 0 && m & (m - 1) == 0
    ensures (a ^ b) & m != 0 <==> (a & m != 0) != (b & m != 0)
  {
  }

  lemma AndHas(a: bv32, b: bv32, m: bv32)
    requires Single(m)
    ensures Has(a & b, m) <==> (Has(a, m) && Has(b, m))
  {
    AndRaw(a, b, m);
  }

  lemma OrHas(a: bv32, b: bv32, m: bv32)
    requires Single(m)
    ensures Has(a | b, m) <==> (Has(a, m) || Has(b, m))
  {
    OrRaw(a, b, m);
  }

  lemma NotHas(b: bv32, m: bv32)
    requires Single(m)
    ensures Has(Complement(b), m) <==> (!Has(b, m))
  {
    NotRaw(b, m);
  }

  lemma XorHas(a: bv32, b: bv32, m: bv32)
    requires Single(m)
    ensures Has(a ^ b, m) <==> (Has(a, m) != Has(b, m))
  {
    XorRaw(a, b, m);
  }

  lemma AndBit(a: bv32, b: bv32, i: nat)
    requires i < PORTS
    ensures Bit(a & b, i) <==> (Bit(a, i) && Bit(b, i))
  {
    hide Mask, Single, Has;
    MaskSingle(i);
    AndHas(a, b, Mask(i));
  }

  lemma OrBit(a: bv32, b: bv32, i: nat)
    requires i < PORTS
    ensures Bit(a | b, i) <==> (Bit(a, i) || Bit(b, i))
  {
    hide Mask, Single, Has;
    MaskSingle(i);
    OrHas(a, b, Mask(i));
  }

  lemma NotBit(b: bv32, i: nat)
    requires i < PORTS
    ensures Bit(Complement(b), i) <==> (!Bit(b, i))
  {
    hide Mask, Single, Has, Complement;
    MaskSingle(i);
    NotHas(b, Mask(i));
  }

  lemma XorBit(a: bv32, b: bv32, i: nat)
    requires i < PORTS
    ensures Bit(a ^ b, i) <==> (Bit(a, i) != Bit(b, i))
  {
    hide Mask, Single, Has;
    MaskSingle(i);
    XorHas(a, b, Mask(i));
  }

  // ----- the macros -----

  /** BitmapSetBit */
  function SetBit(v: bv32, i: nat): (r: bv32)
    requires i < PORTS
  {
    v | Mask(i)
  }

  lemma SetBitBits(v: bv32, i: nat)
    requires i < PORTS
    ensures forall j :: 0 <= j < PORTS ==> (Bit(SetBit(v, i), j) <==> j == i || Bit(v, j))
  {
    hide Bit, Mask;
    forall j | 0 <= j < PORTS ensures Bit(SetBit(v, i), j) <==> j == i || Bit(v, j) {
      OrBit(v, Mask(i), j);
      MaskBit(i, j);
    }
  }

  /** BitmapClearBit */
  function ClearBit(v: bv32, i: nat): (r: bv32)
    requires i < PORTS
  {
    v & Complement(Mask(i))
  }

  lemma ClearBitBit(v: bv32, i: nat, j: nat)
    requires i < PORTS && j < PORTS
    ensures Bit(ClearBit(v, i), j) <==> j != i && Bit(v, j)
  {
    hide Bit, Mask, Complement;
    AndBit(v, Complement(Mask(i)), j);
    NotBit(Mask(i), j);
    MaskBit(i, j);
  }

  lemma ClearBitBits(v: bv32, i: nat)
    requires i < PORTS
    ensures forall j :: 0 <= j < PORTS ==> (Bit(ClearBit(v, i), j) <==> j != i && Bit(v, j))
  {
    hide *;
    forall j | 0 <= j < PORTS ensures Bit(ClearBit(v, i), j) <==> j != i && Bit(v, j) {
      ClearBitBit(v, i, j);
    }
  }

  /** BitmapXor */
  function Xor(v: bv32, w: bv32): (r: bv32) {
    v ^ w
  }

  /** A word in which some port bit differs is not zero; the converse need not hold. */
  lemma XorBits(v: bv32, w: bv32)
    ensures forall j :: 0 <= j < PORTS ==> (Bit(Xor(v, w), j) <==> Bit(v, j) != Bit(w, j))
    ensures Xor(v, w) == 0 ==> forall j :: 0 <= j < PORTS ==> Bit(v, j) == Bit(w, j)
  {
    hide Bit, Mask;
    forall j | 0 <= j < PORTS
      ensures Bit(Xor(v, w), j) <==> Bit(v, j) != Bit(w, j)
      ensures Xor(v, w) == 0 ==> !Bit(Xor(v, w), j)
    {
      XorBit(v, w, j);
      ZeroBit(j);
    }
  }

  lemma ZeroBit(j: nat)
    requires j < PORTS
    ensures !Bit(0, j)
  {
  }
}
