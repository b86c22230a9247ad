/**
 The transcoding step of `parse_string`, and the two references it is held to:
 UTF-8 as section 3 of RFC 3629 defines it (a decoder that refuses overlong
 and surrogate forms) and UTF-16 pairs as section 2.2 of RFC 2781 does.
 */
module Utf8 {
  import opened CString
  import opened Bitwise
  import opened Wrappers

  /** Value of a hexadecimal digit, -1 for any other byte. */
  function HexValue(c: char): (h: int)
    ensures -1 <= h < 16
  {
    if '0' <= c <= '9' then c as int - '0' as int
    else if 'A' <= c <= 'F' then 10 + c as int - 'A' as int
    else if 'a' <= c <= 'f' then 10 + c as int - 'a' as int
    else -1
  }

  predicate FourHex(p: string) {
    HexValue(At(p, 0)) >= 0 && HexValue(At(p, 1)) >= 0 && HexValue(At(p, 2)) >= 0 && HexValue(At(p, 3)) >= 0
  }

  /** `parse_hex4`: zero as soon as a byte is not a hexadecimal digit. */
  function ParseHex4(p: string): (h: nat)
    ensures h <= 0xffff
  {
    if FourHex(p) then
      ((HexValue(At(p, 0)) * 16 + HexValue(At(p, 1))) * 16 + HexValue(At(p, 2))) * 16 + HexValue(At(p, 3))
    else 0
  }

  /** A continuation byte: the low six bits under the mark 10. */
  function Continuation(uc: nat): char {
    (0x80 + uc % 0x40) as char
  }

  /** The byte-writing switch, in memory order. */
  function Encode(uc: nat): (bytes: string)
    requires uc <= 0x10ffff
    ensures 1 <= |bytes| <= 4
  {
    if uc < 0x80 then [uc as char]
    else if uc < 0x800 then [(0xC0 + uc / 0x40) as char, Continuation(uc)]
    else if uc < 0x10000 then [(0xE0 + uc / 0x1000) as char, Continuation(uc / 0x40), Continuation(uc)]
    else [(0xF0 + uc / 0x40000) as char, Continuation(uc / 0x1000), Continuation(uc / 0x40), Continuation(uc)]
  }

  /** The C expression for a continuation byte. */
  lemma ContinuationExpression(uc: nat)
    ensures BitAnd(BitAnd(BitOr(uc, 0x80), 0xBF), 0xFF) == Continuation(uc) as nat
  {
    hide BitOr, BitAnd, Pow2;
    SmallPowers();
    MarkOverLow(uc, 6);
    AndOnes(BitAnd(BitOr(uc, 0x80), 0xBF), 8);
  }

  predicate Scalar(uc: nat) {
    uc <= 0x10ffff && !(0xD800 <= uc <= 0xDFFF)
  }

  function Tail(c: char): Option<nat> {
    if 0x80 <= c as int <= 0xBF then Some(c as int - 0x80) else None
  }

  /** Section 3 of RFC 3629: the scalar at the front of `s` and its length in bytes. */
  function Decode(s: string): Option<(nat, nat)> {
    var b := At(s, 0) as int;
    var t1, t2, t3 := Tail(At(s, 1)), Tail(At(s, 2)), Tail(At(s, 3));
    if s == "" then None
    else if b < 0x80 then Some((b, 1))
    else if 0xC2 <= b <= 0xDF && t1.Some? then Some(((b - 0xC0) * 0x40 + t1.value, 2))
    else if 0xE0 <= b <= 0xEF && t1.Some? && t2.Some? then
      var uc := ((b - 0xE0) * 0x40 + t1.value) * 0x40 + t2.value;
      if uc >= 0x800 && Scalar(uc) then Some((uc, 3)) else None
    else if 0xF0 <= b <= 0xF4 && t1.Some? && t2.Some? && t3.Some? then
      var uc := (((b - 0xF0) * 0x40 + t1.value) * 0x40 + t2.value) * 0x40 + t3.value;
      if uc >= 0x10000 && Scalar(uc) then Some((uc, 4)) else None
    else None
  }

  /** What the escape writes is the one UTF-8 form of the scalar. */
  lemma EncodeIsUtf8(uc: nat, rest: string)
    requires Scalar(uc)
    ensures Decode(Encode(uc) + rest) == Some((uc, |Encode(uc)|))
  {
    if uc < 0x10000 {
      ShortIsUtf8(uc, rest);
    } else {
      FourBytesAreUtf8(uc, rest);
    }
  }

  lemma ShortIsUtf8(uc: nat, rest: string)
    requires Scalar(uc) && uc < 0x10000
    ensures Decode(Encode(uc) + rest) == Some((uc, |Encode(uc)|))
  {
    var e := Encode(uc);
    assert forall k | 0 <= k < |e| :: At(e + rest, k) == e[k];
    if uc < 0x80 {
    } else if uc < 0x800 {
      assert uc == uc / 0x40 * 0x40 + uc % 0x40;
    } else {
      assert uc / 0x1000 == uc / 0x40 / 0x40;
      assert uc == (uc / 0x1000 * 0x40 + uc / 0x40 % 0x40) * 0x40 + uc % 0x40;
    }
  }

  lemma FourBytesAreUtf8(uc: nat, rest: string)
    requires 0x10000 <= uc <= 0x10ffff
    ensures Decode(Encode(uc) + rest) == Some((uc, |Encode(uc)|))
  {
    var e := Encode(uc);
    assert forall k | 0 <= k < |e| :: At(e + rest, k) == e[k];
    assert uc / 0x1000 == uc / 0x40 / 0x40;
    assert uc / 0x40000 == uc / 0x40 / 0x40 / 0x40;
    assert uc == ((uc / 0x40000 * 0x40 + uc / 0x1000 % 0x40) * 0x40 + uc / 0x40 % 0x40) * 0x40 + uc % 0x40;
  }

  /** The low ten bits of each half, side by side, above the first plane. */
  function JoinSurrogates(uc: nat, uc2: nat): nat {
    0x10000 + uc % 0x400 * 0x400 + uc2 % 0x400
  }

  /** The C expression for it. */
  lemma JoinExpression(uc: nat, uc2: nat)
    ensures 0x10000 + BitOr(ShiftLeft(BitAnd(uc, 0x3FF), 10), BitAnd(uc2, 0x3FF)) == JoinSurrogates(uc, uc2)
  {
    hide BitOr, BitAnd, Pow2, ShiftLeft;
    SmallPowers();
    AndOnes(uc, 10);
    AndOnes(uc2, 10);
    ShiftLeftIs(uc % 0x400, 10);
    OrApart(uc2 % 0x400, uc % 0x400, 10);
    BitOrCommutes(ShiftLeft(uc % 0x400, 10), uc2 % 0x400);
  }

  /** Section 2.2 of RFC 2781: the pair that stands for a scalar above 0xFFFF. */
  function HighSurrogate(uc: nat): nat
    requires 0x10000 <= uc <= 0x10ffff
  {
    0xD800 + (uc - 0x10000) / 0x400
  }

  function LowSurrogate(uc: nat): nat
    requires 0x10000 <= uc <= 0x10ffff
  {
    0xDC00 + (uc - 0x10000) % 0x400
  }

  lemma JoinInvertsPair(uc: nat)
    requires 0x10000 <= uc <= 0x10ffff
    ensures 0xD800 <= HighSurrogate(uc) <= 0xDBFF && 0xDC00 <= LowSurrogate(uc) <= 0xDFFF
    ensures JoinSurrogates(HighSurrogate(uc), LowSurrogate(uc)) == uc
  {
  }
}
