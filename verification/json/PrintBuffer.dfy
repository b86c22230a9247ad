/** The `printbuffer` that the growing printer shares over a whole tree: `ensure` and `update`. */
module PrintBuffer {
  import opened CString
  import opened PowerOfTwo

  /** The largest size `pow2gt` is asked for in this model. */
  const SIZE_LIMIT: nat := 0x4000_0000

  /** The array starts with the C string `s`: its bytes, then the terminator. */
  ghost predicate Shows(a: array<char>, s: string)
    reads a
  {
    |s| < a.Length && a[..|s|] == s && a[|s|] == NUL
  }

  /** `strlen` of the string `s` that stands behind the first `at` bytes. */
  method StrLen(a: array<char>, at: nat, ghost s: string) returns (n: nat)
    requires at <= a.Length && Shows(a, a[..at] + s) && NulFree(s)
    ensures n == |s|
  {
    ghost var all := a[..at] + s;
    n := 0;
    while a[at + n] != NUL
      invariant n <= |s|
      invariant forall k | 0 <= k < |all| :: all[k] == a[k]
      decreases |s| - n
    {
      n := n + 1;
      assert n < |s| ==> all[at + n] == s[n];
    }
  }

  /** `memcpy` of the bytes of `s` */
  method Copy(a: array<char>, at: nat, s: string)
    requires at + |s| <= a.Length
    modifies a
    ensures a[..at + |s|] == old(a[..at]) + s
  {
    for i := 0 to |s|
      invariant forall k | 0 <= k < at :: a[k] == old(a[k])
      invariant forall k | at <= k < at + i :: a[k] == s[k - at]
    {
      a[at + i] := s[i];
    }
  }

  /** `strcpy` of `s` */
  method StrCopy(a: array<char>, at: nat, s: string)
    requires at + |s| < a.Length
    modifies a
    ensures Shows(a, old(a[..at]) + s)
  {
    Copy(a, at, s);
    a[at + |s|] := NUL;
    assert a[..at + |s|] == old(a[..at]) + s;
  }

  /** `*ptr = c` behind the first `at` bytes. */
  method Put(a: array<char>, at: nat, c: char)
    requires at < a.Length
    modifies a
    ensures a[..at + 1] == old(a[..at]) + [c]
  {
    a[at] := c;
  }

  class Buffer {
    var buffer: array<char>
    var length: nat
    var offset: nat

    ghost predicate Valid()
      reads this
    {
      length == buffer.Length && offset <= length
    }

    constructor (prebuffer: nat)
      ensures Valid() && offset == 0 && length == prebuffer && fresh(buffer)
    {
      buffer := new char[prebuffer];
      length := prebuffer;
      offset := 0;
    }

    /**
     Room for `needed` bytes at the offset. A buffer that is too small is replaced
     by one of the least power of two that fits; its bytes are kept either way.
     */
    method Ensure(needed: nat) returns (at: nat)
      requires Valid() && 1 <= needed && offset + needed <= SIZE_LIMIT
      modifies this`buffer, this`length
      ensures Valid() && at == offset && offset + needed <= length
      ensures buffer == old(buffer) || fresh(buffer)
      ensures old(length) <= length && buffer[..old(length)] == old(buffer[..])
      ensures buffer[..offset] == old(buffer[..offset])
      ensures if offset + needed <= old(length) then buffer == old(buffer)
              else LeastPowerOfTwo(length, offset + needed)
    {
      hide Pow2gt, LeastPowerOfTwo;
      var total := needed + offset;
      if total <= length {
        assert buffer[..length] == buffer[..];
        return offset;
      }
      Pow2gtIsLeast(total);
      var newsize := Pow2gt(total);
      var newbuffer := new char[newsize];
      for i := 0 to length
        invariant length == old(length) && buffer == old(buffer)
        invariant forall k | 0 <= k < length :: buffer[k] == old(buffer[k])
        invariant forall k | 0 <= k < i :: newbuffer[k] == buffer[k]
      {
        newbuffer[i] := buffer[i];
      }
      length := newsize;
      buffer := newbuffer;
      at := offset;
    }

    /** The offset behind the string that was just printed at the offset. */
    method Update(ghost s: string) returns (end: nat)
      requires Valid() && NulFree(s) && Shows(buffer, buffer[..offset] + s)
      ensures end == offset + |s|
    {
      var n := StrLen(buffer, offset, s);
      end := offset + n;
    }
  }
}
