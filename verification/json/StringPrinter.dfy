/** `print_string_ptr`: the scan for bytes to escape, the length pass, and the two ways to write. */
module StringPrinter {
  import opened CString
  import opened JsonString
  import opened PowerOfTwo
  import opened PrintBuffer

  /** The first loop: is any byte in need of an escape? */
  method ScanForEscapes(str: string) returns (flag: bool)
    requires NulFree(str)
    ensures flag == exists i :: 0 <= i < |str| && NeedsEscape(str[i])
  {
    flag := false;
    for i := 0 to |str|
      invariant flag == exists k :: 0 <= k < i && NeedsEscape(str[k])
    {
      if NeedsEscape(str[i]) {
        flag := true;
      }
    }
  }

  lemma EscapeNext(str: string, i: nat)
    requires i < |str|
    ensures Escape(str[..i + 1]) == Escape(str[..i]) + EscapeChar(str[i])
  {
    assert str[..i + 1] == str[..i] + [str[i]];
    EscapeAppend(str[..i], [str[i]]);
    assert [str[i]][1..] == "";
    assert Escape([str[i]]) == EscapeChar(str[i]) + "";
  }

  /** The length pass of the general path; exact. */
  method MeasureEscaped(str: string) returns (len: nat)
    requires NulFree(str)
    ensures len == |Escape(str)|
  {
    len := 0;
    for i := 0 to |str|
      invariant len == |Escape(str[..i])|
    {
      EscapeNext(str, i);
      len := len + 1;
      if ShortEscape(str[i]) {
        len := len + 1;
      } else if str[i] < ' ' {
        len := len + 5;
      }
    }
    assert str[..|str|] == str;
  }

  /** The copy-only path. */
  method ComposePlain(str: string, out: array<char>, at: nat)
    requires at + |str| + 3 <= out.Length
    modifies out
    ensures Shows(out, old(out[..at]) + ("\"" + str + "\""))
  {
    Put(out, at, '"');
    StrCopy(out, at + 1, str);
    Put(out, at + 1 + |str|, '"');
    out[at + |str| + 2] := NUL;
    assert out[..at + |str| + 2] == old(out[..at]) + ("\"" + str + "\"");
  }

  /** One byte of the general path. */
  method ComposeChar(c: char, out: array<char>, at: nat) returns (next: nat)
    requires at + |EscapeChar(c)| < out.Length
    modifies out
    ensures next == at + |EscapeChar(c)| && out[..next] == old(out[..at]) + EscapeChar(c)
  {
    if c > '\U{1f}' && c != '"' && c != '\\' {
      Put(out, at, c);
      next := at + 1;
    } else {
      Put(out, at, '\\');
      if ShortEscape(c) {
        Put(out, at + 1, ShortLetter(c));
        next := at + 2;
      } else {
        StrCopy(out, at + 1, "u00" + [HexDigit(c as nat / 16), HexDigit(c as nat % 16)]);
        next := at + 6;
      }
      assert EscapeChar(c) == "\\" + EscapeChar(c)[1..];
    }
  }

  /** The general path. */
  method ComposeEscaped(str: string, out: array<char>, at: nat)
    requires at + |Escape(str)| + 3 <= out.Length
    modifies out
    ensures Shows(out, old(out[..at]) + Quoted(str))
  {
    hide Escape, EscapeChar;
    ghost var front := old(out[..at]) + "\"";
    Put(out, at, '"');
    var next := at + 1;
    EmptyEscape(str);
    for i := 0 to |str|
      invariant next == |front| + |Escape(str[..i])| && next + |Escape(str[i..])| + 2 <= out.Length
      invariant out[..next] == front + Escape(str[..i])
    {
      EscapeNext(str, i);
      EscapeRest(str, i);
      next := ComposeChar(str[i], out, next);
    }
    assert str[..|str|] == str;
    Put(out, next, '"');
    out[next + 1] := NUL;
    assert out[..next + 1] == old(out[..at]) + Quoted(str);
  }

  lemma EmptyEscape(str: string)
    ensures Escape(str[..0]) == "" && str[0..] == str
  {
  }

  lemma EscapeRest(str: string, i: nat)
    requires i < |str|
    ensures Escape(str[i..]) == EscapeChar(str[i]) + Escape(str[i + 1..])
  {
    assert str[i..][1..] == str[i + 1..];
  }

  /** The literal in a block of its own; the block is exactly as long as the literal and its terminator. */
  method PrintString(str: string) returns (out: array<char>)
    requires NulFree(str)
    ensures fresh(out) && Shows(out, Quoted(str)) && out.Length == |Quoted(str)| + 1
  {
    var flag := ScanForEscapes(str);
    if !flag {
      FastPathAgrees(str);
      out := new char[|str| + 3];
      ComposePlain(str, out, 0);
    } else {
      var len := MeasureEscaped(str);
      out := new char[len + 3];
      ComposeEscaped(str, out, 0);
    }
  }

  /** The literal at the offset of the shared buffer. */
  method PrintStringBuffered(str: string, p: Buffer) returns (at: nat)
    requires NulFree(str) && p.Valid() && p.offset + |Quoted(str)| + 1 <= SIZE_LIMIT
    modifies p, p.buffer
    ensures p.Valid() && (p.buffer == old(p.buffer) || fresh(p.buffer))
    ensures at == p.offset == old(p.offset)
    ensures Shows(p.buffer, old(p.buffer[..p.offset]) + Quoted(str))
  {
    hide LeastPowerOfTwo, Escape;
    var flag := ScanForEscapes(str);
    if !flag {
      FastPathAgrees(str);
      at := p.Ensure(|str| + 3);
      ComposePlain(str, p.buffer, at);
    } else {
      var len := MeasureEscaped(str);
      at := p.Ensure(len + 3);
      ComposeEscaped(str, p.buffer, at);
    }
  }
}
