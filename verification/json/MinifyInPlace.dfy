/** The in-place loop of `cJSON_Minify`: one pointer reads, a second writes behind it. */
module MinifyInPlace {
  import opened CString
  import opened Sequences
  import opened Minify
  import MinifyBytes

  /** The array holds the C string `s`: its bytes, then the terminator. */
  ghost predicate Holds(a: array<char>, s: string)
    reads a
  {
    |s| < a.Length && NulFree(s) && a[..|s|] == s && a[|s|] == NUL
  }

  /** `while (*json && *json != '\n') json++` */
  method FindLineEnd(json: array<char>, from: nat, ghost s: string) returns (end: nat)
    requires Unread(json, s, from) && from <= |s|
    ensures from <= end <= |s| && s[end..] == SkipLine(s[from..])
  {
    end := from;
    while json[end] != NUL && json[end] != '\n'
      invariant from <= end <= |s|
      invariant SkipLine(s[end..]) == SkipLine(s[from..])
      decreases |s| - end
    {
      assert s[end..][1..] == s[end + 1..];
      end := end + 1;
    }
  }

  /** `while (*json && !(*json == '*' && json[1] == '/')) json++` */
  method FindBlockEnd(json: array<char>, from: nat, ghost s: string) returns (end: nat)
    requires Unread(json, s, from) && from <= |s|
    ensures from <= end <= |s| && s[end..] == SkipBlock(s[from..])
  {
    end := from;
    while json[end] != NUL && !(json[end] == '*' && json[end + 1] == '/')
      invariant from <= end <= |s|
      invariant SkipBlock(s[end..]) == SkipBlock(s[from..])
      decreases |s| - end
    {
      assert s[end..][1..] == s[end + 1..];
      end := end + 1;
    }
  }

  /** The part of the text from `from` on, with its terminator, is still in place. */
  ghost predicate Unread(json: array<char>, s: string, from: nat)
    reads json
  {
    && |s| < json.Length && NulFree(s) && json[|s|] == NUL
    && forall k | from <= k < |s| :: json[k] == s[k]
  }

  /** What was written so far is what stood in front, then the bytes of `s` from `from` up to `next`. */
  ghost predicate Copied(json: array<char>, s: string, from: nat, next: nat, front: string, written: nat)
    reads json
  {
    from <= next <= |s| && written <= json.Length && json[..written] == front + s[from..next]
  }

  /** `*into++ = *json++` */
  method CopyByte(json: array<char>, next: nat, written: nat, ghost s: string, ghost from: nat, ghost front: string)
    requires Unread(json, s, next) && written <= next < |s| && Copied(json, s, from, next, front, written)
    modifies json
    ensures Unread(json, s, next + 1) && Copied(json, s, from, next + 1, front, written + 1)
    ensures forall k | |s| <= k < json.Length :: json[k] == old(json[k])
  {
    json[written] := json[next];
    assert json[..written + 1] == old(json[..written]) + [s[next]];
    assert s[from..next + 1] == s[from..next] + [s[next]];
    Regroup(front, s[from..next], [s[next]]);
  }

  /**
   The loop inside a literal: copies its body down, up to the closing quote or the
   terminator. Behind a backslash at the very end the C loop copies the terminator
   too and goes on; here the copying stops in front of it.
   */
  method CopyBody(json: array<char>, start: nat, into: nat, ghost s: string, ghost from: nat, ghost front: string)
    returns (next: nat, written: nat)
    requires Unread(json, s, start) && into <= start <= |s| && Copied(json, s, from, start, front, into)
    modifies json
    ensures next == start + LiteralSpan(s[start..]) <= |s| && written == into + (next - start)
    ensures Unread(json, s, next) && Copied(json, s, from, next, front, written)
    ensures json[next] == NUL || json[next] == '"'
    ensures forall k | |s| <= k < json.Length :: json[k] == old(json[k])
  {
    hide LiteralSpan, Copied;
    next, written := start, into;
    while json[next] != NUL && json[next] != '"'
      invariant start <= next <= |s| && written == into + (next - start)
      invariant Unread(json, s, next) && Copied(json, s, from, next, front, written)
      invariant forall k | |s| <= k < json.Length :: json[k] == old(json[k])
      invariant LiteralSpan(s[start..]) == next - start + LiteralSpan(s[next..])
      decreases |s| - next
    {
      SpanStep(s, next);
      if json[next] == '\\' {
        CopyByte(json, next, written, s, from, front);
        next, written := next + 1, written + 1;
        if json[next] == NUL {
          SpanStop(s, |s|);
          return;
        }
      }
      CopyByte(json, next, written, s, from, front);
      next, written := next + 1, written + 1;
    }
    SpanStop(s, next);
  }

  /**
   Copies a string literal down, quotes included. The result says whether it is
   closed: if not, the C code copies the terminator as its closing quote and leaves
   the text behind.
   */
  method CopyLiteral(json: array<char>, from: nat, into: nat, ghost s: string) returns (next: nat, written: nat, inside: bool)
    requires Unread(json, s, from) && into <= from < |s| && s[from] == '"'
    modifies json
    ensures inside == LiteralCloses(s[from..])
    ensures inside ==> next == from + LiteralSpan(s[from + 1..]) + 2
    ensures from <= next <= |s| && written == into + (next - from)
    ensures Unread(json, s, next) && Copied(json, s, from, next, old(json[..into]), written)
    ensures forall k | |s| <= k < json.Length :: json[k] == old(json[k])
  {
    ghost var front := json[..into];
    CopiesNothing(json, s, from, into);
    Tail(s, from);
    hide LiteralSpan, Copied;
    CopyByte(json, from, into, s, from, front);
    next, written := CopyBody(json, from + 1, into + 1, s, from, front);
    assert At(s[from..], 1 + LiteralSpan(s[from..][1..])) == json[next];
    inside := json[next] != NUL;
    if inside {
      CopyByte(json, next, written, s, from, front);
      next, written := next + 1, written + 1;
    }
  }

  lemma CopiesNothing(json: array<char>, s: string, from: nat, into: nat)
    requires from <= |s| && into <= json.Length
    ensures Copied(json, s, from, from, json[..into], into)
  {
  }

  lemma Tail(s: string, i: nat)
    requires i < |s|
    ensures s[i..][0] == s[i] && s[i..][1..] == s[i + 1..]
  {
  }

  /** The literal the text starts with has a closing quote. */
  predicate LiteralCloses(t: string)
    requires t != ""
  {
    At(t, 1 + LiteralSpan(t[1..])) == '"'
  }

  /** One round of the loop inside a literal takes one byte, or a backslash and the byte behind it. */
  lemma SpanStep(s: string, i: nat)
    requires i < |s| && s[i] != NUL && s[i] != '"'
    ensures s[i] != '\\' ==> LiteralSpan(s[i..]) == 1 + LiteralSpan(s[i + 1..])
    ensures s[i] == '\\' && i + 1 < |s| ==> LiteralSpan(s[i..]) == 2 + LiteralSpan(s[i + 2..])
    ensures s[i] == '\\' && i + 1 == |s| ==> LiteralSpan(s[i..]) == 1
  {
    assert s[i..][1..] == s[i + 1..];
    assert i + 1 < |s| ==> s[i..][2..] == s[i + 2..];
  }

  lemma SpanStop(s: string, i: nat)
    requires i <= |s| && (i == |s| || s[i] == '"')
    ensures LiteralSpan(s[i..]) == 0
  {
  }

  /** A round that writes nothing: white space or a comment. */
  lemma RoundDrops(t: string)
    requires At(t, 0) != NUL
    ensures White(t[0]) ==> Minified(t) == Minified(t[1..]) && Closed(t) == Closed(t[1..])
    ensures t[0] == '/' && At(t, 1) == '/' ==>
      Minified(t) == Minified(SkipLine(t[1..])) && Closed(t) == Closed(SkipLine(t[1..]))
    ensures t[0] == '/' && At(t, 1) == '*' ==>
      var u := SkipBlock(t[1..]);
      if At(u, 0) == NUL then !Closed(t)
      else |u| >= 2 && Minified(t) == Minified(u[2..]) && Closed(t) == Closed(u[2..])
  {
    if t[0] == '/' && At(t, 1) == '*' {
      BlockStops(t[1..]);
    }
  }

  /** How many bytes a copying round takes. */
  function CopyCount(t: string): nat
    requires t != ""
  {
    if t[0] == '"' then LiteralSpan(t[1..]) + 2 else 1
  }

  predicate Copies(t: string) {
    At(t, 0) != NUL && !White(t[0]) && !(t[0] == '/' && (At(t, 1) == '/' || At(t, 1) == '*'))
  }

  lemma RoundCopies(t: string)
    requires Copies(t)
    ensures t[0] == '"' && !LiteralCloses(t) ==> !Closed(t)
    ensures t[0] == '"' ==> !LiteralCloses(t) || CopyCount(t) <= |t|
    ensures t[0] == '"' ==> LiteralCloses(t) ==>
      Closed(t) == Closed(t[CopyCount(t)..]) && Minified(t) == t[..CopyCount(t)] + Minified(t[CopyCount(t)..])
    ensures t[0] != '"' ==>
      Closed(t) == Closed(t[1..]) && Minified(t) == t[..1] + Minified(t[1..])
  {
    hide LiteralSpan, SkipLine, SkipBlock;
    assert t[..1] == [t[0]];
  }

  /** A round that copies: a literal, or any other byte. */
  method CopyRound(json: array<char>, start: nat, end: nat, ghost s: string) returns (from: nat, into: nat, inside: bool)
    requires Unread(json, s, start) && end <= start < |s| && Copies(s[start..])
    modifies json
    ensures inside == (s[start] == '"' ==> LiteralCloses(s[start..]))
    ensures inside ==> from == start + CopyCount(s[start..]) <= |s| && into == end + CopyCount(s[start..])
    ensures inside ==> Unread(json, s, from) && json[..into] == old(json[..end]) + s[start..from]
    ensures forall k | |s| < k < json.Length :: json[k] == old(json[k])
  {
    hide LiteralSpan, LiteralCloses;
    from, into, inside := start, end, true;
    Tail(s, start);
    if json[from] == '"' {
      from, into, inside := CopyLiteral(json, from, into, s);
    } else {
      CopyByte(json, from, into, s, start, json[..end]);
      from, into := from + 1, into + 1;
    }
  }

  /**
   One round of the outer loop: reads a byte, a comment or a literal, and writes what
   is kept. `inside` is false when the C code steps over the terminator in it.
   */
  method OneRound(json: array<char>, start: nat, end: nat, ghost s: string) returns (from: nat, into: nat, inside: bool)
    requires Unread(json, s, start) && end <= start < |s|
    modifies json
    ensures !inside ==> !Closed(s[start..])
    ensures inside ==> start < from <= |s| && into <= from && Unread(json, s, from) && Closed(s[from..]) == Closed(s[start..])
    ensures inside ==> json[..into] + Minified(s[from..]) == old(json[..end]) + Minified(s[start..])
    ensures forall k | |s| < k < json.Length :: json[k] == old(json[k])
  {
    hide Minified, Closed, LiteralSpan, SkipLine, SkipBlock, LiteralCloses;
    from, into, inside := start, end, true;
    ghost var t := s[from..];
    assert t[0] == json[from] && At(t, 1) == json[from + 1] && t[1..] == s[from + 1..];
    if json[from] == ' ' || json[from] == '\t' || json[from] == '\r' || json[from] == '\n' {
      RoundDrops(t);
      from := from + 1;
    } else if json[from] == '/' && json[from + 1] == '/' {
      RoundDrops(t);
      from := FindLineEnd(json, from + 1, s);
    } else if json[from] == '/' && json[from + 1] == '*' {
      RoundDrops(t);
      from := FindBlockEnd(json, from + 1, s);
      inside := json[from] != NUL;
      from := from + 2;
    } else {
      RoundCopies(t);
      from, into, inside := CopyRound(json, from, into, s);
      if inside {
        assert s[start..from] == t[..CopyCount(t)] && s[from..] == t[CopyCount(t)..];
        Regroup(old(json[..end]), s[start..from], Minified(s[from..]));
      }
    }
  }

  /**
   Rewrites the text in place to its minified form. The read pointer is always
   at or ahead of the write pointer, so no byte is overwritten before it is read.
   The method stops with `inside` false where the C code would step over the
   terminator, which happens exactly on the texts that are not closed.
   */
  method MinifyText(json: array<char>, ghost s: string) returns (inside: bool)
    requires Holds(json, s)
    modifies json
    ensures inside <==> Closed(s)
    ensures inside <==> MinifyBytes.ModeAt(s, |s|) == MinifyBytes.Outside || MinifyBytes.ModeAt(s, |s|) == MinifyBytes.Line
    ensures inside ==> Holds(json, Minified(s)) && Minified(s) == MinifyBytes.KeptFrom(s, 0)
    ensures forall k | |s| < k < json.Length :: json[k] == old(json[k])
  {
    hide Minified, Closed;
    MinifyBytes.MinifiedIsKept(s);
    var from, into := 0, 0;
    inside := true;
    assert s[0..] == s && json[..0] + Minified(s) == Minified(s);
    while json[from] != NUL
      invariant 0 <= into <= from <= |s|
      invariant Unread(json, s, from) && Closed(s[from..]) == Closed(s)
      invariant json[..into] + Minified(s[from..]) == Minified(s)
      invariant forall k | |s| < k < json.Length :: json[k] == old(json[k])
      decreases |s| - from
    {
      from, into, inside := OneRound(json, from, into, s);
      if !inside {
        return;
      }
    }
    ClosedEmpty(s[from..]);
    MinifiedOfEmpty();
    MinifiedNulFree(s);
    json[into] := NUL;
    assert json[..into] == Minified(s);
  }

  // ----- the read pointer on its own -----

  /** Where the loop inside a literal leaves the pointer, which may be behind the terminator. */
  function BodyEnd(s: string, i: nat): nat
    decreases |s| - i
  {
    if |s| <= i || s[i] == '"' then i
    else if s[i] == '\\' then BodyEnd(s, i + 2)
    else BodyEnd(s, i + 1)
  }

  function LineEnd(s: string, i: nat): (j: nat)
    ensures i <= j && (i <= |s| ==> j <= |s|)
    decreases |s| - i
  {
    if |s| <= i || s[i] == '\n' then i else LineEnd(s, i + 1)
  }

  function BlockEnd(s: string, i: nat): (j: nat)
    ensures i <= j && (i <= |s| ==> j <= |s|)
    decreases |s| - i
  {
    if |s| <= i || (s[i] == '*' && i + 1 < |s| && s[i + 1] == '/') then i else BlockEnd(s, i + 1)
  }

  /** Where one round of the outer loop leaves it. */
  function NextRead(s: string, i: nat): nat
    requires i < |s|
  {
    var second := if i + 1 < |s| then s[i + 1] else NUL;
    if s[i] == '/' && second == '/' then LineEnd(s, i + 1)
    else if s[i] == '/' && second == '*' then BlockEnd(s, i + 1) + 2
    else if s[i] == '"' then BodyEnd(s, i + 1) + 1
    else i + 1
  }

  /** From `i` on the pointer stops at the terminator and never steps over it. */
  predicate StaysInside(s: string, i: nat)
    requires i <= |s|
    decreases |s| - i
  {
    i == |s| || (i < NextRead(s, i) <= |s| && StaysInside(s, NextRead(s, i)))
  }

  lemma {:induction false} BodyEndIs(s: string, i: nat)
    requires i <= |s| && NulFree(s)
    ensures var e := i + LiteralSpan(s[i..]);
      if At(s[i..], LiteralSpan(s[i..])) == '"' then BodyEnd(s, i) == e && e < |s| else |s| <= BodyEnd(s, i)
    decreases |s| - i
  {
    hide LiteralSpan;
    if i == |s| || s[i] == '"' {
      SpanStop(s, i);
    } else {
      SpanStep(s, i);
      if s[i] != '\\' {
        BodyEndIs(s, i + 1);
      } else if i + 1 < |s| {
        BodyEndIs(s, i + 2);
      }
    }
  }

  lemma {:induction false} LineEndIs(s: string, i: nat)
    requires i <= |s| && NulFree(s)
    ensures SkipLine(s[i..]) == s[LineEnd(s, i)..]
    decreases |s| - i
  {
    if i < |s| {
      assert s[i..][1..] == s[i + 1..];
      LineEndIs(s, i + 1);
    }
  }

  lemma {:induction false} BlockEndIs(s: string, i: nat)
    requires i <= |s| && NulFree(s)
    ensures SkipBlock(s[i..]) == s[BlockEnd(s, i)..]
    decreases |s| - i
  {
    if i < |s| {
      assert s[i..][1..] == s[i + 1..];
      BlockEndIs(s, i + 1);
    }
  }

  /** The read pointer keeps inside the text exactly on the closed texts. */
  lemma {:induction false} StaysInsideExactly(s: string, i: nat)
    requires i <= |s| && NulFree(s)
    ensures StaysInside(s, i) <==> Closed(s[i..])
    decreases |s| - i
  {
    hide Closed, Minified, LiteralSpan, SkipLine, SkipBlock, BodyEnd, LineEnd, BlockEnd, LiteralCloses;
    if i == |s| {
      ClosedEmpty(s[i..]);
      return;
    }
    var t, next := s[i..], NextRead(s, i);
    assert t[1..] == s[i + 1..];
    if Copies(t) {
      RoundCopies(t);
      NextCopies(s, i);
    } else {
      RoundDrops(t);
      LineEndIs(s, i + 1);
      BlockEndIs(s, i + 1);
    }
    if i < next <= |s| {
      StaysInsideExactly(s, next);
    }
  }

  /** Texts that are not closed: a lone quote, after which the pointer stands behind
      the terminator, and an open block comment, after which it is two places behind. */
  lemma PointerLeaves()
    ensures NextRead("\"", 0) == 2 && !StaysInside("\"", 0) && !Closed("\"")
    ensures NextRead("/*", 0) == 4 && !StaysInside("/*", 0) && !Closed("/*")
  {
    assert BodyEnd("\"", 1) == 1 && BlockEnd("/*", 2) == 2;
    assert "\""[0..] == "\"" && "/*"[0..] == "/*";
    StaysInsideExactly("\"", 0);
    StaysInsideExactly("/*", 0);
  }

  lemma ClosedEmpty(s: string)
    requires s == ""
    ensures Closed(s)
  {
  }

  lemma NextCopies(s: string, i: nat)
    requires i < |s| && NulFree(s) && Copies(s[i..])
    ensures var t := s[i..];
      if t[0] == '"' && !LiteralCloses(t) then |s| < NextRead(s, i)
      else NextRead(s, i) == i + CopyCount(t)
  {
    hide LiteralSpan, BodyEnd;
    assert s[i..][1..] == s[i + 1..];
    BodyEndIs(s, i + 1);
  }

  lemma {:induction false} MinifiedNulFree(s: string)
    requires NulFree(s)
    ensures NulFree(Minified(s))
    decreases |s|
  {
    if s == "" {
    } else if White(s[0]) {
      MinifiedNulFree(s[1..]);
    } else if s[0] == '/' && At(s, 1) == '/' {
      LineNulFree(s[1..]);
      MinifiedNulFree(SkipLine(s[1..]));
    } else if s[0] == '/' && At(s, 1) == '*' {
      BlockNulFree(s[1..]);
      MinifiedNulFree(Advance(SkipBlock(s[1..]), 2));
    } else if s[0] == '"' {
      if At(s, 1 + LiteralSpan(s[1..])) == '"' {
        MinifiedNulFree(s[LiteralSpan(s[1..]) + 2..]);
      }
    } else {
      MinifiedNulFree(s[1..]);
    }
  }

  lemma {:induction false} LineNulFree(s: string)
    requires NulFree(s)
    ensures NulFree(SkipLine(s))
  {
    if s != "" {
      LineNulFree(s[1..]);
    }
  }

  lemma {:induction false} BlockNulFree(s: string)
    requires NulFree(s)
    ensures NulFree(SkipBlock(s))
  {
    if s != "" {
      BlockNulFree(s[1..]);
    }
  }

  lemma MinifiedOfEmpty()
    ensures Minified("") == ""
  {
  }

  lemma {:induction false} BlockStops(s: string)
    ensures var t := SkipBlock(s); At(t, 0) == NUL || (t[0] == '*' && At(t, 1) == '/')
  {
    if At(s, 0) != NUL && !(s[0] == '*' && At(s, 1) == '/') {
      BlockStops(s[1..]);
    }
  }
}
