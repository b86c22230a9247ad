/**
 The minifier byte by byte: in which part of the text each byte stands, which bytes are
 kept, and that the minified text is those, in order.
 */
module MinifyBytes {
  import opened CString
  import opened Sequences
  import opened Minify

  /** Where a byte stands: outside, in a string literal, behind a backslash in one, in a line
      comment, in a block comment, or on the slash that ends one. */
  datatype Mode = Outside | Literal | Escaped | Line | Block | BlockSlash

  /** The mode of the byte behind `c`, which is followed by `next`. */
  function After(m: Mode, c: char, next: char): Mode {
    match m
    case Outside =>
      if c == '"' then Literal
      else if c == '/' && next == '/' then Line
      else if c == '/' && next == '*' then Block
      else Outside
    case Literal => if c == '"' then Outside else if c == '\\' then Escaped else Literal
    case Escaped => Literal
    case Line => if c == '\n' then Outside else Line
    case Block => if c == '*' && next == '/' then BlockSlash else Block
    case BlockSlash => Outside
  }

  function ModeAt(s: string, i: nat): Mode
    requires i <= |s|
  {
    if i == 0 then Outside else After(ModeAt(s, i - 1), s[i - 1], At(s, i))
  }

  /** Literals are kept whole. Outside, everything is kept but space, tab, CR, LF and the
      slash that opens a comment. Comments are not. */
  predicate Keeps(m: Mode, c: char, next: char) {
    match m
    case Outside => c != ' ' && c != '\t' && c != '\r' && c != '\n' && !(c == '/' && (next == '/' || next == '*'))
    case Literal | Escaped => true
    case _ => false
  }

  predicate Kept(s: string, i: nat)
    requires i < |s|
  {
    Keeps(ModeAt(s, i), s[i], At(s, i + 1))
  }

  /** The kept bytes from `i` on, in order. */
  function KeptFrom(s: string, i: nat): string
    requires i <= |s|
    decreases |s| - i
  {
    if i == |s| then "" else (if Kept(s, i) then [s[i]] else "") + KeptFrom(s, i + 1)
  }

  // ----- where comments end -----

  /** A line comment: from its slashes to the first line feed, or to the end, all is dropped,
      and behind the line feed the text is outside again. */
  lemma LineComment(s: string, i: nat, j: nat)
    requires i + 1 < |s| && ModeAt(s, i) == Outside && s[i] == '/' && s[i + 1] == '/'
    requires i < j <= |s| && (forall k :: i < k < j ==> s[k] != '\n') && (j < |s| ==> s[j] == '\n')
    ensures forall k :: i <= k <= j && k < |s| ==> !Kept(s, k)
    ensures j < |s| ==> ModeAt(s, j + 1) == Outside
  {
    assert forall k :: i < k <= j ==> ModeAt(s, k) == Line by {
      forall k | i < k <= j ensures ModeAt(s, k) == Line {
        LineStays(s, i + 1, k);
      }
    }
  }

  lemma {:induction false} LineStays(s: string, i: nat, k: nat)
    requires i <= k <= |s| && ModeAt(s, i) == Line && forall l :: i <= l < k ==> s[l] != '\n'
    ensures ModeAt(s, k) == Line
  {
    if i < k {
      LineStays(s, i, k - 1);
    }
  }

  /** A block comment: from its slash to the first star and slash, from its own star on, all
      is dropped, and behind them the text is outside again. */
  lemma BlockComment(s: string, i: nat, j: nat)
    requires i + 1 < |s| && ModeAt(s, i) == Outside && s[i] == '/' && s[i + 1] == '*'
    requires i < j && j + 1 < |s| && s[j] == '*' && s[j + 1] == '/'
    requires forall k :: i < k < j ==> !(s[k] == '*' && s[k + 1] == '/')
    ensures forall k :: i <= k <= j + 1 ==> !Kept(s, k)
    ensures ModeAt(s, j + 2) == Outside
  {
    assert forall k :: i < k <= j ==> ModeAt(s, k) == Block by {
      forall k | i < k <= j ensures ModeAt(s, k) == Block {
        BlockStays(s, i + 1, k);
      }
    }
    assert ModeAt(s, j + 1) == BlockSlash;
  }

  lemma {:induction false} BlockStays(s: string, i: nat, k: nat)
    requires i <= k < |s| && ModeAt(s, i) == Block && forall l :: i <= l < k ==> !(s[l] == '*' && s[l + 1] == '/')
    ensures ModeAt(s, k) == Block
  {
    if i < k {
      BlockStays(s, i, k - 1);
    }
  }

  // ----- the minified text is the kept bytes -----

  /** The same on what is left of the text. */
  function Filter(t: string, m: Mode): string {
    if t == "" then ""
    else (if Keeps(m, t[0], At(t, 1)) then [t[0]] else "") + Filter(t[1..], After(m, t[0], At(t, 1)))
  }

  function Final(t: string, m: Mode): Mode {
    if t == "" then m else Final(t[1..], After(m, t[0], At(t, 1)))
  }

  lemma {:induction false} FilterIs(s: string, i: nat)
    requires i <= |s|
    ensures KeptFrom(s, i) == Filter(s[i..], ModeAt(s, i)) && Final(s[i..], ModeAt(s, i)) == ModeAt(s, |s|)
    decreases |s| - i
  {
    hide Keeps, After;
    if i < |s| {
      var t := s[i..];
      assert t[0] == s[i] && t[1..] == s[i + 1..] && At(t, 1) == At(s, i + 1);
      FilterIs(s, i + 1);
    }
  }

  /** What the minifier makes of a text that starts in the middle of some part of it. */
  function Rest(t: string, m: Mode): string {
    match m
    case Outside => Minified(t)
    case Literal => LiteralRest(t)
    case Escaped => if t == "" then "" else [t[0]] + LiteralRest(t[1..])
    case Line => Minified(SkipLine(t))
    case Block => Minified(Advance(SkipBlock(t), 2))
    case BlockSlash => Minified(Advance(t, 1))
  }

  function LiteralRest(t: string): string {
    var n := LiteralSpan(t);
    if At(t, n) == '"' then t[..n + 1] + Minified(t[n + 1..]) else t
  }

  predicate Closes(t: string, m: Mode) {
    match m
    case Outside => Closed(t)
    case Literal => LiteralCloses(t)
    case Escaped => t != "" && LiteralCloses(t[1..])
    case Line => Closed(SkipLine(t))
    case Block => At(SkipBlock(t), 0) != NUL && Closed(Advance(SkipBlock(t), 2))
    case BlockSlash => t != "" && Closed(t[1..])
  }

  predicate LiteralCloses(t: string) {
    At(t, LiteralSpan(t)) == '"' && Closed(t[LiteralSpan(t) + 1..])
  }

  lemma StepOutside(t: string)
    requires t != "" && t[0] != NUL
    ensures var m := After(Outside, t[0], At(t, 1));
      && (Closes(t, Outside) <==> Closes(t[1..], m))
      && (Closes(t, Outside) ==> Rest(t, Outside) == (if Keeps(Outside, t[0], At(t, 1)) then [t[0]] else "") + Rest(t[1..], m))
  {
    hide LiteralSpan, SkipLine, SkipBlock;
    if t[0] == '"' {
      var n := LiteralSpan(t[1..]);
      if At(t, 1 + n) == '"' {
        assert t[..n + 2] == [t[0]] + t[1..][..n + 1] && t[n + 2..] == t[1..][n + 1..];
        Regroup([t[0]], t[1..][..n + 1], Minified(t[n + 2..]));
      }
    } else if !Keeps(Outside, t[0], At(t, 1)) {
      EmptyEnds(Rest(t[1..], After(Outside, t[0], At(t, 1))));
    }
  }

  lemma StepLiteral(t: string)
    requires t != "" && t[0] != NUL && NulFree(t)
    ensures var m := After(Literal, t[0], At(t, 1));
      && (Closes(t, Literal) <==> Closes(t[1..], m))
      && (Closes(t, Literal) ==> Rest(t, Literal) == [t[0]] + Rest(t[1..], m))
  {
    hide Minified, Closed;
    if t[0] == '"' {
      assert t[..1] == [t[0]];
    } else {
      SpanAfter(t);
      var n := LiteralSpan(t);
      if t[0] != '\\' {
        Shift(t, n, 1);
      } else if |t| >= 2 {
        Shift(t, n, 1);
        assert t[1..][1..] == t[2..];
        Shift(t[1..], n - 1, 1);
      }
    }
  }

  lemma SpanAfter(t: string)
    requires t != "" && t[0] != '"' && t[0] != NUL
    ensures t[0] != '\\' ==> LiteralSpan(t) == 1 + LiteralSpan(t[1..])
    ensures t[0] == '\\' && |t| >= 2 ==> LiteralSpan(t) == 2 + LiteralSpan(t[2..])
    ensures t[0] == '\\' && |t| < 2 ==> LiteralSpan(t) == 1
  {
  }

  /** The first `n + 1` bytes and the rest, without the first byte. */
  lemma Shift(t: string, n: nat, i: nat)
    requires i == 1 <= n && t != ""
    ensures At(t, n) == At(t[1..], n - 1)
    ensures n < |t| ==> t[..n + 1] == [t[0]] + t[1..][..n] && t[n + 1..] == t[1..][n..]
    ensures n < |t| ==> forall r: string :: [t[0]] + (t[1..][..n] + r) == t[..n + 1] + r
  {
    if n < |t| {
      forall r: string ensures [t[0]] + (t[1..][..n] + r) == t[..n + 1] + r {
        Regroup([t[0]], t[1..][..n], r);
      }
    }
  }

  lemma StepComment(t: string, m: Mode)
    requires t != "" && t[0] != NUL && (m.Line? || m.Block? || m.BlockSlash?)
    ensures var n := After(m, t[0], At(t, 1));
      (Closes(t, m) <==> Closes(t[1..], n)) && (Closes(t, m) ==> Rest(t, m) == Rest(t[1..], n))
  {
  }

  lemma {:induction false} FilterMinifies(t: string, m: Mode)
    requires NulFree(t) && (m == BlockSlash ==> t != "")
    ensures Closes(t, m) <==> Final(t, m) == Outside || Final(t, m) == Line
    ensures Closes(t, m) ==> Rest(t, m) == Filter(t, m)
    decreases |t|
  {
    hide Closes, Rest, Keeps, After;
    if t == "" {
      AtTheEnd(m);
    } else {
      var next := After(m, t[0], At(t, 1));
      SlashFollows(t, m);
      FilterMinifies(t[1..], next);
      KeepsBy(m, t[0], At(t, 1));
      match m
      case Outside => StepOutside(t);
      case Literal => StepLiteral(t);
      case Escaped => StepEscaped(t);
      case _ =>
        StepComment(t, m);
        EmptyEnds(Filter(t[1..], next));
    }
  }

  lemma StepEscaped(t: string)
    requires t != ""
    ensures var m := After(Escaped, t[0], At(t, 1));
      (Closes(t, Escaped) <==> Closes(t[1..], m)) && Rest(t, Escaped) == [t[0]] + Rest(t[1..], m)
  {
  }

  lemma KeepsBy(m: Mode, c: char, next: char)
    ensures (m.Literal? || m.Escaped? ==> Keeps(m, c, next)) && (m.Line? || m.Block? || m.BlockSlash? ==> !Keeps(m, c, next))
  {
  }

  lemma SlashFollows(t: string, m: Mode)
    requires t != ""
    ensures After(m, t[0], At(t, 1)) == BlockSlash ==> t[1..] != ""
  {
  }

  lemma AtTheEnd(m: Mode)
    requires m != BlockSlash
    ensures Closes("", m) <==> m == Outside || m == Line
    ensures Closes("", m) ==> Rest("", m) == ""
  {
  }

  /**
   A text is closed exactly when it ends outside of literals and block comments, and then
   the minified text is its kept bytes, in order: no others, and none left out.
   */
  lemma MinifiedIsKept(s: string)
    requires NulFree(s)
    ensures Closed(s) <==> ModeAt(s, |s|) == Outside || ModeAt(s, |s|) == Line
    ensures Closed(s) ==> Minified(s) == KeptFrom(s, 0)
  {
    hide Closed, Minified, Filter, Final;
    assert s[0..] == s && ModeAt(s, 0) == Outside;
    FilterIs(s, 0);
    FilterMinifies(s, Outside);
  }

  // ----- what a minified text does not contain -----

  /** A walk that knows of string literals only. */
  function QuoteMode(s: string, i: nat): Mode
    requires i <= |s|
  {
    if i == 0 then Outside else QuoteAfter(QuoteMode(s, i - 1), s[i - 1])
  }

  predicate NoBlanks(s: string) {
    forall i :: 0 <= i < |s| && QuoteMode(s, i) == Outside ==> s[i] != ' ' && s[i] != '\t' && s[i] != '\r' && s[i] != '\n'
  }

  /** The kept bytes before `i`. */
  function KeptTo(s: string, i: nat): string
    requires i <= |s|
  {
    if i == 0 then "" else KeptTo(s, i - 1) + if Kept(s, i - 1) then [s[i - 1]] else ""
  }

  lemma {:induction false} KeptSplits(s: string, i: nat)
    requires i <= |s|
    ensures KeptFrom(s, 0) == KeptTo(s, i) + KeptFrom(s, i)
  {
    if i > 0 {
      KeptSplits(s, i - 1);
      Regroup(KeptTo(s, i - 1), if Kept(s, i - 1) then [s[i - 1]] else "", KeptFrom(s, i));
    }
  }

  /** The walk over the kept bytes is in a literal exactly where the text is. */
  predicate SameMode(m: Mode, q: Mode) {
    if m == Literal || m == Escaped then q == m else q == Outside
  }

  lemma QuoteModeGrows(s: string, c: char, i: nat)
    requires i <= |s|
    ensures QuoteMode(s + [c], i) == QuoteMode(s, i)
  {
    if i > 0 {
      QuoteModeGrows(s, c, i - 1);
    }
  }

  lemma {:induction false} KeptHasNoBlanks(s: string, i: nat)
    requires i <= |s|
    ensures NoBlanks(KeptTo(s, i)) && SameMode(ModeAt(s, i), QuoteMode(KeptTo(s, i), |KeptTo(s, i)|))
  {
    hide Keeps, After, NoBlanks, QuoteMode, SameMode;
    if i == 0 {
      NothingKept();
    } else {
      KeptHasNoBlanks(s, i - 1);
      var m, c, next := ModeAt(s, i - 1), s[i - 1], At(s, i);
      if Kept(s, i - 1) {
        KeptGrows(KeptTo(s, i - 1), c, m, next);
      } else {
        EmptyEnds(KeptTo(s, i - 1));
        NotKept(m, QuoteMode(KeptTo(s, i - 1), |KeptTo(s, i - 1)|), c, next);
      }
    }
  }

  lemma NothingKept()
    ensures NoBlanks("") && SameMode(Outside, QuoteMode("", 0))
  {
  }

  lemma NotKept(m: Mode, q: Mode, c: char, next: char)
    requires SameMode(m, q) && !Keeps(m, c, next)
    ensures SameMode(After(m, c, next), q)
  {
  }

  function QuoteAfter(m: Mode, c: char): Mode {
    if m == Escaped then Literal
    else if m == Literal then (if c == '"' then Outside else if c == '\\' then Escaped else Literal)
    else if c == '"' then Literal else Outside
  }

  lemma QuoteModeLast(k: string, c: char)
    ensures QuoteMode(k + [c], |k + [c]|) == QuoteAfter(QuoteMode(k, |k|), c)
  {
    QuoteModeGrows(k, c, |k|);
    assert (k + [c])[|k|] == c;
  }

  lemma NoBlanksGrows(k: string, c: char)
    requires NoBlanks(k) && (QuoteMode(k, |k|) == Outside ==> c != ' ' && c != '\t' && c != '\r' && c != '\n')
    ensures NoBlanks(k + [c])
  {
    hide QuoteMode;
    var w := k + [c];
    forall i | 0 <= i < |w| && QuoteMode(w, i) == Outside
      ensures w[i] != ' ' && w[i] != '\t' && w[i] != '\r' && w[i] != '\n'
    {
      QuoteModeGrows(k, c, i);
    }
  }

  lemma KeptGrows(k: string, c: char, m: Mode, next: char)
    requires NoBlanks(k) && SameMode(m, QuoteMode(k, |k|)) && Keeps(m, c, next)
    ensures NoBlanks(k + [c]) && SameMode(After(m, c, next), QuoteMode(k + [c], |k + [c]|))
  {
    hide NoBlanks, QuoteMode;
    QuoteModeLast(k, c);
    NoBlanksGrows(k, c);
  }

  /** Outside of its string literals a minified text holds no space, tab, CR or LF. */
  lemma MinifiedHasNoBlanks(s: string)
    requires NulFree(s) && Closed(s)
    ensures NoBlanks(Minified(s))
  {
    MinifiedIsKept(s);
    KeptHasNoBlanks(s, |s|);
    KeptSplits(s, |s|);
    EmptyEnds(KeptTo(s, |s|));
  }
}
