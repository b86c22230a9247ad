/**
 Text as cJSON.c sees it. A `char` stands for one byte, a pointer into a
 NUL-terminated text is the `string` of the bytes that remain before the
 terminator, and reading at the end of that string yields the terminator.
 */
module CString {

  const NUL: char := '\0'
  const BACKSPACE: char := '\U{8}'
  const FORM_FEED: char := '\U{c}'

  /** The byte `k` places after the pointer. */
  function At(s: string, k: nat): char {
    if k < |s| then s[k] else NUL
  }

  /** The pointer moved forward by `k`; it never leaves the terminator behind. */
  function Advance(s: string, k: nat): (r: string)
    ensures |r| <= |s|
    ensures 0 < k && 0 < |s| ==> |r| < |s|
  {
    if k <= |s| then s[k..] else ""
  }

  /** A byte sequence that a C string can hold. */
  ghost predicate NulFree(s: string) {
    forall i | 0 <= i < |s| :: s[i] != NUL
  }

  /** `strncmp(s, word, |word|) == 0` */
  predicate StartsWith(s: string, word: string) {
    |word| <= |s| && s[..|word|] == word
  }

  predicate Blank(c: char) {
    c != NUL && c <= ' '
  }

  /** The library's `skip`: white space and every other control byte. */
  function Skip(s: string): (r: string)
    ensures |r| <= |s|
    ensures !Blank(At(r, 0))
  {
    if s != "" && Blank(s[0]) then Skip(s[1..]) else s
  }

  predicate Digit(c: char) {
    '0' <= c <= '9'
  }

  lemma StartsWithPrefix(word: string, rest: string)
    ensures StartsWith(word + rest, word)
  {
    assert (word + rest)[..|word|] == word;
  }

  /** Blanks in front of a text do not change what `Skip` returns. */
  lemma {:induction false} SkipBlanks(blanks: string, s: string)
    requires forall i | 0 <= i < |blanks| :: Blank(blanks[i])
    ensures Skip(blanks + s) == Skip(s)
  {
    if blanks == "" {
      assert blanks + s == s;
    } else {
      assert (blanks + s)[1..] == blanks[1..] + s;
      SkipBlanks(blanks[1..], s);
    }
  }
}
