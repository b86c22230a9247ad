/**
 The library as a whole: a tree printed by either printer, in either format, minified
 in place or not, and parsed into memory again.
 */
module EndToEnd {
  import opened CString
  import J = JsonValue
  import P = JsonParse
  import opened JsonText
  import opened PrintBuffer
  import opened TextFacts
  import BufferedPrinter
  import ComposedPrinter
  import Minify
  import MinifyInPlace
  import RoundTrip
  import opened Memory
  import opened Chains
  import opened Building
  import opened References
  import TreeParser

  /** Both printers write the same text, and the length of the one is the length of
      the other, for every first size of the growing buffer. */
  method PrintBoth(v: J.Json, prebuffer: nat, fmt: bool) returns (composed: array<char>, buffered: array<char>, n: nat)
    requires J.Printable(v) && 1 <= prebuffer && |Text(v, 0, fmt)| + 21 <= SIZE_LIMIT
    ensures n < composed.Length && n < buffered.Length && composed[n] == NUL && buffered[n] == NUL
    ensures composed[..n] == buffered[..n] == Text(v, 0, fmt)
  {
    hide Text;
    composed := ComposedPrinter.Print(v, fmt);
    var at;
    buffered, at := BufferedPrinter.PrintBuffered(v, prebuffer, fmt);
    TextNulFree(v, 0, fmt);
    assert composed[..0] + Text(v, 0, fmt) == Text(v, 0, fmt);
    n := StrLen(composed, 0, Text(v, 0, fmt));
  }

  /** Every tree comes back from its print: the parse succeeds, uses all of the text,
      and builds a new tree with the same value, which can be freed without a trace. */
  method PrintAndParse(h: Heap, v: J.Json, fmt: bool, requireEnd: bool) returns (c: Ptr, ghost f: Forest)
    requires J.Printable(v)
    modifies h
    ensures c != NULL && Built(old(h.mem), h.mem, f, c, NULL, {}) && Deleted(h.mem, f) == old(h.mem)
    ensures Value(h.mem, f) == TreeParser.TreeOf(v, Absent, NoTree)
    ensures Value(h.mem, f).Tree? && TreeParser.JsonOf(Value(h.mem, f)) == v
  {
    hide Text, P.Parse, TreeParser.TreeOf;
    var out := ComposedPrinter.Print(v, fmt);
    TextNulFree(v, 0, fmt);
    assert out[..0] + Text(v, 0, fmt) == Text(v, 0, fmt);
    var n := StrLen(out, 0, Text(v, 0, fmt));
    RoundTrip.PrintThenParse(v, fmt, requireEnd);
    var rest;
    c, rest, f := TreeParser.ParseWithOpts(h, out[..n], requireEnd);
  }

  /** Minifying the formatted print in place leaves the unformatted print. */
  method PrintAndMinify(v: J.Json) returns (out: array<char>)
    requires J.Printable(v)
    ensures Shows(out, Text(v, 0, false))
  {
    hide Text, Minify.Minified, Minify.Closed;
    out := ComposedPrinter.Print(v, true);
    TextNulFree(v, 0, true);
    Minify.MinifyPrint(v);
    var _ := MinifyInPlace.MinifyText(out, Text(v, 0, true));
  }
}
