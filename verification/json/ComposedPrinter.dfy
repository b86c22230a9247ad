/**
 `print_value`, `print_array` and `print_object` without a buffer: every value
 gets a block of its own; containers first print and measure their children,
 then allocate once and compose.
 */
module ComposedPrinter {
  import opened CString
  import opened Sequences
  import opened JsonValue
  import opened JsonString
  import opened JsonText
  import opened Numerals
  import opened PrintBuffer
  import opened StringPrinter
  import opened TextFacts
  import opened BufferedPrinter

  // ----- what the two passes of a container are about -----

  function ItemTexts(items: Items, depth: nat, fmt: bool): (texts: seq<string>) {
    if items.NoItem? then [] else [Text(items.first, depth, fmt)] + ItemTexts(items.next, depth, fmt)
  }

  /** The composed text from entry `i` on. */
  function ComposedFrom(texts: seq<string>, i: nat, fmt: bool): string
    requires i <= |texts|
    decreases |texts| - i
  {
    if i == |texts| then ""
    else texts[i] + (if i == |texts| - 1 then "" else Separator(fmt)) + ComposedFrom(texts, i + 1, fmt)
  }

  /** What the first pass of `print_array` adds up from entry `i` on. */
  function MeasuredFrom(texts: seq<string>, i: nat, fmt: bool): nat
    requires i <= |texts|
    decreases |texts| - i
  {
    if i == |texts| then 0 else |texts[i]| + 2 + (if fmt then 1 else 0) + MeasuredFrom(texts, i + 1, fmt)
  }

  lemma {:induction false} ArrayMeasure(texts: seq<string>, i: nat, fmt: bool)
    requires i <= |texts|
    ensures MeasuredFrom(texts, i, fmt) ==
      |ComposedFrom(texts, i, fmt)| + (|texts| - i) + (if i == |texts| then 0 else |Separator(fmt)|)
    decreases |texts| - i
  {
    if i < |texts| {
      ArrayMeasure(texts, i + 1, fmt);
    }
  }

  lemma {:induction false} ComposedShift(text: string, texts: seq<string>, i: nat, fmt: bool)
    requires i <= |texts|
    ensures ComposedFrom([text] + texts, i + 1, fmt) == ComposedFrom(texts, i, fmt)
    decreases |texts| - i
  {
    if i < |texts| {
      ComposedShift(text, texts, i + 1, fmt);
    }
  }

  /** Composing the entries gives the text of the elements. */
  lemma {:induction false} ComposedItems(items: Items, depth: nat, fmt: bool)
    ensures ComposedFrom(ItemTexts(items, depth, fmt), 0, fmt) == ItemsText(items, depth, fmt)
  {
    hide Text;
    if items.Item? {
      ComposedItems(items.next, depth, fmt);
      ComposedShift(Text(items.first, depth, fmt), ItemTexts(items.next, depth, fmt), 0, fmt);
    }
  }

  function MemberNames(members: Members): seq<string> {
    if members.NoMember? then [] else [Quoted(members.name)] + MemberNames(members.next)
  }

  function MemberTexts(members: Members, depth: nat, fmt: bool): (texts: seq<string>)
    ensures |texts| == |MemberNames(members)|
  {
    if members.NoMember? then [] else [Text(members.value, depth, fmt)] + MemberTexts(members.next, depth, fmt)
  }

  /** One member of the composed object. */
  function Line(name: string, text: string, last: bool, depth: nat, fmt: bool): string {
    When(fmt, Tabs(depth)) + name + (":" + When(fmt, "\t")) + text + LineEnd(last, fmt)
  }

  function LinesFrom(names: seq<string>, texts: seq<string>, i: nat, depth: nat, fmt: bool): string
    requires i <= |texts| == |names|
    decreases |texts| - i
  {
    if i == |texts| then ""
    else Line(names[i], texts[i], i == |texts| - 1, depth, fmt) + LinesFrom(names, texts, i + 1, depth, fmt)
  }

  /** What the first pass of `print_object` adds up from member `i` on. */
  function LinesMeasuredFrom(names: seq<string>, texts: seq<string>, i: nat, depth: nat, fmt: bool): nat
    requires i <= |texts| == |names|
    decreases |texts| - i
  {
    if i == |texts| then 0
    else |texts[i]| + |names[i]| + 2 + (if fmt then 2 + depth else 0) + LinesMeasuredFrom(names, texts, i + 1, depth, fmt)
  }

  lemma {:induction false} ObjectMeasure(names: seq<string>, texts: seq<string>, i: nat, depth: nat, fmt: bool)
    requires i <= |texts| == |names|
    ensures LinesMeasuredFrom(names, texts, i, depth, fmt) ==
      |LinesFrom(names, texts, i, depth, fmt)| + (if i == |texts| then 0 else 1)
    decreases |texts| - i
  {
    hide Tabs;
    if i < |texts| {
      TabsLength(depth);
      ObjectMeasure(names, texts, i + 1, depth, fmt);
    }
  }

  lemma {:induction false} LinesShift(name: string, text: string, names: seq<string>, texts: seq<string>, i: nat, depth: nat, fmt: bool)
    requires i <= |texts| == |names|
    ensures LinesFrom([name] + names, [text] + texts, i + 1, depth, fmt) == LinesFrom(names, texts, i, depth, fmt)
    decreases |texts| - i
  {
    hide Line;
    if i < |texts| {
      assert ([text] + texts)[i + 1] == texts[i] && ([name] + names)[i + 1] == names[i];
      LinesShift(name, text, names, texts, i + 1, depth, fmt);
    }
  }

  lemma LineIsPiece(members: Members, depth: nat, fmt: bool)
    requires members.Member?
    ensures Line(Quoted(members.name), Text(members.value, depth, fmt), members.next.NoMember?, depth, fmt)
         == MemberPiece(members, depth, fmt)
  {
    hide Text, Tabs, Quoted, LineEnd;
  }

  /** Composing names and entries gives the text of the members. */
  lemma {:induction false} ComposedMembers(members: Members, depth: nat, fmt: bool)
    ensures LinesFrom(MemberNames(members), MemberTexts(members, depth, fmt), 0, depth, fmt) == MembersText(members, depth, fmt)
  {
    hide Text, Line, Quoted, MemberPiece;
    if members.Member? {
      ComposedMembers(members.next, depth, fmt);
      LinesShift(Quoted(members.name), Text(members.value, depth, fmt),
                 MemberNames(members.next), MemberTexts(members.next, depth, fmt), 0, depth, fmt);
      LineIsPiece(members, depth, fmt);
      MembersHead(members, depth, fmt);
    }
  }

  function ItemCount(items: Items): nat {
    if items.NoItem? then 0 else 1 + ItemCount(items.next)
  }

  function MemberCount(members: Members): nat {
    if members.NoMember? then 0 else 1 + MemberCount(members.next)
  }

  // ----- the printer -----

  /** Bytes allocated beyond the text and its terminator. */
  ghost function Slack(v: Json, fmt: bool): nat {
    match v
    case Null | False | True | String(_) => 0
    case Number(x) => if x == 0.0 || |IntText(x.Floor)| > 20 then 0 else 20 - |IntText(x.Floor)|
    case Array(items) => if items.NoItem? then 0 else ItemCount(items) + 3 + (if fmt then 1 else 0)
    case Object(members) => if members.NoMember? then 0 else 5
  }

  /** The block holds the text, and is as large as the first pass computed. */
  ghost predicate Printed(out: array<char>, v: Json, depth: nat, fmt: bool)
    reads out
  {
    && Shows(out, Text(v, depth, fmt))
    && (v == Object(NoMember) || out.Length == |Text(v, depth, fmt)| + 1 + Slack(v, fmt))
  }

  method Duplicate(word: string) returns (out: array<char>)
    ensures fresh(out) && Shows(out, word) && out.Length == |word| + 1
  {
    out := new char[|word| + 1];
    StrCopy(out, 0, word);
  }

  method PrintNumberBlock(x: real) returns (out: array<char>)
    requires Int32(x)
    ensures fresh(out) && Shows(out, IntText(x.Floor)) && out.Length == if x == 0.0 then 2 else 21
  {
    IntTextFits(x.Floor);
    if x == 0.0 {
      out := new char[2];
      StrCopy(out, 0, "0");
    } else {
      out := new char[21];
      StrCopy(out, 0, IntText(x.Floor));
    }
  }

  method PrintTree(v: Json, depth: nat, fmt: bool) returns (out: array<char>)
    requires Printable(v)
    ensures fresh(out) && Printed(out, v, depth, fmt)
    decreases v, 4
  {
    match v
    case Null => out := Duplicate("null");
    case False => out := Duplicate("false");
    case True => out := Duplicate("true");
    case Number(x) =>
      IntTextFits(x.Floor);
      out := PrintNumberBlock(x);
      assert x == 0.0 ==> |IntText(x.Floor)| == 1;
    case String(s) => out := PrintString(s);
    case Array(items) => out := PrintArrayBlock(items, depth, fmt);
    case Object(members) => out := PrintObjectBlock(members, depth, fmt);
  }

  /** The blocks that are printed so far. */
  ghost predicate Filled(entries: seq<array<char>>, texts: seq<string>)
    reads entries
  {
    && |entries| <= |texts|
    && forall k | 0 <= k < |entries| :: Shows(entries[k], texts[k]) && NulFree(texts[k])
  }

  lemma NoneFilled(texts: seq<string>)
    ensures Filled([], texts)
  {
  }

  lemma FilledGrows(entries: seq<array<char>>, texts: seq<string>, ret: array<char>)
    requires Filled(entries, texts) && |entries| < |texts|
    requires Shows(ret, texts[|entries|]) && NulFree(texts[|entries|])
    ensures Filled(entries + [ret], texts)
  {
  }

  method CountItems(items: Items) returns (n: nat)
    ensures n == ItemCount(items)
  {
    n := 0;
    var child := items;
    while child.Item?
      invariant n + ItemCount(child) == ItemCount(items)
      decreases child
    {
      n := n + 1;
      child := child.next;
    }
  }

  method CountMembers(members: Members) returns (n: nat)
    ensures n == MemberCount(members)
  {
    n := 0;
    var child := members;
    while child.Member?
      invariant n + MemberCount(child) == MemberCount(members)
      decreases child
    {
      n := n + 1;
      child := child.next;
    }
  }

  /** `memcpy(ptr, entry, strlen(entry))`, with the pointer moved behind it. */
  method CopyEntry(entry: array<char>, ghost text: string, out: array<char>, at: nat) returns (next: nat)
    requires Shows(entry, text) && NulFree(text) && entry != out && at + |text| <= out.Length
    modifies out
    ensures next == at + |text| && out[..next] == old(out[..at]) + text
  {
    assert entry[..0] + text == text;
    var len := StrLen(entry, 0, text);
    Copy(out, at, entry[..len]);
    next := at + len;
  }

  /** One round of the composing loop of `print_array`. */
  method ComposeEntry(entry: array<char>, ghost text: string, last: bool, fmt: bool, out: array<char>, at: nat)
    returns (next: nat)
    requires Shows(entry, text) && NulFree(text) && entry != out
    requires at + |text| + (if last then 0 else |Separator(fmt)|) < out.Length
    modifies out
    ensures next == at + |text| + (if last then 0 else |Separator(fmt)|)
    ensures out[..next] == old(out[..at]) + (text + (if last then "" else Separator(fmt)))
  {
    next := CopyEntry(entry, text, out, at);
    if !last {
      Put(out, next, ',');
      next := next + 1;
      if fmt {
        Put(out, next, ' ');
        next := next + 1;
      }
      out[next] := NUL;
    }
  }

  /** Second pass of `print_array`. */
  method ComposeArray(entries: seq<array<char>>, ghost texts: seq<string>, fmt: bool, out: array<char>)
    requires Filled(entries, texts) && |entries| == |texts| >= 1 && out !in entries
    requires |ComposedFrom(texts, 0, fmt)| + 3 <= out.Length
    modifies out
    ensures Shows(out, "[" + ComposedFrom(texts, 0, fmt) + "]")
  {
    Put(out, 0, '[');
    var ptr: nat := 1;
    assert out[..ptr] == "[";
    for i := 0 to |entries|
      invariant ptr + |ComposedFrom(texts, i, fmt)| + 2 <= out.Length
      invariant Filled(entries, texts)
      invariant out[..ptr] + ComposedFrom(texts, i, fmt) == "[" + ComposedFrom(texts, 0, fmt)
    {
      ghost var front := out[..ptr];
      assert entries[i] in entries;
      ptr := ComposeEntry(entries[i], texts[i], i == |entries| - 1, fmt, out, ptr);
      Regroup(front, texts[i] + (if i == |entries| - 1 then "" else Separator(fmt)), ComposedFrom(texts, i + 1, fmt));
    }
    assert out[..ptr] + "" == out[..ptr];
    Put(out, ptr, ']');
    out[ptr + 1] := NUL;
  }

  lemma {:induction false} ItemTextsCount(items: Items, depth: nat, fmt: bool)
    ensures |ItemTexts(items, depth, fmt)| == ItemCount(items)
  {
    if items.Item? {
      ItemTextsCount(items.next, depth, fmt);
    }
  }

  lemma NextText(child: Items, depth: nat, fmt: bool, texts: seq<string>, k: nat)
    requires child.Item? && k <= |texts| && ItemTexts(child, depth, fmt) == texts[k..]
    ensures k < |texts| && texts[k] == Text(child.first, depth, fmt) && ItemTexts(child.next, depth, fmt) == texts[k + 1..]
  {
    hide Text;
    var t := Text(child.first, depth, fmt);
    assert ([t] + ItemTexts(child.next, depth, fmt))[1..] == ItemTexts(child.next, depth, fmt);
    assert texts[k..] == [t] + ItemTexts(child.next, depth, fmt);
    FirstOff(texts, k);
  }

  lemma MeasuredNext(texts: seq<string>, i: nat, fmt: bool)
    requires i < |texts|
    ensures MeasuredFrom(texts, i, fmt) == |texts[i]| + 2 + (if fmt then 1 else 0) + MeasuredFrom(texts, i + 1, fmt)
  {
  }

  /** One element: its block and its length. */
  method PrintElement(v: Json, depth: nat, fmt: bool) returns (ret: array<char>, n: nat)
    requires Printable(v)
    ensures fresh(ret) && Shows(ret, Text(v, depth, fmt)) && NulFree(Text(v, depth, fmt)) && n == |Text(v, depth, fmt)|
    decreases v, 5
  {
    hide Text;
    TextNulFree(v, depth, fmt);
    ret := PrintTree(v, depth, fmt);
    assert ret[..0] + Text(v, depth, fmt) == Text(v, depth, fmt);
    n := StrLen(ret, 0, Text(v, depth, fmt));
  }

  /** The first pass stands in front of `child`: the elements before it are printed and measured. */
  ghost predicate Passing(items: Items, child: Items, depth: nat, fmt: bool, entries: seq<array<char>>, added: nat)
    reads entries
  {
    var texts := ItemTexts(items, depth, fmt);
    && PrintableItems(child) && |entries| <= |texts| && ItemTexts(child, depth, fmt) == texts[|entries|..]
    && Filled(entries, texts)
    && added + MeasuredFrom(texts, |entries|, fmt) == MeasuredFrom(texts, 0, fmt)
  }

  lemma PassStarts(items: Items, depth: nat, fmt: bool)
    requires PrintableItems(items)
    ensures Passing(items, items, depth, fmt, [], 0)
  {
    NoneFilled(ItemTexts(items, depth, fmt));
    EmptyEnds(ItemTexts(items, depth, fmt));
  }

  lemma PassEnds(items: Items, depth: nat, fmt: bool, entries: seq<array<char>>, added: nat)
    requires Passing(items, NoItem, depth, fmt, entries, added)
    ensures |entries| == |ItemTexts(items, depth, fmt)| && Filled(entries, ItemTexts(items, depth, fmt))
    ensures added == MeasuredFrom(ItemTexts(items, depth, fmt), 0, fmt)
  {
    hide MeasuredFrom, Filled;
    NoneMeasured(ItemTexts(items, depth, fmt), |entries|, fmt);
  }

  lemma PassGoesOn(items: Items, child: Items, depth: nat, fmt: bool, entries: seq<array<char>>, added: nat, ret: array<char>)
    requires child.Item? && Passing(items, child, depth, fmt, entries, added)
    requires var text := Text(child.first, depth, fmt); Shows(ret, text) && NulFree(text)
    ensures Passing(items, child.next, depth, fmt, entries + [ret],
                    added + |Text(child.first, depth, fmt)| + 2 + (if fmt then 1 else 0))
  {
    hide Text, ItemTexts, MeasuredFrom, Filled, Shows;
    var texts := ItemTexts(items, depth, fmt);
    NextText(child, depth, fmt, texts, |entries|);
    MeasuredNext(texts, |entries|, fmt);
    FilledGrows(entries, texts, ret);
  }

  /** First pass of `print_array`: prints the elements and adds up their lengths. */
  method PrintElements(items: Items, depth: nat, fmt: bool) returns (entries: seq<array<char>>, added: nat)
    requires PrintableItems(items)
    ensures |entries| == |ItemTexts(items, depth, fmt)| && Filled(entries, ItemTexts(items, depth, fmt))
    ensures added == MeasuredFrom(ItemTexts(items, depth, fmt), 0, fmt)
    decreases items, 2
  {
    hide Text, ItemTexts, MeasuredFrom, Filled, Shows, Passing;
    PassStarts(items, depth, fmt);
    entries, added := [], 0;
    var child := items;
    while child.Item?
      invariant Passing(items, child, depth, fmt, entries, added)
      invariant PrintableItems(child) && (child == items || child < items)
      decreases child
    {
      var ret, n := PrintElement(child.first, depth, fmt);
      PassGoesOn(items, child, depth, fmt, entries, added, ret);
      entries, added := entries + [ret], added + n + 2 + (if fmt then 1 else 0);
      child := child.next;
    }
    PassEnds(items, depth, fmt, entries, added);
  }

  lemma NoneMeasured(texts: seq<string>, k: nat, fmt: bool)
    requires k <= |texts| && texts[k..] == []
    ensures k == |texts| && MeasuredFrom(texts, k, fmt) == 0
  {
    assert |texts[k..]| == |texts| - k;
  }

  method PrintArrayBlock(items: Items, depth: nat, fmt: bool) returns (out: array<char>)
    requires PrintableItems(items)
    ensures fresh(out) && Printed(out, Array(items), depth, fmt)
    decreases items, 3
  {
    hide Text, ItemsText, ComposedFrom, MeasuredFrom;
    ArrayText(items, depth, fmt);
    var numentries := CountItems(items);
    if numentries == 0 {
      out := new char[3];
      StrCopy(out, 0, "[]");
      return;
    }
    ghost var texts := ItemTexts(items, depth + 1, fmt);
    ItemTextsCount(items, depth + 1, fmt);
    var entries, added := PrintElements(items, depth + 1, fmt);
    ArrayMeasure(texts, 0, fmt);
    ComposedItems(items, depth + 1, fmt);
    out := new char[5 + added];
    ComposeArray(entries, texts, fmt, out);
    Regroup("[", ComposedFrom(texts, 0, fmt), "]");
  }

  // ----- objects -----

  /** Indentation, name and colon. */
  method ComposeName(name: array<char>, ghost quoted: string, depth: nat, fmt: bool, out: array<char>, at: nat)
    returns (next: nat)
    requires Shows(name, quoted) && NulFree(quoted) && name != out
    requires at + |When(fmt, Tabs(depth)) + quoted + (":" + When(fmt, "\t"))| <= out.Length
    modifies out
    ensures next == at + |When(fmt, Tabs(depth)) + quoted + (":" + When(fmt, "\t"))|
    ensures out[..next] == old(out[..at]) + (When(fmt, Tabs(depth)) + quoted + (":" + When(fmt, "\t")))
  {
    hide Tabs;
    TabsLength(depth);
    next := at;
    if fmt {
      PutTabs(out, next, depth);
      next := next + depth;
    }
    next := CopyEntry(name, quoted, out, next);
    Put(out, next, ':');
    next := next + 1;
    if fmt {
      Put(out, next, '\t');
      next := next + 1;
    }
  }

  /** Value, comma and end of line. */
  method ComposeEnd(entry: array<char>, ghost text: string, last: bool, fmt: bool, out: array<char>, at: nat)
    returns (next: nat)
    requires Shows(entry, text) && NulFree(text) && entry != out
    requires at + |text| + |LineEnd(last, fmt)| < out.Length
    modifies out
    ensures next == at + |text| + |LineEnd(last, fmt)|
    ensures out[..next] == old(out[..at]) + (text + LineEnd(last, fmt))
  {
    next := CopyEntry(entry, text, out, at);
    if !last {
      Put(out, next, ',');
      next := next + 1;
    }
    if fmt {
      Put(out, next, '\n');
      next := next + 1;
    }
    out[next] := NUL;
  }

  /** One round of the composing loop of `print_object`. */
  method ComposeLine(name: array<char>, entry: array<char>, ghost quoted: string, ghost text: string,
                     last: bool, depth: nat, fmt: bool, out: array<char>, at: nat)
    returns (next: nat)
    requires Shows(name, quoted) && NulFree(quoted) && name != out
    requires Shows(entry, text) && NulFree(text) && entry != out
    requires at + |Line(quoted, text, last, depth, fmt)| < out.Length
    modifies out
    ensures next == at + |Line(quoted, text, last, depth, fmt)|
    ensures out[..next] == old(out[..at]) + Line(quoted, text, last, depth, fmt)
  {
    hide Tabs, LineEnd;
    ghost var front := out[..at];
    ghost var head := When(fmt, Tabs(depth)) + quoted + (":" + When(fmt, "\t"));
    next := ComposeName(name, quoted, depth, fmt, out, at);
    next := ComposeEnd(entry, text, last, fmt, out, next);
    assert front + head + (text + LineEnd(last, fmt)) == front + Line(quoted, text, last, depth, fmt);
  }

  /** The composed object around its lines; `depth` is that of the members. */
  function Braced(lines: string, depth: nat, fmt: bool): string
    requires 1 <= depth
  {
    "{" + When(fmt, "\n") + (lines + (When(fmt, Tabs(depth - 1)) + "}"))
  }

  /** Second pass of `print_object`. */
  method ComposeObject(names: seq<array<char>>, entries: seq<array<char>>,
                       ghost labels: seq<string>, ghost texts: seq<string>,
                       depth: nat, fmt: bool, out: array<char>)
    requires Filled(names, labels) && Filled(entries, texts)
    requires |names| == |labels| == |entries| == |texts| && out !in entries && out !in names && 1 <= depth
    requires |Braced(LinesFrom(labels, texts, 0, depth, fmt), depth, fmt)| < out.Length
    modifies out
    ensures Shows(out, Braced(LinesFrom(labels, texts, 0, depth, fmt), depth, fmt))
  {
    hide Tabs, Line, LineEnd, LinesFrom, Filled, Shows, Braced;
    ghost var lines := LinesFrom(labels, texts, 0, depth, fmt);
    BracedSplits(lines, depth, fmt);
    var ptr: nat := ComposeOpen(out, fmt);
    for i := 0 to |entries|
      invariant ptr + |LinesFrom(labels, texts, i, depth, fmt)| + |When(fmt, Tabs(depth - 1))| + 1 < out.Length
      invariant Filled(names, labels) && Filled(entries, texts)
      invariant out[..ptr] + LinesFrom(labels, texts, i, depth, fmt) == "{" + When(fmt, "\n") + lines
    {
      ptr := NextLine(names, entries, labels, texts, i, depth, fmt, out, ptr);
    }
    NoLines(labels, texts, depth, fmt);
    EmptyEnds(out[..ptr]);
    ComposeClose(out, ptr, depth - 1, fmt);
  }

  /** The opening brace and its end of line. */
  method ComposeOpen(out: array<char>, fmt: bool) returns (ptr: nat)
    requires 2 < out.Length
    modifies out
    ensures ptr == |"{" + When(fmt, "\n")| && out[..ptr] == "{" + When(fmt, "\n")
  {
    Put(out, 0, '{');
    ptr := 1;
    if fmt {
      Put(out, ptr, '\n');
      ptr := ptr + 1;
    }
    out[ptr] := NUL;
  }

  /** One round of the composing loop, from the blocks of the first pass. */
  method NextLine(names: seq<array<char>>, entries: seq<array<char>>,
                  ghost labels: seq<string>, ghost texts: seq<string>, i: nat,
                  depth: nat, fmt: bool, out: array<char>, at: nat) returns (next: nat)
    requires i < |names| == |labels| == |entries| == |texts| && out !in entries && out !in names
    requires Filled(names, labels) && Filled(entries, texts)
    requires at <= out.Length && at + |LinesFrom(labels, texts, i, depth, fmt)| < out.Length
    modifies out
    ensures Filled(names, labels) && Filled(entries, texts)
    ensures next + |LinesFrom(labels, texts, i + 1, depth, fmt)| == at + |LinesFrom(labels, texts, i, depth, fmt)|
    ensures out[..next] + LinesFrom(labels, texts, i + 1, depth, fmt) == old(out[..at]) + LinesFrom(labels, texts, i, depth, fmt)
  {
    hide Tabs, Line, LineEnd;
    LinesSplit(labels, texts, i, depth, fmt);
    ghost var front := out[..at];
    assert entries[i] in entries && names[i] in names;
    next := ComposeLine(names[i], entries[i], labels[i], texts[i], i == |entries| - 1, depth, fmt, out, at);
    Regroup(front, Line(labels[i], texts[i], i == |entries| - 1, depth, fmt), LinesFrom(labels, texts, i + 1, depth, fmt));
  }

  lemma LinesSplit(names: seq<string>, texts: seq<string>, i: nat, depth: nat, fmt: bool)
    requires i < |texts| == |names|
    ensures var line := Line(names[i], texts[i], i == |texts| - 1, depth, fmt);
      LinesFrom(names, texts, i, depth, fmt) == line + LinesFrom(names, texts, i + 1, depth, fmt)
  {
  }

  lemma NoLines(names: seq<string>, texts: seq<string>, depth: nat, fmt: bool)
    requires |texts| == |names|
    ensures LinesFrom(names, texts, |texts|, depth, fmt) == ""
  {
  }

  lemma BracedSplits(lines: string, depth: nat, fmt: bool)
    requires 1 <= depth
    ensures Braced(lines, depth, fmt) == "{" + When(fmt, "\n") + lines + (When(fmt, Tabs(depth - 1)) + "}")
    ensures |Braced(lines, depth, fmt)| == |"{" + When(fmt, "\n")| + |lines| + |When(fmt, Tabs(depth - 1))| + 1
    ensures 2 <= |Braced(lines, depth, fmt)|
  {
  }

  method ComposeClose(out: array<char>, at: nat, depth: nat, fmt: bool)
    requires at + |When(fmt, Tabs(depth))| + 1 < out.Length
    modifies out
    ensures Shows(out, old(out[..at]) + (When(fmt, Tabs(depth)) + "}"))
  {
    hide Tabs;
    TabsLength(depth);
    var ptr := at;
    if fmt {
      PutTabs(out, ptr, depth);
      ptr := ptr + depth;
    }
    Put(out, ptr, '}');
    out[ptr + 1] := NUL;
    assert out[..ptr + 1] == old(out[..at]) + (When(fmt, Tabs(depth)) + "}");
  }

  lemma {:induction false} MemberTextsCount(members: Members, depth: nat, fmt: bool)
    ensures |MemberTexts(members, depth, fmt)| == MemberCount(members)
  {
    if members.Member? {
      MemberTextsCount(members.next, depth, fmt);
    }
  }

  lemma BracedIsText(members: Members, depth: nat, fmt: bool)
    requires members.Member?
    ensures Braced(MembersText(members, depth + 1, fmt), depth + 1, fmt) == Text(Object(members), depth, fmt)
    ensures |Braced(MembersText(members, depth + 1, fmt), depth + 1, fmt)|
         == |MembersText(members, depth + 1, fmt)| + 2 + (if fmt then depth + 1 else 0)
  {
    hide Tabs, MembersText;
    ObjectText(members, depth, fmt);
    TabsLength(depth);
  }

  lemma NextPair(child: Members, depth: nat, fmt: bool, labels: seq<string>, texts: seq<string>, k: nat)
    requires child.Member? && k <= |labels| == |texts|
    requires MemberNames(child) == labels[k..] && MemberTexts(child, depth, fmt) == texts[k..]
    ensures k < |texts| && labels[k] == Quoted(child.name) && texts[k] == Text(child.value, depth, fmt)
    ensures MemberNames(child.next) == labels[k + 1..] && MemberTexts(child.next, depth, fmt) == texts[k + 1..]
  {
    hide Text, Quoted;
    var l, t := Quoted(child.name), Text(child.value, depth, fmt);
    assert ([t] + MemberTexts(child.next, depth, fmt))[1..] == MemberTexts(child.next, depth, fmt);
    assert ([l] + MemberNames(child.next))[1..] == MemberNames(child.next);
    assert texts[k..] == [t] + MemberTexts(child.next, depth, fmt);
    assert labels[k..] == [l] + MemberNames(child.next);
    FirstOff(texts, k);
    FirstOff(labels, k);
  }

  lemma LinesMeasuredNext(names: seq<string>, texts: seq<string>, i: nat, depth: nat, fmt: bool)
    requires i < |texts| == |names|
    ensures LinesMeasuredFrom(names, texts, i, depth, fmt) ==
      |texts[i]| + |names[i]| + 2 + (if fmt then 2 + depth else 0) + LinesMeasuredFrom(names, texts, i + 1, depth, fmt)
  {
  }

  lemma NoLinesMeasured(names: seq<string>, texts: seq<string>, k: nat, depth: nat, fmt: bool)
    requires k <= |texts| == |names| && texts[k..] == []
    ensures k == |texts| && LinesMeasuredFrom(names, texts, k, depth, fmt) == 0
  {
    assert |texts[k..]| == |texts| - k;
  }

  /** The same for objects. */
  ghost predicate PassingPairs(members: Members, child: Members, depth: nat, fmt: bool,
                               names: seq<array<char>>, entries: seq<array<char>>, added: nat)
    reads names, entries
  {
    var labels, texts := MemberNames(members), MemberTexts(members, depth, fmt);
    && PrintableMembers(child) && |names| == |entries| <= |texts|
    && MemberNames(child) == labels[|names|..] && MemberTexts(child, depth, fmt) == texts[|entries|..]
    && Filled(names, labels) && Filled(entries, texts)
    && added + LinesMeasuredFrom(labels, texts, |entries|, depth, fmt) == LinesMeasuredFrom(labels, texts, 0, depth, fmt)
  }

  lemma PairsStart(members: Members, depth: nat, fmt: bool)
    requires PrintableMembers(members)
    ensures PassingPairs(members, members, depth, fmt, [], [], 0)
  {
    NoneFilled(MemberNames(members));
    NoneFilled(MemberTexts(members, depth, fmt));
    EmptyEnds(MemberNames(members));
    EmptyEnds(MemberTexts(members, depth, fmt));
  }

  lemma PairsEnd(members: Members, depth: nat, fmt: bool, names: seq<array<char>>, entries: seq<array<char>>, added: nat)
    requires PassingPairs(members, NoMember, depth, fmt, names, entries, added)
    ensures |names| == |entries| == |MemberNames(members)|
    ensures Filled(names, MemberNames(members)) && Filled(entries, MemberTexts(members, depth, fmt))
    ensures added == LinesMeasuredFrom(MemberNames(members), MemberTexts(members, depth, fmt), 0, depth, fmt)
  {
    hide LinesMeasuredFrom, Filled;
    NoLinesMeasured(MemberNames(members), MemberTexts(members, depth, fmt), |entries|, depth, fmt);
  }

  lemma PairsGoOn(members: Members, child: Members, depth: nat, fmt: bool, names: seq<array<char>>, entries: seq<array<char>>,
                  added: nat, str: array<char>, ret: array<char>)
    requires child.Member? && PassingPairs(members, child, depth, fmt, names, entries, added)
    requires Shows(str, Quoted(child.name)) && NulFree(Quoted(child.name))
    requires var text := Text(child.value, depth, fmt); Shows(ret, text) && NulFree(text)
    ensures PassingPairs(members, child.next, depth, fmt, names + [str], entries + [ret],
      added + |Text(child.value, depth, fmt)| + |Quoted(child.name)| + 2 + (if fmt then 2 + depth else 0))
  {
    hide Text, Quoted, MemberNames, MemberTexts, LinesMeasuredFrom, Filled, Shows;
    var labels, texts := MemberNames(members), MemberTexts(members, depth, fmt);
    NextPair(child, depth, fmt, labels, texts, |names|);
    LinesMeasuredNext(labels, texts, |names|, depth, fmt);
    FilledGrows(names, labels, str);
    FilledGrows(entries, texts, ret);
  }

  /** First pass of `print_object`: prints names and values and adds up their lengths. */
  method PrintPairs(members: Members, depth: nat, fmt: bool)
    returns (names: seq<array<char>>, entries: seq<array<char>>, added: nat)
    requires PrintableMembers(members)
    ensures |names| == |entries| == |MemberNames(members)|
    ensures Filled(names, MemberNames(members)) && Filled(entries, MemberTexts(members, depth, fmt))
    ensures added == LinesMeasuredFrom(MemberNames(members), MemberTexts(members, depth, fmt), 0, depth, fmt)
    decreases members, 2
  {
    hide Text, Quoted, MemberNames, MemberTexts, LinesMeasuredFrom, Filled, Shows, PassingPairs;
    PairsStart(members, depth, fmt);
    names, entries, added := [], [], 0;
    var child := members;
    while child.Member?
      invariant PassingPairs(members, child, depth, fmt, names, entries, added)
      invariant PrintableMembers(child) && (child == members || child < members)
      decreases child
    {
      var str, ret, m, n := PrintPair(child.name, child.value, depth, fmt);
      PairsGoOn(members, child, depth, fmt, names, entries, added, str, ret);
      names, entries, added := names + [str], entries + [ret], added + n + m + 2 + (if fmt then 2 + depth else 0);
      child := child.next;
    }
    PairsEnd(members, depth, fmt, names, entries, added);
  }

  method PrintPair(name: string, value: Json, depth: nat, fmt: bool)
    returns (str: array<char>, ret: array<char>, m: nat, n: nat)
    requires NulFree(name) && Printable(value)
    ensures fresh(str) && fresh(ret)
    ensures Shows(str, Quoted(name)) && NulFree(Quoted(name)) && m == |Quoted(name)|
    ensures Shows(ret, Text(value, depth, fmt)) && NulFree(Text(value, depth, fmt)) && n == |Text(value, depth, fmt)|
    decreases value, 5
  {
    hide Text, Quoted;
    QuotedNulFree(name);
    TextNulFree(value, depth, fmt);
    str := PrintString(name);
    ret := PrintTree(value, depth, fmt);
    assert str[..0] + Quoted(name) == Quoted(name) && ret[..0] + Text(value, depth, fmt) == Text(value, depth, fmt);
    m := StrLen(str, 0, Quoted(name));
    n := StrLen(ret, 0, Text(value, depth, fmt));
  }

  method PrintObjectBlock(members: Members, depth: nat, fmt: bool) returns (out: array<char>)
    requires PrintableMembers(members)
    ensures fresh(out) && Printed(out, Object(members), depth, fmt)
    decreases members, 3
  {
    hide Text, Quoted, MembersText, LinesFrom, LinesMeasuredFrom, Tabs, Braced, Filled, MemberNames, MemberTexts;
    var numentries := CountMembers(members);
    if numentries == 0 {
      out := new char[if fmt then depth + 4 else 3];
      var _ := ComposeEmptyObject(out, 0, depth, fmt);
      assert out[..0] == "";
      return;
    }
    ghost var labels, texts := MemberNames(members), MemberTexts(members, depth + 1, fmt);
    MemberTextsCount(members, depth + 1, fmt);
    var names, entries, added := PrintPairs(members, depth + 1, fmt);
    ObjectMeasure(labels, texts, 0, depth + 1, fmt);
    ComposedMembers(members, depth + 1, fmt);
    BracedIsText(members, depth, fmt);
    out := new char[7 + (if fmt then depth + 1 else 0) + added];
    ComposeObject(names, entries, labels, texts, depth + 1, fmt, out);
  }

  /**
   `cJSON_Print` and `cJSON_PrintUnformatted`: a fresh block with the text of
   the tree, of the size the length pass computed.
   */
  method Print(v: Json, fmt: bool) returns (out: array<char>)
    requires Printable(v)
    ensures fresh(out) && Printed(out, v, 0, fmt)
  {
    out := PrintTree(v, 0, fmt);
  }
}
