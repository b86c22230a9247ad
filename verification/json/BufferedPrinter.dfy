/**
 `print_value`, `print_array` and `print_object` with a print buffer: every
 piece goes to the end of one shared, growing block.
 */
module BufferedPrinter {
  import opened CString
  import opened Sequences
  import opened JsonValue
  import opened JsonString
  import opened JsonText
  import opened Numerals
  import opened PowerOfTwo
  import opened PrintBuffer
  import opened StringPrinter
  import opened TextFacts

  /** `p->offset = update(p)` after the string `t` was printed behind `front`. */
  method MoveBehind(p: Buffer, ghost front: string, ghost t: string)
    requires p.Valid() && NulFree(t) && Shows(p.buffer, front + t)
    requires |front| <= p.offset <= |front| + |t|
    modifies p`offset
    ensures p.Valid() && p.offset == |front + t| && p.buffer[..p.offset] == front + t
  {
    ghost var k := p.offset - |front|;
    assert p.buffer[..p.offset] + t[k..] == front + t;
    p.offset := p.Update(t[k..]);
  }

  method PrintNumber(x: real, p: Buffer) returns (at: nat)
    requires p.Valid() && Int32(x) && p.offset + 21 <= SIZE_LIMIT
    modifies p, p.buffer
    ensures p.Valid() && (p.buffer == old(p.buffer) || fresh(p.buffer)) && at == p.offset == old(p.offset)
    ensures Shows(p.buffer, old(p.buffer[..p.offset]) + IntText(x.Floor))
  {
    hide LeastPowerOfTwo;
    IntTextFits(x.Floor);
    if x == 0.0 {
      at := p.Ensure(2);
      StrCopy(p.buffer, at, "0");
    } else {
      at := p.Ensure(21);
      StrCopy(p.buffer, at, IntText(x.Floor));
    }
  }

  /** The three keyword branches. */
  method PrintWord(word: string, p: Buffer) returns (at: nat)
    requires p.Valid() && p.offset + |word| + 1 <= SIZE_LIMIT
    modifies p, p.buffer
    ensures p.Valid() && (p.buffer == old(p.buffer) || fresh(p.buffer)) && at == p.offset == old(p.offset)
    ensures Shows(p.buffer, old(p.buffer[..p.offset]) + word)
  {
    hide LeastPowerOfTwo;
    at := p.Ensure(|word| + 1);
    StrCopy(p.buffer, at, word);
  }

  /**
   Prints a tree at the offset. The offset may come to rest inside the printed
   text; `update` finds the end. What stood before the offset is kept.
   */
  method PrintValue(v: Json, depth: nat, fmt: bool, p: Buffer) returns (at: nat)
    requires p.Valid() && Printable(v) && p.offset + |Text(v, depth, fmt)| + depth + 21 <= SIZE_LIMIT
    modifies p, p.buffer
    ensures p.Valid() && (p.buffer == old(p.buffer) || fresh(p.buffer))
    ensures at == old(p.offset) <= p.offset <= at + |Text(v, depth, fmt)|
    ensures Shows(p.buffer, old(p.buffer[..p.offset]) + Text(v, depth, fmt))
    decreases v, 4
  {
    match v
    case Null => at := PrintWord("null", p);
    case False => at := PrintWord("false", p);
    case True => at := PrintWord("true", p);
    case Number(x) => at := PrintNumber(x, p);
    case String(s) => at := PrintStringBuffered(s, p);
    case Array(items) => at := PrintArray(items, depth, fmt, p);
    case Object(members) => at := PrintObject(members, depth, fmt, p);
  }

  /** A comma, a blank when formatting, and the terminator. */
  method PrintSeparator(fmt: bool, p: Buffer)
    requires p.Valid() && p.offset + 3 <= SIZE_LIMIT
    modifies p, p.buffer
    ensures p.Valid() && (p.buffer == old(p.buffer) || fresh(p.buffer))
    ensures p.offset == old(p.offset) + |Separator(fmt)|
    ensures p.buffer[..p.offset] == old(p.buffer[..p.offset]) + Separator(fmt)
  {
    hide LeastPowerOfTwo;
    var len := if fmt then 2 else 1;
    var at := p.Ensure(len + 1);
    Put(p.buffer, at, ',');
    if fmt {
      Put(p.buffer, at + 1, ' ');
    }
    p.buffer[at + len] := NUL;
    p.offset := p.offset + len;
  }

  /** One round of the array loop. */
  method PrintItem(child: Items, depth: nat, fmt: bool, p: Buffer)
    requires p.Valid() && child.Item? && PrintableItems(child)
    requires p.offset + |ItemPiece(child, depth, fmt)| + depth + 21 <= SIZE_LIMIT
    modifies p, p.buffer
    ensures p.Valid() && (p.buffer == old(p.buffer) || fresh(p.buffer))
    ensures p.offset == old(p.offset) + |ItemPiece(child, depth, fmt)|
    ensures p.buffer[..p.offset] == old(p.buffer[..p.offset]) + ItemPiece(child, depth, fmt)
    decreases child, 2
  {
    hide Text;
    ghost var text := Text(child.first, depth, fmt);
    ghost var front := p.buffer[..p.offset];
    TextNulFree(child.first, depth, fmt);
    var _ := PrintValue(child.first, depth, fmt, p);
    MoveBehind(p, front, text);
    if child.next.Item? {
      PrintSeparator(fmt, p);
      assert p.buffer[..p.offset] == front + (text + Separator(fmt));
    } else {
      assert text + "" == text;
    }
  }

  method PrintArray(items: Items, depth: nat, fmt: bool, p: Buffer) returns (at: nat)
    requires p.Valid() && PrintableItems(items)
    requires p.offset + |Text(Array(items), depth, fmt)| + depth + 21 <= SIZE_LIMIT
    modifies p, p.buffer
    ensures p.Valid() && (p.buffer == old(p.buffer) || fresh(p.buffer))
    ensures at == old(p.offset) <= p.offset <= at + |Text(Array(items), depth, fmt)|
    ensures Shows(p.buffer, old(p.buffer[..p.offset]) + Text(Array(items), depth, fmt))
    decreases items, 3
  {
    hide LeastPowerOfTwo, Text, ItemsText, ItemPiece;
    ghost var front := p.buffer[..p.offset];
    ghost var whole := Text(Array(items), depth, fmt);
    ArrayText(items, depth, fmt);
    if items.NoItem? {
      at := p.Ensure(3);
      StrCopy(p.buffer, at, "[]");
      return;
    }
    at := PrintBracket(p);
    ghost var done := "[";
    var child := items;
    while child.Item?
      invariant p.Valid() && (p.buffer == old(p.buffer) || fresh(p.buffer))
      invariant PrintableItems(child) && (child == items || child < items)
      invariant p.offset == |front| + |done| > |front| && p.buffer[..p.offset] == front + done
      invariant whole == done + (ItemsText(child, depth + 1, fmt) + "]")
      decreases child
    {
      ItemsHead(child, depth + 1, fmt);
      ghost var piece := ItemPiece(child, depth + 1, fmt);
      PrintItem(child, depth + 1, fmt, p);
      Regroup(front, done, piece);
      Regroup(done, piece, ItemsText(child.next, depth + 1, fmt) + "]");
      done := done + piece;
      child := child.next;
    }
    EmptyTexts(depth + 1, fmt, "]");
    PrintClosingBracket(p);
    Regroup(front, done, "]");
  }

  method PrintBracket(p: Buffer) returns (at: nat)
    requires p.Valid() && p.offset + 1 <= SIZE_LIMIT
    modifies p, p.buffer
    ensures p.Valid() && (p.buffer == old(p.buffer) || fresh(p.buffer))
    ensures at == old(p.offset) && p.offset == at + 1
    ensures p.buffer[..p.offset] == old(p.buffer[..p.offset]) + "["
  {
    hide LeastPowerOfTwo;
    at := p.Ensure(1);
    Put(p.buffer, at, '[');
    p.offset := p.offset + 1;
  }

  /** Closes the array without moving the offset. */
  method PrintClosingBracket(p: Buffer)
    requires p.Valid() && p.offset + 2 <= SIZE_LIMIT
    modifies p, p.buffer
    ensures p.Valid() && (p.buffer == old(p.buffer) || fresh(p.buffer)) && p.offset == old(p.offset)
    ensures Shows(p.buffer, old(p.buffer[..p.offset]) + "]")
  {
    hide LeastPowerOfTwo;
    var at := p.Ensure(2);
    Put(p.buffer, at, ']');
    p.buffer[at + 1] := NUL;
  }

  lemma EmptyTexts(depth: nat, fmt: bool, closing: string)
    ensures ItemsText(NoItem, depth, fmt) + closing == closing
    ensures MembersText(NoMember, depth, fmt) + closing == closing
  {
  }

  /** Writes `n` tabs behind the first `at` bytes. */
  method PutTabs(a: array<char>, at: nat, n: nat)
    requires at + n <= a.Length
    modifies a
    ensures a[..at + n] == old(a[..at]) + Tabs(n)
  {
    for j := 0 to n
      invariant forall k | 0 <= k < at :: a[k] == old(a[k])
      invariant forall k | at <= k < at + j :: a[k] == '\t'
    {
      a[at + j] := '\t';
    }
    TabsLength(n);
  }

  method PrintEmptyObject(depth: nat, fmt: bool, p: Buffer) returns (at: nat)
    requires p.Valid() && p.offset + depth + 4 <= SIZE_LIMIT
    modifies p, p.buffer
    ensures p.Valid() && (p.buffer == old(p.buffer) || fresh(p.buffer))
    ensures at == old(p.offset) == p.offset
    ensures Shows(p.buffer, old(p.buffer[..p.offset]) + Text(Object(NoMember), depth, fmt))
  {
    hide LeastPowerOfTwo, Tabs;
    at := p.Ensure(if fmt then depth + 4 else 3);
    var next := ComposeEmptyObject(p.buffer, at, depth, fmt);
  }

  /** `{`, a line of tabs when formatting, `}` and the terminator; shared by both printers. */
  method ComposeEmptyObject(out: array<char>, at: nat, depth: nat, fmt: bool) returns (next: nat)
    requires at + (if fmt then depth + 4 else 3) <= out.Length
    modifies out
    ensures Shows(out, old(out[..at]) + Text(Object(NoMember), depth, fmt))
  {
    hide Tabs;
    Put(out, at, '{');
    next := at + 1;
    if fmt {
      Put(out, next, '\n');
      var n := if depth >= 1 then depth - 1 else 0;
      NoTabs();
      PutTabs(out, next + 1, n);
      TabsLength(n);
      next := next + 1 + n;
    }
    Put(out, next, '}');
    out[next + 1] := NUL;
    assert out[..next + 1] == old(out[..at]) + Text(Object(NoMember), depth, fmt);
  }

  lemma NoTabs()
    ensures Tabs(-1) == Tabs(0) == ""
  {
  }

  method PrintTabs(depth: nat, fmt: bool, p: Buffer)
    requires p.Valid() && 1 <= depth && p.offset + (if fmt then depth else 0) <= SIZE_LIMIT
    modifies p, p.buffer
    ensures p.Valid() && (p.buffer == old(p.buffer) || fresh(p.buffer))
    ensures p.offset == old(p.offset) + |When(fmt, Tabs(depth))|
    ensures p.buffer[..p.offset] == old(p.buffer[..p.offset]) + When(fmt, Tabs(depth))
  {
    hide LeastPowerOfTwo, Tabs;
    TabsLength(depth);
    if fmt {
      var at := p.Ensure(depth);
      PutTabs(p.buffer, at, depth);
      p.offset := p.offset + depth;
    }
  }

  /** Indentation, name and colon of a member. */
  method PrintName(name: string, depth: nat, fmt: bool, p: Buffer)
    requires p.Valid() && NulFree(name)
    requires p.offset + |NameText(name, depth, fmt)| + 1 <= SIZE_LIMIT && 1 <= depth
    modifies p, p.buffer
    ensures p.Valid() && (p.buffer == old(p.buffer) || fresh(p.buffer))
    ensures p.offset == old(p.offset) + |NameText(name, depth, fmt)|
    ensures p.buffer[..p.offset] == old(p.buffer[..p.offset]) + NameText(name, depth, fmt)
  {
    hide LeastPowerOfTwo, Tabs, Quoted;
    ghost var front := p.buffer[..p.offset];
    ghost var tabs := When(fmt, Tabs(depth));
    TabsLength(depth);
    PrintTabs(depth, fmt, p);
    QuotedNulFree(name);
    var _ := PrintStringBuffered(name, p);
    MoveBehind(p, front + tabs, Quoted(name));
    PrintColon(fmt, p);
    assert p.buffer[..p.offset] == front + NameText(name, depth, fmt);
  }

  method PrintColon(fmt: bool, p: Buffer)
    requires p.Valid() && p.offset + 2 <= SIZE_LIMIT
    modifies p, p.buffer
    ensures p.Valid() && (p.buffer == old(p.buffer) || fresh(p.buffer))
    ensures p.offset == old(p.offset) + |":" + When(fmt, "\t")|
    ensures p.buffer[..p.offset] == old(p.buffer[..p.offset]) + (":" + When(fmt, "\t"))
  {
    hide LeastPowerOfTwo;
    var len := if fmt then 2 else 1;
    var at := p.Ensure(len);
    Put(p.buffer, at, ':');
    if fmt {
      Put(p.buffer, at + 1, '\t');
    }
    p.offset := p.offset + len;
  }

  /** Comma and end of line behind a member. */
  method PrintLineEnd(last: bool, fmt: bool, p: Buffer)
    requires p.Valid() && p.offset + 3 <= SIZE_LIMIT
    modifies p, p.buffer
    ensures p.Valid() && (p.buffer == old(p.buffer) || fresh(p.buffer))
    ensures p.offset == old(p.offset) + |LineEnd(last, fmt)|
    ensures p.buffer[..p.offset] == old(p.buffer[..p.offset]) + LineEnd(last, fmt)
  {
    hide LeastPowerOfTwo;
    var len := (if fmt then 1 else 0) + (if last then 0 else 1);
    var at := p.Ensure(len + 1);
    if !last {
      Put(p.buffer, at, ',');
      at := at + 1;
    }
    if fmt {
      Put(p.buffer, at, '\n');
      at := at + 1;
    }
    p.buffer[at] := NUL;
    p.offset := p.offset + len;
  }

  /** Opens the object: brace and, when formatting, end of line. */
  method PrintOpen(fmt: bool, p: Buffer) returns (at: nat)
    requires p.Valid() && p.offset + 3 <= SIZE_LIMIT
    modifies p, p.buffer
    ensures p.Valid() && (p.buffer == old(p.buffer) || fresh(p.buffer))
    ensures at == old(p.offset) && p.offset == at + |"{" + When(fmt, "\n")|
    ensures p.buffer[..p.offset] == old(p.buffer[..p.offset]) + ("{" + When(fmt, "\n"))
  {
    hide LeastPowerOfTwo;
    var len := if fmt then 2 else 1;
    at := p.Ensure(len + 1);
    Put(p.buffer, at, '{');
    if fmt {
      Put(p.buffer, at + 1, '\n');
    }
    p.buffer[at + len] := NUL;
    p.offset := p.offset + len;
  }

  /** Closes the object without moving the offset. */
  method PrintClose(depth: nat, fmt: bool, p: Buffer)
    requires p.Valid() && p.offset + depth + 2 <= SIZE_LIMIT
    modifies p, p.buffer
    ensures p.Valid() && (p.buffer == old(p.buffer) || fresh(p.buffer)) && p.offset == old(p.offset)
    ensures Shows(p.buffer, old(p.buffer[..p.offset]) + (When(fmt, Tabs(depth)) + "}"))
  {
    hide LeastPowerOfTwo, Tabs;
    var at := p.Ensure(if fmt then depth + 2 else 2);
    if fmt {
      PutTabs(p.buffer, at, depth);
      TabsLength(depth);
      at := at + depth;
    }
    Put(p.buffer, at, '}');
    p.buffer[at + 1] := NUL;
    assert p.buffer[..at + 1] == old(p.buffer[..p.offset]) + (When(fmt, Tabs(depth)) + "}");
  }

  /** One round of the object loop. */
  method PrintMember(child: Members, depth: nat, fmt: bool, p: Buffer)
    requires p.Valid() && child.Member? && PrintableMembers(child) && 1 <= depth
    requires p.offset + |MemberPiece(child, depth, fmt)| + depth + 21 <= SIZE_LIMIT
    modifies p, p.buffer
    ensures p.Valid() && (p.buffer == old(p.buffer) || fresh(p.buffer))
    ensures p.offset == old(p.offset) + |MemberPiece(child, depth, fmt)|
    ensures p.buffer[..p.offset] == old(p.buffer[..p.offset]) + MemberPiece(child, depth, fmt)
    decreases child, 2
  {
    hide Text, NameText, LineEnd;
    ghost var front := p.buffer[..p.offset];
    ghost var name := NameText(child.name, depth, fmt);
    ghost var text := Text(child.value, depth, fmt);
    TextNulFree(child.value, depth, fmt);
    PrintName(child.name, depth, fmt, p);
    var _ := PrintValue(child.value, depth, fmt, p);
    MoveBehind(p, front + name, text);
    PrintLineEnd(child.next.NoMember?, fmt, p);
    assert p.buffer[..p.offset] == front + (name + (text + LineEnd(child.next.NoMember?, fmt)));
  }

  method PrintObject(members: Members, depth: nat, fmt: bool, p: Buffer) returns (at: nat)
    requires p.Valid() && PrintableMembers(members)
    requires p.offset + |Text(Object(members), depth, fmt)| + depth + 21 <= SIZE_LIMIT
    modifies p, p.buffer
    ensures p.Valid() && (p.buffer == old(p.buffer) || fresh(p.buffer))
    ensures at == old(p.offset) <= p.offset <= at + |Text(Object(members), depth, fmt)|
    ensures Shows(p.buffer, old(p.buffer[..p.offset]) + Text(Object(members), depth, fmt))
    decreases members, 3
  {
    hide LeastPowerOfTwo, Text, Tabs, MembersText, MemberPiece;
    if members.NoMember? {
      at := PrintEmptyObject(depth, fmt, p);
      return;
    }
    ghost var front := p.buffer[..p.offset];
    ghost var whole := Text(Object(members), depth, fmt);
    ghost var closing := When(fmt, Tabs(depth)) + "}";
    ObjectText(members, depth, fmt);
    MembersLonger(members, depth + 1, fmt);
    at := PrintOpen(fmt, p);
    ghost var done := "{" + When(fmt, "\n");
    var child := members;
    while child.Member?
      invariant p.Valid() && (p.buffer == old(p.buffer) || fresh(p.buffer))
      invariant PrintableMembers(child) && (child == members || child < members)
      invariant p.offset == |front| + |done| > |front| && p.buffer[..p.offset] == front + done
      invariant whole == done + (MembersText(child, depth + 1, fmt) + closing)
      decreases child
    {
      MembersHead(child, depth + 1, fmt);
      ghost var piece := MemberPiece(child, depth + 1, fmt);
      PrintMember(child, depth + 1, fmt, p);
      Regroup(piece, MembersText(child.next, depth + 1, fmt), closing);
      Regroup(front, done, piece);
      Regroup(done, piece, MembersText(child.next, depth + 1, fmt) + closing);
      done := done + piece;
      child := child.next;
    }
    EmptyTexts(depth + 1, fmt, closing);
    PrintClose(depth, fmt, p);
    Regroup(front, done, closing);
  }

  /**
   `cJSON_PrintBuffered`: whatever the first guess at the size, the returned
   block holds the text of the tree.
   */
  method PrintBuffered(v: Json, prebuffer: nat, fmt: bool) returns (out: array<char>, at: nat)
    requires 1 <= prebuffer && Printable(v) && |Text(v, 0, fmt)| + 21 <= SIZE_LIMIT
    ensures fresh(out) && at == 0 && Shows(out, Text(v, 0, fmt))
  {
    var p := new Buffer(prebuffer);
    at := PrintValue(v, 0, fmt, p);
    out := p.buffer;
  }
}
