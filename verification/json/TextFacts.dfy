/** How the text of an array or object falls apart into the pieces the printers write. */
module TextFacts {
  import opened CString
  import opened JsonValue
  import opened JsonString
  import opened JsonText
  import opened Numerals

  function NameText(name: string, depth: nat, fmt: bool): string {
    When(fmt, Tabs(depth)) + Quoted(name) + ":" + When(fmt, "\t")
  }

  function LineEnd(last: bool, fmt: bool): string {
    (if last then "" else ",") + When(fmt, "\n")
  }

  lemma ArrayText(items: Items, depth: nat, fmt: bool)
    ensures Text(Array(items), depth, fmt) == "[" + (ItemsText(items, depth + 1, fmt) + "]")
    ensures items.NoItem? ==> Text(Array(items), depth, fmt) == "[]"
  {
  }

  /** An element and the separator behind it. */
  function ItemPiece(items: Items, depth: nat, fmt: bool): string
    requires items.Item?
  {
    Text(items.first, depth, fmt) + (if items.next.Item? then Separator(fmt) else "")
  }

  lemma ItemsHead(items: Items, depth: nat, fmt: bool)
    requires items.Item?
    ensures ItemsText(items, depth, fmt) + "]" == ItemPiece(items, depth, fmt) + (ItemsText(items.next, depth, fmt) + "]")
  {
    hide Text;
  }

  /** A member from its indentation to the end of its line. */
  function MemberPiece(members: Members, depth: nat, fmt: bool): string
    requires members.Member?
  {
    NameText(members.name, depth, fmt) + (Text(members.value, depth, fmt) + LineEnd(members.next.NoMember?, fmt))
  }

  lemma ObjectText(members: Members, depth: nat, fmt: bool)
    requires members.Member?
    ensures Text(Object(members), depth, fmt) ==
      ("{" + When(fmt, "\n")) + (MembersText(members, depth + 1, fmt) + (When(fmt, Tabs(depth)) + "}"))
  {
    hide MembersText, Tabs;
  }

  lemma MembersHead(members: Members, depth: nat, fmt: bool)
    requires members.Member?
    ensures MembersText(members, depth, fmt) == MemberPiece(members, depth, fmt) + MembersText(members.next, depth, fmt)
  {
    hide Text, Quoted, Tabs;
  }

  lemma MembersLonger(members: Members, depth: nat, fmt: bool)
    requires members.Member?
    ensures |MembersText(members, depth, fmt)| >= 3
  {
    hide Text;
    assert |Quoted(members.name)| >= 2;
  }

  // ----- no terminator inside a printed text -----

  lemma {:induction false} EscapeNulFree(s: string)
    ensures NulFree(Escape(s))
  {
    if s != "" {
      EscapeNulFree(s[1..]);
    }
  }

  lemma QuotedNulFree(s: string)
    ensures NulFree(Quoted(s))
  {
    EscapeNulFree(s);
  }

  lemma {:induction false} TabsNulFree(n: int)
    ensures NulFree(Tabs(n))
  {
    if n > 0 {
      TabsNulFree(n - 1);
    }
  }

  lemma {:induction false} TextNulFree(v: Json, depth: nat, fmt: bool)
    ensures NulFree(Text(v, depth, fmt))
    decreases v, 1
  {
    match v
    case Null | False | True | Number(_) =>
    case String(s) => QuotedNulFree(s);
    case Array(items) => ItemsNulFree(items, depth + 1, fmt);
    case Object(members) =>
      MembersNulFree(members, depth + 1, fmt);
      ObjectNulFree(members, depth, fmt);
  }

  lemma ObjectNulFree(members: Members, depth: nat, fmt: bool)
    requires NulFree(MembersText(members, depth + 1, fmt))
    ensures NulFree(Text(Object(members), depth, fmt))
  {
    hide Tabs, MembersText;
    TabsNulFree(depth - 1);
    TabsNulFree(depth);
  }

  lemma {:induction false} ItemsNulFree(items: Items, depth: nat, fmt: bool)
    ensures NulFree(ItemsText(items, depth, fmt))
    decreases items, 0
  {
    hide Text;
    if items.Item? {
      TextNulFree(items.first, depth, fmt);
      ItemsNulFree(items.next, depth, fmt);
    }
  }

  lemma {:induction false} MembersNulFree(members: Members, depth: nat, fmt: bool)
    ensures NulFree(MembersText(members, depth, fmt))
    decreases members, 0
  {
    hide Text, Quoted;
    if members.Member? {
      TextNulFree(members.value, depth, fmt);
      MembersNulFree(members.next, depth, fmt);
      QuotedNulFree(members.name);
      TabsNulFree(depth);
    }
  }
}
