/**
 The text of a tree, as one recursive definition. Both printers are proved to
 produce it; the parser and the minifier are proved to read it back.
 */
module JsonText {
  import opened CString
  import opened JsonValue
  import opened JsonString
  import opened Numerals

  function Tabs(n: int): string {
    if n <= 0 then "" else "\t" + Tabs(n - 1)
  }

  lemma TabsLength(n: nat)
    ensures |Tabs(n)| == n && forall i | 0 <= i < n :: Tabs(n)[i] == '\t'
  {
  }

  function When(fmt: bool, s: string): string {
    if fmt then s else ""
  }

  function Text(v: Json, depth: nat, fmt: bool): string {
    match v
    case Null => "null"
    case False => "false"
    case True => "true"
    case Number(x) => IntText(x.Floor)
    case String(s) => Quoted(s)
    case Array(items) => "[" + ItemsText(items, depth + 1, fmt) + "]"
    case Object(members) =>
      if members.NoMember? then "{" + When(fmt, "\n" + Tabs(depth - 1)) + "}"
      else "{" + When(fmt, "\n") + MembersText(members, depth + 1, fmt) + When(fmt, Tabs(depth)) + "}"
  }

  /** What stands between two elements of an array. */
  function Separator(fmt: bool): string {
    if fmt then ", " else ","
  }

  function ItemsText(items: Items, depth: nat, fmt: bool): string {
    if items.NoItem? then ""
    else if items.next.NoItem? then Text(items.first, depth, fmt)
    else Text(items.first, depth, fmt) + Separator(fmt) + ItemsText(items.next, depth, fmt)
  }

  /** One member of an object, from its indentation to the end of its line. */
  function MemberText(name: string, valueText: string, last: bool, depth: nat, fmt: bool): string
  {
    When(fmt, Tabs(depth)) + Quoted(name) + ":" + When(fmt, "\t") + valueText
    + (if last then "" else ",") + When(fmt, "\n")
  }

  function MembersText(members: Members, depth: nat, fmt: bool): string {
    if members.NoMember? then ""
    else MemberText(members.name, Text(members.value, depth, fmt), members.next.NoMember?, depth, fmt)
         + MembersText(members.next, depth, fmt)
  }

  // ----- the same text, cut at the bytes a reader stops at -----

  lemma ArraySplits(items: Items, depth: nat, fmt: bool, rest: string)
    ensures Text(Array(items), depth, fmt) + rest == "[" + (ItemsText(items, depth + 1, fmt) + ("]" + rest))
  {
    hide ItemsText;
  }

  lemma ItemsSplit(items: Items, depth: nat, fmt: bool, end: string)
    requires items.Item? && items.next.Item?
    ensures ItemsText(items, depth, fmt) + end ==
      Text(items.first, depth, fmt) + ("," + (When(fmt, " ") + (ItemsText(items.next, depth, fmt) + end)))
  {
    hide Text;
  }

  lemma ObjectSplits(members: Members, depth: nat, fmt: bool, rest: string)
    requires members.Member?
    ensures Text(Object(members), depth, fmt) + rest ==
      "{" + (When(fmt, "\n") + (MembersText(members, depth + 1, fmt) + (When(fmt, Tabs(depth)) + ("}" + rest))))
  {
    hide MembersText, Tabs;
  }

  /** The text of one member in front of what follows its value. */
  function MemberFront(name: string, text: string, depth: nat, fmt: bool, tail: string): string {
    When(fmt, Tabs(depth)) + (Quoted(name) + (":" + (When(fmt, "\t") + (text + tail))))
  }

  /** What follows a printed value of an object: comma, end of line, and the rest of the object. */
  function AfterValue(last: bool, fmt: bool, more: string): string {
    (if last then "" else ",") + (When(fmt, "\n") + more)
  }

  lemma MemberSplits(name: string, text: string, last: bool, depth: nat, fmt: bool, rest: string)
    ensures MemberText(name, text, last, depth, fmt) + rest == MemberFront(name, text, depth, fmt, AfterValue(last, fmt, rest))
  {
    hide Quoted, Tabs;
  }

  lemma MembersSplit(members: Members, depth: nat, fmt: bool, end: string)
    requires members.Member?
    ensures MembersText(members, depth, fmt) + end ==
      MemberFront(members.name, Text(members.value, depth, fmt), depth, fmt,
                  AfterValue(members.next.NoMember?, fmt, MembersText(members.next, depth, fmt) + end))
  {
    hide Text, MemberText, MemberFront, AfterValue;
    var last := members.next.NoMember?;
    var text := Text(members.value, depth, fmt);
    MemberSplits(members.name, text, last, depth, fmt, MembersText(members.next, depth, fmt) + end);
    assert MembersText(members, depth, fmt) + end
        == MemberText(members.name, text, last, depth, fmt) + (MembersText(members.next, depth, fmt) + end);
  }

  lemma EmptyObjectSplits(depth: nat, fmt: bool, rest: string)
    ensures Text(Object(NoMember), depth, fmt) + rest == "{" + (When(fmt, "\n" + Tabs(depth - 1)) + ("}" + rest))
  {
    hide Tabs;
  }
}
