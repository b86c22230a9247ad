/**
 The parser as it runs: nodes are allocated, linked and filled in place while the
 text is walked. It builds the tree that the recursive reading of the text
 describes, and when it fails everything it allocated can be freed.
 */
module TreeParser {
  import opened CString
  import J = JsonValue
  import P = JsonParse
  import opened JsonString
  import JsonNumber
  import opened Scanner
  import opened Memory
  import opened Chains
  import opened Building
  import opened Filling
  import opened Duplicate
  import opened References

  // ----- the tree of a value -----

  function TreeOf(j: J.Json, name: Label, rest: Trees): (t: Trees)
    ensures t.Tree?
  {
    match j
    case Null => Tree(Kind.Null, 0.0, Absent, name, false, NoTree, rest)
    case False => Tree(Kind.False, 0.0, Absent, name, false, NoTree, rest)
    case True => Tree(Kind.True, 0.0, Absent, name, false, NoTree, rest)
    case Number(x) => Tree(Kind.Number, x, Absent, name, false, NoTree, rest)
    case String(s) => Tree(Kind.String, 0.0, Present(s), name, false, NoTree, rest)
    case Array(items) => Tree(Kind.Array, 0.0, Absent, name, false, ItemTrees(items), rest)
    case Object(members) => Tree(Kind.Object, 0.0, Absent, name, false, MemberTrees(members), rest)
  }

  function ItemTrees(items: J.Items): Trees {
    if items.NoItem? then NoTree else TreeOf(items.first, Absent, ItemTrees(items.next))
  }

  function MemberTrees(members: J.Members): Trees {
    if members.NoMember? then NoTree else TreeOf(members.value, Present(members.name), MemberTrees(members.next))
  }

  /** The value that a reader of the nodes finds: by the kind, the number, the text or the
      children, each with its name. */
  function JsonOf(t: Trees): J.Json
    requires t.Tree?
    decreases t, 0
  {
    match t.kind
    case False => J.False
    case True => J.True
    case Null => J.Null
    case Number => J.Number(t.value)
    case String => J.String(if t.text.Present? then t.text.text else "")
    case Array => J.Array(ItemsOf(t.kids))
    case Object => J.Object(MembersOf(t.kids))
  }

  function ItemsOf(t: Trees): J.Items
    decreases t, 1
  {
    if t.NoTree? then J.NoItem else J.Item(JsonOf(t), ItemsOf(t.rest))
  }

  function MembersOf(t: Trees): J.Members
    decreases t, 1
  {
    if t.NoTree? then J.NoMember
    else J.Member(if t.name.Present? then t.name.text else "", JsonOf(t), MembersOf(t.rest))
  }

  /** A reader of the tree of a value finds the value, and beside it the name. */
  lemma {:induction false} TreeReads(j: J.Json, name: Label, rest: Trees)
    ensures JsonOf(TreeOf(j, name, rest)) == j
    ensures var t := TreeOf(j, name, rest);
      t.name == name && t.rest == rest && !t.constName && (t.kind == Kind.String <==> t.text.Present?)
    decreases j, 1
  {
    match j
    case Array(items) => ItemsRead(items);
    case Object(members) => MembersRead(members);
    case _ =>
  }

  lemma {:induction false} ItemsRead(items: J.Items)
    ensures ItemsOf(ItemTrees(items)) == items
    decreases items, 0
  {
    if items.Item? {
      ItemsRead(items.next);
      TreeReads(items.first, Absent, ItemTrees(items.next));
    }
  }

  lemma {:induction false} MembersRead(members: J.Members)
    ensures MembersOf(MemberTrees(members)) == members
    decreases members, 0
  {
    if members.Member? {
      MembersRead(members.next);
      TreeReads(members.value, Present(members.name), MemberTrees(members.next));
    }
  }

  /** Node `n` with the children `kids` is the value `j`. */
  predicate Shows(m: Mem, n: Ptr, kids: Forest, j: J.Json)
    requires n in m.items && Nodes(kids) <= m.items.Keys
  {
    var t, it := TreeOf(j, Absent, NoTree), m.items[n];
    it.kind == t.kind && it.value == t.value && TextAt(m, it.valueString) == t.text && Value(m, kids) == t.kids
  }

  // ----- leaves -----

  lemma FilledLeaf(m0: Mem, m: Mem, n: Ptr)
    requires Unfilled(m0, n) && n in m.items && m.items.Keys == m0.items.Keys
    requires m.items[n] == m0.items[n].(kind := m.items[n].kind, value := m.items[n].value, valueString := m.items[n].valueString)
    requires forall p :: p in m0.items && p != n ==> m.items[p] == m0.items[p]
    requires Single(m.items[n].valueString) !! m0.strings.Keys && m.strings.Keys == m0.strings.Keys + Single(m.items[n].valueString)
    requires forall s :: s in m0.strings ==> m.strings[s] == m0.strings[s]
    ensures Filled(m0, m, n, Nil) && Value(m, Nil) == NoTree
  {
  }

  method SetKind(h: Heap, n: Ptr, kind: Kind)
    requires Unfilled(h.mem, n)
    modifies h
    ensures h.mem == Mem(old(h.mem.items)[n := old(h.mem.items[n]).(kind := kind)], old(h.mem.strings))
    ensures Unfilled(h.mem, n) && Filled(old(h.mem), h.mem, n, Nil) && Value(h.mem, Nil) == NoTree
  {
    h.mem := Mem(h.mem.items[n := h.mem.items[n].(kind := kind)], h.mem.strings);
    FilledLeaf(old(h.mem), h.mem, n);
  }

  /** parse_number */
  method ParseNumber(h: Heap, n: Ptr, num: string) returns (rest: string)
    requires Unfilled(h.mem, n)
    modifies h
    ensures Filled(old(h.mem), h.mem, n, Nil)
    ensures JsonNumber.Parsed(h.mem.items[n].value, rest) == JsonNumber.ParseNumber(num)
    ensures h.mem.items[n].kind == Kind.Number && h.mem.items[n].valueString == NULL && Value(h.mem, Nil) == NoTree
  {
    hide JsonNumber.ParseNumber;
    var value;
    value, rest := ParseNumberLoop(num);
    h.mem := Mem(h.mem.items[n := h.mem.items[n].(value := value, kind := Kind.Number)], h.mem.strings);
    FilledLeaf(old(h.mem), h.mem, n);
  }

  /** parse_string: the text goes into new memory of the measured size. */
  method ParseString(h: Heap, n: Ptr, str: string) returns (ok: bool, rest: string)
    requires Unfilled(h.mem, n) && P.ParseString(str) != P.Undefined
    modifies h
    ensures Filled(old(h.mem), h.mem, n, Nil) && Value(h.mem, Nil) == NoTree
    ensures var r := P.ParseString(str); ok == r.Ok? && rest == if ok then r.rest else r.at
    ensures !ok ==> h.mem == old(h.mem)
    ensures ok ==> h.mem.items[n].kind == Kind.String && h.mem.items[n].value == old(h.mem.items[n]).value
    ensures ok ==> h.mem.items[n].valueString != NULL && TextAt(h.mem, h.mem.items[n].valueString) == Present(P.ParseString(str).value)
  {
    hide LiteralOk, Unescape;
    if At(str, 0) != '"' {
      FilledLeaf(h.mem, h.mem, n);
      return false, str;
    }
    var len := CountLoop(str[1..]);
    var out := new char[len + 1];
    var k, p := DecodeLoop(str[1..], out);
    if At(p, 0) == '"' {
      p := p[1..];
    }
    var text := h.NewString(out[..k]);
    h.mem := Mem(h.mem.items[n := h.mem.items[n].(valueString := text, kind := Kind.String)], h.mem.strings);
    FilledLeaf(old(h.mem), h.mem, n);
    return true, p;
  }

  // ----- reading a list one element at a time -----

  function CatItems(a: J.Items, b: J.Items): J.Items {
    if a.NoItem? then b else J.Item(a.first, CatItems(a.next, b))
  }

  /** What `parse_array` makes of the text behind an element. */
  function AfterItem(t: string): P.Result<J.Items> {
    if At(t, 0) == ',' then P.ParseItems(t[1..])
    else if At(t, 0) == ']' then P.Ok(J.NoItem, t[1..])
    else P.Fail(t)
  }

  function PrependItems(a: J.Items, r: P.Result<J.Items>): P.Result<J.Items> {
    if r.Ok? then P.Ok(CatItems(a, r.value), r.rest) else r
  }

  lemma ItemsStep(s: string)
    ensures P.ParseItems(s) == match P.ParseValue(Skip(s))
      case Ok(v, rest) => PrependItems(J.Item(v, J.NoItem), AfterItem(Skip(rest)))
      case Fail(at) => P.Fail(at)
      case Undefined => P.Undefined
  {
    hide P.ParseValue, Skip;
    assert forall v: J.Json, b: J.Items :: CatItems(J.Item(v, J.NoItem), b) == J.Item(v, b) by {
      forall v: J.Json, b: J.Items ensures CatItems(J.Item(v, J.NoItem), b) == J.Item(v, b) {
        assert CatItems(J.NoItem, b) == b;
      }
    }
  }

  lemma {:induction false} CatAssociates(a: J.Items, b: J.Items, c: J.Items)
    ensures CatItems(CatItems(a, b), c) == CatItems(a, CatItems(b, c))
  {
    if a.Item? {
      CatAssociates(a.next, b, c);
    }
  }

  lemma {:induction false} CatTrees(a: J.Items, v: J.Json)
    ensures ItemTrees(CatItems(a, J.Item(v, J.NoItem))) == Join(ItemTrees(a), TreeOf(v, Absent, NoTree))
  {
    if a.Item? {
      CatTrees(a.next, v);
    }
  }

  lemma ItemsPrefix(pre: J.Items, v: J.Json, r: P.Result<J.Items>)
    ensures PrependItems(pre, PrependItems(J.Item(v, J.NoItem), r)) == PrependItems(CatItems(pre, J.Item(v, J.NoItem)), r)
  {
    if r.Ok? {
      CatAssociates(pre, J.Item(v, J.NoItem), r.value);
    }
  }

  // ----- parse_array -----

  lemma GrowingFilled(m0: Mem, mA: Mem, m: Mem, item: Ptr, g: Forest)
    requires Unfilled(m0, item) && Growing(mA, m, item, g)
    requires mA == Mem(m0.items[item := mA.items[item]], m0.strings) && mA.items[item] == m0.items[item].(kind := mA.items[item].kind)
    ensures Filled(m0, m, item, g)
  {
    hide Chain, TextsLive, NoReference, ConstNames, Strings;
  }

  lemma ShownTree(m: Mem, mB: Mem, m': Mem, n: Ptr, kids: Forest, j: J.Json)
    requires n in m'.items && Nodes(kids) <= m'.items.Keys && Shows(m', n, kids, j)
    requires n in mB.items
    ensures var it := m'.items[n];
      Tree(it.kind, it.value, TextAt(m', it.valueString), TextAt(mB, mB.items[n].name), false, Value(m', kids), NoTree)
        == TreeOf(j, TextAt(mB, mB.items[n].name), NoTree)
  {
  }

  /** One element: a new item is hung and filled in. */
  method ArrayElement(h: Heap, item: Ptr, child: Ptr, value: string, ghost mA: Mem, ghost g: Forest)
    returns (ok: bool, rest: string, n: Ptr, ghost g': Forest)
    requires Growing(mA, h.mem, item, g) && child == Last(g, NULL) && P.ParseValue(Skip(value)) != P.Undefined
    modifies h
    ensures Growing(mA, h.mem, item, g') && n == Last(g', NULL) && Nodes(g') <= h.mem.items.Keys
    ensures var r := P.ParseValue(Skip(value));
      && ok == r.Ok? && rest == (if ok then Skip(r.rest) else r.at)
      && (ok ==> Nodes(g) <= old(h.mem.items.Keys) && Value(h.mem, g') == Join(Value(old(h.mem), g), TreeOf(r.value, Absent, NoTree)))
    decreases |value|, 4
  {
    hide P.ParseValue, Chain, TextsLive, NoReference, ConstNames, NewStrings, Join, TreeOf, Append;
    ghost var m := h.mem;
    HookLive(mA, m, item, g);
    n := HangChild(h, item, child);
    ghost var mB := h.mem;
    HungNew(m, item, child, n);
    var p := SkipLoop(value);
    ghost var kids;
    ok, rest, kids := ParseValue(h, n, p);
    FilledBuilt(m, mB, h.mem, n, kids, {Hook(item, child)});
    ghost var c := Cons(n, kids, Nil);
    Grown(mA, m, h.mem, item, g, c, n);
    LastAppend(g, c, NULL);
    g' := Append(g, c);
    if ok {
      ShownTree(m, mB, h.mem, n, kids, P.ParseValue(Skip(value)).value);
      rest := SkipLoop(rest);
    }
  }

  lemma ArrayStarts(value: string)
    requires At(value, 0) == '['
    ensures var t := Skip(value[1..]);
      P.ParseValue(value) ==
        if At(t, 0) == ']' then P.Ok(J.Array(J.NoItem), t[1..])
        else match P.ParseItems(t)
          case Ok(items, rest) => P.Ok(J.Array(items), rest)
          case Fail(at) => P.Fail(at)
          case Undefined => P.Undefined
  {
    hide P.ParseItems, P.ParseMembers, Skip;
  }

  /** One round of the loop: an element is read behind those already read. */
  lemma ArrayRound(t: string, pre: J.Items, s: string)
    requires P.ParseItems(t) == PrependItems(pre, P.ParseItems(s))
    ensures var r := P.ParseValue(Skip(s));
      && (r.Ok? ==> P.ParseItems(t) == PrependItems(CatItems(pre, J.Item(r.value, J.NoItem)), AfterItem(Skip(r.rest))))
      && (r.Fail? ==> P.ParseItems(t) == P.Fail(r.at))
      && (r.Undefined? ==> P.ParseItems(t) == P.Undefined)
  {
    hide P.ParseValue, P.ParseItems, AfterItem;
    ItemsStep(s);
    var r := P.ParseValue(Skip(s));
    if r.Ok? {
      ItemsPrefix(pre, r.value, AfterItem(Skip(r.rest)));
    }
  }

  /** The elements from `t` on, up to the closing bracket. */
  method ArrayElements(h: Heap, item: Ptr, t: string, ghost mA: Mem) returns (ok: bool, rest: string, ghost kids: Forest)
    requires Growing(mA, h.mem, item, Nil) && mA == h.mem && P.ParseItems(t) != P.Undefined
    modifies h
    ensures Growing(mA, h.mem, item, kids) && Nodes(kids) <= h.mem.items.Keys
    ensures var r := P.ParseItems(t);
      && ok == r.Ok? && rest == (if ok then r.rest else r.at)
      && (ok ==> Value(h.mem, kids) == ItemTrees(r.value))
    decreases |t|, 5
  {
    hide P.ParseValue, P.ParseItems, Chain, TextsLive, NoReference, ConstNames, NewStrings, Join, Append, TreeOf, Skip, Growing;
    ghost var pre, r := J.NoItem, P.ParseValue(Skip(t));
    var child;
    ArrayRound(t, pre, t);
    ok, rest, child, kids := ArrayElement(h, item, NULL, t, mA, Nil);
    if !ok {
      return;
    }
    pre := ItemAdded(mA, h.mem, Nil, kids, pre, r.value);
    while At(rest, 0) == ','
      invariant Growing(mA, h.mem, item, kids) && child == Last(kids, NULL)
      invariant P.ParseItems(t) == PrependItems(pre, AfterItem(rest)) && |rest| < |t|
      invariant Nodes(kids) <= h.mem.items.Keys && Value(h.mem, kids) == ItemTrees(pre)
      decreases |rest|
    {
      ghost var m, g := h.mem, kids;
      r := P.ParseValue(Skip(rest[1..]));
      ArrayRound(t, pre, rest[1..]);
      ok, rest, child, kids := ArrayElement(h, item, child, rest[1..], mA, kids);
      if !ok {
        return;
      }
      pre := ItemAdded(m, h.mem, g, kids, pre, r.value);
    }
    ok := At(rest, 0) == ']';
    if ok {
      rest := rest[1..];
      CatNone(pre);
    }
  }

  lemma {:induction false} CatNone(a: J.Items)
    ensures CatItems(a, J.NoItem) == a
  {
    if a.Item? {
      CatNone(a.next);
    }
  }

  lemma ItemAdded(m: Mem, m': Mem, g: Forest, g': Forest, pre: J.Items, v: J.Json) returns (pre': J.Items)
    requires Nodes(g) <= m.items.Keys && Nodes(g') <= m'.items.Keys && Value(m, g) == ItemTrees(pre)
    requires Value(m', g') == Join(Value(m, g), TreeOf(v, Absent, NoTree))
    ensures pre' == CatItems(pre, J.Item(v, J.NoItem)) && Value(m', g') == ItemTrees(pre')
  {
    pre' := CatItems(pre, J.Item(v, J.NoItem));
    CatTrees(pre, v);
  }

  /** parse_array */
  method ParseArray(h: Heap, item: Ptr, value: string) returns (ok: bool, rest: string, ghost kids: Forest)
    requires Unfilled(h.mem, item) && At(value, 0) == '[' && P.ParseValue(value) != P.Undefined
    modifies h
    ensures Filled(old(h.mem), h.mem, item, kids)
    ensures var r := P.ParseValue(value);
      && ok == r.Ok? && rest == (if ok then r.rest else r.at)
      && (ok ==> Shows(h.mem, item, kids, r.value))
    decreases |value|, 2
  {
    hide P.ParseValue, P.ParseItems, Chain, TextsLive, NoReference, ConstNames, NewStrings;
    ArrayStarts(value);
    SetKind(h, item, Kind.Array);
    ghost var mA := h.mem;
    GrowingStarts(mA, item);
    var p := SkipLoop(value[1..]);
    if At(p, 0) == ']' {
      return true, p[1..], Nil;
    }
    ok, rest, kids := ArrayElements(h, item, p, mA);
    GrowingFilled(old(h.mem), mA, h.mem, item, kids);
  }

  // ----- parse_object -----

  function CatMembers(a: J.Members, b: J.Members): J.Members {
    if a.NoMember? then b else J.Member(a.name, a.value, CatMembers(a.next, b))
  }

  /** What `parse_object` makes of the text behind a member. */
  function AfterMember(t: string): P.Result<J.Members> {
    if At(t, 0) == ',' then P.ParseMembers(t[1..])
    else if At(t, 0) == '}' then P.Ok(J.NoMember, t[1..])
    else P.Fail(t)
  }

  function PrependMembers(a: J.Members, r: P.Result<J.Members>): P.Result<J.Members> {
    if r.Ok? then P.Ok(CatMembers(a, r.value), r.rest) else r
  }

  /** One member: its name, the colon and its value. */
  function OneMember(s: string): (r: P.Result<(string, J.Json)>)
    ensures r.Ok? ==> |r.rest| < |s|
  {
    match P.ParseName(s)
    case Fail(at) => P.Fail(at)
    case Undefined => P.Undefined
    case Ok(name, body) =>
      match P.ParseValue(Skip(body))
      case Fail(at) => P.Fail(at)
      case Undefined => P.Undefined
      case Ok(v, rest) => P.Ok((name, v), rest)
  }

  function ThisMember(v: (string, J.Json)): J.Members {
    J.Member(v.0, v.1, J.NoMember)
  }

  lemma MembersStep(s: string)
    ensures P.ParseMembers(s) == match OneMember(s)
      case Ok(v, rest) => PrependMembers(ThisMember(v), AfterMember(Skip(rest)))
      case Fail(at) => P.Fail(at)
      case Undefined => P.Undefined
  {
    hide P.ParseValue, P.ParseName, Skip;
    assert forall n: string, v: J.Json, b: J.Members :: CatMembers(J.Member(n, v, J.NoMember), b) == J.Member(n, v, b) by {
      forall n: string, v: J.Json, b: J.Members ensures CatMembers(J.Member(n, v, J.NoMember), b) == J.Member(n, v, b) {
        assert CatMembers(J.NoMember, b) == b;
      }
    }
  }

  lemma {:induction false} CatMembersAssociates(a: J.Members, b: J.Members, c: J.Members)
    ensures CatMembers(CatMembers(a, b), c) == CatMembers(a, CatMembers(b, c))
  {
    if a.Member? {
      CatMembersAssociates(a.next, b, c);
    }
  }

  lemma {:induction false} CatMemberTrees(a: J.Members, v: (string, J.Json))
    ensures MemberTrees(CatMembers(a, ThisMember(v))) == Join(MemberTrees(a), TreeOf(v.1, Present(v.0), NoTree))
  {
    if a.Member? {
      CatMemberTrees(a.next, v);
    }
  }

  lemma {:induction false} CatNoMember(a: J.Members)
    ensures CatMembers(a, J.NoMember) == a
  {
    if a.Member? {
      CatNoMember(a.next);
    }
  }

  lemma ObjectStarts(value: string)
    requires At(value, 0) == '{'
    ensures var t := Skip(value[1..]);
      P.ParseValue(value) ==
        if At(t, 0) == '}' then P.Ok(J.Object(J.NoMember), t[1..])
        else match P.ParseMembers(t)
          case Ok(members, rest) => P.Ok(J.Object(members), rest)
          case Fail(at) => P.Fail(at)
          case Undefined => P.Undefined
  {
    hide P.ParseItems, P.ParseMembers, Skip;
  }

  lemma ObjectRound(t: string, pre: J.Members, s: string)
    requires P.ParseMembers(t) == PrependMembers(pre, P.ParseMembers(s))
    ensures var r := OneMember(s);
      && (r.Ok? ==> P.ParseMembers(t) == PrependMembers(CatMembers(pre, ThisMember(r.value)), AfterMember(Skip(r.rest))))
      && (r.Fail? ==> P.ParseMembers(t) == P.Fail(r.at))
      && (r.Undefined? ==> P.ParseMembers(t) == P.Undefined)
  {
    hide P.ParseMembers, AfterMember, OneMember;
    MembersStep(s);
    var r := OneMember(s);
    if r.Ok? {
      var a := AfterMember(Skip(r.rest));
      if a.Ok? {
        CatMembersAssociates(pre, ThisMember(r.value), a.value);
      }
    }
  }

  /** `child->string = child->valuestring; child->valuestring = 0` */
  method TakeName(h: Heap, n: Ptr, ghost m: Mem, ghost mB: Mem, ghost x: Ptr)
    requires NewNode(m, mB, n, {x}) && Unfilled(mB, n) && mB.items[n].name == NULL && mB.strings.Keys == m.strings.Keys
    requires Filled(mB, h.mem, n, Nil) && x in m.items && x in mB.items && x != n
    requires h.mem.items[n].valueString != NULL && h.mem.items[n].value == 0.0
    modifies h
    ensures NewNode(m, h.mem, n, {x}) && Unfilled(h.mem, n) && x in h.mem.items && h.mem.items[x] == mB.items[x]
    ensures h.mem.items[n].prev == mB.items[n].prev
    ensures TextAt(h.mem, h.mem.items[n].name) == old(TextAt(h.mem, h.mem.items[n].valueString))
  {
    h.mem := Mem(h.mem.items[n := h.mem.items[n].(name := h.mem.items[n].valueString, valueString := NULL)], h.mem.strings);
  }

  /** The name of a member of object `item`, read into the new item `n`. */
  method MemberName(h: Heap, n: Ptr, value: string, ghost m: Mem, ghost x: Ptr) returns (ok: bool, rest: string, ghost mN: Mem)
    requires NewNode(m, h.mem, n, {x}) && Unfilled(h.mem, n) && h.mem.items[n].name == NULL
    requires h.mem.strings.Keys == m.strings.Keys && x in m.items && x in h.mem.items && x != n
    requires P.ParseName(value) != P.Undefined
    modifies h
    ensures NewNode(m, mN, n, {x}) && Unfilled(mN, n) && x in mN.items && mN.items[x] == old(h.mem.items)[x]
    ensures mN.items[n].prev == old(h.mem.items[n]).prev
    ensures Filled(mN, h.mem, n, Nil) && Value(h.mem, Nil) == NoTree
    ensures var r := P.ParseName(value);
      && ok == r.Ok? && rest == (if ok then r.rest else r.at)
      && (ok ==> h.mem == mN && TextAt(mN, mN.items[n].name) == Present(r.value))
  {
    hide P.ParseString;
    ghost var mB := h.mem;
    var p := SkipLoop(value);
    ok, rest := ParseString(h, n, p);
    mN := h.mem;
    if !ok {
      return;
    }
    TakeName(h, n, m, mB, x);
    mN := h.mem;
    FilledLeaf(mN, mN, n);
    rest := SkipLoop(rest);
    if At(rest, 0) != ':' {
      return false, rest, mN;
    }
    rest := rest[1..];
  }

  /** One member: a new item is hung, named and filled in. */
  method ObjectMember(h: Heap, item: Ptr, child: Ptr, value: string, ghost mA: Mem, ghost g: Forest)
    returns (ok: bool, rest: string, n: Ptr, ghost g': Forest)
    requires Growing(mA, h.mem, item, g) && child == Last(g, NULL) && OneMember(value) != P.Undefined
    modifies h
    ensures Growing(mA, h.mem, item, g') && n == Last(g', NULL) && Nodes(g') <= h.mem.items.Keys
    ensures var r := OneMember(value);
      && ok == r.Ok? && rest == (if ok then Skip(r.rest) else r.at)
      && (ok ==> Nodes(g) <= old(h.mem.items.Keys) && Value(h.mem, g') == Join(Value(old(h.mem), g), TreeOf(r.value.1, Present(r.value.0), NoTree)))
    decreases |value|, 4
  {
    hide P.ParseValue, P.ParseName, Chain, TextsLive, NoReference, ConstNames, NewStrings, Join, TreeOf, Append;
    ghost var m := h.mem;
    HookLive(mA, m, item, g);
    n := HangChild(h, item, child);
    HungNew(m, item, child, n);
    ghost var x := Hook(item, child);
    ghost var mN, kids;
    ok, rest, mN := MemberName(h, n, value, m, x);
    kids := Nil;
    if ok {
      rest := SkipLoop(rest);
      ok, rest, kids := ParseValue(h, n, rest);
    }
    FilledBuilt(m, mN, h.mem, n, kids, {x});
    ghost var c := Cons(n, kids, Nil);
    Grown(mA, m, h.mem, item, g, c, n);
    LastAppend(g, c, NULL);
    g' := Append(g, c);
    if ok {
      ShownTree(m, mN, h.mem, n, kids, OneMember(value).value.1);
      rest := SkipLoop(rest);
    }
  }

  lemma MemberAdded(m: Mem, m': Mem, g: Forest, g': Forest, pre: J.Members, v: (string, J.Json)) returns (pre': J.Members)
    requires Nodes(g) <= m.items.Keys && Nodes(g') <= m'.items.Keys && Value(m, g) == MemberTrees(pre)
    requires Value(m', g') == Join(Value(m, g), TreeOf(v.1, Present(v.0), NoTree))
    ensures pre' == CatMembers(pre, ThisMember(v)) && Value(m', g') == MemberTrees(pre')
  {
    pre' := CatMembers(pre, ThisMember(v));
    CatMemberTrees(pre, v);
  }

  /** The members from `t` on, up to the closing brace. */
  method ObjectMembers(h: Heap, item: Ptr, t: string, ghost mA: Mem) returns (ok: bool, rest: string, ghost kids: Forest)
    requires Growing(mA, h.mem, item, Nil) && mA == h.mem && P.ParseMembers(t) != P.Undefined
    modifies h
    ensures Growing(mA, h.mem, item, kids) && Nodes(kids) <= h.mem.items.Keys
    ensures var r := P.ParseMembers(t);
      && ok == r.Ok? && rest == (if ok then r.rest else r.at)
      && (ok ==> Value(h.mem, kids) == MemberTrees(r.value))
    decreases |t|, 5
  {
    hide OneMember, P.ParseMembers, Chain, TextsLive, NoReference, ConstNames, NewStrings, Join, Append, TreeOf, Skip, Growing;
    ghost var pre, r := J.NoMember, OneMember(t);
    var child;
    ObjectRound(t, pre, t);
    ok, rest, child, kids := ObjectMember(h, item, NULL, t, mA, Nil);
    if !ok {
      return;
    }
    pre := MemberAdded(mA, h.mem, Nil, kids, pre, r.value);
    while At(rest, 0) == ','
      invariant Growing(mA, h.mem, item, kids) && child == Last(kids, NULL)
      invariant P.ParseMembers(t) == PrependMembers(pre, AfterMember(rest)) && |rest| < |t|
      invariant Nodes(kids) <= h.mem.items.Keys && Value(h.mem, kids) == MemberTrees(pre)
      decreases |rest|
    {
      ghost var m, g := h.mem, kids;
      r := OneMember(rest[1..]);
      ObjectRound(t, pre, rest[1..]);
      ok, rest, child, kids := ObjectMember(h, item, child, rest[1..], mA, kids);
      if !ok {
        return;
      }
      pre := MemberAdded(m, h.mem, g, kids, pre, r.value);
    }
    ok := At(rest, 0) == '}';
    if ok {
      rest := rest[1..];
      CatNoMember(pre);
    }
  }

  /** parse_object */
  method ParseObject(h: Heap, item: Ptr, value: string) returns (ok: bool, rest: string, ghost kids: Forest)
    requires Unfilled(h.mem, item) && At(value, 0) == '{' && P.ParseValue(value) != P.Undefined
    modifies h
    ensures Filled(old(h.mem), h.mem, item, kids)
    ensures var r := P.ParseValue(value);
      && ok == r.Ok? && rest == (if ok then r.rest else r.at)
      && (ok ==> Shows(h.mem, item, kids, r.value))
    decreases |value|, 2
  {
    hide P.ParseValue, P.ParseMembers, Chain, TextsLive, NoReference, ConstNames, NewStrings;
    ObjectStarts(value);
    SetKind(h, item, Kind.Object);
    ghost var mA := h.mem;
    GrowingStarts(mA, item);
    var p := SkipLoop(value[1..]);
    if At(p, 0) == '}' {
      return true, p[1..], Nil;
    }
    ok, rest, kids := ObjectMembers(h, item, p, mA);
    GrowingFilled(old(h.mem), mA, h.mem, item, kids);
  }

  // ----- parse_value and cJSON_ParseWithOpts -----

  lemma LeafValue(value: string)
    ensures StartsWith(value, "null") ==> P.ParseValue(value) == P.Ok(J.Null, value[4..])
    ensures StartsWith(value, "false") ==> P.ParseValue(value) == P.Ok(J.False, value[5..])
    ensures StartsWith(value, "true") ==> P.ParseValue(value) == P.Ok(J.True, value[4..])
    ensures At(value, 0) == '"' ==> P.ParseValue(value) == P.ParseText(value)
    ensures At(value, 0) == '-' || Digit(At(value, 0)) ==> P.ParseValue(value) == P.ParseNumeral(value)
    ensures
      (!StartsWith(value, "null") && !StartsWith(value, "false") && !StartsWith(value, "true") && At(value, 0) != '"'
       && At(value, 0) != '-' && !Digit(At(value, 0)) && At(value, 0) != '[' && At(value, 0) != '{')
      ==> P.ParseValue(value) == P.Fail(value)
  {
    hide P.ParseItems, P.ParseMembers, P.ParseText, P.ParseNumeral;
    WordFront(value, "null");
    WordFront(value, "false");
    WordFront(value, "true");
  }

  lemma WordFront(s: string, word: string)
    requires word != ""
    ensures StartsWith(s, word) ==> At(s, 0) == word[0]
  {
    if StartsWith(s, word) {
      assert s[..|word|][0] == s[0];
    }
  }

  /** parse_value */
  method ParseValue(h: Heap, item: Ptr, value: string) returns (ok: bool, rest: string, ghost kids: Forest)
    requires Unfilled(h.mem, item) && P.ParseValue(value) != P.Undefined
    modifies h
    ensures Filled(old(h.mem), h.mem, item, kids)
    ensures var r := P.ParseValue(value);
      && ok == r.Ok? && rest == (if ok then r.rest else r.at)
      && (ok ==> Shows(h.mem, item, kids, r.value))
    decreases |value|, 3
  {
    hide P.ParseValue, P.ParseString, JsonNumber.ParseNumber, Chain, TextsLive, NoReference, ConstNames, Strings;
    LeafValue(value);
    kids := Nil;
    if StartsWith(value, "null") {
      SetKind(h, item, Kind.Null);
      ok, rest := true, value[4..];
    } else if StartsWith(value, "false") {
      SetKind(h, item, Kind.False);
      ok, rest := true, value[5..];
    } else if StartsWith(value, "true") {
      SetKind(h, item, Kind.True);
      ok, rest := true, value[4..];
    } else if At(value, 0) == '"' {
      ok, rest := ParseString(h, item, value);
    } else if At(value, 0) == '-' || Digit(At(value, 0)) {
      rest := ParseNumber(h, item, value);
      ok := true;
    } else if At(value, 0) == '[' {
      ok, rest, kids := ParseArray(h, item, value);
    } else if At(value, 0) == '{' {
      ok, rest, kids := ParseObject(h, item, value);
    } else {
      FilledLeaf(h.mem, h.mem, item);
      ok, rest := false, value;
    }
  }

  /** A tree without constant names can be freed without a trace. */
  lemma FreedWhole(m0: Mem, m: Mem, f: Forest, p: Ptr)
    requires Built(m0, m, f, p, NULL, {}) && ConstNames(m, f) == {}
    ensures Deleted(m, f) == m0
  {
    hide Chain, NoReference, TextsLive, Value, Strings, NewStrings;
    ConstNamesSeen(m, f);
    DeletingRestores(m0, m, f, p);
  }

  /**
   cJSON_ParseWithOpts. When the text is accepted, `c` is a new tree of its own with
   the value that was read, and deleting it would give memory back as it was. When
   it is not, memory is already back as it was, and `rest` is the error pointer.
   */
  method ParseWithOpts(h: Heap, value: string, requireEnd: bool) returns (c: Ptr, rest: string, ghost f: Forest)
    requires P.Parse(value, requireEnd) != P.Undefined
    modifies h
    ensures var r := P.Parse(value, requireEnd); (c != NULL <==> r.Ok?) && rest == if r.Ok? then r.rest else r.at
    ensures c != NULL ==> Built(old(h.mem), h.mem, f, c, NULL, {}) && Deleted(h.mem, f) == old(h.mem)
    ensures c != NULL ==> Value(h.mem, f) == TreeOf(P.Parse(value, requireEnd).value, Absent, NoTree)
    ensures c != NULL ==> Value(h.mem, f).Tree? && JsonOf(Value(h.mem, f)) == P.Parse(value, requireEnd).value
    ensures c == NULL ==> h.mem == old(h.mem)
  {
    hide P.ParseValue, Chain, NoReference, TextsLive, Strings, NewStrings, ConstNames, TreeOf, Value;
    ghost var m0 := h.mem;
    c := h.NewItem();
    ghost var m1 := h.mem;
    NewItemBlank(m0, m1, c);
    var p := SkipLoop(value);
    ghost var kids;
    var ok;
    ok, rest, kids := ParseValue(h, c, p);
    f := Cons(c, kids, Nil);
    FilledBuilt(m0, m1, h.mem, c, kids, {});
    FreedWhole(m0, h.mem, f, c);
    if !ok {
      h.Delete(c, NULL, f);
      return NULL, rest, f;
    }
    ShownTree(m0, m1, h.mem, c, kids, P.ParseValue(p).value);
    TreeReads(P.ParseValue(p).value, Absent, NoTree);
    if requireEnd {
      rest := SkipLoop(rest);
      if At(rest, 0) != NUL {
        h.Delete(c, NULL, f);
        return NULL, rest, f;
      }
    }
  }

  lemma NewItemBlank(m0: Mem, m1: Mem, c: Ptr)
    requires c != NULL && c !in m0.items && m1 == Mem(m0.items[c := ZEROED], m0.strings)
    ensures NewNode(m0, m1, c, {}) && Unfilled(m1, c) && TextAt(m1, m1.items[c].name) == Absent
  {
  }
}
