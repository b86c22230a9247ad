/**
 Filling in a node that the parser was given: its kind, its value, its string and
 its children; and growing the children of an array or object one by one.
 */
module Filling {
  import opened Memory
  import opened Chains
  import opened Building
  import opened Duplicate

  function Single(v: Ptr): set<Ptr> {
    if v == NULL then {} else {v}
  }

  /** A node as the parser expects it: no children, no string, no flags. */
  predicate Unfilled(m: Mem, n: Ptr) {
    n in m.items && m.items[n] == ZEROED.(next := m.items[n].next, prev := m.items[n].prev, kind := m.items[n].kind, name := m.items[n].name)
  }

  /** `n` was filled in: its links, its name and its flags are as they were, and all
      that is new in memory is its string and its children. */
  ghost predicate Filled(m0: Mem, m: Mem, n: Ptr, kids: Forest) {
    && n in m0.items && n in m.items && Extends(m0, m, {n})
    && var it := m.items[n];
    && m0.items[n] == it.(child := m0.items[n].child, kind := m0.items[n].kind, value := m0.items[n].value, valueString := m0.items[n].valueString)
    && Chain(m, it.child, NULL, kids, NULL)
    && Nodes(kids) !! m0.items.Keys && m.items.Keys == m0.items.Keys + Nodes(kids)
    && NoReference(m, kids) && TextsLive(m, kids) && ConstNames(m, kids) == {}
    && Single(it.valueString) !! m0.strings.Keys && Single(it.valueString) !! Strings(m, kids) && Strings(m, kids) !! m0.strings.Keys
    && m.strings.Keys == m0.strings.Keys + Single(it.valueString) + Strings(m, kids)
  }

  /** Memory with the string of `n` in place, but not yet its children. */
  ghost function Childless(mB: Mem, m: Mem, n: Ptr): Mem
    requires n in m.items
  {
    var v := m.items[n].valueString;
    Mem(mB.items[n := m.items[n].(child := NULL)], if v != NULL && v in m.strings then mB.strings[v := m.strings[v]] else mB.strings)
  }

  lemma ChildlessBuilt(mB: Mem, m: Mem, n: Ptr, kids: Forest)
    requires Filled(mB, m, n, kids)
    ensures Built(Childless(mB, m, n), m, kids, m.items[n].child, NULL, {n})
  {
    hide Chain, TextsLive, NoReference, ConstNames, Strings, NewStrings;
    var c, it := Childless(mB, m, n), m.items[n];
    assert it.valueString != NULL ==> it.valueString in Single(it.valueString);
    assert c.strings.Keys == mB.strings.Keys + Single(it.valueString);
    NewStringsOf(c, m, kids);
  }

  lemma NewStringsOf(c: Mem, m: Mem, kids: Forest)
    requires Nodes(kids) <= m.items.Keys && ConstNames(m, kids) == {}
    requires Strings(m, kids) !! c.strings.Keys && m.strings.Keys == c.strings.Keys + Strings(m, kids)
    ensures NewStrings(c, m, kids)
  {
    hide Strings, ConstNames;
  }

  lemma ChildlessNew(mA: Mem, mB: Mem, m: Mem, n: Ptr, kids: Forest, touched: set<Ptr>)
    requires NewNode(mA, mB, n, touched) && Unfilled(mB, n) && Filled(mB, m, n, kids) && n !in touched
    ensures NewNode(mA, Childless(mB, m, n), n, touched)
  {
    hide Chain, TextsLive, NoReference, ConstNames, Strings;
  }

  /** A new node that was then filled in is a new tree. */
  lemma FilledBuilt(mA: Mem, mB: Mem, m: Mem, n: Ptr, kids: Forest, touched: set<Ptr>)
    requires NewNode(mA, mB, n, touched) && Unfilled(mB, n) && Filled(mB, m, n, kids) && n !in touched
    ensures Built(mA, m, Cons(n, kids, Nil), n, mB.items[n].prev, touched)
    ensures ConstNames(m, Cons(n, kids, Nil)) == {}
    ensures var it := m.items[n];
      Value(m, Cons(n, kids, Nil)) ==
        Tree(it.kind, it.value, TextAt(m, it.valueString), TextAt(mB, it.name), false, Value(m, kids), NoTree)
  {
    hide Chain, TextsLive, NoReference, Strings, Value, NewStrings;
    var m1 := Childless(mB, m, n);
    ChildlessBuilt(mB, m, n, kids);
    ChildlessNew(mA, mB, m, n, kids, touched);
    BuiltNode(mA, m1, m, n, kids, touched);
    var f := Cons(n, kids, Nil);
    assert ConstNames(m, f.rest) == {};
  }

  // ----- growing a list of children -----

  /** Since `mA` the children `g` were built under `item`, and nothing else. */
  ghost predicate Growing(mA: Mem, m: Mem, item: Ptr, g: Forest) {
    && item in mA.items && item in m.items && mA.items[item].child == NULL
    && m.items[item] == mA.items[item].(child := m.items[item].child)
    && Built(mA, m, g, m.items[item].child, NULL, {item}) && ConstNames(m, g) == {}
  }

  lemma GrowingStarts(m: Mem, item: Ptr)
    requires item in m.items && m.items[item].child == NULL
    ensures Growing(m, m, item, Nil) && Value(m, Nil) == NoTree && Last(Nil, NULL) == NULL
  {
  }

  /** The node that the next child hangs from: the last child, or the parent. */
  function Hook(item: Ptr, child: Ptr): Ptr {
    if child == NULL then item else child
  }

  /** Memory after a new item `n` is linked behind `child`, or as the first child. */
  function Hung(m: Mem, item: Ptr, child: Ptr, n: Ptr): Mem
    requires Hook(item, child) in m.items
  {
    var x := Hook(item, child);
    Mem(m.items[x := if child == NULL then m.items[x].(child := n) else m.items[x].(next := n)][n := ZEROED.(prev := child)], m.strings)
  }

  /** `new_item = cJSON_New_Item()` and the links around it. */
  method HangChild(h: Heap, item: Ptr, child: Ptr) returns (n: Ptr)
    requires Hook(item, child) in h.mem.items
    modifies h
    ensures n != NULL && n !in old(h.mem.items) && n !in old(h.mem.strings) && h.mem == Hung(old(h.mem), item, child, n)
  {
    n := h.NewItem();
    var items := h.mem.items;
    if child == NULL {
      items := items[item := items[item].(child := n)];
    } else {
      items := items[child := items[child].(next := n)];
      items := items[n := items[n].(prev := child)];
    }
    h.mem := Mem(items, h.mem.strings);
  }

  lemma HungNew(m: Mem, item: Ptr, child: Ptr, n: Ptr)
    requires Hook(item, child) in m.items && n != NULL && n !in m.items
    ensures NewNode(m, Hung(m, item, child, n), n, {Hook(item, child)}) && Unfilled(Hung(m, item, child, n), n)
  {
  }

  lemma HookLive(mA: Mem, m: Mem, item: Ptr, g: Forest)
    requires Growing(mA, m, item, g)
    ensures Hook(item, Last(g, NULL)) in m.items && (g.Nil? <==> Last(g, NULL) == NULL)
    ensures g.Cons? ==> Last(g, NULL) !in mA.items
  {
    hide Chain, ConstNames, TextsLive, NoReference, NewStrings;
    if g.Cons? {
      LastNode(g, NULL);
      LastNotNull(m, m.items[item].child, NULL, g, NULL);
    }
  }

  /** A child hung and filled in: the children are then one more. */
  lemma Grown(mA: Mem, m: Mem, m': Mem, item: Ptr, g: Forest, c: Forest, n: Ptr)
    requires Growing(mA, m, item, g) && n != NULL && item in m'.items
    requires Hook(item, Last(g, NULL)) in m.items && Hook(item, Last(g, NULL)) in m'.items
    requires Built(m, m', c, n, Last(g, NULL), {Hook(item, Last(g, NULL))}) && ConstNames(m', c) == {}
    requires var x, child := Hook(item, Last(g, NULL)), Last(g, NULL);
      m'.items[x] == if child == NULL then m.items[x].(child := n) else m.items[x].(next := n)
    ensures Growing(mA, m', item, Append(g, c)) && Nodes(g) <= m.items.Keys && Nodes(c) <= m'.items.Keys
    ensures Value(m', Append(g, c)) == Join(Value(m, g), Value(m', c))
  {
    HookLive(mA, m, item, g);
    if g.Cons? {
      GrownBehind(mA, m, m', item, g, c, n);
    } else {
      hide Chain, TextsLive, NoReference, NewStrings;
      BuiltNothing(mA, m, m.items[item].child, {item});
      NewStringsSame(mA, m, m', c);
    }
  }

  lemma GrownBehind(mA: Mem, m: Mem, m': Mem, item: Ptr, g: Forest, c: Forest, n: Ptr)
    requires Growing(mA, m, item, g) && g.Cons? && item in m'.items
    requires Last(g, NULL) in m.items && Last(g, NULL) in m'.items && Last(g, NULL) !in mA.items
    requires Built(m, m', c, n, Last(g, NULL), {Last(g, NULL)}) && ConstNames(m', c) == {}
    requires m'.items[Last(g, NULL)] == m.items[Last(g, NULL)].(next := n)
    ensures Growing(mA, m', item, Append(g, c)) && Nodes(g) <= m.items.Keys && Nodes(c) <= m'.items.Keys
    ensures Value(m', Append(g, c)) == Join(Value(m, g), Value(m', c))
  {
    hide Chain, TextsLive, NoReference, NewStrings, ConstNames, Value, Append, Join, Strings;
    LastNode(g, NULL);
    BuiltJoin(mA, m, m', g, c, m.items[item].child, n, {item});
    Relinked(m, m', g, m.items[item].child, n);
    ConstNamesAppend(m', g, c);
  }
}
