/**
 cJSON_Duplicate: a fresh tree with the value of the item it was given, also where
 the item or something below it is a reference.
 */
module Duplicate {
  import opened Memory
  import opened Chains
  import opened Building

  function Size(t: Trees): nat {
    if t.NoTree? then 0 else 1 + Size(t.kids) + Size(t.rest)
  }

  /** The value of one item without its siblings, and without its children unless `recurse`. */
  function Copied(t: Trees, recurse: bool): Trees
    requires t.Tree?
  {
    t.(rest := NoTree, kids := if recurse then t.kids else NoTree)
  }

  /** cJSON_strdup, which keeps NULL. */
  method StrDup(h: Heap, p: Ptr) returns (q: Ptr)
    requires p == NULL || p in h.mem.strings
    modifies h
    ensures p == NULL ==> q == NULL && h.mem == old(h.mem)
    ensures p != NULL ==> q != NULL && q !in old(h.mem.items) && q !in old(h.mem.strings)
    ensures p != NULL ==> h.mem == Mem(old(h.mem.items), old(h.mem.strings)[q := old(h.mem.strings[p])])
  {
    q := NULL;
    if p != NULL {
      q := h.NewString(h.mem.strings[p]);
    }
  }

  /** A new item with the fields of `item`, its own copies of the strings, and no
      links. The reference bit is dropped; the constant-name bit is kept. */
  method CopyItem(h: Heap, item: Ptr, ghost t: Trees) returns (n: Ptr)
    requires t.Tree? && Holds(h.mem, item, t)
    modifies h
    ensures NewNode(old(h.mem), h.mem, n, {})
    ensures h.mem.items[n].prev == NULL && Holds(h.mem, n, Copied(t, false))
  {
    var it := h.mem.items[item];
    n := h.NewItem();
    var text := StrDup(h, it.valueString);
    var name := StrDup(h, it.name);
    h.mem := Mem(h.mem.items[n := ZEROED.(kind := it.kind, stringIsConst := it.stringIsConst,
                                          valueString := text, value := it.value, name := name)],
                 h.mem.strings);
  }

  lemma {:induction false} LastNotNull(m: Mem, p: Ptr, prev: Ptr, f: Forest, end: Ptr)
    requires Chain(m, p, prev, f, end) && f.Cons?
    ensures Last(f, prev) != NULL
    decreases f
  {
    hide Node, OwnStrings;
    if f.rest.Cons? {
      LastNotNull(m, m.items[p].next, p, f.rest, end);
    }
  }

  /** Writing a node that was there before leaves what was built as it is. */
  lemma BuiltTouch(m2: Mem, m3: Mem, m4: Mem, c: Forest, q: Ptr, prev: Ptr, x: Ptr)
    requires Built(m2, m3, c, q, prev, {}) && x in m2.items && x in m4.items
    requires m4 == Mem(m3.items[x := m4.items[x]], m3.strings)
    ensures Built(m2, m4, c, q, prev, {x}) && Value(m4, c) == Value(m3, c)
  {
    hide OwnStrings, Chain, ConstNames, NoReference, TextsLive, Value, Strings;
    ChainLive(m3, q, prev, c, NULL);
    ChainFrame(m3, m4, q, prev, c, NULL);
    PayloadFrame(m3, m4, c);
    ValueFrame(m3, m4, c);
  }

  /** So does writing the `prev` of a finished single tree, but for that link. */
  lemma BuiltPrev(m2: Mem, m3: Mem, m4: Mem, c: Forest, q: Ptr, l: Ptr, touched: set<Ptr>)
    requires Built(m2, m3, c, q, NULL, touched) && c.Cons? && c.rest.Nil? && q in m3.items
    requires m4 == Mem(m3.items[q := m3.items[q].(prev := l)], m3.strings)
    ensures Built(m2, m4, c, q, l, touched) && Value(m4, c) == Value(m3, c)
  {
    hide OwnStrings, Node, ConstNames, NoReference, TextsLive, Value, Strings;
    NodeApart(m3, q, c.kids);
    NodeReframe(m3, m4, q, c, l);
    PayloadFrame(m3, m4, c);
    ValueFrame(m3, m4, c);
  }

  lemma NodeReframe(m3: Mem, m4: Mem, q: Ptr, c: Forest, l: Ptr)
    requires Chain(m3, q, NULL, c, NULL) && c.Cons? && c.rest.Nil?
    requires m4 == Mem(m3.items[q := m3.items[q].(prev := l)], m3.strings)
    ensures Chain(m4, q, l, c, NULL)
  {
    hide OwnStrings, Node;
    NodeApart(m3, q, c.kids);
    ChainLive(m3, q, NULL, c, NULL);
    NodeFrame(m3, m4, q, c.kids);
    assert Chain(m3, m3.items[q].next, q, c.rest, NULL);
    assert Chain(m4, NULL, q, c.rest, NULL);
  }

  lemma BuiltNothing(m1: Mem, m2: Mem, p: Ptr, touched: set<Ptr>)
    requires Built(m1, m2, Nil, p, NULL, touched)
    ensures m2.items.Keys == m1.items.Keys && m2.strings.Keys == m1.strings.Keys && p == NULL
  {
  }

  lemma NewStringsSame(m1: Mem, m2: Mem, m: Mem, c: Forest)
    requires Nodes(c) <= m.items.Keys && NewStrings(m2, m, c) && m1.strings.Keys == m2.strings.Keys
    ensures NewStrings(m1, m, c)
  {
    hide Strings, ConstNames;
  }

  /** A finished single tree becomes the first child of `n`. */
  lemma BuiltFirst(m1: Mem, m2: Mem, m3: Mem, m4: Mem, c: Forest, q: Ptr, n: Ptr)
    requires Built(m1, m2, Nil, NULL, NULL, {n}) && n in m1.items && Built(m2, m3, c, q, NULL, {})
    requires m4 == Mem(m3.items[n := m3.items[n].(child := q)], m3.strings)
    ensures Built(m1, m4, c, q, NULL, {n}) && Value(m4, c) == Value(m3, c)
  {
    hide Chain, NoReference, TextsLive, Value, NewStrings;
    BuiltNothing(m1, m2, NULL, {n});
    BuiltTouch(m2, m3, m4, c, q, NULL, n);
    NewStringsSame(m1, m2, m4, c);
  }

  /** Linking a finished single tree behind the node `l`: first its `next`, then `prev`. */
  lemma BuiltBehind(m2: Mem, m3: Mem, m4: Mem, m5: Mem, c: Forest, q: Ptr, l: Ptr)
    requires Built(m2, m3, c, q, NULL, {}) && c.Cons? && c.rest.Nil? && l in m2.items && l in m3.items && q in m3.items && q !in m2.items
    requires m4 == Mem(m3.items[l := m3.items[l].(next := q)], m3.strings)
    requires q in m4.items && m5 == Mem(m4.items[q := m4.items[q].(prev := l)], m4.strings)
    ensures Built(m2, m5, c, q, l, {l}) && Value(m5, c) == Value(m3, c)
  {
    hide Chain, NoReference, TextsLive, Value, NewStrings, Extends, Nodes, Strings;
    BuiltTouch(m2, m3, m4, c, q, NULL, l);
    BuiltPrev(m2, m4, m5, c, q, l, {l});
  }

  lemma Written(m2: Mem, m3: Mem, m4: Mem, m5: Mem, q: Ptr, l: Ptr)
    requires Extends(m2, m3, {}) && l in m2.items && l in m3.items && q in m3.items && q !in m2.items
    requires m4 == Mem(m3.items[l := m3.items[l].(next := q)], m3.strings)
    requires q in m4.items && m5 == Mem(m4.items[q := m4.items[q].(prev := l)], m4.strings)
    ensures m5.items[l] == m2.items[l].(next := q)
    ensures forall n :: n in m2.items && n != l ==> n in m5.items && m5.items[n] == m2.items[n]
  {
  }

  /** A finished single tree is linked behind the last child of `n`. */
  lemma {:induction false} BuiltNext(m1: Mem, m2: Mem, m3: Mem, m4: Mem, m5: Mem, g: Forest, c: Forest, first: Ptr, q: Ptr, n: Ptr)
    requires Built(m1, m2, g, first, NULL, {n}) && g.Cons? && n in m1.items && n in m2.items
    requires Built(m2, m3, c, q, NULL, {}) && c.Cons? && c.rest.Nil? && Last(g, NULL) in m3.items && q in m3.items && q !in m2.items
    requires m4 == Mem(m3.items[Last(g, NULL) := m3.items[Last(g, NULL)].(next := q)], m3.strings)
    requires q in m4.items && m5 == Mem(m4.items[q := m4.items[q].(prev := Last(g, NULL))], m4.strings)
    ensures Built(m1, m5, Append(g, c), first, NULL, {n}) && m5.items[n] == m2.items[n]
    ensures Value(m5, Append(g, c)) == Join(Value(m2, g), Value(m3, c))
  {
    hide Chain, NoReference, TextsLive, Value, NewStrings, Append, Join, Last, Strings, Extends;
    LastNode(g, NULL);
    BuiltBehind(m2, m3, m4, m5, c, q, Last(g, NULL));
    Written(m2, m3, m4, m5, q, Last(g, NULL));
    BuiltJoin(m1, m2, m5, g, c, first, q, {n});
  }

  lemma BuiltHead(m: Mem, m': Mem, c: Forest, q: Ptr)
    requires Built(m, m', c, q, NULL, {}) && c.Cons?
    ensures c.ptr == q && q != NULL && q in m'.items && q !in m.items
  {
  }

  lemma {:induction false} LastAppend(f: Forest, g: Forest, prev: Ptr)
    ensures Last(Append(f, g), prev) == Last(g, Last(f, prev))
  {
    if f.Cons? {
      LastAppend(f.rest, g, f.ptr);
    }
  }

  /** The last child so far is a node that exists, or there is none yet. */
  lemma AddCopyReady(m1: Mem, m: Mem, g: Forest, first: Ptr, n: Ptr)
    requires Built(m1, m, g, first, NULL, {n})
    ensures g.Cons? ==> Last(g, NULL) in m.items && Last(g, NULL) != NULL
    ensures g.Nil? ==> first == NULL
  {
    if g.Cons? {
      LastNode(g, NULL);
      LastNotNull(m, first, NULL, g, NULL);
    }
  }

  /** Copies one child and links it behind the copies made so far. */
  method AddCopy(h: Heap, newitem: Ptr, cptr: Ptr, nptr: Ptr, ghost m1: Mem, ghost g: Forest, ghost u: Trees)
    returns (newchild: Ptr, ghost g': Forest)
    requires newitem in m1.items && newitem in h.mem.items
    requires h.mem.items[newitem] == m1.items[newitem].(child := h.mem.items[newitem].child)
    requires Built(m1, h.mem, g, h.mem.items[newitem].child, NULL, {newitem}) && nptr == Last(g, NULL)
    requires u.Tree? && Holds(h.mem, cptr, u)
    modifies h
    ensures newitem in h.mem.items && h.mem.items[newitem] == m1.items[newitem].(child := h.mem.items[newitem].child)
    ensures Built(m1, h.mem, g', h.mem.items[newitem].child, NULL, {newitem}) && newchild == Last(g', NULL)
    ensures Nodes(g) <= old(h.mem.items.Keys) && Value(h.mem, g') == Join(Value(old(h.mem), g), Copied(u, true))
    decreases Size(u), 2
  {
    hide Chain, NoReference, TextsLive, NewStrings;
    ghost var c;
    ghost var m2 := h.mem;
    AddCopyReady(m1, m2, g, h.mem.items[newitem].child, newitem);
    newchild, c := Duplicate(h, cptr, true, u);
    ghost var m3 := h.mem;
    BuiltHead(m2, m3, c, newchild);
    LastAppend(g, c, NULL);
    g' := Append(g, c);
    if nptr != NULL {
      h.mem := Mem(h.mem.items[nptr := h.mem.items[nptr].(next := newchild)], h.mem.strings);
      ghost var m4 := h.mem;
      h.mem := Mem(h.mem.items[newchild := h.mem.items[newchild].(prev := nptr)], h.mem.strings);
      BuiltNext(m1, m2, m3, m4, h.mem, g, c, m2.items[newitem].child, newchild, newitem);
    } else {
      h.mem := Mem(h.mem.items[newitem := h.mem.items[newitem].(child := newchild)], h.mem.strings);
      BuiltFirst(m1, m2, m3, h.mem, c, newchild, newitem);
    }
  }

  lemma BuiltStart(m: Mem, n: Ptr)
    ensures Built(m, m, Nil, NULL, NULL, {n}) && Value(m, Nil) == NoTree
  {
  }

  lemma ExtendsTwice(m0: Mem, m1: Mem, m: Mem, n: Ptr)
    requires Extends(m0, m1, {}) && Extends(m1, m, {n}) && n !in m0.items
    ensures Extends(m0, m, {})
  {
  }

  lemma {:induction false} JoinNone(t: Trees)
    ensures Join(t, NoTree) == t && Join(NoTree, t) == t
  {
    if t.Tree? {
      JoinNone(t.rest);
    }
  }

  lemma JoinNext(v: Trees, u: Trees)
    requires u.Tree?
    ensures Join(Join(v, Copied(u, true)), u.rest) == Join(v, u)
  {
    JoinAssociates(v, Copied(u, true), u.rest);
    assert Join(NoTree, u.rest) == u.rest;
  }

  /** Walks the `next` chain of the children, copying each of them. */
  method CopyChildren(h: Heap, item: Ptr, newitem: Ptr, ghost m0: Mem, ghost t: Trees) returns (ghost g: Forest)
    requires t.Tree? && Holds(m0, item, t) && Extends(m0, h.mem, {}) && newitem !in m0.items
    requires newitem in h.mem.items && h.mem.items[newitem].child == NULL
    modifies h
    ensures newitem in h.mem.items && h.mem.items[newitem] == old(h.mem.items)[newitem].(child := h.mem.items[newitem].child)
    ensures Built(old(h.mem), h.mem, g, h.mem.items[newitem].child, NULL, {newitem})
    ensures Value(h.mem, g) == t.kids
    decreases Size(t), 0
  {
    hide Chain, NoReference, TextsLive, NewStrings, Value, Join;
    ghost var u := t.kids;
    BuiltStart(h.mem, newitem);
    JoinNone(u);
    g := Nil;
    var cptr, nptr := h.mem.items[item].child, NULL;
    while cptr != NULL
      invariant Holds(m0, cptr, u) && Size(u) < Size(t)
      invariant newitem in h.mem.items && h.mem.items[newitem] == old(h.mem.items)[newitem].(child := h.mem.items[newitem].child)
      invariant Built(old(h.mem), h.mem, g, h.mem.items[newitem].child, NULL, {newitem})
      invariant nptr == Last(g, NULL)
      invariant Join(Value(h.mem, g), u) == t.kids
      decreases Size(u)
    {
      nptr, g, cptr, u := CopyNext(h, newitem, cptr, nptr, m0, old(h.mem), g, u);
    }
    JoinNone(Value(h.mem, g));
  }

  method CopyNext(h: Heap, newitem: Ptr, cptr: Ptr, nptr: Ptr, ghost m0: Mem, ghost m1: Mem, ghost g: Forest, ghost u: Trees)
    returns (newchild: Ptr, ghost g': Forest, next: Ptr, ghost u': Trees)
    requires Extends(m0, m1, {}) && newitem !in m0.items && newitem in m1.items && newitem in h.mem.items
    requires h.mem.items[newitem] == m1.items[newitem].(child := h.mem.items[newitem].child)
    requires Built(m1, h.mem, g, h.mem.items[newitem].child, NULL, {newitem}) && nptr == Last(g, NULL)
    requires cptr != NULL && Holds(m0, cptr, u)
    modifies h
    ensures newitem in h.mem.items && h.mem.items[newitem] == m1.items[newitem].(child := h.mem.items[newitem].child)
    ensures Built(m1, h.mem, g', h.mem.items[newitem].child, NULL, {newitem}) && newchild == Last(g', NULL)
    ensures Holds(m0, next, u') && Size(u') < Size(u)
    ensures Nodes(g) <= old(h.mem.items.Keys) && Join(Value(h.mem, g'), u') == Join(Value(old(h.mem), g), u)
    decreases Size(u), 3
  {
    hide Chain, NoReference, TextsLive, NewStrings, Value, Join, Last;
    ExtendsTwice(m0, m1, h.mem, newitem);
    HoldsExtends(m0, h.mem, cptr, u);
    newchild, g' := AddCopy(h, newitem, cptr, nptr, m1, g, u);
    ExtendsTwice(m0, m1, h.mem, newitem);
    next, u' := h.mem.items[cptr].next, u.rest;
    JoinNext(Value(old(h.mem), g), u);
  }

  /** cJSON_Duplicate */
  method Duplicate(h: Heap, item: Ptr, recurse: bool, ghost t: Trees) returns (r: Ptr, ghost f: Forest)
    requires Holds(h.mem, item, t)
    modifies h
    ensures item == NULL ==> r == NULL && h.mem == old(h.mem)
    ensures item != NULL ==> f.Cons? && f.rest.Nil? && Built(old(h.mem), h.mem, f, r, NULL, {}) && Value(h.mem, f) == Copied(t, recurse)
    ensures item != NULL ==>
      Value(h.mem, f) == Tree(t.kind, t.value, t.text, t.name, t.constName, if recurse then t.kids else NoTree, NoTree)
    decreases Size(t), 1
  {
    if item == NULL {
      return NULL, Nil;
    }
    r := CopyItem(h, item, t);
    ghost var m1 := h.mem;
    ghost var kids := Nil;
    if recurse {
      BuiltStart(m1, r);
      kids := CopyChildren(h, item, r, old(h.mem), t);
    } else {
      BuiltStart(m1, r);
    }
    f := Cons(r, kids, Nil);
    BuiltNode(old(h.mem), m1, h.mem, r, kids, {});
  }
}
