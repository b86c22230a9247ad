/**
 Joining chains of siblings, and the abstract value of what a chain owns.
 */
module Chains {
  import opened Memory

  function Append(f: Forest, g: Forest): (h: Forest)
    ensures Nodes(h) == Nodes(f) + Nodes(g)
  {
    if f.Nil? then g else Cons(f.ptr, f.kids, Append(f.rest, g))
  }

  /** The last node of a chain, or `prev` before an empty one. */
  function Last(f: Forest, prev: Ptr): Ptr {
    if f.Nil? then prev else Last(f.rest, f.ptr)
  }

  lemma {:induction false} LastNode(f: Forest, prev: Ptr)
    requires f.Cons?
    ensures Last(f, prev) in Nodes(f)
  {
    if f.rest.Cons? {
      LastNode(f.rest, f.ptr);
    }
  }

  lemma {:induction false} StringsAppend(m: Mem, f: Forest, g: Forest)
    ensures Strings(m, Append(f, g)) == Strings(m, f) + Strings(m, g)
  {
    if f.Cons? {
      StringsAppend(m, f.rest, g);
    }
  }

  /** Two chains, the second where the first ends, are one. */
  lemma {:induction false} ChainAppend(m: Mem, p: Ptr, prev: Ptr, f: Forest, q: Ptr, g: Forest, end: Ptr)
    requires Chain(m, p, prev, f, q) && Chain(m, q, Last(f, prev), g, end)
    requires Nodes(f) !! Nodes(g) && Strings(m, f) !! Strings(m, g)
    ensures Chain(m, p, prev, Append(f, g), end)
    decreases f
  {
    if f.Cons? {
      hide Node, OwnStrings;
      ChainAppend(m, m.items[p].next, p, f.rest, q, g, end);
      StringsAppend(m, f.rest, g);
    }
  }

  lemma NodeApart(m: Mem, q: Ptr, kids: Forest)
    requires q in m.items && Node(m, q, kids)
    ensures q !in Nodes(kids)
  {
  }

  /** Writing the `next` of its last node moves the end of a chain. */
  lemma {:induction false} ChainRelink(m: Mem, m': Mem, p: Ptr, prev: Ptr, f: Forest, end: Ptr, end': Ptr)
    requires Chain(m, p, prev, f, end) && f.Cons? && Last(f, prev) in m.items
    requires forall q :: q in Nodes(f) && q != Last(f, prev) ==> q in m.items && q in m'.items && m'.items[q] == m.items[q]
    requires Last(f, prev) in m'.items && m'.items[Last(f, prev)] == m.items[Last(f, prev)].(next := end')
    requires forall s :: s in Strings(m, f) ==> s in m'.strings
    ensures Chain(m', p, prev, f, end') && Strings(m', f) == Strings(m, f)
    decreases f
  {
    hide Node, OwnStrings;
    NodeApart(m, p, f.kids);
    if f.rest.Cons? {
      LastNode(f.rest, p);
    }
    NodeFrame(m, m', p, f.kids);
    if f.rest.Cons? {
      ChainRelink(m, m', m.items[p].next, p, f.rest, end, end');
    }
  }

  // ----- abstract values -----

  datatype Label = Absent | Present(text: string)

  /** A chain of siblings as a value. */
  datatype Trees =
    | NoTree
    | Tree(kind: Kind, value: real, text: Label, name: Label, constName: bool, kids: Trees, rest: Trees)

  function TextAt(m: Mem, p: Ptr): Label {
    if p == NULL || p !in m.strings then Absent else Present(m.strings[p])
  }

  /** The value of the chain `f`. */
  function Value(m: Mem, f: Forest): (t: Trees)
    requires Nodes(f) <= m.items.Keys
  {
    if f.Nil? then NoTree
    else
      var it := m.items[f.ptr];
      Tree(it.kind, it.value, TextAt(m, it.valueString), TextAt(m, it.name), it.stringIsConst,
           Value(m, f.kids), Value(m, f.rest))
  }

  function Join(t: Trees, u: Trees): Trees {
    if t.NoTree? then u else t.(rest := Join(t.rest, u))
  }

  lemma {:induction false} ValueAppend(m: Mem, f: Forest, g: Forest)
    requires Nodes(f) + Nodes(g) <= m.items.Keys
    ensures Value(m, Append(f, g)) == Join(Value(m, f), Value(m, g))
  {
    if f.Cons? {
      ValueAppend(m, f.rest, g);
    }
  }

  lemma {:induction false} JoinAssociates(t: Trees, u: Trees, v: Trees)
    ensures Join(Join(t, u), v) == Join(t, Join(u, v))
  {
    if t.Tree? {
      JoinAssociates(t.rest, u, v);
    }
  }

  /** Every address a node names holds a string. */
  predicate TextsLive(m: Mem, f: Forest)
    requires Nodes(f) <= m.items.Keys
  {
    f.Nil? ||
    (var it := m.items[f.ptr];
     && (it.valueString == NULL || it.valueString in m.strings)
     && (it.name == NULL || it.name in m.strings)
     && TextsLive(m, f.kids) && TextsLive(m, f.rest))
  }

  predicate SamePayload(a: Item, b: Item) {
    b == a.(next := b.next, prev := b.prev)
  }

  /** Rewriting links, and adding strings, leaves the value as it is. */
  lemma {:induction false} ValueFrame(m: Mem, m': Mem, f: Forest)
    requires Nodes(f) <= m.items.Keys && TextsLive(m, f)
    requires forall q :: q in Nodes(f) ==> q in m'.items && SamePayload(m.items[q], m'.items[q])
    requires forall s :: s in m.strings ==> s in m'.strings && m'.strings[s] == m.strings[s]
    ensures Value(m', f) == Value(m, f) && TextsLive(m', f)
  {
    if f.Cons? {
      assert SamePayload(m.items[f.ptr], m'.items[f.ptr]);
      ValueFrame(m, m', f.kids);
      ValueFrame(m, m', f.rest);
    }
  }

  /** What a reader finds from `p` on; a reference shows the children it points at. */
  ghost predicate Holds(m: Mem, p: Ptr, t: Trees)
    decreases t
  {
    if t.NoTree? then p == NULL
    else
      && p != NULL && p in m.items
      && var it := m.items[p];
      && it.kind == t.kind && it.value == t.value && it.stringIsConst == t.constName
      && (it.valueString == NULL || it.valueString in m.strings) && TextAt(m, it.valueString) == t.text
      && (it.name == NULL || it.name in m.strings) && TextAt(m, it.name) == t.name
      && Holds(m, it.child, t.kids) && Holds(m, it.next, t.rest)
  }

  lemma {:induction false} HoldsExtends(m: Mem, m': Mem, p: Ptr, t: Trees)
    requires Holds(m, p, t) && Extends(m, m', {})
    ensures Holds(m', p, t)
    decreases t
  {
    if t.Tree? {
      HoldsExtends(m, m', m.items[p].child, t.kids);
      HoldsExtends(m, m', m.items[p].next, t.rest);
    }
  }

  predicate NoReference(m: Mem, f: Forest)
    requires Nodes(f) <= m.items.Keys
  {
    f.Nil? || (!m.items[f.ptr].isReference && NoReference(m, f.kids) && NoReference(m, f.rest))
  }

  /** For a chain without references, what it owns is what a reader finds. */
  lemma {:induction false} ChainHolds(m: Mem, p: Ptr, prev: Ptr, f: Forest)
    requires Chain(m, p, prev, f, NULL) && Nodes(f) <= m.items.Keys && NoReference(m, f) && TextsLive(m, f)
    ensures Holds(m, p, Value(m, f))
    decreases f
  {
    if f.Cons? {
      ChainHolds(m, m.items[p].child, NULL, f.kids);
      ChainHolds(m, m.items[p].next, p, f.rest);
    }
  }
}
