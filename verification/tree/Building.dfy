/**
 Memory in which a chain is being built: what was there before is untouched, and
 what is new belongs to the chain.
 */
module Building {
  import opened Memory
  import opened Chains

  /** The names that no node of the chain owns. */
  function ConstNames(m: Mem, f: Forest): set<Ptr>
    requires Nodes(f) <= m.items.Keys
  {
    if f.Nil? then {}
    else
      var it := m.items[f.ptr];
      (if it.stringIsConst && it.name != NULL then {it.name} else {}) + ConstNames(m, f.kids) + ConstNames(m, f.rest)
  }

  /** `m` is `m0` and the chain `f` from `p` on, without references, all of it new;
      of the old nodes only those in `touched` were written. */
  ghost predicate Built(m0: Mem, m: Mem, f: Forest, p: Ptr, prev: Ptr, touched: set<Ptr>) {
    && Extends(m0, m, touched)
    && Chain(m, p, prev, f, NULL)
    && Nodes(f) !! m0.items.Keys && m.items.Keys == m0.items.Keys + Nodes(f)
    && NewStrings(m0, m, f)
    && TextsLive(m, f) && NoReference(m, f)
  }

  /** `after` is `before` with the new sets `owned` and `shared`. */
  ghost predicate Grows(before: set<Ptr>, owned: set<Ptr>, shared: set<Ptr>, after: set<Ptr>) {
    owned !! before && shared !! before && owned !! shared && after == before + owned + shared
  }

  lemma GrowsTwice(a: set<Ptr>, b: set<Ptr>, c: set<Ptr>, owned: set<Ptr>, shared: set<Ptr>, owned': set<Ptr>, shared': set<Ptr>)
    requires Grows(a, owned, shared, b) && Grows(b, owned', shared', c)
    ensures Grows(a, owned + owned', shared + shared', c) && owned !! owned'
  {
    assert (owned + owned') !! (shared + shared') by {
      assert owned <= b && shared <= b;
    }
    assert a <= b;
  }

  ghost predicate NewStrings(m0: Mem, m: Mem, f: Forest)
    requires Nodes(f) <= m.items.Keys
  {
    Grows(m0.strings.Keys, Strings(m, f), ConstNames(m, f), m.strings.Keys)
  }

  lemma {:induction false} ConstNamesAppend(m: Mem, f: Forest, g: Forest)
    requires Nodes(f) + Nodes(g) <= m.items.Keys
    ensures ConstNames(m, Append(f, g)) == ConstNames(m, f) + ConstNames(m, g)
  {
    if f.Cons? {
      ConstNamesAppend(m, f.rest, g);
    }
  }

  lemma {:induction false} LiveAppend(m: Mem, f: Forest, g: Forest)
    requires Nodes(f) + Nodes(g) <= m.items.Keys
    ensures TextsLive(m, Append(f, g)) == (TextsLive(m, f) && TextsLive(m, g))
    ensures NoReference(m, Append(f, g)) == (NoReference(m, f) && NoReference(m, g))
  {
    if f.Cons? {
      LiveAppend(m, f.rest, g);
    }
  }

  /** Rewriting links changes neither. */
  lemma {:induction false} PayloadFrame(m: Mem, m': Mem, f: Forest)
    requires Nodes(f) <= m.items.Keys
    requires forall q :: q in Nodes(f) ==> q in m'.items && SamePayload(m.items[q], m'.items[q])
    ensures ConstNames(m', f) == ConstNames(m, f) && NoReference(m', f) == NoReference(m, f)
    ensures Strings(m', f) == Strings(m, f)
  {
    if f.Cons? {
      assert SamePayload(m.items[f.ptr], m'.items[f.ptr]);
      PayloadFrame(m, m', f.kids);
      PayloadFrame(m, m', f.rest);
    }
  }

  /** The last node of the chain `f` was given the `next` `q`, and nothing else in
      `f` was written: `f` now ends at `q` and means what it did. */
  lemma Relinked(m1: Mem, m: Mem, f: Forest, p: Ptr, q: Ptr)
    requires Chain(m1, p, NULL, f, NULL) && f.Cons? && Nodes(f) <= m1.items.Keys
    requires TextsLive(m1, f) && NoReference(m1, f)
    requires Last(f, NULL) in Nodes(f) && Extends(m1, m, {Last(f, NULL)})
    requires m.items[Last(f, NULL)] == m1.items[Last(f, NULL)].(next := q)
    ensures Chain(m, p, NULL, f, q) && Nodes(f) <= m.items.Keys && TextsLive(m, f) && NoReference(m, f)
    ensures Strings(m, f) == Strings(m1, f) && ConstNames(m, f) == ConstNames(m1, f) && Value(m, f) == Value(m1, f)
  {
    hide Chain, OwnStrings, TextsLive, NoReference, ConstNames, Value, Last;
    ChainLive(m1, p, NULL, f, NULL);
    ChainRelink(m1, m, p, NULL, f, NULL, q);
    PayloadFrame(m1, m, f);
    ValueFrame(m1, m, f);
  }

  lemma NewStringsJoin(m0: Mem, m1: Mem, m: Mem, f: Forest, g: Forest)
    requires Nodes(f) + Nodes(g) <= m.items.Keys && Nodes(f) <= m1.items.Keys
    requires Strings(m, f) == Strings(m1, f) && ConstNames(m, f) == ConstNames(m1, f)
    requires NewStrings(m0, m1, f) && NewStrings(m1, m, g)
    ensures NewStrings(m0, m, Append(f, g)) && Strings(m, f) !! Strings(m, g)
  {
    hide ConstNames, Strings, Append, Grows;
    StringsAppend(m, f, g);
    ConstNamesAppend(m, f, g);
    GrowsTwice(m0.strings.Keys, m1.strings.Keys, m.strings.Keys,
               Strings(m, f), ConstNames(m, f), Strings(m, g), ConstNames(m, g));
  }

  /** A chain `f` was built, then `g` behind its last node: both are one chain. */
  lemma BuiltJoin(m0: Mem, m1: Mem, m: Mem, f: Forest, g: Forest, p: Ptr, q: Ptr, touched: set<Ptr>)
    requires Built(m0, m1, f, p, NULL, touched) && f.Cons?
    requires Built(m1, m, g, q, Last(f, NULL), {Last(f, NULL)})
    requires Last(f, NULL) in m1.items && m.items[Last(f, NULL)] == m1.items[Last(f, NULL)].(next := q)
    ensures Built(m0, m, Append(f, g), p, NULL, touched)
    ensures Value(m, Append(f, g)) == Join(Value(m1, f), Value(m, g))
  {
    hide Chain, TextsLive, NoReference, ConstNames, Value, Strings, NewStrings, Append, Last;
    LastNode(f, NULL);
    Relinked(m1, m, f, p, q);
    NewStringsJoin(m0, m1, m, f, g);
    ChainAppend(m, p, NULL, f, q, g, NULL);
    LiveAppend(m, f, g);
    ValueAppend(m, f, g);
  }

  /** A new node `n` without children, with new strings of its own. */
  ghost predicate NewNode(m0: Mem, m: Mem, n: Ptr, touched: set<Ptr>) {
    && Extends(m0, m, touched)
    && n != NULL && n !in m0.items && m.items.Keys == m0.items.Keys + {n}
    && var it := m.items[n];
    && it.next == NULL && it.child == NULL && !it.isReference
    && (it.valueString != NULL ==> it.valueString !in m0.strings)
    && (it.name != NULL ==> it.name !in m0.strings && it.name != it.valueString)
    && m.strings.Keys == m0.strings.Keys + (if it.valueString != NULL then {it.valueString} else {})
                                         + (if it.name != NULL then {it.name} else {})
  }

  lemma NodeStringsJoin(m0: Mem, m1: Mem, m: Mem, n: Ptr, kids: Forest, touched: set<Ptr>)
    requires NewNode(m0, m1, n, touched) && n in m.items && Nodes(kids) <= m.items.Keys
    requires m.items[n] == m1.items[n].(child := m.items[n].child) && NewStrings(m1, m, kids)
    ensures NewStrings(m0, m, Cons(n, kids, Nil)) && OwnStrings(m.items[n]) !! Strings(m, kids)
  {
    hide Grows;
    var it := m.items[n];
    var shared := if it.stringIsConst && it.name != NULL then {it.name} else {};
    NodeGrows(m0, m1, n, touched);
    GrowsTwice(m0.strings.Keys, m1.strings.Keys, m.strings.Keys,
               OwnStrings(it), shared, Strings(m, kids), ConstNames(m, kids));
    StringsOfNode(m, n, kids);
  }

  lemma NodeGrows(m0: Mem, m1: Mem, n: Ptr, touched: set<Ptr>)
    requires NewNode(m0, m1, n, touched)
    ensures var it := m1.items[n];
      Grows(m0.strings.Keys, OwnStrings(it), if it.stringIsConst && it.name != NULL then {it.name} else {}, m1.strings.Keys)
  {
  }

  lemma StringsOfNode(m: Mem, n: Ptr, kids: Forest)
    requires n in m.items && Nodes(kids) <= m.items.Keys
    ensures var it, f := m.items[n], Cons(n, kids, Nil);
      && Strings(m, f) == OwnStrings(it) + Strings(m, kids)
      && ConstNames(m, f) == (if it.stringIsConst && it.name != NULL then {it.name} else {}) + ConstNames(m, kids)
  {
    hide OwnStrings;
    assert Strings(m, Nil) == {} && ConstNames(m, Nil) == {};
  }

  lemma NodeValue(m1: Mem, m: Mem, n: Ptr, kids: Forest)
    requires n in m1.items && n in m.items && Nodes(kids) <= m.items.Keys && Extends(m1, m, {n})
    requires m.items[n] == m1.items[n].(child := m.items[n].child)
    requires var it := m1.items[n];
      (it.valueString == NULL || it.valueString in m1.strings) && (it.name == NULL || it.name in m1.strings)
    ensures var it, f := m1.items[n], Cons(n, kids, Nil);
      && (TextsLive(m, f) <==> TextsLive(m, kids))
      && Value(m, f) ==
           Tree(it.kind, it.value, TextAt(m1, it.valueString), TextAt(m1, it.name), it.stringIsConst, Value(m, kids), NoTree)
  {
    NoStrings(m);
    var f := Cons(n, kids, Nil);
    assert f.kids == kids && f.rest == Nil && TextsLive(m, f.rest);
  }

  lemma NodeChain(m: Mem, n: Ptr, kids: Forest)
    requires n != NULL && n in m.items && n !in Nodes(kids) && !m.items[n].isReference && m.items[n].next == NULL
    requires StringsLive(m, m.items[n]) && OwnStrings(m.items[n]) !! Strings(m, kids)
    requires Chain(m, m.items[n].child, NULL, kids, NULL)
    ensures Chain(m, n, m.items[n].prev, Cons(n, kids, Nil), NULL)
  {
    NoStrings(m);
    assert Node(m, n, kids);
    assert Chain(m, NULL, n, Nil, NULL);
  }

  /** Children built under a new node: together they are one new tree. */
  lemma BuiltNode(m0: Mem, m1: Mem, m: Mem, n: Ptr, kids: Forest, touched: set<Ptr>)
    requires NewNode(m0, m1, n, touched) && n in m.items
    requires Built(m1, m, kids, m.items[n].child, NULL, {n})
    requires m.items[n] == m1.items[n].(child := m.items[n].child)
    ensures Built(m0, m, Cons(n, kids, Nil), n, m.items[n].prev, touched)
    ensures var it := m1.items[n];
      Value(m, Cons(n, kids, Nil)) ==
        Tree(it.kind, it.value, TextAt(m1, it.valueString), TextAt(m1, it.name), it.stringIsConst, Value(m, kids), NoTree)
  {
    hide NewStrings, Strings, ConstNames, Chain, Value, TextsLive;
    NodeStringsJoin(m0, m1, m, n, kids, touched);
    assert StringsLive(m, m.items[n]);
    NodeChain(m, n, kids);
    NodeValue(m1, m, n, kids);
    assert NoReference(m, Nil);
  }

  lemma NoStrings(m: Mem)
    ensures Strings(m, Nil) == {} && Nodes(Nil) == {} && Value(m, Nil) == NoTree
  {
  }
}
