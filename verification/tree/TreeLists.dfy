/**
 The list operations on owned trees: after any of them the parent owns exactly the
 items of the new list, and their values are untouched.
 */
module TreeLists {
  import opened Memory
  import opened Chains
  import opened ChildList
  import opened References

  function Roots(f: Forest): (q: seq<Ptr>)
    ensures forall p <- q :: p in Nodes(f)
  {
    if f.Nil? then [] else [f.ptr] + Roots(f.rest)
  }

  /** The nodes below the roots. */
  function Inner(f: Forest): (s: set<Ptr>)
    ensures s <= Nodes(f)
  {
    if f.Nil? then {} else Nodes(f.kids) + Inner(f.rest)
  }

  /** Every root owns its strings and children, all apart from one another; nothing
      is said about the links between the roots. */
  ghost predicate Owns(m: Mem, f: Forest) {
    match f
    case Nil => true
    case Cons(q, kids, rest) =>
      && q != NULL && q in m.items && Node(m, q, kids) && Owns(m, rest)
      && ({q} + Nodes(kids)) !! Nodes(rest)
      && (OwnStrings(m.items[q]) + Strings(m, kids)) !! Strings(m, rest)
  }

  lemma {:induction false} OwnsAppend(m: Mem, f: Forest, g: Forest)
    ensures Owns(m, Append(f, g)) <==> Owns(m, f) && Owns(m, g) && Nodes(f) !! Nodes(g) && Strings(m, f) !! Strings(m, g)
  {
    hide Node, OwnStrings;
    if f.Cons? {
      OwnsAppend(m, f.rest, g);
      StringsAppend(m, f.rest, g);
    }
  }

  lemma {:induction false} RootsAppend(f: Forest, g: Forest)
    ensures Roots(Append(f, g)) == Roots(f) + Roots(g) && Inner(Append(f, g)) == Inner(f) + Inner(g)
  {
    if f.Cons? {
      RootsAppend(f.rest, g);
    }
  }

  // ----- a chain is an owned, linked list -----

  /** The links of a list whose first item follows `prev`. */
  ghost predicate LinksFrom(m: Mem, p: Ptr, prev: Ptr, q: seq<Ptr>)
    decreases |q|
  {
    if q == [] then p == NULL
    else p == q[0] != NULL && p in m.items && m.items[p].prev == prev && LinksFrom(m, m.items[p].next, p, q[1..])
  }

  lemma {:induction false} ChainIsOwned(m: Mem, p: Ptr, prev: Ptr, f: Forest)
    ensures Chain(m, p, prev, f, NULL) <==> Owns(m, f) && LinksFrom(m, p, prev, Roots(f))
    decreases f
  {
    hide Node, OwnStrings;
    if f.Cons? {
      assert Roots(f)[1..] == Roots(f.rest);
      if p in m.items {
        ChainIsOwned(m, m.items[p].next, p, f.rest);
      }
    }
  }

  lemma {:induction false} LinksAreLinked(m: Mem, q: seq<Ptr>, k: nat)
    requires k <= |q| && forall i :: 0 <= i < |q| ==> InPlace(m, q, i)
    ensures LinksFrom(m, Ith(q, k), Ith(q, k - 1), q[k..])
    decreases |q| - k
  {
    if k < |q| {
      assert InPlace(m, q, k);
      LinksAreLinked(m, q, k + 1);
      assert q[k..][1..] == q[k + 1..];
    }
  }

  lemma {:induction false} LinkedAreLinks(m: Mem, q: seq<Ptr>, k: nat)
    requires k <= |q| && LinksFrom(m, Ith(q, k), Ith(q, k - 1), q[k..])
    ensures forall i :: k <= i < |q| ==> InPlace(m, q, i)
    decreases |q| - k
  {
    if k < |q| {
      assert q[k..][1..] == q[k + 1..];
      if k + 1 < |q| {
        assert q[k + 1..][0] == q[k + 1];
      }
      assert m.items[q[k]].next == Ith(q, k + 1);
      LinkedAreLinks(m, q, k + 1);
    }
  }

  lemma {:induction false} RootsDistinct(m: Mem, f: Forest)
    requires Owns(m, f)
    ensures forall i, j :: 0 <= i < j < |Roots(f)| ==> Roots(f)[i] != Roots(f)[j]
    ensures Inner(f) !! (set p | p in Roots(f))
  {
    hide Node, OwnStrings;
    if f.Cons? {
      RootsDistinct(m, f.rest);
      NodeApart(m, f.ptr, f.kids);
      assert forall p <- Roots(f.rest) :: p in Nodes(f.rest);
    }
  }

  /** The tree view and the list view of a parent's children are the same thing. */
  lemma ChildrenAreOwned(m: Mem, parent: Ptr, f: Forest)
    requires parent in m.items && parent !in Nodes(f)
    ensures Chain(m, m.items[parent].child, NULL, f, NULL) <==> Owns(m, f) && Children(m, parent, Roots(f))
  {
    hide Owns, Chain;
    var p, q := m.items[parent].child, Roots(f);
    ChainIsOwned(m, p, NULL, f);
    if Owns(m, f) {
      RootsDistinct(m, f);
      assert q[0..] == q;
      if Children(m, parent, q) {
        LinksAreLinked(m, q, 0);
      }
      if LinksFrom(m, p, NULL, q) {
        LinkedAreLinks(m, q, 0);
      }
    }
  }

  // ----- what the operations do to the tree -----

  /** Rewriting links of roots leaves what they own, and their values, as they are. */
  lemma {:induction false} OwnsRelinked(m: Mem, m': Mem, parent: Ptr, touched: seq<Ptr>, f: Forest)
    requires Owns(m, f) && Relinks(m, m', parent, touched) && parent !in Nodes(f) && forall p <- touched :: p !in Inner(f)
    ensures Owns(m', f) && Strings(m', f) == Strings(m, f) && Nodes(f) <= m.items.Keys && Nodes(f) <= m'.items.Keys
    ensures Value(m', f) == Value(m, f)
  {
    hide Node, OwnStrings;
    if f.Cons? {
      KidsLive(m, f.ptr, f.kids);
      assert forall r :: r in Nodes(f.kids) ==> m'.items[r] == m.items[r];
      NodeFrame(m, m', f.ptr, f.kids);
      OwnsRelinked(m, m', parent, touched, f.rest);
      SameValue(m, m', f.kids);
    }
  }

  lemma {:induction false} SameValue(m: Mem, m': Mem, f: Forest)
    requires Nodes(f) <= m.items.Keys && m'.strings == m.strings
    requires forall q :: q in Nodes(f) ==> q in m'.items && m'.items[q] == m.items[q]
    ensures Value(m', f) == Value(m, f)
  {
    if f.Cons? {
      SameValue(m, m', f.kids);
      SameValue(m, m', f.rest);
    }
  }

  /** The items of `f`, owned before, linked up as the children of `parent`. */
  lemma RelinkedTree(m: Mem, m': Mem, parent: Ptr, touched: seq<Ptr>, f: Forest)
    requires parent in m.items && Owns(m, f) && Relinks(m, m', parent, touched) && parent !in Nodes(f)
    requires (forall p <- touched :: p !in Inner(f)) && Children(m', parent, Roots(f))
    ensures Chain(m', m'.items[parent].child, NULL, f, NULL)
    ensures Nodes(f) <= m.items.Keys && Nodes(f) <= m'.items.Keys && Value(m', f) == Value(m, f)
  {
    OwnsRelinked(m, m', parent, touched, f);
    ChildrenAreOwned(m', parent, f);
  }

  lemma {:induction false} RootsApart(m: Mem, f: Forest, g: Forest)
    requires Owns(m, Append(f, g))
    ensures forall p <- Roots(f) + Roots(g) :: p !in Inner(f) && p !in Inner(g)
  {
    OwnsAppend(m, f, g);
    RootsDistinct(m, f);
    RootsDistinct(m, g);
    assert forall p <- Roots(f) :: p in (set r | r in Roots(f));
    assert forall p <- Roots(g) :: p in (set r | r in Roots(g));
  }

  /** Appending: the parent then owns its items followed by those added. */
  lemma {:induction false} AppendKeepsTree(m: Mem, m': Mem, parent: Ptr, f: Forest, c: Forest)
    requires parent in m.items && parent !in Nodes(f) + Nodes(c)
    requires Chain(m, m.items[parent].child, NULL, f, NULL) && Owns(m, c)
    requires Nodes(f) !! Nodes(c) && Strings(m, f) !! Strings(m, c)
    requires Children(m', parent, Roots(f) + Roots(c)) && Relinks(m, m', parent, Roots(f) + Roots(c))
    ensures Chain(m', m'.items[parent].child, NULL, Append(f, c), NULL)
    ensures Nodes(f) + Nodes(c) <= m.items.Keys && Nodes(f) + Nodes(c) <= m'.items.Keys
    ensures Value(m', Append(f, c)) == Join(Value(m, f), Value(m, c))
  {
    hide Owns, Chain, Relinks, Children;
    ChildrenAreOwned(m, parent, f);
    OwnsAppend(m, f, c);
    RootsAppend(f, c);
    RootsApart(m, f, c);
    RelinkedTree(m, m', parent, Roots(f) + Roots(c), Append(f, c));
    ValueAppend(m, f, c);
  }

  /** Inserting between `a` and `b`: the parent then owns `a`, the new item, `b`. */
  lemma {:induction false} InsertKeepsTree(m: Mem, m': Mem, parent: Ptr, a: Forest, b: Forest, c: Forest)
    requires parent in m.items && parent !in Nodes(a) + Nodes(b) + Nodes(c)
    requires Chain(m, m.items[parent].child, NULL, Append(a, b), NULL) && Owns(m, c)
    requires Nodes(Append(a, b)) !! Nodes(c) && Strings(m, Append(a, b)) !! Strings(m, c)
    requires Children(m', parent, Roots(a) + (Roots(c) + Roots(b))) && Relinks(m, m', parent, Roots(Append(a, b)) + Roots(c))
    ensures Chain(m', m'.items[parent].child, NULL, Append(a, Append(c, b)), NULL)
    ensures Nodes(a) + Nodes(b) + Nodes(c) <= m.items.Keys && Nodes(Append(a, Append(c, b))) <= m'.items.Keys
    ensures Value(m', Append(a, Append(c, b))) == Join(Value(m, a), Join(Value(m, c), Value(m, b)))
  {
    hide Owns, Chain, Relinks, Children, Value, Join, Roots, Inner, Strings, Append;
    var f := Append(a, Append(c, b));
    ChildrenAreOwned(m, parent, Append(a, b));
    Spliced(m, a, b, c);
    RelinkedTree(m, m', parent, Roots(Append(a, b)) + Roots(c), f);
    ValueAppend(m, a, Append(c, b));
    ValueAppend(m, c, b);
  }

  lemma {:induction false} Spliced(m: Mem, a: Forest, b: Forest, c: Forest)
    requires Owns(m, Append(a, b)) && Owns(m, c) && Nodes(Append(a, b)) !! Nodes(c) && Strings(m, Append(a, b)) !! Strings(m, c)
    ensures Owns(m, Append(a, Append(c, b)))
    ensures Roots(Append(a, Append(c, b))) == Roots(a) + (Roots(c) + Roots(b))
    ensures forall p <- Roots(Append(a, b)) + Roots(c) :: p !in Inner(Append(a, Append(c, b)))
  {
    hide Owns;
    OwnsAppend(m, a, b);
    StringsAppend(m, a, b);
    StringsAppend(m, c, b);
    OwnsAppend(m, c, b);
    OwnsAppend(m, a, Append(c, b));
    RootsAppend(a, b);
    RootsAppend(c, b);
    RootsAppend(a, Append(c, b));
    RootsApart(m, a, Append(c, b));
  }

  lemma {:induction false} Removed(m: Mem, a: Forest, x: Forest, b: Forest)
    requires Owns(m, Append(a, Append(x, b)))
    ensures Owns(m, Append(a, b)) && Owns(m, x) && Nodes(Append(a, b)) !! Nodes(x) && Strings(m, Append(a, b)) !! Strings(m, x)
    ensures Roots(Append(a, b)) == Roots(a) + Roots(b)
    ensures forall p <- Roots(Append(a, Append(x, b))) :: p !in Inner(Append(a, b)) && p !in Inner(x)
  {
    hide Owns;
    OwnsAppend(m, a, Append(x, b));
    OwnsAppend(m, x, b);
    OwnsAppend(m, a, b);
    StringsAppend(m, x, b);
    StringsAppend(m, a, b);
    RootsAppend(a, b);
    RootsAppend(x, b);
    RootsAppend(a, Append(x, b));
    RootsApart(m, a, Append(x, b));
    RootsApart(m, x, b);
  }

  /** Detaching item `x`: the parent owns the others, `x` is a tree of its own, and
      the two share nothing. */
  lemma {:induction false} DetachKeepsTree(m: Mem, m': Mem, parent: Ptr, a: Forest, x: Forest, b: Forest)
    requires parent in m.items && parent !in Nodes(a) + Nodes(x) + Nodes(b) && x.Cons? && x.rest.Nil?
    requires Chain(m, m.items[parent].child, NULL, Append(a, Append(x, b)), NULL)
    requires Children(m', parent, Roots(a) + Roots(b)) && Relinks(m, m', parent, Roots(Append(a, Append(x, b))))
    requires x.ptr in m'.items && m'.items[x.ptr].next == NULL && m'.items[x.ptr].prev == NULL
    ensures Chain(m', m'.items[parent].child, NULL, Append(a, b), NULL) && Chain(m', x.ptr, NULL, x, NULL)
    ensures Nodes(Append(a, b)) !! Nodes(x) && Strings(m', Append(a, b)) !! Strings(m', x)
    ensures Nodes(Append(a, b)) + Nodes(x) <= m.items.Keys && Nodes(Append(a, b)) + Nodes(x) <= m'.items.Keys
    ensures Value(m', Append(a, b)) == Value(m, Append(a, b)) && Value(m', x) == Value(m, x)
    ensures Strings(m', Append(a, b)) == Strings(m, Append(a, b)) && Strings(m', x) == Strings(m, x)
  {
    hide Chain, Relinks, Children, Value, Inner, Strings, Owns;
    ChildrenAreOwned(m, parent, Append(a, Append(x, b)));
    Removed(m, a, x, b);
    var q := Roots(Append(a, Append(x, b)));
    RelinkedTree(m, m', parent, q, Append(a, b));
    OwnsRelinked(m, m', parent, q, Append(a, b));
    OwnsRelinked(m, m', parent, q, x);
    OwnedAlone(m', x);
  }

  lemma OwnedAlone(m: Mem, x: Forest)
    requires Owns(m, x) && x.Cons? && x.rest.Nil? && x.ptr in m.items && m.items[x.ptr].next == NULL && m.items[x.ptr].prev == NULL
    ensures Chain(m, x.ptr, NULL, x, NULL)
  {
    SingleChain(m, x.ptr, x.kids);
    assert x == Cons(x.ptr, x.kids, Nil);
  }

  /** From `m` to `m'` the tree `x` was freed. The kept trees read as before exactly
      when none of their nodes names a string of `x`. */
  ghost predicate Kept(m: Mem, m': Mem, f: Forest, x: Forest) {
    && Nodes(f) <= m.items.Keys && Nodes(f) <= m'.items.Keys
    && m'.items.Keys == m.items.Keys - Nodes(x) && m'.strings == m.strings - Strings(m, x)
    && (TextsLive(m, f) ==> (Value(m', f) == Value(m, f) <==> Texts(m, f) !! Strings(m, x)))
  }

  /** cJSON_DeleteItemFromArray. Past the end of the list nothing happens; else the
      item `x` goes with all it owns, and the others stay. */
  method DeleteItemFromArray(h: Heap, parent: Ptr, which: int, ghost a: Forest, ghost x: Forest, ghost b: Forest)
    requires parent in h.mem.items && parent !in Nodes(Append(a, Append(x, b)))
    requires Chain(h.mem, h.mem.items[parent].child, NULL, Append(a, Append(x, b)), NULL)
    requires if x.Nil? then b.Nil? && (which >= |Roots(a)| || a.Nil?)
             else x.rest.Nil? && (which == |Roots(a)| || (which < 0 && a.Nil?))
    modifies h
    ensures x.Nil? ==> h.mem == old(h.mem)
    ensures x.Cons? ==>
      && parent in h.mem.items && Chain(h.mem, h.mem.items[parent].child, NULL, Append(a, b), NULL)
      && Kept(old(h.mem), h.mem, Append(a, b), x)
  {
    hide Chain, Relinks, Children, Value, Strings, Owns, Texts, TextsLive;
    ghost var m := h.mem;
    ghost var q := Roots(Append(a, Append(x, b)));
    ChildrenAreOwned(m, parent, Append(a, Append(x, b)));
    RootsAppend(a, Append(x, b));
    var c := DetachItemFromArray(h, parent, which, q);
    ghost var m1 := h.mem;
    if c != NULL {
      Taken(a, x, b);
      DetachKeepsTree(m, m1, parent, a, x, b);
      RelinksKeep(m, m1, parent, q);
      DeleteTaken(h, parent, c, x, Append(a, b), m, q);
    } else if x.Cons? {
      Taken(a, x, b);
      RootNotNull(m, x, a, b);
    }
  }

  /** The list without item `x`, as the roots of the trees. */
  lemma Taken(a: Forest, x: Forest, b: Forest)
    requires x.Cons? && x.rest.Nil?
    ensures var q := Roots(Append(a, Append(x, b)));
      && |Roots(a)| < |q| && q[|Roots(a)|] == x.ptr
      && q[..|Roots(a)|] + q[|Roots(a)| + 1..] == Roots(a) + Roots(b)
      && (a.Nil? ==> |Roots(a)| == 0 && q[1..] == Roots(a) + Roots(b))
  {
    NoRoots(a);
    hide Roots, Append;
    RootsAppend(a, Append(x, b));
    RootsAppend(x, b);
    SingleRoot(x);
    TakenAt(Roots(a), x.ptr, Roots(b));
  }

  lemma NoRoots(a: Forest)
    ensures a.Nil? ==> Roots(a) == []
  {
  }

  lemma TakenAt(a: seq<Ptr>, x: Ptr, b: seq<Ptr>)
    ensures var q := a + ([x] + b); |a| < |q| && q[|a|] == x && q[..|a|] == a && q[|a| + 1..] == b
  {
  }

  lemma {:induction false} SplicedOver(m: Mem, a: Forest, x: Forest, b: Forest, c: Forest)
    requires Owns(m, Append(a, Append(x, b))) && Owns(m, c)
    requires Nodes(Append(a, Append(x, b))) !! Nodes(c) && Strings(m, Append(a, Append(x, b))) !! Strings(m, c)
    ensures Owns(m, Append(a, Append(c, b))) && Owns(m, x)
    ensures Nodes(Append(a, Append(c, b))) !! Nodes(x) && Strings(m, Append(a, Append(c, b))) !! Strings(m, x)
    ensures Roots(Append(a, Append(c, b))) == Roots(a) + (Roots(c) + Roots(b))
    ensures forall p <- Roots(Append(a, Append(x, b))) + Roots(c) :: p !in Inner(Append(a, Append(c, b))) && p !in Inner(x)
  {
    hide Owns, Append;
    Removed(m, a, x, b);
    StringsAppend(m, x, b);
    StringsAppend(m, a, Append(x, b));
    StringsAppend(m, a, b);
    Spliced(m, a, b, c);
    StringsAppend(m, c, b);
    StringsAppend(m, a, Append(c, b));
    RootsAppend(a, b);
    RootsAppend(x, b);
    RootsAppend(a, Append(x, b));
    RootsDistinct(m, x);
    RootsDistinct(m, c);
    assert forall p <- Roots(c) :: p in Nodes(c);
    assert forall p <- Roots(x) :: p in Nodes(x) && p in (set r | r in Roots(x));
  }

  /** Replacing item `x` by the new item `c`: the parent owns `a`, `c` and `b`, and
      `x` is a tree of its own. */
  lemma {:induction false} ReplaceKeepsTree(m: Mem, m': Mem, parent: Ptr, a: Forest, x: Forest, b: Forest, c: Forest)
    requires parent in m.items && parent !in Nodes(Append(a, Append(x, b))) + Nodes(c) && x.Cons? && x.rest.Nil?
    requires Chain(m, m.items[parent].child, NULL, Append(a, Append(x, b)), NULL) && Owns(m, c)
    requires Nodes(Append(a, Append(x, b))) !! Nodes(c) && Strings(m, Append(a, Append(x, b))) !! Strings(m, c)
    requires Children(m', parent, Roots(a) + (Roots(c) + Roots(b)))
    requires Relinks(m, m', parent, Roots(Append(a, Append(x, b))) + Roots(c))
    requires x.ptr in m'.items && m'.items[x.ptr].next == NULL && m'.items[x.ptr].prev == NULL
    ensures var f := Append(a, Append(c, b));
      && Chain(m', m'.items[parent].child, NULL, f, NULL) && Chain(m', x.ptr, NULL, x, NULL)
      && Nodes(f) !! Nodes(x) && Strings(m', f) !! Strings(m', x) && Strings(m', x) == Strings(m, x)
      && Nodes(f) <= m.items.Keys && Nodes(f) <= m'.items.Keys && Value(m', f) == Value(m, f)
  {
    hide Chain, Relinks, Children, Value, Inner, Strings, Owns;
    var q, f := Roots(Append(a, Append(x, b))) + Roots(c), Append(a, Append(c, b));
    ChildrenAreOwned(m, parent, Append(a, Append(x, b)));
    SplicedOver(m, a, x, b, c);
    RelinkedTree(m, m', parent, q, f);
    OwnsRelinked(m, m', parent, q, f);
    OwnsRelinked(m, m', parent, q, x);
    OwnedAlone(m', x);
  }

  /** cJSON_ReplaceItemInArray. Past the end of the list nothing happens; else the
      new item takes the place of `x`, and `x` goes with all it owns. */
  method ReplaceItemInArray(h: Heap, parent: Ptr, which: int, ghost a: Forest, ghost x: Forest, ghost b: Forest, newitem: Ptr, ghost c: Forest)
    requires parent in h.mem.items && parent !in Nodes(Append(a, Append(x, b))) + Nodes(c)
    requires Chain(h.mem, h.mem.items[parent].child, NULL, Append(a, Append(x, b)), NULL)
    requires c.Cons? && c.rest.Nil? && c.ptr == newitem && Owns(h.mem, c)
    requires Nodes(Append(a, Append(x, b))) !! Nodes(c) && Strings(h.mem, Append(a, Append(x, b))) !! Strings(h.mem, c)
    requires if x.Nil? then b.Nil? && (which >= |Roots(a)| || a.Nil?)
             else x.rest.Nil? && (which == |Roots(a)| || (which < 0 && a.Nil?))
    modifies h
    ensures x.Nil? ==> h.mem == old(h.mem)
    ensures x.Cons? ==>
      && parent in h.mem.items && Chain(h.mem, h.mem.items[parent].child, NULL, Append(a, Append(c, b)), NULL)
      && Kept(old(h.mem), h.mem, Append(a, Append(c, b)), x)
  {
    hide Chain, Relinks, Children, Value, Strings, Owns, Texts, TextsLive;
    ghost var m := h.mem;
    ghost var q := Roots(Append(a, Append(x, b)));
    ChildrenAreOwned(m, parent, Append(a, Append(x, b)));
    RootsAppend(a, Append(x, b));
    OwnedRoot(m, c);
    var before := ReplaceLinks(h, parent, which, newitem, q);
    ghost var m1 := h.mem;
    if before != NULL {
      Placed(a, x, b, c);
      ReplaceKeepsTree(m, m1, parent, a, x, b, c);
      RelinksKeep(m, m1, parent, q + Roots(c));
      DeleteTaken(h, parent, before, x, Append(a, Append(c, b)), m, q + Roots(c));
    }
  }

  /** The list with item `x` replaced, as the roots of the trees. */
  lemma Placed(a: Forest, x: Forest, b: Forest, c: Forest)
    requires x.Cons? && x.rest.Nil? && c.Cons? && c.rest.Nil?
    ensures a.Nil? ==> Roots(a) == []
    ensures var q := Roots(Append(a, Append(x, b)));
      |Roots(a)| < |q| && q[|Roots(a)|] == x.ptr && q[|Roots(a)| := c.ptr] == Roots(a) + (Roots(c) + Roots(b)) && Roots(c) == [c.ptr]
  {
    NoRoots(a);
    hide Roots, Append;
    RootsAppend(a, Append(x, b));
    RootsAppend(x, b);
    SingleRoot(x);
    SingleRoot(c);
    UpdatedAt(Roots(a), x.ptr, Roots(b), c.ptr);
  }

  lemma SingleRoot(x: Forest)
    requires x.Cons? && x.rest.Nil?
    ensures Roots(x) == [x.ptr]
  {
    assert Roots(x.rest) == [];
  }

  lemma UpdatedAt(a: seq<Ptr>, x: Ptr, b: seq<Ptr>, c: Ptr)
    ensures var q := a + ([x] + b);
      |a| < |q| && q[|a|] == x && q[|a| := c] == a + ([c] + b)
  {
  }

  /** Deleting a tree that was taken out of the children of `parent` in `m` and
      shares nothing with those that are left. */
  method DeleteTaken(h: Heap, parent: Ptr, c: Ptr, ghost x: Forest, ghost f: Forest, ghost m: Mem, ghost touched: seq<Ptr>)
    requires parent in h.mem.items && Chain(h.mem, h.mem.items[parent].child, NULL, f, NULL) && Chain(h.mem, c, NULL, x, NULL)
    requires parent !in Nodes(x) + Nodes(f) && Nodes(f) !! Nodes(x) && Strings(h.mem, f) !! Strings(h.mem, x)
    requires Relinks(m, h.mem, parent, touched) && Strings(h.mem, x) == Strings(m, x)
    requires Nodes(f) <= m.items.Keys && Nodes(f) <= h.mem.items.Keys && Value(h.mem, f) == Value(m, f)
    modifies h
    ensures parent in h.mem.items && Chain(h.mem, h.mem.items[parent].child, NULL, f, NULL) && Kept(m, h.mem, f, x)
  {
    hide Chain, Strings, Value, Texts, TextsLive, Relinks;
    ghost var m1 := h.mem;
    ChainLive(m1, c, NULL, x, NULL);
    RelinksKeep(m, m1, parent, touched);
    TextsRelinked(m, m1, parent, touched, f);
    h.Delete(c, NULL, x);
    if TextsLive(m, f) {
      OthersSurvive(m1, x, m1.items[parent].child, NULL, f, NULL);
    }
    ChainLive(m1, m1.items[parent].child, NULL, f, NULL);
    ChainFrame(m1, h.mem, m1.items[parent].child, NULL, f, NULL);
  }

  /** Rewriting links leaves what a chain names as it is. */
  lemma {:induction false} TextsRelinked(m: Mem, m': Mem, parent: Ptr, touched: seq<Ptr>, f: Forest)
    requires Relinks(m, m', parent, touched) && parent !in Nodes(f) && Nodes(f) <= m.items.Keys
    ensures Nodes(f) <= m'.items.Keys && Texts(m', f) == Texts(m, f) && TextsLive(m', f) == TextsLive(m, f)
  {
    if f.Cons? {
      TextsRelinked(m, m', parent, touched, f.kids);
      TextsRelinked(m, m', parent, touched, f.rest);
    }
  }

  lemma OwnedRoot(m: Mem, c: Forest)
    requires Owns(m, c) && c.Cons?
    ensures c.ptr != NULL && c.ptr in m.items && c.ptr in Nodes(c)
  {
  }

  lemma RootNotNull(m: Mem, x: Forest, a: Forest, b: Forest)
    requires Owns(m, Append(a, Append(x, b))) && x.Cons?
    ensures x.ptr != NULL
  {
    OwnsAppend(m, a, Append(x, b));
    OwnsAppend(m, x, b);
  }

  lemma RelinksKeep(m: Mem, m': Mem, parent: Ptr, q: seq<Ptr>)
    requires Relinks(m, m', parent, q)
    ensures m'.strings == m.strings && m'.items.Keys == m.items.Keys
  {
  }
}
