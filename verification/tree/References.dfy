/**
 References and duplicates at the end of their lives: what deleting them frees and
 what it leaves alive.
 */
module References {
  import opened Memory
  import opened Chains
  import opened Building
  import D = Duplicate

  /** create_reference: a node that shows the children and the value string of
      `item` and owns neither. */
  method CreateReference(h: Heap, item: Ptr, ghost t: Trees) returns (r: Ptr)
    requires t.Tree? && Holds(h.mem, item, t)
    modifies h
    ensures r != NULL && r !in old(h.mem.items) && r in h.mem.items
    ensures h.mem == Mem(old(h.mem.items)[r := h.mem.items[r]], old(h.mem.strings))
    ensures Chain(h.mem, r, NULL, Cons(r, Nil, Nil), NULL) && Strings(h.mem, Cons(r, Nil, Nil)) == {}
    ensures Holds(h.mem, r, t.(name := Absent, rest := NoTree))
    ensures var it := old(h.mem.items[item]);
      h.mem.items[r] == it.(name := NULL, isReference := true, next := NULL, prev := NULL)
  {
    ghost var m := h.mem;
    r := h.NewItem();
    var it := h.mem.items[item];
    h.mem := Mem(h.mem.items[r := it.(name := NULL, isReference := true, next := NULL, prev := NULL)], h.mem.strings);
    assert Extends(m, h.mem, {});
    HoldsExtends(m, h.mem, it.child, t.kids);
    ReferenceAlone(h.mem, r);
  }

  /** A reference without a name owns nothing but its own node. */
  lemma ReferenceAlone(m: Mem, r: Ptr)
    requires r != NULL && r in m.items && m.items[r].isReference && m.items[r].name == NULL
    requires m.items[r].next == NULL && m.items[r].prev == NULL
    ensures Chain(m, r, NULL, Cons(r, Nil, Nil), NULL) && Strings(m, Cons(r, Nil, Nil)) == {}
    ensures Nodes(Cons(r, Nil, Nil)) == {r}
  {
    assert Strings(m, Nil) == {} && Nodes(Nil) == {};
    assert Chain(m, NULL, r, Nil, NULL);
    assert OwnStrings(m.items[r]) == {};
    assert Node(m, r, Nil);
  }

  /** Memory after cJSON_Delete of the chain `f`, by its contract. */
  function Deleted(m: Mem, f: Forest): Mem {
    Mem(m.items - Nodes(f), m.strings - Strings(m, f))
  }

  /**
   Deleting one tree, with any references in it, leaves another one whole: what the
   references point at keeps its children and its strings. It reads as before exactly
   when nothing in it names a string of the deleted tree.
   */
  lemma OthersSurvive(m: Mem, f: Forest, p: Ptr, prev: Ptr, g: Forest, end: Ptr)
    requires Chain(m, p, prev, g, end) && Nodes(f) !! Nodes(g) && Nodes(g) <= m.items.Keys
    requires Strings(m, f) <= m.strings.Keys && Strings(m, f) !! Strings(m, g) && TextsLive(m, g)
    ensures Chain(Deleted(m, f), p, prev, g, end) && Nodes(g) <= Deleted(m, f).items.Keys
    ensures Value(Deleted(m, f), g) == Value(m, g) <==> Texts(m, g) !! Strings(m, f)
  {
    hide Chain, Strings;
    ChainLive(m, p, prev, g, end);
    ChainFrame(m, Deleted(m, f), p, prev, g, end);
    OwnsNoNull(m, f);
    ValueKept(m, Deleted(m, f), g, Strings(m, f));
  }

  lemma {:induction false} OwnsNoNull(m: Mem, f: Forest)
    ensures NULL !in Strings(m, f)
  {
    if f.Cons? {
      OwnsNoNull(m, f.kids);
      OwnsNoNull(m, f.rest);
    }
  }

  /** Every string that a node of the chain names, owned or not. */
  function Texts(m: Mem, f: Forest): set<Ptr>
    requires Nodes(f) <= m.items.Keys
  {
    if f.Nil? then {} else {m.items[f.ptr].valueString, m.items[f.ptr].name} + Texts(m, f.kids) + Texts(m, f.rest)
  }

  /** With the strings `gone` freed, a chain reads the same exactly when it names none of them. */
  lemma {:induction false} ValueKept(m: Mem, m': Mem, f: Forest, gone: set<Ptr>)
    requires Nodes(f) <= m.items.Keys && forall q :: q in Nodes(f) ==> q in m'.items && m'.items[q] == m.items[q]
    requires TextsLive(m, f) && m'.strings == m.strings - gone && NULL !in gone && gone <= m.strings.Keys
    ensures Value(m', f) == Value(m, f) <==> Texts(m, f) !! gone
  {
    if f.Cons? {
      ValueKept(m, m', f.kids, gone);
      ValueKept(m, m', f.rest, gone);
      TextKept(m, m', m.items[f.ptr].valueString, gone);
      TextKept(m, m', m.items[f.ptr].name, gone);
    }
  }

  lemma TextKept(m: Mem, m': Mem, p: Ptr, gone: set<Ptr>)
    requires p == NULL || p in m.strings
    requires m'.strings == m.strings - gone && NULL !in gone
    ensures TextAt(m', p) == TextAt(m, p) <==> p !in gone
  {
  }

  // ----- deleting a duplicate -----

  /** Some node has a name that is flagged as constant. */
  predicate NamesConst(t: Trees) {
    t.Tree? && ((t.constName && t.name.Present?) || NamesConst(t.kids) || NamesConst(t.rest))
  }

  lemma {:induction false} ConstNamesSeen(m: Mem, f: Forest)
    requires Nodes(f) <= m.items.Keys && TextsLive(m, f)
    ensures ConstNames(m, f) != {} <==> NamesConst(Value(m, f))
  {
    if f.Cons? {
      ConstNamesSeen(m, f.kids);
      ConstNamesSeen(m, f.rest);
    }
  }

  /**
   Deleting what was built gives memory back as it was before, exactly when no node
   of it carries a constant name: a duplicate copies such a name but keeps the flag
   that says not to free it.
   */
  lemma DeletingRestores(m0: Mem, m: Mem, f: Forest, p: Ptr)
    requires Built(m0, m, f, p, NULL, {})
    ensures Deleted(m, f) == m0 <==> !NamesConst(Value(m, f))
  {
    hide Chain, NoReference, TextsLive, Value, ConstNames, Strings;
    ConstNamesSeen(m, f);
    var d := Deleted(m, f);
    assert d.items == m0.items;
    assert d.strings.Keys == m0.strings.Keys + ConstNames(m, f);
    if ConstNames(m, f) == {} {
      assert d.strings == m0.strings;
    }
  }

  /** Duplicating a tree and deleting the duplicate gives memory back, exactly when
      no node that is copied has a constant name; otherwise strings stay behind. */
  method DuplicateAndDelete(h: Heap, item: Ptr, recurse: bool, ghost t: Trees)
    requires t.Tree? && Holds(h.mem, item, t)
    modifies h
    ensures h.mem == old(h.mem) <==> !NamesConst(D.Copied(t, recurse))
    ensures h.mem.items == old(h.mem.items) && old(h.mem.strings.Keys) <= h.mem.strings.Keys
    ensures NamesConst(D.Copied(t, recurse)) ==> old(h.mem.strings.Keys) < h.mem.strings.Keys
  {
    hide Chain, NoReference, TextsLive, Value, NamesConst, ConstNames;
    var c, f := D.Duplicate(h, item, recurse, t);
    ghost var m := h.mem;
    DeletingRestores(old(h.mem), m, f, c);
    DeletedKeeps(old(h.mem), m, f, c);
    h.Delete(c, NULL, f);
  }

  lemma DeletedKeeps(m0: Mem, m: Mem, f: Forest, p: Ptr)
    requires Built(m0, m, f, p, NULL, {})
    ensures Deleted(m, f).items == m0.items && m0.strings.Keys <= Deleted(m, f).strings.Keys
    ensures Deleted(m, f).strings.Keys == m0.strings.Keys ==> Deleted(m, f) == m0
  {
    hide Chain, NoReference, TextsLive, Value, ConstNames, Strings;
    var d := Deleted(m, f);
    if d.strings.Keys == m0.strings.Keys {
      assert d.strings == m0.strings;
    }
  }

  /** One item with a constant name: its duplicate leaves a copy of the name behind. */
  method ConstantNameStays(h: Heap) returns (ghost before: Mem)
    modifies h
    ensures Holds(before, 1, Tree(Kind.Null, 0.0, Absent, Present("a"), true, NoTree, NoTree))
    ensures h.mem.items == before.items && before.strings.Keys < h.mem.strings.Keys
  {
    h.mem := Mem(map[1 := ZEROED.(kind := Kind.Null, stringIsConst := true, name := 2)], map[2 := "a"]);
    before := h.mem;
    DuplicateAndDelete(h, 1, true, Tree(Kind.Null, 0.0, Absent, Present("a"), true, NoTree, NoTree));
  }
}
