/**
 Naming an item when it is added to an object, and what that does to memory: the
 flag for constant names decides whether the old name may be freed and whether the
 new one is ever freed.
 */
module Naming {
  import opened Wrappers
  import opened Memory
  import opened Chains
  import opened ChildList
  import opened TreeLists
  import opened Building
  import opened References

  /** The strings in memory that the tree does not own. */
  function Outside(m: Mem, f: Forest): map<Ptr, string> {
    m.strings - Strings(m, f)
  }

  /** Memory after the old name of the item was freed. */
  function Freed(m: Mem, item: Ptr): Mem
    requires item in m.items
  {
    Mem(m.items, m.strings - {m.items[item].name})
  }

  /** Memory after cJSON_AddItemToObject has named the item: the old name is freed,
      the new one is a copy at `q`; the flag stays as it is. */
  function Named(m: Mem, item: Ptr, q: Ptr, text: string): Mem
    requires item in m.items
  {
    var it := m.items[item];
    Mem(m.items[item := it.(name := q)], (m.strings - {it.name})[q := text])
  }

  /** Memory after cJSON_AddItemToObjectCS has named it: the old name is freed unless
      it is constant, and the caller's string at `q` becomes a constant name. */
  function NamedConst(m: Mem, item: Ptr, q: Ptr): Mem
    requires item in m.items
  {
    var it := m.items[item];
    Mem(m.items[item := it.(name := q, stringIsConst := true)], if it.stringIsConst then m.strings else m.strings - {it.name})
  }

  lemma OneNode(m: Mem, item: Ptr, kids: Forest)
    requires item in m.items
    ensures Strings(m, Cons(item, kids, Nil)) == OwnStrings(m.items[item]) + Strings(m, kids)
  {
    assert Strings(m, Nil) == {};
  }

  lemma {:induction false} SameStrings(m: Mem, m': Mem, f: Forest)
    requires Nodes(f) <= m.items.Keys && forall p :: p in Nodes(f) ==> p in m'.items && m'.items[p] == m.items[p]
    ensures Strings(m', f) == Strings(m, f)
  {
    if f.Cons? {
      SameStrings(m, m', f.kids);
      SameStrings(m, m', f.rest);
    }
  }

  /** The tree of one item, and the strings below it. */
  ghost predicate Single(m: Mem, item: Ptr, kids: Forest) {
    && item in m.items && Node(m, item, kids) && Nodes(kids) <= m.items.Keys
    && NULL !in m.strings && Strings(m, kids) <= m.strings.Keys
  }

  /**
   Naming an item leaves every string outside its tree alone, and leaves none behind
   that nobody owns, exactly when its flag says that its name is not constant. With
   the flag set, a name it had is freed although it belongs to somebody else.
   */
  lemma {:induction false} NamingConserves(m: Mem, item: Ptr, kids: Forest, q: Ptr, text: string)
    requires Single(m, item, kids) && q != NULL && q !in m.strings
    ensures var x, m' := Cons(item, kids, Nil), Named(m, item, q, text);
      && (Outside(m', x) == Outside(m, x) <==> !m.items[item].stringIsConst)
      && (m.items[item].stringIsConst ==> q in Outside(m', x))
      && (m.items[item].stringIsConst && m.items[item].name in Outside(m, x) ==> m.items[item].name !in m'.strings)
  {
    var it, m' := m.items[item], Named(m, item, q, text);
    OneNode(m, item, kids);
    OneNode(m', item, kids);
    SameStrings(m, m', kids);
    if !it.stringIsConst {
      FreshName(m, item, kids, q, text);
    } else {
      var x := Cons(item, kids, Nil);
      assert q in Outside(m', x) && q !in Outside(m, x);
    }
  }

  lemma FreshName(m: Mem, item: Ptr, kids: Forest, q: Ptr, text: string)
    requires Single(m, item, kids) && q != NULL && q !in m.strings && !m.items[item].stringIsConst
    requires Strings(Named(m, item, q, text), kids) == Strings(m, kids)
    ensures Outside(Named(m, item, q, text), Cons(item, kids, Nil)) == Outside(m, Cons(item, kids, Nil))
  {
    var it, m' := m.items[item], Named(m, item, q, text);
    OneNode(m, item, kids);
    OneNode(m', item, kids);
    var x := Cons(item, kids, Nil);
    assert OwnStrings(m'.items[item]) - {q} == OwnStrings(it) - {it.name};
    forall p | p in m.strings || p in m'.strings ensures p in Outside(m', x) <==> p in Outside(m, x) {
    }
    assert Outside(m', x).Keys == Outside(m, x).Keys;
  }

  /**
   The name is passed as an address, and copied after the old name was freed: from the
   place `at` of the string at `name`, if that string is still there.
   */
  function NamedFrom(m: Mem, item: Ptr, q: Ptr, name: Ptr, at: nat): Option<Mem>
    requires item in m.items
  {
    var f := Freed(m, item);
    if name in f.strings && at <= |f.strings[name]| then Some(Named(m, item, q, f.strings[name][at..])) else None
  }

  /** The copy is read from live memory, and all strings outside the tree are left
      alone, exactly when the flag is clear and the name is not inside the old one. */
  lemma NamingSucceedsExactly(m: Mem, item: Ptr, kids: Forest, q: Ptr, name: Ptr, at: nat)
    requires Single(m, item, kids) && q != NULL && q !in m.strings && name in m.strings && at <= |m.strings[name]|
    ensures var x, r := Cons(item, kids, Nil), NamedFrom(m, item, q, name, at); var it := m.items[item];
      && (r.Some? <==> name != it.name)
      && (r.Some? ==> r.value == Named(m, item, q, m.strings[name][at..]))
      && (r.Some? && Outside(r.value, x) == Outside(m, x) <==> !it.stringIsConst && name != it.name)
  {
    NamingConserves(m, item, kids, q, m.strings[name][at..]);
  }

  /** Naming an item with a constant name always leaves them alone; the name is there
      afterwards exactly when it is not the one that was freed. */
  lemma ConstNamingConserves(m: Mem, item: Ptr, kids: Forest, q: Ptr)
    requires Single(m, item, kids) && q in m.strings
    ensures var x, m' := Cons(item, kids, Nil), NamedConst(m, item, q);
      && Outside(m', x) == Outside(m, x)
      && (q in m'.strings <==> m.items[item].stringIsConst || q != m.items[item].name)
  {
    var it, m' := m.items[item], NamedConst(m, item, q);
    OneNode(m, item, kids);
    OneNode(m', item, kids);
    SameStrings(m, m', kids);
    var x := Cons(item, kids, Nil);
    assert Outside(m', x).Keys == Outside(m, x).Keys;
  }

  // ----- cJSON_AddItemToObject and cJSON_AddItemToObjectCS -----

  /**
   The part of cJSON_AddItemToObject that names the item. The copy goes to an address
   at which nothing lived before the old name was freed. `ok` is false where the C code
   copies from the string it has just freed.
   */
  method NameItem(h: Heap, item: Ptr, name: Ptr, at: nat) returns (ok: bool, q: Ptr)
    requires item in h.mem.items && (h.mem.items[item].name == NULL || h.mem.items[item].name in h.mem.strings)
    requires NULL !in h.mem.strings && name in h.mem.strings && at <= |h.mem.strings[name]|
    modifies h
    ensures q != NULL && q !in old(h.mem.strings) && (ok <==> name != old(h.mem.items[item].name))
    ensures h.mem == if ok then Named(old(h.mem), item, q, old(h.mem.strings[name])[at..]) else Freed(old(h.mem), item)
  {
    q := h.Unused();
    var it := h.mem.items[item];
    if it.name != NULL {
      h.FreeString(it.name);
    }
    ok := name in h.mem.strings;
    if ok {
      h.mem := Mem(h.mem.items[item := it.(name := q)], h.mem.strings[q := h.mem.strings[name][at..]]);
    }
  }

  /** The part of cJSON_AddItemToObjectCS that names it. */
  method NameItemConst(h: Heap, item: Ptr, name: Ptr)
    requires item in h.mem.items && (h.mem.items[item].name == NULL || h.mem.items[item].name in h.mem.strings)
    requires NULL !in h.mem.strings
    modifies h
    ensures h.mem == NamedConst(old(h.mem), item, name)
  {
    var it := h.mem.items[item];
    if !it.stringIsConst && it.name != NULL {
      h.FreeString(it.name);
    }
    h.mem := Mem(h.mem.items[item := it.(name := name, stringIsConst := true)], h.mem.strings);
  }

  /** A parent that owns the chain `f`, and an unlinked item, apart from it, that owns the chain `kids`. */
  ghost predicate Addable(m: Mem, parent: Ptr, f: Forest, item: Ptr, kids: Forest) {
    var x := Cons(item, kids, Nil);
    && parent in m.items && Chain(m, m.items[parent].child, NULL, f, NULL) && Nodes(f) <= m.items.Keys
    && item != NULL && Single(m, item, kids) && m.items[item].next == NULL && m.items[item].prev == NULL
    && (m.items[item].name == NULL || m.items[item].name in m.strings)
    && parent !in Nodes(f) + Nodes(x) && Nodes(f) !! Nodes(x) && Strings(m, f) !! Strings(m, x)
    && Strings(m, f) <= m.strings.Keys
  }

  /** From `m` to `m1` only the name of the item and its flag were written. */
  ghost predicate Renames(m: Mem, m1: Mem, item: Ptr) {
    && item in m.items && item in m1.items
    && m1.items == m.items[item := m.items[item].(name := m1.items[item].name, stringIsConst := m1.items[item].stringIsConst)]
  }

  /** An item that owns what is left of its strings is still the root of a tree. */
  lemma {:induction false} RenamedOwns(m: Mem, m1: Mem, item: Ptr, kids: Forest)
    requires Single(m, item, kids) && item != NULL && Renames(m, m1, item) && StringsLive(m1, m1.items[item])
    requires Strings(m, kids) <= m1.strings.Keys && OwnStrings(m1.items[item]) !! Strings(m, kids)
    ensures Owns(m1, Cons(item, kids, Nil))
  {
    hide Chain, OwnStrings, StringsLive;
    SameStrings(m, m1, kids);
    if !m.items[item].isReference {
      ChainFrame(m, m1, m.items[item].child, NULL, kids, NULL);
    }
    assert Node(m1, item, kids);
    assert Nodes(Nil) == {} && Strings(m1, Nil) == {} && Owns(m1, Nil);
  }

  lemma NamedOwns(m: Mem, item: Ptr, kids: Forest, q: Ptr, text: string)
    requires Single(m, item, kids) && item != NULL && q != NULL && q !in m.strings && !m.items[item].stringIsConst
    ensures var x, m1 := Cons(item, kids, Nil), Named(m, item, q, text);
      Owns(m1, x) && Strings(m1, x) <= Strings(m, x) + {q}
  {
    hide Chain, Owns;
    var m1 := Named(m, item, q, text);
    RenamedOwns(m, m1, item, kids);
    SameStrings(m, m1, kids);
    OneNode(m, item, kids);
    OneNode(m1, item, kids);
  }

  lemma NamedConstOwns(m: Mem, item: Ptr, kids: Forest, q: Ptr)
    requires Single(m, item, kids) && item != NULL
    ensures Owns(NamedConst(m, item, q), Cons(item, kids, Nil))
  {
    hide Chain, Owns;
    RenamedOwns(m, NamedConst(m, item, q), item, kids);
  }

  /** Naming touches no link. */
  lemma RenamedLinks(m: Mem, m1: Mem, parent: Ptr, roots: seq<Ptr>, item: Ptr)
    requires Renames(m, m1, item) && Children(m, parent, roots)
    ensures Children(m1, parent, roots)
  {
    forall i | 0 <= i < |roots| ensures InPlace(m1, roots, i) {
      assert InPlace(m, roots, i);
    }
  }

  lemma {:induction false} RenamedChildren(m: Mem, m1: Mem, parent: Ptr, f: Forest, item: Ptr, kids: Forest)
    requires Addable(m, parent, f, item, kids) && Renames(m, m1, item)
    ensures Children(m1, parent, Roots(f)) && Linked(m1, [item]) && parent !in [item]
    ensures forall i, j :: 0 <= i < |Roots(f)| && 0 <= j < |[item]| ==> Roots(f)[i] != [item][j]
  {
    hide Chain, Owns, Strings, Children, Node;
    ChildrenAreOwned(m, parent, f);
    RenamedLinks(m, m1, parent, Roots(f), item);
    assert forall p <- Roots(f) :: p in Nodes(f);
    assert InPlace(m1, [item], 0);
  }

  lemma {:induction false} StringsRelinked(m: Mem, m': Mem, parent: Ptr, touched: seq<Ptr>, f: Forest)
    requires Relinks(m, m', parent, touched) && parent !in Nodes(f) && Nodes(f) <= m.items.Keys
    ensures Nodes(f) <= m'.items.Keys && Strings(m', f) == Strings(m, f)
  {
    if f.Cons? {
      StringsRelinked(m, m', parent, touched, f.kids);
      StringsRelinked(m, m', parent, touched, f.rest);
    }
  }

  /**
   cJSON_AddItemToObject: the item is renamed and linked last, unless its new name is
   inside the old one, which the C code frees before it copies. Strings that neither
   the parent's children nor the item own are as before exactly when the item's name
   is not flagged as constant; then the parent owns one list with the item at its end.
   */
  method AddItemToObject(h: Heap, parent: Ptr, name: Ptr, at: nat, item: Ptr, ghost f: Forest, ghost kids: Forest)
    returns (ok: bool, ghost q: Ptr)
    requires item != NULL ==> Addable(h.mem, parent, f, item, kids) && name in h.mem.strings && at <= |h.mem.strings[name]|
    modifies h
    ensures item == NULL ==> ok && h.mem == old(h.mem)
    ensures item != NULL ==> (ok <==> name != old(h.mem.items[item].name)) && (!ok ==> h.mem == Freed(old(h.mem), item))
    ensures item != NULL && ok ==>
      && q != NULL && q !in old(h.mem.strings) && parent in h.mem.items
      && Children(h.mem, parent, Roots(f) + [item])
      && Relinks(Named(old(h.mem), item, q, old(h.mem.strings[name])[at..]), h.mem, parent, Roots(f) + [item])
    ensures item != NULL && ok ==>
      && item in h.mem.items && h.mem.items[item].name == q
      && q in h.mem.strings && h.mem.strings[q] == old(h.mem.strings[name])[at..]
      && h.mem.items[item].stringIsConst == old(h.mem.items[item].stringIsConst)
    ensures item != NULL && ok ==>
      var g := Append(f, Cons(item, kids, Nil));
      && (Outside(h.mem, g) == Outside(old(h.mem), g) <==> !old(h.mem.items[item].stringIsConst))
      && (!old(h.mem.items[item].stringIsConst) ==> Chain(h.mem, h.mem.items[parent].child, NULL, g, NULL))
  {
    if item == NULL {
      return true, NULL;
    }
    hide Chain, Relinks, Children, Owns, Roots, Linked;
    ghost var m, text := h.mem, h.mem.strings[name][at..];
    var copy;
    ok, copy := NameItem(h, item, name, at);
    q := copy;
    if ok {
      ghost var m1 := h.mem;
      RenamedChildren(m, m1, parent, f, item, kids);
      AddItemToArray(h, parent, item, Roots(f), [item]);
      RelinksKeep(m1, h.mem, parent, Roots(f) + [item]);
      NameKept(m1, h.mem, parent, Roots(f) + [item], item);
      NamedConserves(m, m1, h.mem, parent, f, item, kids, q, text);
      if !m.items[item].stringIsConst {
        NamedOwns(m, item, kids, q, text);
        RenamedOwned(m, m1, h.mem, parent, f, item, kids);
      }
    }
  }

  /** cJSON_AddItemToObjectCS: the same with the caller's string as a constant name. Other
      strings are always as before, and the parent owns one list with the item at its end. */
  method AddItemToObjectCS(h: Heap, parent: Ptr, name: Ptr, item: Ptr, ghost f: Forest, ghost kids: Forest)
    requires item != NULL ==> Addable(h.mem, parent, f, item, kids) && name in h.mem.strings
    modifies h
    ensures item == NULL ==> h.mem == old(h.mem)
    ensures item != NULL ==>
      && parent in h.mem.items && Children(h.mem, parent, Roots(f) + [item])
      && Relinks(NamedConst(old(h.mem), item, name), h.mem, parent, Roots(f) + [item])
    ensures item != NULL ==>
      item in h.mem.items && h.mem.items[item].name == name && h.mem.items[item].stringIsConst
    ensures item != NULL ==>
      var g := Append(f, Cons(item, kids, Nil));
      Outside(h.mem, g) == Outside(old(h.mem), g) && Chain(h.mem, h.mem.items[parent].child, NULL, g, NULL)
  {
    if item == NULL {
      return;
    }
    hide Chain, Relinks, Children, Owns, Roots, Linked;
    ghost var m := h.mem;
    NameItemConst(h, item, name);
    ghost var m1 := h.mem;
    RenamedChildren(m, m1, parent, f, item, kids);
    AddItemToArray(h, parent, item, Roots(f), [item]);
    RelinksKeep(m1, h.mem, parent, Roots(f) + [item]);
    NameKept(m1, h.mem, parent, Roots(f) + [item], item);
    ConstNamingConserves(m, item, kids, name);
    OutsideAdded(m, m1, h.mem, parent, f, item, kids);
    NamedConstOwns(m, item, kids, name);
    RenamedOwned(m, m1, h.mem, parent, f, item, kids);
  }

  lemma NameKept(m: Mem, m': Mem, parent: Ptr, touched: seq<Ptr>, item: Ptr)
    requires Relinks(m, m', parent, touched) && item in m.items
    ensures item in m'.items && m'.items[item].name == m.items[item].name && m'.items[item].stringIsConst == m.items[item].stringIsConst
  {
  }

  /** What neither the list nor the item owns, from what the item does not own. */
  lemma {:induction false} OutsideAdded(m: Mem, m1: Mem, m2: Mem, parent: Ptr, f: Forest, item: Ptr, kids: Forest)
    requires Addable(m, parent, f, item, kids) && Renames(m, m1, item) && Relinks(m1, m2, parent, Roots(f) + [item])
    ensures var x := Cons(item, kids, Nil);
      && Outside(m, Append(f, x)) == Outside(m, x) - Strings(m, f)
      && Outside(m2, Append(f, x)) == Outside(m1, x) - Strings(m, f)
  {
    hide Chain, Relinks, Roots;
    var x := Cons(item, kids, Nil);
    SameStrings(m, m1, f);
    assert Nodes(Nil) == {};
    StringsRelinked(m1, m2, parent, Roots(f) + [item], Append(f, x));
    RelinksKeep(m1, m2, parent, Roots(f) + [item]);
    OutsideBoth(m, f, x);
    OutsideBoth(m1, f, x);
  }

  lemma {:induction false} NamedConserves(m: Mem, m1: Mem, m2: Mem, parent: Ptr, f: Forest, item: Ptr, kids: Forest, q: Ptr, text: string)
    requires Addable(m, parent, f, item, kids) && q != NULL && q !in m.strings && m1 == Named(m, item, q, text)
    requires Relinks(m1, m2, parent, Roots(f) + [item])
    ensures var g := Append(f, Cons(item, kids, Nil));
      Outside(m2, g) == Outside(m, g) <==> !m.items[item].stringIsConst
  {
    hide Chain, Relinks, Roots, Strings;
    var x := Cons(item, kids, Nil);
    NamingConserves(m, item, kids, q, text);
    OutsideAdded(m, m1, m2, parent, f, item, kids);
    if m.items[item].stringIsConst {
      assert q in Outside(m2, Append(f, x)) && q !in Outside(m, Append(f, x));
    }
  }

  lemma OutsideBoth(m: Mem, f: Forest, x: Forest)
    ensures Outside(m, Append(f, x)) == Outside(m, x) - Strings(m, f)
  {
    StringsAppend(m, f, x);
  }

  /** The renamed item linked last: the parent owns its children and then the item. */
  lemma {:induction false} RenamedOwned(m: Mem, m1: Mem, m2: Mem, parent: Ptr, f: Forest, item: Ptr, kids: Forest)
    requires Addable(m, parent, f, item, kids) && Renames(m, m1, item) && Owns(m1, Cons(item, kids, Nil))
    requires Strings(m, f) <= m1.strings.Keys && Strings(m, f) !! Strings(m1, Cons(item, kids, Nil))
    requires Relinks(m1, m2, parent, Roots(f) + [item]) && Children(m2, parent, Roots(f) + [item])
    ensures Chain(m2, m2.items[parent].child, NULL, Append(f, Cons(item, kids, Nil)), NULL)
  {
    hide Chain, Relinks, Owns, Children, Value, Strings, Append;
    var x := Cons(item, kids, Nil);
    SameStrings(m, m1, f);
    ChainFrame(m, m1, m.items[parent].child, NULL, f, NULL);
    SingleRoot(x);
    AppendKeepsTree(m1, m2, parent, f, x);
  }

  // ----- cJSON_AddItemReferenceToObject -----

  /** A reference takes the flag of the item it was made from. Named like any item, it
      can be deleted without a trace exactly when that item's name was not constant. */
  lemma NamedReference(m: Mem, item: Ptr, r: Ptr, q: Ptr, text: string)
    requires item in m.items && r != NULL && r !in m.items && q != NULL && q !in m.strings && NULL !in m.strings
    ensures var it := m.items[item];
      var made := Mem(m.items[r := it.(name := NULL, isReference := true, next := NULL, prev := NULL)], m.strings);
      Deleted(Named(made, r, q, text), Cons(r, Nil, Nil)) == m <==> !it.stringIsConst
  {
    var it := m.items[item];
    var made := Mem(m.items[r := it.(name := NULL, isReference := true, next := NULL, prev := NULL)], m.strings);
    var named := Named(made, r, q, text);
    OneNode(named, r, Nil);
    assert Nodes(Cons(r, Nil, Nil)) == {r} && Strings(named, Nil) == {};
    var d := Deleted(named, Cons(r, Nil, Nil));
    assert d.items == m.items;
    if it.stringIsConst {
      assert q in d.strings;
    } else {
      assert d.strings == m.strings;
    }
  }

  /** cJSON_AddItemReferenceToObject: the reference is made, named and linked last. Strings
      that the list does not own are as before exactly when the item's name is not flagged.
      A reference has no old name, so the new one may be the item's own. */
  method AddItemReferenceToObject(h: Heap, parent: Ptr, name: Ptr, at: nat, item: Ptr, ghost f: Forest, ghost t: Trees)
    returns (ghost r: Ptr, ghost q: Ptr)
    requires t.Tree? && Holds(h.mem, item, t) && NULL !in h.mem.strings
    requires name in h.mem.strings && at <= |h.mem.strings[name]|
    requires parent in h.mem.items && parent !in Nodes(f) && Chain(h.mem, h.mem.items[parent].child, NULL, f, NULL)
    modifies h
    ensures r != NULL && r !in old(h.mem.items) && parent in h.mem.items
    ensures Children(h.mem, parent, Roots(f) + [r])
    ensures Outside(h.mem, Append(f, Cons(r, Nil, Nil))) == Outside(old(h.mem), f) <==> !t.constName
    ensures !t.constName ==> Chain(h.mem, h.mem.items[parent].child, NULL, Append(f, Cons(r, Nil, Nil)), NULL)
  {
    hide Chain, Relinks, Children, Owns, Roots, Linked;
    ghost var m := h.mem;
    ChainLive(m, m.items[parent].child, NULL, f, NULL);
    var made := CreateReference(h, item, t);
    r := made;
    ReferenceAddable(m, h.mem, parent, f, r);
    var ok;
    ok, q := AddItemToObject(h, parent, name, at, made, f, Nil);
  }

  /** A new reference owns nothing yet. */
  lemma {:induction false} ReferenceAddable(m: Mem, m1: Mem, parent: Ptr, f: Forest, r: Ptr)
    requires NULL !in m.strings && r != NULL && r !in m.items && r in m1.items
    requires m1 == Mem(m.items[r := m1.items[r]], m.strings)
    requires m1.items[r].isReference && m1.items[r].name == NULL && m1.items[r].next == NULL && m1.items[r].prev == NULL
    requires parent in m.items && parent !in Nodes(f) && Chain(m, m.items[parent].child, NULL, f, NULL)
    ensures Addable(m1, parent, f, r, Nil)
    ensures Outside(m1, Append(f, Cons(r, Nil, Nil))) == Outside(m, f)
  {
    hide Chain;
    ChainLive(m, m.items[parent].child, NULL, f, NULL);
    ChainFrame(m, m1, m.items[parent].child, NULL, f, NULL);
    assert Nodes(Nil) == {} && Strings(m1, Nil) == {};
    assert OwnStrings(m1.items[r]) == {};
    OneNode(m1, r, Nil);
    assert Node(m1, r, Nil);
    StringsAppend(m1, f, Cons(r, Nil, Nil));
  }

  /** An empty parent and an unlinked item that own no string. */
  ghost predicate Bare(m: Mem, parent: Ptr, item: Ptr) {
    && parent in m.items && item in m.items && parent != item && item != NULL && NULL !in m.strings
    && m.items[parent].child == NULL && OwnStrings(m.items[parent]) == {} && OwnStrings(m.items[item]) == {}
    && var it := m.items[item];
    && it.child == NULL && it.next == NULL && it.prev == NULL && !it.isReference && it.valueString == NULL
    && (it.name == NULL || it.name in m.strings)
  }

  lemma BareAddable(m: Mem, parent: Ptr, item: Ptr)
    requires Bare(m, parent, item)
    ensures Addable(m, parent, Nil, item, Nil) && Roots(Nil) + [item] == [item]
  {
    assert Nodes(Nil) == {} && Strings(m, Nil) == {};
    assert Node(m, item, Nil);
    OneNode(m, item, Nil);
  }

  lemma BareAgain(m: Mem, m1: Mem, m2: Mem, parent: Ptr, item: Ptr, a: Ptr)
    requires Bare(m, parent, item) && a in m.strings
    requires Relinks(NamedConst(m, item, a), m1, parent, [item]) && Relinks(m1, m2, parent, [item])
    requires Children(m2, parent, []) && m2.items[item].next == NULL && m2.items[item].prev == NULL
    requires m.items[item].name == NULL
    ensures Bare(m2, parent, item) && m2.items[item].name == a && m2.items[item].stringIsConst
    ensures m2.strings == m.strings
  {
    assert m.strings - {NULL} == m.strings;
    assert m2.items[parent].child == NULL;
  }

  /** An item added with the constant name `a`, taken out, and named `b`: the string
      `a`, which nobody in the two trees ever owned, is freed. */
  method NameTwice(h: Heap, parent: Ptr, item: Ptr, a: Ptr, b: Ptr)
    requires Bare(h.mem, parent, item) && h.mem.items[item].name == NULL
    requires a in h.mem.strings && b in h.mem.strings && a != b
    modifies h
    ensures a !in h.mem.strings
  {
    hide Bare, Addable, Chain, Outside;
    ghost var m := h.mem;
    BareAddable(m, parent, item);
    AddItemToObjectCS(h, parent, a, item, Nil, Nil);
    ghost var m1 := h.mem;
    var taken := DetachItemFromArray(h, parent, 0, [item]);
    BareAgain(m, m1, h.mem, parent, item, a);
    BareAddable(h.mem, parent, item);
    ghost var m2 := h.mem;
    var ok, q := AddItemToObject(h, parent, b, 0, item, Nil, Nil);
    RelinksKeep(Named(m2, item, q, m2.strings[b][0..]), h.mem, parent, [item]);
  }

  /** Such a memory. */
  method ConstantNameFreed(h: Heap) returns (ghost before: Mem)
    modifies h
    ensures Bare(before, 1, 2) && before.strings == map[3 := "a", 4 := "b"] && 3 !in h.mem.strings
  {
    h.mem := Mem(map[1 := ZEROED.(kind := Kind.Object), 2 := ZEROED.(kind := Kind.Null)], map[3 := "a", 4 := "b"]);
    before := h.mem;
    NameTwice(h, 1, 2, 3, 4);
  }
}
