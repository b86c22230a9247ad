/**
 The child list of an array or object, as the sequence of the addresses of its
 items. Each operation rewrites links in place and is the matching operation on the
 sequence.
 */
module ChildList {
  import opened Memory
  import opened Chains

  /** Item `i` of a list, NULL past either end. */
  function Ith(q: seq<Ptr>, i: int): Ptr {
    if 0 <= i < |q| then q[i] else NULL
  }

  /** `next` and `prev` of every item, mutually inverse, and no item twice. */
  ghost predicate Linked(m: Mem, q: seq<Ptr>) {
    && (forall i :: 0 <= i < |q| ==> InPlace(m, q, i))
    && (forall i, j :: 0 <= i < j < |q| ==> q[i] != q[j])
  }

  ghost predicate InPlace(m: Mem, q: seq<Ptr>, i: nat)
    requires i < |q|
  {
    q[i] != NULL && q[i] in m.items && m.items[q[i]].next == Ith(q, i + 1) && m.items[q[i]].prev == Ith(q, i - 1)
  }

  /** The children of `parent` are the items `q`. */
  ghost predicate Children(m: Mem, parent: Ptr, q: seq<Ptr>) {
    Linked(m, q) && parent in m.items && parent !in q && m.items[parent].child == Ith(q, 0)
  }

  /** Only links were written, only those of `touched`, and the child of `parent`. */
  ghost predicate Relinks(m: Mem, m': Mem, parent: Ptr, touched: seq<Ptr>) {
    && m'.strings == m.strings && m'.items.Keys == m.items.Keys
    && forall p :: p in m.items ==>
         && (p != parent && p !in touched ==> m'.items[p] == m.items[p])
         && (p != parent ==> SamePayload(m.items[p], m'.items[p]))
         && (p == parent ==> SamePayload(m.items[p].(child := m'.items[p].child), m'.items[p]))
  }

  /** The walk that all operations start with: to the item asked for, or to NULL past the
      end. A negative index asks for the first item. */
  method Walk(h: Heap, parent: Ptr, which: int, ghost q: seq<Ptr>) returns (c: Ptr)
    requires Children(h.mem, parent, q)
    ensures 0 <= which < |q| ==> c == q[which]
    ensures which < 0 ==> c == if q == [] then NULL else q[0]
    ensures which >= |q| ==> c == NULL
  {
    c := h.mem.items[parent].child;
    var left := which;
    ghost var i := 0;
    while c != NULL && left > 0
      invariant 0 <= i && c == Ith(q, i) && (if which > 0 then left == which - i >= 0 else i == 0 && left == which)
      decreases |q| - i
    {
      assert InPlace(h.mem, q, i);
      c := h.mem.items[c].next;
      left, i := left - 1, i + 1;
    }
    assert i < |q| ==> InPlace(h.mem, q, i);
  }

  // ----- cJSON_AddItemToArray -----

  /** The walk to the last item. */
  method WalkToLast(h: Heap, parent: Ptr, ghost q: seq<Ptr>) returns (c: Ptr)
    requires Children(h.mem, parent, q) && q != []
    ensures c == q[|q| - 1]
  {
    c := h.mem.items[parent].child;
    ghost var i := 0;
    assert InPlace(h.mem, q, 0);
    while h.mem.items[c].next != NULL
      invariant 0 <= i < |q| && c == q[i] && c in h.mem.items
      decreases |q| - i
    {
      assert InPlace(h.mem, q, i);
      assert i + 1 < |q| ==> InPlace(h.mem, q, i + 1);
      c := h.mem.items[c].next;
      i := i + 1;
    }
    assert InPlace(h.mem, q, i);
    assert i + 1 < |q| ==> InPlace(h.mem, q, i + 1);
  }

  lemma {:induction false} Appended(m: Mem, m': Mem, parent: Ptr, q: seq<Ptr>, r: seq<Ptr>)
    requires Children(m, parent, q) && Linked(m, r) && q != [] && r != [] && parent !in r
    requires forall i, j :: 0 <= i < |q| && 0 <= j < |r| ==> q[i] != r[j]
    requires m'.items.Keys == m.items.Keys && InPlace(m, q, |q| - 1) && InPlace(m, r, 0)
    requires m'.items[q[|q| - 1]] == m.items[q[|q| - 1]].(next := r[0]) && m'.items[r[0]] == m.items[r[0]].(prev := q[|q| - 1])
    requires forall p :: p in m.items && p != q[|q| - 1] && p != r[0] ==> m'.items[p] == m.items[p]
    ensures Children(m', parent, q + r)
  {
    var s := q + r;
    forall i | 0 <= i < |s| ensures InPlace(m', s, i) {
      if i < |q| {
        assert InPlace(m, q, i);
      } else {
        assert InPlace(m, r, i - |q|);
      }
    }
  }

  lemma ChildSet(m: Mem, m': Mem, parent: Ptr, r: seq<Ptr>)
    requires Linked(m, r) && parent in m.items && parent !in r
    requires m' == Mem(m.items[parent := m.items[parent].(child := Ith(r, 0))], m.strings)
    ensures Children(m', parent, r)
  {
    forall i | 0 <= i < |r| ensures InPlace(m', r, i) {
      assert InPlace(m, r, i);
    }
  }

  lemma RelinksTwo(m: Mem, m': Mem, parent: Ptr, a: Ptr, b: Ptr, touched: seq<Ptr>)
    requires a in m.items && b in m.items && a != parent && b != parent && a in touched && b in touched
    requires m' == Mem(m.items[a := m.items[a].(next := b)], m.strings)
    ensures b in m'.items
    ensures Relinks(m, Mem(m'.items[b := m'.items[b].(prev := a)], m.strings), parent, touched)
  {
  }

  /** Appends `item`, and whatever follows it in its own chain, to the list. */
  method AddItemToArray(h: Heap, parent: Ptr, item: Ptr, ghost q: seq<Ptr>, ghost r: seq<Ptr>)
    requires Children(h.mem, parent, q) && Linked(h.mem, r) && item == Ith(r, 0) && parent !in r
    requires forall i, j :: 0 <= i < |q| && 0 <= j < |r| ==> q[i] != r[j]
    modifies h
    ensures Children(h.mem, parent, q + r)
    ensures Relinks(old(h.mem), h.mem, parent, q + r)
  {
    var c := h.mem.items[parent].child;
    if item == NULL {
      assert r == [] by {
        assert r != [] ==> InPlace(h.mem, r, 0);
      }
      assert q + r == q;
      return;
    }
    assert InPlace(h.mem, r, 0);
    if c == NULL {
      assert q == [] by {
        assert q != [] ==> InPlace(h.mem, q, 0);
      }
      assert q + r == r;
      h.mem := Mem(h.mem.items[parent := h.mem.items[parent].(child := item)], h.mem.strings);
      ChildSet(old(h.mem), h.mem, parent, r);
    } else {
      c := WalkToLast(h, parent, q);
      assert InPlace(h.mem, q, |q| - 1);
      h.mem := Mem(h.mem.items[c := h.mem.items[c].(next := item)], h.mem.strings);
      RelinksTwo(old(h.mem), h.mem, parent, c, item, q + r);
      h.mem := Mem(h.mem.items[item := h.mem.items[item].(prev := c)], h.mem.strings);
      Appended(old(h.mem), h.mem, parent, q, r);
    }
  }

  // ----- cJSON_InsertItemInArray -----

  /** `m'` is `m` with `n` linked in before item `k`. */
  ghost predicate LinkedIn(m: Mem, m': Mem, parent: Ptr, q: seq<Ptr>, k: nat, n: Ptr)
    requires Children(m, parent, q) && k < |q| && n in m.items
  {
    && m'.items.Keys == m.items.Keys && m'.strings == m.strings && q[k] in m.items
    && m'.items[n] == m.items[n].(next := q[k], prev := Ith(q, k - 1))
    && m'.items[q[k]] == m.items[q[k]].(prev := n)
    && (if k == 0 then m'.items[parent] == m.items[parent].(child := n)
        else m'.items[parent] == m.items[parent] && q[k - 1] in m.items && m'.items[q[k - 1]] == m.items[q[k - 1]].(next := n))
    && forall p :: p in m.items && p != n && p != q[k] && (k == 0 || p != q[k - 1]) && p != parent ==> m'.items[p] == m.items[p]
  }

  lemma Inserted(m: Mem, m': Mem, parent: Ptr, q: seq<Ptr>, k: nat, n: Ptr)
    requires Children(m, parent, q) && k < |q| && n in m.items && n != NULL && n != parent && n !in q
    requires LinkedIn(m, m', parent, q, k, n)
    ensures Children(m', parent, q[..k] + [n] + q[k..]) && Relinks(m, m', parent, q + [n])
  {
    var s := q[..k] + [n] + q[k..];
    forall i | 0 <= i < |s| ensures InPlace(m', s, i) {
      if i < k {
        assert InPlace(m, q, i);
      } else if i > k {
        assert InPlace(m, q, i - 1);
      }
    }
  }

  /** The new item stands at the place asked for, with the item that was there behind it;
      first for a negative index, and last for one past the end. */
  method InsertItemInArray(h: Heap, parent: Ptr, which: int, newitem: Ptr, ghost q: seq<Ptr>)
    requires Children(h.mem, parent, q) && newitem in h.mem.items && newitem != NULL && newitem != parent && newitem !in q
    requires which >= |q| || q == [] ==> h.mem.items[newitem].next == NULL && h.mem.items[newitem].prev == NULL
    modifies h
    ensures 0 <= which < |q| ==> Children(h.mem, parent, q[..which] + [newitem] + q[which..])
    ensures which < 0 ==> Children(h.mem, parent, [newitem] + q)
    ensures which >= |q| ==> Children(h.mem, parent, q + [newitem])
    ensures Relinks(old(h.mem), h.mem, parent, q + [newitem])
  {
    var c := Walk(h, parent, which, q);
    ghost var k: nat := if which < 0 then 0 else which;
    assert k < |q| ==> InPlace(h.mem, q, k);
    if c == NULL {
      assert InPlace(h.mem, [newitem], 0);
      AddItemToArray(h, parent, newitem, q, [newitem]);
      assert q == [] ==> q + [newitem] == [newitem] + q;
      return;
    }
    assert q[..0] + [newitem] + q[0..] == [newitem] + q;
    assert k > 0 ==> InPlace(h.mem, q, k - 1);
    var before := h.mem.items[c].prev;
    var items := h.mem.items;
    items := items[newitem := items[newitem].(next := c, prev := before)];
    items := items[c := items[c].(prev := newitem)];
    if c == items[parent].child {
      assert k == 0 by {
        assert InPlace(h.mem, q, 0);
      }
      items := items[parent := items[parent].(child := newitem)];
    } else {
      items := items[before := items[before].(next := newitem)];
    }
    h.mem := Mem(items, h.mem.strings);
    Inserted(old(h.mem), h.mem, parent, q, k, newitem);
  }

  // ----- cJSON_DetachItemFromArray -----

  /** `m'` is `m` with item `k` taken out and its links cleared. */
  ghost predicate LinkedOut(m: Mem, m': Mem, parent: Ptr, q: seq<Ptr>, k: nat)
    requires Children(m, parent, q) && k < |q|
  {
    && m'.items.Keys == m.items.Keys && m'.strings == m.strings && q[k] in m.items
    && m'.items[q[k]] == m.items[q[k]].(next := NULL, prev := NULL)
    && (k + 1 < |q| ==> q[k + 1] in m.items && m'.items[q[k + 1]] == m.items[q[k + 1]].(prev := Ith(q, k - 1)))
    && (if k == 0 then m'.items[parent] == m.items[parent].(child := Ith(q, 1))
        else m'.items[parent] == m.items[parent] && q[k - 1] in m.items && m'.items[q[k - 1]] == m.items[q[k - 1]].(next := Ith(q, k + 1)))
    && forall p :: p in m.items && p != q[k] && (k == 0 || p != q[k - 1]) && (k + 1 >= |q| || p != q[k + 1]) && p != parent ==> m'.items[p] == m.items[p]
  }

  lemma Detached(m: Mem, m': Mem, parent: Ptr, q: seq<Ptr>, k: nat)
    requires Children(m, parent, q) && k < |q| && LinkedOut(m, m', parent, q, k)
    ensures Children(m', parent, q[..k] + q[k + 1..]) && Relinks(m, m', parent, q)
  {
    var s := q[..k] + q[k + 1..];
    forall i | 0 <= i < |s| ensures InPlace(m', s, i) {
      if i < k {
        assert InPlace(m, q, i);
      } else {
        assert InPlace(m, q, i + 1);
      }
    }
  }

  /** Takes the item asked for out of the list and returns it, or NULL when there is none;
      a negative index asks for the first. */
  method DetachItemFromArray(h: Heap, parent: Ptr, which: int, ghost q: seq<Ptr>) returns (c: Ptr)
    requires Children(h.mem, parent, q)
    modifies h
    ensures 0 <= which < |q| ==> c == q[which] && Children(h.mem, parent, q[..which] + q[which + 1..])
    ensures which < 0 && q != [] ==> c == q[0] && Children(h.mem, parent, q[1..])
    ensures which >= |q| || q == [] ==> c == NULL && h.mem == old(h.mem)
    ensures which < |q| && q != [] ==>
      && Relinks(old(h.mem), h.mem, parent, q)
      && c != NULL && c in h.mem.items && h.mem.items[c].next == NULL && h.mem.items[c].prev == NULL
  {
    hide Children, InPlace, Relinks;
    c := Walk(h, parent, which, q);
    ChildNotNull(h.mem, parent, q);
    if c != NULL {
      LinkOut(h, parent, c, q, if which < 0 then 0 else which);
      assert q[..0] + q[1..] == q[1..];
    }
  }

  lemma ChildNotNull(m: Mem, parent: Ptr, q: seq<Ptr>)
    requires Children(m, parent, q)
    ensures forall i :: 0 <= i < |q| ==> q[i] != NULL
  {
    forall i | 0 <= i < |q| ensures q[i] != NULL {
      assert InPlace(m, q, i);
    }
  }

  /** Unlinks item `k`. */
  method LinkOut(h: Heap, parent: Ptr, c: Ptr, ghost q: seq<Ptr>, ghost k: nat)
    requires Children(h.mem, parent, q) && k < |q| && c == q[k]
    modifies h
    ensures Children(h.mem, parent, q[..k] + q[k + 1..]) && Relinks(old(h.mem), h.mem, parent, q)
    ensures c in h.mem.items && h.mem.items[c].next == NULL && h.mem.items[c].prev == NULL
  {
    assert InPlace(h.mem, q, k);
    assert k > 0 ==> InPlace(h.mem, q, k - 1);
    assert k + 1 < |q| ==> InPlace(h.mem, q, k + 1);
    assert InPlace(h.mem, q, 0);
    hide InPlace, Relinks;
    var before, next := h.mem.items[c].prev, h.mem.items[c].next;
    var items := h.mem.items;
    if before != NULL {
      items := items[before := items[before].(next := next)];
    }
    if next != NULL {
      items := items[next := items[next].(prev := before)];
    }
    if c == items[parent].child {
      items := items[parent := items[parent].(child := next)];
    }
    items := items[c := items[c].(next := NULL, prev := NULL)];
    h.mem := Mem(items, h.mem.strings);
    Detached(old(h.mem), h.mem, parent, q, k);
  }

  // ----- cJSON_ReplaceItemInArray -----

  /** `m'` is `m` with `n` in the place of item `k`, whose own links are cleared. */
  ghost predicate LinkedOver(m: Mem, m': Mem, parent: Ptr, q: seq<Ptr>, k: nat, n: Ptr)
    requires Children(m, parent, q) && k < |q| && n in m.items
  {
    && m'.items.Keys == m.items.Keys && m'.strings == m.strings && q[k] in m.items
    && m'.items[n] == m.items[n].(next := Ith(q, k + 1), prev := Ith(q, k - 1))
    && m'.items[q[k]] == m.items[q[k]].(next := NULL, prev := NULL)
    && (k + 1 < |q| ==> q[k + 1] in m.items && m'.items[q[k + 1]] == m.items[q[k + 1]].(prev := n))
    && (if k == 0 then m'.items[parent] == m.items[parent].(child := n)
        else m'.items[parent] == m.items[parent] && q[k - 1] in m.items && m'.items[q[k - 1]] == m.items[q[k - 1]].(next := n))
    && forall p :: p in m.items && p != n && p != q[k] && (k == 0 || p != q[k - 1]) && (k + 1 >= |q| || p != q[k + 1]) && p != parent ==>
         m'.items[p] == m.items[p]
  }

  lemma Replaced(m: Mem, m': Mem, parent: Ptr, q: seq<Ptr>, k: nat, n: Ptr)
    requires Children(m, parent, q) && k < |q| && n in m.items && n != NULL && n != parent && n !in q
    requires LinkedOver(m, m', parent, q, k, n)
    ensures Children(m', parent, q[k := n]) && Relinks(m, m', parent, q + [n])
  {
    var s := q[k := n];
    forall i | 0 <= i < |s| ensures InPlace(m', s, i) {
      assert InPlace(m, q, i);
    }
  }

  /** The relinking half of the operation; the item taken out is returned. */
  method ReplaceLinks(h: Heap, parent: Ptr, which: int, newitem: Ptr, ghost q: seq<Ptr>) returns (c: Ptr)
    requires Children(h.mem, parent, q) && newitem in h.mem.items && newitem != NULL && newitem != parent && newitem !in q
    modifies h
    ensures 0 <= which < |q| ==> c == q[which] && Children(h.mem, parent, q[which := newitem])
    ensures which < 0 && q != [] ==> c == q[0] && Children(h.mem, parent, q[0 := newitem])
    ensures which >= |q| || q == [] ==> c == NULL && h.mem == old(h.mem)
    ensures which < |q| && q != [] ==>
      && Relinks(old(h.mem), h.mem, parent, q + [newitem])
      && c != NULL && c in h.mem.items && h.mem.items[c].next == NULL && h.mem.items[c].prev == NULL
  {
    hide Children, InPlace, Relinks;
    c := Walk(h, parent, which, q);
    ChildNotNull(h.mem, parent, q);
    if c != NULL {
      LinkOver(h, parent, c, newitem, q, if which < 0 then 0 else which);
    }
  }

  /** Links the new item over item `k`. */
  method LinkOver(h: Heap, parent: Ptr, c: Ptr, newitem: Ptr, ghost q: seq<Ptr>, ghost k: nat)
    requires Children(h.mem, parent, q) && k < |q| && c == q[k]
    requires newitem in h.mem.items && newitem != NULL && newitem != parent && newitem !in q
    modifies h
    ensures Children(h.mem, parent, q[k := newitem]) && Relinks(old(h.mem), h.mem, parent, q + [newitem])
    ensures c in h.mem.items && h.mem.items[c].next == NULL && h.mem.items[c].prev == NULL
  {
    assert InPlace(h.mem, q, k);
    assert k > 0 ==> InPlace(h.mem, q, k - 1);
    assert k + 1 < |q| ==> InPlace(h.mem, q, k + 1);
    assert InPlace(h.mem, q, 0);
    hide InPlace, Relinks;
    var before, next := h.mem.items[c].prev, h.mem.items[c].next;
    var items := h.mem.items;
    items := items[newitem := items[newitem].(next := next, prev := before)];
    if next != NULL {
      items := items[next := items[next].(prev := newitem)];
    }
    if c == items[parent].child {
      items := items[parent := items[parent].(child := newitem)];
    } else {
      items := items[before := items[before].(next := newitem)];
    }
    items := items[c := items[c].(next := NULL, prev := NULL)];
    h.mem := Mem(items, h.mem.strings);
    Replaced(old(h.mem), h.mem, parent, q, k, newitem);
  }

  lemma KidsLive(m: Mem, c: Ptr, kids: Forest)
    requires c in m.items && Node(m, c, kids)
    ensures c !in Nodes(kids) && Nodes(kids) <= m.items.Keys && OwnStrings(m.items[c]) + Strings(m, kids) <= m.strings.Keys
  {
    if !m.items[c].isReference {
      ChainLive(m, m.items[c].child, NULL, kids, NULL);
    }
  }

  lemma SingleChain(m: Mem, c: Ptr, kids: Forest)
    requires c in m.items && c != NULL && Node(m, c, kids) && m.items[c].next == NULL
    ensures Chain(m, c, m.items[c].prev, Cons(c, kids, Nil), NULL)
    ensures Nodes(Cons(c, kids, Nil)) == {c} + Nodes(kids)
    ensures Strings(m, Cons(c, kids, Nil)) == OwnStrings(m.items[c]) + Strings(m, kids)
  {
    assert Chain(m, NULL, c, Nil, NULL) && Strings(m, Nil) == {} && Nodes(Nil) == {};
  }
}
