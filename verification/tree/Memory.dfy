/**
 The memory cJSON works in: nodes and strings at addresses. Reading or freeing an
 address that holds nothing is not allowed, so a second free or a use after a free
 cannot be verified.
 */
module Memory {

  type Ptr = nat

  const NULL: Ptr := 0

  datatype Kind = False | True | Null | Number | String | Array | Object

  /** A cJSON structure; the two flag bits of `type` are separate fields. */
  datatype Item = Item(
    next: Ptr, prev: Ptr, child: Ptr,
    kind: Kind, isReference: bool, stringIsConst: bool,
    valueString: Ptr, value: real, name: Ptr)

  const ZEROED: Item := Item(NULL, NULL, NULL, False, false, false, NULL, 0.0, NULL)

  datatype Mem = Mem(items: map<Ptr, Item>, strings: map<Ptr, string>)

  /** Everything that was there is still there, unchanged but for the nodes `except`. */
  ghost predicate Extends(m: Mem, m': Mem, except: set<Ptr>) {
    && (forall p :: p in m.items ==> p in m'.items && (p !in except ==> m'.items[p] == m.items[p]))
    && (forall p :: p in m.strings ==> p in m'.strings && m'.strings[p] == m.strings[p])
  }

  // ----- who owns what -----

  /** The nodes of a chain of siblings, each with the chain of its own children. */
  datatype Forest = Nil | Cons(ptr: Ptr, kids: Forest, rest: Forest)

  function Nodes(f: Forest): set<Ptr> {
    match f
    case Nil => {}
    case Cons(p, kids, rest) => {p} + Nodes(kids) + Nodes(rest)
  }

  /** A node owns its value string unless it is a reference, and its name unless
      the name is constant. */
  function OwnStrings(it: Item): set<Ptr> {
      (if !it.isReference && it.valueString != NULL then {it.valueString} else {})
    + (if !it.stringIsConst && it.name != NULL then {it.name} else {})
  }

  function Strings(m: Mem, f: Forest): set<Ptr> {
    match f
    case Nil => {}
    case Cons(p, kids, rest) =>
      (if p in m.items then OwnStrings(m.items[p]) else {}) + Strings(m, kids) + Strings(m, rest)
  }

  /** The strings a node owns exist, and are two if it owns two. */
  predicate StringsLive(m: Mem, it: Item) {
    && OwnStrings(it) <= m.strings.Keys
    && (!it.isReference && it.valueString != NULL && !it.stringIsConst ==> it.valueString != it.name)
  }

  /**
   From `p` on, memory holds the chain `f` of siblings up to `end`: `next` and
   `prev` are inverse to one another, the first `prev` is `prev`, every node has
   its own memory and its own strings, and a node that is not a reference owns
   the chain at its `child`.
   */
  ghost predicate Chain(m: Mem, p: Ptr, prev: Ptr, f: Forest, end: Ptr)
    decreases f, 0
  {
    match f
    case Nil => p == end
    case Cons(q, kids, rest) =>
      && p == q != NULL && q in m.items
      && m.items[q].prev == prev
      && Node(m, q, kids)
      && Chain(m, m.items[q].next, q, rest, end)
      && ({q} + Nodes(kids)) !! Nodes(rest)
      && (OwnStrings(m.items[q]) + Strings(m, kids)) !! Strings(m, rest)
  }

  ghost predicate Node(m: Mem, q: Ptr, kids: Forest)
    requires q in m.items
    decreases kids, 1
  {
    var it := m.items[q];
    && StringsLive(m, it)
    && (if it.isReference then kids.Nil? else Chain(m, it.child, NULL, kids, NULL))
    && q !in Nodes(kids)
    && OwnStrings(it) !! Strings(m, kids)
  }

  /** A chain depends only on its own nodes and strings. */
  lemma {:induction false} ChainFrame(m: Mem, m': Mem, p: Ptr, prev: Ptr, f: Forest, end: Ptr)
    requires Chain(m, p, prev, f, end)
    requires forall q :: q in Nodes(f) ==> q in m.items && q in m'.items && m'.items[q] == m.items[q]
    requires forall s :: s in Strings(m, f) ==> s in m'.strings
    ensures Chain(m', p, prev, f, end) && Strings(m', f) == Strings(m, f)
    decreases f, 0
  {
    hide Node, OwnStrings;
    if f.Cons? {
      ChainFrame(m, m', m.items[p].next, p, f.rest, end);
      NodeFrame(m, m', p, f.kids);
    }
  }

  /** So does a node with its children; its links to siblings do not matter. */
  lemma {:induction false} NodeFrame(m: Mem, m': Mem, q: Ptr, kids: Forest)
    requires q in m.items && q in m'.items && Node(m, q, kids)
    requires m'.items[q] == m.items[q].(next := m'.items[q].next, prev := m'.items[q].prev)
    requires forall r :: r in Nodes(kids) ==> r in m.items && r in m'.items && m'.items[r] == m.items[r]
    requires forall s :: s in OwnStrings(m.items[q]) + Strings(m, kids) ==> s in m'.strings
    ensures Node(m', q, kids) && Strings(m', kids) == Strings(m, kids)
    ensures OwnStrings(m'.items[q]) == OwnStrings(m.items[q])
    decreases kids, 1
  {
    var it := m.items[q];
    if !it.isReference {
      ChainFrame(m, m', it.child, NULL, kids, NULL);
    }
  }

  /** The nodes and strings of a chain are in memory. */
  lemma {:induction false} ChainLive(m: Mem, p: Ptr, prev: Ptr, f: Forest, end: Ptr)
    requires Chain(m, p, prev, f, end)
    ensures Nodes(f) <= m.items.Keys && Strings(m, f) <= m.strings.Keys
    decreases f
  {
    if f.Cons? {
      var it := m.items[f.ptr];
      ChainLive(m, it.next, f.ptr, f.rest, end);
      if !it.isReference {
        ChainLive(m, it.child, NULL, f.kids, NULL);
      }
    }
  }

  // ----- the allocator and cJSON_Delete -----

  method Above(s: set<Ptr>) returns (p: Ptr)
    ensures p != NULL && p !in s
  {
    var left := s;
    p := 1;
    while left != {}
      invariant p >= 1 && left <= s && forall q :: q in s && q !in left ==> q < p
      decreases |left|
    {
      var q :| q in left;
      if q >= p {
        p := q + 1;
      }
      left := left - {q};
    }
  }

  class Heap {
    var mem: Mem

    /** An address at which nothing lives. */
    method Unused() returns (p: Ptr)
      ensures p != NULL && p !in mem.items && p !in mem.strings
    {
      p := Above(mem.items.Keys + mem.strings.Keys);
    }

    /** cJSON_New_Item */
    method NewItem() returns (p: Ptr)
      modifies this
      ensures p != NULL && p !in old(mem.items) && p !in old(mem.strings)
      ensures mem == Mem(old(mem.items)[p := ZEROED], old(mem.strings))
    {
      p := Unused();
      mem := Mem(mem.items[p := ZEROED], mem.strings);
    }

    /** Memory for a string, holding `text`. */
    method NewString(text: string) returns (p: Ptr)
      modifies this
      ensures p != NULL && p !in old(mem.items) && p !in old(mem.strings)
      ensures mem == Mem(old(mem.items), old(mem.strings)[p := text])
    {
      p := Unused();
      mem := Mem(mem.items, mem.strings[p := text]);
    }

    method FreeItem(p: Ptr)
      requires p in mem.items
      modifies this
      ensures mem == Mem(old(mem.items) - {p}, old(mem.strings))
    {
      mem := Mem(mem.items - {p}, mem.strings);
    }

    method FreeString(p: Ptr)
      requires p in mem.strings
      modifies this
      ensures mem == Mem(old(mem.items), old(mem.strings) - {p})
    {
      mem := Mem(mem.items, mem.strings - {p});
    }

    /** Frees one node and what it owns. */
    method DeleteNode(c: Ptr, ghost kids: Forest)
      requires c in mem.items && Node(mem, c, kids)
      modifies this
      ensures mem == Mem(old(mem.items) - ({c} + Nodes(kids)),
                         old(mem.strings) - (OwnStrings(old(mem.items[c])) + Strings(old(mem), kids)))
      decreases kids, 2
    {
      var it := mem.items[c];
      ghost var m := mem;
      if !it.isReference && it.child != NULL {
        ChainLive(mem, it.child, NULL, kids, NULL);
        Delete(it.child, NULL, kids);
      }
      assert mem == Mem(m.items - Nodes(kids), m.strings - Strings(m, kids));
      if !it.isReference && it.valueString != NULL {
        FreeString(it.valueString);
      }
      if !it.stringIsConst && it.name != NULL {
        FreeString(it.name);
      }
      FreeItem(c);
    }

    /** One round of the loop: the first node of the chain goes, the rest stays. */
    method DeleteFirst(c: Ptr, ghost prev: Ptr, ghost f: Forest) returns (next: Ptr)
      requires Chain(mem, c, prev, f, NULL) && c != NULL
      modifies this
      ensures next == old(mem.items[c]).next && Chain(mem, next, c, f.rest, NULL)
      ensures mem == Mem(old(mem.items) - (Nodes(f) - Nodes(f.rest)),
                         old(mem.strings) - (Strings(old(mem), f) - Strings(old(mem), f.rest)))
      ensures Strings(mem, f.rest) == Strings(old(mem), f.rest)
      decreases f, 0
    {
      next := mem.items[c].next;
      ChainLive(mem, next, c, f.rest, NULL);
      DeleteNode(c, f.kids);
      ChainFrame(old(mem), mem, next, c, f.rest, NULL);
    }

    /**
     cJSON_Delete: frees every node of the chain and every string they own, each
     exactly once, and nothing else; so what a reference points at stays alive.
     */
    method Delete(first: Ptr, ghost prev: Ptr, ghost f: Forest)
      requires Chain(mem, first, prev, f, NULL)
      modifies this
      ensures mem == Mem(old(mem.items) - Nodes(f), old(mem.strings) - Strings(old(mem), f))
      decreases f, 1
    {
      hide Node, OwnStrings;
      var c := first;
      ghost var g, pv := f, prev;
      while c != NULL
        invariant Chain(mem, c, pv, g, NULL)
        invariant Nodes(g) <= Nodes(f) && Strings(mem, g) <= Strings(old(mem), f)
        invariant mem == Mem(old(mem.items) - (Nodes(f) - Nodes(g)),
                             old(mem.strings) - (Strings(old(mem), f) - Strings(mem, g)))
        invariant g == f || g < f
        decreases g
      {
        var next := DeleteFirst(c, pv, g);
        pv, g, c := c, g.rest, next;
      }
    }
  }
}
