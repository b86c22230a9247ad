/**
 Whole runs of the trunk allocator: its invariant, how fairly the hash entries are
 dealt, and that clearing a trunk puts the tables back.
 */
module TrunkRuns {
  import opened Bits
  import opened TrunkModel
  import opened TrunkSafety

  datatype Call = Create(ports: bv16, id: bv16) | Clear(ports: bv16, id: bv16)

  function Serve(s: State, c: Call): (r: State)
    requires Shape(s) && (c.Create? ==> Count(c.ports) > 0)
    ensures Shape(r)
  {
    if c.Create? then TrunkModel.Create(s, c.ports, c.id).0 else TrunkModel.Clear(s, c.ports, c.id).0
  }

  /** Creations of 1 to 8 ports with an id below 16, and clears of whole trunks. */
  ghost predicate Allowed(o: seq<Owner>, c: Call)
    requires Owned(o)
  {
    if c.Create? then 1 <= Count(c.ports) <= MASKS && c.id < 16
    else AllMembers(o, c.ports, c.id) ==> Whole(o, c.ports)
  }

  /** The owners after a call: the trunk is made, or the ports are freed, when the
      call asks for what is free, or for members with the id. */
  ghost function Owners(o: seq<Owner>, c: Call): (r: seq<Owner>)
    requires |o| == PORTS
    ensures |r| == PORTS
  {
    if c.Create? then if AllFree(o, c.ports) then Given(o, c.ports, Trunk(c.ports, c.id)) else o
    else if AllMembers(o, c.ports, c.id) then Given(o, c.ports, Free) else o
  }

  lemma ServeKeeps(s: State, o: seq<Owner>, c: Call)
    requires Exact(s, o) && Allowed(o, c)
    ensures Exact(Serve(s, c), Owners(o, c))
  {
    hide Bit, FreeAgrees, ControlAgrees, MaskExact, AllFree, Members, OwnsAll;
    if c.Create? {
      CreateSucceeds(s, o, c.ports, c.id);
      if AllFree(o, c.ports) {
        CreateKeeps(s, o, c.ports, c.id);
      }
    } else {
      ClearSucceeds(s, o, c.ports, c.id);
      if AllMembers(o, c.ports, c.id) {
        ClearKeeps(s, o, c.ports, c.id);
      }
    }
  }

  // ----- runs -----

  const NO_TRUNKS: seq<Owner> := seq(PORTS, i => Free)

  /** At power-on every port is free and in every mask, and no register carries
      the trunk bit. */
  ghost predicate Initial(s: State) {
    && Shape(s) && s.free == ALL_PORTS && (forall l :: 0 <= l < MASKS ==> s.masks[l] == ALL_PORTS)
    && forall i :: 0 <= i < PORTS ==> !TrunkBit(s.control[i])
  }

  lemma InitialExact(s: State)
    requires Initial(s)
    ensures Exact(s, NO_TRUNKS)
  {
    hide Bit, TrunkBit;
    AllPortsBits();
  }

  ghost predicate AllowedRun(o: seq<Owner>, run: seq<Call>)
    decreases |run|
  {
    |run| > 0 ==> Owned(o) && Allowed(o, run[0]) && AllowedRun(Owners(o, run[0]), run[1..])
  }

  ghost function OwnersAfter(o: seq<Owner>, run: seq<Call>): (r: seq<Owner>)
    requires |o| == PORTS
    ensures |r| == PORTS
    decreases |run|
  {
    if |run| == 0 then o else OwnersAfter(Owners(o, run[0]), run[1..])
  }

  function After(s: State, run: seq<Call>): (r: State)
    requires Shape(s) && forall k :: 0 <= k < |run| && run[k].Create? ==> Count(run[k].ports) > 0
    ensures Shape(r)
    decreases |run|
  {
    if |run| == 0 then s else After(Serve(s, run[0]), run[1..])
  }

  /** Over every run of creations of 1 to 8 ports and clears of whole trunks, from
      any consistent state, the tables keep agreeing. */
  lemma {:induction false} RunKeeps(s: State, o: seq<Owner>, run: seq<Call>)
    requires Exact(s, o) && AllowedRun(o, run)
    requires forall k :: 0 <= k < |run| && run[k].Create? ==> Count(run[k].ports) > 0
    ensures Exact(After(s, run), OwnersAfter(o, run)) && Consistent(After(s, run), OwnersAfter(o, run))
    decreases |run|
  {
    hide Exact, Consistent, Serve, Owners, Owned, Count;
    if |run| > 0 {
      ExactOwned(s, o);
      ServeKeeps(s, o, run[0]);
      RunKeeps(Serve(s, run[0]), Owners(o, run[0]), run[1..]);
    } else {
      ExactIsConsistent(s, o);
    }
  }

  lemma ExactOwned(s: State, o: seq<Owner>)
    requires Exact(s, o)
    ensures Owned(o) && |o| == PORTS && Shape(s)
  {
  }

  /** Whatever calls are made, bits 12, 13 and 15 of every register stay as they were; and
      the register of a port that no call names stays whole. */
  lemma {:induction false} RegistersKeep(s: State, run: seq<Call>, p: nat)
    requires Shape(s) && p < PORTS && forall k :: 0 <= k < |run| ==> run[k].id < 16
    requires forall k :: 0 <= k < |run| && run[k].Create? ==> Count(run[k].ports) > 0
    ensures var c, d := s.control[p], After(s, run).control[p];
      && (Bit(d, 12) <==> Bit(c, 12)) && (Bit(d, 13) <==> Bit(c, 13)) && (Bit(d, 15) <==> Bit(c, 15))
      && ((forall k :: 0 <= k < |run| ==> !Bit(run[k].ports, p)) ==> d == c)
    decreases |run|
  {
    hide Bit, Count, Serve;
    if |run| > 0 {
      ServeRegister(s, run[0], p);
      RegistersKeep(Serve(s, run[0]), run[1..], p);
    }
  }

  lemma ServeRegister(s: State, c: Call, p: nat)
    requires Shape(s) && p < PORTS && c.id < 16 && (c.Create? ==> Count(c.ports) > 0)
    ensures var r, d := s.control[p], Serve(s, c).control[p];
      && (Bit(d, 12) <==> Bit(r, 12)) && (Bit(d, 13) <==> Bit(r, 13)) && (Bit(d, 15) <==> Bit(r, 15))
      && (!Bit(c.ports, p) ==> d == r)
  {
    hide Bit, Count, Joined, Left, Refusal;
    if c.Create? {
      JoinedReads(s.control[p], c.id);
    } else {
      LeftReads(s.control[p]);
    }
  }

  // ----- clearing puts the tables back -----

  /** Who owns which port determines the free vector and every mask to the bit,
      whatever history led there. */
  lemma Determined(s: State, t: State, o: seq<Owner>)
    requires Exact(s, o) && Exact(t, o)
    ensures s.free == t.free && s.masks == t.masks
  {
    hide Bit, ControlAgrees, OwnsAll, Turn, Count;
    SameBits(s.free, t.free);
    forall l | 0 <= l < MASKS ensures s.masks[l] == t.masks[l] {
      assert MaskExact(s.masks[l], o, l) && MaskExact(t.masks[l], o, l);
      SameBits(s.masks[l], t.masks[l]);
    }
  }

  lemma ClearUndoes(s: State, o: seq<Owner>, before: State, mid: seq<Owner>, v: bv16, id: bv16)
    requires Exact(s, o) && Exact(before, mid) && Whole(mid, v) && Given(mid, v, Free) == o
    requires TrunkModel.Clear(before, v, id).1 == NoError
    ensures TrunkModel.Clear(before, v, id).0.free == s.free && TrunkModel.Clear(before, v, id).0.masks == s.masks
  {
    hide Bit, MaskExact, FreeAgrees, ControlAgrees, Owned, Refusal, Given, Whole;
    ClearKeeps(before, mid, v, id);
    Determined(TrunkModel.Clear(before, v, id).0, s, o);
  }

  /** A trunk is created, other calls follow, and the trunk is cleared. When the
      other trunks are then what they were before, so are the free vector and the
      masks. */
  lemma ClearRestores(s: State, o: seq<Owner>, v: bv16, id: bv16, run: seq<Call>)
    requires Exact(s, o) && id < 16 && 1 <= Count(v) <= MASKS && TrunkModel.Create(s, v, id).1 == NoError
    requires AllowedRun(Given(o, v, Trunk(v, id)), run)
    requires forall k :: 0 <= k < |run| && run[k].Create? ==> Count(run[k].ports) > 0
    requires Whole(OwnersAfter(Given(o, v, Trunk(v, id)), run), v)
    requires Given(OwnersAfter(Given(o, v, Trunk(v, id)), run), v, Free) == o
    ensures var before := After(TrunkModel.Create(s, v, id).0, run);
            var (after, e) := TrunkModel.Clear(before, v, id);
            e == NoError ==> after.free == s.free && after.masks == s.masks
  {
    hide Exact, Consistent, Whole, Given, Count, TrunkModel.Create, TrunkModel.Clear, After, OwnersAfter, AllowedRun, Shape;
    ExactOwned(s, o);
    CreateKeeps(s, o, v, id);
    RunKeeps(TrunkModel.Create(s, v, id).0, Given(o, v, Trunk(v, id)), run);
    var before := After(TrunkModel.Create(s, v, id).0, run);
    if TrunkModel.Clear(before, v, id).1 == NoError {
      ClearUndoes(s, o, before, OwnersAfter(Given(o, v, Trunk(v, id)), run), v, id);
    }
  }

  /** In particular a clear right after the creation succeeds and undoes it. */
  lemma CreateThenClear(s: State, o: seq<Owner>, v: bv16, id: bv16)
    requires Exact(s, o) && id < 16 && 1 <= Count(v) <= MASKS && TrunkModel.Create(s, v, id).1 == NoError
    ensures var (after, e) := TrunkModel.Clear(TrunkModel.Create(s, v, id).0, v, id);
            e == NoError && after.free == s.free && after.masks == s.masks
  {
    hide Bit, TrunkModel.Create, TrunkModel.Clear, Count, MaskExact, ControlAgrees, OwnsAll;
    var o' := Given(o, v, Trunk(v, id));
    CreateSucceeds(s, o, v, id);
    CreateKeeps(s, o, v, id);
    ClearSucceeds(TrunkModel.Create(s, v, id).0, o', v, id);
    AllPortsBits();
    assert Whole(o', v);
    assert Given(o', v, Free) == o;
    ClearRestores(s, o, v, id, []);
  }

  // ----- fairness -----

  /** How many of the first `n` masks hold port `i`. */
  function Entries(masks: seq<bv16>, i: nat, n: nat): nat
    requires n <= |masks| && i < WIDTH
  {
    if n == 0 then 0 else Entries(masks, i, n - 1) + if Bit(masks[n - 1], i) then 1 else 0
  }

  function Hits(j: nat, k: nat, n: nat): nat
    requires k > 0
  {
    if n == 0 then 0 else Hits(j, k, n - 1) + if Slot(n - 1, k) == j then 1 else 0
  }

  lemma {:induction false} EntriesAreHits(s: State, o: seq<Owner>, i: nat, j: nat, n: nat)
    requires Exact(s, o) && n <= MASKS && i < PORTS && o[i].Trunk?
    requires j < Count(o[i].ports) && Members(o[i].ports, PORTS)[j] == i
    ensures Entries(s.masks, i, n) == Hits(j, Count(o[i].ports), n)
  {
    hide Bit, Slot, FreeAgrees, ControlAgrees, OwnsAll;
    if n > 0 {
      EntriesAreHits(s, o, i, j, n - 1);
      assert MaskExact(s.masks[n - 1], o, n - 1);
      var at := Slot(n - 1, Count(o[i].ports));
      if at < j {
        MembersAscend(o[i].ports, PORTS, at, j);
      } else if j < at {
        MembersAscend(o[i].ports, PORTS, j, at);
      }
    }
  }

  lemma HitsUnrolled(j: nat, k: nat)
    requires k > 0
    ensures Hits(j, k, 8) ==
              (if Slot(0, k) == j then 1 else 0) + (if Slot(1, k) == j then 1 else 0)
            + (if Slot(2, k) == j then 1 else 0) + (if Slot(3, k) == j then 1 else 0)
            + (if Slot(4, k) == j then 1 else 0) + (if Slot(5, k) == j then 1 else 0)
            + (if Slot(6, k) == j then 1 else 0) + (if Slot(7, k) == j then 1 else 0)
  {
    hide Slot;
    assert Hits(j, k, 1) == Hits(j, k, 0) + if Slot(0, k) == j then 1 else 0;
    assert Hits(j, k, 2) == Hits(j, k, 1) + if Slot(1, k) == j then 1 else 0;
    assert Hits(j, k, 3) == Hits(j, k, 2) + if Slot(2, k) == j then 1 else 0;
    assert Hits(j, k, 4) == Hits(j, k, 3) + if Slot(3, k) == j then 1 else 0;
    assert Hits(j, k, 5) == Hits(j, k, 4) + if Slot(4, k) == j then 1 else 0;
    assert Hits(j, k, 6) == Hits(j, k, 5) + if Slot(5, k) == j then 1 else 0;
    assert Hits(j, k, 7) == Hits(j, k, 6) + if Slot(6, k) == j then 1 else 0;
    assert Hits(j, k, 8) == Hits(j, k, 7) + if Slot(7, k) == j then 1 else 0;
  }

  lemma HitsOfFew(j: nat, k: nat)
    requires 1 <= k <= 4 && j < k
    ensures 8 / k <= Hits(j, k, 8) <= (8 + k - 1) / k
  {
    HitsUnrolled(j, k);
    hide Hits;
    if k == 1 {} else if k == 2 {} else if k == 3 {} else {}
  }

  lemma SlotPast(l: nat, k: nat)
    requires 0 < k && l < 2 * k
    ensures Slot(l, k) == if l < k then l else l - k
  {
    if k <= l {
      assert l == k + (l - k);
    }
  }

  lemma HitsOfMany(j: nat, k: nat)
    requires 5 <= k <= 8 && j < k
    ensures 8 / k <= Hits(j, k, 8) <= (8 + k - 1) / k
  {
    HitsUnrolled(j, k);
    hide Hits, Slot;
    SlotPast(5, k);
    SlotPast(6, k);
    SlotPast(7, k);
    assert 8 / k == 1 && (8 + k - 1) / k <= 2 && (k == 8 || (8 + k - 1) / k == 2);
  }

  /** Each member of a trunk of `k` ports gets 8/k of the 8 hash entries, rounded
      down or up. */
  lemma Fair(s: State, o: seq<Owner>, i: nat)
    requires Exact(s, o) && i < PORTS && o[i].Trunk?
    ensures 8 / Count(o[i].ports) <= Entries(s.masks, i, MASKS) <= (8 + Count(o[i].ports) - 1) / Count(o[i].ports)
  {
    hide Bit, FreeAgrees, ControlAgrees, MaskExact, OwnsAll;
    var j := MemberAt(o[i].ports, PORTS, i);
    EntriesAreHits(s, o, i, j, MASKS);
    if Count(o[i].ports) <= 4 {
      HitsOfFew(j, Count(o[i].ports));
    } else {
      HitsOfMany(j, Count(o[i].ports));
    }
  }

  // ----- the cases in which the tables are left in disagreement, reached from power-up -----

  lemma TwoPorts()
    ensures Members(0x0003, PORTS) == [0, 1] && Count(0x0003) == 2
    ensures forall i :: 0 <= i < WIDTH ==> (Bit(0x0003, i) <==> i < 2) && (Bit(0x0001, i) <==> i < 1)
  {
    LowBits(0x0003, 2);
    LowBits(0x0001, 1);
    hide Bit;
    LowMembers(0x0003, 2, PORTS);
    assert Members(0x0003, 0) == [];
    assert Members(0x0003, 1) == [0];
    assert Members(0x0003, 2) == [0, 1];
  }

  /** The words with the lowest `n` bits set that are used here. */
  lemma LowBits(v: bv16, n: nat)
    requires (v == 0x0001 && n == 1) || (v == 0x0003 && n == 2) || (v == 0x01ff && n == 9)
    ensures forall i :: 0 <= i < WIDTH ==> (Bit(v, i) <==> i < n)
  {
  }

  lemma {:induction false} LowMembers(v: bv16, k: nat, n: nat)
    requires k <= n <= WIDTH && forall i :: 0 <= i < WIDTH ==> (Bit(v, i) <==> i < k)
    ensures Members(v, n) == Members(v, k) && |Members(v, n)| == k
    decreases n
  {
    hide Bit;
    if n > k {
      LowMembers(v, k, n - 1);
    } else if n > 0 {
      LowCount(v, k, n);
    }
  }

  lemma {:induction false} LowCount(v: bv16, k: nat, n: nat)
    requires n <= k <= WIDTH && forall i :: 0 <= i < WIDTH ==> (Bit(v, i) <==> i < k)
    ensures |Members(v, n)| == n
    decreases n
  {
    hide Bit;
    if n > 0 {
      LowCount(v, k, n - 1);
    }
  }

  /** A trunk of ports 0 and 1, made at power-up and cleared by port 0 alone: the call
      succeeds, and the masks no longer give port 1 every hash entry of its trunk. */
  lemma PartialClearReached(s: State)
    requires Initial(s)
    ensures var made, o := TrunkModel.Create(s, 0x0003, 1), Given(NO_TRUNKS, 0x0003, Trunk(0x0003, 1));
      && made.1 == NoError && Exact(made.0, o)
      && var cleared := TrunkModel.Clear(made.0, 0x0001, 1);
      cleared.1 == NoError && !Consistent(cleared.0, Remaining(o, 0x0001))
  {
    hide Bit, Members, Exact, Consistent;
    var v, w := 0x0003 as bv16, 0x0001 as bv16;
    var o := Given(NO_TRUNKS, v, Trunk(v, 1));
    TwoPorts();
    InitialExact(s);
    CreateSucceeds(s, NO_TRUNKS, v, 1);
    CreateKeeps(s, NO_TRUNKS, v, 1);
    var made := TrunkModel.Create(s, v, 1).0;
    ClearSucceeds(made, o, w, 1);
    ClearKeepsExactly(made, o, w, 1);
    assert Bit(w, 0) && o[0] == Trunk(v, 1) && Bit(v, 1) && !Bit(w, 1);
    assert !Within(o[0].ports, w);
  }

  /** Nine free ports, asked for at power-up: the call is refused, yet the ports are
      not free afterwards, and a second call for any of them finds them taken. */
  lemma NineStayClaimed(s: State, id: bv16)
    requires Initial(s)
    ensures var (t, e) := TrunkModel.Create(s, 0x01ff, id);
      && e == TrunkMemberInvalid && t.masks == s.masks
      && (forall i :: 0 <= i < 9 ==> !Bit(t.free, i))
      && Count(0x0003) > 0 && TrunkModel.Create(t, 0x0003, id) == (t, PortExitInOtherTrunk)
  {
    hide Bit, Members, Exact;
    var v := 0x01ff as bv16;
    LowBits(v, 9);
    LowMembers(v, 9, PORTS);
    TwoPorts();
    InitialExact(s);
    CreateSucceeds(s, NO_TRUNKS, v, id);
    var t := TrunkModel.Create(s, v, id).0;
    assert Bit(0x0003, 0) && !Bit(t.free, 0);
  }
}
