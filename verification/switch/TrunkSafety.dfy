/**
 What every run of trunk creations and clears keeps: no port in two trunks, and
 the free ports, the registers and the masks telling the same story about which
 port is in which trunk.
 */
module TrunkSafety {
  import opened Bits
  import opened TrunkModel

  /** Which trunk a port is in. A function of the port, so at most one. */
  datatype Owner = Free | Trunk(ports: bv16, id: bv16)

  /** One owner for each port. A trunk has 1 to 8 ports and owns all of them. */
  ghost predicate Owned(o: seq<Owner>) {
    && |o| == PORTS
    && forall i :: 0 <= i < PORTS && o[i].Trunk? ==>
         Bit(o[i].ports, i) && OwnsAll(o, i) && o[i].id < 16 && 1 <= Count(o[i].ports) <= MASKS
  }

  ghost predicate OwnsAll(o: seq<Owner>, i: nat)
    requires |o| == PORTS && i < PORTS && o[i].Trunk?
  {
    forall j :: 0 <= j < WIDTH && Bit(o[i].ports, j) ==> j < PORTS && o[j] == o[i]
  }

  ghost predicate FreeAgrees(s: State, o: seq<Owner>)
    requires |o| == PORTS
  {
    forall i :: 0 <= i < WIDTH ==> (Bit(s.free, i) <==> i < PORTS && o[i].Free?)
  }

  ghost predicate ControlAgrees(s: State, o: seq<Owner>)
    requires Shape(s) && |o| == PORTS
  {
    forall i :: 0 <= i < PORTS ==>
      (TrunkBit(s.control[i]) <==> o[i].Trunk?) && (o[i].Trunk? ==> IdOf(s.control[i]) == o[i].id)
  }

  /** Exactly one port of `v` is in the mask `m`. */
  ghost predicate OneOf(m: bv16, v: bv16) {
    exists j :: 0 <= j < PORTS && OnlyPort(m, v, j)
  }

  ghost predicate OnlyPort(m: bv16, v: bv16, j: nat)
    requires j < PORTS
  {
    Bit(v, j) && Bit(m, j) && forall k :: 0 <= k < PORTS && Bit(v, k) && Bit(m, k) ==> k == j
  }

  ghost predicate MaskAgrees(m: bv16, o: seq<Owner>)
    requires |o| == PORTS
  {
    forall i :: 0 <= i < PORTS ==> (o[i].Free? ==> Bit(m, i)) && (o[i].Trunk? ==> OneOf(m, o[i].ports))
  }

  /** The promise: the free vector is the complement of all members, a register
      carries the trunk bit and the id exactly for a member, a free port is in
      every mask, and a mask holds exactly one member of each trunk. */
  ghost predicate Consistent(s: State, o: seq<Owner>) {
    Shape(s) && Owned(o) && FreeAgrees(s, o) && ControlAgrees(s, o) && forall l :: 0 <= l < MASKS ==> MaskAgrees(s.masks[l], o)
  }

  /** Mask `l` holds the free ports and, of each trunk, the one whose turn it is. */
  ghost predicate MaskExact(m: bv16, o: seq<Owner>, l: nat)
    requires Owned(o)
  {
    forall i :: 0 <= i < WIDTH ==> (Bit(m, i) <==> i < PORTS && (o[i].Trunk? ==> Turn(o[i].ports, l) == i))
  }

  /** The same with the masks determined to the bit; this is what runs keep. */
  ghost predicate Exact(s: State, o: seq<Owner>) {
    Shape(s) && Owned(o) && FreeAgrees(s, o) && ControlAgrees(s, o) && forall l :: 0 <= l < MASKS ==> MaskExact(s.masks[l], o, l)
  }

  lemma MaskExactAgrees(m: bv16, o: seq<Owner>, l: nat)
    requires Owned(o) && MaskExact(m, o, l)
    ensures MaskAgrees(m, o)
  {
    hide Bit;
    forall i | 0 <= i < PORTS && o[i].Trunk? ensures OneOf(m, o[i].ports) {
      assert OwnsAll(o, i);
      assert OnlyPort(m, o[i].ports, Turn(o[i].ports, l));
    }
  }

  lemma ExactIsConsistent(s: State, o: seq<Owner>)
    requires Exact(s, o)
    ensures Consistent(s, o)
  {
    hide MaskExact, MaskAgrees, FreeAgrees, ControlAgrees;
    forall l | 0 <= l < MASKS ensures MaskAgrees(s.masks[l], o) {
      MaskExactAgrees(s.masks[l], o, l);
    }
  }

  // ----- creating a trunk -----

  function Given(o: seq<Owner>, v: bv16, owner: Owner): (r: seq<Owner>)
    requires |o| == PORTS
    ensures |r| == PORTS
  {
    seq(PORTS, i requires 0 <= i < PORTS => if Bit(v, i) then owner else o[i])
  }

  lemma Covers(a: bv16, v: bv16)
    ensures And(a, v) == v <==> Within(v, a)
  {
    hide Bit;
    if Within(v, a) {
      SameBits(And(a, v), v);
    }
  }

  lemma GivenOwned(o: seq<Owner>, v: bv16, id: bv16)
    requires Owned(o) && id < 16 && 1 <= Count(v) <= MASKS
    requires forall i :: 0 <= i < WIDTH && Bit(v, i) ==> i < PORTS && o[i].Free?
    ensures Owned(Given(o, v, Trunk(v, id)))
  {
    hide Bit, Count;
    var r := Given(o, v, Trunk(v, id));
    forall i | 0 <= i < PORTS && r[i].Trunk?
      ensures Bit(r[i].ports, i) && OwnsAll(r, i) && r[i].id < 16 && 1 <= Count(r[i].ports) <= MASKS
    {
      if !Bit(v, i) {
        assert OwnsAll(o, i);
      }
    }
  }

  lemma CreateMasks(s: State, o: seq<Owner>, v: bv16, id: bv16, l: nat)
    requires Exact(s, o) && l < MASKS && id < 16 && 1 <= Count(v) <= MASKS
    requires forall i :: 0 <= i < WIDTH && Bit(v, i) ==> i < PORTS && o[i].Free?
    requires Owned(Given(o, v, Trunk(v, id)))
    ensures MaskExact(Or(Without(s.masks[l], v), Mask(Turn(v, l))), Given(o, v, Trunk(v, id)), l)
  {
    hide Bit, FreeAgrees, ControlAgrees, Members;
    assert MaskExact(s.masks[l], o, l);
    var r := Given(o, v, Trunk(v, id));
    var m := Or(Without(s.masks[l], v), Mask(Turn(v, l)));
    forall i | 0 <= i < WIDTH
      ensures Bit(m, i) <==> i < PORTS && (r[i].Trunk? ==> Turn(r[i].ports, l) == i)
    {
      MaskBit(Turn(v, l), i);
    }
  }

  ghost predicate AllFree(o: seq<Owner>, v: bv16)
    requires |o| == PORTS
  {
    forall i :: 0 <= i < WIDTH && Bit(v, i) ==> i < PORTS && o[i].Free?
  }

  /** Creating a trunk succeeds exactly when every port asked for is a free port
      of the switch and there are at most 8 of them. When a port is not free,
      nothing changes; when there are more than 8, the ports stay claimed although
      no mask was written. */
  lemma CreateSucceeds(s: State, o: seq<Owner>, v: bv16, id: bv16)
    requires Exact(s, o) && 1 <= Count(v)
    ensures Create(s, v, id).1 == NoError <==> AllFree(o, v) && Count(v) <= MASKS
    ensures !AllFree(o, v) <==> Create(s, v, id) == (s, PortExitInOtherTrunk)
    ensures AllFree(o, v) && Count(v) > MASKS ==>
              var (s', e) := Create(s, v, id);
              e == TrunkMemberInvalid && s'.masks == s.masks && forall i :: 0 <= i < WIDTH && Bit(v, i) ==> Bit(s.free, i) && !Bit(s'.free, i)
  {
    hide Bit, Members, MaskExact, ControlAgrees, OwnsAll;
    Covers(s.free, v);
  }

  lemma CreateControl(s: State, o: seq<Owner>, v: bv16, id: bv16)
    requires Shape(s) && |o| == PORTS && ControlAgrees(s, o) && id < 16 && 1 <= Count(v) <= MASKS
    requires And(s.free, v) == v
    ensures ControlAgrees(Create(s, v, id).0, Given(o, v, Trunk(v, id)))
  {
    hide Bit, Members, Joined, TrunkBit, IdOf;
    var s', r := Create(s, v, id).0, Given(o, v, Trunk(v, id));
    forall i | 0 <= i < PORTS
      ensures (TrunkBit(s'.control[i]) <==> r[i].Trunk?) && (r[i].Trunk? ==> IdOf(s'.control[i]) == r[i].id)
    {
      JoinedReads(s.control[i], id);
    }
  }

  /** Then the new trunk owns its ports, and all tables agree again. */
  lemma CreateKeeps(s: State, o: seq<Owner>, v: bv16, id: bv16)
    requires Exact(s, o) && id < 16 && 1 <= Count(v) <= MASKS && Create(s, v, id).1 == NoError
    ensures Exact(Create(s, v, id).0, Given(o, v, Trunk(v, id)))
  {
    hide Bit, Members, MaskExact, ControlAgrees, OwnsAll;
    CreateSucceeds(s, o, v, id);
    GivenOwned(o, v, id);
    CreateControl(s, o, v, id);
    forall l | 0 <= l < MASKS ensures MaskExact(Create(s, v, id).0.masks[l], Given(o, v, Trunk(v, id)), l) {
      CreateMasks(s, o, v, id, l);
    }
  }

  // ----- clearing -----

  lemma Apart(a: bv16, v: bv16)
    ensures And(a, v) == 0 <==> forall i :: 0 <= i < WIDTH ==> !(Bit(a, i) && Bit(v, i))
  {
    ZeroBits();
    if forall i :: 0 <= i < WIDTH ==> !(Bit(a, i) && Bit(v, i)) {
      hide Bit;
      SameBits(And(a, v), 0);
    }
  }

  /** The ports of the switch in `v` are all trunk members with this id. */
  predicate AllMembers(o: seq<Owner>, v: bv16, id: bv16)
    requires |o| == PORTS
  {
    forall i :: 0 <= i < PORTS && Bit(v, i) ==> o[i].Trunk? && o[i].id == id
  }

  /** A clear succeeds exactly when the ports of the switch it names are all
      members with its id; otherwise it returns an error with nothing changed. */
  lemma ClearSucceeds(s: State, o: seq<Owner>, v: bv16, id: bv16)
    requires Exact(s, o)
    ensures Clear(s, v, id).1 == NoError <==> AllMembers(o, v, id)
    ensures Clear(s, v, id).1 != NoError ==> Clear(s, v, id).0 == s
  {
    hide Bit, MaskExact, OwnsAll;
    Apart(s.free, v);
  }

  /** The vector names ports of the switch only, and each trunk wholly or not at all. */
  predicate Whole(o: seq<Owner>, v: bv16)
    requires |o| == PORTS
  {
    && Within(v, ALL_PORTS)
    && forall i :: 0 <= i < PORTS && Bit(v, i) && o[i].Trunk? ==> Within(o[i].ports, v)
  }

  /** The owners once the ports of `v` are taken out of their trunks. */
  function Remaining(o: seq<Owner>, v: bv16): (r: seq<Owner>)
    requires |o| == PORTS
    ensures |r| == PORTS
  {
    seq(PORTS, i requires 0 <= i < PORTS =>
      if Bit(v, i) || o[i].Free? then Free else Trunk(Without(o[i].ports, v), o[i].id))
  }

  /** Clearing whole trunks leaves the other trunks as they are. */
  lemma WholeRemaining(o: seq<Owner>, v: bv16)
    requires Owned(o) && Whole(o, v)
    ensures Remaining(o, v) == Given(o, v, Free)
  {
    hide Bit, Count, Members;
    forall i | 0 <= i < PORTS && !Bit(v, i) && o[i].Trunk? ensures Without(o[i].ports, v) == o[i].ports {
      assert OwnsAll(o, i);
      forall j | 0 <= j < WIDTH ensures Bit(Without(o[i].ports, v), j) <==> Bit(o[i].ports, j) {
      }
      SameBits(Without(o[i].ports, v), o[i].ports);
    }
  }

  lemma FreedOwned(o: seq<Owner>, v: bv16)
    requires Owned(o) && Whole(o, v)
    ensures Owned(Given(o, v, Free))
  {
    hide Bit, Count;
    var r := Given(o, v, Free);
    forall i | 0 <= i < PORTS && r[i].Trunk? ensures OwnsAll(r, i) {
      assert OwnsAll(o, i);
    }
  }

  lemma ClearMasks(s: State, o: seq<Owner>, v: bv16, l: nat)
    requires Exact(s, o) && l < MASKS && Whole(o, v) && Owned(Given(o, v, Free))
    ensures MaskExact(Or(s.masks[l], v), Given(o, v, Free), l)
  {
    hide Bit, FreeAgrees, ControlAgrees, OwnsAll, Count;
    AllPortsBits();
    assert MaskExact(s.masks[l], o, l);
  }

  lemma ClearControl(s: State, o: seq<Owner>, v: bv16, id: bv16)
    requires Shape(s) && |o| == PORTS && ControlAgrees(s, o) && Clear(s, v, id).1 == NoError
    ensures ControlAgrees(Clear(s, v, id).0, Remaining(o, v))
  {
    hide Bit, Left, TrunkBit, IdOf, Refusal;
    var s', r := Clear(s, v, id).0, Remaining(o, v);
    forall i | 0 <= i < PORTS
      ensures (TrunkBit(s'.control[i]) <==> r[i].Trunk?) && (r[i].Trunk? ==> IdOf(s'.control[i]) == r[i].id)
    {
      LeftReads(s.control[i]);
    }
  }

  /** Clearing whole trunks frees their ports, and all tables agree again. */
  lemma ClearKeeps(s: State, o: seq<Owner>, v: bv16, id: bv16)
    requires Exact(s, o) && Clear(s, v, id).1 == NoError && Whole(o, v)
    ensures Exact(Clear(s, v, id).0, Given(o, v, Free))
  {
    hide Bit, MaskExact, ControlAgrees, OwnsAll, Refusal;
    WholeRemaining(o, v);
    FreedOwned(o, v);
    ClearControl(s, o, v, id);
    AllPortsBits();
    forall l | 0 <= l < MASKS ensures MaskExact(Clear(s, v, id).0.masks[l], Given(o, v, Free), l) {
      ClearMasks(s, o, v, l);
    }
  }

  /** Taking port `i` out of its trunk: a hash entry dealt to `i` then goes to no
      port that is left in the trunk. */
  lemma Starved(m: bv16, o: seq<Owner>, v: bv16, l: nat, i: nat)
    requires Owned(o) && MaskExact(m, o, l)
    requires i < PORTS && o[i].Trunk? && Bit(v, i) && Turn(o[i].ports, l) == i
    ensures !OneOf(Or(m, v), Without(o[i].ports, v))
  {
    hide Bit, Turn, Count;
    assert OwnsAll(o, i);
    var left := Without(o[i].ports, v);
    forall k | 0 <= k < PORTS ensures !OnlyPort(Or(m, v), left, k) {
      if Bit(left, k) {
        assert o[k] == o[i];
      }
    }
  }

  /** Every member of a trunk is dealt some hash entry. */
  lemma DealtTo(v: bv16, i: nat) returns (l: nat)
    requires i < PORTS && Bit(v, i) && Count(v) <= MASKS
    ensures l < MASKS && Count(v) > 0 && Turn(v, l) == i
  {
    hide Bit, Slot;
    l := MemberAt(v, PORTS, i);
  }

  lemma PartialClearStarves(s: State, o: seq<Owner>, v: bv16, id: bv16, i: nat, j: nat)
    requires Exact(s, o) && Clear(s, v, id).1 == NoError
    requires i < PORTS && o[i].Trunk? && Bit(v, i) && j < PORTS && Bit(o[i].ports, j) && !Bit(v, j)
    ensures exists l :: 0 <= l < MASKS && !MaskAgrees(Clear(s, v, id).0.masks[l], Remaining(o, v))
  {
    hide Bit, FreeAgrees, ControlAgrees, MaskExact, OneOf, Refusal, Turn, Count, TrunkBit, IdOf, Left;
    assert OwnsAll(o, i) && o[j] == o[i];
    var l := DealtTo(o[i].ports, i);
    Starved(s.masks[l], o, v, l, i);
    assert Remaining(o, v)[j] == Trunk(Without(o[i].ports, v), o[i].id);
    assert !MaskAgrees(Clear(s, v, id).0.masks[l], Remaining(o, v));
  }

  /** After a clear that succeeded, the tables agree about what is left of each
      trunk exactly when the clear named whole trunks. */
  lemma ClearKeepsExactly(s: State, o: seq<Owner>, v: bv16, id: bv16)
    requires Exact(s, o) && Clear(s, v, id).1 == NoError
    ensures Consistent(Clear(s, v, id).0, Remaining(o, v)) <==> Whole(o, v)
  {
    hide Bit, MaskExact, ControlAgrees, OwnsAll, MaskAgrees, Refusal;
    if Whole(o, v) {
      ClearKeeps(s, o, v, id);
      WholeRemaining(o, v);
      ExactIsConsistent(Clear(s, v, id).0, Given(o, v, Free));
    } else if !Within(v, ALL_PORTS) {
      AllPortsBits();
    } else {
      var i :| 0 <= i < PORTS && Bit(v, i) && o[i].Trunk? && !Within(o[i].ports, v);
      var j :| 0 <= j < WIDTH && Bit(o[i].ports, j) && !Bit(v, j);
      OwnerInside(o, i, j);
      PartialClearStarves(s, o, v, id, i, j);
    }
  }

  lemma OwnerInside(o: seq<Owner>, i: nat, j: nat)
    requires Owned(o) && i < PORTS && o[i].Trunk? && j < WIDTH && Bit(o[i].ports, j)
    ensures j < PORTS
  {
    assert OwnsAll(o, i);
  }
}
