/**
 The trunk allocator of the switch, on values: which ports are free, the eight
 hash masks and the control register of each port; and what it means for them to
 agree with one another.
 */
module TrunkModel {
  import opened Bits

  const PORTS: nat := 11
  const MASKS: nat := 8
  const ALL_PORTS: bv16 := 0x07ff

  lemma AllPortsBits()
    ensures forall i :: 0 <= i < WIDTH ==> (Bit(ALL_PORTS, i) <==> i < PORTS)
  {
    Masks();
  }

  datatype Error =
    | NoError | PortExitInOtherTrunk | TrunkMemberInvalid
    | TrunkIsntExit | TrunkPortError | TrunkIdNotMatch

  datatype State = State(free: bv16, masks: seq<bv16>, control: seq<bv16>)

  predicate Shape(s: State) {
    |s.masks| == MASKS && |s.control| == PORTS
  }

  // ----- the control register of a port -----

  predicate TrunkBit(c: bv16) {
    c & 0x4000 != 0
  }

  function IdOf(c: bv16): bv16 {
    (c & 0x0f00) >> 8
  }

  function Joined(c: bv16, id: bv16): bv16 {
    (((c & !0x0f00) | 0x4000) | (id << 8)) & 0xff00
  }

  function Left(c: bv16): bv16 {
    (c & !0x4000) & !0x0f00
  }

  /** A port that joins gets bit 14 and the id in bits 8 to 11; bits 12, 13 and 15 stay, and
      the low byte is cleared. */
  ghost predicate JoinsBits(c: bv16, id: bv16, j: bv16) {
    && Bit(j, 14) && (forall i :: 0 <= i < 4 ==> (Bit(j, 8 + i) <==> Bit(id, i)))
    && (Bit(j, 12) <==> Bit(c, 12)) && (Bit(j, 13) <==> Bit(c, 13)) && (Bit(j, 15) <==> Bit(c, 15))
    && forall i :: 0 <= i < 8 ==> !Bit(j, i)
  }

  /** A port that leaves loses bit 14 and bits 8 to 11, and nothing else. */
  ghost predicate LeavesBits(c: bv16, l: bv16) {
    forall i :: 0 <= i < WIDTH ==> (Bit(l, i) <==> Bit(c, i) && i != 14 && !(8 <= i <= 11))
  }

  lemma JoinedReads(c: bv16, id: bv16)
    requires id < 16
    ensures TrunkBit(Joined(c, id)) && IdOf(Joined(c, id)) == id && JoinsBits(c, id, Joined(c, id))
  {
    JoinedHigh(c, id);
    JoinedId(c, id);
    JoinedLow(c, id);
  }

  lemma JoinedHigh(c: bv16, id: bv16)
    requires id < 16
    ensures var j := Joined(c, id);
      Bit(j, 14) && (Bit(j, 12) <==> Bit(c, 12)) && (Bit(j, 13) <==> Bit(c, 13)) && (Bit(j, 15) <==> Bit(c, 15))
  {
  }

  lemma JoinedId(c: bv16, id: bv16)
    requires id < 16
    ensures var j := Joined(c, id);
      (Bit(j, 8) <==> Bit(id, 0)) && (Bit(j, 9) <==> Bit(id, 1)) && (Bit(j, 10) <==> Bit(id, 2)) && (Bit(j, 11) <==> Bit(id, 3))
  {
  }

  lemma JoinedLow(c: bv16, id: bv16)
    ensures var j := Joined(c, id);
      !Bit(j, 0) && !Bit(j, 1) && !Bit(j, 2) && !Bit(j, 3) && !Bit(j, 4) && !Bit(j, 5) && !Bit(j, 6) && !Bit(j, 7)
  {
  }

  lemma LeftReads(c: bv16)
    ensures !TrunkBit(Left(c)) && IdOf(Left(c)) == 0 && LeavesBits(c, Left(c))
  {
    RegisterMasks();
    LeftIs(c);
    hide Bit, Left;
  }

  lemma LeftIs(c: bv16)
    ensures Left(c) == Without(Without(c, 0x4000), 0x0f00)
  {
    hide Bit;
  }

  lemma RegisterMasks()
    ensures forall i :: 0 <= i < WIDTH ==> (Bit(0x4000, i) <==> i == 14) && (Bit(0x0f00, i) <==> 8 <= i <= 11)
  {
  }

  // ----- the members of a vector, lowest port first -----

  function Members(v: bv16, n: nat): (m: seq<nat>)
    requires n <= WIDTH
    ensures |m| <= n
    ensures forall k :: 0 <= k < |m| ==> m[k] < n && Bit(v, m[k])
  {
    if n == 0 then [] else Members(v, n - 1) + if Bit(v, n - 1) then [n - 1] else []
  }

  function Count(v: bv16): nat {
    |Members(v, PORTS)|
  }

  function Slot(l: nat, k: nat): (j: nat)
    requires k > 0
    ensures j < k && (l < k ==> j == l)
  {
    l % k
  }

  /** The member that hash entry `l` is given to: the members take turns. */
  function Turn(v: bv16, l: nat): (i: nat)
    requires Count(v) > 0
    ensures i < PORTS && Bit(v, i)
  {
    Members(v, PORTS)[Slot(l, Count(v))]
  }

  lemma {:induction false} MemberAt(v: bv16, n: nat, i: nat) returns (k: nat)
    requires n <= WIDTH && i < n && Bit(v, i)
    ensures k < |Members(v, n)| && Members(v, n)[k] == i
  {
    hide Bit;
    if i == n - 1 {
      k := |Members(v, n)| - 1;
    } else {
      k := MemberAt(v, n - 1, i);
    }
  }

  lemma {:induction false} MembersAscend(v: bv16, n: nat, j: nat, k: nat)
    requires n <= WIDTH && j < k < |Members(v, n)|
    ensures Members(v, n)[j] < Members(v, n)[k]
  {
    hide Bit;
    if k < |Members(v, n - 1)| {
      MembersAscend(v, n - 1, j, k);
    }
  }

  /** How many ports below `i` the vector names. */
  function Below(v: bv16, i: nat): (n: nat)
    requires i <= WIDTH
    ensures n <= i
  {
    if i == 0 then 0 else Below(v, i - 1) + if Bit(v, i - 1) then 1 else 0
  }

  /** The hash entries after a trunk was dealt: entry `l` goes to the named port with
      `l % k` of the `k` named ports below it, and every other port is where it was. */
  ghost predicate Dealt(before: seq<bv16>, after: seq<bv16>, v: bv16) {
    && |before| == |after| == 8 && Below(v, 11) > 0
    && forall l, i :: 0 <= l < 8 && 0 <= i < WIDTH ==>
         (Bit(after[l], i) <==> if Bit(v, i) then i < 11 && Below(v, i) == l % Below(v, 11) else Bit(before[l], i))
  }

  lemma {:induction false} MembersBelow(v: bv16, n: nat)
    requires n <= WIDTH
    ensures |Members(v, n)| == Below(v, n)
    ensures forall k :: 0 <= k < |Members(v, n)| ==> Below(v, Members(v, n)[k]) == k
  {
    hide Bit;
    if n > 0 {
      MembersBelow(v, n - 1);
    }
  }

  /** Members take turns, lowest port first. */
  lemma TurnIs(v: bv16, l: nat, i: nat)
    requires Count(v) > 0 && i < WIDTH && Bit(v, i)
    ensures Below(v, 11) == Count(v) && (Turn(v, l) == i <==> i < 11 && Below(v, i) == l % Below(v, 11))
  {
    hide Bit;
    MembersBelow(v, PORTS);
    if i < 11 {
      var k := MemberAt(v, PORTS, i);
    }
  }

  // ----- the three operations -----

  /** Set_Trunk_port: claim the ports and mark their registers. */
  function SetPorts(s: State, v: bv16, id: bv16): (r: (State, Error))
    requires Shape(s)
    ensures Shape(r.0)
  {
    if And(s.free, v) != v then (s, PortExitInOtherTrunk)
    else (State(Without(s.free, v), s.masks,
                seq(PORTS, i requires 0 <= i < PORTS => if Bit(v, i) then Joined(s.control[i], id) else s.control[i])),
          NoError)
  }

  /** What claiming does to the registers, bit by bit. */
  ghost predicate PortsJoined(before: seq<bv16>, after: seq<bv16>, v: bv16, id: bv16) {
    && |before| == |after| == PORTS
    && forall p :: 0 <= p < PORTS ==> if Bit(v, p) then JoinsBits(before[p], id, after[p]) else after[p] == before[p]
  }

  /** And what giving back does. */
  ghost predicate PortsLeft(before: seq<bv16>, after: seq<bv16>, v: bv16) {
    && |before| == |after| == PORTS
    && forall p :: 0 <= p < PORTS ==> if Bit(v, p) then LeavesBits(before[p], after[p]) else after[p] == before[p]
  }

  lemma SetPortsJoins(s: State, v: bv16, id: bv16)
    requires Shape(s) && id < 16 && SetPorts(s, v, id).1 == NoError
    ensures PortsJoined(s.control, SetPorts(s, v, id).0.control, v, id)
  {
    hide Bit, Joined, JoinsBits;
    forall p | 0 <= p < PORTS ensures Bit(v, p) ==> JoinsBits(s.control[p], id, SetPorts(s, v, id).0.control[p]) {
      JoinedReads(s.control[p], id);
    }
  }

  lemma ClearLeaves(s: State, v: bv16, id: bv16)
    requires Shape(s) && Clear(s, v, id).1 == NoError
    ensures PortsLeft(s.control, Clear(s, v, id).0.control, v)
  {
    hide Bit, Left, LeavesBits, Refusal;
    forall p | 0 <= p < PORTS ensures Bit(v, p) ==> LeavesBits(s.control[p], Clear(s, v, id).0.control[p]) {
      LeftReads(s.control[p]);
    }
  }

  /** Set_TRUNK_TABLE: deal the hash entries to the members in turn. */
  function SetTable(s: State, v: bv16): (r: (State, Error))
    requires Shape(s) && Count(v) > 0
    ensures Shape(r.0)
  {
    if Count(v) > MASKS then (s, TrunkMemberInvalid)
    else (s.(masks := seq(MASKS, l requires 0 <= l < MASKS => Or(Without(s.masks[l], v), Mask(Turn(v, l))))), NoError)
  }

  lemma SetTableDeals(s: State, v: bv16)
    requires Shape(s) && Count(v) > 0 && SetTable(s, v).1 == NoError
    ensures Dealt(s.masks, SetTable(s, v).0.masks, v)
  {
    hide Bit, Turn, Count;
    CountIs(v);
    forall l, i | 0 <= l < 8 && 0 <= i < WIDTH
      ensures Bit(SetTable(s, v).0.masks[l], i) <==>
        if Bit(v, i) then i < 11 && Below(v, i) == l % Below(v, 11) else Bit(s.masks[l], i)
    {
      MaskBit(Turn(v, l), i);
      if Bit(v, i) {
        TurnIs(v, l, i);
      }
    }
  }

  lemma CountIs(v: bv16)
    ensures Count(v) == Below(v, 11)
  {
    MembersBelow(v, PORTS);
  }

  /** A trunk is made by the first and, when it succeeds, the second. */
  function Create(s: State, v: bv16, id: bv16): (r: (State, Error))
    requires Shape(s) && Count(v) > 0
    ensures Shape(r.0)
  {
    var claimed := SetPorts(s, v, id);
    if claimed.1 != NoError then claimed else SetTable(claimed.0, v)
  }

  /** The first reason to refuse among ports `n`, `n + 1`, ... */
  function Refusal(s: State, v: bv16, id: bv16, n: nat): (e: Error)
    requires Shape(s) && n <= PORTS
    ensures e.NoError? <==> forall i :: n <= i < PORTS && Bit(v, i) ==> TrunkBit(s.control[i]) && IdOf(s.control[i]) == id
    decreases PORTS - n
  {
    if n == PORTS then NoError
    else if Bit(v, n) && !TrunkBit(s.control[n]) then TrunkPortError
    else if Bit(v, n) && IdOf(s.control[n]) != id then TrunkIdNotMatch
    else Refusal(s, v, id, n + 1)
  }

  /** The refusal is about the lowest port that gives a reason, and says which: it is in no
      trunk, or in one with another id. */
  lemma {:induction false} RefusalIsFirst(s: State, v: bv16, id: bv16, n: nat)
    requires Shape(s) && n <= PORTS && Refusal(s, v, id, n) != NoError
    ensures exists i :: n <= i < PORTS && RefusedAt(s, v, id, n, i, Refusal(s, v, id, n))
    decreases PORTS - n
  {
    hide Bit, TrunkBit, IdOf;
    if Bit(v, n) && !(TrunkBit(s.control[n]) && IdOf(s.control[n]) == id) {
      assert RefusedAt(s, v, id, n, n, Refusal(s, v, id, n));
    } else {
      RefusalIsFirst(s, v, id, n + 1);
      var i :| n + 1 <= i < PORTS && RefusedAt(s, v, id, n + 1, i, Refusal(s, v, id, n + 1));
      assert RefusedAt(s, v, id, n, i, Refusal(s, v, id, n));
    }
  }

  ghost predicate RefusedAt(s: State, v: bv16, id: bv16, n: nat, i: nat, e: Error)
    requires Shape(s) && n <= i < PORTS
  {
    && Bit(v, i) && (forall j :: n <= j < i && Bit(v, j) ==> TrunkBit(s.control[j]) && IdOf(s.control[j]) == id)
    && (if TrunkBit(s.control[i]) then IdOf(s.control[i]) != id && e == TrunkIdNotMatch else e == TrunkPortError)
  }

  /** Clear_A_trunk: check every port, then give them all back. */
  function Clear(s: State, v: bv16, id: bv16): (r: (State, Error))
    requires Shape(s)
    ensures Shape(r.0)
  {
    if And(s.free, v) != 0 then (s, TrunkIsntExit)
    else
      var e := Refusal(s, v, id, 0);
      if e != NoError then (s, e)
      else (State(Or(s.free, v),
                  seq(MASKS, l requires 0 <= l < MASKS => Or(s.masks[l], v)),
                  seq(PORTS, i requires 0 <= i < PORTS => if Bit(v, i) then Left(s.control[i]) else s.control[i])),
            NoError)
  }

  /** The errors of a clear, in the order in which they are looked for. */
  lemma ClearErrors(s: State, v: bv16, id: bv16)
    requires Shape(s)
    ensures var e := Clear(s, v, id).1;
      && (e == TrunkIsntExit <==> exists i :: 0 <= i < WIDTH && Bit(s.free, i) && Bit(v, i))
      && (e != TrunkIsntExit && e != NoError ==> exists i :: 0 <= i < PORTS && RefusedAt(s, v, id, 0, i, e))
      && (e != NoError ==> Clear(s, v, id).0 == s)
  {
    hide RefusedAt, TrunkBit, IdOf;
    ZeroBits();
    if !(exists i :: 0 <= i < WIDTH && Bit(s.free, i) && Bit(v, i)) {
      hide Bit;
      SameBits(And(s.free, v), 0);
    }
    if Refusal(s, v, id, 0) != NoError {
      RefusalIsFirst(s, v, id, 0);
      KindOfRefusal(s, v, id, 0);
    }
  }

  lemma {:induction false} KindOfRefusal(s: State, v: bv16, id: bv16, n: nat)
    requires Shape(s) && n <= PORTS
    ensures Refusal(s, v, id, n) in {NoError, TrunkPortError, TrunkIdNotMatch}
    decreases PORTS - n
  {
    if n < PORTS {
      KindOfRefusal(s, v, id, n + 1);
    }
  }
}
