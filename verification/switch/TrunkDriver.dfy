/**
 The driver itself: a bit vector, a table of masks and the port registers, changed
 port by port as the vector is shifted right. Each method is tied to the operation
 on values.
 */
module TrunkDriver {
  import opened Bits
  import opened TrunkModel

  /** `rest` is `v` shifted right `n` times. */
  ghost predicate Shifted(rest: bv16, v: bv16, n: nat) {
    forall i :: 0 <= i < WIDTH ==> (Bit(rest, i) <==> i + n < WIDTH && Bit(v, i + n))
  }

  lemma ShiftedOnce(rest: bv16, v: bv16, n: nat)
    requires Shifted(rest, v, n) && n < PORTS
    ensures Shifted(Halve(rest), v, n + 1) && (Odd(rest) <==> Bit(v, n))
  {
    hide Bit;
    assert Bit(rest, 0) <==> Bit(v, n);
  }

  lemma {:induction false} MembersGrow(v: bv16, n: nat, m: nat)
    requires n <= m <= WIDTH
    ensures |Members(v, n)| <= |Members(v, m)|
  {
    hide Bit;
    if n < m {
      MembersGrow(v, n, m - 1);
    }
  }

  class Switch {
    var trunkVector: bv16
    const maskTable: array<bv16>
    const control: array<bv16>

    constructor (registers: seq<bv16>)
      requires |registers| == PORTS && forall i :: 0 <= i < PORTS ==> !TrunkBit(registers[i])
      ensures Valid() && fresh(maskTable) && fresh(control)
      ensures Snapshot() == State(ALL_PORTS, seq(MASKS, l => ALL_PORTS), registers)
    {
      trunkVector := ALL_PORTS;
      maskTable := new bv16[MASKS](_ => ALL_PORTS);
      control := new bv16[PORTS](i requires 0 <= i < PORTS => registers[i]);
    }

    ghost predicate Valid() {
      maskTable.Length == MASKS && control.Length == PORTS && maskTable != control
    }

    ghost function Snapshot(): (s: State)
      reads this, maskTable, control
      requires Valid()
      ensures Shape(s)
    {
      State(trunkVector, maskTable[..], control[..])
    }

    method MarkPorts(portVector: bv16, trunkId: bv16)
      requires Valid()
      modifies control
      ensures forall i :: 0 <= i < PORTS ==> control[i] == if Bit(portVector, i) then Joined(old(control[i]), trunkId) else old(control[i])
    {
      hide Bit, Joined;
      var loop, rest := 0, portVector;
      while loop < PORTS
        invariant 0 <= loop <= PORTS && Shifted(rest, portVector, loop)
        invariant forall i :: 0 <= i < loop ==> control[i] == if Bit(portVector, i) then Joined(old(control[i]), trunkId) else old(control[i])
        invariant forall i :: loop <= i < PORTS ==> control[i] == old(control[i])
      {
        ShiftedOnce(rest, portVector, loop);
        if Odd(rest) {
          control[loop] := Joined(control[loop], trunkId);
        }
        rest := Halve(rest);
        loop := loop + 1;
      }
    }

    /** Set_Trunk_port */
    method SetTrunkPort(portVector: bv16, trunkId: bv16) returns (e: Error)
      requires Valid()
      modifies `trunkVector, control
      ensures (Snapshot(), e) == SetPorts(old(Snapshot()), portVector, trunkId)
      ensures e == NoError && trunkId < 16 ==> PortsJoined(old(control[..]), control[..], portVector, trunkId)
    {
      hide Bit, Joined, And, Without;
      if And(trunkVector, portVector) != portVector {
        return PortExitInOtherTrunk;
      }
      trunkVector := Without(trunkVector, portVector);
      MarkPorts(portVector, trunkId);
      e := NoError;
      assert Snapshot().control == SetPorts(old(Snapshot()), portVector, trunkId).0.control;
      if trunkId < 16 {
        SetPortsJoins(old(Snapshot()), portVector, trunkId);
      }
    }

    /** The first loop of Set_TRUNK_TABLE: one word for each member. `overrun` says that
        a ninth member was found: the C code stores its word behind the eight places
        before it looks at the count. */
    method MemberMasks(portVector: bv16) returns (mask: array<bv16>, tag: nat, overrun: bool)
      ensures fresh(mask) && mask.Length == MASKS
      ensures overrun <==> Count(portVector) > MASKS
      ensures !overrun ==> tag == Count(portVector) && forall k :: 0 <= k < tag ==> mask[k] == Mask(Members(portVector, PORTS)[k])
    {
      hide Bit, Mask;
      mask := new bv16[MASKS];
      tag, overrun := 0, false;
      var loop, rest := 0, portVector;
      while loop < PORTS
        invariant 0 <= loop <= PORTS && Shifted(rest, portVector, loop)
        invariant tag == |Members(portVector, loop)| <= MASKS
        invariant forall k :: 0 <= k < tag ==> mask[k] == Mask(Members(portVector, loop)[k])
      {
        ShiftedOnce(rest, portVector, loop);
        if Odd(rest) {
          if tag == mask.Length {
            overrun := true;
            MembersGrow(portVector, loop + 1, PORTS);
            return;
          }
          mask[tag] := Mask(loop);
          tag := tag + 1;
        }
        rest := Halve(rest);
        loop := loop + 1;
      }
    }

    lemma NextSlot(l: nat, k: nat)
      requires 0 < k <= MASKS && l < MASKS
      ensures Slot(l + 1, k) == if Slot(l, k) + 1 >= k then 0 else Slot(l, k) + 1
    {
      if k == 1 {} else if k == 2 {} else if k == 3 {} else if k == 4 {}
      else if k == 5 {} else if k == 6 {} else if k == 7 {} else {}
    }

    /** Set_TRUNK_TABLE. With no member at all the C code reads a word that it
        never stored, so a caller must name one. */
    method SetTrunkTable(portVector: bv16) returns (e: Error)
      requires Valid() && Count(portVector) > 0
      modifies maskTable
      ensures (Snapshot(), e) == SetTable(old(Snapshot()), portVector)
      ensures e == NoError ==> Dealt(old(maskTable[..]), maskTable[..], portVector)
    {
      hide Bit, Mask, Members, Slot, And, Or, Without;
      var mask, tag, overrun := MemberMasks(portVector);
      if overrun {
        return TrunkMemberInvalid;
      }
      var loop, loopTag := 0, 0;
      while loop < MASKS
        invariant 0 <= loop <= MASKS && 0 <= loopTag <= tag
        invariant forall k :: 0 <= k < tag ==> mask[k] == Mask(Members(portVector, PORTS)[k])
        invariant (if loopTag >= tag then 0 else loopTag) == Slot(loop, tag)
        invariant forall l :: 0 <= l < loop ==> maskTable[l] == Or(Without(old(maskTable[l]), portVector), Mask(Turn(portVector, l)))
        invariant forall l :: loop <= l < MASKS ==> maskTable[l] == old(maskTable[l])
      {
        if loopTag >= tag {
          loopTag := 0;
        }
        maskTable[loop] := Without(maskTable[loop], portVector);
        maskTable[loop] := Or(maskTable[loop], mask[loopTag]);
        loopTag := loopTag + 1;
        NextSlot(loop, tag);
        loop := loop + 1;
      }
      e := NoError;
      assert Snapshot().masks == SetTable(old(Snapshot()), portVector).0.masks;
      SetTableDeals(old(Snapshot()), portVector);
    }

    /** The checking loop of Clear_A_trunk. */
    method CheckMembers(portVector: bv16, trunkId: bv16) returns (e: Error)
      requires Valid()
      ensures e == Refusal(Snapshot(), portVector, trunkId, 0)
    {
      hide Bit, TrunkBit, IdOf;
      var loop, rest := 0, portVector;
      while loop < PORTS
        invariant 0 <= loop <= PORTS && Shifted(rest, portVector, loop)
        invariant Refusal(Snapshot(), portVector, trunkId, 0) == Refusal(Snapshot(), portVector, trunkId, loop)
      {
        ShiftedOnce(rest, portVector, loop);
        if Odd(rest) {
          if !TrunkBit(control[loop]) {
            return TrunkPortError;
          }
          if IdOf(control[loop]) != trunkId {
            return TrunkIdNotMatch;
          }
        }
        rest := Halve(rest);
        loop := loop + 1;
      }
      e := NoError;
    }

    method UnmarkPorts(portVector: bv16)
      requires Valid()
      modifies control
      ensures forall i :: 0 <= i < PORTS ==> control[i] == if Bit(portVector, i) then Left(old(control[i])) else old(control[i])
    {
      hide Bit, Left;
      var loop, rest := 0, portVector;
      while loop < PORTS
        invariant 0 <= loop <= PORTS && Shifted(rest, portVector, loop)
        invariant forall i :: 0 <= i < loop ==> control[i] == if Bit(portVector, i) then Left(old(control[i])) else old(control[i])
        invariant forall i :: loop <= i < PORTS ==> control[i] == old(control[i])
      {
        ShiftedOnce(rest, portVector, loop);
        if Odd(rest) {
          control[loop] := Left(control[loop]);
        }
        rest := Halve(rest);
        loop := loop + 1;
      }
    }

    method OpenMasks(portVector: bv16)
      requires Valid()
      modifies maskTable
      ensures forall l :: 0 <= l < MASKS ==> maskTable[l] == Or(old(maskTable[l]), portVector)
    {
      hide Or;
      var loop := 0;
      while loop < MASKS
        invariant 0 <= loop <= MASKS
        invariant forall l :: 0 <= l < loop ==> maskTable[l] == Or(old(maskTable[l]), portVector)
        invariant forall l :: loop <= l < MASKS ==> maskTable[l] == old(maskTable[l])
      {
        maskTable[loop] := Or(maskTable[loop], portVector);
        loop := loop + 1;
      }
    }

    /** Clear_A_trunk */
    method ClearATrunk(portVector: bv16, trunkId: bv16) returns (e: Error)
      requires Valid()
      modifies `trunkVector, control, maskTable
      ensures (Snapshot(), e) == Clear(old(Snapshot()), portVector, trunkId)
      ensures e == NoError ==> PortsLeft(old(control[..]), control[..], portVector)
    {
      hide Bit, Left, Refusal, And, Or;
      if And(trunkVector, portVector) != 0 {
        return TrunkIsntExit;
      }
      e := CheckMembers(portVector, trunkId);
      if e != NoError {
        return;
      }
      trunkVector := Or(trunkVector, portVector);
      UnmarkPorts(portVector);
      OpenMasks(portVector);
      assert Snapshot().masks == Clear(old(Snapshot()), portVector, trunkId).0.masks;
      assert Snapshot().control == Clear(old(Snapshot()), portVector, trunkId).0.control;
      ClearLeaves(old(Snapshot()), portVector, trunkId);
    }
  }
}
