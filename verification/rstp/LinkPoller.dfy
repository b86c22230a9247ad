/**
 The poll that turns sampled link states into port notifications and ticks once a
 second at most. The port bits of the current samples are written into a word whose
 other bits were never set to anything.
 */
module LinkPoller {
  import opened Bitmap

  type Links = s: seq<bool> | |s| == PORTS witness seq(PORTS, i => false)

  const WRAP: nat := 0x1_0000_0000

  /** The seconds counter, an unsigned 32-bit count. */
  type Seconds = s: nat | s < WRAP

  /** Unsigned subtraction. */
  function Minus(a: Seconds, b: Seconds): Seconds {
    if b <= a then a - b else a + WRAP - b
  }

  datatype Notice = Notice(port: nat, up: bool)

  /** The notices of one poll, in port order: one for each port that changed. */
  function Changes(before: Links, after: Links, n: nat): (c: seq<Notice>)
    requires n <= PORTS
  {
    if n == 0 then []
    else Changes(before, after, n - 1) + if before[n - 1] != after[n - 1] then [Notice(n - 1, after[n - 1])] else []
  }

  /** One notice for each port that differs, with its new state, and no other; in port order. */
  ghost predicate ChangesAre(c: seq<Notice>, before: Links, after: Links, n: nat)
    requires n <= PORTS
  {
    && (forall k :: 0 <= k < |c| ==> c[k].port < n && before[c[k].port] != after[c[k].port] && c[k].up == after[c[k].port])
    && (forall k, l :: 0 <= k < l < |c| ==> c[k].port < c[l].port)
    && (forall p :: 0 <= p < n && before[p] != after[p] ==> Notice(p, after[p]) in c)
  }

  lemma {:induction false} ChangesExactly(before: Links, after: Links, n: nat)
    requires n <= PORTS
    ensures ChangesAre(Changes(before, after, n), before, after, n)
  {
    hide ChangesAre;
    if n == 0 {
      NoChangesYet(before, after);
    } else {
      ChangesExactly(before, after, n - 1);
      OneMore(Changes(before, after, n - 1), before, after, n);
    }
  }

  lemma NoChangesYet(before: Links, after: Links)
    ensures ChangesAre([], before, after, 0)
  {
  }

  lemma OneMore(c: seq<Notice>, before: Links, after: Links, n: nat)
    requires 0 < n <= PORTS && ChangesAre(c, before, after, n - 1)
    ensures ChangesAre(c + if before[n - 1] != after[n - 1] then [Notice(n - 1, after[n - 1])] else [], before, after, n)
  {
    if before[n - 1] != after[n - 1] {
      Changed(c, before, after, n);
    } else {
      assert c + [] == c;
      Unchanged(c, before, after, n);
    }
  }

  lemma Unchanged(c: seq<Notice>, before: Links, after: Links, n: nat)
    requires 0 < n <= PORTS && ChangesAre(c, before, after, n - 1) && before[n - 1] == after[n - 1]
    ensures ChangesAre(c, before, after, n)
  {
  }

  lemma Changed(c: seq<Notice>, before: Links, after: Links, n: nat)
    requires 0 < n <= PORTS && ChangesAre(c, before, after, n - 1) && before[n - 1] != after[n - 1]
    ensures ChangesAre(c + [Notice(n - 1, after[n - 1])], before, after, n)
  {
    var d := c + [Notice(n - 1, after[n - 1])];
    forall k | 0 <= k < |d| ensures d[k].port < n && before[d[k].port] != after[d[k].port] && d[k].up == after[d[k].port] {
      assert k < |c| ==> d[k] == c[k];
    }
    forall k, l | 0 <= k < l < |d| ensures d[k].port < d[l].port {
      assert d[k] == c[k];
    }
    forall p | 0 <= p < n && before[p] != after[p] ensures Notice(p, after[p]) in d {
      if p == n - 1 {
        assert d[|c|] == Notice(p, after[p]);
      } else {
        assert Notice(p, after[p]) in c;
      }
    }
  }

  predicate Shows(v: bv32, s: Links) {
    forall i :: 0 <= i < PORTS ==> Bit(v, i) == s[i]
  }

  ghost function LinksOf(v: bv32): (s: Links)
    ensures Shows(v, s)
  {
    seq(PORTS, i requires 0 <= i < PORTS => Bit(v, i))
  }

  class Poller {
    var enabledPorts: bv32
    var temScount: Seconds               // the second of the last tick
    var timerTarg: bool
    ghost var notices: seq<Notice>

    /** The link-status part of CREATE_RSTP_INSTANCE; the second count starts at 0. */
    constructor (samples: Links)
      ensures LinksOf(enabledPorts) == samples && temScount == 0 && notices == []
    {
      hide Bit;
      temScount, timerTarg, notices := 0, false, [];
      var ports: bv32 := 0;
      var loop := 0;
      ZeroBits();
      while loop < PORTS
        invariant 0 <= loop <= PORTS
        invariant forall i :: 0 <= i < PORTS ==> (Bit(ports, i) <==> i < loop && samples[i])
      {
        if samples[loop] {
          SetBitBits(ports, loop);
          ports := SetBit(ports, loop);
        }
        loop := loop + 1;
      }
      enabledPorts := ports;
    }

    /** STP_IN_enable_port */
    method EnablePort(port: nat, up: bool)
      modifies `notices
      ensures notices == old(notices) + [Notice(port, up)]
    {
      notices := notices + [Notice(port, up)];
    }

    /** Writes the samples into the port bits of an unset word. */
    method Sample(unset: bv32, samples: Links) returns (current: bv32)
      ensures Shows(current, samples)
    {
      hide Bit, SetBit, ClearBit;
      current := unset;
      var loop := 0;
      while loop < PORTS
        invariant 0 <= loop <= PORTS
        invariant forall i :: 0 <= i < loop ==> Bit(current, i) == samples[i]
      {
        SetBitBits(current, loop);
        ClearBitBits(current, loop);
        current := if samples[loop] then SetBit(current, loop) else ClearBit(current, loop);
        loop := loop + 1;
      }
    }

    /** Notifies the ports that changed and records their new state. */
    method Notify(current: bv32, result: bv32)
      requires forall i :: 0 <= i < PORTS ==> (Bit(result, i) <==> Bit(current, i) != Bit(enabledPorts, i))
      modifies `enabledPorts, `notices
      ensures LinksOf(enabledPorts) == LinksOf(current)
      ensures notices == old(notices) + Changes(old(LinksOf(enabledPorts)), LinksOf(current), PORTS)
    {
      hide Bit, SetBit, ClearBit;
      var loop := 0;
      while loop < PORTS
        invariant 0 <= loop <= PORTS
        invariant forall i :: 0 <= i < PORTS ==> Bit(enabledPorts, i) == if i < loop then Bit(current, i) else old(Bit(enabledPorts, i))
        invariant notices == old(notices) + Changes(old(LinksOf(enabledPorts)), LinksOf(current), loop)
      {
        if Bit(result, loop) {
          SetBitBits(enabledPorts, loop);
          ClearBitBits(enabledPorts, loop);
          EnablePort(loop, Bit(current, loop));
          enabledPorts := if Bit(current, loop) then SetBit(enabledPorts, loop) else ClearBit(enabledPorts, loop);
        }
        loop := loop + 1;
      }
    }

    method PollLinks(unset: bv32, samples: Links)
      modifies `enabledPorts, `notices
      ensures LinksOf(enabledPorts) == samples
      ensures notices == old(notices) + Changes(old(LinksOf(enabledPorts)), samples, PORTS)
    {
      hide Bit, Bitmap.Xor;
      var current := Sample(unset, samples);
      assert LinksOf(current) == samples;
      XorBits(current, enabledPorts);
      var result := Bitmap.Xor(current, enabledPorts);
      if result != 0 {
        Notify(current, result);
      } else {
        assert LinksOf(enabledPorts) == samples;
        NoChanges(samples, PORTS);
      }
    }

    method Tick(sCount: Seconds)
      modifies `temScount, `timerTarg
      ensures timerTarg == (sCount != old(temScount)) && temScount == sCount
    {
      if Minus(sCount, temScount) >= 1 {
        temScount := sCount;
        timerTarg := true;
      } else {
        timerTarg := false;
      }
    }

    /** timerExpiredOneSecond. Whatever the unset bits hold, the enabled ports are
        then the samples and each port that changed is notified once. */
    method TimerExpiredOneSecond(unset: bv32, samples: Links, sCount: Seconds, bpdu: bool) returns (due: bool)
      modifies this
      ensures LinksOf(enabledPorts) == samples
      ensures notices == old(notices) + Changes(old(LinksOf(enabledPorts)), samples, PORTS)
      ensures |old(notices)| <= |notices| && notices[..|old(notices)|] == old(notices)
      ensures ChangesAre(notices[|old(notices)|..], old(LinksOf(enabledPorts)), samples, PORTS)
      ensures timerTarg == (sCount != old(temScount)) && temScount == sCount
      ensures due == (timerTarg || bpdu)
    {
      hide ChangesAre, Changes;
      ChangesExactly(LinksOf(enabledPorts), samples, PORTS);
      PollLinks(unset, samples);
      Tick(sCount);
      due := timerTarg || bpdu;
    }
  }

  lemma ZeroBits()
    ensures forall i :: 0 <= i < PORTS ==> !Bit(0, i)
  {
    forall i | 0 <= i < PORTS ensures !Bit(0, i) {
      ZeroBit(i);
    }
  }

  lemma {:induction false} NoChanges(s: Links, n: nat)
    requires n <= PORTS
    ensures Changes(s, s, n) == []
  {
    if n > 0 {
      NoChanges(s, n - 1);
    }
  }
}
