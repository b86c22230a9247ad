/**
 Whole histories of polls: what each port's notifications look like, and how often
 the poll can tick.
 */
module LinkHistory {
  import opened Bitmap
  import opened LinkPoller

  /** All notices of a history of samples, from the links at the start. */
  function Trace(first: Links, history: seq<Links>): (t: seq<Notice>) {
    if |history| == 0 then []
    else Trace(first, history[..|history| - 1]) + Changes(LastLinks(first, history[..|history| - 1]), history[|history| - 1], PORTS)
  }

  function LastLinks(first: Links, history: seq<Links>): Links {
    if |history| == 0 then first else history[|history| - 1]
  }

  /** The notices of one port, in order. */
  function Of(t: seq<Notice>, p: nat): (u: seq<bool>) {
    if |t| == 0 then []
    else Of(t[..|t| - 1], p) + if t[|t| - 1].port == p then [t[|t| - 1].up] else []
  }

  /** The states of one port whenever they differ from the state before. */
  function Flips(first: Links, history: seq<Links>, p: nat): (u: seq<bool>)
    requires p < PORTS
  {
    if |history| == 0 then []
    else
      var before, now := LastLinks(first, history[..|history| - 1])[p], history[|history| - 1][p];
      Flips(first, history[..|history| - 1], p) + if before != now then [now] else []
  }

  lemma {:induction false} OfAppend(t: seq<Notice>, u: seq<Notice>, p: nat)
    ensures Of(t + u, p) == Of(t, p) + Of(u, p)
  {
    if |u| == 0 {
      assert t + u == t;
    } else {
      var w := u[..|u| - 1];
      assert (t + u)[..|t + u| - 1] == t + w;
      OfAppend(t, w, p);
    }
  }

  lemma {:induction false} ChangesOf(a: Links, b: Links, n: nat, p: nat)
    requires n <= PORTS && p < PORTS
    ensures Of(Changes(a, b, n), p) == if p < n && a[p] != b[p] then [b[p]] else []
  {
    if n > 0 {
      ChangesOf(a, b, n - 1, p);
      var c := if a[n - 1] != b[n - 1] then [Notice(n - 1, b[n - 1])] else [];
      OfAppend(Changes(a, b, n - 1), c, p);
      OfOne(n - 1, b[n - 1], p);
    }
  }

  lemma OfOne(port: nat, up: bool, p: nat)
    ensures Of([Notice(port, up)], p) == if port == p then [up] else []
    ensures Of([], p) == []
  {
    assert [Notice(port, up)][..0] == [];
  }

  /** Over every history each port is notified exactly once for each of its
      changes, with the new state. */
  lemma {:induction false} OneNoticePerChange(first: Links, history: seq<Links>, p: nat)
    requires p < PORTS
    ensures Of(Trace(first, history), p) == Flips(first, history, p)
  {
    if |history| > 0 {
      var before := history[..|history| - 1];
      OneNoticePerChange(first, before, p);
      var c := Changes(LastLinks(first, before), history[|history| - 1], PORTS);
      OfAppend(Trace(first, before), c, p);
      ChangesOf(LastLinks(first, before), history[|history| - 1], PORTS, p);
    }
  }

  /** Each state differs from the one before it; the first from `first`. */
  predicate Alternates(first: bool, u: seq<bool>) {
    forall k :: 0 <= k < |u| ==> u[k] != Latest(first, u[..k])
  }

  function Latest(first: bool, u: seq<bool>): bool {
    if |u| == 0 then first else u[|u| - 1]
  }

  lemma AlternatesOnce(first: bool, u: seq<bool>, up: bool)
    requires Alternates(first, u) && up != Latest(first, u)
    ensures Alternates(first, u + [up])
  {
    var w := u + [up];
    forall k | 0 <= k < |w| ensures w[k] != Latest(first, w[..k]) {
      assert w[..k] == u[..k];
    }
  }

  lemma {:induction false} FlipsAlternate(first: Links, history: seq<Links>, p: nat)
    requires p < PORTS
    ensures Alternates(first[p], Flips(first, history, p))
    ensures LastLinks(first, history)[p] == Latest(first[p], Flips(first, history, p))
  {
    hide Alternates;
    if |history| == 0 {
      AlternatesNone(first[p]);
    } else {
      var before, now := history[..|history| - 1], history[|history| - 1][p];
      FlipsAlternate(first, before, p);
      if LastLinks(first, before)[p] != now {
        AlternatesOnce(first[p], Flips(first, before, p), now);
      } else {
        assert Flips(first, history, p) == Flips(first, before, p);
      }
    }
  }

  lemma AlternatesNone(first: bool)
    ensures Alternates(first, [])
  {
  }

  /** The notices of a port strictly alternate, from the opposite of its first
      state, and the last one is its present state. */
  lemma NoticesAlternate(first: Links, history: seq<Links>, p: nat)
    requires p < PORTS
    ensures Alternates(first[p], Of(Trace(first, history), p))
    ensures LastLinks(first, history)[p] == Latest(first[p], Of(Trace(first, history), p))
  {
    hide *;
    OneNoticePerChange(first, history, p);
    FlipsAlternate(first, history, p);
  }

  /** Ticks of a history of polls, by the contract of `Tick`: a poll made after
      `e` seconds sees the count `e` modulo 2^32. */
  function Ticks(start: nat, elapsed: seq<nat>): nat {
    if |elapsed| == 0 then 0
    else
      var before := elapsed[..|elapsed| - 1];
      Ticks(start, before) + if elapsed[|elapsed| - 1] % WRAP != LastPoll(start, before) % WRAP then 1 else 0
  }

  function LastPoll(start: nat, elapsed: seq<nat>): nat {
    if |elapsed| == 0 then start else elapsed[|elapsed| - 1]
  }

  predicate InOrder(start: nat, elapsed: seq<nat>) {
    |elapsed| > 0 ==>
      LastPoll(start, elapsed[..|elapsed| - 1]) <= elapsed[|elapsed| - 1] && InOrder(start, elapsed[..|elapsed| - 1])
  }

  /** Ticks never outnumber the seconds that went by, however often or seldom the
      poll runs and also across a wrap of the counter. */
  lemma {:induction false} TicksAtMostSeconds(start: nat, elapsed: seq<nat>)
    requires InOrder(start, elapsed)
    ensures start + Ticks(start, elapsed) <= LastPoll(start, elapsed)
  {
    if |elapsed| > 0 {
      TicksAtMostSeconds(start, elapsed[..|elapsed| - 1]);
    }
  }
}
