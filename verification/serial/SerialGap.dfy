/**
 Completions that fall inside a poll. `halUartTransmitDma` tests CT and the UART
 state first and acts on the outcome later; here the two are separate steps. The
 single-shot path acts only on a stopped engine, so its poll is one step.
 */
module SerialGap {
  import opened Fifo
  import opened SerialModel
  import opened Sequences
  import opened Wrappers

  /** Where the poll is: outside, or between test and action, with the outcome of the test. */
  datatype Phase = Outside | Tested(ct: bool, ready: bool, completions: nat)

  datatype GapState = GapState(e: Engine, phase: Phase)

  /** The block that waits in memory for a stopped engine, the one the next restart
      takes first, or what a running one still has to send. */
  function Pending(e: Engine): seq<Byte> {
    if e.stream.enabled then
      if e.stream.sent <= |Active(e)| then Active(e)[e.stream.sent..] + Other(e) else []
    else if e.stream.ct && e.block1 != [] then e.block1
    else e.block0
  }

  /** A stopped engine has at most one block left behind, and a restart branch that
      finds it: with CT set either memory is looked at, with CT clear only memory 0. */
  ghost predicate Good(e: Engine) {
    && BlockLength(e.block0) && BlockLength(e.block1)
    && TxReady(e.uart) == !e.stream.enabled
    && (e.singleDone <==> e.stream.enabled ==> e.stream.double)
    && (e.stream.enabled ==> |Active(e)| == e.stream.ndtr && e.stream.sent <= e.stream.ndtr)
    && (e.stream.enabled && e.stream.double ==> e.stream.ndtr == DOUBLE_BUFFER_LENGTH)
    && (e.stream.enabled && !e.stream.double ==> e.block0 == [] && e.block1 == [])
    && (!e.stream.enabled ==> e.block1 == [] || (e.stream.ct && e.block0 == []))
    && e.taken == e.wire + Pending(e)
    && e.accepted == e.taken + e.queue
  }

  /** The memory that `Refill` writes after a test that saw `ct`. */
  function Target(e: Engine, ct: bool): seq<Byte> {
    if ct then e.block0 else e.block1
  }

  /** What the outcome of the test still says about the present. Each completion
      flips CT; after the first there is nothing behind the block that is sent, so
      the second stops the stream. */
  ghost predicate GapInv(s: GapState) {
    && Good(s.e)
    && (s.phase.Tested? ==>
          && s.e.singleDone && |s.e.queue| >= DOUBLE_BUFFER_LENGTH && s.phase.completions <= 2
          && (s.e.stream.ct == if s.phase.completions == 1 then !s.phase.ct else s.phase.ct)
          && (s.phase.ready ==> s.phase.completions == 0 && !s.e.stream.enabled)
          && (!s.phase.ready && s.phase.completions == 0 ==> s.e.stream.enabled)
          && (s.phase.completions >= 1 && s.e.stream.enabled ==> Other(s.e) == [])
          && (s.phase.completions >= 1 && !s.e.stream.enabled ==> s.e.block0 == [] && s.e.block1 == [])
          && (s.phase.completions == 2 ==> !s.e.stream.enabled && s.phase.ct))
  }

  datatype Event =
    | FetchEvent(node: Option<seq<Byte>>)
    | ShortEvent(now: nat)
    | TestEvent
    | ActEvent
    | ByteEvent
    | CompleteEvent
    | ReceiveEvent(on: bool)

  predicate CanHappen(s: GapState, event: Event) {
    match event
    case FetchEvent(node) => s.phase.Outside? && (node.Some? ==> |node.value| <= NODE_MAX_NUM)
    case ShortEvent(_) => s.phase.Outside? && |s.e.queue| < DOUBLE_BUFFER_LENGTH
    case TestEvent => s.phase.Outside? && |s.e.queue| >= DOUBLE_BUFFER_LENGTH
    case ActEvent => s.phase.Tested?
    case ByteEvent => s.e.stream.enabled && s.e.stream.sent < s.e.stream.ndtr && s.e.stream.sent < |Active(s.e)|
    case CompleteEvent => s.e.stream.enabled && s.e.stream.sent == s.e.stream.ndtr
    case ReceiveEvent(_) => true
  }

  function Act(e: Engine, ct: bool, ready: bool): Engine {
    if ready then Restart(e, ct) else Refill(e, ct)
  }

  function Step(s: GapState, event: Event): GapState
    requires CanHappen(s, event)
  {
    match event
    case FetchEvent(node) => s.(e := Fetch(s.e, node))
    case ShortEvent(now) => s.(e := Dispatch(s.e, now))
    case TestEvent =>
      GapState(s.e.(countTarg := 0), if s.e.singleDone then Tested(s.e.stream.ct, TxReady(s.e.uart), 0) else Outside)
    case ActEvent => GapState(Act(s.e, s.phase.ct, s.phase.ready), Outside)
    case ByteEvent => s.(e := MoveByte(s.e))
    case CompleteEvent =>
      GapState(Complete(s.e), if s.phase.Tested? then s.phase.(completions := s.phase.completions + 1) else Outside)
    case ReceiveEvent(on) => s.(e := s.e.(uart := Receiving(s.e.uart, on)))
  }

  /** The poll of a short queue starts a single-buffer transfer. */
  predicate Little(e: Engine, now: nat) {
    && 0 < |e.queue| < DOUBLE_BUFFER_LENGTH && e.doubleDone && TxReady(e.uart)
    && e.countTarg != 0 && Expired(now, e.countTarg)
  }

  /** One completion may fall into a gap, a second only if the test saw CT set; and
      the timeout of a short queue may go by only when no block waits in memory. */
  predicate Timely(s: GapState, event: Event) {
    && (event.CompleteEvent? && s.phase.Tested? ==> s.phase.completions < 1 || s.phase.ct)
    && (event.ShortEvent? && Little(s.e, event.now) ==> Pending(s.e) == [])
  }

  ghost predicate Possible(s: GapState, events: seq<Event>)
    decreases |events|
  {
    events != [] ==>
      && CanHappen(s, events[0]) && Timely(s, events[0])
      && Possible(Step(s, events[0]), events[1..])
  }

  ghost function Run(s: GapState, events: seq<Event>): GapState
    requires Possible(s, events)
    decreases |events|
  {
    if events == [] then s else Run(Step(s, events[0]), events[1..])
  }

  // ----- every step keeps the order -----

  lemma FetchKeeps(e: Engine, node: Option<seq<Byte>>)
    requires Good(e)
    ensures Good(Fetch(e, node)) && |Fetch(e, node).queue| >= |e.queue|
  {
    hide Fetch;
    FetchAppends(e, node);
  }

  lemma FetchAppends(e: Engine, node: Option<seq<Byte>>)
    requires e.accepted == e.taken + e.queue
    ensures var f := Fetch(e, node);
      && f == e.(got := f.got, queue := f.queue, before := f.before, full := f.full, accepted := f.accepted)
      && f.accepted == e.taken + f.queue && |e.queue| <= |f.queue|
  {
    if node.Some? {
      Regroup(e.taken, e.queue, node.value);
    }
  }

  lemma RestartKeeps(e: Engine)
    requires Good(e) && !e.stream.enabled
    ensures Good(Restart(e, e.stream.ct))
  {
    TakeKeeps(e, NextBlock(e));
    var r := Restart(e, e.stream.ct);
    if r.stream.enabled {
      assert r.block0[0..] + [] == r.block0;
    }
    assert Pending(e) == [] ==> e.wire + [] + NextBlock(e) == e.wire + NextBlock(e);
  }

  /** Refilling while the stream still runs, on either memory. */
  lemma RefillRunningKeeps(e: Engine, ct: bool)
    requires Good(e) && e.stream.enabled && e.stream.double
    ensures Good(Refill(e, ct)) && Refill(e, ct).stream == e.stream
  {
    if Target(e, ct) == [] {
      TakeKeeps(e, NextBlock(e));
      var a := Active(e)[e.stream.sent..];
      assert a + [] == a;
      Regroup(e.wire, a, NextBlock(e));
    }
  }

  /** Refilling a stopped engine: the block lands where a restart branch finds it. */
  lemma RefillStoppedKeeps(e: Engine, ct: bool)
    requires Good(e) && !e.stream.enabled && (ct || e.stream.ct) && e.block0 == [] && e.block1 == []
    ensures Good(Refill(e, ct)) && Refill(e, ct).stream == e.stream
  {
    TakeKeeps(e, NextBlock(e));
    assert e.wire + [] + NextBlock(e) == e.wire + NextBlock(e);
  }

  lemma ByteKeeps(e: Engine)
    requires Good(e) && e.stream.enabled && e.stream.sent < e.stream.ndtr
    ensures Good(MoveByte(e))
  {
    hide MoveByte;
    MovedByte(e);
    MovedOrder(e.wire, Active(e), e.stream.sent, Other(e));
  }

  lemma ShortKeeps(e: Engine, now: nat)
    requires Good(e) && |e.queue| < DOUBLE_BUFFER_LENGTH && (Little(e, now) ==> Pending(e) == [])
    ensures Good(Dispatch(e, now))
  {
    if Little(e, now) {
      TakeKeeps(e, e.queue);
      assert e.queue[0..] + [] == e.queue && e.wire + [] == e.wire;
    }
  }

  lemma CompleteSingleKeeps(e: Engine)
    requires Good(e) && e.stream.enabled && !e.stream.double && e.stream.sent == e.stream.ndtr
    ensures Good(Complete(e))
  {
    assert Active(e)[e.stream.sent..] + [] == [];
  }

  lemma CompleteKeeps(e: Engine)
    requires Good(e) && e.stream.enabled && e.stream.double && e.stream.sent == e.stream.ndtr
    ensures var c := Complete(e);
      && Good(c) && c.stream.ct != e.stream.ct && c.queue == e.queue && c.accepted == e.accepted
      && (c.stream.enabled <==> Other(e) != [])
      && (c.stream.enabled ==> Active(c) == Other(e) && Other(c) == [])
      && (!c.stream.enabled ==> c.block0 == [] && c.block1 == [] && c.doubleDone)
      && c.stream.double && c.singleDone && c.countTarg == e.countTarg
  {
    assert Active(e)[e.stream.sent..] == [];
    assert [] + Other(e) == Other(e);
    assert Other(e)[0..] + [] == Other(e);
  }

  lemma StepKeeps(s: GapState, event: Event)
    requires GapInv(s) && CanHappen(s, event) && Timely(s, event)
    ensures GapInv(Step(s, event))
  {
    hide Fetch, Restart, Refill, MoveByte, Complete, Dispatch, Little;
    match event
    case FetchEvent(node) => FetchKeeps(s.e, node);
    case ShortEvent(now) => ShortKeeps(s.e, now);
    case TestEvent =>
    case ActEvent =>
      if s.phase.ready {
        RestartKeeps(s.e);
      } else if s.e.stream.enabled {
        RefillRunningKeeps(s.e, s.phase.ct);
      } else {
        RefillStoppedKeeps(s.e, s.phase.ct);
      }
    case ByteEvent =>
      ByteKeeps(s.e);
      MovedByte(s.e);
    case CompleteEvent =>
      if s.e.stream.double {
        CompleteKeeps(s.e);
      } else {
        CompleteSingleKeeps(s.e);
      }
    case ReceiveEvent(_) =>
  }

  lemma {:induction false} RunKeeps(s: GapState, events: seq<Event>)
    requires GapInv(s) && Possible(s, events)
    ensures GapInv(Run(s, events))
    decreases |events|
  {
    hide GapInv, Step;
    if events != [] {
      StepKeeps(s, events[0]);
      RunKeeps(Step(s, events[0]), events[1..]);
    }
  }

  /**
   In every run from power-up, on both transmit paths, with at most one completion
   inside a poll, or two where the poll's test saw CT set, and no timeout while a block
   waits in memory: the accepted bytes are the wire, then what is pending, then the
   queue. Nothing is lost, sent twice or overtaken.
   */
  lemma GapRunsAreExact(events: seq<Event>)
    requires Possible(GapState(Init(), Outside), events)
    ensures var e := Run(GapState(Init(), Outside), events).e;
      && Handed(GapState(Init(), Outside), events) == e.wire + Pending(e) + e.queue
      && e.accepted == e.wire + Pending(e) + e.queue && e.taken == e.wire + Pending(e)
  {
    var s := GapState(Init(), Outside);
    RunKeeps(s, events);
    RunAccepts(s, events);
    assert [] + Handed(s, events) == Handed(s, events);
  }

  /** The nodes that a run was handed when there was room for them. */
  ghost function Handed(s: GapState, events: seq<Event>): seq<Byte>
    requires Possible(s, events)
    decreases |events|
  {
    if events == [] then []
    else (if events[0].FetchEvent? then NodeTaken(s.e, events[0].node) else []) + Handed(Step(s, events[0]), events[1..])
  }

  lemma StepAccepts(s: GapState, event: Event)
    requires CanHappen(s, event)
    ensures Step(s, event).e.accepted == s.e.accepted + if event.FetchEvent? then NodeTaken(s.e, event.node) else []
  {
    assert s.e.accepted + [] == s.e.accepted;
    match event
    case FetchEvent(node) => FetchQueuesNode(s.e, node);
    case ShortEvent(now) => DispatchAccepts(s.e, now);
    case ActEvent =>
    case _ =>
  }

  lemma {:induction false} RunAccepts(s: GapState, events: seq<Event>)
    requires Possible(s, events)
    ensures Run(s, events).e.accepted == s.e.accepted + Handed(s, events)
    decreases |events|
  {
    hide Step, NodeTaken, Timely, CanHappen;
    if events == [] {
      assert s.e.accepted + [] == s.e.accepted;
    } else {
      StepAccepts(s, events[0]);
      RunAccepts(Step(s, events[0]), events[1..]);
      Regroup(s.e.accepted, if events[0].FetchEvent? then NodeTaken(s.e, events[0].node) else [],
              Handed(Step(s, events[0]), events[1..]));
    }
  }

  /** A block that was filled after the engine stopped is what the next restart sends, before any new byte. */
  lemma RestartSendsPending(e: Engine)
    requires Good(e) && !e.stream.enabled && Pending(e) != []
    ensures var r := Restart(e, e.stream.ct);
      && r.stream.enabled && r.stream.sent == 0 && Active(r) == Pending(e) && Other(r) == []
      && r.queue == e.queue && r.taken == e.taken && r.lost == e.lost + 1
  {
  }

  /** Without such a block the restart sends the head of the queue and counts nothing lost. */
  lemma RestartSendsQueue(e: Engine)
    requires Good(e) && !e.stream.enabled && Pending(e) == [] && |e.queue| >= DOUBLE_BUFFER_LENGTH
    ensures var r := Restart(e, e.stream.ct);
      && r.stream.enabled && Active(r) == e.queue[..DOUBLE_BUFFER_LENGTH] && Other(r) == [] && r.lost == e.lost
  {
  }

  // ----- exactly how many completions a gap can hold -----

  lemma FinishBlockKeeps(e: Engine)
    requires Good(e) && e.stream.enabled && e.stream.double
    ensures var c := FinishBlock(e);
      && Good(c) && c.stream.ct != e.stream.ct && c.queue == e.queue && c.accepted == e.accepted
      && (c.stream.enabled <==> Other(e) != [])
      && (c.stream.enabled ==> Streaming(c) && Active(c) == Other(e) && Other(c) == [])
      && (!c.stream.enabled ==> c.block0 == [] && c.block1 == [] && c.doubleDone)
      && c.stream.double && c.singleDone && c.countTarg == e.countTarg
  {
    hide Complete, FinishBlock, Good;
    GoodStreams(e);
    FinishBlockIs(e);
    MovedOut(e);
    var d := e.(wire := e.wire + Active(e)[e.stream.sent..], stream := e.stream.(sent := e.stream.ndtr));
    CompleteKeeps(d);
    if Complete(d).stream.enabled {
      GoodStreams(Complete(d));
    }
  }

  /** The rest of the block moved to the wire. */
  lemma MovedOut(e: Engine)
    requires Good(e) && e.stream.enabled && e.stream.double
    ensures var d := e.(wire := e.wire + Active(e)[e.stream.sent..], stream := e.stream.(sent := e.stream.ndtr));
      Good(d) && Other(d) == Other(e)
  {
    var a, k := Active(e), e.stream.sent;
    assert a[|a|..] == [] && [] + Other(e) == Other(e);
    Regroup(e.wire, a[k..], Other(e));
  }

  lemma GoodStreams(e: Engine)
    requires Good(e) && e.stream.enabled
    ensures Streaming(e)
  {
  }

  /** The stream after `k` completions inside the gap; it stops when it has nothing more to send. */
  ghost function AfterCompletions(e: Engine, k: nat): Engine
    requires Good(e) && e.stream.enabled && e.stream.double
    requires k <= 1 || (k == 2 && Other(e) != [])
  {
    if k == 0 then e
    else
      FinishBlockKeeps(e);
      if k == 1 then FinishBlock(e) else FinishBlock(FinishBlock(e))
  }

  /** Bytes fetched before the next restart. */
  function Arrive(e: Engine, more: seq<Byte>): Engine {
    e.(queue := e.queue + more, accepted := e.accepted + more)
  }

  /** The engine once it runs: as it is, or after the poll at `now`. A poll that finds
      a short queue first notes its time, `since`, unless an earlier one did. */
  function NextTransfer(e: Engine, since: nat, now: nat): Engine {
    if e.stream.enabled then e
    else if |e.queue| >= DOUBLE_BUFFER_LENGTH then Dispatch(e, now)
    else Dispatch(Dispatch(e, since), now)
  }

  /** What was taken from the queue is the wire and then what the running stream
      sends next: no byte is left behind or overtaken. */
  ghost predicate InOrder(e: Engine) {
    e.stream.enabled && e.stream.sent <= |Active(e)| && e.taken == e.wire + (Active(e)[e.stream.sent..] + Other(e))
  }

  lemma GoodArrives(e: Engine, more: seq<Byte>)
    requires Good(e)
    ensures Good(Arrive(e, more)) && Pending(Arrive(e, more)) == Pending(e)
  {
    Regroup(e.taken, e.queue, more);
  }

  /** A stopped engine with a whole block queued is restarted. */
  lemma RestartsInOrder(e: Engine, since: nat, now: nat)
    requires Good(e) && !e.stream.enabled && |e.queue| >= DOUBLE_BUFFER_LENGTH
    ensures InOrder(NextTransfer(e, since, now))
  {
    hide Restart;
    var f := e.(countTarg := 0);
    assert Good(f) && NextTransfer(e, since, now) == Restart(f, f.stream.ct);
    RestartKeeps(f);
    if Pending(f) != [] {
      RestartSendsPending(f);
    } else {
      RestartSendsQueue(f);
    }
  }

  // ----- the single-shot path -----

  /**
   The poll of a short queue after its timeout, on any stopped engine: what is taken
   goes out in order exactly when everything taken before is on the wire.
   */
  lemma LittleInOrder(e: Engine, now: nat)
    requires !e.stream.enabled && Little(e, now)
    ensures var d := Dispatch(e, now);
      && d.stream.enabled && !d.stream.double && Active(d) == e.queue && d.queue == []
      && (InOrder(d) <==> e.taken == e.wire)
  {
    assert e.queue[0..] + [] == e.queue;
    SameFront(e.taken, e.wire, e.queue);
  }

  lemma SameFront(a: seq<Byte>, b: seq<Byte>, c: seq<Byte>)
    ensures a + c == b + c <==> a == b
  {
    if a + c == b + c {
      assert |a + c| == |b + c|;
      assert (a + c)[..|a|] == a && (b + c)[..|b|] == b;
    }
  }

  /** On the engine of these runs: exactly when no block waits in memory. */
  lemma LittleKeepsOrderExactly(e: Engine, now: nat)
    requires Good(e) && !e.stream.enabled && Little(e, now)
    ensures InOrder(Dispatch(e, now)) <==> Pending(e) == []
    ensures Dispatch(e, now).taken == e.wire + Pending(e) + e.queue
  {
    LittleInOrder(e, now);
    hide Dispatch, Little, InOrder;
    assert e.wire + [] == e.wire;
    if e.wire + Pending(e) == e.wire {
      assert |e.wire + Pending(e)| == |e.wire|;
    }
    DispatchTakes(e, now);
  }

  lemma DispatchTakes(e: Engine, now: nat)
    requires Little(e, now)
    ensures Dispatch(e, now).taken == e.taken + e.queue
  {
  }

  /** The two polls of a short queue: the first notes the time, the second sends. */
  lemma ShortPolls(e: Engine, since: nat, now: nat)
    requires !e.stream.enabled && TxReady(e.uart) && e.doubleDone && e.countTarg == 0 && since != 0 && Expired(now, since)
    requires 0 < |e.queue| < DOUBLE_BUFFER_LENGTH
    ensures var f := e.(countTarg := since); Little(f, now) && NextTransfer(e, since, now) == Dispatch(f, now)
  {
  }

  /** The stopped engine with both memories empty and CT clear, refilled after a test
      that saw CT clear, and restarted: memory 1 holds the older block. */
  lemma RefillBehindCt(e: Engine, more: seq<Byte>, since: nat, now: nat)
    requires Good(e) && !e.stream.enabled && e.block0 == [] && e.block1 == [] && !e.stream.ct
    requires |e.queue| >= DOUBLE_BUFFER_LENGTH && |e.queue + more| >= 2 * DOUBLE_BUFFER_LENGTH
    ensures var all := e.queue + more; var r := NextTransfer(Arrive(Refill(e, false), more), since, now);
      && r.stream.enabled && r.stream.sent == 0
      && Active(r) == all[DOUBLE_BUFFER_LENGTH..2 * DOUBLE_BUFFER_LENGTH] && Other(r) == all[..DOUBLE_BUFFER_LENGTH]
      && r.wire == e.wire && r.taken == e.wire + (Other(r) + Active(r))
  {
    var q, n := e.queue, DOUBLE_BUFFER_LENGTH;
    var all := q + more;
    assert all[..n] == q[..n] && q[n..] + more == all[n..];
    assert all[n..][..n] == all[n..2 * n];
    assert e.wire + [] == e.wire;
    Regroup(e.wire, all[..n], all[n..2 * n]);
  }

  lemma SameSwapped(a: seq<Byte>, b: seq<Byte>, wire: seq<Byte>)
    requires |a| == |b|
    ensures wire + (a + b) == wire + (b + a) <==> a == b
  {
    if wire + (a + b) == wire + (b + a) {
      assert a + b == b + a by {
        assert (wire + (a + b))[|wire|..] == a + b && (wire + (b + a))[|wire|..] == b + a;
      }
      assert (a + b)[..|a|] == a && (b + a)[..|a|] == b;
    }
  }

  /** The first two blocks of these bytes are the same. */
  predicate SameBlocks(q: seq<Byte>) {
    |q| >= 2 * DOUBLE_BUFFER_LENGTH && q[..DOUBLE_BUFFER_LENGTH] == q[DOUBLE_BUFFER_LENGTH..2 * DOUBLE_BUFFER_LENGTH]
  }

  /** The engine when the poll has acted: `k` completions after a test that saw `e`
      running, the refill by that test, and what arrived since. */
  ghost function Acted(e: Engine, k: nat, more: seq<Byte>): Engine
    requires Good(e) && e.stream.enabled && e.stream.double
    requires k <= 1 || (k == 2 && Other(e) != [])
  {
    Arrive(Refill(AfterCompletions(e, k), e.stream.ct), more)
  }

  /**
   For every state in which the poll's test sees a running double-buffer transfer,
   any number of completions in the gap (a third cannot happen: the second stops the
   stream), and any bytes that arrive before the next transfer. A stream that still
   runs sends in order. A stopped one with nothing queued starts nothing. Otherwise
   the next transfer, by whichever path, sends in order exactly when a whole block is
   queued for it and at most one block completed in the gap, or the test saw CT set,
   or the two blocks in question happen to be the same bytes.
   */
  lemma OneCompletionIsTheLimit(e: Engine, k: nat, more: seq<Byte>, since: nat, now: nat)
    requires Good(e) && e.stream.enabled && e.stream.double && |e.queue| >= DOUBLE_BUFFER_LENGTH && e.countTarg == 0
    requires k <= 1 || (k == 2 && Other(e) != [])
    requires since != 0 && Expired(now, since)
    ensures var s, all := Acted(e, k, more), e.queue + more; var t := NextTransfer(s, since, now);
      if s.stream.enabled then InOrder(t)
      else if s.queue == [] then t == s
      else
        && t.stream.enabled && |s.queue| == |all| - DOUBLE_BUFFER_LENGTH
        && (InOrder(t) <==> |s.queue| >= DOUBLE_BUFFER_LENGTH && (k <= 1 || e.stream.ct || SameBlocks(all)))
  {
    hide FinishBlock, Good, Refill, NextTransfer;
    GoodStreams(e);
    FinishBlockKeeps(e);
    var c := AfterCompletions(e, k);
    if k == 2 {
      FinishBlockKeeps(FinishBlock(e));
    }
    if c.stream.enabled {
      RefillRunning(c, e.stream.ct, more, since, now);
    } else if k == 2 && !e.stream.ct {
      BehindCt(c, more, since, now);
    } else {
      RefillStopped(c, e.stream.ct, more, since, now);
    }
  }

  lemma RefillRunning(c: Engine, ct: bool, more: seq<Byte>, since: nat, now: nat)
    requires Good(c) && c.stream.enabled && c.stream.double
    ensures var s := Arrive(Refill(c, ct), more); s.stream.enabled && InOrder(NextTransfer(s, since, now))
  {
    hide Refill;
    RefillRunningKeeps(c, ct);
    GoodArrives(Refill(c, ct), more);
  }

  /** A stopped engine, refilled where a restart finds the block. */
  lemma RefillStopped(c: Engine, ct: bool, more: seq<Byte>, since: nat, now: nat)
    requires Good(c) && !c.stream.enabled && (ct || c.stream.ct) && c.block0 == [] && c.block1 == []
    requires |c.queue| >= DOUBLE_BUFFER_LENGTH && c.doubleDone && c.countTarg == 0 && since != 0 && Expired(now, since)
    ensures var s := Arrive(Refill(c, ct), more); var t := NextTransfer(s, since, now);
      && !s.stream.enabled && |s.queue| == |c.queue + more| - DOUBLE_BUFFER_LENGTH
      && (if s.queue == [] then t == s else t.stream.enabled && (InOrder(t) <==> |s.queue| >= DOUBLE_BUFFER_LENGTH))
  {
    RefillStoppedKeeps(c, ct);
    RefillWaits(c, ct);
    hide Refill, Good, InOrder;
    var r := Refill(c, ct);
    var s := Arrive(r, more);
    GoodArrives(r, more);
    WaitingTransfer(s, since, now);
  }

  lemma RefillWaits(c: Engine, ct: bool)
    requires !c.stream.enabled && (ct || c.stream.ct) && c.block0 == [] && c.block1 == [] && |c.queue| >= DOUBLE_BUFFER_LENGTH
    ensures var r := Refill(c, ct);
      && r.stream == c.stream && r.doubleDone == c.doubleDone && r.countTarg == c.countTarg
      && |Pending(r)| == DOUBLE_BUFFER_LENGTH && |r.queue| == |c.queue| - DOUBLE_BUFFER_LENGTH
  {
  }

  /** The transfer that follows, with a block waiting. */
  lemma WaitingTransfer(s: Engine, since: nat, now: nat)
    requires Good(s) && !s.stream.enabled && Pending(s) != [] && s.doubleDone && s.countTarg == 0
    requires since != 0 && Expired(now, since)
    ensures var t := NextTransfer(s, since, now);
      if s.queue == [] then t == s else t.stream.enabled && (InOrder(t) <==> |s.queue| >= DOUBLE_BUFFER_LENGTH)
  {
    if |s.queue| >= DOUBLE_BUFFER_LENGTH {
      RestartsInOrder(s, since, now);
    } else if s.queue != [] {
      ShortPolls(s, since, now);
      var f := s.(countTarg := since);
      LittleInOrder(f, now);
      LittleKeepsOrderExactly(f, now);
    }
  }

  /** Refilled behind CT, where no branch finds the block first. */
  lemma BehindCt(c: Engine, more: seq<Byte>, since: nat, now: nat)
    requires Good(c) && !c.stream.enabled && !c.stream.ct && c.block0 == [] && c.block1 == []
    requires |c.queue| >= DOUBLE_BUFFER_LENGTH && c.doubleDone && c.countTarg == 0 && since != 0 && Expired(now, since)
    ensures var s, all := Arrive(Refill(c, false), more), c.queue + more; var t := NextTransfer(s, since, now);
      && !s.stream.enabled && |s.queue| == |all| - DOUBLE_BUFFER_LENGTH
      && (if s.queue == [] then t == s
          else t.stream.enabled && (InOrder(t) <==>
            |s.queue| >= DOUBLE_BUFFER_LENGTH && SameBlocks(all)))
  {
    var s, all := Arrive(Refill(c, false), more), c.queue + more;
    assert c.wire + [] == c.wire;
    if |s.queue| >= DOUBLE_BUFFER_LENGTH {
      RefillBehindCt(c, more, since, now);
      var r := NextTransfer(s, since, now);
      assert Active(r)[0..] == Active(r);
      SameSwapped(Other(r), Active(r), r.wire);
    } else if s.queue != [] {
      ShortPolls(s, since, now);
      LittleInOrder(s.(countTarg := since), now);
      assert |s.taken| == |s.wire| + DOUBLE_BUFFER_LENGTH;
    }
  }

  /** The failing case by itself: CT clear and two completions. Of the two blocks
      taken in order the later one is sent first. */
  lemma SecondCompletionReorders(e: Engine, more: seq<Byte>, since: nat, now: nat)
    requires Good(e) && e.stream.enabled && e.stream.double && !e.stream.ct && Other(e) != []
    requires |e.queue| >= DOUBLE_BUFFER_LENGTH && |e.queue + more| >= 2 * DOUBLE_BUFFER_LENGTH
    ensures var all := e.queue + more; var r := NextTransfer(Acted(e, 2, more), since, now);
      && r.stream.enabled && r.stream.sent == 0
      && Active(r) == all[DOUBLE_BUFFER_LENGTH..2 * DOUBLE_BUFFER_LENGTH] && Other(r) == all[..DOUBLE_BUFFER_LENGTH]
      && r.taken == r.wire + (Other(r) + Active(r))
  {
    hide FinishBlock, Good, Refill, Restart, NextTransfer;
    GoodStreams(e);
    FinishBlockKeeps(e);
    FinishBlockKeeps(FinishBlock(e));
    RefillBehindCt(AfterCompletions(e, 2), more, since, now);
  }

  // ----- the failing cases, reached from power-up -----

  /** Moving the next `k` bytes, as a run. */
  lemma {:induction false} BytesRun(s: GapState, k: nat) returns (events: seq<Event>)
    requires Streaming(s.e) && s.e.stream.sent + k <= s.e.stream.ndtr
    ensures Possible(s, events)
    ensures var f := Run(s, events);
      f.phase == s.phase && f.e == s.e.(wire := f.e.wire, stream := s.e.stream.(sent := s.e.stream.sent + k))
    decreases k
  {
    if k == 0 {
      events := [];
    } else {
      hide MoveByte;
      MovedByte(s.e);
      var more := BytesRun(Step(s, Event.ByteEvent), k - 1);
      events := [Event.ByteEvent] + more;
      assert events[1..] == more;
    }
  }

  lemma {:induction false} RunTwice(s: GapState, a: seq<Event>, b: seq<Event>)
    requires Possible(s, a) && Possible(Run(s, a), b)
    ensures Possible(s, a + b) && Run(s, a + b) == Run(Run(s, a), b)
    decreases |a|
  {
    hide Step, CanHappen, Timely;
    if a == [] {
      assert a + b == b;
    } else {
      assert (a + b)[0] == a[0] && (a + b)[1..] == a[1..] + b;
      RunTwice(Step(s, a[0]), a[1..], b);
    }
  }

  /** Two blocks and a byte, all zero: the second block is filled after the first has
      completed in the gap. */
  ghost function TwoBlocksAndAByte(): (d: seq<Byte>)
    ensures |d| == 2 * DOUBLE_BUFFER_LENGTH + 1
  {
    seq(2 * DOUBLE_BUFFER_LENGTH + 1, _ => 0)
  }

  /** The state is reached: a run from power-up ends with a block waiting in a stopped
      engine and a short queue, and the polls that follow send the queue first. */
  lemma LittleBlockReached(t0: nat, t1: nat) returns (events: seq<Event>)
    requires t0 != 0 && Expired(t1, t0)
    ensures Possible(GapState(Init(), Outside), events)
    ensures var e := Run(GapState(Init(), Outside), events).e; var d := Dispatch(Dispatch(e, t0), t1);
      && Good(e) && !e.stream.enabled && Pending(e) != [] && 0 < |e.queue| < DOUBLE_BUFFER_LENGTH
      && d.stream.enabled && Active(d) == e.queue && d.taken == e.wire + Pending(e) + e.queue && !InOrder(d)
  {
    var s0 := GapState(Init(), Outside);
    var first := [FetchEvent(Some(TwoBlocksAndAByte())), TestEvent, ActEvent, TestEvent];
    FirstSteps(s0, first);
    var s1 := Run(s0, first);
    var bytes := BytesRun(s1, DOUBLE_BUFFER_LENGTH);
    var s2 := Run(s1, bytes);
    var last := [Event.CompleteEvent, ActEvent];
    LastSteps(s2, last);
    RunTwice(s1, bytes, last);
    RunTwice(s0, first, bytes + last);
    events := first + (bytes + last);
    GapRunsAreGood(events);
    var e := Run(s0, events).e;
    LittleInOrder(e.(countTarg := t0), t1);
    LittleKeepsOrderExactly(e.(countTarg := t0), t1);
  }

  lemma GapRunsAreGood(events: seq<Event>)
    requires Possible(GapState(Init(), Outside), events)
    ensures Good(Run(GapState(Init(), Outside), events).e)
  {
    RunKeeps(GapState(Init(), Outside), events);
  }

  lemma Unfold2(s: GapState, a: Event, b: Event)
    requires CanHappen(s, a) && Timely(s, a) && CanHappen(Step(s, a), b) && Timely(Step(s, a), b)
    ensures Possible(s, [a, b]) && Run(s, [a, b]) == Step(Step(s, a), b)
  {
    hide Step, CanHappen, Timely;
    assert [a, b][1..] == [b] && [b][1..] == [];
    assert Possible(Step(s, a), [b]);
    var t := Step(Step(s, a), b);
    assert Run(t, []) == t;
    assert Run(Step(s, a), [b]) == Run(t, [b][1..]);
    assert Run(s, [a, b]) == Run(Step(s, a), [a, b][1..]);
  }

  lemma FirstSteps(s: GapState, events: seq<Event>)
    requires s == GapState(Init(), Outside)
    requires events == [FetchEvent(Some(TwoBlocksAndAByte())), TestEvent, ActEvent, TestEvent]
    ensures Possible(s, events)
    ensures var f := Run(s, events);
      && f.phase == Tested(false, false, 0) && Streaming(f.e) && f.e.stream == Stream(true, true, false, DOUBLE_BUFFER_LENGTH, 0)
      && f.e.block1 == [] && |f.e.queue| == DOUBLE_BUFFER_LENGTH + 1 && f.e.countTarg == 0
  {
    var fetch := FetchEvent(Some(TwoBlocksAndAByte()));
    var s1 := Step(s, fetch);
    var s2 := Step(s1, TestEvent);
    var s3 := Step(s2, ActEvent);
    assert |s1.e.queue| == 2 * DOUBLE_BUFFER_LENGTH + 1;
    assert s2.phase == Tested(false, true, 0);
    Unfold2(s, fetch, TestEvent);
    Unfold2(s2, ActEvent, TestEvent);
    RunTwice(s, [fetch, TestEvent], [ActEvent, TestEvent]);
    assert events == [fetch, TestEvent] + [ActEvent, TestEvent];
  }

  lemma LastSteps(s: GapState, events: seq<Event>)
    requires s.phase == Tested(false, false, 0) && s.e.stream == Stream(true, true, false, DOUBLE_BUFFER_LENGTH, DOUBLE_BUFFER_LENGTH)
    requires s.e.block1 == [] && |s.e.queue| == DOUBLE_BUFFER_LENGTH + 1 && s.e.countTarg == 0
    requires events == [Event.CompleteEvent, ActEvent]
    ensures Possible(s, events)
    ensures var e := Run(s, events).e;
      && !e.stream.enabled && e.stream.ct && e.doubleDone && |e.block1| == DOUBLE_BUFFER_LENGTH && |e.queue| == 1 && e.countTarg == 0
  {
    var c := Step(s, Event.CompleteEvent);
    assert c.e == Complete(s.e) && c.phase == Tested(false, false, 1);
    assert !c.e.stream.enabled && c.e.doubleDone && c.e.stream.ct && c.e.block1 == [] && c.e.queue == s.e.queue;
    var a := Step(c, ActEvent);
    assert a.e == Refill(c.e, false) == Fill1(c.e);
    Unfold2(s, Event.CompleteEvent, ActEvent);
  }

  /** Three blocks, all zero. */
  ghost function ThreeBlocks(): (d: seq<Byte>)
    ensures |d| == 3 * DOUBLE_BUFFER_LENGTH && forall i :: 0 <= i < |d| ==> d[i] == 0
  {
    seq(3 * DOUBLE_BUFFER_LENGTH, _ => 0)
  }

  /** The state in which a second completion reorders is reached: a run from power-up
      fills both memories with CT clear and leaves a block queued. With both
      completions in the next gap, and a block of ones after it, the order is lost. */
  lemma SecondCompletionReached(since: nat, now: nat) returns (events: seq<Event>, more: seq<Byte>)
    requires since != 0 && Expired(now, since)
    ensures Possible(GapState(Init(), Outside), events)
    ensures var e := Run(GapState(Init(), Outside), events).e;
      && Good(e) && e.stream.enabled && e.stream.double && !e.stream.ct && Other(e) != [] && |e.queue| == DOUBLE_BUFFER_LENGTH
      && !InOrder(NextTransfer(Acted(e, 2, more), since, now))
  {
    var s0 := GapState(Init(), Outside);
    var fetch := FetchEvent(Some(ThreeBlocks()));
    events := [fetch, TestEvent, ActEvent, TestEvent] + [ActEvent];
    more := seq(DOUBLE_BUFFER_LENGTH, _ => 1);
    BothFilled(s0, fetch, events);
    GapRunsAreGood(events);
    var e := Run(s0, events).e;
    hide Run, Possible, Good, Acted, NextTransfer;
    assert (e.queue + more)[0] == 0 && (e.queue + more)[DOUBLE_BUFFER_LENGTH] == 1;
    assert (e.queue + more)[..DOUBLE_BUFFER_LENGTH][0] != (e.queue + more)[DOUBLE_BUFFER_LENGTH..2 * DOUBLE_BUFFER_LENGTH][0];
    OneCompletionIsTheLimit(e, 2, more, since, now);
    ActedTwice(e, more);
  }

  lemma ActedTwice(e: Engine, more: seq<Byte>)
    requires Good(e) && e.stream.enabled && e.stream.double && !e.stream.ct && Other(e) != [] && |e.queue| >= DOUBLE_BUFFER_LENGTH
    ensures !Acted(e, 2, more).stream.enabled
    ensures |Acted(e, 2, more).queue| == |e.queue + more| - DOUBLE_BUFFER_LENGTH
  {
    hide FinishBlock, Good;
    GoodStreams(e);
    FinishBlockKeeps(e);
    FinishBlockKeeps(FinishBlock(e));
  }

  lemma BothFilled(s: GapState, fetch: Event, events: seq<Event>)
    requires s == GapState(Init(), Outside) && fetch == FetchEvent(Some(ThreeBlocks()))
    requires events == [fetch, TestEvent, ActEvent, TestEvent] + [ActEvent]
    ensures Possible(s, events)
    ensures var e := Run(s, events).e;
      && e.stream.enabled && e.stream.double && !e.stream.ct && e.countTarg == 0 && Other(e) != []
      && |e.queue| == DOUBLE_BUFFER_LENGTH && e.queue[0] == 0
  {
    var s1 := Step(s, fetch);
    var s2 := Step(s1, TestEvent);
    var s3 := Step(s2, ActEvent);
    var s4 := Step(s3, TestEvent);
    assert s1.e.queue == ThreeBlocks();
    assert s2.phase == Tested(false, true, 0) && s4.phase == Tested(false, false, 0);
    var s5 := Step(s4, ActEvent);
    assert |s3.e.queue| == 2 * DOUBLE_BUFFER_LENGTH && s3.e.queue[DOUBLE_BUFFER_LENGTH] == 0;
    Unfold2(s, fetch, TestEvent);
    Unfold2(s2, ActEvent, TestEvent);
    Unfold1(s4, ActEvent);
    RunTwice(s, [fetch, TestEvent], [ActEvent, TestEvent]);
    assert [fetch, TestEvent] + [ActEvent, TestEvent] == [fetch, TestEvent, ActEvent, TestEvent];
    RunTwice(s, [fetch, TestEvent, ActEvent, TestEvent], [ActEvent]);
  }

  lemma Unfold1(s: GapState, a: Event)
    requires CanHappen(s, a) && Timely(s, a)
    ensures Possible(s, [a]) && Run(s, [a]) == Step(s, a)
  {
    hide Step, CanHappen, Timely;
    assert [a][1..] == [];
    assert Run(Step(s, a), []) == Step(s, a);
  }
}
