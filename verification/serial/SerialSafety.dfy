/** What every run of the transmit engine keeps, with each poll and each completion atomic. */
module SerialSafety {
  import opened Fifo
  import opened SerialModel
  import opened Sequences
  import opened Wrappers

  /** Bytes that were taken from the FIFO and are not on the wire yet, in the order they will go. */
  function InFlight(e: Engine): seq<Byte> {
    if !e.stream.enabled || e.stream.sent > |Active(e)| then []
    else Active(e)[e.stream.sent..] + Other(e)
  }

  ghost predicate Inv(e: Engine) {
    && BlockLength(e.block0) && BlockLength(e.block1)
    && TxReady(e.uart) == !e.stream.enabled
    && (!e.stream.enabled ==> e.block0 == [] && e.block1 == [] && e.singleDone)
    && (e.stream.enabled && e.stream.double ==>
          && e.singleDone && !e.doubleDone
          && |Active(e)| == e.stream.ndtr == DOUBLE_BUFFER_LENGTH && e.stream.sent <= e.stream.ndtr)
    && (e.stream.enabled && !e.stream.double ==>
          && !e.singleDone && e.doubleDone && e.block0 == [] && e.block1 == []
          && |e.single| == e.stream.ndtr && e.stream.sent <= e.stream.ndtr)
    && e.taken == e.wire + InFlight(e)
    && e.accepted == e.taken + e.queue
    && |e.queue| <= FIFO_LENGTH
    && e.before == |e.accepted| && e.after == |e.taken|
    && e.got == e.before && e.full == 0
  }

  lemma FetchKeepsInv(e: Engine, node: Option<seq<Byte>>)
    requires Inv(e) && (node.Some? ==> |node.value| <= NODE_MAX_NUM)
    ensures Inv(Fetch(e, node))
  {
    if node.Some? {
      assert e.taken + e.queue + node.value == e.taken + (e.queue + node.value);
    }
  }

  lemma DoubleKeepsInv(e: Engine)
    requires Inv(e) && e.singleDone
    ensures Inv(TransmitDouble(e))
  {
    var block := NextBlock(e);
    TakeKeeps(e, block);
    if TxReady(e.uart) {
      assert CountLost(e) == e;
      assert block[0..] + [] == block;
    } else if Other(e) == [] {
      assert e.wire + (Active(e)[e.stream.sent..] + []) + block == e.wire + (Active(e)[e.stream.sent..] + block);
    }
  }

  lemma LittleKeepsInv(e: Engine)
    requires Inv(e) && e.doubleDone
    ensures Inv(TransmitLittle(e))
  {
    TakeKeeps(e, e.queue);
    if TxReady(e.uart) {
      assert e.queue[0..] + [] == e.queue;
    }
  }

  lemma PollKeepsInv(e: Engine, node: Option<seq<Byte>>, now: nat)
    requires Inv(e) && (node.Some? ==> |node.value| <= NODE_MAX_NUM)
    ensures Inv(Poll(e, node, now))
  {
    hide TransmitDouble, TransmitLittle, Fetch;
    FetchKeepsInv(e, node);
    var f := Fetch(e, node);
    var g := f.(countTarg := 0);
    assert Inv(g) && Inv(f.(countTarg := now));
    if g.singleDone {
      DoubleKeepsInv(g);
    }
    if g.doubleDone {
      LittleKeepsInv(g);
    }
  }

  lemma ByteKeepsInv(e: Engine)
    requires Inv(e) && CanHappen(e, ByteEvent)
    ensures Inv(MoveByte(e))
  {
    hide MoveByte;
    MovedByte(e);
    MovedOrder(e.wire, Active(e), e.stream.sent, Other(e));
  }

  lemma CompleteKeepsInv(e: Engine)
    requires Inv(e) && CanHappen(e, CompleteEvent)
    ensures Inv(Complete(e))
  {
    assert Active(e)[e.stream.sent..] == [];
    assert [] + Other(e) == Other(e);
    assert Other(e)[0..] + [] == Other(e);
  }

  lemma StepKeepsInv(e: Engine, event: Event)
    requires Inv(e) && CanHappen(e, event)
    ensures Inv(Step(e, event))
  {
    hide Poll, MoveByte, Complete;
    match event
    case PollEvent(node, now) => PollKeepsInv(e, node, now);
    case ByteEvent => ByteKeepsInv(e);
    case CompleteEvent => CompleteKeepsInv(e);
    case ReceiveEvent(_) =>
  }

  lemma {:induction false} RunKeepsInv(e: Engine, events: seq<Event>)
    requires Inv(e) && Possible(e, events)
    ensures Inv(Run(e, events))
    decreases |events|
  {
    hide Inv, Step;
    if events != [] {
      StepKeepsInv(e, events[0]);
      RunKeepsInv(Step(e, events[0]), events[1..]);
    }
  }

  /**
   In every run from power-up: what is on the wire, then what is in flight, then
   what is queued, is exactly the nodes that the polls were handed, one after the
   other; every fetched byte was accepted; and both counters agree with the queue's
   occupancy.
   */
  lemma WireIsExact(events: seq<Event>)
    requires Possible(Init(), events)
    ensures var e := Run(Init(), events);
      && Handed(Init(), events) == e.wire + InFlight(e) + e.queue
      && (Roomy(Init(), events) ==> NodesOf(events) == e.wire + InFlight(e) + e.queue)
      && e.accepted == e.wire + InFlight(e) + e.queue
      && e.taken == e.wire + InFlight(e)
      && e.before == e.after + |e.queue| && e.got == e.before && e.full == 0
  {
    InitInv();
    RunKeepsInv(Init(), events);
    RunAccepts(Init(), events);
    assert Init().accepted + Handed(Init(), events) == Handed(Init(), events);
    if Roomy(Init(), events) {
      HandedIsAll(Init(), events);
    }
  }

  lemma InitInv()
    ensures Inv(Init())
  {
  }

  /**
   In every run from power-up: a UART that is ready to transmit has nothing in
   the ping-pong buffers, and the two kinds of transfer exclude each other.
   */
  lemma TransfersExclude(events: seq<Event>)
    requires Possible(Init(), events)
    ensures var e := Run(Init(), events);
      && (TxReady(e.uart) <==> !e.stream.enabled)
      && (TxReady(e.uart) ==> e.block0 == [] && e.block1 == [])
      && (e.stream.enabled && e.stream.double ==> e.singleDone && !e.doubleDone)
      && (e.stream.enabled && !e.stream.double ==> !e.singleDone && e.doubleDone && e.block0 == [] && e.block1 == [])
  {
    InitInv();
    RunKeepsInv(Init(), events);
  }

  /** A poll never touches the stream, nor the buffer it reads from, while it runs. */
  lemma PollLeavesActiveAlone(e: Engine, node: Option<seq<Byte>>, now: nat)
    requires Inv(e) && e.stream.enabled
    ensures var p := Poll(e, node, now);
      p.stream == e.stream && Active(p) == Active(e) && p.wire == e.wire
      && InFlight(e) <= InFlight(p)
  {
    hide TransmitDouble, TransmitLittle, Fetch, Inv, TxReady;
    Busy(e);
    FetchLeaves(e, node);
    var f := Fetch(e, node);
    BusyTransmits(f.(countTarg := 0));
    BusyTransmits(f.(countTarg := now));
  }

  lemma Busy(e: Engine)
    requires Inv(e) && e.stream.enabled
    ensures !TxReady(e.uart) && (e.stream.double || (e.block0 == [] && e.block1 == []))
  {
  }

  lemma FetchLeaves(e: Engine, node: Option<seq<Byte>>)
    ensures var f := Fetch(e, node);
      f.stream == e.stream && f.uart == e.uart && f.block0 == e.block0 && f.block1 == e.block1
      && Active(f) == Active(e) && InFlight(f) == InFlight(e) && f.wire == e.wire
  {
  }

  /** While a transfer runs, the transmit calls leave the stream and its buffer alone. */
  lemma BusyTransmits(e: Engine)
    requires !TxReady(e.uart) && e.stream.enabled && (e.stream.double || (e.block0 == [] && e.block1 == []))
    ensures TransmitLittle(e) == e
    ensures var p := TransmitDouble(e);
      p.stream == e.stream && Active(p) == Active(e) && p.wire == e.wire && InFlight(e) <= InFlight(p)
  {
  }

  // ----- when a poll starts what -----

  /**
   A stopped engine is started by a poll exactly with 800 bytes queued, which become
   the first block, or with fewer, which all go at once, if some block was finished
   before and more than 1500 ticks of the 32-bit count went by since the poll that
   found them first.
   */
  lemma StartsExactly(e: Engine, now: nat)
    requires Inv(e) && !e.stream.enabled
    ensures var d, n := Dispatch(e, now), |e.queue|;
      && (d.stream.enabled && d.stream.double <==> n >= 800)
      && (d.stream.enabled && !d.stream.double <==>
            0 < n < 800 && e.doubleDone && e.countTarg != 0 && (now - e.countTarg) % 0x1_0000_0000 > 1500)
      && (d.stream.enabled ==> d.stream.sent == 0 && d.stream.ndtr == |Active(d)| && d.wire == e.wire && Other(d) == [])
      && (d.stream.enabled && d.stream.double ==> !d.stream.ct && Active(d) == e.queue[..800] && d.queue == e.queue[800..])
      && (d.stream.enabled && !d.stream.double ==> Active(d) == e.queue && d.queue == [])
      && (!d.stream.enabled ==> d == e.(countTarg := d.countTarg))
      && d.countTarg == (if n >= 800 || d.stream.enabled then 0 else if n > 0 && e.countTarg == 0 then now else e.countTarg)
  {
    if 0 < |e.queue| < 800 {
      assert e.queue[|e.queue|..] == [];
    }
  }

  /** While a double-buffer transfer runs, a poll that finds 800 bytes queued puts them into
      the other memory if that is empty, and takes nothing otherwise. */
  lemma RefillsExactly(e: Engine, now: nat)
    requires Inv(e) && e.stream.enabled
    ensures var d := Dispatch(e, now);
      && d.stream == e.stream && d.wire == e.wire && Active(d) == Active(e)
      && (if e.stream.double && Other(e) == [] && |e.queue| >= 800 then Other(d) == e.queue[..800] && d.queue == e.queue[800..]
          else Other(d) == Other(e) && d.queue == e.queue)
  {
    hide InFlight;
  }

  // ----- progress -----

  lemma CompleteHandsOver(e: Engine)
    requires Inv(e) && CanHappen(e, CompleteEvent)
    ensures var f := Complete(e);
      && f.wire == e.wire && f.taken == e.taken && f.queue == e.queue && f.accepted == e.accepted
      && (f.stream.enabled <==> Other(e) != [])
      && (f.stream.enabled ==> f.stream.sent == 0 && Active(f) == Other(e) && Other(f) == [])
  {
  }

  /** The block goes to the wire; then the other block is next, or the stream stops. */
  lemma FinishBlockPuts(e: Engine)
    requires Inv(e) && e.stream.enabled
    ensures var f := FinishBlock(e);
      && Inv(f) && f.wire == e.wire + Active(e)[e.stream.sent..]
      && f.taken == e.taken && f.queue == e.queue && f.accepted == e.accepted
      && (f.stream.enabled <==> Other(e) != [])
      && (f.stream.enabled ==> f.stream.sent == 0 && Active(f) == Other(e) && Other(f) == [])
  {
    hide Complete, FinishBlock;
    FinishBlockIs(e);
    var a, k := Active(e), e.stream.sent;
    var d := e.(wire := e.wire + a[k..], stream := e.stream.(sent := e.stream.ndtr));
    assert a[|a|..] == [] && a[k..] + Other(e) == a[k..] + ([] + Other(e));
    Regroup(e.wire, a[k..], [] + Other(e));
    assert Inv(d);
    CompleteKeepsInv(d);
    CompleteHandsOver(d);
  }

  /** Left alone, the stream puts everything that was taken on the wire, in at most two blocks, and stops. */
  lemma EngineDrains(e: Engine)
    requires Inv(e) && e.stream.enabled
    ensures var f := FinishBlock(e);
      if f.stream.enabled then
        Inv(f) && var g := FinishBlock(f); !g.stream.enabled && g.wire == e.taken
      else f.wire == e.taken
  {
    hide FinishBlock;
    FinishBlockPuts(e);
    var f := FinishBlock(e);
    if f.stream.enabled {
      FinishBlockPuts(f);
      assert Active(f)[0..] + [] == Active(f)[0..];
    } else {
      assert f.wire + [] == f.wire;
    }
  }

  /** A stopped engine with a whole block queued starts it at the next poll. */
  lemma PollStarts(e: Engine, node: Option<seq<Byte>>, now: nat)
    requires Inv(e) && !e.stream.enabled && |e.queue| >= DOUBLE_BUFFER_LENGTH
    ensures var p := Poll(e, node, now);
      p.stream.enabled && p.taken == e.taken + e.queue[..DOUBLE_BUFFER_LENGTH]
  {
    var f := Fetch(e, node);
    assert f.queue[..DOUBLE_BUFFER_LENGTH] == e.queue[..DOUBLE_BUFFER_LENGTH];
  }

  // ----- data shorter than one block -----

  /** Nothing is taken before a whole block was accepted; then something was, and
      whenever the stream is off a double-buffer transfer has finished. */
  ghost predicate Started(e: Engine) {
    if |e.accepted| < DOUBLE_BUFFER_LENGTH then !e.stream.enabled && !e.doubleDone && e.taken == [] && e.wire == []
    else e.taken != [] && (!e.stream.enabled ==> e.doubleDone)
  }

  lemma DispatchStarts(f: Engine, now: nat)
    requires Inv(f) && (|f.accepted| < DOUBLE_BUFFER_LENGTH ==> Started(f))
    requires |f.accepted| >= DOUBLE_BUFFER_LENGTH ==> f.taken == [] || Started(f)
    requires f.taken == [] ==> !f.stream.enabled && !f.doubleDone && f.wire == []
    ensures Started(Dispatch(f, now))
  {
  }

  lemma StepStarts(e: Engine, event: Event)
    requires Inv(e) && Started(e) && CanHappen(e, event)
    ensures Started(Step(e, event))
  {
    match event
    case PollEvent(node, now) =>
      hide Dispatch, Inv;
      FetchKeepsInv(e, node);
      FetchAccepts(e, node);
      DispatchStarts(Fetch(e, node), now);
    case ByteEvent =>
    case CompleteEvent =>
    case ReceiveEvent(_) =>
  }

  lemma FetchAccepts(e: Engine, node: Option<seq<Byte>>)
    requires Inv(e)
    ensures var f := Fetch(e, node);
      && f.taken == e.taken && f.wire == e.wire && f.stream == e.stream && f.doubleDone == e.doubleDone
      && |f.accepted| >= |e.accepted|
  {
  }

  lemma {:induction false} RunStarts(e: Engine, events: seq<Event>)
    requires Inv(e) && Started(e) && Possible(e, events)
    ensures Started(Run(e, events))
    decreases |events|
  {
    hide Inv, Step, Started;
    if events != [] {
      StepKeepsInv(e, events[0]);
      StepStarts(e, events[0]);
      RunStarts(Step(e, events[0]), events[1..]);
    }
  }

  /** In every run from power-up, something was ever sent exactly when a whole block
      was accepted; until then the wire stays empty, however long the polls go on. */
  lemma SentExactlyFromFirstBlock(events: seq<Event>)
    requires Possible(Init(), events)
    ensures var e := Run(Init(), events);
      && (e.taken != [] <==> |e.accepted| >= DOUBLE_BUFFER_LENGTH)
      && (|e.accepted| < DOUBLE_BUFFER_LENGTH ==> e.wire == [])
  {
    InitInv();
    RunStarts(Init(), events);
  }

  /** Two polls without new data, with the timeout between them. */
  function TwoPolls(e: Engine, t0: nat, t1: nat): Engine {
    Poll(Poll(e, None, t0), None, t1)
  }

  /** What they do to a stopped engine with a short queue. */
  lemma TimeoutSends(e: Engine, t0: nat, t1: nat)
    requires Inv(e) && !e.stream.enabled && 0 < |e.queue| < DOUBLE_BUFFER_LENGTH
    requires t0 != 0 && Expired(t1, if e.countTarg == 0 then t0 else e.countTarg)
    ensures var p := TwoPolls(e, t0, t1);
      if e.doubleDone then p.stream.enabled && !p.stream.double && p.queue == [] && p.accepted == e.accepted && p.taken == e.accepted
      else p == e.(countTarg := p.countTarg)
  {
    assert e.queue[|e.queue|..] == [] && e.accepted == e.taken + e.queue;
  }

  /**
   A stopped engine with less than a block queued, and the timeout going by: the
   queue is sent, to the last byte, exactly when a whole block was ever accepted.
   */
  lemma ShortQueueSent(events: seq<Event>, t0: nat, t1: nat)
    requires Possible(Init(), events)
    requires var e := Run(Init(), events);
      && !e.stream.enabled && 0 < |e.queue| < DOUBLE_BUFFER_LENGTH
      && t0 != 0 && Expired(t1, if e.countTarg == 0 then t0 else e.countTarg)
    ensures var e := Run(Init(), events); var p := TwoPolls(e, t0, t1);
      && (p.taken == e.accepted <==> |e.accepted| >= DOUBLE_BUFFER_LENGTH)
      && (|e.accepted| >= DOUBLE_BUFFER_LENGTH ==> Inv(p) && p.stream.enabled && FinishBlock(p).wire == e.accepted)
      && (|e.accepted| < DOUBLE_BUFFER_LENGTH ==> !p.stream.enabled && p.wire == [])
  {
    hide Poll, Run, FinishBlock;
    InitInv();
    RunStarts(Init(), events);
    RunKeepsInv(Init(), events);
    var e := Run(Init(), events);
    TimeoutSends(e, t0, t1);
    PollKeepsInv(e, None, t0);
    PollKeepsInv(Poll(e, None, t0), None, t1);
    var p := TwoPolls(e, t0, t1);
    if p.stream.enabled {
      FinishBlockPuts(p);
      EngineDrains(p);
    }
  }
}
