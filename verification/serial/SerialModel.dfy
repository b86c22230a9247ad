/**
 The serial transmit engine as a state machine: the main-loop poll, the DMA
 stream, and the three completion callbacks. A step is one poll, one byte moved
 by the DMA, one completion with its callback, or a change on the receive side.
 */
module SerialModel {
  import opened Fifo
  import opened Sequences
  import opened Wrappers

  const DOUBLE_BUFFER_LENGTH: nat := 800
  const NODE_MAX_NUM: nat := 2920
  const LITTLE_DATA_TIMEOUT: nat := 1500
  const COM_DATA_SIZE: nat := 3072
  const FIFO_LENGTH: nat := 30720

  /** `huart->State` */
  datatype Uart = Ready | BusyRx | BusyTx | BusyTxRx

  /** The transmit stream: its enable, double-buffer and CT bits, the programmed length, and the bytes moved. */
  datatype Stream = Stream(enabled: bool, double: bool, ct: bool, ndtr: nat, sent: nat)

  datatype Engine = Engine(
    queue: seq<Byte>,       // the transmit FIFO
    block0: seq<Byte>,      // pbuffer1 up to mem0_length
    block1: seq<Byte>,      // pbuffer2 up to mem1_length
    single: seq<Byte>,      // pbuffer up to mem_length
    uart: Uart,
    stream: Stream,
    singleDone: bool,       // single_finish_targ
    doubleDone: bool,       // double_finish_targ
    countTarg: nat,
    got: nat,               // test_total_get_length
    before: nat,            // test_before
    after: nat,             // test_after
    full: nat,              // test_fifo_full
    lost: nat,              // test_lose_block
    accepted: seq<Byte>,    // history: every byte ever written to the FIFO
    taken: seq<Byte>,       // history: every byte ever read from it
    wire: seq<Byte>         // history: every byte the DMA moved to the UART
  )

  function Init(): Engine {
    Engine([], [], [], [], Ready, Stream(false, false, false, 0, 0), true, false, 0, 0, 0, 0, 0, 0, [], [], [])
  }

  predicate TxReady(u: Uart) {
    u == Ready || u == BusyRx
  }

  function StartTx(u: Uart): Uart {
    if u == BusyRx then BusyTxRx else BusyTx
  }

  function StopTx(u: Uart): Uart {
    if u == BusyTxRx then BusyRx else Ready
  }

  // ----- the poll -----

  /** The network part of `uartTransfer`: one node, if the FIFO has room for the largest. */
  function Fetch(e: Engine, node: Option<seq<Byte>>): Engine {
    if FIFO_LENGTH - |e.queue| >= NODE_MAX_NUM && node.Some? then
      var data := node.value;
      if |e.queue| + |data| <= FIFO_LENGTH then
        e.(got := e.got + |data|, queue := e.queue + data, before := e.before + |data|, accepted := e.accepted + data)
      else e.(got := e.got + |data|, full := e.full + 1)
    else e
  }

  /** `fillinComBuffer1`: the block it reads, empty when the FIFO holds less. */
  function NextBlock(e: Engine): seq<Byte> {
    if |e.queue| >= DOUBLE_BUFFER_LENGTH then e.queue[..DOUBLE_BUFFER_LENGTH] else []
  }

  /** The FIFO after `block` was read from it, counted in `test_after`. */
  function Take(e: Engine, block: seq<Byte>): Engine
    requires |block| <= |e.queue|
  {
    e.(queue := e.queue[|block|..], taken := e.taken + block, after := e.after + |block|)
  }

  function Fill0(e: Engine): Engine {
    Take(e, NextBlock(e)).(block0 := NextBlock(e))
  }

  function Fill1(e: Engine): Engine {
    Take(e, NextBlock(e)).(block1 := NextBlock(e))
  }

  function CountLost(e: Engine): Engine {
    if e.block0 != [] || e.block1 != [] then e.(lost := e.lost + 1) else e
  }

  /** Starting at memory 0, with CT clear. */
  function StartDouble(e: Engine): Engine {
    e.(uart := StartTx(e.uart), doubleDone := false, stream := Stream(true, true, false, |e.block0|, 0))
  }

  /** The restart branches of `halUartTransmitDma`, by the tested CT bit. */
  function Restart(e: Engine, ct: bool): Engine {
    var e1 := CountLost(e);
    var e2 :=
      if ct && e1.block1 != [] then e1.(block0 := e1.block1, block1 := [])
      else if e1.block0 == [] then Fill0(e1)
      else e1;
    if e2.block0 == [] then e2 else StartDouble(e2)
  }

  /** The branches that only refill the buffer the DMA is not on, by the tested CT bit. */
  function Refill(e: Engine, ct: bool): Engine {
    if !ct then
      if e.block1 == [] then Fill1(e) else e
    else
      if e.block0 == [] then Fill0(e) else e
  }

  /** `halUartTransmitDma` */
  function TransmitDouble(e: Engine): Engine {
    if TxReady(e.uart) then Restart(e, e.stream.ct) else Refill(e, e.stream.ct)
  }

  /** `halUartTransmitDmaLittle`: all that is queued, in one single-buffer transfer. */
  function TransmitLittle(e: Engine): Engine {
    if TxReady(e.uart) then
      var block := e.queue;
      var e1 := Take(e, block).(single := block);
      if block == [] then e1
      else e1.(uart := StartTx(e.uart), singleDone := false, stream := Stream(true, false, false, |block|, 0))
    else e
  }

  /** `msCount - count_targ > LITTLE_DATA_TIMEOUT` on 32-bit words. */
  predicate Expired(now: nat, since: nat) {
    (now - since) % 0x1_0000_0000 > LITTLE_DATA_TIMEOUT
  }

  /** The transmit part of `uartTransfer`. */
  function Dispatch(e: Engine, now: nat): Engine {
    if |e.queue| >= DOUBLE_BUFFER_LENGTH then
      var e1 := e.(countTarg := 0);
      if e1.singleDone then TransmitDouble(e1) else e1
    else if 0 < |e.queue| then
      if e.countTarg == 0 then e.(countTarg := now)
      else if Expired(now, e.countTarg) && e.doubleDone then TransmitLittle(e.(countTarg := 0))
      else e
    else e
  }

  /** `uartTransfer` */
  function Poll(e: Engine, node: Option<seq<Byte>>, now: nat): Engine {
    Dispatch(Fetch(e, node), now)
  }

  // ----- the DMA stream and its callbacks -----

  /** What the stream is reading from. */
  function Active(e: Engine): seq<Byte> {
    if !e.stream.double then e.single else if e.stream.ct then e.block1 else e.block0
  }

  function Other(e: Engine): seq<Byte> {
    if !e.stream.double then [] else if e.stream.ct then e.block0 else e.block1
  }

  function MoveByte(e: Engine): Engine
    requires e.stream.enabled && e.stream.sent < |Active(e)|
  {
    e.(wire := e.wire + [Active(e)[e.stream.sent]], stream := e.stream.(sent := e.stream.sent + 1))
  }

  function Stop(e: Engine): Engine {
    e.(uart := StopTx(e.uart), stream := e.stream.(enabled := false))
  }

  /** `uartDmaXferCpltCallback`, for memory 0 */
  function Callback0(e: Engine): Engine {
    var e1 := e.(block0 := []);
    if e1.block1 == [] then Stop(e1).(doubleDone := true) else e1
  }

  /** `uartDmaXferM1CpltCallback`, for memory 1 */
  function Callback1(e: Engine): Engine {
    var e1 := e.(block1 := []);
    if e1.block0 == [] then Stop(e1).(doubleDone := true) else e1
  }

  /** `DmaXferCpltCallback` */
  function CallbackSingle(e: Engine): Engine {
    Stop(e).(singleDone := true)
  }

  /** The programmed length is used up: CT flips in double-buffer mode, and the interrupt calls back. */
  function Complete(e: Engine): Engine {
    if e.stream.double then
      var e1 := e.(stream := e.stream.(ct := !e.stream.ct, sent := 0));
      if e1.stream.ct then Callback0(e1) else Callback1(e1)
    else CallbackSingle(e)
  }

  /** The receive side sets or clears its half of the UART state. */
  function Receiving(u: Uart, on: bool): Uart {
    match u
    case Ready | BusyRx => if on then BusyRx else Ready
    case BusyTx | BusyTxRx => if on then BusyTxRx else BusyTx
  }

  // ----- runs -----

  datatype Event =
    | PollEvent(node: Option<seq<Byte>>, now: nat)
    | ByteEvent
    | CompleteEvent
    | ReceiveEvent(on: bool)

  /** A node fits the poll's copy buffer; the stream moves bytes up to its programmed length, then completes. */
  predicate CanHappen(e: Engine, event: Event) {
    match event
    case PollEvent(node, _) => node.Some? ==> |node.value| <= NODE_MAX_NUM
    case ByteEvent => e.stream.enabled && e.stream.sent < e.stream.ndtr && e.stream.sent < |Active(e)|
    case CompleteEvent => e.stream.enabled && e.stream.sent == e.stream.ndtr
    case ReceiveEvent(_) => true
  }

  function Step(e: Engine, event: Event): Engine
    requires CanHappen(e, event)
  {
    match event
    case PollEvent(node, now) => Poll(e, node, now)
    case ByteEvent => MoveByte(e)
    case CompleteEvent => Complete(e)
    case ReceiveEvent(on) => e.(uart := Receiving(e.uart, on))
  }

  ghost predicate Possible(e: Engine, events: seq<Event>)
    decreases |events|
  {
    events != [] ==> CanHappen(e, events[0]) && Possible(Step(e, events[0]), events[1..])
  }

  ghost function Run(e: Engine, events: seq<Event>): Engine
    requires Possible(e, events)
    decreases |events|
  {
    if events == [] then e else Run(Step(e, events[0]), events[1..])
  }

  // ----- what the network hands over -----

  /** The bytes of a node that a poll takes: all of them, in order, if 2920 places are free; else
      the node stays where it is. */
  function NodeTaken(e: Engine, node: Option<seq<Byte>>): seq<Byte> {
    if node.Some? && |e.queue| + 2920 <= 30720 then node.value else []
  }

  lemma NodeTakenIs(e: Engine, node: Option<seq<Byte>>)
    ensures NodeTaken(e, node) == if node.Some? && |e.queue| + 2920 <= 30720 then node.value else []
  {
  }

  /** The poll queues the node as it is, and counts its bytes; without one, or without room, it
      changes nothing. */
  lemma FetchQueuesNode(e: Engine, node: Option<seq<Byte>>)
    requires node.Some? ==> |node.value| <= 2920
    ensures Fetch(e, node) ==
      if node.Some? && |e.queue| + 2920 <= 30720 then
        e.(queue := e.queue + node.value, accepted := e.accepted + node.value,
           got := e.got + |node.value|, before := e.before + |node.value|)
      else e
  {
  }

  lemma DispatchAccepts(e: Engine, now: nat)
    ensures Dispatch(e, now).accepted == e.accepted
  {
  }

  lemma PollAccepts(e: Engine, node: Option<seq<Byte>>, now: nat)
    requires node.Some? ==> |node.value| <= 2920
    ensures Poll(e, node, now).accepted == e.accepted + NodeTaken(e, node)
  {
    hide Dispatch, Fetch;
    FetchQueuesNode(e, node);
    DispatchAccepts(Fetch(e, node), now);
    assert e.accepted + [] == e.accepted;
  }

  lemma StepAccepts(e: Engine, event: Event)
    requires CanHappen(e, event)
    ensures Step(e, event).accepted == e.accepted + if event.PollEvent? then NodeTaken(e, event.node) else []
  {
    hide Poll;
    assert e.accepted + [] == e.accepted;
    if event.PollEvent? {
      PollAccepts(e, event.node, event.now);
    }
  }

  /** All that a run was handed: the nodes of those polls that found room for one. */
  ghost function Handed(e: Engine, events: seq<Event>): seq<Byte>
    requires Possible(e, events)
    decreases |events|
  {
    if events == [] then []
    else (if events[0].PollEvent? then NodeTaken(e, events[0].node) else []) + Handed(Step(e, events[0]), events[1..])
  }

  lemma {:induction false} RunAccepts(e: Engine, events: seq<Event>)
    requires Possible(e, events)
    ensures Run(e, events).accepted == e.accepted + Handed(e, events)
    decreases |events|
  {
    hide Step, NodeTaken;
    if events == [] {
      assert e.accepted + [] == e.accepted;
    } else {
      StepAccepts(e, events[0]);
      RunAccepts(Step(e, events[0]), events[1..]);
      Regroup(e.accepted, if events[0].PollEvent? then NodeTaken(e, events[0].node) else [], Handed(Step(e, events[0]), events[1..]));
    }
  }

  /** The nodes of a run, from its events alone. */
  function NodesOf(events: seq<Event>): seq<Byte> {
    if events == [] then []
    else (if events[0].PollEvent? && events[0].node.Some? then events[0].node.value else []) + NodesOf(events[1..])
  }

  /** Every node of the run meets a poll with room for it. */
  ghost predicate Roomy(e: Engine, events: seq<Event>)
    requires Possible(e, events)
    decreases |events|
  {
    events != [] ==>
      && (events[0].PollEvent? && events[0].node.Some? ==> |e.queue| + 2920 <= 30720)
      && Roomy(Step(e, events[0]), events[1..])
  }

  lemma {:induction false} HandedIsAll(e: Engine, events: seq<Event>)
    requires Possible(e, events) && Roomy(e, events)
    ensures Handed(e, events) == NodesOf(events)
    decreases |events|
  {
    hide Step;
    if events != [] {
      HandedIsAll(Step(e, events[0]), events[1..]);
    }
  }

  // ----- shared by the proofs about runs -----

  /** The ping-pong buffers hold whole blocks or nothing. */
  predicate BlockLength(block: seq<Byte>) {
    |block| == 0 || |block| == DOUBLE_BUFFER_LENGTH
  }

  lemma TakeKeeps(e: Engine, block: seq<Byte>)
    requires block <= e.queue && e.accepted == e.taken + e.queue
    ensures var t := Take(e, block); t.accepted == t.taken + t.queue
  {
    assert e.queue == block + e.queue[|block|..];
    Regroup(e.taken, block, e.queue[|block|..]);
  }

  /** Moving one byte from what is to go to the wire. */
  lemma MovedOrder(wire: seq<Byte>, a: seq<Byte>, k: nat, other: seq<Byte>)
    requires k < |a|
    ensures wire + (a[k..] + other) == wire + [a[k]] + (a[k + 1..] + other)
  {
    FirstOff(a, k);
    Regroup([a[k]], a[k + 1..], other);
    Regroup(wire, [a[k]], a[k + 1..] + other);
  }

  /** The stream is inside its block. */
  predicate Streaming(e: Engine) {
    e.stream.enabled && e.stream.sent <= e.stream.ndtr == |Active(e)|
  }

  lemma MovedByte(e: Engine)
    requires Streaming(e) && e.stream.sent < e.stream.ndtr
    ensures var m := MoveByte(e);
      && Streaming(m) && m == e.(wire := e.wire + [Active(e)[e.stream.sent]], stream := m.stream)
      && m.stream == e.stream.(sent := e.stream.sent + 1) && Active(m) == Active(e) && Other(m) == Other(e)
  {
  }

  /** The stream left alone: it moves what is left of its block and completes. */
  ghost function FinishBlock(e: Engine): Engine
    requires Streaming(e)
    decreases e.stream.ndtr - e.stream.sent
  {
    if e.stream.sent == e.stream.ndtr then Complete(e)
    else
      MovedByte(e);
      FinishBlock(MoveByte(e))
  }

  /** It puts the rest of the block on the wire, and then completes. */
  lemma {:induction false} FinishBlockIs(e: Engine)
    requires Streaming(e)
    ensures FinishBlock(e) ==
      Complete(e.(wire := e.wire + Active(e)[e.stream.sent..], stream := e.stream.(sent := e.stream.ndtr)))
    decreases e.stream.ndtr - e.stream.sent
  {
    hide MoveByte, Complete;
    var a, k := Active(e), e.stream.sent;
    if k == e.stream.ndtr {
      assert a[k..] == [] && e.wire + [] == e.wire;
      assert e.(wire := e.wire + a[k..], stream := e.stream.(sent := e.stream.ndtr)) == e;
    } else {
      MovedByte(e);
      FinishBlockIs(MoveByte(e));
      FirstOff(a, k);
      Regroup(e.wire, [a[k]], a[k + 1..]);
    }
  }
}
