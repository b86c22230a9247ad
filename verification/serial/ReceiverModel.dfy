/**
 The receive direction as a state machine: the DMA stream fills two buffers in turn,
 a full buffer or an idle line hands a frame to the FIFO, the client poll empties it.
 */
module ReceiverModel {
  import opened Fifo
  import opened Sequences

  const INIT_RCV_LENGTH: nat := 80
  const POLL_LENGTH: nat := 2000
  const RCV_FIFO_LENGTH: nat := 30720

  /** What a callback offered to the FIFO, and whether it was queued. */
  datatype Frame = Frame(data: seq<Byte>, kept: bool)

  datatype Rx = Rx(
    mem0: seq<Byte>,        // pinbuffer1
    mem1: seq<Byte>,        // pinbuffer2
    ct: bool,               // DMA_SxCR_CT: the buffer that is being filled
    ndtr: nat,              // what the stream still has to receive into it
    lastFrame: bool,        // last_frame
    length0: nat,           // buffer1_length
    length1: nat,           // buffer2_length
    queue: seq<Byte>,       // the receive FIFO
    before: nat,            // test_rcv_before
    taken: nat,             // test_rcv_len
    full: nat,              // test_fifo_full
    received: seq<Byte>,    // history: every byte the stream stored
    frames: seq<Frame>,     // history: every frame a callback offered
    delivered: seq<Byte>    // history: every byte handed to the client queue
  )

  function Current(r: Rx): seq<Byte> {
    if r.ct then r.mem1 else r.mem0
  }

  // ----- the steps -----

  /** The stream stores a byte. */
  function StoreByte(r: Rx, b: Byte): Rx
    requires 0 < r.ndtr <= INIT_RCV_LENGTH == |r.mem0| == |r.mem1|
  {
    var at := INIT_RCV_LENGTH - r.ndtr;
    if r.ct then r.(mem1 := r.mem1[at := b], ndtr := r.ndtr - 1, received := r.received + [b])
    else r.(mem0 := r.mem0[at := b], ndtr := r.ndtr - 1, received := r.received + [b])
  }

  /** The test of both branches: there must be more room than the frame needs. */
  predicate Fits(r: Rx, frame: seq<Byte>) {
    |r.queue| + |frame| < RCV_FIFO_LENGTH
  }

  function Offer(r: Rx, frame: seq<Byte>): Rx {
    if Fits(r, frame) then
      r.(queue := r.queue + frame, before := r.before + |frame|, frames := r.frames + [Frame(frame, true)])
    else r.(full := r.full + 1, frames := r.frames + [Frame(frame, false)])
  }

  /** The frame `uartDmaRcvCpltCallback` takes over: the buffer that CT has just left,
      or what an idle line left in the current one. */
  function Offered(r: Rx): seq<Byte>
    requires r.ndtr <= INIT_RCV_LENGTH == |r.mem0| == |r.mem1|
  {
    if !r.lastFrame then
      if !r.ct then r.mem1 else r.mem0
    else
      if !r.ct then r.mem0[..INIT_RCV_LENGTH - r.ndtr] else r.mem1[..INIT_RCV_LENGTH - r.ndtr]
  }

  /** `uartDmaRcvCpltCallback`. The length of a frame that was not queued stays set. */
  function Callback(r: Rx): Rx
    requires r.ndtr <= INIT_RCV_LENGTH == |r.mem0| == |r.mem1|
  {
    var frame := Offered(r);
    var o := Offer(r, frame);
    var left := if Fits(r, frame) then 0 else |frame|;
    var marked := if r.lastFrame == r.ct then o.(length1 := left) else o.(length0 := left);
    if r.lastFrame then marked.(lastFrame := false, ndtr := INIT_RCV_LENGTH) else marked
  }

  /** The buffer is full: CT flips, the count is reloaded, and the interrupt calls back. */
  function BlockFull(r: Rx): Rx
    requires r.ndtr <= INIT_RCV_LENGTH == |r.mem0| == |r.mem1|
  {
    Callback(r.(ct := !r.ct, ndtr := INIT_RCV_LENGTH))
  }

  /** After an idle line `halUartRecieveDma` marks the last frame and stops the stream, which calls back. */
  function IdleStop(r: Rx): Rx
    requires r.ndtr <= INIT_RCV_LENGTH == |r.mem0| == |r.mem1|
  {
    Callback(r.(lastFrame := true))
  }

  function PollCount(r: Rx): (n: nat)
    ensures n <= |r.queue|
  {
    if |r.queue| > POLL_LENGTH then POLL_LENGTH else |r.queue|
  }

  /** `getUartRecievedData` */
  function ClientPoll(r: Rx): Rx {
    var n := PollCount(r);
    r.(queue := r.queue[n..], taken := r.taken + n, delivered := r.delivered + r.queue[..n])
  }

  // ----- runs -----

  datatype RxEvent = ByteIn(b: Byte) | FullEvent | IdleEvent | PollEvent

  predicate CanHappen(r: Rx, event: RxEvent) {
    match event
    case ByteIn(_) => 0 < r.ndtr
    case FullEvent => r.ndtr == 0
    case IdleEvent => 0 < r.ndtr
    case PollEvent => true
  }

  /** The stream is between callbacks. */
  predicate Filling(r: Rx) {
    r.ndtr <= INIT_RCV_LENGTH == |r.mem0| == |r.mem1| && !r.lastFrame
  }

  function Step(r: Rx, event: RxEvent): (r': Rx)
    requires Filling(r) && CanHappen(r, event)
    ensures Filling(r')
  {
    match event
    case ByteIn(b) => StoreByte(r, b)
    case FullEvent => BlockFull(r)
    case IdleEvent => IdleStop(r)
    case PollEvent => ClientPoll(r)
  }

  ghost predicate Possible(r: Rx, events: seq<RxEvent>)
    requires Filling(r)
    decreases |events|
  {
    events != [] ==> CanHappen(r, events[0]) && Possible(Step(r, events[0]), events[1..])
  }

  ghost function Run(r: Rx, events: seq<RxEvent>): (r': Rx)
    requires Filling(r) && Possible(r, events)
    ensures Filling(r')
    decreases |events|
  {
    if events == [] then r else Run(Step(r, events[0]), events[1..])
  }

  /** Nothing received yet; the buffers hold anything. */
  predicate Fresh(r: Rx) {
    && Filling(r) && r.ndtr == INIT_RCV_LENGTH
    && r.queue == r.received == r.delivered == [] && r.frames == []
    && r.before == r.taken == r.full == 0
  }

  // ----- conservation over whole runs -----

  /** The bytes of the frames, in order: of all, of the queued ones, of the others. */
  function All(frames: seq<Frame>): seq<Byte> {
    if frames == [] then [] else All(frames[..|frames| - 1]) + frames[|frames| - 1].data
  }

  function Accepted(frames: seq<Frame>): seq<Byte> {
    if frames == [] then []
    else Accepted(frames[..|frames| - 1]) + if frames[|frames| - 1].kept then frames[|frames| - 1].data else []
  }

  function Rejected(frames: seq<Frame>): seq<Byte> {
    if frames == [] then []
    else Rejected(frames[..|frames| - 1]) + if frames[|frames| - 1].kept then [] else frames[|frames| - 1].data
  }

  function Refusals(frames: seq<Frame>): nat {
    if frames == [] then 0 else Refusals(frames[..|frames| - 1]) + if frames[|frames| - 1].kept then 0 else 1
  }

  lemma FramesGrow(frames: seq<Frame>, f: Frame)
    ensures All(frames + [f]) == All(frames) + f.data
    ensures Accepted(frames + [f]) == Accepted(frames) + if f.kept then f.data else []
    ensures Rejected(frames + [f]) == Rejected(frames) + if f.kept then [] else f.data
    ensures Refusals(frames + [f]) == Refusals(frames) + if f.kept then 0 else 1
  {
    var g := frames + [f];
    assert g[..|g| - 1] == frames;
  }

  lemma {:induction false} FramesSplit(frames: seq<Frame>)
    ensures |All(frames)| == |Accepted(frames)| + |Rejected(frames)|
    ensures Refusals(frames) == 0 ==> Accepted(frames) == All(frames) && Rejected(frames) == []
  {
    if frames != [] {
      FramesSplit(frames[..|frames| - 1]);
    }
  }

  /** What the current buffer holds of the frame that comes next. */
  function Partial(r: Rx): seq<Byte>
    requires Filling(r)
  {
    Current(r)[..INIT_RCV_LENGTH - r.ndtr]
  }

  ghost predicate Conserved(r: Rx) {
    && Filling(r)
    && r.received == All(r.frames) + Partial(r)
    && Accepted(r.frames) == r.delivered + r.queue
    && r.before == |Accepted(r.frames)| && r.taken == |r.delivered| && r.full == Refusals(r.frames)
  }

  lemma OfferConserves(r: Rx, frame: seq<Byte>)
    requires Accepted(r.frames) == r.delivered + r.queue && r.before == |Accepted(r.frames)| && r.full == Refusals(r.frames)
    ensures var o := Offer(r, frame);
      && All(o.frames) == All(r.frames) + frame && o == r.(queue := o.queue, before := o.before, frames := o.frames, full := o.full)
      && Accepted(o.frames) == o.delivered + o.queue && o.before == |Accepted(o.frames)| && o.full == Refusals(o.frames)
  {
    FramesGrow(r.frames, Frame(frame, Fits(r, frame)));
    Regroup(r.delivered, r.queue, frame);
  }

  lemma StoreConserves(r: Rx, b: Byte)
    requires Conserved(r) && 0 < r.ndtr
    ensures Conserved(StoreByte(r, b))
  {
    var s, at := StoreByte(r, b), INIT_RCV_LENGTH - r.ndtr;
    assert Partial(s) == Partial(r) + [b];
    Regroup(All(r.frames), Partial(r), [b]);
  }

  lemma FullConserves(r: Rx)
    requires Conserved(r) && r.ndtr == 0
    ensures Conserved(BlockFull(r))
  {
    hide All, Accepted, Refusals;
    var flipped := r.(ct := !r.ct, ndtr := INIT_RCV_LENGTH);
    assert Offered(flipped) == Partial(r);
    OfferConserves(flipped, Offered(flipped));
    EmptyEnds(All(BlockFull(r).frames));
  }

  lemma IdleConserves(r: Rx)
    requires Conserved(r) && 0 < r.ndtr
    ensures Conserved(IdleStop(r))
  {
    hide All, Accepted, Refusals;
    var marked := r.(lastFrame := true);
    assert Offered(marked) == Partial(r);
    OfferConserves(marked, Offered(marked));
    EmptyEnds(All(IdleStop(r).frames));
  }

  lemma PollConserves(r: Rx)
    requires Conserved(r)
    ensures Conserved(ClientPoll(r))
  {
    var n := PollCount(r);
    assert r.queue == r.queue[..n] + r.queue[n..];
    Regroup(r.delivered, r.queue[..n], r.queue[n..]);
  }

  lemma StepConserves(r: Rx, event: RxEvent)
    requires Conserved(r) && CanHappen(r, event)
    ensures Conserved(Step(r, event))
  {
    hide StoreByte, BlockFull, IdleStop, ClientPoll;
    match event
    case ByteIn(b) => StoreConserves(r, b);
    case FullEvent => FullConserves(r);
    case IdleEvent => IdleConserves(r);
    case PollEvent => PollConserves(r);
  }

  lemma {:induction false} RunConserves(r: Rx, events: seq<RxEvent>)
    requires Filling(r) && Conserved(r) && Possible(r, events)
    ensures Conserved(Run(r, events))
    decreases |events|
  {
    hide Conserved, Step;
    if events != [] {
      StepConserves(r, events[0]);
      RunConserves(Step(r, events[0]), events[1..]);
    }
  }

  /** The bytes that came in on the line, from the events alone. */
  function BytesIn(events: seq<RxEvent>): seq<Byte> {
    if events == [] then [] else (if events[0].ByteIn? then [events[0].b] else []) + BytesIn(events[1..])
  }

  lemma StepReceives(r: Rx, event: RxEvent)
    requires Filling(r) && CanHappen(r, event)
    ensures Step(r, event).received == r.received + if event.ByteIn? then [event.b] else []
  {
    assert r.received + [] == r.received;
  }

  lemma {:induction false} RunReceives(r: Rx, events: seq<RxEvent>)
    requires Filling(r) && Possible(r, events)
    ensures Run(r, events).received == r.received + BytesIn(events)
    decreases |events|
  {
    hide Step;
    if events == [] {
      assert r.received + [] == r.received;
    } else {
      StepReceives(r, events[0]);
      RunReceives(Step(r, events[0]), events[1..]);
      Regroup(r.received, if events[0].ByteIn? then [events[0].b] else [], BytesIn(events[1..]));
    }
  }

  /** A callback hands over what the current buffer holds, whole and in order, exactly when
      more than its length is free of the 30720 places; otherwise it is counted and gone. */
  lemma CallbackOffers(r: Rx, event: RxEvent)
    requires Filling(r) && CanHappen(r, event) && (event.FullEvent? || event.IdleEvent?)
    ensures var s, data := Step(r, event), Partial(r); var kept := 30720 - |r.queue| > |data|;
      && s.frames == r.frames + [Frame(data, kept)]
      && s.queue == r.queue + (if kept then data else []) && s.full == r.full + (if kept then 0 else 1)
      && s.before == r.before + (if kept then |data| else 0)
      && (if r.ct then s.length1 == (if kept then 0 else |data|) && s.length0 == r.length0
          else s.length0 == (if kept then 0 else |data|) && s.length1 == r.length1)
      && s.ndtr == 80 && (s.ct <==> if event.FullEvent? then !r.ct else r.ct)
  {
    assert r.queue + [] == r.queue;
    if event.FullEvent? {
      assert Offered(r.(ct := !r.ct, ndtr := INIT_RCV_LENGTH)) == Partial(r);
    } else {
      assert Offered(r.(lastFrame := true)) == Partial(r);
    }
  }

  /**
   In every run from a fresh start: the bytes that came in are the offered frames, in order,
   and what the current buffer holds; the bytes of the queued frames are, in order, what
   was delivered and what is queued; every other byte is in a counted rejected frame.
   */
  lemma ReceivedIsAccounted(r: Rx, events: seq<RxEvent>)
    requires Fresh(r) && Possible(r, events)
    ensures var e := Run(r, events);
      && BytesIn(events) == All(e.frames) + Partial(e) && e.received == BytesIn(events)
      && Accepted(e.frames) == e.delivered + e.queue
      && |e.received| == |e.delivered| + |e.queue| + |Rejected(e.frames)| + |Partial(e)|
      && e.before == e.taken + |e.queue| && e.taken == |e.delivered| && e.full == Refusals(e.frames)
      && (e.full == 0 ==> e.received == e.delivered + e.queue + Partial(e))
  {
    RunConserves(r, events);
    RunReceives(r, events);
    assert [] + BytesIn(events) == BytesIn(events);
    FramesSplit(Run(r, events).frames);
  }

  // ----- what client polls deliver -----

  /** A poll delivers the oldest 2000 queued bytes, or all of them if there are fewer. */
  lemma PollDelivers(r: Rx)
    ensures var n := if |r.queue| < 2000 then |r.queue| else 2000;
      ClientPoll(r) == r.(queue := r.queue[n..], taken := r.taken + n, delivered := r.delivered + r.queue[..n])
  {
  }

  function Polls(r: Rx, n: nat): Rx {
    if n == 0 then r else ClientPoll(Polls(r, n - 1))
  }

  /** With nothing coming in, `n` polls deliver the first 2000 * n queued bytes in order, or all. */
  lemma {:induction false} PollsDrain(r: Rx, n: nat)
    ensures var k := if |r.queue| < 2000 * n then |r.queue| else 2000 * n; var p := Polls(r, n);
      p.queue == r.queue[k..] && p.delivered == r.delivered + r.queue[..k] && p.taken == r.taken + k && p.frames == r.frames
  {
    if n == 0 {
      assert r.queue[0..] == r.queue && r.delivered + r.queue[..0] == r.delivered;
    } else {
      PollsDrain(r, n - 1);
      var p := Polls(r, n - 1);
      PollDelivers(p);
      hide ClientPoll;
      var q := r.queue;
      var k := if |q| < 2000 * (n - 1) then |q| else 2000 * (n - 1);
      var j := if |p.queue| < 2000 then |p.queue| else 2000;
      TakenOn(q, k, j, r.delivered);
    }
  }

  lemma TakenOn(q: seq<Byte>, k: nat, j: nat, front: seq<Byte>)
    requires k + j <= |q|
    ensures front + q[..k] + q[k..][..j] == front + q[..k + j] && q[k..][j..] == q[k + j..]
  {
    assert q[..k] + q[k..][..j] == q[..k + j];
    Regroup(front, q[..k], q[k..][..j]);
  }

  // ----- how often the client has to poll -----

  /** The frames of at most 80 bytes that one client poll can take away. */
  const FRAMES_PER_POLL: nat := 25

  /** At most 25 callbacks between two client polls, and `left` before the next one. */
  predicate Paced(events: seq<RxEvent>, left: nat)
    decreases |events|
  {
    events != [] ==>
      match events[0]
      case ByteIn(_) => Paced(events[1..], left)
      case PollEvent => Paced(events[1..], FRAMES_PER_POLL)
      case _ => 0 < left && Paced(events[1..], left - 1)
  }

  function LeftAfter(event: RxEvent, left: nat): int {
    match event
    case ByteIn(_) => left
    case PollEvent => FRAMES_PER_POLL
    case _ => left - 1
  }

  predicate Light(r: Rx, left: int) {
    left <= FRAMES_PER_POLL && |r.queue| <= INIT_RCV_LENGTH * (FRAMES_PER_POLL - left) && r.full == 0
  }

  lemma StepLight(r: Rx, event: RxEvent, left: nat)
    requires Filling(r) && CanHappen(r, event) && Light(r, left) && 0 <= LeftAfter(event, left)
    ensures Light(Step(r, event), LeftAfter(event, left))
  {
  }

  lemma {:induction false} RunLight(r: Rx, events: seq<RxEvent>, left: nat)
    requires Filling(r) && Possible(r, events) && Paced(events, left) && Light(r, left)
    ensures Run(r, events).full == 0
    decreases |events|
  {
    hide Step;
    if events != [] {
      StepLight(r, events[0], left);
      RunLight(Step(r, events[0]), events[1..], LeftAfter(events[0], left));
    }
  }

  /** With at most 25 frames between two client polls no byte is lost, whatever the line does. */
  lemma PacedLosesNothing(r: Rx, events: seq<RxEvent>)
    requires Fresh(r) && Possible(r, events) && Paced(events, FRAMES_PER_POLL)
    ensures var e := Run(r, events); e.full == 0 && BytesIn(events) == e.delivered + e.queue + Partial(e)
  {
    RunLight(r, events, FRAMES_PER_POLL);
    ReceivedIsAccounted(r, events);
  }

  // ----- the limit is sharp -----

  /** A whole block comes in on the line, byte by byte. */
  ghost function Feed(r: Rx, block: seq<Byte>): (r': Rx)
    requires Filling(r) && r.ndtr == |block|
    ensures Filling(r') && r'.ndtr == INIT_RCV_LENGTH
    decreases |block|
  {
    if block == [] then Step(r, FullEvent) else Feed(Step(r, ByteIn(block[0])), block[1..])
  }

  /** `k` whole blocks, then a client poll; and `n` rounds of that. */
  ghost function Blocks(r: Rx, block: seq<Byte>, k: nat): (r': Rx)
    requires Filling(r) && r.ndtr == INIT_RCV_LENGTH == |block|
    ensures Filling(r') && r'.ndtr == INIT_RCV_LENGTH
  {
    if k == 0 then r else Feed(Blocks(r, block, k - 1), block)
  }

  ghost function Rounds(r: Rx, block: seq<Byte>, k: nat, n: nat): (r': Rx)
    requires Filling(r) && r.ndtr == INIT_RCV_LENGTH == |block|
    ensures Filling(r') && r'.ndtr == INIT_RCV_LENGTH
  {
    if n == 0 then r else Step(Blocks(Rounds(r, block, k, n - 1), block, k), PollEvent)
  }

  /** A block that came in was offered as one frame of 80 bytes. */
  lemma {:induction false} FeedOffers(r: Rx, block: seq<Byte>)
    requires Filling(r) && r.ndtr == |block|
    ensures var f := Feed(r, block);
      if |r.queue| + INIT_RCV_LENGTH < RCV_FIFO_LENGTH then |f.queue| == |r.queue| + INIT_RCV_LENGTH && f.full == r.full
      else f.queue == r.queue && f.full == r.full + 1
    decreases |block|
  {
    if block != [] {
      FeedOffers(Step(r, ByteIn(block[0])), block[1..]);
    }
  }

  /** As long as nothing is rejected, each block adds 80 bytes; what was rejected stays counted. */
  lemma {:induction false} BlocksAdd(r: Rx, block: seq<Byte>, k: nat)
    requires Filling(r) && r.ndtr == INIT_RCV_LENGTH == |block|
    ensures var b := Blocks(r, block, k);
      && r.full <= b.full
      && |b.queue| <= |r.queue| + INIT_RCV_LENGTH * k && (|r.queue| <= RCV_FIFO_LENGTH ==> |b.queue| <= RCV_FIFO_LENGTH)
      && (b.full == 0 ==> |b.queue| == |r.queue| + INIT_RCV_LENGTH * k)
      && (|r.queue| + INIT_RCV_LENGTH * k < RCV_FIFO_LENGTH ==> b.full == r.full)
  {
    hide Step, Feed;
    if k > 0 {
      BlocksAdd(r, block, k - 1);
      FeedOffers(Blocks(r, block, k - 1), block);
    }
  }

  lemma {:induction false} RoundsLight(r: Rx, block: seq<Byte>, k: nat, n: nat)
    requires Filling(r) && r.ndtr == INIT_RCV_LENGTH == |block| && k <= FRAMES_PER_POLL && r.queue == [] && r.full == 0
    ensures var e := Rounds(r, block, k, n); e.full == 0 && e.queue == []
  {
    if n > 0 {
      RoundsLight(r, block, k, n - 1);
      BlocksAdd(Rounds(r, block, k, n - 1), block, k);
    }
  }

  lemma {:induction false} RoundsHeavy(r: Rx, block: seq<Byte>, k: nat, n: nat)
    requires Filling(r) && r.ndtr == INIT_RCV_LENGTH == |block| && k > FRAMES_PER_POLL && |r.queue| <= RCV_FIFO_LENGTH
    ensures var e := Rounds(r, block, k, n); r.full <= e.full && |e.queue| <= RCV_FIFO_LENGTH && (e.full == 0 ==> INIT_RCV_LENGTH * n <= |e.queue|)
  {
    if n > 0 {
      RoundsHeavy(r, block, k, n - 1);
      var before := Rounds(r, block, k, n - 1);
      BlocksAdd(before, block, k);
      assert INIT_RCV_LENGTH * k >= POLL_LENGTH + INIT_RCV_LENGTH;
    }
  }

  /** A steady line: `k` blocks for each client poll. No frame is ever rejected exactly
      when `k` is at most 25. */
  lemma SteadyRate(r: Rx, block: seq<Byte>, k: nat)
    requires Fresh(r) && |block| == INIT_RCV_LENGTH
    ensures (forall n: nat :: Rounds(r, block, k, n).full == 0) <==> k <= FRAMES_PER_POLL
  {
    if k <= FRAMES_PER_POLL {
      forall n: nat ensures Rounds(r, block, k, n).full == 0 {
        RoundsLight(r, block, k, n);
      }
    } else {
      RoundsHeavy(r, block, k, 400);
      assert Rounds(r, block, k, 400).full != 0;
    }
  }
}
