/**
 The receive ring with its writer in the interrupt and its reader in the main loop: the
 callback may fall between any two statements of the reader's copy loop. The reader
 writes its index and the flag one after the other, with the interrupt open.
 */
module FifoInterrupt {
  import opened Fifo
  import opened Sequences

  const WORD: nat := 0x1_0000_0000

  /** The fields of the ring, as either side finds them. */
  datatype Cells = Cells(buf: seq<Byte>, r: nat, w: nat, flag: bool)

  predicate Good(c: Cells) {
    && 0 < 2 * |c.buf| < WORD && c.r < |c.buf| && c.w < |c.buf|
    && (if c.flag then c.w <= c.r else c.r <= c.w)
  }

  function Queue(c: Cells): (q: seq<Byte>)
    requires Good(c)
    ensures |q| <= |c.buf|
  {
    if c.flag then c.buf[c.r..] + c.buf[..c.w] else c.buf[c.r..c.w]
  }

  ghost function CellsOf(ring: Ring): Cells
    reads ring, ring.buffer
  {
    Cells(ring.buffer[..], ring.currentReadNum, ring.currentWriteNum, ring.flagWrite)
  }

  /** They hold what the ring holds. */
  lemma CellsHold(ring: Ring)
    requires ring.Valid() && 2 * ring.length < WORD
    ensures Good(CellsOf(ring)) && Queue(CellsOf(ring)) == ring.Contents()
  {
    assert ring.buffer[..][ring.currentReadNum..] == ring.buffer[ring.currentReadNum..];
  }

  // ----- the callback -----

  /** `CheckCanWriteNum`, in unsigned words. */
  function CanWrite(c: Cells): nat {
    (if !c.flag then |c.buf| - c.w + c.r else c.r - c.w) % WORD
  }

  function Put(c: Cells, b: Byte): (d: Cells)
    requires c.w < |c.buf|
    ensures |d.buf| == |c.buf| && d.w < |d.buf|
  {
    var d := c.(buf := c.buf[c.w := b], w := c.w + 1);
    if d.w == |d.buf| then d.(w := 0, flag := true) else d
  }

  function PutAll(c: Cells, frame: seq<Byte>): (d: Cells)
    requires c.w < |c.buf|
    ensures |d.buf| == |c.buf| && d.w < |d.buf|
    decreases |frame|
  {
    if frame == [] then c else PutAll(Put(c, frame[0]), frame[1..])
  }

  /** The callback offers a frame: queued if more than its length is free. */
  function Offer(c: Cells, frame: seq<Byte>): (o: (Cells, bool))
    requires c.w < |c.buf|
    ensures |o.0.buf| == |c.buf| && o.0.w < |o.0.buf|
  {
    if CanWrite(c) > |frame| then (PutAll(c, frame), true) else (c, false)
  }

  // ----- the reader -----

  predicate Wraps(c: Cells) {
    c.r + 1 == |c.buf|
  }

  /** One round of the copy loop, when nothing falls between. */
  function TakeOne(c: Cells): Cells {
    if Wraps(c) then c.(r := 0, flag := false) else c.(r := c.r + 1)
  }

  /** Between which statements of a round the interrupt falls. The last two exist only in
      the round that wraps: before the index is reset, and after it but before the flag is. */
  datatype Point = BeforeCopy | BeforeStep | BeforeReset | BeforeFlag

  datatype Outcome = Outcome(c: Cells, kept: bool, byte: Byte)

  /** A round with the interrupt in it. */
  function Interrupted(c: Cells, frame: seq<Byte>, p: Point): Outcome
    requires Good(c) && (p.BeforeReset? || p.BeforeFlag? ==> Wraps(c))
  {
    match p
    case BeforeCopy =>
      var (d, kept) := Offer(c, frame);
      Outcome(TakeOne(d), kept, if d.r < |d.buf| then d.buf[d.r] else 0)
    case BeforeStep =>
      var (d, kept) := Offer(c, frame);
      Outcome(TakeOne(d), kept, c.buf[c.r])
    case BeforeReset =>
      var (d, kept) := Offer(c.(r := c.r + 1), frame);
      Outcome(d.(r := 0, flag := false), kept, c.buf[c.r])
    case BeforeFlag =>
      var (d, kept) := Offer(c.(r := 0), frame);
      Outcome(d.(flag := false), kept, c.buf[c.r])
  }

  /** The two orders without an overlap. */
  function WriteFirst(c: Cells, frame: seq<Byte>): Outcome
    requires Good(c)
  {
    Interrupted(c, frame, BeforeCopy)
  }

  function ReadFirst(c: Cells, frame: seq<Byte>): Outcome
    requires Good(c)
  {
    var (d, kept) := Offer(TakeOne(c), frame);
    Outcome(d, kept, c.buf[c.r])
  }

  // ----- what the callback does -----

  lemma PutQueues(c: Cells, b: Byte)
    requires Good(c) && |Queue(c)| < |c.buf|
    ensures var d := Put(c, b); Good(d) && Queue(d) == Queue(c) + [b] && d.r == c.r
  {
  }

  lemma {:induction false} PutAllQueues(c: Cells, frame: seq<Byte>)
    requires Good(c) && |Queue(c)| + |frame| <= |c.buf|
    ensures var d := PutAll(c, frame); Good(d) && Queue(d) == Queue(c) + frame && d.r == c.r
    decreases |frame|
  {
    hide Put, Queue;
    if frame == [] {
      EmptyEnds(Queue(c));
    } else {
      PutQueues(c, frame[0]);
      PutAllQueues(Put(c, frame[0]), frame[1..]);
      Regroup(Queue(c), [frame[0]], frame[1..]);
      assert [frame[0]] + frame[1..] == frame;
    }
  }

  /** Short of the end of the array neither the read index nor the flag matters. */
  lemma {:induction false} PutAllShort(c: Cells, frame: seq<Byte>)
    requires c.w + |frame| < |c.buf|
    ensures PutAll(c, frame) == c.(buf := c.buf[..c.w] + frame + c.buf[c.w + |frame|..], w := c.w + |frame|)
    decreases |frame|
  {
    if frame == [] {
      assert c.buf[..c.w] + [] + c.buf[c.w..] == c.buf;
    } else {
      var d := Put(c, frame[0]);
      PutAllShort(d, frame[1..]);
      var rest := c.buf[c.w + |frame|..];
      assert d.buf[d.w + |frame[1..]|..] == rest;
      assert d.buf[..d.w] == c.buf[..c.w] + [frame[0]];
      assert c.buf[..c.w] + [frame[0]] + frame[1..] == c.buf[..c.w] + frame;
    }
  }

  /** At the end it wraps and sets the flag. */
  lemma {:induction false} PutAllWraps(c: Cells, frame: seq<Byte>)
    requires c.w < |c.buf| <= c.w + |frame| && |frame| < |c.buf|
    ensures var d := PutAll(c, frame); d.flag && d.w == c.w + |frame| - |c.buf| && d.r == c.r
    decreases |frame|
  {
    var d := Put(c, frame[0]);
    if d.w == 0 {
      PutAllShort(d, frame[1..]);
    } else {
      PutAllWraps(d, frame[1..]);
    }
  }

  lemma OfferIs(c: Cells, frame: seq<Byte>)
    requires Good(c)
    ensures var o := Offer(c, frame);
      && o.1 == (|Queue(c)| + |frame| < |c.buf|)
      && Good(o.0) && o.0.r == c.r && Queue(o.0) == Queue(c) + (if o.1 then frame else [])
  {
    assert CanWrite(c) == |c.buf| - |Queue(c)|;
    if |Queue(c)| + |frame| < |c.buf| {
      PutAllQueues(c, frame);
    }
  }

  lemma TakeOneIs(c: Cells)
    requires Good(c) && Queue(c) != []
    ensures Good(TakeOne(c)) && |TakeOne(c).buf| == |c.buf| && c.buf[c.r] == Queue(c)[0] && Queue(TakeOne(c)) == Queue(c)[1..]
  {
  }

  // ----- which interrupts keep the contents -----

  /** The reader got the oldest byte, and what it left is queued with the frame, if kept. */
  predicate Right(c: Cells, frame: seq<Byte>, o: Outcome)
    requires Good(c) && Queue(c) != []
  {
    && o.byte == Queue(c)[0]
    && Good(o.c) && Queue(o.c) == Queue(c)[1..] + (if o.kept then frame else [])
  }

  lemma WriteFirstRight(c: Cells, frame: seq<Byte>)
    requires Good(c) && Queue(c) != []
    ensures Right(c, frame, WriteFirst(c, frame)) && Interrupted(c, frame, BeforeStep) == WriteFirst(c, frame)
    ensures WriteFirst(c, frame).kept == (|Queue(c)| + |frame| < |c.buf|)
  {
    hide Queue, TakeOne, Offer;
    OfferIs(c, frame);
    var d := Offer(c, frame).0;
    TakeOneIs(c);
    TakeOneIs(d);
  }

  lemma ReadFirstRight(c: Cells, frame: seq<Byte>)
    requires Good(c) && Queue(c) != []
    ensures Right(c, frame, ReadFirst(c, frame))
    ensures ReadFirst(c, frame).kept == (|Queue(c)| - 1 + |frame| < |c.buf|)
  {
    hide Queue, TakeOne, Offer;
    TakeOneIs(c);
    OfferIs(TakeOne(c), frame);
  }

  /** Before the index is reset the callback still sees how much is free. */
  lemma BeforeResetIsReadFirst(c: Cells, frame: seq<Byte>)
    requires Good(c) && Queue(c) != [] && Wraps(c)
    ensures Interrupted(c, frame, BeforeReset) == ReadFirst(c, frame)
  {
    hide Offer, Queue;
    OfferAtWrap(c, frame);
  }

  lemma OfferAtWrap(c: Cells, frame: seq<Byte>)
    requires Good(c) && Queue(c) != [] && Wraps(c)
    ensures var a, b := Offer(c.(r := c.r + 1), frame), Offer(TakeOne(c), frame);
      a.1 == b.1 && a.0.(r := 0, flag := false) == b.0
  {
    FreeAtWrap(c);
    hide CanWrite, PutAll, Queue, Put;
    if |frame| < |c.buf| - c.w {
      PutAllShort(c.(r := c.r + 1), frame);
      PutAllShort(TakeOne(c), frame);
    }
  }

  lemma FreeAtWrap(c: Cells)
    requires Good(c) && Queue(c) != [] && Wraps(c)
    ensures c.flag && CanWrite(c.(r := c.r + 1)) == |c.buf| - c.w == CanWrite(TakeOne(c))
  {
  }

  /** Between index and flag it sees an index that wrapped and a flag that did not: an
      empty-looking difference if the write index is 0, an enormous one otherwise. */
  lemma BeforeFlagIs(c: Cells, frame: seq<Byte>)
    requires Good(c) && Queue(c) != [] && Wraps(c) && |frame| + 1 < |c.buf|
    ensures var o := Interrupted(c, frame, BeforeFlag);
      && o.kept == (c.w > 0)
      && (c.w == 0 ==> o.c == TakeOne(c))
      && (c.w > 0 && c.w + |frame| < |c.buf| ==> o == ReadFirst(c, frame))
      && (c.w > 0 && c.w + |frame| >= |c.buf| ==> !o.c.flag && o.c.r == 0 && o.c.w == c.w + |frame| - |c.buf|)
  {
    assert c.flag;
    var d := c.(r := 0);
    assert CanWrite(d) == if c.w == 0 then 0 else WORD - c.w;
    assert CanWrite(TakeOne(c)) == |c.buf| - c.w;
    if c.w > 0 {
      if c.w + |frame| < |c.buf| {
        PutAllShort(d, frame);
        PutAllShort(TakeOne(c), frame);
      } else {
        PutAllWraps(d, frame);
      }
    }
  }

  /** The gap between index and flag is open, and what the callback would do there: the
      write index has not come back to the start, and the frame ends before the end. */
  predicate Harmless(c: Cells, frame: seq<Byte>, p: Point) {
    p.BeforeFlag? ==> 0 < c.w && c.w + |frame| < |c.buf|
  }

  /**
   A callback anywhere in a round of the reader leaves the contents right exactly when
   it does not fall between index and flag with a frame that reaches the end of the
   array; with the write index at 0 it refuses the frame and harms nothing.
   */
  lemma KeepsContentsExactly(c: Cells, frame: seq<Byte>, p: Point)
    requires Good(c) && Queue(c) != [] && |frame| + 1 < |c.buf| && (p.BeforeReset? || p.BeforeFlag? ==> Wraps(c))
    ensures Right(c, frame, Interrupted(c, frame, p)) <==> (p.BeforeFlag? ==> c.w == 0 || c.w + |frame| < |c.buf|)
  {
    hide Offer, TakeOne;
    match p
    case BeforeCopy => WriteFirstRight(c, frame);
    case BeforeStep => WriteFirstRight(c, frame);
    case BeforeReset =>
      BeforeResetIsReadFirst(c, frame);
      ReadFirstRight(c, frame);
    case BeforeFlag =>
      BeforeFlagIs(c, frame);
      ReadFirstRight(c, frame);
      TakeOneIs(c);
      EmptyEnds(Queue(c)[1..]);
  }

  /**
   And it is as if the callback had come before or after the round, with the frame
   accepted or refused accordingly, exactly when the interrupt is harmless.
   */
  lemma AtomicExactly(c: Cells, frame: seq<Byte>, p: Point)
    requires Good(c) && Queue(c) != [] && |frame| + 1 < |c.buf| && (p.BeforeReset? || p.BeforeFlag? ==> Wraps(c))
    ensures var o := Interrupted(c, frame, p);
      (o == WriteFirst(c, frame) || o == ReadFirst(c, frame)) <==> Harmless(c, frame, p)
  {
    hide Offer, TakeOne;
    WriteFirstRight(c, frame);
    ReadFirstRight(c, frame);
    match p
    case BeforeCopy =>
    case BeforeStep =>
    case BeforeReset => BeforeResetIsReadFirst(c, frame);
    case BeforeFlag =>
      BeforeFlagIs(c, frame);
      WrappedQueue(c);
  }

  lemma WrappedQueue(c: Cells)
    requires Good(c) && Queue(c) != [] && Wraps(c)
    ensures |Queue(c)| == c.w + 1
  {
  }

  /** A frame that ends just at the end of the array is accepted, and then everything
      that is queued, the frame with it, is gone. */
  lemma GapLosesAll(c: Cells, frame: seq<Byte>)
    requires Good(c) && Queue(c) != [] && Wraps(c) && |frame| + 1 < |c.buf|
    requires 0 < c.w && c.w + |frame| == |c.buf|
    ensures var o := Interrupted(c, frame, BeforeFlag); o.kept && Good(o.c) && Queue(o.c) == []
  {
    hide Offer;
    BeforeFlagIs(c, frame);
  }

  // ----- the whole copy loop -----

  lemma RoundIs(c: Cells, n: nat)
    requires Good(c) && 0 < n <= |Queue(c)|
    ensures var d, q := TakeOne(c), Queue(c);
      && Good(d) && |d.buf| == |c.buf| && c.r < |c.buf| && n - 1 <= |Queue(d)|
      && [c.buf[c.r]] + Queue(d)[..n - 1] == q[..n] && Queue(d)[n - 1..] == q[n..]
  {
    hide TakeOne, Queue;
    TakeOneIs(c);
    var q := Queue(c);
    assert [q[0]] + q[1..][..n - 1] == q[..n] && q[1..][n - 1..] == q[n..];
  }

  /** `n` rounds with nothing between them. */
  function Rounds(c: Cells, n: nat): (r: (Cells, seq<Byte>))
    requires Good(c) && n <= |Queue(c)|
    ensures Good(r.0) && r.1 == Queue(c)[..n] && Queue(r.0) == Queue(c)[n..]
    ensures |r.0.buf| == |c.buf|
    decreases n
  {
    if n == 0 then (c, [])
    else
      RoundIs(c, n);
      var (d, bytes) := Rounds(TakeOne(c), n - 1);
      (d, [c.buf[c.r]] + bytes)
  }

  /** `ReadFIFO` of `n` bytes with the callback in round `i`. */
  function ReadInterrupted(c: Cells, n: nat, i: nat, frame: seq<Byte>, p: Point): (Cells, bool, seq<Byte>)
    requires Good(c) && i < n <= |Queue(c)| && |frame| + 1 < |c.buf|
    requires var d := Rounds(c, i).0; Queue(d) != [] && (p.BeforeReset? || p.BeforeFlag? ==> Wraps(d)) && Harmless(d, frame, p)
  {
    var (d, front) := Rounds(c, i);
    var o := Interrupted(d, frame, p);
    KeepsContentsExactly(d, frame, p);
    var (e, back) := Rounds(o.c, n - i - 1);
    (e, o.kept, front + [o.byte] + back)
  }

  /** With a harmless interrupt anywhere in it, a read delivers the oldest bytes in order
      and leaves the others, with the frame behind them if it was kept. */
  lemma ReadIsExact(c: Cells, n: nat, i: nat, frame: seq<Byte>, p: Point)
    requires Good(c) && i < n <= |Queue(c)| && |frame| + 1 < |c.buf|
    requires var d := Rounds(c, i).0; Queue(d) != [] && (p.BeforeReset? || p.BeforeFlag? ==> Wraps(d)) && Harmless(d, frame, p)
    ensures var (e, kept, bytes) := ReadInterrupted(c, n, i, frame, p);
      Good(e) && bytes == Queue(c)[..n] && Queue(e) == Queue(c)[n..] + (if kept then frame else [])
  {
    hide Queue, Interrupted;
    var (d, front) := Rounds(c, i);
    KeepsContentsExactly(d, frame, p);
    JoinsUp(Queue(c), n, i, if Interrupted(d, frame, p).kept then frame else []);
  }

  lemma JoinsUp(q: seq<Byte>, n: nat, i: nat, tail: seq<Byte>)
    requires i < n <= |q|
    ensures q[i..][0] == q[i] && q[i..][1..] == q[i + 1..] && n - i - 1 <= |q[i + 1..] + tail|
    ensures q[..i] + [q[i]] + (q[i + 1..] + tail)[..n - i - 1] == q[..n]
    ensures (q[i + 1..] + tail)[n - i - 1..] == q[n..] + tail
  {
    assert (q[i + 1..] + tail)[..n - i - 1] == q[i + 1..n];
  }

  /** Such a state is reached: a ring of four places, three bytes in, three out, three in. */
  lemma GapReached()
    ensures var c0 := Cells([0, 0, 0, 0], 0, 0, false);
      && Good(c0) && Offer(c0, [1, 2, 3]).1
      && var c1 := Offer(c0, [1, 2, 3]).0;
      && Good(c1) && |Queue(c1)| == 3
      && var c2 := Rounds(c1, 3).0;
      && Offer(c2, [4, 5, 6]).1
      && var c := Offer(c2, [4, 5, 6]).0;
      && Good(c) && Queue(c) != [] && Wraps(c)
      && Interrupted(c, [7, 8], BeforeFlag).kept && Good(Interrupted(c, [7, 8], BeforeFlag).c)
      && Queue(Interrupted(c, [7, 8], BeforeFlag).c) == []
  {
    hide Offer, Interrupted, Rounds;
    ThreeIn();
    var c1 := Cells([1, 2, 3, 0], 0, 3, false);
    RoundsMove(c1, 3);
    ThreeMore();
    GapLosesAll(Cells([5, 6, 3, 4], 3, 2, true), [7, 8]);
  }

  lemma ThreeIn()
    ensures Offer(Cells([0, 0, 0, 0], 0, 0, false), [1, 2, 3]) == (Cells([1, 2, 3, 0], 0, 3, false), true)
  {
    hide PutAll;
    var z: seq<Byte> := [0, 0, 0, 0];
    PutAllShort(Cells(z, 0, 0, false), [1, 2, 3]);
    assert z[..0] + [1, 2, 3] + z[3..] == [1, 2, 3, 0];
  }

  lemma ThreeMore()
    ensures Offer(Cells([1, 2, 3, 0], 3, 3, false), [4, 5, 6]) == (Cells([5, 6, 3, 4], 3, 2, true), true)
  {
    hide PutAll;
    var c, d := Cells([1, 2, 3, 0], 3, 3, false), Cells([1, 2, 3, 4], 3, 0, true);
    assert Put(c, 4) == d;
    PutAllShort(d, [5, 6]);
    PutAllFirst(c, [4, 5, 6]);
    assert [4, 5, 6][1..] == [5, 6] && d.buf[..0] + [5, 6] + d.buf[2..] == [5, 6, 3, 4];
  }

  lemma PutAllFirst(c: Cells, frame: seq<Byte>)
    requires c.w < |c.buf| && frame != []
    ensures PutAll(c, frame) == PutAll(Put(c, frame[0]), frame[1..])
  {
  }

  lemma {:induction false} RoundsMove(c: Cells, n: nat)
    requires Good(c) && n <= |Queue(c)| && c.r + n < |c.buf|
    ensures Rounds(c, n).0 == c.(r := c.r + n)
    decreases n
  {
    if n > 0 {
      RoundIs(c, n);
      RoundsMove(TakeOne(c), n - 1);
    }
  }
}
