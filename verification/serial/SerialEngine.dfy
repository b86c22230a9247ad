/**
 The functions of veth_serial.c on their own state: the UART handle, the two
 ping-pong buffers, the single-shot buffer and the FIFO. Each is proved to be the
 matching step of the state machine.
 */
module SerialEngine {
  import opened Fifo
  import opened SerialModel
  import opened Sequences
  import opened Wrappers

  class Handle {
    const pfifo: Ring
    const pbuffer1: array<Byte>
    const pbuffer2: array<Byte>
    const pbuffer: array<Byte>
    var mem0_length: nat
    var mem1_length: nat
    var mem_length: nat
    var single_finish_targ: bool
    var double_finish_targ: bool
    var state: Uart
    var stream: Stream
    var count_targ: nat
    var test_total_get_length: nat
    var test_before: nat
    var test_after: nat
    var test_fifo_full: nat
    var test_lose_block: nat
    ghost var accepted: seq<Byte>
    ghost var taken: seq<Byte>
    ghost var wire: seq<Byte>

    ghost predicate Valid()
      reads this, pfifo
    {
      && pfifo.Valid() && pfifo.length == FIFO_LENGTH
      && pbuffer1.Length == pbuffer2.Length == pbuffer.Length == COM_DATA_SIZE
      && pbuffer1 != pbuffer2 && pbuffer1 != pbuffer && pbuffer2 != pbuffer
      && pfifo.buffer != pbuffer1 && pfifo.buffer != pbuffer2 && pfifo.buffer != pbuffer
      && mem0_length <= COM_DATA_SIZE && mem1_length <= COM_DATA_SIZE && mem_length <= COM_DATA_SIZE
    }

    /** The state machine's view of the handle. */
    ghost function Abs(): Engine
      reads this, pfifo, pfifo.buffer, pbuffer1, pbuffer2, pbuffer
      requires Valid()
    {
      Engine(pfifo.Contents(), pbuffer1[..mem0_length], pbuffer2[..mem1_length], pbuffer[..mem_length],
             state, stream, single_finish_targ, double_finish_targ, count_targ,
             test_total_get_length, test_before, test_after, test_fifo_full, test_lose_block,
             accepted, taken, wire)
    }

    /** The transmit part of `com1DmaInit`. */
    constructor (fifo: Ring, b1: array<Byte>, b2: array<Byte>, b: array<Byte>)
      requires fifo.Valid() && fifo.length == FIFO_LENGTH && fifo.Contents() == []
      requires b1.Length == b2.Length == b.Length == COM_DATA_SIZE
      requires b1 != b2 && b1 != b && b2 != b && fifo.buffer != b1 && fifo.buffer != b2 && fifo.buffer != b
      ensures Valid() && Abs() == Init()
    {
      pfifo := fifo;
      pbuffer1, pbuffer2, pbuffer := b1, b2, b;
      mem0_length, mem1_length, mem_length := 0, 0, 0;
      single_finish_targ, double_finish_targ := true, false;
      state := Ready;
      stream := Stream(false, false, false, 0, 0);
      count_targ := 0;
      test_total_get_length, test_before, test_after, test_fifo_full, test_lose_block := 0, 0, 0, 0, 0;
      accepted, taken, wire := [], [], [];
    }

    /** `fillinComBuffer1` into one of the three buffers. */
    method FillinComBuffer1(target: array<Byte>) returns (n: nat)
      requires Valid() && target in {pbuffer1, pbuffer2}
      modifies this`taken, pfifo, pfifo.buffer, target
      ensures Valid()
      ensures n == |NextBlock(old(Abs()))| && target[..n] == NextBlock(old(Abs()))
      ensures pfifo.Contents() == old(pfifo.Contents())[n..] && taken == old(taken) + NextBlock(old(Abs()))
    {
      ghost var queue := pfifo.Contents();
      var ok := pfifo.Read(target, DOUBLE_BUFFER_LENGTH);
      if !ok {
        return 0;
      }
      taken := taken + queue[..DOUBLE_BUFFER_LENGTH];
      n := DOUBLE_BUFFER_LENGTH;
    }

    method Fill0()
      requires Valid()
      modifies this`taken, this`mem0_length, this`test_after, pfifo, pfifo.buffer, pbuffer1
      ensures Valid() && Abs() == SerialModel.Fill0(old(Abs()))
    {
      mem0_length := FillinComBuffer1(pbuffer1);
      test_after := test_after + mem0_length;
    }

    method Fill1()
      requires Valid()
      modifies this`taken, this`mem1_length, this`test_after, pfifo, pfifo.buffer, pbuffer2
      ensures Valid() && Abs() == SerialModel.Fill1(old(Abs()))
    {
      mem1_length := FillinComBuffer1(pbuffer2);
      if 0 != mem1_length {
        test_after := test_after + mem1_length;
      }
    }

    /** The start of a double-buffer transfer, at memory 0. */
    method StartDouble()
      requires Valid()
      modifies this`state, this`double_finish_targ, this`stream
      ensures Valid() && Abs() == SerialModel.StartDouble(old(Abs()))
    {
      if state == BusyRx {
        state := BusyTxRx;
      } else {
        state := BusyTx;
      }
      double_finish_targ := false;
      stream := Stream(true, true, false, mem0_length, 0);
    }

    /** The copy of memory 1 down to memory 0. */
    method CopyDown()
      requires Valid()
      modifies this`mem0_length, this`mem1_length, pbuffer1
      ensures Valid() && Abs() == old(Abs()).(block0 := old(Abs()).block1, block1 := [])
    {
      mem0_length := mem1_length;
      for i := 0 to mem0_length
        invariant Valid() && mem0_length == mem1_length == old(mem1_length)
        invariant pbuffer1[..i] == pbuffer2[..i]
      {
        pbuffer1[i] := pbuffer2[i];
      }
      mem1_length := 0;
    }

    method CountLost()
      requires Valid()
      modifies this`test_lose_block
      ensures Valid() && Abs() == SerialModel.CountLost(old(Abs()))
    {
      if 0 != mem0_length || 0 != mem1_length {
        test_lose_block := test_lose_block + 1;
      }
    }

    /** `halUartTransmitDma` */
    method HalUartTransmitDma()
      requires Valid()
      modifies this, pfifo, pfifo.buffer, pbuffer1, pbuffer2
      ensures Valid() && Abs() == TransmitDouble(old(Abs()))
    {
      hide SerialModel.Fill0, SerialModel.Fill1, SerialModel.StartDouble;
      if !stream.ct {
        if state == Ready || state == BusyRx {
          CountLost();
          if 0 == mem0_length {
            Fill0();
          }
          if 0 == mem0_length {
            return;
          }
          StartDouble();
        } else if 0 == mem1_length {
          Fill1();
        }
      } else {
        if state == Ready || state == BusyRx {
          CountLost();
          if 0 != mem1_length {
            CopyDown();
          } else if 0 != mem0_length {
          } else {
            Fill0();
            if 0 == mem0_length {
              return;
            }
          }
          StartDouble();
        } else if 0 == mem0_length {
          Fill0();
        }
      }
    }

    /** `fillinComBuffer2`: everything that is queued. */
    method FillinComBuffer2() returns (n: nat)
      requires Valid() && |pfifo.Contents()| <= COM_DATA_SIZE
      modifies this`taken, pfifo, pfifo.buffer, pbuffer
      ensures Valid()
      ensures n == |old(pfifo.Contents())| && pbuffer[..n] == old(pfifo.Contents())
      ensures pfifo.Contents() == [] && taken == old(taken) + old(pfifo.Contents())
    {
      hide Ring.Contents;
      ghost var queue := pfifo.Contents();
      assert queue[..|queue|] == queue && queue[|queue|..] == [];
      var length := pfifo.CheckCanReadNum();
      var ok := pfifo.Read(pbuffer, length);
      taken := taken + queue;
      n := if ok then length else 0;
    }

    /** `halUartTransmitDmaLittle`; the queued bytes must fit the single-shot buffer. */
    method HalUartTransmitDmaLittle()
      requires Valid() && |pfifo.Contents()| <= COM_DATA_SIZE
      modifies this, pfifo, pfifo.buffer, pbuffer
      ensures Valid() && Abs() == TransmitLittle(old(Abs()))
    {
      hide Ring.Contents;
      if state == Ready || state == BusyRx {
        FillSingle();
        if 0 == mem_length {
          return;
        }
        StartSingle();
      }
    }

    method FillSingle()
      requires Valid() && |pfifo.Contents()| <= COM_DATA_SIZE
      modifies this`taken, this`mem_length, this`test_after, pfifo, pfifo.buffer, pbuffer
      ensures Valid() && Abs() == Take(old(Abs()), old(Abs()).queue).(single := old(Abs()).queue)
    {
      hide Ring.Contents;
      ghost var queue := pfifo.Contents();
      assert queue[|queue|..] == [];
      mem_length := FillinComBuffer2();
      test_after := test_after + mem_length;
    }

    /** The start of a single-buffer transfer. */
    method StartSingle()
      requires Valid()
      modifies this`state, this`single_finish_targ, this`stream
      ensures Valid()
      ensures Abs() == old(Abs()).(uart := StartTx(old(Abs()).uart), singleDone := false,
                                   stream := Stream(true, false, false, mem_length, 0))
    {
      if state == BusyRx {
        state := BusyTxRx;
      } else {
        state := BusyTx;
      }
      single_finish_targ := false;
      stream := Stream(true, false, false, mem_length, 0);
    }

    /** The network part of `uartTransfer`. */
    method FetchNode(node: Option<seq<Byte>>)
      requires Valid()
      modifies this, pfifo, pfifo.buffer
      ensures Valid() && Abs() == Fetch(old(Abs()), node)
      ensures (node.Some? ==> |node.value| <= 2920) ==>
        var taken := if node.Some? && |old(pfifo.Contents())| + 2920 <= 30720 then node.value else [];
        pfifo.Contents() == old(pfifo.Contents()) + taken && accepted == old(accepted) + taken
        && test_total_get_length == old(test_total_get_length) + |taken|
    {
      hide Ring.Contents, Ring.Valid;
      var free := pfifo.CheckCanWriteNum();
      if free >= NODE_MAX_NUM && node.Some? {
        test_total_get_length := test_total_get_length + |node.value|;
        var ok := pfifo.Write(node.value);
        if ok {
          test_before := test_before + |node.value|;
          accepted := accepted + node.value;
        } else {
          test_fifo_full := test_fifo_full + 1;
        }
      }
    }

    /** `uartTransfer` */
    method UartTransfer(node: Option<seq<Byte>>, msCount: nat)
      requires Valid()
      modifies this, pfifo, pfifo.buffer, pbuffer1, pbuffer2, pbuffer
      ensures Valid() && Abs() == Poll(old(Abs()), node, msCount)
      ensures (node.Some? ==> |node.value| <= 2920) ==>
        accepted == old(accepted) + if node.Some? && |old(pfifo.Contents())| + 2920 <= 30720 then node.value else []
    {
      hide Fetch, Dispatch, Ring.Contents, Ring.Valid, NodeTaken;
      ghost var e := Abs();
      FetchNode(node);
      DispatchQueue(msCount);
      if node.Some? ==> |node.value| <= 2920 {
        PollAccepts(e, node, msCount);
        NodeTakenIs(e, node);
      }
    }

    /** The transmit part of `uartTransfer`. */
    method DispatchQueue(msCount: nat)
      requires Valid()
      modifies this, pfifo, pfifo.buffer, pbuffer1, pbuffer2, pbuffer
      ensures Valid() && Abs() == Dispatch(old(Abs()), msCount)
    {
      hide TransmitDouble, TransmitLittle, Ring.Contents;
      var fifo_len := pfifo.CheckCanReadNum();
      if fifo_len >= DOUBLE_BUFFER_LENGTH {
        count_targ := 0;
        if single_finish_targ {
          HalUartTransmitDma();
        }
      } else if fifo_len > 0 {
        if count_targ == 0 {
          count_targ := msCount;
        } else if (msCount - count_targ) % 0x1_0000_0000 > LITTLE_DATA_TIMEOUT && double_finish_targ {
          count_targ := 0;
          HalUartTransmitDmaLittle();
        }
      }
    }

    // ----- the DMA stream -----

    /** The stream moves one byte to the UART. */
    method MoveByte()
      requires Valid() && stream.enabled && stream.sent < |Active(Abs())|
      modifies this`wire, this`stream
      ensures Valid() && Abs() == SerialModel.MoveByte(old(Abs()))
    {
      var b := if !stream.double then pbuffer[stream.sent]
               else if stream.ct then pbuffer2[stream.sent] else pbuffer1[stream.sent];
      wire := wire + [b];
      stream := stream.(sent := stream.sent + 1);
    }

    method StopStream()
      requires Valid()
      modifies this`stream, this`state
      ensures Valid() && Abs() == Stop(old(Abs()))
    {
      stream := stream.(enabled := false);
      if state == BusyTxRx {
        state := BusyRx;
      } else {
        state := Ready;
      }
    }

    /** `uartDmaXferM1CpltCallback` */
    method UartDmaXferM1CpltCallback()
      requires Valid()
      modifies this
      ensures Valid() && Abs() == Callback1(old(Abs()))
    {
      mem1_length := 0;
      if 0 == mem0_length {
        StopStream();
        double_finish_targ := true;
      }
    }

    /** `uartDmaXferCpltCallback` */
    method UartDmaXferCpltCallback()
      requires Valid()
      modifies this
      ensures Valid() && Abs() == Callback0(old(Abs()))
    {
      mem0_length := 0;
      if 0 == mem1_length {
        StopStream();
        double_finish_targ := true;
      }
    }

    /** `DmaXferCpltCallback` */
    method DmaXferCpltCallback()
      requires Valid()
      modifies this
      ensures Valid() && Abs() == CallbackSingle(old(Abs()))
    {
      StopStream();
      single_finish_targ := true;
    }

    /** The end of a buffer: CT flips in double-buffer mode, then the interrupt handler picks the callback. */
    method CompleteBuffer()
      requires Valid()
      modifies this
      ensures Valid() && Abs() == Complete(old(Abs()))
    {
      if stream.double {
        stream := stream.(ct := !stream.ct, sent := 0);
        if !stream.ct {
          UartDmaXferM1CpltCallback();
        } else {
          UartDmaXferCpltCallback();
        }
      } else {
        DmaXferCpltCallback();
      }
    }
  }
}
