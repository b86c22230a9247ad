/**
 The receive direction on real state: two DMA buffers, a ring and the registers. Each
 method is a step of the state machine.
 */
module Receiver {
  import opened Fifo
  import opened ReceiverModel

  class Handle {
    const rxFIFO: Ring
    const pinbuffer1: array<Byte>
    const pinbuffer2: array<Byte>
    var buffer1_length: nat
    var buffer2_length: nat
    var last_frame: bool
    var ct: bool             // DMA_SxCR_CT of the receive stream
    var ndtr: nat            // what the stream still had to receive
    var test_rcv_before: nat
    var test_rcv_len: nat
    var test_fifo_full: nat
    ghost var received: seq<Byte>   // history: bytes the stream stored
    ghost var frames: seq<Frame>    // history: frames the callback offered
    ghost var delivered: seq<Byte>  // history: bytes handed to the client queue

    ghost predicate Valid()
      reads this`ndtr, rxFIFO
    {
      && rxFIFO.Valid() && rxFIFO.length == RCV_FIFO_LENGTH
      && pinbuffer1.Length >= INIT_RCV_LENGTH && pinbuffer2.Length >= INIT_RCV_LENGTH
      && pinbuffer1 != pinbuffer2 && rxFIFO.buffer != pinbuffer1 && rxFIFO.buffer != pinbuffer2
      && ndtr <= INIT_RCV_LENGTH
    }

    ghost function Abs(): (r: Rx)
      reads this, rxFIFO, rxFIFO.buffer, pinbuffer1, pinbuffer2
      requires Valid()
      ensures r.ndtr <= INIT_RCV_LENGTH == |r.mem0| == |r.mem1|
    {
      Rx(pinbuffer1[..INIT_RCV_LENGTH], pinbuffer2[..INIT_RCV_LENGTH], ct, ndtr, last_frame,
         buffer1_length, buffer2_length, rxFIFO.Contents(),
         test_rcv_before, test_rcv_len, test_fifo_full, received, frames, delivered)
    }

    constructor (fifo: Ring, b1: array<Byte>, b2: array<Byte>)
      requires fifo.Valid() && fifo.Contents() == [] && fifo.length == RCV_FIFO_LENGTH
      requires b1.Length >= INIT_RCV_LENGTH && b2.Length >= INIT_RCV_LENGTH
      requires b1 != b2 && fifo.buffer != b1 && fifo.buffer != b2
      ensures Valid() && Fresh(Abs())
    {
      rxFIFO := fifo;
      pinbuffer1, pinbuffer2 := b1, b2;
      buffer1_length, buffer2_length := 0, 0;
      last_frame, ct := false, false;
      ndtr := INIT_RCV_LENGTH;
      test_rcv_before, test_rcv_len, test_fifo_full := 0, 0, 0;
      received, frames, delivered := [], [], [];
    }

    // ----- the stream -----

    method StoreByte(b: Byte)
      requires Valid() && 0 < ndtr
      modifies this`ndtr, this`received, pinbuffer1, pinbuffer2
      ensures Valid() && Abs() == ReceiverModel.StoreByte(old(Abs()), b)
    {
      var at := INIT_RCV_LENGTH - ndtr;
      if ct {
        pinbuffer2[at] := b;
        assert pinbuffer2[..INIT_RCV_LENGTH] == old(pinbuffer2[..INIT_RCV_LENGTH])[at := b];
      } else {
        pinbuffer1[at] := b;
        assert pinbuffer1[..INIT_RCV_LENGTH] == old(pinbuffer1[..INIT_RCV_LENGTH])[at := b];
      }
      ndtr := ndtr - 1;
      received := received + [b];
    }

    /** The current buffer is full: the stream turns to the other one and calls back. */
    method BlockFull()
      requires Valid()
      modifies this, rxFIFO, rxFIFO.buffer
      ensures Valid() && Abs() == ReceiverModel.BlockFull(old(Abs()))
    {
      ct := !ct;
      ndtr := INIT_RCV_LENGTH;
      UartDmaRcvCpltCallback();
    }

    /** The branch of `halUartRecieveDma` after an idle line; stopping the stream calls back. */
    method IdleStop()
      requires Valid() && 0 < ndtr
      modifies this, rxFIFO, rxFIFO.buffer
      ensures Valid() && Abs() == ReceiverModel.IdleStop(old(Abs()))
    {
      last_frame := true;
      UartDmaRcvCpltCallback();
    }

    // ----- the callback -----

    /** The frame goes to the FIFO if more than its length is free there, else it is dropped and counted. */
    method Offer(frame: seq<Byte>) returns (ok: bool)
      requires Valid()
      modifies this`test_rcv_before, this`test_fifo_full, this`frames, rxFIFO, rxFIFO.buffer
      ensures Valid() && ok == Fits(old(Abs()), frame) && Abs() == ReceiverModel.Offer(old(Abs()), frame)
    {
      hide Ring.Contents, Ring.Valid;
      var free := rxFIFO.CheckCanWriteNum();
      ok := free > |frame|;
      if ok {
        var _ := rxFIFO.Write(frame);
        test_rcv_before := test_rcv_before + |frame|;
      } else {
        test_fifo_full := test_fifo_full + 1;
      }
      frames := frames + [Frame(frame, ok)];
    }

    /** `uartDmaRcvCpltCallback` */
    method UartDmaRcvCpltCallback()
      requires Valid()
      modifies this, rxFIFO, rxFIFO.buffer
      ensures Valid() && Abs() == Callback(old(Abs()))
    {
      if !last_frame {
        FullFrame();
      } else {
        last_frame := false;
        LastFrame();
        ndtr := INIT_RCV_LENGTH;
      }
    }

    /** Its branch for a full buffer, the one CT does not point at. */
    method FullFrame()
      requires Valid() && !last_frame
      modifies this`buffer1_length, this`buffer2_length, this`test_rcv_before, this`test_fifo_full, this`frames, rxFIFO, rxFIFO.buffer
      ensures Valid() && Abs() == Callback(old(Abs()))
    {
      hide Ring.Contents, Ring.Valid;
      if !ct {
        buffer2_length := INIT_RCV_LENGTH;
        var ok := Offer(pinbuffer2[..buffer2_length]);
        if ok {
          buffer2_length := 0;
        }
      } else {
        buffer1_length := INIT_RCV_LENGTH;
        var ok := Offer(pinbuffer1[..buffer1_length]);
        if ok {
          buffer1_length := 0;
        }
      }
    }

    /** Its branch for what an idle line left in the current buffer. */
    method LastFrame()
      requires Valid() && !last_frame
      modifies this`buffer1_length, this`buffer2_length, this`test_rcv_before, this`test_fifo_full, this`frames, rxFIFO, rxFIFO.buffer
      ensures Valid() && Abs().(ndtr := INIT_RCV_LENGTH) == Callback(old(Abs()).(lastFrame := true))
    {
      hide Ring.Contents, Ring.Valid;
      if !ct {
        buffer1_length := INIT_RCV_LENGTH - ndtr;
        assert pinbuffer1[..INIT_RCV_LENGTH][..buffer1_length] == pinbuffer1[..buffer1_length];
        var ok := Offer(pinbuffer1[..buffer1_length]);
        if ok {
          buffer1_length := 0;
        }
      } else {
        buffer2_length := INIT_RCV_LENGTH - ndtr;
        assert pinbuffer2[..INIT_RCV_LENGTH][..buffer2_length] == pinbuffer2[..buffer2_length];
        var ok := Offer(pinbuffer2[..buffer2_length]);
        if ok {
          buffer2_length := 0;
        }
      }
    }

    // ----- the client -----

    /** `getUartRecievedData`: up to 2000 queued bytes go to the client, oldest first. */
    method GetUartRecievedData(tem_buffer: array<Byte>) returns (length: nat)
      requires Valid()
      requires tem_buffer.Length == POLL_LENGTH && tem_buffer !in {rxFIFO.buffer, pinbuffer1, pinbuffer2}
      modifies this`test_rcv_len, this`delivered, rxFIFO, tem_buffer
      ensures Valid() && Abs() == ClientPoll(old(Abs()))
      ensures length == if |old(rxFIFO.Contents())| < 2000 then |old(rxFIFO.Contents())| else 2000
      ensures tem_buffer[..length] == old(rxFIFO.Contents())[..length] && rxFIFO.Contents() == old(rxFIFO.Contents())[length..]
      ensures delivered == old(delivered) + tem_buffer[..length]
    {
      hide Ring.Contents, Ring.Valid;
      length := rxFIFO.CheckCanReadNum();
      if length > POLL_LENGTH {
        length := POLL_LENGTH;
      }
      var ok := rxFIFO.Read(tem_buffer, length);
      var read: int := length;
      if !ok {
        read := 0;
      }
      length := read;
      test_rcv_len := test_rcv_len + length;
      delivered := delivered + tem_buffer[..length];
    }
  }
}
