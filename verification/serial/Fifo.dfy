/**
 The ring buffer of FIFO.c: a fixed array, a read and a write index, and one
 flag that tells a full ring from an empty one.
 */
module Fifo {
  import opened Sequences

  type Byte = bv8

  class Ring {
    const buffer: array<Byte>
    const length: nat
    var flagWrite: bool        // the writer has wrapped around once more than the reader
    var canWriteNum: nat
    var canReadNum: nat
    var currentWriteNum: nat
    var currentReadNum: nat

    ghost predicate Valid()
      reads this`flagWrite, this`currentReadNum, this`currentWriteNum
    {
      && 0 < length == buffer.Length
      && currentReadNum < length && currentWriteNum < length
      && (if flagWrite then currentWriteNum <= currentReadNum else currentReadNum <= currentWriteNum)
    }

    /** The queued bytes, oldest first. */
    ghost function Contents(): (s: seq<Byte>)
      reads this`flagWrite, this`currentReadNum, this`currentWriteNum, buffer
      requires Valid()
      ensures |s| <= length
    {
      if flagWrite then buffer[currentReadNum..] + buffer[..currentWriteNum]
      else buffer[currentReadNum..currentWriteNum]
    }

    /** `InitFIFO` */
    constructor (pbuffer: array<Byte>)
      requires 0 < pbuffer.Length
      ensures Valid() && buffer == pbuffer && length == pbuffer.Length && Contents() == []
    {
      buffer := pbuffer;
      length := pbuffer.Length;
      flagWrite := false;
      canWriteNum, canReadNum := 0, 0;
      currentWriteNum, currentReadNum := 0, 0;
    }

    /** `CheckCanWriteNum` */
    method CheckCanWriteNum() returns (n: nat)
      requires Valid()
      modifies this`canWriteNum
      ensures Valid() && n == length - |Contents()| && Contents() == old(Contents())
    {
      if !flagWrite {
        canWriteNum := length - currentWriteNum + currentReadNum;
      } else {
        canWriteNum := currentReadNum - currentWriteNum;
      }
      n := canWriteNum;
    }

    /** `CheckCanReadNum` */
    method CheckCanReadNum() returns (n: nat)
      requires Valid()
      modifies this`canReadNum
      ensures Valid() && n == |Contents()| && Contents() == old(Contents())
    {
      if !flagWrite {
        canReadNum := currentWriteNum - currentReadNum;
      } else {
        canReadNum := length - currentReadNum + currentWriteNum;
      }
      n := canReadNum;
    }

    /** One round of the copy loop of `WriteFIFO`. */
    method PutByte(b: Byte)
      requires Valid() && |Contents()| < length
      modifies this`currentWriteNum, this`flagWrite, buffer
      ensures Valid() && Contents() == old(Contents()) + [b]
    {
      buffer[currentWriteNum] := b;
      currentWriteNum := currentWriteNum + 1;
      if length == currentWriteNum {
        currentWriteNum := 0;
        flagWrite := true;
      }
    }

    /** One round of the copy loop of `ReadFIFO`. */
    method TakeByte() returns (b: Byte)
      requires Valid() && 0 < |Contents()|
      modifies this`currentReadNum, this`flagWrite
      ensures Valid() && b == old(Contents())[0] && Contents() == old(Contents())[1..]
    {
      b := buffer[currentReadNum];
      currentReadNum := currentReadNum + 1;
      if length == currentReadNum {
        currentReadNum := 0;
        flagWrite := false;
      }
    }

    /** `WriteFIFO`: all of the bytes, or none when they do not fit. */
    method Write(source: seq<Byte>) returns (ok: bool)
      requires Valid()
      modifies this, buffer
      ensures Valid() && ok == (|old(Contents())| + |source| <= length)
      ensures Contents() == if ok then old(Contents()) + source else old(Contents())
    {
      var free := CheckCanWriteNum();
      if free < |source| {
        return false;
      }
      canWriteNum := |source|;
      for i := 0 to |source|
        invariant Valid() && Contents() == old(Contents()) + source[..i]
      {
        PutByte(source[i]);
      }
      ok := true;
    }

    /** `ReadFIFO` into the first `n` places of `aim`: exactly `n` bytes, or none when fewer are queued. */
    method Read(aim: array<Byte>, n: nat) returns (ok: bool)
      requires Valid() && n <= aim.Length && aim != buffer
      modifies this, aim
      ensures Valid() && ok == (n <= |old(Contents())|)
      ensures ok ==> aim[..n] == old(Contents())[..n] && Contents() == old(Contents())[n..]
      ensures !ok ==> Contents() == old(Contents())
      ensures !ok ==> aim[..] == old(aim[..])
    {
      var avail := CheckCanReadNum();
      if avail < n {
        return false;
      }
      canReadNum := n;
      CopyOut(aim, n);
      ok := true;
    }

    /** The copy loop of `ReadFIFO`. */
    method CopyOut(aim: array<Byte>, n: nat)
      requires Valid() && n <= aim.Length && n <= |Contents()| && aim != buffer
      modifies this`currentReadNum, this`flagWrite, aim
      ensures Valid() && aim[..n] == old(Contents())[..n] && Contents() == old(Contents())[n..]
    {
      hide Contents;
      ghost var all := Contents();
      for i := 0 to n
        invariant Valid() && Contents() == all[i..]
        invariant aim[..i] == all[..i]
      {
        FirstOff(all, i);
        var b := TakeByte();
        aim[i] := b;
      }
    }
  }
}
