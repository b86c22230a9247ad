/**
 The NOR block device: sectors of 4096 bytes over erase blocks of 128K, written
 by read, erase, overlay and write-back. Programming a halfword can only clear
 bits, as the flash does. `overwrites` counts the halfwords that were programmed
 while they were not erased.
 */
module NorDisk {

  type Byte = bv8

  const BLOCK_SIZE: nat := 4096                 // bytes in a sector of the file system
  const SECTORS: nat := 32                      // sectors in an erase block
  const ROW: nat := 2048                        // halfwords in a sector
  const BLOCK: nat := 65536                     // halfwords in an erase block
  const DEVICE: nat := 0x100000                 // halfwords in the device
  const DEVICE_SECTORS: nat := 512
  const ERASED: bv16 := 0xffff

  // ----- bytes and halfwords, little end first -----

  function Half(low: Byte, high: Byte): bv16 {
    ((high as bv16) << 8) | (low as bv16)
  }

  function Low(w: bv16): Byte {
    (w & 0xff) as bv8
  }

  function High(w: bv16): Byte {
    ((w >> 8) & 0xff) as bv8
  }

  lemma HalfSplits(low: Byte, high: Byte)
    ensures Low(Half(low, high)) == low && High(Half(low, high)) == high
  {
  }

  /** What programming leaves in a cell: it can only clear bits. */
  function Cleared(cell: bv16, w: bv16): bv16 {
    cell & w
  }

  lemma ProgramErased(w: bv16)
    ensures Cleared(ERASED, w) == w
  {
  }

  predicate IsErased(w: bv16) {
    w == ERASED
  }

  /** The number of halfwords of `s[lo..hi]` that are not erased. */
  function NotErased(s: seq<bv16>, lo: nat, hi: nat): nat
    requires lo <= hi <= |s|
    decreases hi
  {
    if lo == hi then 0 else NotErased(s, lo, hi - 1) + if IsErased(s[hi - 1]) then 0 else 1
  }

  lemma {:induction false} AllErased(s: seq<bv16>, lo: nat, hi: nat)
    requires lo <= hi <= |s| && forall i :: lo <= i < hi ==> IsErased(s[i])
    ensures NotErased(s, lo, hi) == 0
    decreases hi
  {
    if lo < hi {
      AllErased(s, lo, hi - 1);
    }
  }

  /** How many sectors of a request lie in the erase block of its first sector. */
  function Kept(sector: nat, count: nat): (m: nat)
    ensures m <= count && m <= SECTORS - sector % SECTORS
  {
    if count <= SECTORS - sector % SECTORS then count else SECTORS - sector % SECTORS
  }

  /** The device `d` with `m` sectors of `data` laid over it from `sector` on. */
  function Overlaid(d: seq<Byte>, sector: nat, m: nat, data: seq<Byte>): (r: seq<Byte>)
    requires (sector + m) * BLOCK_SIZE <= |d| && m * BLOCK_SIZE <= |data|
    ensures |r| == |d|
  {
    d[..sector * BLOCK_SIZE] + data[..m * BLOCK_SIZE] + d[(sector + m) * BLOCK_SIZE..]
  }

  lemma OverlaidAt(d: seq<Byte>, sector: nat, m: nat, data: seq<Byte>, a: nat)
    requires (sector + m) * BLOCK_SIZE <= |d| && m * BLOCK_SIZE <= |data| && a < |d|
    ensures Overlaid(d, sector, m, data)[a] ==
      if sector * BLOCK_SIZE <= a < (sector + m) * BLOCK_SIZE then data[a - sector * BLOCK_SIZE] else d[a]
  {
  }

  /** The row and the column of a byte of a block. */
  lemma Place(x: nat) returns (r: nat, j: nat)
    requires x < 2 * BLOCK
    ensures r < SECTORS && j < BLOCK_SIZE && x == r * BLOCK_SIZE + j
  {
    r, j := x / BLOCK_SIZE, x % BLOCK_SIZE;
  }

  class Device {
    const flash: array<bv16>
    const tem: array2<Byte>                     // one row for each sector of a block
    ghost var overwrites: nat

    ghost predicate Valid() {
      flash.Length == DEVICE && tem.Length0 == SECTORS && tem.Length1 == BLOCK_SIZE
    }

    /** The byte at byte address `a`. */
    function At(a: nat): Byte
      reads flash
      requires a / 2 < flash.Length
    {
      if a % 2 == 0 then Low(flash[a / 2]) else High(flash[a / 2])
    }

    /** The device as the flat sequence of its bytes. */
    ghost function Bytes(): (d: seq<Byte>)
      reads flash
      ensures |d| == 2 * flash.Length
      ensures forall a :: 0 <= a < |d| ==> d[a] == At(a)
    {
      seq(2 * flash.Length, a requires 0 <= a < 2 * flash.Length reads flash => At(a))
    }

    /** Byte addresses are low half first. */
    lemma HalvesOf(h: nat)
      requires h < flash.Length
      ensures Bytes()[2 * h] as bv16 == flash[h] & 0xff && Bytes()[2 * h + 1] as bv16 == flash[h] >> 8
    {
    }

    /** Halfword `i` of a row of the temporary block. */
    function Stored(row: nat, i: nat): bv16
      reads tem
      requires row < tem.Length0 && 2 * i + 1 < tem.Length1
    {
      Half(tem[row, 2 * i], tem[row, 2 * i + 1])
    }

    // ----- the flash -----

    method Program(h: nat, w: bv16)
      requires Valid() && h < DEVICE
      modifies flash, `overwrites
      ensures flash[h] == Cleared(old(flash[h]), w)
      ensures forall k :: 0 <= k < DEVICE && k != h ==> flash[k] == old(flash[k])
      ensures overwrites == old(overwrites) + if IsErased(old(flash[h])) then 0 else 1
    {
      hide Cleared, IsErased;
      overwrites := overwrites + if IsErased(flash[h]) then 0 else 1;
      flash[h] := Cleared(flash[h], w);
    }

    method EraseBlock(first: nat)
      requires Valid() && first + BLOCK <= DEVICE
      modifies flash
      ensures forall k :: first <= k < first + BLOCK ==> IsErased(flash[k])
      ensures forall k :: 0 <= k < DEVICE && !(first <= k < first + BLOCK) ==> flash[k] == old(flash[k])
      ensures forall a :: 0 <= a < 2 * DEVICE && !(2 * first <= a < 2 * (first + BLOCK)) ==> At(a) == old(At(a))
    {
      hide Low, High;
      var k := first;
      while k < first + BLOCK
        invariant first <= k <= first + BLOCK
        invariant forall j :: first <= j < k ==> IsErased(flash[j])
        invariant forall j :: 0 <= j < DEVICE && !(first <= j < k) ==> flash[j] == old(flash[j])
      {
        flash[k] := ERASED;
        k := k + 1;
      }
    }

    // ----- BSP_NOR_WriteData and BSP_NOR_ReadData -----

    /** Programs `n` halfwords from a row of the temporary block, one at a time. */
    method WriteData(start: nat, row: nat, n: nat)
      requires Valid() && row < SECTORS && n <= ROW && start + n <= DEVICE
      modifies flash, `overwrites
      ensures forall k :: start <= k < start + n ==> flash[k] == Cleared(old(flash[k]), Stored(row, k - start))
      ensures forall k :: 0 <= k < DEVICE && !(start <= k < start + n) ==> flash[k] == old(flash[k])
      ensures overwrites == old(overwrites) + NotErased(old(flash[..]), start, start + n)
    {
      hide Cleared, IsErased, Half;
      var index, address, p := n, start, 0;
      while index >= 1
        invariant 0 <= index <= n && p == n - index && address == start + p
        invariant forall k :: start <= k < address ==> flash[k] == Cleared(old(flash[k]), Stored(row, k - start))
        invariant forall k :: 0 <= k < DEVICE && !(start <= k < address) ==> flash[k] == old(flash[k])
        invariant overwrites == old(overwrites) + NotErased(old(flash[..]), start, address)
      {
        Program(address, Stored(row, p));
        index := index - 1;
        address := address + 1;
        p := p + 1;
      }
    }

    /** Reads `n` halfwords into a row of the temporary block. */
    method ReadRow(start: nat, row: nat, n: nat)
      requires Valid() && row < SECTORS && n <= ROW && start + n <= DEVICE
      modifies tem
      ensures forall j :: 0 <= j < 2 * n ==> tem[row, j] == At(2 * start + j)
      ensures forall r, j :: 0 <= r < SECTORS && 0 <= j < BLOCK_SIZE && (r != row || 2 * n <= j) ==> tem[r, j] == old(tem[r, j])
    {
      hide Low, High;
      var i := 0;
      while i < n
        invariant i <= n
        invariant forall j :: 0 <= j < 2 * i ==> tem[row, j] == At(2 * start + j)
        invariant forall r, j :: 0 <= r < SECTORS && 0 <= j < BLOCK_SIZE && (r != row || 2 * i <= j) ==> tem[r, j] == old(tem[r, j])
      {
        tem[row, 2 * i] := Low(flash[start + i]);
        tem[row, 2 * i + 1] := High(flash[start + i]);
        i := i + 1;
      }
    }

    /** Reads `n` halfwords into the caller's bytes. */
    method ReadData(start: nat, buff: array<Byte>, n: nat)
      requires Valid() && start + n <= DEVICE && 2 * n <= buff.Length
      modifies buff
      ensures forall j :: 0 <= j < 2 * n ==> buff[j] == At(2 * start + j)
      ensures buff[2 * n..] == old(buff[2 * n..])
    {
      hide Low, High;
      var i := 0;
      while i < n
        invariant i <= n
        invariant forall j :: 0 <= j < 2 * i ==> buff[j] == At(2 * start + j)
        invariant buff[2 * n..] == old(buff[2 * n..])
      {
        buff[2 * i] := Low(flash[start + i]);
        buff[2 * i + 1] := High(flash[start + i]);
        i := i + 1;
      }
    }

    // ----- norRead and norWrite -----

    /** Reads `count` sectors, across as many erase blocks as they span. */
    method NorRead(buff: array<Byte>, sector: nat, count: nat)
      requires Valid() && sector + count <= DEVICE_SECTORS && count * BLOCK_SIZE <= buff.Length
      modifies buff
      ensures buff[..count * BLOCK_SIZE] == Bytes()[sector * BLOCK_SIZE..(sector + count) * BLOCK_SIZE]
      ensures buff[count * BLOCK_SIZE..] == old(buff[count * BLOCK_SIZE..])
    {
      ReadData(sector * ROW, buff, count * ROW);
    }

    /** Reads the whole erase block that starts at halfword `first`. */
    method LoadBlock(first: nat)
      requires Valid() && first + BLOCK <= DEVICE
      modifies tem
      ensures forall r, j :: 0 <= r < SECTORS && 0 <= j < BLOCK_SIZE ==> tem[r, j] == At(2 * first + r * BLOCK_SIZE + j)
    {
      hide At;
      var loop := 0;
      while loop < SECTORS
        invariant 0 <= loop <= SECTORS
        invariant forall r, j :: 0 <= r < loop && 0 <= j < BLOCK_SIZE ==> tem[r, j] == At(2 * first + r * BLOCK_SIZE + j)
      {
        ReadRow(first + loop * ROW, loop, ROW);
        loop := loop + 1;
      }
    }

    /** Copies one sector of the request over a row. */
    method CopyRow(buff: array<Byte>, from: nat, row: nat)
      requires Valid() && row < SECTORS && from + BLOCK_SIZE <= buff.Length
      modifies tem
      ensures forall j :: 0 <= j < BLOCK_SIZE ==> tem[row, j] == buff[from + j]
      ensures forall r, j :: 0 <= r < SECTORS && 0 <= j < BLOCK_SIZE && r != row ==> tem[r, j] == old(tem[r, j])
    {
      var i := 0;
      while i < BLOCK_SIZE
        invariant i <= BLOCK_SIZE
        invariant forall j :: 0 <= j < i ==> tem[row, j] == buff[from + j]
        invariant forall r, j :: 0 <= r < SECTORS && 0 <= j < BLOCK_SIZE && r != row ==> tem[r, j] == old(tem[r, j])
      {
        tem[row, i] := buff[from + i];
        i := i + 1;
      }
    }

    /** Lays the request over the rows it covers. */
    method Overlay(buff: array<Byte>, offset: nat, count: nat)
      requires Valid() && count * BLOCK_SIZE <= buff.Length
      modifies tem
      ensures forall r, j :: 0 <= r < SECTORS && 0 <= j < BLOCK_SIZE ==>
        tem[r, j] == if offset <= r < offset + count then buff[(r - offset) * BLOCK_SIZE + j] else old(tem[r, j])
    {
      var loop, p := 0, 0;
      while loop < SECTORS
        invariant 0 <= loop <= SECTORS
        invariant p == if loop <= offset then 0 else if loop <= offset + count then (loop - offset) * BLOCK_SIZE else count * BLOCK_SIZE
        invariant forall r, j :: 0 <= r < loop && 0 <= j < BLOCK_SIZE ==>
          tem[r, j] == if offset <= r < offset + count then buff[(r - offset) * BLOCK_SIZE + j] else old(tem[r, j])
        invariant forall r, j :: loop <= r < SECTORS && 0 <= j < BLOCK_SIZE ==> tem[r, j] == old(tem[r, j])
      {
        if offset <= loop < offset + count {
          CopyRow(buff, p, loop);
          p := p + BLOCK_SIZE;
        }
        loop := loop + 1;
      }
    }

    /** Byte `j` of a row, once the row is programmed over erased cells. */
    lemma StoredByte(start: nat, row: nat, j: nat)
      requires Valid() && row < SECTORS && j < BLOCK_SIZE && start + ROW <= DEVICE
      requires flash[start + j / 2] == Cleared(ERASED, Stored(row, j / 2))
      ensures At(2 * start + j) == tem[row, j]
    {
      ProgramErased(Stored(row, j / 2));
      HalfSplits(tem[row, 2 * (j / 2)], tem[row, 2 * (j / 2) + 1]);
      assert (2 * start + j) / 2 == start + j / 2;
    }

    /** Programs one row of the temporary block into erased cells. */
    method StoreRow(start: nat, row: nat)
      requires Valid() && row < SECTORS && start + ROW <= DEVICE
      requires forall k :: start <= k < start + ROW ==> IsErased(flash[k])
      modifies flash, `overwrites
      ensures forall j :: 0 <= j < BLOCK_SIZE ==> At(2 * start + j) == tem[row, j]
      ensures forall a :: 0 <= a < 2 * DEVICE && !(2 * start <= a < 2 * (start + ROW)) ==> At(a) == old(At(a))
      ensures forall k :: 0 <= k < DEVICE && !(start <= k < start + ROW) ==> flash[k] == old(flash[k])
      ensures overwrites == old(overwrites)
    {
      hide Low, High, Half, Cleared, Stored;
      AllErased(flash[..], start, start + ROW);
      WriteData(start, row, ROW);
      forall j | 0 <= j < BLOCK_SIZE ensures At(2 * start + j) == tem[row, j] {
        assert start <= start + j / 2 < start + ROW;
        StoredByte(start, row, j);
      }
    }

    /** Programs the temporary block into an erased block. */
    method StoreBlock(first: nat)
      requires Valid() && first + BLOCK <= DEVICE
      requires forall k :: first <= k < first + BLOCK ==> IsErased(flash[k])
      modifies flash, `overwrites
      ensures forall r, j :: 0 <= r < SECTORS && 0 <= j < BLOCK_SIZE ==> At(2 * first + r * BLOCK_SIZE + j) == tem[r, j]
      ensures forall a :: 0 <= a < 2 * DEVICE && !(2 * first <= a < 2 * (first + BLOCK)) ==> At(a) == old(At(a))
      ensures overwrites == old(overwrites)
    {
      hide At, IsErased;
      var loop := 0;
      while loop < SECTORS
        invariant 0 <= loop <= SECTORS
        invariant forall r, j :: 0 <= r < loop && 0 <= j < BLOCK_SIZE ==> At(2 * first + r * BLOCK_SIZE + j) == tem[r, j]
        invariant forall k :: first + loop * ROW <= k < first + BLOCK ==> IsErased(flash[k])
        invariant forall a :: 0 <= a < 2 * DEVICE && !(2 * first <= a < 2 * (first + BLOCK)) ==> At(a) == old(At(a))
        invariant overwrites == old(overwrites)
      {
        StoreRow(first + loop * ROW, loop);
        loop := loop + 1;
      }
    }

    /** Writes the part of a request that lies in its first erase block. Every
        other byte of the device is left as it was, and no halfword is programmed
        twice between erasures. */
    method NorWrite(buff: array<Byte>, sector: nat, count: nat)
      requires Valid() && sector < DEVICE_SECTORS && count * BLOCK_SIZE <= buff.Length
      modifies tem, flash, `overwrites
      ensures Bytes() == Overlaid(old(Bytes()), sector, Kept(sector, count), buff[..])
      ensures forall a :: 0 <= a < 0x200000 ==>
        Bytes()[a] == (if sector * 4096 <= a < (sector + count) * 4096 && a < (sector / 32 + 1) * 131072
                       then buff[a - sector * 4096] else old(Bytes()[a]))
      ensures overwrites == old(overwrites)
    {
      hide At, IsErased, Overlaid;
      var blockNum, sectorOffset := sector / SECTORS, sector % SECTORS;
      var first := blockNum * BLOCK;
      ghost var was := Bytes();
      LoadBlock(first);
      EraseBlock(first);
      Overlay(buff, sectorOffset, count);
      StoreBlock(first);
      forall a | 0 <= a < 2 * DEVICE
        ensures At(a) == Overlaid(was, sector, Kept(sector, count), buff[..])[a]
      {
        OverlaidAt(was, sector, Kept(sector, count), buff[..], a);
        if 2 * first <= a < 2 * (first + BLOCK) {
          var r, j := Place(a - 2 * first);
          assert At(2 * first + r * BLOCK_SIZE + j) == tem[r, j];
        }
      }
      forall a | 0 <= a < 0x200000
        ensures Bytes()[a] ==
          if sector * 4096 <= a < (sector + count) * 4096 && a < (sector / 32 + 1) * 131072 then buff[a - sector * 4096]
          else was[a]
      {
        OverlaidAt(was, sector, Kept(sector, count), buff[..], a);
      }
    }
  }
}
