/**
 The device seen through its requests: a plain array of sectors, as long as each
 write stays inside one erase block, and only then.
 */
module NorArray {
  import opened NorDisk

  const BYTES: nat := 2 * DEVICE

  datatype Request =
    | Write(sector: nat, count: nat, data: seq<Byte>)
    | Read(sector: nat, count: nat)

  /** What FatFs may ask: sectors of the device, and as much data as it says. */
  predicate Acceptable(q: Request) {
    q.sector + q.count <= DEVICE_SECTORS && (q.Write? ==> |q.data| == q.count * BLOCK_SIZE)
  }

  predicate InBlock(q: Request) {
    q.sector % SECTORS + q.count <= SECTORS
  }

  predicate Covers(q: Request, k: nat) {
    q.Write? && q.sector <= k < q.sector + q.count
  }

  /** The bytes of the device after a request, by the contract of `NorWrite`. */
  function Next(d: seq<Byte>, q: Request): (r: seq<Byte>)
    requires |d| == BYTES && Acceptable(q)
    ensures |r| == BYTES
  {
    if q.Write? then Overlaid(d, q.sector, Kept(q.sector, q.count), q.data) else d
  }

  function After(d: seq<Byte>, run: seq<Request>): (r: seq<Byte>)
    requires |d| == BYTES && forall q <- run :: Acceptable(q)
    ensures |r| == BYTES
  {
    if |run| == 0 then d else Next(After(d, run[..|run| - 1]), run[|run| - 1])
  }

  /** Sector `k` of a run of bytes that starts at a sector. */
  function Sector(d: seq<Byte>, k: nat): (s: seq<Byte>)
    requires (k + 1) * BLOCK_SIZE <= |d|
    ensures |s| == BLOCK_SIZE
  {
    d[k * BLOCK_SIZE..(k + 1) * BLOCK_SIZE]
  }

  /** What was last written to sector `k`, or what it held at first. */
  function Latest(first: seq<Byte>, run: seq<Request>, k: nat): seq<Byte>
    requires forall q <- run :: Acceptable(q)
  {
    if |run| == 0 then first
    else
      var q := run[|run| - 1];
      assert Acceptable(q);
      if Covers(q, k) then Sector(q.data, k - q.sector) else Latest(first, run[..|run| - 1], k)
  }

  lemma NextSector(d: seq<Byte>, q: Request, k: nat)
    requires |d| == BYTES && Acceptable(q) && (q.Write? ==> InBlock(q)) && k < DEVICE_SECTORS
    ensures Sector(Next(d, q), k) == if Covers(q, k) then Sector(q.data, k - q.sector) else Sector(d, k)
  {
  }

  /** Over any run whose writes each stay inside one erase block, every sector
      holds what was last written to it: no write touches another sector. */
  lemma {:induction false} SectorsHoldLatest(d: seq<Byte>, run: seq<Request>, k: nat)
    requires |d| == BYTES && forall q <- run :: Acceptable(q) && (q.Write? ==> InBlock(q))
    requires k < DEVICE_SECTORS
    ensures Sector(After(d, run), k) == Latest(Sector(d, k), run, k)
  {
    if |run| > 0 {
      var before := run[..|run| - 1];
      SectorsHoldLatest(d, before, k);
      NextSector(After(d, before), run[|run| - 1], k);
    }
  }

  /** A read of several sectors, across any number of erase blocks, gives for each
      the data last written to it. */
  lemma ReadsGiveLatest(d: seq<Byte>, run: seq<Request>, q: Request, i: nat)
    requires |d| == BYTES && forall p <- run :: Acceptable(p) && (p.Write? ==> InBlock(p))
    requires q.Read? && Acceptable(q) && i < q.count
    ensures Sector(After(d, run)[q.sector * BLOCK_SIZE..(q.sector + q.count) * BLOCK_SIZE], i)
         == Latest(Sector(d, q.sector + i), run, q.sector + i)
  {
    hide After, Latest;
    SectorsHoldLatest(d, run, q.sector + i);
  }

  /** A write puts down all of its data, whatever the data, exactly when it stays
      inside one erase block. */
  lemma WritesAllExactlyInBlock(d: seq<Byte>, sector: nat, count: nat)
    requires |d| == BYTES && sector + count <= DEVICE_SECTORS
    ensures (forall data :: |data| == count * BLOCK_SIZE ==>
               Next(d, Write(sector, count, data)) == Overlaid(d, sector, count, data))
        <==> sector % SECTORS + count <= SECTORS
  {
    var m := Kept(sector, count);
    if m < count {
      var data := seq(count * BLOCK_SIZE, i requires 0 <= i < count * BLOCK_SIZE => !d[sector * BLOCK_SIZE + i]);
      LosesTheRest(d, sector, count, data);
      assert data[m * BLOCK_SIZE..][0] != d[(sector + m) * BLOCK_SIZE..(sector + count) * BLOCK_SIZE][0];
    }
  }

  /** What is lost: every byte past the first erase block keeps its old value, so the
      outcome is the one asked for exactly when the rest of the data is there already. */
  lemma LosesTheRest(d: seq<Byte>, sector: nat, count: nat, data: seq<Byte>)
    requires |d| == BYTES && sector + count <= DEVICE_SECTORS && |data| == count * BLOCK_SIZE
    ensures var m := Kept(sector, count);
      && Next(d, Write(sector, count, data))[(sector + m) * BLOCK_SIZE..] == d[(sector + m) * BLOCK_SIZE..]
      && (Next(d, Write(sector, count, data)) == Overlaid(d, sector, count, data)
          <==> data[m * BLOCK_SIZE..] == d[(sector + m) * BLOCK_SIZE..(sector + count) * BLOCK_SIZE])
  {
    var m := Kept(sector, count);
    var a, b, e := sector * BLOCK_SIZE, (sector + m) * BLOCK_SIZE, (sector + count) * BLOCK_SIZE;
    var next, asked := Next(d, Write(sector, count, data)), Overlaid(d, sector, count, data);
    assert next[b..] == d[b..];
    assert asked[b..e] == data[m * BLOCK_SIZE..];
    assert next[b..e] == d[b..e];
    assert next[..b] == asked[..b] && next[e..] == asked[e..];
    if data[m * BLOCK_SIZE..] == d[b..e] {
      assert next == next[..b] + next[b..e] + next[e..];
      assert asked == asked[..b] + asked[b..e] + asked[e..];
    }
  }
}
