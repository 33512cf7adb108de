/** The layout of a fresh partition (fs/fs.c: `partition_format`). Sectors are counted from
    the start of the partition. */
module Formatting {
  import opened Bitmaps
  import opened Disks
  import opened Inodes

  const BITS_PER_SECTOR := 4096
  const INODE_BITMAP_SECTS := 1
  const USED_SECTS := 2 + INODE_BITMAP_SECTS + INODE_TABLE_SECTS

  function DivRoundUp(x: nat, step: nat): nat
    requires step > 0
  {
    (x + step - 1) / step
  }

  datatype SuperBlock = SuperBlock(
    secCnt: nat,
    blockBitmapLba: nat,
    blockBitmapSects: nat,
    inodeBitmapLba: nat,
    inodeTableLba: nat,
    dataStartLba: nat
  )

  function FirstRounding(secCnt: nat): nat
    requires secCnt >= USED_SECTS
  {
    DivRoundUp(secCnt - USED_SECTS, BITS_PER_SECTOR)
  }

  /** How many blocks the bitmap is meant to cover. */
  function BitLen(secCnt: nat): nat
    requires secCnt >= USED_SECTS
  {
    secCnt - USED_SECTS - FirstRounding(secCnt)
  }

  function Layout(secCnt: nat): SuperBlock
    requires secCnt >= USED_SECTS
  {
    var sects := DivRoundUp(BitLen(secCnt), BITS_PER_SECTOR);
    SuperBlock(secCnt, 2, sects, 2 + sects, 2 + sects + INODE_BITMAP_SECTS,
        2 + sects + INODE_BITMAP_SECTS + INODE_TABLE_SECTS)
  }

  datatype Region = Region(start: nat, len: nat)

  /** Boot sector, super block, block bitmap, inode bitmap, inode table, data. */
  function Regions(secCnt: nat): seq<Region>
    requires secCnt >= USED_SECTS
  {
    var sb := Layout(secCnt);
    [Region(0, 1), Region(1, 1), Region(sb.blockBitmapLba, sb.blockBitmapSects),
     Region(sb.inodeBitmapLba, INODE_BITMAP_SECTS),
     Region(sb.inodeTableLba, INODE_TABLE_SECTS), Region(sb.dataStartLba, BitLen(secCnt))]
  }

  /** The regions are pairwise disjoint and inside the partition, the bitmap region has a bit
      for every data block, the inode table has room for 4096 inodes of 76 bytes, and the
      second rounding is at most one sector below the first. */
  lemma LayoutSound(secCnt: nat)
    requires secCnt >= USED_SECTS
    ensures forall i, j :: 0 <= i < j < |Regions(secCnt)| ==>
              Regions(secCnt)[i].start + Regions(secCnt)[i].len <= Regions(secCnt)[j].start
    ensures forall i :: 0 <= i < |Regions(secCnt)| ==> Regions(secCnt)[i].start + Regions(secCnt)[i].len <= secCnt
    ensures Layout(secCnt).blockBitmapSects <= FirstRounding(secCnt)
    ensures BitLen(secCnt) <= Layout(secCnt).blockBitmapSects * BITS_PER_SECTOR
    ensures secCnt
            == Layout(secCnt).dataStartLba + BitLen(secCnt) + (FirstRounding(secCnt) - Layout(secCnt).blockBitmapSects)
    ensures 76 * 4096 <= INODE_TABLE_SECTS * SECTOR_SIZE && 4096 <= INODE_BITMAP_SECTS * BITS_PER_SECTOR
  {
  }

  // ---------------------------------------------------------------- the bitmap image

  /** What the image ends up saying of block j. */
  predicate MarkedUsed(bitLen: nat, j: nat) {
    j > bitLen || (j == 0 && bitLen >= 8)
  }

  function BufSize(secCnt: nat): nat
    requires secCnt >= USED_SECTS
  {
    var s := Layout(secCnt).blockBitmapSects;
    (if s >= INODE_TABLE_SECTS then s else INODE_TABLE_SECTS) * SECTOR_SIZE
  }

  /** The memset stays inside the buffer except where the bitmap is the largest part and
      fills its last sector. */
  lemma MemsetFitsIff(secCnt: nat)
    requires secCnt >= USED_SECTS
    ensures var lastByte := BitLen(secCnt) / 8;
            lastByte + (SECTOR_SIZE - lastByte % SECTOR_SIZE) <= BufSize(secCnt)
            <==> BitLen(secCnt) % BITS_PER_SECTOR != 0 || Layout(secCnt).blockBitmapSects < INODE_TABLE_SECTS
  {
    var n, sects := BitLen(secCnt), Layout(secCnt).blockBitmapSects;
    var lastByte := n / 8;
    assert lastByte - lastByte % SECTOR_SIZE == SECTOR_SIZE * (n / BITS_PER_SECTOR) by { SectorOfBit(n); }
    if n % BITS_PER_SECTOR == 0 { assert sects == n / BITS_PER_SECTOR; }
        else { assert sects == n / BITS_PER_SECTOR + 1; }
  }

  lemma SectorOfBit(n: nat)
    ensures (n / 8) / SECTOR_SIZE == n / BITS_PER_SECTOR
  {
  }

  /** Some block outside the partition is left free exactly when the second rounding gives
      the same number of sectors as the first. */
  lemma FreeOutsideIff(secCnt: nat)
    requires secCnt >= USED_SECTS
    ensures (exists j: nat :: j < Layout(secCnt).blockBitmapSects * BITS_PER_SECTOR && !MarkedUsed(BitLen(secCnt), j)
                              && Layout(secCnt).dataStartLba + j >= secCnt)
            <==> secCnt > USED_SECTS && Layout(secCnt).blockBitmapSects == FirstRounding(secCnt)
  {
    LayoutSound(secCnt);
    var n, sects, first := BitLen(secCnt), Layout(secCnt).blockBitmapSects, FirstRounding(secCnt);
    if secCnt > USED_SECTS && sects == first {
      assert n != sects * BITS_PER_SECTOR;
      assert !MarkedUsed(n, n) && n < sects * BITS_PER_SECTOR;
    }
  }

  /** A partition of 1000 sectors: bit 388 is free and names sector 1000. */
  lemma FreeOutsideExample()
    ensures Layout(1000).dataStartLba + 388 == 1000 && 388 < Layout(1000).blockBitmapSects * BITS_PER_SECTOR
    ensures !MarkedUsed(BitLen(1000), 388) && BitLen(1000) == 388
  {
  }

  /** A partition whose bitmap fills 608 sectors: the memset runs into the next one. */
  lemma MemsetExample()
    ensures var n := BitLen(2491588);
            n == 608 * BITS_PER_SECTOR && Layout(2491588).blockBitmapSects == 608
            && BufSize(2491588) == 608 * SECTOR_SIZE
            && n / 8 + (SECTOR_SIZE - n / 8 % SECTOR_SIZE) == BufSize(2491588) + SECTOR_SIZE
  {
  }

  /** The block bitmap as it is written: block 0 is taken by the root directory and every
      bit past `bitLen` is taken, but the bit at `bitLen` is cleared with the valid ones.
      The result is the memory from the buffer on, one sector longer than the buffer. */
  method BitmapImage(secCnt: nat) returns (buf: array<bv8>)
    requires secCnt >= USED_SECTS
    ensures fresh(buf) && buf.Length == BufSize(secCnt) + SECTOR_SIZE
    ensures Layout(secCnt).blockBitmapSects * BITS_PER_SECTOR <= |BitsOf(buf[..])|
    ensures forall j: nat :: j < Layout(secCnt).blockBitmapSects * BITS_PER_SECTOR ==>
              BitsOf(buf[..])[j] == MarkedUsed(BitLen(secCnt), j)
  {
    hide BitsOf; hide MarkedUsed; hide Bit;
    var bitLen := BitLen(secCnt);
    buf := new bv8[BufSize(secCnt) + SECTOR_SIZE](_ => 0);
    buf[0] := buf[0] | 1;
    var lastByte := bitLen / 8;
    Fill(buf, lastByte, SECTOR_SIZE - lastByte % SECTOR_SIZE);
    ClearTo(buf, lastByte, bitLen % 8);
    ImageBits(buf[..], secCnt);
  }

  /** The memset. */
  method Fill(buf: array<bv8>, at: nat, cnt: nat)
    requires at + cnt <= buf.Length
    modifies buf
    ensures forall k :: 0 <= k < buf.Length ==> buf[k] == if at <= k < at + cnt then 0xff else old(buf[k])
  {
    var i := 0;
    while i < cnt
      invariant 0 <= i <= cnt
      invariant forall k :: 0 <= k < buf.Length ==> buf[k] == if at <= k < at + i then 0xff else old(buf[k])
    {
      buf[at + i] := 0xff;
      i := i + 1;
    }
  }

  /** The loop that clears the valid bits of the last byte, and one more. */
  method ClearTo(buf: array<bv8>, at: nat, lastBit: nat)
    requires at < buf.Length && buf[at] == 0xff && lastBit < 8
    modifies buf
    ensures forall k :: 0 <= k < buf.Length && k != at ==> buf[k] == old(buf[k])
    ensures forall b: nat :: b < 8 ==> Bit(buf[at], b) == (b > lastBit)
  {
    hide WithBit;
    var bitIdx := 0;
    FullByte(0xff);
    while bitIdx <= lastBit
      invariant 0 <= bitIdx <= lastBit + 1
      invariant forall k :: 0 <= k < buf.Length && k != at ==> buf[k] == old(buf[k])
      invariant forall b: nat :: b < 8 ==> Bit(buf[at], b) == (b >= bitIdx)
    {
      WithBitAt(buf[at], bitIdx, false);
      buf[at] := WithBit(buf[at], bitIdx, false);
      bitIdx := bitIdx + 1;
    }
  }

  /** The same, said of the bytes. */
  predicate ImageByte(mem: seq<bv8>, bitLen: nat, k: nat)
    requires k < |mem|
  {
    var lastByte := bitLen / 8;
    if k == lastByte then forall b: nat :: b < 8 ==> Bit(mem[k], b) == (b > bitLen % 8)
    else mem[k] == if lastByte < k then 0xff else if k == 0 then 1 else 0
  }

  lemma ImageBits(mem: seq<bv8>, secCnt: nat)
    requires secCnt >= USED_SECTS && Layout(secCnt).blockBitmapSects * SECTOR_SIZE <= |mem|
    requires forall k: nat :: k < Layout(secCnt).blockBitmapSects * SECTOR_SIZE ==> ImageByte(mem, BitLen(secCnt), k)
    ensures forall j: nat :: j < Layout(secCnt).blockBitmapSects * BITS_PER_SECTOR ==>
              BitsOf(mem)[j] == MarkedUsed(BitLen(secCnt), j)
  {
    var n, sects := BitLen(secCnt), Layout(secCnt).blockBitmapSects;
    forall j: nat | j < sects * BITS_PER_SECTOR ensures BitsOf(mem)[j] == MarkedUsed(n, j) {
      var k, b := j / 8, j % 8;
      assert BitsOf(mem)[j] == Bit(mem[k], b);
      assert ImageByte(mem, n, k);
      FullByte(0xff);
      KnownBytes(b);
    }
  }

  lemma KnownBytes(b: nat)
    requires b < 8
    ensures !Bit(0, b) && (Bit(1, b) <==> b == 0)
  {
    if b == 0 { assert Bit(1, 0); }
  }
}
