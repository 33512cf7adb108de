/** The on-disk inode table (fs/inode.c). */
module Inodes {
  import opened Disks

  const MAX_INODES := 4096
  const INODE_TABLE_SECTS := 608

  /** `sectors[0..12]` are direct blocks, `sectors[12]` is the indirect table. */
  datatype InodeRep = Inode(size: Word, sectors: seq<Word>)
  type Inode = i: InodeRep | |i.sectors| == 13
    witness Inode(0, [0, 0, 0, 0, 0, 0, 0, 0, 0, 0, 0, 0, 0])

  const EMPTY_INODE: Inode := Inode(0, [0, 0, 0, 0, 0, 0, 0, 0, 0, 0, 0, 0, 0])

  // ---------------------------------------------------------------- the 76-byte record

  /** i_no, i_size, i_open_cnts, write_deny, i_sectors, inode_tag: the last two
      fields and the counters are cleared before the record goes to disk. */
  function RecordWords(no: Word, ino: Inode): (ws: seq<Word>)
    ensures |ws| == 19
  {
    [no, ino.size, 0, 0] + ino.sectors + [0, 0]
  }

  function Encode(no: Word, ino: Inode): (s: seq<Byte>)
    ensures |s| == 76
  {
    WordBytes(RecordWords(no, ino))
  }

  function DecodeNo(s: seq<Byte>): Word
    requires |s| == 76
  {
    Words(s)[0]
  }

  function Decode(s: seq<Byte>): (ino: Inode)
    requires |s| == 76
  {
    Inode(Words(s)[1], Words(s)[4..17])
  }

  /** The record as `struct inode` lays it out: number, size, two counters that are cleared, the
      block array, and two cleared list pointers. */
  lemma RecordLayout(no: Word, ino: Inode)
    ensures var s := Encode(no, ino);
            && WordAt(s, 0) == no && WordAt(s, 1) == ino.size && WordAt(s, 2) == 0 && WordAt(s, 3) == 0
            && (forall i: nat :: i < 13 ==> WordAt(s, 4 + i) == ino.sectors[i])
            && WordAt(s, 17) == 0 && WordAt(s, 18) == 0
  {
    hide WordBytes; hide WordAt;
    forall k: nat | k < 19 ensures WordAt(Encode(no, ino), k) == RecordWords(no, ino)[k] {
      WordRoundTrip(RecordWords(no, ino), k);
    }
  }

  lemma RecordRoundTrip(no: Word, ino: Inode)
    ensures DecodeNo(Encode(no, ino)) == no && Decode(Encode(no, ino)) == ino
  {
    WordsRoundTrip(RecordWords(no, ino));
    assert RecordWords(no, ino)[4..17] == ino.sectors;
  }

  // ---------------------------------------------------------------- where a record lies

  datatype Position = Position(twoSec: bool, lba: nat, off: nat)

  function InodeLocate(base: nat, n: nat): (p: Position)
    ensures 512 * (p.lba - base) + p.off == 76 * n && p.off < 512
    ensures p.twoSec <==> p.off + 76 > 512
    ensures p.off + 76 <= if p.twoSec then 1024 else 512
    ensures n < MAX_INODES ==> base <= p.lba && p.lba + (if p.twoSec then 1 else 0) < base + INODE_TABLE_SECTS
  {
    Position(512 - 76 * n % 512 < 76, base + 76 * n / 512, 76 * n % 512)
  }

  /** Byte `off` of the table that starts at sector `base`. */
  function TableByte(d: Disk, base: nat, off: nat): Byte {
    Read(d, base + off / 512)[off % 512]
  }

  function Slot(d: Disk, base: nat, n: nat): (s: seq<Byte>)
    ensures |s| == 76
  {
    seq(76, (i: nat) requires i < 76 => TableByte(d, base, 76 * n + i))
  }

  function Splice(buf: seq<Byte>, off: nat, s: seq<Byte>): (r: seq<Byte>)
    requires off + |s| <= |buf|
    ensures |r| == |buf|
    ensures forall i :: 0 <= i < |buf| ==> r[i] == if off <= i < off + |s| then s[i - off] else buf[i]
  {
    buf[..off] + s + buf[off + |s|..]
  }

  /** Read the one or two sectors of record `n`, put `s` in place, write them back. */
  function StoreSlot(d: Disk, base: nat, n: nat, s: seq<Byte>): Disk
    requires |s| == 76
  {
    var p := InodeLocate(base, n);
    if p.twoSec then
      var buf := Splice(Read(d, p.lba) + Read(d, p.lba + 1), p.off, s);
      d[p.lba := buf[..512]][p.lba + 1 := buf[512..]]
    else
      d[p.lba := Splice(Read(d, p.lba), p.off, s)]
  }

  function LoadSlot(d: Disk, base: nat, n: nat): (s: seq<Byte>)
    ensures |s| == 76
  {
    var p := InodeLocate(base, n);
    var buf := if p.twoSec then Read(d, p.lba) + Read(d, p.lba + 1) else Read(d, p.lba);
    buf[p.off..p.off + 76]
  }

  lemma LoadSlotIsSlot(d: Disk, base: nat, n: nat)
    ensures LoadSlot(d, base, n) == Slot(d, base, n)
  {
    var p := InodeLocate(base, n);
    forall i: nat | i < 76 ensures LoadSlot(d, base, n)[i] == Slot(d, base, n)[i] {
      SectorOf(base, n, i);
    }
  }

  /** Byte `i` of record `n` sits in the located sector or the next one. */
  lemma SectorOf(base: nat, n: nat, i: nat)
    requires i < 76
    ensures var p := InodeLocate(base, n);
            if p.off + i < 512
            then base + (76 * n + i) / 512 == p.lba && (76 * n + i) % 512 == p.off + i
            else base + (76 * n + i) / 512 == p.lba + 1 && (76 * n + i) % 512 == p.off + i - 512
  {
  }

  /** Storing a record changes its own 76 bytes of the table and no others. */
  lemma StoreSlotByte(d: Disk, base: nat, n: nat, s: seq<Byte>, off: nat)
    requires |s| == 76
    ensures TableByte(StoreSlot(d, base, n, s), base, off)
            == if 76 * n <= off < 76 * n + 76 then s[off - 76 * n] else TableByte(d, base, off)
  {
    var p := InodeLocate(base, n);
    if 76 * n <= off < 76 * n + 76 {
      SectorOf(base, n, off - 76 * n);
    }
  }

  /** Sectors outside the table are never touched. */
  lemma StoreSlotFrame(d: Disk, base: nat, n: nat, s: seq<Byte>, lba: nat)
    requires |s| == 76 && n < MAX_INODES
    requires lba < base || base + INODE_TABLE_SECTS <= lba
    ensures Read(StoreSlot(d, base, n, s), lba) == Read(d, lba)
  {
  }

  lemma SlotOfBytes(d: Disk, d': Disk, base: nat, n: nat, s: seq<Byte>, m: nat)
    requires |s| == 76
    requires forall off: nat :: TableByte(d', base, off)
               == if 76 * n <= off < 76 * n + 76 then s[off - 76 * n] else TableByte(d, base, off)
    ensures Slot(d', base, m) == if m == n then s else Slot(d, base, m)
  {
    forall i: nat | i < 76
      ensures Slot(d', base, m)[i] == if m == n then s[i] else Slot(d, base, m)[i]
    {
      assert Slot(d', base, m)[i] == TableByte(d', base, 76 * m + i);
      assert Slot(d, base, m)[i] == TableByte(d, base, 76 * m + i);
    }
  }

  /** From `d` to `d'` record `n` became `s` and every other record stayed. */
  ghost predicate OnlySlot(d: Disk, d': Disk, base: nat, n: nat, s: seq<Byte>) {
    forall m: nat :: Slot(d', base, m) == if m == n then s else Slot(d, base, m)
  }

  /** Records of distinct inodes never overlap: storing one is seen through its own
      number only. */
  lemma StoreSlotOnly(d: Disk, base: nat, n: nat, s: seq<Byte>)
    requires |s| == 76
    ensures OnlySlot(d, StoreSlot(d, base, n, s), base, n, s)
  {
    var d' := StoreSlot(d, base, n, s);
    forall off: nat
      ensures TableByte(d', base, off) == if 76 * n <= off < 76 * n + 76 then s[off - 76 * n]
                else TableByte(d, base, off)
    {
      StoreSlotByte(d, base, n, s, off);
    }
    forall m: nat { SlotOfBytes(d, d', base, n, s, m); }
  }

  // ---------------------------------------------------------------- inode_sync

  /** The number goes through a `uint8_t`, so the record of inode n lands in slot
      n mod 256. */
  function SyncInode(d: Disk, base: nat, n: Word, ino: Inode): Disk {
    StoreSlot(d, base, n % 256, Encode(n, ino))
  }

  /** The record of n says n and `ino`. */
  ghost predicate RecordIs(d: Disk, base: nat, n: nat, ino: Inode) {
    DecodeNo(Slot(d, base, n)) == n && Decode(Slot(d, base, n)) == ino
  }

  /** What a sync is for: the record can be read back and no other one changed. */
  ghost predicate SyncedWell(d: Disk, d': Disk, base: nat, n: Word, ino: Inode) {
    && RecordIs(d', base, n, ino)
    && forall m: nat :: m != n ==> Slot(d', base, m) == Slot(d, base, m)
  }

  lemma OnlySlotSyncedWell(d: Disk, d': Disk, base: nat, n: Word, ino: Inode)
    requires OnlySlot(d, d', base, n, Encode(n, ino))
    ensures SyncedWell(d, d', base, n, ino)
  {
    RecordRoundTrip(n, ino);
  }

  lemma SyncNarrow(d: Disk, base: nat, n: Word, ino: Inode)
    requires n < 256
    ensures SyncedWell(d, SyncInode(d, base, n, ino), base, n, ino)
  {
    var d' := SyncInode(d, base, n, ino);
    StoreSlotOnly(d, base, n % 256, Encode(n, ino));
    assert n % 256 == n;
    OnlySlotSyncedWell(d, d', base, n, ino);
  }

  /** A wide number overwrites a foreign record: a zero record no longer reads zero. */
  lemma WideSyncFails(d: Disk, d': Disk, base: nat, n: Word, ino: Inode)
    requires n >= 256 && OnlySlot(d, d', base, n % 256, Encode(n, ino))
    requires Slot(d, base, n % 256) == Zeros(76)
    ensures !SyncedWell(d, d', base, n, ino)
  {
    RecordRoundTrip(n, ino);
    WordsOfZeros(76);
    assert Slot(d', base, n % 256) != Slot(d, base, n % 256);
  }

  /** The sync works for a number exactly when the number fits eight bits. */
  lemma SyncWorksIff(base: nat, n: Word)
    ensures (forall d, ino :: SyncedWell(d, SyncInode(d, base, n, ino), base, n, ino)) <==> n < 256
  {
    if n < 256 {
      forall d, ino ensures SyncedWell(d, SyncInode(d, base, n, ino), base, n, ino) { SyncNarrow(d, base, n, ino); }
    } else {
      var d: Disk := map[];
      assert forall off: nat :: TableByte(d, base, off) == 0;
      assert Slot(d, base, n % 256) == Zeros(76);
      StoreSlotOnly(d, base, n % 256, Encode(n, EMPTY_INODE));
      WideSyncFails(d, SyncInode(d, base, n, EMPTY_INODE), base, n, EMPTY_INODE);
    }
  }

  /** Inode 256 lands on the root directory's record. */
  lemma SyncOverwritesRoot(d: Disk, base: nat, ino: Inode)
    ensures Slot(SyncInode(d, base, 256, ino), base, 0) == Encode(256, ino)
    ensures DecodeNo(Encode(256, ino)) == 256
  {
    StoreSlotOnly(d, base, 0, Encode(256, ino));
    RecordRoundTrip(256, ino);
  }
}
