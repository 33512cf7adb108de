/** Regular files over direct and indirect blocks (fs/file.c), the blocks of directories
    (fs/dir.c, fs/fs.c), and the recycling of an inode's blocks (fs/inode.c). */
module Files {
  import opened Disks
  import opened Bitmaps
  import opened Inodes
  import opened Ownership
  import opened Stores
  import opened FileViews
  import Formatting

  // ---------------------------------------------------------------- a new partition

  /** The block bitmap of a new partition, as `Formatting.BitmapImage` writes it. */
  function FormattedBits(secCnt: nat): (bits: seq<bool>)
    requires secCnt >= Formatting.USED_SECTS
    ensures |bits| == 4096 * Formatting.Layout(secCnt).blockBitmapSects
  {
    seq(4096 * Formatting.Layout(secCnt).blockBitmapSects,
        (j: nat) => Formatting.MarkedUsed(Formatting.BitLen(secCnt), j))
  }

  /** The bits past the last block, which are set for good. */
  function PastEnd(secCnt: nat): (reserved: set<nat>)
    requires secCnt >= Formatting.USED_SECTS
    ensures forall j: nat :: j in reserved <==> j < |FormattedBits(secCnt)| && Formatting.BitLen(secCnt) < j
  {
    set j: nat | j < |FormattedBits(secCnt)| && IsPast(secCnt, j)
  }

  predicate IsPast(secCnt: nat, j: nat)
    requires secCnt >= Formatting.USED_SECTS
  {
    Formatting.BitLen(secCnt) < j
  }

  /** Where a partition of this size at this place keeps what. */
  predicate Fits(start: nat, secCnt: nat) {
    && secCnt >= Formatting.USED_SECTS
    && start + Formatting.Layout(secCnt).dataStartLba + 4096 * Formatting.Layout(secCnt).blockBitmapSects < U32
  }

  function LayoutOn(start: nat, secCnt: nat): (l: Layout)
    requires Fits(start, secCnt)
    ensures (Formatting.BitLen(secCnt) > 0 <==>
              l.Valid()) && l.blocks == |FormattedBits(secCnt)| && 0 < l.dataStart < U32
  {
    var sb := Formatting.Layout(secCnt);
    Layout(start + sb.blockBitmapLba, start + sb.inodeBitmapLba, start + sb.inodeTableLba,
           start + sb.dataStartLba, 4096 * sb.blockBitmapSects)
  }

  function RootInode(l: Layout): Inode
    requires l.dataStart < U32
  {
    Inode(48, [l.dataStart, 0, 0, 0, 0, 0, 0, 0, 0, 0, 0, 0, 0])
  }

  /** A new partition is sound exactly when it has eight blocks or more: with fewer, the bit
      of the root's block is cleared again. */
  lemma FormattedOk(start: nat, secCnt: nat, d: Disk)
    requires Fits(start, secCnt)
    ensures var l := LayoutOn(start, secCnt);
            FsOk(l, PastEnd(secCnt), seq(MAX_INODES, n => n == 0), {0},
                 View(d, FormattedBits(secCnt), map[0 := RootInode(l)], map[l.dataStart := (0, 0)]))
            <==> Formatting.BitLen(secCnt) >= 8
  {
    hide Own; hide AllRefs; hide RefsOf; hide FormattedBits; hide PastEnd;
    var l := LayoutOn(start, secCnt);
    if Formatting.BitLen(secCnt) > 0 { FormattedOwn(l, secCnt, d); }
  }

  lemma FormattedOwn(l: Layout, secCnt: nat, d: Disk)
    requires secCnt >= Formatting.USED_SECTS && Formatting.BitLen(secCnt) > 0 && 0 < l.dataStart < U32
    ensures Own(AllRefs(d, map[0 := RootInode(l)]), FormattedBits(secCnt), map[l.dataStart := (0, 0)], PastEnd(secCnt),
                l.dataStart)
            <==> Formatting.BitLen(secCnt) >= 8
  {
    var root := RootInode(l);
    var inodes: map<nat, Inode> := map[0 := root];
    var g: seq<int> := RefsOf(d, root);
    assert g[0] == l.dataStart && forall i :: 1 <= i < REFS ==> g[i] == 0;
    assert AllRefs(d, inodes) == map[0 := g];
    Formatting.LayoutSound(secCnt);
    var bits := FormattedBits(secCnt);
    assert bits[0] <==> Formatting.BitLen(secCnt) >= 8;
  }

  lemma FormattedAgree(l: Layout, d: Disk)
    requires l.dataStart < U32
    ensures Agree(SyncInode(d, l.inodeTableLba, 0, RootInode(l)), l, map[0 := RootInode(l)])
  {
    hide Slot; hide SyncInode; hide Decode; hide DecodeNo;
    var inodes: map<nat, Inode> := map[];
    assert map[0 := RootInode(l)] == inodes[0 := RootInode(l)];
    AgreeAfterSync(d, l, inodes, 0, RootInode(l));
  }

  lemma FormattedHigh(l: Layout)
    requires l.inodeTableLba + INODE_TABLE_SECTS <= l.dataStart < U32
    ensures HighClear(SyncInode(map[l.dataStart := DotsSector(0, 0)], l.inodeTableLba, 0, RootInode(l)), l)
  {
    hide SyncInode; hide DotsSector; hide Decode; hide DecodeNo; hide SlotsBut; hide Slot;
    var none: Disk := map[];
    var d: Disk := map[l.dataStart := DotsSector(0, 0)];
    assert SameTableSectors(none, d, l);
    SlotsButSame(none, d, l, 0);
    SlotsButSync(d, l, 0, RootInode(l));
    var d' := SyncInode(d, l.inodeTableLba, 0, RootInode(l));
    SlotsButTrans(none, d, d', l, 0);
    BlankHigh(none, l);
    HighKept(none, d', l, 0);
  }

  lemma FormattedNode(l: Layout, d: Disk)
    requires l.Valid()
    ensures var root := RootInode(l); var d' := SyncInode(d[l.dataStart := DotsSector(0, 0)], l.inodeTableLba, 0, root);
            NodesOf(d', {0}, map[0 := root]) == map[0 := Dir(48, map[0 := DotsSector(0, 0)])]
  {
    hide SyncInode; hide DotsSector;
    var root, d1 := RootInode(l), d[l.dataStart := DotsSector(0, 0)];
    SyncSameData(d1, l, 0, root);
    var d' := SyncInode(d1, l.inodeTableLba, 0, root);
    assert Read(d', l.dataStart) == DotsSector(0, 0);
    assert DirBlocks(d', root) == map[0 := DotsSector(0, 0)];
  }

  /** A state of the partition in a run. */
  datatype Moment = Moment(v: View, dirs: set<nat>) {
    ghost function Nodes(): Store {
      NodesOf(v.disk, dirs, v.inodes)
    }

    ghost predicate Agrees(layout: Layout) {
      Agree(v.disk, layout, v.inodes)
    }

    /** The set bits are the reserved ones and the blocks that live inodes point to. */
    ghost predicate Owned(layout: Layout, reserved: set<nat>) {
      Own(AllRefs(v.disk, v.inodes), v.blockBits, v.owner, reserved, layout.dataStart)
    }
  }

  /** `inodes` holds what every live inode is, `dirs` says which of them are directories. A
      regular file is open while it is written and read; an unlink and every directory step
      open their inode from its record. A method's `halted` result stands for a failed ASSERT,
      `lost` for a record that says something else. */
  class FileSystem {
    const layout: Layout
    ghost const reserved: set<nat>
    var disk: Disk
    var blockBits: seq<bool>
    var inodeBits: seq<bool>
    var inodes: map<nat, Inode>
    var dirs: set<nat>
    ghost var owner: Owner

    /** A partition as `partition_format` leaves it and `mount_partition` reads it: the root
        directory is the only inode and owns the first data block. */
    constructor Format(start: nat, secCnt: nat)
      requires Fits(start, secCnt)
      ensures Valid() <==> Formatting.BitLen(secCnt) >= 8
      ensures Coherent() && dirs == {0} && blockBits == FormattedBits(secCnt)
      ensures layout == LayoutOn(start, secCnt) && inodes == map[0 := RootInode(layout)]
      ensures Valid() ==> Nodes() == map[0 := Dir(48, map[0 := DotsSector(0, 0)])]
    {
      hide FsOk; hide Agree; hide SyncInode; hide FormattedBits; hide PastEnd; hide NodesOf; hide HighClear;
      var l := LayoutOn(start, secCnt);
      layout := l;
      reserved := PastEnd(secCnt);
      disk := SyncInode(map[l.dataStart := DotsSector(0, 0)], l.inodeTableLba, 0, RootInode(l));
      blockBits := FormattedBits(secCnt);
      inodeBits := seq(MAX_INODES, n => n == 0);
      inodes := map[0 := RootInode(l)];
      dirs := {0};
      owner := map[l.dataStart := (0, 0)];
      new;
      FormattedOk(start, secCnt, disk);
      FormattedAgree(layout, map[l.dataStart := DotsSector(0, 0)]);
      FormattedHigh(layout);
      if Formatting.BitLen(secCnt) >= 8 {
        var none: Disk := map[];
        assert none[l.dataStart := DotsSector(0, 0)] == map[l.dataStart := DotsSector(0, 0)];
        FormattedNode(layout, none);
      }
    }

    ghost function Now(): View
      reads this
    {
      View(disk, blockBits, inodes, owner)
    }

    ghost predicate Valid()
      reads this
    {
      && FsOk(layout, reserved, inodeBits, dirs, Now()) && HighClear(disk, layout)
      && forall m :: m in dirs ==> m in inodes
    }

    /** Every live inode reads back from the disk as it is in memory. */
    ghost predicate Coherent()
      reads this
    {
      Agree(disk, layout, inodes)
    }

    /** The same of every live inode but n. */
    ghost predicate CoherentBut(n: nat)
      reads this
    {
      Agree(disk, layout, inodes - {n})
    }

    /** What the live inodes stand for. */
    ghost function Nodes(): Store
      reads this
    {
      NodesOf(disk, dirs, inodes)
    }

    /** What they would stand for if all were closed and read again from the table. */
    ghost function NodesOnDisk(): Store
      reads this
    {
      NodesOf(disk, dirs, map n | n in inodes :: Decode(Slot(disk, layout.inodeTableLba, n)))
    }

    ghost function Get(n: nat): Inode
      reads this
    {
      if n in inodes then inodes[n] else EMPTY_INODE
    }

    /** The inodes that an open gives as they are. */
    ghost function Sound(): set<nat>
      reads this
    {
      Readable(disk, layout, inodes)
    }

    /** A change of inode n breaks at most one other record, and mends none. */
    twostate predicate ReadsKept(n: nat)
      reads this
    {
      && (forall m :: m in Sound() && m != n ==> m in old(Sound()))
      && (forall m :: m in old(Sound()) && m != n && (m == 0 || m != n % 256) ==> m in Sound())
      && (n < 256 && n in old(Sound()) ==> n in Sound())
    }

    ghost function Refs(n: nat): (g: seq<int>)
      reads this
      ensures |g| == REFS
    {
      RefsOf(disk, Get(n))
    }

    ghost function Contents(n: nat): seq<Byte>
      reads this
    {
      FileBytes(disk, Refs(n), Get(n).size)
    }

    // -------------------------------------------------------------- blocks

    method BlockAlloc(ghost refs: map<nat, seq<int>>, ghost n: nat, ghost i: nat) returns (halted: bool, lba: Word)
      requires layout.Valid() && |blockBits| == layout.blocks
      requires Own(refs, blockBits, owner, reserved, layout.dataStart)
      requires n in refs && i < REFS && refs[n][i] == 0
      modifies this`blockBits, this`owner
      ensures halted <==> FreeCount(old(blockBits)) == 0
      ensures !halted ==>
                && lba - layout.dataStart == FirstRun(old(blockBits), 1) >= 0
                && lba !in old(owner) && owner == old(owner)[lba := (n, i)]
                && blockBits == old(blockBits)[lba - layout.dataStart := true]
                && FreeCount(blockBits) == FreeCount(old(blockBits)) - 1
                && Own(refs[n := refs[n][i := lba]], blockBits, owner, reserved, layout.dataStart)
    {
      hide Own;
      lba := 0;
      FreeCountZero(blockBits);
      var bit := FirstRun(blockBits, 1);
      if bit == -1 {
        return true, 0;
      }
      assert FreeRun(blockBits, bit, 1) && !blockBits[bit];
      FreeCountFlip(blockBits, bit);
      Link(refs, blockBits, owner, reserved, layout.dataStart, n, i, layout.dataStart + bit);
      halted, lba := false, layout.dataStart + bit;
      blockBits := blockBits[bit := true];
      owner := owner[lba := (n, i)];
    }

    method BitmapSync(lba: Word)
      requires layout.Valid() && |blockBits| == layout.blocks
      requires layout.dataStart <= lba < layout.dataStart + layout.blocks
      modifies this`disk
      ensures SameData(old(disk), disk, layout.inodeTableLba)
      ensures var off := (lba - layout.dataStart) / 4096;
              SaysBits(Read(disk, layout.blockBitmapLba + off), blockBits, off)
    {
      var off := (lba - layout.dataStart) / 4096;
      SectorBits(blockBits, off);
      disk := disk[layout.blockBitmapLba + off := BitmapSector(blockBits, off)];
    }

    /** The allocation loop of all three growth cases: blocks `from..to` go into
        `all`, and the direct ones into the inode too. */
    method AllocBlocks(ghost refs: map<nat, seq<int>>, n: nat, from: nat, to: nat, ino0: Inode, all0: seq<Word>)
      returns (halted: bool, ino: Inode, all: seq<Word>, ghost g: seq<int>)
      requires layout.Valid() && |blockBits| == layout.blocks && |all0| == MAX_BLOCKS
      requires Own(refs, blockBits, owner, reserved, layout.dataStart)
      requires n in refs && |refs[n]| == REFS && from <= to <= MAX_BLOCKS
      requires forall k :: from <= k < to ==> refs[n][Idx(k)] == 0
      requires ino0.sectors == refs[n][..13]
      modifies this`blockBits, this`owner, this`disk
      ensures halted <==> FreeCount(old(blockBits)) < to - from
      ensures !halted ==>
                && |blockBits| == layout.blocks && |g| == REFS && |all| == MAX_BLOCKS
                && Own(refs[n := g], blockBits, owner, reserved, layout.dataStart)
                && (forall k :: from <= k < to ==> g[Idx(k)] == all[k] != 0)
                && (forall k :: 0 <= k < MAX_BLOCKS && !(from <= k < to) ==>
                    g[Idx(k)] == refs[n][Idx(k)] && all[k] == all0[k])
                && g[12] == refs[n][12]
                && ino.sectors == g[..13] && ino.size == ino0.size
                && SameData(old(disk), disk, layout.inodeTableLba)
                && Except(owner, n) == old(Except(owner, n))
                && FreeCount(blockBits) == FreeCount(old(blockBits)) - (to - from)
    {
      hide SaysBits; hide Own; hide Except; hide FreeCount;
      halted, ino, all, g := false, ino0, all0, refs[n];
      assert refs[n := g] == refs;
      var k := from;
      while k < to
        invariant from <= k <= to
        invariant |blockBits| == layout.blocks && |g| == REFS && |all| == MAX_BLOCKS
        invariant Own(refs[n := g], blockBits, owner, reserved, layout.dataStart)
        invariant forall j :: from <= j < k ==> g[Idx(j)] == all[j] != 0
        invariant forall j :: 0 <= j < MAX_BLOCKS && !(from <= j < k) ==>
                  g[Idx(j)] == refs[n][Idx(j)] && all[j] == all0[j]
        invariant g[12] == refs[n][12]
        invariant ino.sectors == g[..13] && ino.size == ino0.size
        invariant SameData(old(disk), disk, layout.inodeTableLba)
        invariant Except(owner, n) == old(Except(owner, n))
        invariant FreeCount(blockBits) == FreeCount(old(blockBits)) - (k - from)
      {
        var lba: Word;
        ghost var prev, prevDisk := owner, disk;
        halted, lba := BlockAlloc(refs[n := g], n, Idx(k));
        if halted { return; }
        assert refs[n := g][n := g[Idx(k) := lba]] == refs[n := g[Idx(k) := lba]];
        ExceptUpdate(prev, lba, n, Idx(k));
        g := g[Idx(k) := lba];
        if k < 12 {
          assert ino.sectors[k] == 0;
          ino := ino.(sectors := ino.sectors[k := lba]);
        }
        all := all[k := lba];
        BitmapSync(lba);
        SameDataTrans(old(disk), prevDisk, disk, layout.inodeTableLba);
        k := k + 1;
      }
    }

    /** The second growth case: the old data fits the direct blocks, the new data
        does not, so the table is made first and stored last. */
    method CrossIntoTable(ghost refs: map<nat, seq<int>>, n: nat, ino0: Inode, all0: seq<Word>, has: nat, will: nat)
      returns (halted: bool, ino: Inode, all: seq<Word>, ghost g: seq<int>)
      requires layout.Valid() && |blockBits| == layout.blocks
      requires Own(refs, blockBits, owner, reserved, layout.dataStart)
      requires n in refs && 1 <= has <= 12 < will <= MAX_BLOCKS && Shape(refs[n], has)
      requires ino0.sectors == refs[n][..13]
      requires |all0| == MAX_BLOCKS && forall k :: has <= k < MAX_BLOCKS ==> all0[k] == 0
      modifies this`blockBits, this`owner, this`disk
      ensures halted <==> FreeCount(old(blockBits)) < will - has + 1
      ensures !halted ==>
                && |blockBits| == layout.blocks && Shape(g, will) && |all| == MAX_BLOCKS
                && Own(refs[n := g], blockBits, owner, reserved, layout.dataStart)
                && ino.sectors == g[..13] && Table(disk, ino.sectors[12]) == g[13..] && ino.size == ino0.size
                && (forall k :: has <= k < will ==> all[k] == g[Idx(k)])
                && (forall k :: 0 <= k < has ==> g[Idx(k)] == refs[n][Idx(k)] && all[k] == all0[k])
                && Except(owner, n) == old(Except(owner, n))
                && SameBut(old(disk), disk, layout.inodeTableLba, g[12])
                && FreeCount(blockBits) == FreeCount(old(blockBits)) - (will - has + 1)
    {
      hide SaysBits; hide Own; hide Except; hide FreeCount; hide Words; hide WordBytes;
      var table: Word;
      ino, all, g := ino0, all0, refs[n];
      halted, table := BlockAlloc(refs, n, 12);
      if halted { return; }
      assert ino.sectors[12] == 0;
      ExceptUpdate(old(owner), table, n, 12);
      ino := ino.(sectors := ino.sectors[12 := table]);
      g := g[12 := table];
      ghost var g1 := g;
      halted, ino, all, g := AllocBlocks(refs[n := g], n, has, will, ino, all);
      if halted { return; }
      assert refs[n := g1][n := g] == refs[n := g];
      WordsRoundTrip(all[12..]);
      disk := disk[table := WordBytes(all[12..])];
      TableOfBlocks(all, g);
    }

    /** Phase two of a write: make blocks `has..will` and collect the addresses the
        data goes to. `refs` is the ownership picture with the first block in place. */
    method CollectBlocks(ghost refs: map<nat, seq<int>>, n: nat, ino0: Inode, has: nat, will: nat)
      returns (halted: bool, ino: Inode, all: seq<Word>, ghost g: seq<int>)
      requires layout.Valid() && |blockBits| == layout.blocks
      requires Own(refs, blockBits, owner, reserved, layout.dataStart)
      requires n in refs && 1 <= has <= will <= MAX_BLOCKS && Shape(refs[n], has)
      requires ino0.sectors == refs[n][..13] && Table(disk, ino0.sectors[12]) == refs[n][13..]
      modifies this`blockBits, this`owner, this`disk
      ensures halted <==> FreeCount(old(blockBits)) < will - has + (if has <= 12 < will then 1 else 0)
      ensures !halted ==>
                && |blockBits| == layout.blocks && Shape(g, will) && |all| == MAX_BLOCKS
                && Own(refs[n := g], blockBits, owner, reserved, layout.dataStart)
                && ino.sectors == g[..13] && Table(disk, ino.sectors[12]) == g[13..] && ino.size == ino0.size
                && (forall k :: has - 1 <= k < will ==> all[k] == g[Idx(k)])
                && (forall k :: 0 <= k < has ==> g[Idx(k)] == refs[n][Idx(k)])
                && Except(owner, n) == old(Except(owner, n))
                && SameBut(old(disk), disk, layout.inodeTableLba, g[12])
                && FreeCount(blockBits)
                   == FreeCount(old(blockBits)) - (will - has + (if has <= 12 < will then 1 else 0))
    {
      hide SaysBits; hide Own; hide Except; hide FreeCount; hide Words; hide WordBytes;
      halted, ino, all, g := false, ino0, seq(140, _ => 0), refs[n];
      assert refs[n := g] == refs;
      if will == has {
        if has <= 12 {
          all := all[has - 1 := ino.sectors[has - 1]];
        } else {
          if ino.sectors[12] == 0 { assert false; }
          all := all[..12] + Words(Read(disk, ino.sectors[12]));
        }
      } else if will <= 12 {
        all := all[has - 1 := ino.sectors[has - 1]];
        halted, ino, all, g := AllocBlocks(refs, n, has, will, ino, all);
        if halted { return; }
        SameTable(g, refs[n]);
      } else if has <= 12 {
        all := all[has - 1 := ino.sectors[has - 1]];
        halted, ino, all, g := CrossIntoTable(refs, n, ino, all, has, will);
      } else {
        var table := ino.sectors[12];
        all := all[..12] + Words(Read(disk, table));
        halted, ino, all, g := AllocBlocks(refs, n, has, will, ino, all);
        if halted { return; }
        WordsRoundTrip(all[12..]);
        disk := disk[table := WordBytes(all[12..])];
        TableOfBlocks(all, g);
      }
    }

    /** Phases one and two: the blocks for `count` more bytes. */
    method Grow(n: nat, count: nat) returns (halted: bool, all: seq<Word>)
      requires Valid() && n in inodes && n !in dirs && inodes[n].size + count <= MAX_SIZE
      modifies this`blockBits, this`owner, this`disk, this`inodes
      ensures halted <==> old(Get(n)).size + count == MAX_SIZE
                          || FreeCount(old(blockBits)) < Needed(old(Refs(n)), old(Get(n)).size, count)
      ensures !halted ==>
                && |blockBits| == layout.blocks
                && inodes == old(inodes)[n := Get(n)] && Get(n).size == old(Get(n)).size
                && Own(AllRefs(disk, inodes), blockBits, owner, reserved, layout.dataStart)
                && AllRefs(disk, inodes) == old(AllRefs(disk, inodes))[n := Refs(n)]
                && Shape(Refs(n), (Get(n).size + count) / 512 + 1)
                && Collected(all, Refs(n), Get(n).size / 512, (Get(n).size + count) / 512)
                && Contents(n) == old(Contents(n))
                && Except(owner, n) == old(Except(owner, n))
                && SameBut(old(disk), disk, layout.inodeTableLba, Refs(n)[12])
                && FreeCount(blockBits)
                   == FreeCount(old(blockBits)) - Needed(old(Refs(n)), old(Get(n)).size, count)
    {
      hide Own; hide Except; hide FreeCount; hide Words; hide FileBytes; hide AllRefs;
      all := [];
      var ino: Inode := inodes[n];
      ghost var refs: map<nat, seq<int>> := AllRefs(disk, inodes);
      ghost var g0 := Refs(n);
      AllRefsAt(disk, inodes, n);
      AllRefsAt(disk, inodes, 0);
      RefsDirect(disk, inodes[0], 0);
      ghost var g: seq<int>;
      halted, ino, g := FirstBlock(refs, n, ino);
      if halted { return; }
      var has := ino.size / 512 + 1;
      var will := (ino.size + count) / 512 + 1;
      if will > MAX_BLOCKS {
        return true, [];
      }
      ghost var g1 := g;
      halted, ino, all, g := CollectBlocks(refs[n := g], n, ino, has, will);
      if halted { return; }
      assert refs[n := g1][n := g] == refs[n := g];
      RefsAfter(old(disk), disk, inodes, n, ino, g, blockBits, owner, reserved, layout.dataStart, layout.inodeTableLba);
      GrownBytes(old(disk), disk, refs[n := g], n, g0, ino.size, blockBits, owner, reserved, layout.dataStart,
          layout.inodeTableLba);
      inodes := inodes[n := ino];
      AllRefsAt(disk, inodes, n);
    }

    /** Phase one: the first write gives the file its block 0. */
    method FirstBlock(ghost refs: map<nat, seq<int>>, n: nat, ino0: Inode)
      returns (halted: bool, ino: Inode, ghost g: seq<int>)
      requires layout.Valid() && |blockBits| == layout.blocks
      requires Own(refs, blockBits, owner, reserved, layout.dataStart)
      requires n in refs && FileOk(refs[n], ino0.size) && refs[n] == RefsOf(disk, ino0)
      requires 0 in refs && |refs[0]| == REFS && refs[0][0] == layout.dataStart
      modifies this`blockBits, this`owner, this`disk
      ensures halted <==> refs[n][0] == 0 && FreeCount(old(blockBits)) == 0
      ensures !halted ==>
                && |blockBits| == layout.blocks && Shape(g, ino.size / 512 + 1)
                && Own(refs[n := g], blockBits, owner, reserved, layout.dataStart)
                && ino.sectors == g[..13] && Table(disk, ino.sectors[12]) == g[13..] && ino.size == ino0.size
                && (refs[n][0] != 0 ==> g == refs[n])
                && SameData(old(disk), disk, layout.inodeTableLba)
                && Except(owner, n) == old(Except(owner, n))
                && FreeCount(blockBits) == FreeCount(old(blockBits)) - (if refs[n][0] == 0 then 1 else 0)
    {
      hide SaysBits; hide Own; hide Except; hide FreeCount; hide Words;
      halted, ino, g := false, ino0, refs[n];
      assert refs[n := g] == refs;
      if ino.sectors[0] == 0 {
        var lba: Word;
        RootBitSet(refs, blockBits, owner, reserved, layout.dataStart);
        halted, lba := BlockAlloc(refs, n, 0);
        if halted { return; }
        assert lba - layout.dataStart != 0;
        ExceptUpdate(old(owner), lba, n, 0);
        ino := ino.(sectors := ino.sectors[0 := lba]);
        g := g[0 := lba];
        BitmapSync(lba);
        SameTable(g, refs[n]);
      }
    }

    /** One turn of the data loop. The sector is read first only when it may hold
        older bytes of the file. */
    method WriteSector(n: nat, size: Word, all: seq<Word>, piece: seq<Byte>, first: bool, ghost d0: Disk)
      requires layout.Valid() && |blockBits| == layout.blocks && n in inodes
      requires Own(AllRefs(disk, inodes), blockBits, owner, reserved, layout.dataStart)
      requires size < MAX_SIZE && size % 512 + |piece| <= 512 && (first || size % 512 == 0)
      requires Refs(n)[Idx(size / 512)] != 0 && |all| == MAX_BLOCKS && all[size / 512] == Refs(n)[Idx(size / 512)]
      requires OnlyOf(d0, disk, layout.inodeTableLba, owner, n)
      modifies this`disk
      ensures FileBytes(disk, Refs(n), size + |piece|) == FileBytes(old(disk), Refs(n), size) + piece
      ensures AllRefs(disk, inodes) == old(AllRefs(disk, inodes)) && Refs(n) == old(Refs(n))
      ensures OnlyOf(d0, disk, layout.inodeTableLba, owner, n)
    {
      hide Own; hide AllRefs; hide FileBytes; hide RefsOf; hide OnlyOf;
      ghost var before := disk;
      var ioBuf: Sector := Zeros(512);
      var lba := all[size / 512];
      if first {
        ioBuf := Read(disk, lba);
      }
      disk := disk[lba := Splice(ioBuf, size % 512, piece)];
      ChunkStep(d0, before, disk, inodes, n, size, ioBuf, piece, blockBits, owner, reserved, layout.dataStart,
          layout.inodeTableLba);
    }

    /** Phase three: the data goes out chunk by chunk, the size follows. */
    method WriteChunks(n: nat, all: seq<Word>, buf: seq<Byte>) returns (pos: Word)
      requires layout.Valid() && |blockBits| == layout.blocks && n in inodes
      requires Own(AllRefs(disk, inodes), blockBits, owner, reserved, layout.dataStart)
      requires inodes[n].size + |buf| < MAX_SIZE
      requires Shape(Refs(n), (Get(n).size + |buf|) / 512 + 1)
      requires Collected(all, Refs(n), Get(n).size / 512, (Get(n).size + |buf|) / 512)
      modifies this`disk, this`inodes
      ensures inodes == old(inodes)[n := Get(n)]
      ensures Get(n).sectors == old(Get(n)).sectors && Get(n).size == old(Get(n)).size + |buf|
      ensures Contents(n) == old(Contents(n)) + buf
      ensures AllRefs(disk, inodes) == old(AllRefs(disk, inodes)) && Refs(n) == old(Refs(n))
      ensures OnlyOf(old(disk), disk, layout.inodeTableLba, owner, n)
      ensures PosAt(pos, Get(n).size)
    {
      hide Own; hide AllRefs; hide FileBytes; hide RefsOf; hide Shape; hide Collected; hide ChunkSize;
      hide PosAt; hide Advance;
      var ino: Inode := inodes[n];
      ghost var g: seq<int> := Refs(n);
      ghost var refs: map<nat, seq<int>> := AllRefs(disk, inodes);
      var written, first := 0, true;
      PosStart(ino.size);
      pos := (ino.size - 1) % U32;
      while written < |buf|
        invariant 0 <= written <= |buf| && inodes == old(inodes)
        invariant ino.size == old(Get(n)).size + written && ino.sectors == old(Get(n)).sectors
        invariant PosAt(pos, ino.size)
        invariant !first && written < |buf| ==> ino.size % 512 == 0
        invariant FileBytes(disk, g, ino.size) == old(Contents(n)) + buf[..written]
        invariant AllRefs(disk, inodes) == refs && RefsOf(disk, inodes[n]) == g
        invariant OnlyOf(old(disk), disk, layout.inodeTableLba, owner, n)
      {
        var chunk := ChunkSize(ino.size, |buf| - written);
        var piece := buf[written..written + chunk];
        assert written < |buf| && ino.size / 512 <= (old(Get(n)).size + |buf|) / 512;
        BlockReady(all, g, old(Get(n)).size / 512, (old(Get(n)).size + |buf|) / 512, ino.size / 512);
        WriteSector(n, ino.size, all, piece, first, old(disk));
        first := false;
        assert buf[..written] + piece == buf[..written + chunk];
        PosStep(pos, ino.size, chunk);
        ino := ino.(size := ino.size + chunk);
        pos := Advance(pos, chunk);
        written := written + chunk;
      }
      assert buf[..written] == buf;
      RefsOfSize(disk, inodes[n], ino);
      AllRefsUpdate(disk, inodes, n, ino);
      inodes := inodes[n := ino];
    }

    /** Only inode n and its blocks changed, and everything else reads the same. */
    twostate predicate OthersKept(n: nat)
      reads this
    {
      && inodes.Keys == old(inodes.Keys)
      && (forall m :: m in inodes && m != n ==> inodes[m] == old(inodes)[m])
      && (forall m :: m in inodes && m != n && m !in dirs ==> Contents(m) == old(Contents(m)))
      && Except(owner, n) == old(Except(owner, n))
      && OnlyOf(old(disk), disk, layout.dataStart, owner, n)
      && SlotsBut(old(disk), disk, layout, n % 256)
    }

    /** `file_write`. The two ASSERTs that can fire are the one on 140 blocks and the
        one in the bitmap scan. */
    method FileWrite(n: nat, fdPos: Word, buf: seq<Byte>) returns (halted: bool, r: int, pos: Word)
      requires Valid() && n in inodes && n !in dirs
      modifies this`blockBits, this`owner, this`disk, this`inodes
      ensures halted <==>
                || old(Get(n)).size + |buf| == MAX_SIZE
                || (old(Get(n)).size + |buf| < MAX_SIZE
                    && FreeCount(old(blockBits)) < Needed(old(Refs(n)), old(Get(n)).size, |buf|))
      ensures old(Get(n)).size + |buf| > MAX_SIZE ==> r == -1 && pos == fdPos && unchanged(this)
      ensures !halted && r != -1 ==>
                r == |buf| && pos == if Get(n).size == 0 then U32 - 1 else Get(n).size - 1
      ensures !halted && old(Get(n)).size + |buf| < MAX_SIZE ==>
                && r == |buf| && Valid()
                && Contents(n) == old(Contents(n)) + buf
                && OthersKept(n)
                && FreeCount(blockBits)
                   == FreeCount(old(blockBits)) - Needed(old(Refs(n)), old(Get(n)).size, |buf|)
                && Refs(n)[0] != 0
                && Slot(disk, layout.inodeTableLba, n % 256) == Encode(n, Get(n))
                && (old(Coherent()) ==> (Coherent() <==> n < 256 || (n % 256 !in inodes && Get(n) == old(Get(n)))))
    {
      hide Own; hide AllRefs; hide FileBytes; hide RefsOf; hide FreeCount; hide Needed;
      hide SyncInode; hide Except; hide Shape; hide Agree; hide Slot; hide Encode; hide HighClear; hide SlotsBut;
      hide PosAt;
      halted, r, pos := false, -1, fdPos;
      if inodes[n].size + |buf| > MAX_SIZE {
        return;
      }
      var all: seq<Word>;
      ghost var v0 := Now();
      halted, all := Grow(n, |buf|);
      if halted { return; }
      ghost var d1 := disk;
      pos := WriteChunks(n, all, buf);
      PosIs(pos, inodes[n].size);
      ghost var v2 := Now();
      SyncSameData(disk, layout, n, inodes[n]);
      disk := SyncInode(disk, layout.inodeTableLba, n, inodes[n]);
      WriteDone(layout, reserved, inodeBits, dirs, v0, d1, v2, disk, n);
      WriteSlots(layout, reserved, v0, d1, v2, n);
      ShapeFirst(v2.disk, disk, inodes[n], inodes[n].size / 512 + 1);
      if old(Coherent()) {
        AllRefsAt(v2.disk, inodes, n);
        AgreeAfterWrite(layout, reserved, v0, d1, v2, n);
      }
      r := |buf|;
    }

    /** The addresses a read of blocks `start..end` needs, case by case. */
    method CollectForRead(n: nat, start: nat, end: nat) returns (all: seq<Word>)
      requires n in inodes && start <= end < 139
      requires FileOk(Refs(n), Get(n).size) && end <= Get(n).size / 512
      ensures Collected(all, Refs(n), start, end)
    {
      hide Words;
      var ino: Inode := inodes[n];
      all := seq(140, _ => 0);
      ghost var g := Refs(n);
      if end >= 12 {
        assert g[Idx(end)] != 0 && g[12] != 0;
      }
      if start == end {
        if end < 12 {
          all := all[end := ino.sectors[end]];
        } else {
          all := all[..12] + Words(Read(disk, ino.sectors[12]));
        }
      } else if end < 12 {
        all := CopyDirect(ino, start, end + 1);
      } else if start < 12 {
        all := CopyDirect(ino, start, 12);
        all := all[..12] + Words(Read(disk, ino.sectors[12]));
      } else {
        all := all[..12] + Words(Read(disk, ino.sectors[12]));
      }
    }

    method CopyDirect(ino: Inode, start: nat, end: nat) returns (all: seq<Word>)
      requires start <= end <= 12
      ensures |all| == MAX_BLOCKS && forall k :: start <= k < end ==> all[k] == ino.sectors[k]
    {
      all := seq(140, _ => 0);
      var k := start;
      while k < end
        invariant start <= k <= end && |all| == MAX_BLOCKS
        invariant forall j :: start <= j < k ==> all[j] == ino.sectors[j]
      {
        all := all[k := ino.sectors[k]];
        k := k + 1;
      }
    }

    /** `file_read` from a position inside the file: the slice there, cut at the end
        of the file, or -1 at the end. A read that reaches block 139 halts. */
    method FileRead(n: nat, fdPos: Word, count: nat) returns (halted: bool, r: int, data: seq<Byte>, pos: Word)
      requires Valid() && n in inodes && n !in dirs && fdPos <= inodes[n].size
      ensures var avail := Get(n).size - fdPos;
              var want := if count > avail then avail else count;
              && (halted <==> (fdPos + want) / 512 >= 139 && !(avail == 0 && count > 0))
              && (avail == 0 && count > 0 ==> r == -1 && data == [] && pos == fdPos)
              && (!halted && !(avail == 0 && count > 0) ==>
                    r == want == |data| && pos == fdPos + want && data == Contents(n)[fdPos..fdPos + want])
    {
      hide Own; hide AllRefs; hide FileBytes; hide RefsOf; hide Collected;
      halted, r, data, pos := false, -1, [], fdPos;
      var isize := inodes[n].size;
      var size := count;
      if fdPos + count > isize {
        size := isize - fdPos;
        if size == 0 {
          return;
        }
      }
      var start, end := fdPos / 512, (fdPos + size) / 512;
      if start >= 139 || end >= 139 {
        halted := true;
        return;
      }
      var all := CollectForRead(n, start, end);
      data, pos := ReadChunks(n, all, fdPos, size);
      r := size;
    }

    method ReadChunks(n: nat, all: seq<Word>, fdPos: Word, size: nat) returns (data: seq<Byte>, pos: Word)
      requires n in inodes && fdPos + size <= inodes[n].size < MAX_SIZE
      requires Collected(all, Refs(n), fdPos / 512, (fdPos + size) / 512)
      ensures pos == fdPos + size && data == Contents(n)[fdPos..fdPos + size]
    {
      hide FileBytes; hide RefsOf; hide ChunkSize;
      pos, data := fdPos, [];
      var bytesRead := 0;
      ghost var whole := Contents(n);
      while bytesRead < size
        invariant 0 <= bytesRead <= size && pos == fdPos + bytesRead
        invariant data == whole[fdPos..pos]
      {
        var off := pos % 512;
        var chunk := ChunkSize(pos, size - bytesRead);
        ReadChunk(disk, Refs(n), inodes[n].size, pos, chunk);
        var ioBuf := Read(disk, all[pos / 512]);
        data := data + ioBuf[off..off + chunk];
        assert whole[fdPos..pos] + whole[pos..pos + chunk] == whole[fdPos..pos + chunk];
        pos := pos + chunk;
        bytesRead := bytesRead + chunk;
      }
    }

    /** A write and a read from where it left the position: the read gives the last byte of
        the file again. */
    method WriteThenRead(n: nat, buf: seq<Byte>, count: nat) returns (halted: bool, r: int, data: seq<Byte>)
      requires Valid() && n in inodes && n !in dirs && count > 0
      requires 0 < inodes[n].size + |buf| < MAX_SIZE
      modifies this`blockBits, this`owner, this`disk, this`inodes
      ensures halted <==>
                || FreeCount(old(blockBits)) < Needed(old(Refs(n)), old(Get(n)).size, |buf|)
                || (old(Get(n)).size + |buf|) / 512 >= 139
      ensures !halted ==> r == 1 && data == [(old(Contents(n)) + buf)[old(Get(n)).size + |buf| - 1]]
    {
      hide FsOk; hide FileBytes; hide RefsOf; hide FreeCount; hide Needed; hide Except; hide Agree; hide Slot;
      hide Encode; hide OnlyOf; hide HighClear; hide SlotsBut;
      data := [];
      var pos: Word;
      halted, r, pos := FileWrite(n, 0, buf);
      if halted { return; }
      halted, r, data, pos := FileRead(n, pos, count);
    }

    // -------------------------------------------------------------- inodes come and go

    method InodeBitmapSync()
      requires layout.Valid() && |inodeBits| == MAX_INODES
      modifies this`disk
      ensures SameData(old(disk), disk, layout.inodeTableLba)
      ensures SaysBits(Read(disk, layout.inodeBitmapLba), inodeBits, 0)
    {
      SectorBits(inodeBits, 0);
      disk := disk[layout.inodeBitmapLba := BitmapSector(inodeBits, 0)];
    }

    /** The inode side of `file_create`: `slotFree` is whether the file table has a free
        slot. If not, the inode number is given back. */
    method FileCreate(slotFree: bool) returns (halted: bool, n: int)
      requires Valid()
      modifies this`inodeBits, this`disk, this`inodes
      ensures halted <==> forall m :: 0 <= m < MAX_INODES ==> m in old(inodes)
      ensures !halted && !slotFree ==> n == -1 && unchanged(this)
      ensures !halted && slotFree ==>
                && 0 <= n < MAX_INODES && n !in old(inodes) && (forall m :: 0 <= m < n ==> m in old(inodes))
                && Valid() && inodes == old(inodes)[n := EMPTY_INODE]
                && inodeBits == old(inodeBits)[n := true]
                && Contents(n) == [] && Refs(n)[0] == 0
                && (forall m :: m in old(inodes) && m !in dirs ==> Contents(m) == old(Contents(m)))
                && SameData(old(disk), disk, layout.dataStart) && SlotsBut(old(disk), disk, layout, n % 256)
                && Slot(disk, layout.inodeTableLba, n % 256) == Encode(n, EMPTY_INODE)
                && (old(Coherent()) ==> (Coherent() <==> n < 256))
    {
      hide SaysBits; hide Own; hide AllRefs; hide FileBytes; hide RefsOf; hide SyncInode; hide FileOk; hide Agree;
      hide Slot;
      hide Encode; hide SlotsBut; hide HighClear;
      n := FirstRun(inodeBits, 1);
      halted := n == -1;
      if halted {
        assert forall m: nat :: !FreeRun(inodeBits, m, 1);
        forall m | 0 <= m < MAX_INODES ensures m in inodes { assert !FreeRun(inodeBits, m, 1); }
        return;
      }
      assert FreeRun(inodeBits, n, 1) && !inodeBits[n];
      forall m | 0 <= m < n ensures m in inodes { assert !FreeRun(inodeBits, m, 1); }
      if !slotFree {
        return false, -1;
      }
      ghost var v := Now();
      inodeBits := inodeBits[n := true];
      inodes := inodes[n := EMPTY_INODE];
      SyncSameData(disk, layout, n, EMPTY_INODE);
      disk := SyncInode(disk, layout.inodeTableLba, n, EMPTY_INODE);
      ghost var d1 := disk;
      InodeBitmapSync();
      SameDataTrans(v.disk, d1, disk, layout.dataStart);
      OkAfterAdd(layout, reserved, old(inodeBits), dirs, v, disk, n);
      EmptyRefs(disk);
      SyncedThen(v.disk, disk, layout, n, EMPTY_INODE);
      if old(Coherent()) {
        CreateAgrees(v.disk, d1, disk, layout, v.inodes, n, EMPTY_INODE);
      }
    }

    method FreeBlock(ghost refs: map<nat, seq<int>>, ghost n: nat, ghost i: nat, lba: Word)
      requires layout.Valid() && |blockBits| == layout.blocks
      requires Own(refs, blockBits, owner, reserved, layout.dataStart)
      requires n in refs && (n != 0 || i != 0) && i < REFS && |refs[n]| == REFS && refs[n][i] == lba != 0
      requires 0 in refs && |refs[0]| == REFS && refs[0][0] == layout.dataStart
      modifies this`blockBits, this`owner, this`disk
      ensures |blockBits| == layout.blocks
      ensures Own(refs[n := refs[n][i := 0]], blockBits, owner, reserved, layout.dataStart)
      ensures Except(owner, n) == old(Except(owner, n))
      ensures SameData(old(disk), disk, layout.inodeTableLba)
    {
      hide SaysBits; hide Own; hide Except;
      PointerOwned(refs, blockBits, owner, reserved, layout.dataStart, n, i);
      PointerOwned(refs, blockBits, owner, reserved, layout.dataStart, 0, 0);
      Unlink(refs, blockBits, owner, reserved, layout.dataStart, n, i);
      ExceptRemove(owner, lba, n);
      var bit := lba - layout.dataStart;
      assert bit > 0;
      blockBits := blockBits[bit := false];
      owner := owner - {lba};
      BitmapSync(lba);
    }

    /** `inode_release` of an inode that is not open: its record is loaded and has to say its
        number; then every block, the table and the number are given back. */
    method InodeRelease(n: nat) returns (halted: bool, lost: bool)
      requires Valid() && n in inodes && n != 0
      modifies this`blockBits, this`owner, this`disk, this`inodes, this`inodeBits, this`dirs
      ensures halted <==> DecodeNo(Slot(old(disk), layout.inodeTableLba, n)) != n
      ensures lost <==> !halted && n !in old(Sound())
      ensures halted || lost ==> unchanged(this)
      ensures !halted && !lost ==>
                && Valid() && inodes == old(inodes) - {n} && dirs == old(dirs) - {n}
                && inodeBits == old(inodeBits)[n := false]
                && owner == old(Except(owner, n))
                && SameData(old(disk), disk, layout.dataStart) && SlotsBut(old(disk), disk, layout, n)
                && (forall m :: m in inodes && m !in dirs ==> Contents(m) == old(Contents(m)))
                && (old(Coherent()) ==> Coherent())
    {
      hide SaysBits; hide Own; hide AllRefs; hide FileBytes; hide RefsOf; hide Except; hide Agree; hide StoreSlot;
      hide Slot;
      hide Decode; hide DecodeNo; hide LoadSlot; hide HighClear; hide SlotsBut;
      LoadSlotIsSlot(disk, layout.inodeTableLba, n);
      var record := LoadSlot(disk, layout.inodeTableLba, n);
      halted := DecodeNo(record) != n;
      lost := !halted && Decode(record) != inodes[n];
      if halted || lost { return; }
      ghost var v, refs: map<nat, seq<int>> := Now(), AllRefs(disk, inodes);
      AllRefsAt(disk, inodes, n);
      AllRefsAt(disk, inodes, 0);
      RefsDirect(disk, inodes[0], 0);
      ghost var g := ReleaseBlocks(refs, n);
      inodeBits := inodeBits[n := false];
      ghost var d1 := disk;
      InodeBitmapSync();
      ghost var d2 := disk;
      SameDataTrans(v.disk, d1, d2, layout.inodeTableLba);
      ClearedThen(v.disk, d2, layout, n);
      ClearSlotSameData(disk, layout, n);
      disk := StoreSlot(disk, layout.inodeTableLba, n, Zeros(76));
      SameDataTrans(v.disk, d2, disk, layout.dataStart);
      inodes := inodes - {n};
      dirs := dirs - {n};
      if old(Coherent()) {
        AgreeKept(v.disk, d2, layout, v.inodes);
        AgreeAfterClear(d2, layout, v.inodes, n);
      }
      OwnsNothing(refs[n := g], blockBits, owner, reserved, layout.dataStart, n);
      OkAfterDrop(layout, reserved, old(inodeBits), old(dirs), v, Now(), n, g);
      OkAfterSync(layout, reserved, old(inodeBits), old(dirs), v, disk);
    }

    method ReleaseBlocks(ghost refs: map<nat, seq<int>>, n: nat) returns (ghost g: seq<int>)
      requires layout.Valid() && |blockBits| == layout.blocks && n in inodes && n != 0
      requires Own(refs, blockBits, owner, reserved, layout.dataStart)
      requires n in refs && refs[n] == Refs(n)
      requires 0 in refs && |refs[0]| == REFS && refs[0][0] == layout.dataStart
      modifies this`blockBits, this`owner, this`disk
      ensures |blockBits| == layout.blocks
      ensures |g| == REFS && forall i :: 0 <= i < REFS ==> g[i] == 0
      ensures Own(refs[n := g], blockBits, owner, reserved, layout.dataStart)
      ensures Except(owner, n) == old(Except(owner, n))
      ensures SameData(old(disk), disk, layout.inodeTableLba)
    {
      hide Own; hide Except; hide Words;
      var ino: Inode := inodes[n];
      var all: seq<Word>, cnt := ino.sectors[..12] + seq(128, _ => 0), 12;
      g := refs[n];
      assert refs[n := g] == refs;
      if ino.sectors[12] != 0 {
        all, cnt := all[..12] + Words(Read(disk, ino.sectors[12])), 140;
        FreeBlock(refs, n, 12, ino.sectors[12]);
        g := g[12 := 0];
      }
      forall j | 0 <= j < MAX_BLOCKS ensures g[Idx(j)] == all[j] { }
      var k := 0;
      while k < cnt
        invariant 0 <= k <= cnt <= MAX_BLOCKS && |blockBits| == layout.blocks && |g| == REFS && g[12] == 0
        invariant forall j :: 0 <= j < k ==> g[Idx(j)] == 0
        invariant forall j :: k <= j < MAX_BLOCKS ==> g[Idx(j)] == all[j]
        invariant Own(refs[n := g], blockBits, owner, reserved, layout.dataStart)
        invariant Except(owner, n) == old(Except(owner, n))
        invariant SameData(old(disk), disk, layout.inodeTableLba)
      {
        if all[k] != 0 {
          ghost var prev := disk;
          FreeBlock(refs[n := g], n, Idx(k), all[k]);
          SameDataTrans(old(disk), prev, disk, layout.inodeTableLba);
          assert refs[n := g][n := g[Idx(k) := 0]] == refs[n := g[Idx(k) := 0]];
          g := g[Idx(k) := 0];
        }
        k := k + 1;
      }
      forall j | 0 <= j < MAX_BLOCKS ensures g[Idx(j)] == 0 { }
      AllPointersClear(g);
    }

    // -------------------------------------------------------------- directory blocks

    /** The block allocation of `sync_dir_entry` for a direct slot that is empty. */
    method DirTakeBlock(n: nat, k: nat) returns (halted: bool)
      requires Valid() && n in inodes && n in dirs && k < 12 && inodes[n].sectors[k] == 0
      modifies this`blockBits, this`owner, this`disk, this`inodes
      ensures halted <==> FreeCount(old(blockBits)) == 0
      ensures !halted ==>
                && Valid() && OthersKept(n)
                && Get(n).sectors[k] - layout.dataStart == FirstRun(old(blockBits), 1) > 0
                && Get(n) == old(Get(n)).(sectors := old(Get(n)).sectors[k := Get(n).sectors[k]])
                && DirBlocks(disk, Get(n)) == old(DirBlocks(disk, Get(n)))[k := Read(disk, Get(n).sectors[k])]
                && FreeCount(blockBits) == FreeCount(old(blockBits)) - 1
                && (old(CoherentBut(n)) ==> CoherentBut(n))
    {
      hide SaysBits; hide Own; hide AllRefs; hide FileBytes; hide RefsOf; hide FreeCount; hide Except; hide FileOk;
      hide Agree; hide FirstRun;
      hide DirBlocks; hide HighClear; hide SlotsBut;
      ghost var v, refs: map<nat, seq<int>> := Now(), AllRefs(disk, inodes);
      AllRefsAt(disk, inodes, n);
      AllRefsAt(disk, inodes, 0);
      RefsDirect(disk, inodes[n], k);
      RefsDirect(disk, inodes[0], 0);
      var lba: Word;
      RootBitSet(refs, blockBits, owner, reserved, layout.dataStart);
      halted, lba := BlockAlloc(refs, n, k);
      if halted { return; }
      ExceptUpdate(old(owner), lba, n, k);
      BitmapSync(lba);
      DirRefsAfter(v.disk, disk, inodes, n, k, lba, v.blockBits, v.owner, reserved, layout.dataStart);
      DirBlocksSet(layout, reserved, inodeBits, dirs, v, disk, n, k, lba);
      if old(CoherentBut(n)) { AgreeKept(v.disk, disk, layout, inodes - {n}); }
      assert inodes[n := inodes[n].(sectors := inodes[n].sectors[k := lba])] - {n} == inodes - {n};
      inodes := inodes[n := inodes[n].(sectors := inodes[n].sectors[k := lba])];
      OkAfterChange(layout, reserved, inodeBits, dirs, v, Now(), n, inodes[n]);
      OthersSame(layout, reserved, inodeBits, dirs, v, Now(), n);
      TableKept(v.disk, disk, layout, n % 256);
    }

    /** The recycling of `delete_dir_entry` for a direct block other than the first. */
    method DirGiveBlock(n: nat, k: nat)
      requires Valid() && n in inodes && n in dirs && 0 < k < 12 && inodes[n].sectors[k] != 0
      modifies this`blockBits, this`owner, this`disk, this`inodes
      ensures Valid() && OthersKept(n)
      ensures Get(n) == old(Get(n)).(sectors := old(Get(n)).sectors[k := 0])
      ensures DirBlocks(disk, Get(n)) == old(DirBlocks(disk, Get(n))) - {k}
      ensures old(CoherentBut(n)) ==> CoherentBut(n)
    {
      hide Own; hide AllRefs; hide FileBytes; hide RefsOf; hide Except; hide FileOk; hide Agree; hide DirBlocks;
      hide HighClear; hide SlotsBut;
      ghost var v, refs: map<nat, seq<int>> := Now(), AllRefs(disk, inodes);
      AllRefsAt(disk, inodes, n);
      AllRefsAt(disk, inodes, 0);
      RefsDirect(disk, inodes[n], k);
      RefsDirect(disk, inodes[0], 0);
      FreeBlock(refs, n, k, inodes[n].sectors[k]);
      DirRefsAfter(v.disk, disk, inodes, n, k, 0, v.blockBits, v.owner, reserved, layout.dataStart);
      DirBlocksSet(layout, reserved, inodeBits, dirs, v, disk, n, k, 0);
      if old(CoherentBut(n)) { AgreeKept(v.disk, disk, layout, inodes - {n}); }
      assert inodes[n := inodes[n].(sectors := inodes[n].sectors[k := 0])] - {n} == inodes - {n};
      inodes := inodes[n := inodes[n].(sectors := inodes[n].sectors[k := 0])];
      OkAfterChange(layout, reserved, inodeBits, dirs, v, Now(), n, inodes[n]);
      OthersSame(layout, reserved, inodeBits, dirs, v, Now(), n);
      TableKept(v.disk, disk, layout, n % 256);
    }

    /** A directory block is written. */
    method DirWrite(n: nat, k: nat, content: Sector)
      requires Valid() && n in dirs && k < 12 && inodes[n].sectors[k] != 0
      modifies this`disk
      ensures Valid() && OthersKept(n)
      ensures DirBlocks(disk, Get(n)) == old(DirBlocks(disk, Get(n)))[k := content]
      ensures old(CoherentBut(n)) ==> CoherentBut(n)
    {
      hide Own; hide AllRefs; hide FileBytes; hide RefsOf; hide Except; hide FileOk; hide Agree; hide DirBlocks;
      hide HighClear; hide SlotsBut;
      ghost var v := Now();
      AllRefsAt(disk, inodes, n);
      RefsDirect(disk, inodes[n], k);
      PointerOwned(AllRefs(disk, inodes), blockBits, owner, reserved, layout.dataStart, n, k);
      disk := disk[inodes[n].sectors[k] := content];
      RefsKept(v.disk, disk, inodes, n, k, blockBits, owner, reserved, layout.dataStart, layout.dataStart);
      DirBlocksWrite(layout, reserved, inodeBits, dirs, v, n, k, content);
      AllRefsAt(disk, inodes, n);
      assert AllRefs(v.disk, inodes)[n := RefsOf(disk, inodes[n])] == AllRefs(v.disk, inodes);
      assert inodes[n := inodes[n]] == inodes;
      OkAfterChange(layout, reserved, inodeBits, dirs, v, Now(), n, inodes[n]);
      OthersSame(layout, reserved, inodeBits, dirs, v, Now(), n);
      assert SameTableSectors(v.disk, disk, layout);
      TableKept(v.disk, disk, layout, n % 256);
      if old(CoherentBut(n)) { AgreeSectors(v.disk, disk, layout, inodes - {n}); }
    }

    /** The size of a directory changes and its inode is synced. */
    method DirSync(n: nat, size: Word)
      requires Valid() && n in dirs
      modifies this`disk, this`inodes
      ensures Valid() && OthersKept(n)
      ensures Get(n) == old(Get(n)).(size := size) && DirBlocks(disk, Get(n)) == old(DirBlocks(disk, Get(n)))
      ensures Slot(disk, layout.inodeTableLba, n % 256) == Encode(n, Get(n))
      ensures old(CoherentBut(n)) ==>
                (Coherent() <==>
                   n < 256 || (n % 256 !in inodes && RecordIs(old(disk), layout.inodeTableLba, n, Get(n))))
    {
      hide Own; hide AllRefs; hide FileBytes; hide RefsOf; hide Except; hide FileOk; hide Agree; hide DirBlocks;
      hide SyncInode; hide Slot; hide Encode; hide RecordIs; hide HighClear; hide SlotsBut;
      ghost var v := Now();
      var ino: Inode := inodes[n].(size := size);
      RefsOfSize(disk, inodes[n], ino);
      AllRefsUpdate(disk, inodes, n, ino);
      AllRefsAt(disk, inodes, n);
      assert AllRefs(disk, inodes)[n := RefsOf(disk, ino)] == AllRefs(disk, inodes);
      OkAfterChange(layout, reserved, inodeBits, dirs, v, v.(inodes := inodes[n := ino]), n, ino);
      SyncSameData(disk, layout, n, ino);
      SyncedThen(disk, SyncInode(disk, layout.inodeTableLba, n, ino), layout, n, ino);
      if old(CoherentBut(n)) { AgreeAfterSync(disk, layout, inodes, n, ino); }
      inodes := inodes[n := ino];
      disk := SyncInode(disk, layout.inodeTableLba, n, ino);
      OkAfterSync(layout, reserved, inodeBits, dirs, v.(inodes := inodes), disk);
      AllRefsAt(disk, inodes, n);
      OthersSame(layout, reserved, inodeBits, dirs, v, Now(), n);
      DirBlocksSame(layout, reserved, inodeBits, dirs, v, disk, n, ino);
    }

    /** A directory gets a new block k with this content, and is synced with this size. */
    method GrowDirectory(n: nat, k: nat, content: Sector, size: Word) returns (halted: bool)
      requires Valid() && n in dirs && k < 12 && inodes[n].sectors[k] == 0
      modifies this`blockBits, this`owner, this`disk, this`inodes
      ensures halted <==> FreeCount(old(blockBits)) == 0
      ensures !halted ==>
                && Valid() && OthersKept(n) && Get(n).size == size
                && Get(n).sectors == old(Get(n)).sectors[k := Get(n).sectors[k]]
                && Get(n).sectors[k] - layout.dataStart == FirstRun(old(blockBits), 1) > 0
                && DirBlocks(disk, Get(n)) == old(DirBlocks(disk, Get(n)))[k := content]
                && Slot(disk, layout.inodeTableLba, n % 256) == Encode(n, Get(n))
                && FreeCount(blockBits) == FreeCount(old(blockBits)) - 1
                && (old(CoherentBut(n)) && n < 256 ==> Coherent())
                && (old(CoherentBut(n)) && n >= 256 && n % 256 in inodes ==> !Coherent())
    {
      hide FsOk; hide FileBytes; hide RefsOf; hide Except; hide Agree; hide DirBlocks; hide OnlyOf; hide FreeCount;
      hide Slot; hide Encode; hide RecordIs; hide HighClear; hide SlotsBut; hide FirstRun;
      ghost var d0 := disk;
      halted := DirTakeBlock(n, k);
      if halted { return; }
      ghost var d1 := disk;
      DirWrite(n, k, content);
      ghost var d2 := disk;
      KeptTrans(d0, d1, d2, layout, owner, n);
      DirSync(n, size);
      KeptTrans(d0, d2, disk, layout, owner, n);
    }

    /** A block of a directory is rewritten, and the directory synced with this size. */
    method StoreDirectory(n: nat, k: nat, content: Sector, size: Word)
      requires Valid() && n in dirs && k < 12 && inodes[n].sectors[k] != 0
      modifies this`disk, this`inodes
      ensures Valid() && OthersKept(n) && Get(n) == old(Get(n)).(size := size)
      ensures DirBlocks(disk, Get(n)) == old(DirBlocks(disk, Get(n)))[k := content]
      ensures Slot(disk, layout.inodeTableLba, n % 256) == Encode(n, Get(n))
      ensures old(CoherentBut(n)) && n < 256 ==> Coherent()
    {
      hide FsOk; hide FileBytes; hide RefsOf; hide Except; hide Agree; hide DirBlocks; hide OnlyOf; hide Slot;
      hide Encode;
      hide RecordIs; hide HighClear; hide SlotsBut;
      ghost var d0 := disk;
      DirWrite(n, k, content);
      ghost var d1 := disk;
      DirSync(n, size);
      KeptTrans(d0, d1, disk, layout, owner, n);
    }

    /** A block of a directory is given back, and the directory synced with this size. */
    method ShrinkDirectory(n: nat, k: nat, size: Word)
      requires Valid() && n in dirs && 0 < k < 12 && inodes[n].sectors[k] != 0
      modifies this`blockBits, this`owner, this`disk, this`inodes
      ensures Valid() && OthersKept(n) && Get(n).size == size && Get(n).sectors == old(Get(n)).sectors[k := 0]
      ensures DirBlocks(disk, Get(n)) == old(DirBlocks(disk, Get(n))) - {k}
      ensures Slot(disk, layout.inodeTableLba, n % 256) == Encode(n, Get(n))
      ensures old(CoherentBut(n)) && n < 256 ==> Coherent()
    {
      hide FsOk; hide FileBytes; hide RefsOf; hide Except; hide Agree; hide DirBlocks; hide OnlyOf; hide Slot;
      hide Encode;
      hide RecordIs; hide HighClear; hide SlotsBut;
      ghost var d0 := disk;
      DirGiveBlock(n, k);
      ghost var d1 := disk;
      DirSync(n, size);
      KeptTrans(d0, d1, disk, layout, owner, n);
    }

    /** The inode side of `sys_mkdir`. */
    method MakeDirectory(parent: nat) returns (halted: bool, n: int)
      requires Valid()
      modifies this
      ensures halted <==> (forall m :: 0 <= m < MAX_INODES ==> m in old(inodes)) || FreeCount(old(blockBits)) == 0
      ensures !halted ==>
                && 0 <= n < MAX_INODES && n !in old(inodes) && (forall m :: 0 <= m < n ==> m in old(inodes))
                && Valid() && dirs == old(dirs) + {n} && inodes.Keys == old(inodes.Keys) + {n}
                && inodeBits == old(inodeBits)[n := true]
                && NodeOf(disk, dirs, n, Get(n)) == Dir(48, map[0 := DotsSector(n, parent)])
                && (forall m :: m in old(inodes) ==>
                      NodeOf(disk, dirs, m, Get(m)) == old(NodeOf(disk, dirs, m, Get(m))))
                && ReadsKept(n) && (n in Sound() <==> n < 256)
                && (old(Coherent()) ==> (Coherent() <==> n < 256))
    {
      hide FileBytes; hide RefsOf; hide Except; hide Agree; hide DirBlocks; hide OnlyOf; hide FreeCount; hide FsOk;
      hide NodeOf; hide HighClear;
      hide Slot; hide Encode; hide RecordIs; hide DotsSector; hide BitmapSector;
      FilesBounded(layout, reserved, inodeBits, dirs, Now());
      FreeCountZero(blockBits);
      n := FirstRun(inodeBits, 1);
      NumberFree(inodeBits, inodes);
      halted := n == -1 || FirstRun(blockBits, 1) == -1;
      if halted { return; }
      halted := AddDirectory(n, parent);
    }

    /** The number n becomes a directory with its dots. */
    method AddDirectory(n: nat, parent: nat) returns (halted: bool)
      requires Valid() && n < MAX_INODES && n !in inodes && forall m :: 0 <= m < n ==> m in inodes
      modifies this
      ensures halted <==> FreeCount(old(blockBits)) == 0
      ensures !halted ==>
                && Valid() && dirs == old(dirs) + {n} && inodes.Keys == old(inodes.Keys) + {n}
                && inodeBits == old(inodeBits)[n := true]
                && NodeOf(disk, dirs, n, Get(n)) == Dir(48, map[0 := DotsSector(n, parent)])
                && (forall m :: m in old(inodes) ==>
                      NodeOf(disk, dirs, m, Get(m)) == old(NodeOf(disk, dirs, m, Get(m))))
                && ReadsKept(n) && (n in Sound() <==> n < 256)
                && (old(Coherent()) ==> (Coherent() <==> n < 256))
    {
      hide FileBytes; hide RefsOf; hide Except; hide Agree; hide DirBlocks; hide OnlyOf; hide FreeCount; hide FsOk;
      hide NodeOf; hide Slot; hide Encode; hide RecordIs; hide DotsSector; hide BitmapSector; hide FirstRun;
      hide HighClear; hide SlotsBut;
      LayoutGood(layout, reserved, inodeBits, dirs, Now());
      FilesBounded(layout, reserved, inodeBits, dirs, Now());
      DirAdded(layout, reserved, inodeBits, dirs, Now(), n);
      inodeBits := inodeBits[n := true];
      inodes := inodes[n := EMPTY_INODE];
      dirs := dirs + {n};
      assert inodes - {n} == old(inodes);
      EmptyDirBlocks(disk);
      MoreDirs(old(disk), old(dirs), n, old(inodes));
      ghost var v1 := Now();
      halted := GrowDirectory(n, 0, DotsSector(n, parent), 48);
      if halted { return; }
      ghost var v2 := Now();
      NodesKept(layout, reserved, inodeBits, dirs, v1, v2, n);
      NodeIsDir(disk, dirs, n, Get(n));
      ReadableSynced(old(disk), disk, layout, old(inodes), inodes, n);
      StoreNumbers();
    }

    /** The inode bitmap goes to disk; nothing else notices. */
    method StoreNumbers()
      requires Valid()
      modifies this`disk
      ensures Valid() && (Coherent() <==> old(Coherent())) && Sound() == old(Sound())
      ensures forall m :: m in inodes ==> NodeOf(disk, dirs, m, inodes[m]) == old(NodeOf(disk, dirs, m, inodes[m]))
    {
      hide SaysBits; hide FileBytes; hide RefsOf; hide Agree; hide DirBlocks; hide FsOk; hide NodeOf; hide BitmapSector;
      hide HighClear; hide SlotsBut; hide RecordIs;
      LayoutGood(layout, reserved, inodeBits, dirs, Now());
      FilesBounded(layout, reserved, inodeBits, dirs, Now());
      InodeBitmapSync();
      SameDataUp(old(disk), disk, layout);
      OkAfterSync(layout, reserved, inodeBits, dirs, old(Now()), disk);
      NodesSameData(layout, reserved, inodeBits, dirs, old(Now()), disk);
      AgreeSame(old(disk), disk, layout, inodes);
      TableKept(old(disk), disk, layout, MAX_INODES);
      ReadableSame(old(disk), disk, layout, inodes);
    }

    // -------------------------------------------------------------- whole runs

    /** Whether a call meets a failed ASSERT: no number or block left, a file of exactly the
        largest size, a read that reaches block 139, an unlink of an inode whose record says
        another number, the removal of the root, or of a directory of two entries with a
        second block. */
    ghost predicate Halts(op: Op)
      reads this
    {
      match op
      case Create => forall m :: 0 <= m < MAX_INODES ==> m in inodes
      case Append(n, data) =>
        && n in inodes && n !in dirs
        && (Get(n).size + |data| == MAX_SIZE
            || (Get(n).size + |data| < MAX_SIZE && FreeCount(blockBits) < Needed(Refs(n), Get(n).size, |data|)))
      case Fetch(n, from, count) =>
        && n in inodes && n !in dirs && from <= Get(n).size
        && var want := if count > Get(n).size - from then Get(n).size - from else count;
           (from + want) / 512 >= 139 && !(from == Get(n).size && count > 0)
      case MakeDir(_) => (forall m :: 0 <= m < MAX_INODES ==> m in inodes) || FreeCount(blockBits) == 0
      case Remove(n) => n in inodes && n !in dirs && DecodeNo(Slot(disk, layout.inodeTableLba, n)) != n
      case GrowDir(n, k, _, _) =>
        n in dirs && n in Sound() && k < DIRECT && Get(n).sectors[k] == 0 && FreeCount(blockBits) == 0
      case RemoveDir(n) =>
        && n in dirs && n in Sound()
        && (n == 0 || (Get(n).size == 48 && exists k :: 1 <= k < 13 && Get(n).sectors[k] != 0))
      case _ => false
    }

    /** Whether a call opens an inode and reads something else than what the inode is. An
        unlink checks the number it reads, the other calls do not. */
    ghost predicate Loses(op: Op)
      reads this
    {
      match op
      case Remove(n) =>
        n in inodes && n !in dirs && DecodeNo(Slot(disk, layout.inodeTableLba, n)) == n && n !in Sound()
      case Reopen(n) => n in inodes && n !in Sound()
      case StoreInDir(n, _, _, _) => n in dirs && n !in Sound()
      case GrowDir(n, _, _, _) => n in dirs && n !in Sound()
      case ShrinkDir(n, _, _) => n in dirs && n !in Sound()
      case RemoveDir(n) => n in dirs && n !in Sound()
      case _ => false
    }

    /** A completed call did to the store what it should and answered so. From an agreeing
        disk with small numbers, the disk agrees afterwards iff the numbers are still small. */
    twostate predicate Refined(op: Op, answer: Answer)
      reads this
    {
      && Valid() && Nodes() == Step(old(Nodes()), op) && answer == Reply(old(Nodes()), op)
      && (old(Coherent()) && Small(old(Nodes())) ==> (Coherent() <==> Small(Nodes())))
    }

    method DoCreate() returns (halted: bool, answer: Answer)
      requires Valid()
      modifies this`disk, this`inodes, this`inodeBits
      ensures halted <==> old(Halts(Create))
      ensures !halted ==>
                && Refined(Create, answer) && answer.Made? && answer.n < MAX_INODES && answer.n !in old(inodes)
                && inodes == old(inodes)[answer.n := EMPTY_INODE] && inodeBits == old(inodeBits)[answer.n := true]
                && (forall m :: 0 <= m < answer.n ==> m in old(inodes))
                && ReadsKept(answer.n) && (answer.n in Sound() <==> answer.n < 256)
                && (answer.n >= 256 && answer.n % 256 != 0 ==> answer.n % 256 !in Sound())
    {
      hide FsOk; hide FileBytes; hide RefsOf; hide Agree; hide NodeOf; hide Slot; hide Encode; hide SameData;
      hide LowestFree; hide Small; hide SlotsBut; hide HighClear; hide Readable; hide RecordIs;
      FilesBounded(layout, reserved, inodeBits, dirs, Now());
      NotRoot(layout, reserved, inodeBits, dirs, Now());
      var n: int;
      answer := NoFile;
      halted, n := FileCreate(true);
      if halted { return; }
      LowestFreeIs(old(Nodes()).Keys, 0, n);
      answer := Made(n);
      ReadableSynced(old(disk), disk, layout, old(inodes), inodes, n);
      NodesSameData(layout, reserved, old(inodeBits), dirs, old(Now()), disk);
      NodeIsFile(disk, dirs, n, Get(n));
      assert Nodes() == old(Nodes())[n := File([])];
      if Small(old(Nodes())) { SmallAdd(old(Nodes()), n, File([])); }
    }

    method DoAppend(n: nat, data: seq<Byte>) returns (halted: bool, answer: Answer)
      requires Valid() && n in inodes && n !in dirs
      modifies this`blockBits, this`owner, this`disk, this`inodes
      ensures halted <==> old(Halts(Append(n, data)))
      ensures !halted ==>
                && Refined(Append(n, data), answer) && n in inodes && inodes - {n} == old(inodes) - {n}
                && Except(owner, n) == old(Except(owner, n))
                && ReadsKept(n)
                && if old(Get(n)).size + |data| > MAX_SIZE then unchanged(this) else
                     && Get(n).size == old(Get(n)).size + |data| && Refs(n)[0] != 0
                     && FreeCount(blockBits)
                        == FreeCount(old(blockBits)) - Needed(old(Refs(n)), old(Get(n)).size, |data|)
    {
      hide FsOk; hide FileBytes; hide RefsOf; hide OnlyOf; hide Except; hide FreeCount; hide Needed;
      hide Agree; hide SlotsBut; hide HighClear; hide Readable; hide RecordIs;
      hide NodeOf; hide Slot; hide Encode;
      answer := NoFile;
      FilesBounded(layout, reserved, inodeBits, dirs, Now());
      NodeIsFile(disk, dirs, n, Get(n));
      var r: int, pos: Word;
      halted, r, pos := FileWrite(n, 0, data);
      if halted { return; }
      answer := Count(r);
      if old(Get(n)).size + |data| < MAX_SIZE {
        ReadableSynced(old(disk), disk, layout, old(inodes), inodes, n);
        NodesChanged(layout, reserved, inodeBits, dirs, old(Now()), Now(), n);
        NodeIsFile(disk, dirs, n, Get(n));
        assert old(Nodes()).Keys == Nodes().Keys;
      }
    }

    method DoFetch(n: nat, from: nat, count: nat) returns (halted: bool, answer: Answer)
      requires Valid() && n in inodes && n !in dirs && from <= inodes[n].size
      ensures halted <==> Halts(Fetch(n, from, count))
      ensures !halted ==> answer == Reply(Nodes(), Fetch(n, from, count))
    {
      hide FsOk; hide FileBytes; hide RefsOf;
      FilesBounded(layout, reserved, inodeBits, dirs, Now());
      var r: int, data: seq<Byte>, pos: Word;
      halted, r, data, pos := FileRead(n, from, count);
      answer := Data(r, data);
    }

    /** Unlink of a regular file, or the last step of `sys_rmdir`. */
    method DoRelease(n: nat) returns (halted: bool, lost: bool)
      requires Valid() && n in inodes && n != 0
      modifies this`blockBits, this`owner, this`disk, this`inodes, this`inodeBits, this`dirs
      ensures halted <==> DecodeNo(Slot(old(disk), layout.inodeTableLba, n)) != n
      ensures n >= 256 ==> halted
      ensures lost <==> !halted && n !in old(Sound())
      ensures halted || lost ==> unchanged(this)
      ensures !halted && !lost ==>
                && Valid() && Nodes() == old(Nodes()) - {n} && (old(Coherent()) ==> Coherent())
                && inodes == old(inodes) - {n} && dirs == old(dirs) - {n} && inodeBits == old(inodeBits)[n := false]
                && owner == old(Except(owner, n)) && Sound() == old(Sound()) - {n}
    {
      hide FsOk; hide FileBytes; hide RefsOf; hide Agree; hide NodeOf; hide SameData; hide Except; hide Slot;
      hide DecodeNo; hide Decode; hide SlotsBut;
      FilesBounded(layout, reserved, inodeBits, dirs, Now());
      ReadableSmall(disk, layout, inodes);
      ReadableIff(disk, layout, inodes, n);
      halted, lost := InodeRelease(n);
      if halted || lost { return; }
      ReadableLess(old(disk), disk, layout, old(inodes), n);
      NodesSameData(layout, reserved, old(inodeBits), old(dirs), old(Now()), disk);
      LessDirs(disk, old(dirs), n, inodes);
      assert Nodes() == old(Nodes()) - {n};
    }

    method DoMakeDir(parent: nat) returns (halted: bool, answer: Answer)
      requires Valid()
      modifies this
      ensures halted <==> old(Halts(MakeDir(parent)))
      ensures !halted ==> Refined(MakeDir(parent), answer)
    {
      hide FsOk; hide FileBytes; hide RefsOf; hide Agree; hide NodeOf; hide FreeCount; hide FirstRun; hide DotsSector;
      hide LowestFree; hide Small;
      answer := NoFile;
      var n: int;
      halted, n := MakeDirectory(parent);
      if halted { return; }
      LowestFreeIs(old(Nodes()).Keys, 0, n);
      answer := Made(n);
      assert Nodes() == old(Nodes())[n := Dir(48, map[0 := DotsSector(n, parent)])];
      if Small(old(Nodes())) { SmallAdd(old(Nodes()), n, Dir(48, map[0 := DotsSector(n, parent)])); }
    }

    method DoStoreInDir(n: nat, k: nat, content: Sector, size: Word) returns (answer: Answer)
      requires Valid() && n in dirs && k < DIRECT && inodes[n].sectors[k] != 0
      modifies this`disk, this`inodes
      ensures Refined(StoreInDir(n, k, content, size), answer) && ReadsKept(n) && (n < 256 ==> n in Sound())
      ensures inodes == old(inodes)[n := old(inodes)[n].(size := size)]
    {
      hide FsOk; hide FileBytes; hide RefsOf; hide OnlyOf; hide Except; hide Agree; hide NodeOf; hide DirBlocks;
      hide Slot; hide Encode; hide RecordIs; hide SlotsBut; hide HighClear;
      FilesBounded(layout, reserved, inodeBits, dirs, Now());
      BlockListed(disk, dirs, n, Get(n));
      CoherentIsBut(disk, layout, inodes, n);
      StoreDirectory(n, k, content, size);
      ReadableSynced(old(disk), disk, layout, old(inodes), inodes, n);
      NodesChanged(layout, reserved, inodeBits, dirs, old(Now()), Now(), n);
      NodeIsDir(disk, dirs, n, Get(n));
      assert old(Nodes()).Keys == Nodes().Keys;
      answer := Done;
    }

    method DoGrowDir(n: nat, k: nat, content: Sector, size: Word) returns (halted: bool, answer: Answer)
      requires Valid() && n in dirs && k < DIRECT && inodes[n].sectors[k] == 0
      modifies this`blockBits, this`owner, this`disk, this`inodes
      ensures halted <==> FreeCount(old(blockBits)) == 0
      ensures !halted ==>
                && Refined(GrowDir(n, k, content, size), answer) && inodes == old(inodes)[n := Get(n)]
                && Get(n).size == size
                && Get(n).sectors == old(Get(n)).sectors[k := Get(n).sectors[k]]
                && Get(n).sectors[k] - layout.dataStart == FirstRun(old(blockBits), 1) > 0
                && Except(owner, n) == old(Except(owner, n))
                && FreeCount(blockBits) == FreeCount(old(blockBits)) - 1
                && ReadsKept(n) && (n < 256 ==> n in Sound())
    {
      hide FsOk; hide FileBytes; hide RefsOf; hide OnlyOf; hide Except; hide Agree; hide NodeOf; hide DirBlocks;
      hide FreeCount; hide SlotsBut; hide HighClear; hide Readable; hide RecordIs; hide Slot; hide Encode;
      hide FirstRun;
      answer := Done;
      FilesBounded(layout, reserved, inodeBits, dirs, Now());
      BlockListed(disk, dirs, n, Get(n));
      CoherentIsBut(disk, layout, inodes, n);
      halted := GrowDirectory(n, k, content, size);
      if halted { return; }
      ReadableSynced(old(disk), disk, layout, old(inodes), inodes, n);
      NodesChanged(layout, reserved, inodeBits, dirs, old(Now()), Now(), n);
      NodeIsDir(disk, dirs, n, Get(n));
      assert old(Nodes()).Keys == Nodes().Keys;
    }

    method DoShrinkDir(n: nat, k: nat, size: Word) returns (answer: Answer)
      requires Valid() && n in dirs && 0 < k < DIRECT && inodes[n].sectors[k] != 0
      modifies this`blockBits, this`owner, this`disk, this`inodes
      ensures Refined(ShrinkDir(n, k, size), answer) && inodes == old(inodes)[n := Get(n)]
      ensures ReadsKept(n) && (n < 256 ==> n in Sound())
      ensures Get(n).size == size && Get(n).sectors == old(Get(n)).sectors[k := 0]
    {
      hide FsOk; hide FileBytes; hide RefsOf; hide OnlyOf; hide Except; hide Agree; hide NodeOf; hide DirBlocks;
      hide Slot; hide Encode; hide RecordIs; hide SlotsBut; hide HighClear;
      FilesBounded(layout, reserved, inodeBits, dirs, Now());
      BlockListed(disk, dirs, n, Get(n));
      CoherentIsBut(disk, layout, inodes, n);
      ShrinkDirectory(n, k, size);
      ReadableSynced(old(disk), disk, layout, old(inodes), inodes, n);
      NodesChanged(layout, reserved, inodeBits, dirs, old(Now()), Now(), n);
      NodeIsDir(disk, dirs, n, Get(n));
      assert old(Nodes()).Keys == Nodes().Keys;
      answer := Done;
    }

    method DoRemoveDir(n: nat) returns (halted: bool, answer: Answer)
      requires Valid() && n in dirs && n in Sound()
      modifies this`blockBits, this`owner, this`disk, this`inodes, this`inodeBits, this`dirs
      ensures halted <==> old(Halts(RemoveDir(n)))
      ensures !halted ==> Refined(RemoveDir(n), answer)
    {
      hide FsOk; hide FileBytes; hide RefsOf; hide Agree; hide NodeOf;
      NodeIsDir(disk, dirs, n, Get(n));
      halted, answer := n == 0, NotEmpty;
      if halted || inodes[n].size != 48 { return; }
      var k := 1;
      while k < 13
        invariant 1 <= k <= 13 && forall j :: 1 <= j < k ==> inodes[n].sectors[j] == 0
      {
        if inodes[n].sectors[k] != 0 { return true, NotEmpty; }
        k := k + 1;
      }
      var lost;
      halted, lost := DoRelease(n);
      answer := Done;
    }

    /** The last close of inode n, and the next open: what is in memory is what the record
        says. `lost` if that is not what was in memory before. The root is never closed. */
    method DoReopen(n: nat) returns (lost: bool, answer: Answer)
      requires Valid() && n in inodes
      modifies this`inodes
      ensures lost <==> n !in old(Sound())
      ensures unchanged(this)
      ensures !lost ==> Refined(Reopen(n), answer)
    {
      hide Slot; hide Decode; hide DecodeNo; hide FsOk; hide LoadSlot; hide NodeOf; hide Agree; hide HighClear;
      lost, answer := false, Done;
      if n == 0 { return; }
      LoadSlotIsSlot(disk, layout.inodeTableLba, n);
      var record := LoadSlot(disk, layout.inodeTableLba, n);
      lost := DecodeNo(record) != n || Decode(record) != inodes[n];
      if lost { return; }
      assert inodes[n := Decode(record)] == inodes;
      inodes := inodes[n := Decode(record)];
    }

    /** One call, on the store and on the disk. */
    method Do(op: Op) returns (halted: bool, lost: bool, answer: Answer)
      requires Valid()
      modifies this
      ensures halted <==> old(Halts(op))
      ensures lost <==> old(Loses(op))
      ensures lost ==> unchanged(this)
      ensures !halted && !lost ==> Refined(op, answer)
    {
      hide FsOk; hide FileBytes; hide RefsOf; hide Agree; hide LowestFree; hide DirBlocks; hide RecordIs;
      hide FreeCount; hide HighClear; hide Slot; hide DecodeNo;
      hide Needed; hide DotsSector;
      halted, lost, answer := false, false, NoFile;
      FilesBounded(layout, reserved, inodeBits, dirs, Now());
      NotRoot(layout, reserved, inodeBits, dirs, Now());
      match op
      case Create => halted, answer := DoCreate();
      case MakeDir(parent) => halted, answer := DoMakeDir(parent);
      case Append(n, data) => if n in inodes && n !in dirs { halted, answer := DoAppend(n, data); }
      case Fetch(n, from, count) =>
        if n in inodes && n !in dirs && from <= inodes[n].size { halted, answer := DoFetch(n, from, count); }
      case Remove(n) =>
        if n in inodes && n !in dirs {
          halted, lost := DoRelease(n);
          answer := Done;
        }
      case Reopen(n) => if n in inodes { lost, answer := DoReopen(n); }
      case _ => halted, lost, answer := DoDir(op);
    }

    /** Any run of calls. Unless one of them halts or finds a record lost, every answer and
        the final state are those of the store. From an agreeing disk the
        disk agrees at every moment exactly if no call of the run takes a number from 256 on;
        then no record is lost, and the files are what the run says also when every inode is
        read again from the disk. `trace` holds the state before each call and at the end. */
    method DoAll(ops: seq<Op>)
      returns (halted: bool, lost: bool, answers: seq<Answer>, ghost trace: seq<Moment>)
      requires Valid()
      modifies this
      ensures |answers| <= |ops| && (halted || lost <==> |answers| < |ops|)
      ensures |trace| == |answers| + 1 && trace[0] == Moment(old(Now()), old(dirs))
      ensures forall i :: 0 <= i < |answers| ==> answers[i] == Reply(After(old(Nodes()), ops[..i]), ops[i])
      ensures forall i :: 0 <= i < |trace| ==> trace[i].Nodes() == After(old(Nodes()), ops[..i])
      ensures forall i :: 0 <= i < |trace| ==> trace[i].Owned(layout, reserved)
      ensures !halted && !lost ==> Valid() && Nodes() == After(old(Nodes()), ops) && trace[|ops|] == Moment(Now(), dirs)
      ensures old(Coherent()) ==>
                ((forall i :: 0 <= i < |trace| ==> trace[i].Agrees(layout)) <==>
                    SmallRun(old(Nodes()), ops[..|answers|]))
      ensures old(Coherent()) && SmallRun(old(Nodes()), ops) ==> !lost
      ensures old(Coherent()) && SmallRun(old(Nodes()), ops) && !halted ==>
                Coherent() && NodesOnDisk() == After(old(Nodes()), ops)
    {
      hide FsOk; hide Own; hide AllRefs; hide Step; hide Reply; hide NodesOf; hide After; hide Halts; hide Agree;
      hide RecordIs;
      hide Small; hide SmallRun;
      halted, lost, answers := false, false, [];
      trace := [Moment(Now(), dirs)];
      OwnedNow(layout, reserved, inodeBits, dirs, Now());
      ghost var nodes := Nodes();
      AfterNone(nodes, ops);
      SmallStart(nodes, ops);
      if Coherent() { CoherentSmall(); }
      if SmallRun(nodes, ops) { SmallPrefix(nodes, ops, 0); }
      ghost var base := old(Coherent());
      var i := 0;
      while i < |ops|
        invariant 0 <= i <= |ops| && |answers| == i && |trace| == i + 1 && !halted && !lost
        invariant Valid() && trace[0] == Moment(old(Now()), old(dirs)) && trace[i] == Moment(Now(), dirs)
        invariant Nodes() == After(nodes, ops[..i])
        invariant forall k :: 0 <= k < i ==> answers[k] == Reply(After(nodes, ops[..k]), ops[k])
        invariant forall k :: 0 <= k <= i ==> trace[k].Nodes() == After(nodes, ops[..k])
        invariant forall k :: 0 <= k <= i ==> trace[k].Owned(layout, reserved)
        invariant base ==> (AllAgree(trace, layout) <==> SmallRun(nodes, ops[..i]))
        invariant base && SmallRun(nodes, ops[..i]) ==> Coherent() && Small(Nodes())
      {
        SmallNext(nodes, ops, i);
        if SmallRun(nodes, ops) { SmallPrefix(nodes, ops, i); }
        AfterNext(nodes, ops, i);
        ghost var before := trace;
        if base && SmallRun(nodes, ops[..i]) { NothingLost(ops[i]); }
        var answer;
        halted, lost, answer := Do(ops[i]);
        if halted || lost { return; }
        answers := answers + [answer];
        trace := trace + [Moment(Now(), dirs)];
        OwnedNow(layout, reserved, inodeBits, dirs, Now());
        AllAgreeNext(before, trace, layout);
        i := i + 1;
      }
      assert ops[..i] == ops;
      if Coherent() { OnDiskSame(disk, layout, dirs, inodes); }
    }

    /** While memory and disk agree, every open gives what it should. */
    lemma NothingLost(op: Op)
      requires Valid() && Coherent()
      ensures !Loses(op)
    {
      hide FsOk; hide HighClear; hide Slot; hide DecodeNo; hide Decode;
    }

    /** So all numbers are small then. */
    lemma CoherentSmall()
      requires Valid() && Coherent()
      ensures Small(Nodes())
    {
      hide FsOk; hide Slot; hide DecodeNo; hide Decode;
      FilesBounded(layout, reserved, inodeBits, dirs, Now());
    }

    /** From number 256 on no open gives what it should: an unlink halts, every other call that
        has to open the inode loses it. */
    lemma HighNumbersFail(n: nat, k: nat, content: Sector, size: Word)
      requires Valid() && n in inodes && n >= 256
      ensures Loses(Reopen(n))
      ensures n !in dirs ==> Halts(Remove(n))
      ensures n in dirs ==>
                && Loses(StoreInDir(n, k, content, size)) && Loses(GrowDir(n, k, content, size))
                && Loses(ShrinkDir(n, k, size)) && Loses(RemoveDir(n))
    {
      hide FsOk; hide Slot; hide DecodeNo; hide Decode;
      FilesBounded(layout, reserved, inodeBits, dirs, Now());
    }

    /** The calls that change a directory. The directory is opened first. */
    method DoDir(op: Op) returns (halted: bool, lost: bool, answer: Answer)
      requires Valid() && (op.StoreInDir? || op.GrowDir? || op.ShrinkDir? || op.RemoveDir?)
      modifies this
      ensures halted <==> old(Halts(op))
      ensures lost <==> old(Loses(op))
      ensures lost ==> unchanged(this)
      ensures !halted && !lost ==> Refined(op, answer)
    {
      hide FsOk; hide FileBytes; hide RefsOf; hide Agree; hide DirBlocks; hide FreeCount; hide NodeOf; hide Needed;
      hide HighClear; hide Readable; hide RecordIs; hide Slot; hide DecodeNo;
      halted, lost, answer := false, false, NoFile;
      var n := op.n;
      if n !in dirs {
        if n in inodes { BlockListed(disk, dirs, n, Get(n)); }
        return;
      }
      lost, answer := DoReopen(n);
      if lost { return; }
      answer := NoFile;
      BlockListed(disk, dirs, n, Get(n));
      match op
      case StoreInDir(n, k, content, size) =>
        if k < DIRECT && inodes[n].sectors[k] != 0 { answer := DoStoreInDir(n, k, content, size); }
      case GrowDir(n, k, content, size) =>
        if k < DIRECT && inodes[n].sectors[k] == 0 { halted, answer := DoGrowDir(n, k, content, size); }
      case ShrinkDir(n, k, size) =>
        if 0 < k < DIRECT && inodes[n].sectors[k] != 0 { answer := DoShrinkDir(n, k, size); }
      case RemoveDir(n) => halted, answer := DoRemoveDir(n);
    }
  }

  /** On a partition of 100000 sectors with a new file, a write of 71680 bytes halts. */
  method LargestFileHalts(data: seq<Byte>) returns (halted: bool)
    requires |data| == MAX_SIZE
    ensures halted
  {
    hide FsOk; hide Agree; hide NodesOf; hide FormattedBits; hide FreeCount; hide Needed; hide DotsSector;
    hide LowestFree;
    var fs := new FileSystem.Format(0, 100000);
    var answer;
    assert 1 !in fs.inodes;
    halted, answer := fs.DoCreate();
    halted, answer := fs.DoAppend(answer.n, data);
  }

  /** With 71200 bytes in the file the write succeeds, and reading the file halts. */
  method LongReadHalts(data: seq<Byte>) returns (written: int, halted: bool)
    requires |data| == 71200
    ensures written == 71200 && halted
  {
    hide FsOk; hide Agree; hide NodesOf; hide FormattedBits; hide FreeCount; hide DotsSector; hide HighClear;
    hide FileBytes; hide RefsOf; hide Slot; hide Encode; hide SlotsBut; hide SameData; hide OnlyOf; hide Except;
    var fs := new FileSystem.Format(0, 100000);
    var n: int, pos: Word, bytes: seq<Byte>;
    assert 1 !in fs.inodes;
    NewPartitionFree();
    halted, n := fs.FileCreate(true);
    halted, written, pos := fs.FileWrite(n, 0, data);
    var r: int;
    halted, r, bytes, pos := fs.FileRead(n, 0, |data|);
  }

  lemma NewPartitionFree()
    ensures FreeCount(FormattedBits(100000)) >= 141
  {
    FreeCountRange(FormattedBits(100000), 1, 142);
  }

  ghost predicate AllAgree(trace: seq<Moment>, layout: Layout) {
    forall i :: 0 <= i < |trace| ==> trace[i].Agrees(layout)
  }

  lemma OwnedNow(layout: Layout, reserved: set<nat>, inodeBits: seq<bool>, dirs: set<nat>, v: View)
    requires FsOk(layout, reserved, inodeBits, dirs, v)
    ensures Moment(v, dirs).Owned(layout, reserved)
  {
  }

  lemma AllAgreeNext(trace: seq<Moment>, trace': seq<Moment>, layout: Layout)
    requires |trace'| == |trace| + 1 && trace'[..|trace|] == trace
    ensures AllAgree(trace', layout) <==> AllAgree(trace, layout) && trace'[|trace|].Agrees(layout)
  {
    assert forall i :: 0 <= i < |trace| ==> trace'[i] == trace'[..|trace|][i];
  }

  /** Where memory and disk agree, reading everything again changes nothing. */
  lemma OnDiskSame(d: Disk, layout: Layout, dirs: set<nat>, inodes: map<nat, Inode>)
    requires Agree(d, layout, inodes)
    ensures (map n | n in inodes :: Decode(Slot(d, layout.inodeTableLba, n))) == inodes
  {
    hide Slot; hide Decode; hide DecodeNo;
    forall n | n in inodes ensures Decode(Slot(d, layout.inodeTableLba, n)) == inodes[n] {
      assert RecordIs(d, layout.inodeTableLba, n, inodes[n]);
    }
  }

  lemma NodeIsFile(d: Disk, dirs: set<nat>, n: nat, ino: Inode)
    requires n !in dirs
    ensures NodeOf(d, dirs, n, ino) == File(FileBytes(d, RefsOf(d, ino), ino.size))
  {
  }

  lemma LessDirs(d: Disk, dirs: set<nat>, n: nat, inodes: map<nat, Inode>)
    requires n !in inodes
    ensures forall m :: m in inodes ==> NodeOf(d, dirs - {n}, m, inodes[m]) == NodeOf(d, dirs, m, inodes[m])
  {
  }

  lemma CoherentIsBut(d: Disk, layout: Layout, inodes: map<nat, Inode>, n: nat)
    ensures Agree(d, layout, inodes) ==> Agree(d, layout, inodes - {n})
  {
  }

  /** Which blocks the node of an inode shows. */
  lemma BlockListed(d: Disk, dirs: set<nat>, n: nat, ino: Inode)
    ensures NodeOf(d, dirs, n, ino).Dir? <==> n in dirs
    ensures n in dirs ==>
              && NodeOf(d, dirs, n, ino) == Dir(ino.size, DirBlocks(d, ino))
              && forall k: nat :: k in DirBlocks(d, ino) <==> k < DIRECT && ino.sectors[k] != 0
  {
  }

  lemma SameDataUp(d: Disk, d': Disk, layout: Layout)
    requires layout.Valid() && SameData(d, d', layout.inodeTableLba)
    ensures SameData(d, d', layout.dataStart)
  {
  }

  lemma LayoutGood(layout: Layout, reserved: set<nat>, inodeBits: seq<bool>, dirs: set<nat>, v: View)
    requires FsOk(layout, reserved, inodeBits, dirs, v)
    ensures layout.Valid() && |v.blockBits| == layout.blocks && |inodeBits| == MAX_INODES
  {
  }

  lemma NodeIsDir(d: Disk, dirs: set<nat>, n: nat, ino: Inode)
    requires n in dirs
    ensures NodeOf(d, dirs, n, ino) == Dir(ino.size, DirBlocks(d, ino))
  {
  }

  lemma MoreDirs(d: Disk, dirs: set<nat>, n: nat, inodes: map<nat, Inode>)
    requires n !in inodes
    ensures forall m :: m in inodes ==> NodeOf(d, dirs + {n}, m, inodes[m]) == NodeOf(d, dirs, m, inodes[m])
  {
  }

  /** The number a bitmap scan gives is the lowest that is not live. */
  lemma NumberFree(inodeBits: seq<bool>, inodes: map<nat, Inode>)
    requires |inodeBits| == MAX_INODES && forall m :: 0 <= m < MAX_INODES ==> (inodeBits[m] <==> m in inodes)
    ensures var n := FirstRun(inodeBits, 1);
            if n == -1 then forall m :: 0 <= m < MAX_INODES ==> m in inodes
            else 0 <= n < MAX_INODES && n !in inodes && forall m :: 0 <= m < n ==> m in inodes
  {
    var n := FirstRun(inodeBits, 1);
    forall m | 0 <= m < MAX_INODES && (n == -1 || m < n) ensures m in inodes { assert !FreeRun(inodeBits, m, 1); }
    if n != -1 { assert FreeRun(inodeBits, n, 1); }
  }
}
