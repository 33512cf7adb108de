/** What a mounted partition means: a file's bytes through its direct and indirect
    blocks, and what each kind of sector write keeps of them. */
module FileViews {
  import opened Disks
  import opened Bitmaps
  import opened Inodes
  import opened Ownership
  import opened Stores

  const MAX_BLOCKS := 140

  datatype Layout = Layout(blockBitmapLba: nat, inodeBitmapLba: nat, inodeTableLba: nat, dataStart: nat, blocks: nat) {
    /** What `partition_format` leaves behind: the metadata below the data area. */
    ghost predicate Valid() {
      && blocks % 4096 == 0 && blocks > 0
      && blockBitmapLba + blocks / 4096 <= inodeBitmapLba < inodeTableLba
      && inodeTableLba + INODE_TABLE_SECTS <= dataStart
      && dataStart + blocks <= U32
    }
  }

  // ---------------------------------------------------------------- a file as a value

  /** The pointer of file block k: the table itself sits between the direct and the
      indirect blocks. */
  function Idx(k: nat): nat {
    if k < 12 then k else k + 1
  }

  function RefsOf(d: Disk, ino: Inode): (g: seq<Word>)
    ensures |g| == REFS
  {
    ino.sectors + Table(d, ino.sectors[12])
  }

  function Table(d: Disk, lba: Word): (t: seq<Word>)
    ensures |t| == 128
  {
    if lba == 0 then seq(128, _ => 0) else Words(Read(d, lba))
  }

  function ByteAt(d: Disk, g: seq<int>, i: nat): Byte
  {
    if Idx(i / 512) < |g| then Read(d, g[Idx(i / 512)])[i % 512] else 0
  }

  function FileBytes(d: Disk, g: seq<int>, size: nat): (s: seq<Byte>)
    ensures |s| == size
  {
    seq(size, (i: nat) requires i < size => ByteAt(d, g, i))
  }

  /** Exactly the first `cnt` blocks are there, and a table iff one is needed. */
  ghost predicate Shape(g: seq<int>, cnt: nat) {
    && |g| == REFS && cnt <= MAX_BLOCKS
    && (forall k :: 0 <= k < MAX_BLOCKS ==> (g[Idx(k)] != 0 <==> k < cnt))
    && (g[12] != 0 <==> cnt > 12)
  }

  /** `all` holds the addresses of blocks lo..hi. */
  ghost predicate Collected(all: seq<int>, g: seq<int>, lo: nat, hi: nat) {
    && |all| == MAX_BLOCKS && |g| == REFS && hi < MAX_BLOCKS
    && forall k :: lo <= k <= hi ==> all[k] == g[Idx(k)]
  }

  lemma TableOfBlocks(all: seq<int>, g: seq<int>)
    requires |all| == MAX_BLOCKS && |g| == REFS
    requires forall k :: 12 <= k < MAX_BLOCKS ==> all[k] == g[Idx(k)]
    ensures g[13..] == all[12..]
  {
  }

  lemma SameTable(g: seq<int>, g': seq<int>)
    requires |g| == |g'| == REFS
    requires forall k :: 12 <= k < MAX_BLOCKS ==> g[Idx(k)] == g'[Idx(k)]
    ensures g[13..] == g'[13..]
  {
    forall k | 0 <= k < 128 ensures g[13..][k] == g'[13..][k] {
      assert g[13..][k] == g[Idx(k + 12)];
    }
  }

  function BlockCount(g: seq<int>, size: nat): nat
    requires |g| == REFS
  {
    if g[0] == 0 then 0 else size / 512 + 1
  }

  /** A file that was written owns exactly blocks 0..size/512. */
  ghost predicate FileOk(g: seq<int>, size: nat) {
    && |g| == REFS && size < MAX_SIZE
    && (g[0] == 0 ==> size == 0)
    && Shape(g, BlockCount(g, size))
  }

  /** The sectors from `base` on are the same. */
  ghost predicate SameData(d: Disk, d': Disk, base: nat) {
    forall lba :: lba >= base ==> Read(d', lba) == Read(d, lba)
  }

  lemma SameDataTrans(d: Disk, d': Disk, d'': Disk, base: nat)
    requires SameData(d, d', base) && SameData(d', d'', base)
    ensures SameData(d, d'', base)
  {
  }

  /** The sectors from `base` on are the same, but for `b`. */
  ghost predicate SameBut(d: Disk, d': Disk, base: nat, b: int) {
    forall lba :: lba >= base && lba != b ==> Read(d', lba) == Read(d, lba)
  }

  /** Writing a chunk into the block at the end of the file appends it. */
  lemma AppendChunk(d: Disk, g: seq<int>, size: nat, buf: Sector, chunk: seq<Byte>)
    requires |g| == REFS && size < MAX_SIZE && size % 512 + |chunk| <= 512
    requires forall k :: 0 <= k < size / 512 ==> g[Idx(k)] != g[Idx(size / 512)]
    requires buf[..size % 512] == Read(d, g[Idx(size / 512)])[..size % 512]
    ensures var d' := d[g[Idx(size / 512)] := Splice(buf, size % 512, chunk)];
            FileBytes(d', g, size + |chunk|) == FileBytes(d, g, size) + chunk
  {
    var b := g[Idx(size / 512)];
    var d' := d[b := Splice(buf, size % 512, chunk)];
    forall i: nat | i < size + |chunk|
      ensures ByteAt(d', g, i) == (FileBytes(d, g, size) + chunk)[i]
    {
      if i / 512 == size / 512 && i < size {
        assert buf[..size % 512][i % 512] == buf[i % 512];
      }
    }
  }

  // ---------------------------------------------------------------- bitmap sectors

  /** Low bits first. */
  function Pack(bits: seq<bool>): (x: nat)
    requires |bits| <= 8
    ensures x < [1, 2, 4, 8, 16, 32, 64, 128, 256][|bits|]
  {
    if bits == [] then 0 else (if bits[0] then 1 else 0) + 2 * Pack(bits[1..])
  }

  function BitOf(x: nat, j: nat): bool {
    if j == 0 then x % 2 == 1 else BitOf(x / 2, j - 1)
  }

  lemma {:induction false} PackedBit(bits: seq<bool>, j: nat)
    requires j < |bits| <= 8
    ensures BitOf(Pack(bits), j) == bits[j]
  {
    if j > 0 { PackedBit(bits[1..], j - 1); }
  }

  function BitmapSector(bits: seq<bool>, k: nat): Sector
    requires 4096 * (k + 1) <= |bits|
  {
    seq(512, (i: nat) requires i < 512 => Pack(bits[4096 * k + 8 * i..4096 * k + 8 * i + 8]) as Byte)
  }

  /** The sector says these bits, from bit 4096 k on. */
  ghost predicate SaysBits(s: Sector, bits: seq<bool>, k: nat)
    requires 4096 * (k + 1) <= |bits|
  {
    forall i: nat :: i < 4096 ==> BitOf(s[i / 8] as nat, i % 8) == bits[4096 * k + i]
  }

  lemma SectorBits(bits: seq<bool>, k: nat)
    requires 4096 * (k + 1) <= |bits|
    ensures SaysBits(BitmapSector(bits, k), bits, k)
  {
    hide Pack; hide BitOf;
    var s := BitmapSector(bits, k);
    forall i: nat | i < 4096 ensures BitOf(s[i / 8] as nat, i % 8) == bits[4096 * k + i] {
      PackedBit(bits[4096 * k + 8 * (i / 8)..4096 * k + 8 * (i / 8) + 8], i % 8);
    }
  }

  // ---------------------------------------------------------------- the mounted partition

  ghost function AllRefs(d: Disk, inodes: map<nat, Inode>): map<nat, seq<int>> {
    map n | n in inodes :: RefsOf(d, inodes[n])
  }

  lemma AllRefsAt(d: Disk, inodes: map<nat, Inode>, n: nat)
    requires n in inodes
    ensures n in AllRefs(d, inodes) && AllRefs(d, inodes)[n] == RefsOf(d, inodes[n])
  {
  }

  /** The pointers do not depend on the size. */
  lemma RefsOfSize(d: Disk, ino: Inode, ino': Inode)
    requires ino.sectors == ino'.sectors
    ensures RefsOf(d, ino) == RefsOf(d, ino')
  {
  }

  lemma AllRefsUpdate(d: Disk, inodes: map<nat, Inode>, n: nat, ino: Inode)
    requires n in inodes && RefsOf(d, ino) == RefsOf(d, inodes[n])
    ensures AllRefs(d, inodes[n := ino]) == AllRefs(d, inodes)
  {
  }

  /** The owners other than inode n. */
  ghost function Except(owner: Owner, n: nat): Owner {
    map b | b in owner && owner[b].0 != n :: owner[b]
  }

  lemma ExceptUpdate(owner: Owner, b: int, n: nat, i: nat)
    requires b !in owner
    ensures Except(owner[b := (n, i)], n) == Except(owner, n)
  {
  }

  lemma TablesDiffer(refs: map<nat, seq<int>>, bits: seq<bool>, owner: Owner, reserved: set<nat>, base: nat,
                     n: nat, m: nat)
    requires Own(refs, bits, owner, reserved, base) && n in refs && m in refs && m != n
    ensures |refs[n]| == |refs[m]| == REFS
    ensures refs[m][12] == 0 || (refs[m][12] >= base && refs[m][12] != refs[n][12])
  {
  }

  /** The pointers of all inodes after one of them grew: a table belongs to one
      inode only, so storing it leaves the others alone. */
  lemma RefsAfter(d: Disk, d': Disk, inodes: map<nat, Inode>, n: nat, ino: Inode, g: seq<int>,
                  bits: seq<bool>, owner: Owner, reserved: set<nat>, base: nat, lo: nat)
    requires lo <= base
    requires n in inodes && |g| == REFS
    requires Own(AllRefs(d, inodes)[n := g], bits, owner, reserved, base)
    requires SameBut(d, d', lo, g[12])
    requires ino.sectors == g[..13] && Table(d', ino.sectors[12]) == g[13..]
    ensures AllRefs(d', inodes[n := ino]) == AllRefs(d, inodes)[n := g]
  {
    hide Own; hide RefsOf;
    var refs: map<nat, seq<int>> := AllRefs(d, inodes)[n := g];
    RefsOfParts(d', ino, g);
    forall m | m in inodes && m != n ensures RefsOf(d', inodes[m]) == RefsOf(d, inodes[m]) {
      TablesDiffer(refs, bits, owner, reserved, base, n, m);
      RefsOther(d, d', inodes[m], lo, g[12]);
    }
  }

  lemma RefsOfParts(d: Disk, ino: Inode, g: seq<int>)
    requires |g| == REFS && ino.sectors == g[..13] && Table(d, ino.sectors[12]) == g[13..]
    ensures RefsOf(d, ino) == g
  {
  }

  lemma RefsOther(d: Disk, d': Disk, ino: Inode, base: nat, b: int)
    requires SameBut(d, d', base, b)
    requires RefsOf(d, ino)[12] == 0 || (RefsOf(d, ino)[12] >= base && RefsOf(d, ino)[12] != b)
    ensures RefsOf(d', ino) == RefsOf(d, ino)
  {
  }

  /** Growing a file keeps its bytes: its data blocks are not its table. */
  lemma GrownBytes(d: Disk, d': Disk, refs: map<nat, seq<int>>, n: nat, g: seq<int>, size: nat,
                   bits: seq<bool>, owner: Owner, reserved: set<nat>, base: nat, lo: nat)
    requires lo <= base
    requires Own(refs, bits, owner, reserved, base) && n in refs
    requires FileOk(g, size) && SameBut(d, d', lo, refs[n][12])
    requires g[0] != 0 ==> forall k :: 0 <= k <= size / 512 ==> refs[n][Idx(k)] == g[Idx(k)]
    ensures FileBytes(d', refs[n], size) == FileBytes(d, g, size)
  {
  }

  /** Storing a data block moves no pointer: it is nobody's table. */
  lemma RefsKept(d: Disk, d': Disk, inodes: map<nat, Inode>, n: nat, i: nat,
                 bits: seq<bool>, owner: Owner, reserved: set<nat>, base: nat, lo: nat)
    requires lo <= base
    requires Own(AllRefs(d, inodes), bits, owner, reserved, base)
    requires n in inodes && i < REFS && i != 12 && RefsOf(d, inodes[n])[i] != 0
    requires SameBut(d, d', lo, RefsOf(d, inodes[n])[i])
    ensures AllRefs(d', inodes) == AllRefs(d, inodes)
  {
    hide RefsOf;
    var b := RefsOf(d, inodes[n])[i];
    assert AllRefs(d, inodes)[n][i] == b && owner[b] == (n, i);
    forall m | m in inodes ensures RefsOf(d', inodes[m]) == RefsOf(d, inodes[m]) {
      var t := AllRefs(d, inodes)[m][12];
      assert t != 0 ==> owner[t] == (m, 12);
      RefsOther(d, d', inodes[m], lo, b);
    }
  }

  /** From the data area on, only sectors of inode n changed. */
  ghost predicate OnlyOf(d: Disk, d': Disk, base: nat, owner: Owner, n: nat) {
    forall lba :: lba >= base && !(lba in owner && owner[lba].0 == n) ==> Read(d', lba) == Read(d, lba)
  }

  lemma OnlyOfStep(d: Disk, d': Disk, d'': Disk, base: nat, owner: Owner, n: nat, b: int)
    requires OnlyOf(d, d', base, owner, n) && SameBut(d', d'', base, b)
    requires b in owner && owner[b].0 == n
    ensures OnlyOf(d, d'', base, owner, n)
  {
  }

  /** What Own says of one pointer, and that a file's blocks are distinct. */
  lemma PointerOwned(refs: map<nat, seq<int>>, bits: seq<bool>, owner: Owner, reserved: set<nat>, base: nat,
                     n: nat, i: nat)
    requires Own(refs, bits, owner, reserved, base) && n in refs && i < REFS
    ensures |refs[n]| == REFS
    ensures refs[n][i] != 0 ==>
              && refs[n][i] in owner && owner[refs[n][i]] == (n, i)
              && base <= refs[n][i] < base + |bits|
              && forall j :: 0 <= j < REFS && j != i ==> refs[n][j] != refs[n][i]
  {
  }

  /** How much one turn of a data loop moves: up to the end of the sector. */
  function ChunkSize(at: nat, left: nat): (chunk: nat)
    ensures chunk <= left && at % 512 + chunk <= 512 && (left > 0 ==> chunk > 0)
    ensures chunk == left || (at + chunk) % 512 == 0
  {
    if left < 512 - at % 512 then left else 512 - at % 512
  }

  /** What one turn of the read loop copies. */
  lemma ReadChunk(d: Disk, g: seq<int>, size: nat, pos: nat, chunk: nat)
    requires |g| == REFS && pos + chunk <= size <= MAX_SIZE && pos % 512 + chunk <= 512 && pos < MAX_SIZE
    ensures FileBytes(d, g, size)[pos..pos + chunk] == Read(d, g[Idx(pos / 512)])[pos % 512..pos % 512 + chunk]
  {
    var slice := FileBytes(d, g, size)[pos..pos + chunk];
    var part := Read(d, g[Idx(pos / 512)])[pos % 512..pos % 512 + chunk];
    forall i | 0 <= i < |slice| ensures slice[i] == part[i] {
      assert FileBytes(d, g, size)[pos + i] == ByteAt(d, g, pos + i);
      assert (pos + i) / 512 == pos / 512 && (pos + i) % 512 == pos % 512 + i;
    }
  }

  /** The position is one before the size, modulo 2^32. */
  predicate PosAt(pos: Word, size: nat) {
    pos == if size == 0 then U32 - 1 else size - 1
  }

  lemma PosStart(size: nat)
    requires size < U32
    ensures PosAt((size - 1) % U32, size)
  {
  }

  function Advance(pos: Word, chunk: nat): Word {
    (pos + chunk) % U32
  }

  lemma PosStep(pos: Word, size: nat, chunk: nat)
    requires PosAt(pos, size) && size + chunk < U32
    ensures PosAt(Advance(pos, chunk), size + chunk)
  {
  }

  lemma PosIs(pos: Word, size: nat)
    requires PosAt(pos, size)
    ensures pos == if size == 0 then U32 - 1 else size - 1
  {
  }

  /** One chunk: `s` is what the buffer held before the chunk was copied into it. */
  lemma ChunkStep(d0: Disk, d: Disk, d': Disk, inodes: map<nat, Inode>, n: nat, size: nat, s: Sector, piece: seq<Byte>,
                  bits: seq<bool>, owner: Owner, reserved: set<nat>, base: nat, lo: nat)
    requires lo <= base
    requires Own(AllRefs(d, inodes), bits, owner, reserved, base) && n in inodes
    requires size < MAX_SIZE && size % 512 + |piece| <= 512 && RefsOf(d, inodes[n])[Idx(size / 512)] != 0
    requires s[..size % 512] == Read(d, RefsOf(d, inodes[n])[Idx(size / 512)])[..size % 512]
    requires d' == d[RefsOf(d, inodes[n])[Idx(size / 512)] := Splice(s, size % 512, piece)]
    requires OnlyOf(d0, d, lo, owner, n)
    ensures AllRefs(d', inodes) == AllRefs(d, inodes) && RefsOf(d', inodes[n]) == RefsOf(d, inodes[n])
    ensures FileBytes(d', RefsOf(d, inodes[n]), size + |piece|) == FileBytes(d, RefsOf(d, inodes[n]), size) + piece
    ensures OnlyOf(d0, d', lo, owner, n)
  {
    hide Own; hide AllRefs; hide RefsOf; hide FileBytes;
    var k := size / 512;
    var g: seq<int> := RefsOf(d, inodes[n]);
    AllRefsAt(d, inodes, n);
    PointerOwned(AllRefs(d, inodes), bits, owner, reserved, base, n, Idx(k));
    AppendChunk(d, g, size, s, piece);
    RefsKept(d, d', inodes, n, Idx(k), bits, owner, reserved, base, lo);
    AllRefsAt(d', inodes, n);
    OnlyOfStep(d0, d, d', lo, owner, n, g[Idx(k)]);
  }

  /** A disk whose data area is the same shows the same pointers. */
  lemma RefsSameData(d: Disk, d': Disk, inodes: map<nat, Inode>,
                     bits: seq<bool>, owner: Owner, reserved: set<nat>, base: nat)
    requires Own(AllRefs(d, inodes), bits, owner, reserved, base) && SameData(d, d', base)
    ensures AllRefs(d', inodes) == AllRefs(d, inodes)
  {
    hide RefsOf;
    forall m | m in inodes ensures RefsOf(d', inodes[m]) == RefsOf(d, inodes[m]) {
      var t := AllRefs(d, inodes)[m][12];
      assert t != 0 ==> t in owner;
      RefsOther(d, d', inodes[m], base, 0);
    }
  }

  /** The bytes of a file survive whatever happens to other inodes' sectors. */
  lemma OtherBytes(d: Disk, d': Disk, refs: map<nat, seq<int>>, n: nat, m: nat, size: nat,
                   bits: seq<bool>, owner: Owner, reserved: set<nat>, base: nat)
    requires Own(refs, bits, owner, reserved, base) && m in refs && m != n
    requires OnlyOf(d, d', base, owner, n) && FileOk(refs[m], size)
    ensures FileBytes(d', refs[m], size) == FileBytes(d, refs[m], size)
  {
  }

  /** A file's own bytes survive a change below the data area. */
  lemma OwnBytes(d: Disk, d': Disk, refs: map<nat, seq<int>>, n: nat, size: nat,
                 bits: seq<bool>, owner: Owner, reserved: set<nat>, base: nat)
    requires Own(refs, bits, owner, reserved, base) && n in refs
    requires SameData(d, d', base) && FileOk(refs[n], size)
    ensures FileBytes(d', refs[n], size) == FileBytes(d, refs[n], size)
  {
  }

  lemma OnlyOfCompose(d0: Disk, d1: Disk, d2: Disk, d3: Disk, lo: nat, base: nat, owner: Owner, n: nat, b: int)
    requires 0 < lo <= base && SameBut(d0, d1, lo, b) && (b == 0 || (b in owner && owner[b].0 == n))
    requires OnlyOf(d1, d2, lo, owner, n) && SameData(d2, d3, base)
    ensures OnlyOf(d0, d3, base, owner, n)
  {
  }

  lemma ExceptRemove(owner: Owner, b: int, n: nat)
    requires b in owner && owner[b].0 == n
    ensures Except(owner - {b}, n) == Except(owner, n)
  {
  }

  /** Inode n points to nothing any more, so it owns nothing. */
  lemma OwnsNothing(refs: map<nat, seq<int>>, bits: seq<bool>, owner: Owner, reserved: set<nat>, base: nat, n: nat)
    requires Own(refs, bits, owner, reserved, base)
    requires n in refs && forall i :: 0 <= i < REFS ==> refs[n][i] == 0
    ensures owner == Except(owner, n)
  {
    forall b | b in owner ensures owner[b].0 != n {
      assert refs[owner[b].0][owner[b].1] == b;
    }
  }

  /** Every pointer is a file block's pointer or the table's. */
  lemma AllPointersClear(g: seq<int>)
    requires |g| == REFS && g[12] == 0 && forall k :: 0 <= k < MAX_BLOCKS ==> g[Idx(k)] == 0
    ensures forall i :: 0 <= i < REFS ==> g[i] == 0
  {
    forall i | 0 <= i < REFS ensures g[i] == 0 {
      if i > 12 { assert g[Idx(i - 1)] == 0; } else if i < 12 { assert g[Idx(i)] == 0; }
    }
  }

  /** Dropping an inode that points to nothing keeps the partition good. */
  lemma OkAfterDrop(layout: Layout, reserved: set<nat>, inodeBits: seq<bool>, dirs: set<nat>, v: View, v': View,
                    n: nat, g: seq<int>)
    requires FsOk(layout, reserved, inodeBits, dirs, v) && n in v.inodes && n != 0
    requires |v'.blockBits| == layout.blocks && v'.inodes == v.inodes - {n}
    requires SameData(v.disk, v'.disk, layout.dataStart)
    requires |g| == REFS && forall i :: 0 <= i < REFS ==> g[i] == 0
    requires Own(AllRefs(v.disk, v.inodes)[n := g], v'.blockBits, v'.owner, reserved, layout.dataStart)
    ensures FsOk(layout, reserved, inodeBits[n := false], dirs - {n}, v')
    ensures AllRefs(v'.disk, v'.inodes) == AllRefs(v.disk, v.inodes) - {n}
  {
    hide Own; hide RefsOf; hide FileOk;
    RefsSameData(v.disk, v'.disk, v.inodes, v.blockBits, v.owner, reserved, layout.dataStart);
    forall m | m in v'.inodes ensures RefsOf(v'.disk, v'.inodes[m]) == RefsOf(v.disk, v.inodes[m]) {
      assert AllRefs(v'.disk, v.inodes)[m] == AllRefs(v.disk, v.inodes)[m];
    }
    DropInode(AllRefs(v.disk, v.inodes)[n := g], v'.blockBits, v'.owner, reserved, layout.dataStart, n);
    assert AllRefs(v.disk, v.inodes)[n := g] - {n} == AllRefs(v'.disk, v'.inodes);
  }

  /** A new inode points to nothing. */
  lemma OkAfterAdd(layout: Layout, reserved: set<nat>, inodeBits: seq<bool>, dirs: set<nat>, v: View, d: Disk, n: nat)
    requires FsOk(layout, reserved, inodeBits, dirs, v) && n !in v.inodes && n !in dirs && n < MAX_INODES
    requires SameData(v.disk, d, layout.dataStart)
    ensures FsOk(layout, reserved, inodeBits[n := true], dirs, v.(disk := d, inodes := v.inodes[n := EMPTY_INODE]))
    ensures Bytes(v.(disk := d, inodes := v.inodes[n := EMPTY_INODE]), n) == []
    ensures forall m :: m in v.inodes && m !in dirs ==>
              Bytes(v.(disk := d, inodes := v.inodes[n := EMPTY_INODE]), m) == Bytes(v, m)
  {
    hide Own; hide FileBytes; hide RefsOf; hide FileOk;
    OkAfterSync(layout, reserved, inodeBits, dirs, v, d);
    var g: seq<int> := RefsOf(d, EMPTY_INODE);
    EmptyRefs(d);
    AddInode(AllRefs(d, v.inodes), v.blockBits, v.owner, reserved, layout.dataStart, n, g);
    assert AllRefs(d, v.inodes)[n := g] == AllRefs(d, v.inodes[n := EMPTY_INODE]);
  }

  lemma EmptyRefs(d: Disk)
    ensures forall i :: 0 <= i < REFS ==> RefsOf(d, EMPTY_INODE)[i] == 0
    ensures FileOk(RefsOf(d, EMPTY_INODE), 0)
  {
  }

  lemma RefsDirect(d: Disk, ino: Inode, i: nat)
    requires i < 13
    ensures RefsOf(d, ino)[i] == ino.sectors[i]
  {
  }

  /** The root directory's block is bit 0, so no allocation ever returns it. */
  lemma RootBitSet(refs: map<nat, seq<int>>, bits: seq<bool>, owner: Owner, reserved: set<nat>, base: nat)
    requires Own(refs, bits, owner, reserved, base) && 0 in refs && |refs[0]| == REFS && refs[0][0] == base
    ensures |bits| > 0 && bits[0] && FirstRun(bits, 1) != 0
  {
  }

  /** The pointers of all inodes after a direct pointer of a directory changed. */
  lemma DirRefsAfter(d: Disk, d': Disk, inodes: map<nat, Inode>, n: nat, k: nat, b: Word,
                     bits: seq<bool>, owner: Owner, reserved: set<nat>, base: nat)
    requires n in inodes && k < 12 && inodes[n].sectors[12] == 0
    requires Own(AllRefs(d, inodes), bits, owner, reserved, base) && SameData(d, d', base)
    ensures var ino := inodes[n].(sectors := inodes[n].sectors[k := b]);
            && RefsOf(d', ino) == RefsOf(d, inodes[n])[k := b]
            && AllRefs(d', inodes[n := ino]) == AllRefs(d, inodes)[n := RefsOf(d, inodes[n])[k := b]]
  {
    hide Own; hide Words;
    var ino: Inode := inodes[n].(sectors := inodes[n].sectors[k := b]);
    RefsSameData(d, d', inodes, bits, owner, reserved, base);
    assert RefsOf(d', ino) == RefsOf(d, inodes[n])[k := b];
    forall m | m in inodes && m != n ensures RefsOf(d', inodes[m]) == RefsOf(d, inodes[m]) {
      assert AllRefs(d', inodes)[m] == AllRefs(d, inodes)[m];
    }
  }

  /** How many blocks appending `count` bytes takes. */
  function Needed(g: seq<int>, size: nat, count: nat): nat
  {
    Cost(|g| == REFS && g[0] == 0, size, count)
  }

  /** The same, where `bare` is whether the file has no block yet. */
  function Cost(bare: bool, size: nat, count: nat): nat
  {
    var has, will := size / 512 + 1, (size + count) / 512 + 1;
    (if bare then 1 else 0) + (will - has) + (if has <= 12 < will then 1 else 0)
  }

  /** Whether one of these writes in a row halts, for a file of this size with this many free
      blocks; `bare` is whether it has no block yet. A write past the largest size returns -1. */
  predicate WritesHalt(bare: bool, size: nat, free: int, pieces: seq<seq<Byte>>)
    decreases |pieces|
  {
    if pieces == [] then false
    else if size + |pieces[0]| > MAX_SIZE then WritesHalt(bare, size, free, pieces[1..])
    else
      || size + |pieces[0]| == MAX_SIZE
      || free < Cost(bare, size, |pieces[0]|)
      || WritesHalt(false, size + |pieces[0]|, free - Cost(bare, size, |pieces[0]|), pieces[1..])
  }

  lemma WritesNone(pieces: seq<seq<Byte>>)
    ensures pieces[0..] == pieces && forall bare, size, free :: !WritesHalt(bare, size, free, pieces[|pieces|..])
  {
  }

  lemma WritesNext(bare: bool, size: nat, free: int, pieces: seq<seq<Byte>>, i: nat)
    requires i < |pieces|
    ensures WritesHalt(bare, size, free, pieces[i..]) <==>
              if size + |pieces[i]| > MAX_SIZE then WritesHalt(bare, size, free, pieces[i + 1..])
              else
                || size + |pieces[i]| == MAX_SIZE || free < Cost(bare, size, |pieces[i]|)
                || WritesHalt(false, size + |pieces[i]|, free - Cost(bare, size, |pieces[i]|), pieces[i + 1..])
  {
    assert pieces[i..][0] == pieces[i] && pieces[i..][1..] == pieces[i + 1..];
  }

  function Total(pieces: seq<seq<Byte>>): nat {
    if pieces == [] then 0 else |pieces[0]| + Total(pieces[1..])
  }

  /** Below the largest size the writes halt exactly if there are too few blocks for all of
      them at once. */
  lemma {:induction false} WritesHaltTotal(bare: bool, size: nat, free: int, pieces: seq<seq<Byte>>)
    requires pieces != [] && size + Total(pieces) < MAX_SIZE
    ensures WritesHalt(bare, size, free, pieces) <==> free < Cost(bare, size, Total(pieces))
    decreases |pieces|
  {
    var first := |pieces[0]|;
    if |pieces| > 1 && free >= Cost(bare, size, first) {
      WritesHaltTotal(false, size + first, free - Cost(bare, size, first), pieces[1..]);
    }
  }

  /** The block the next byte goes to is there and was collected. */
  lemma BlockReady(all: seq<int>, g: seq<int>, lo: nat, hi: nat, k: nat)
    requires Shape(g, hi + 1) && Collected(all, g, lo, hi) && lo <= k <= hi
    ensures |all| == MAX_BLOCKS && k < MAX_BLOCKS && all[k] == g[Idx(k)] != 0
  {
  }

  lemma GoodShape(g: seq<int>, size: nat)
    requires Shape(g, size / 512 + 1) && size < MAX_SIZE
    ensures FileOk(g, size)
  {
    assert g[Idx(0)] != 0;
  }

  lemma SyncSameData(d: Disk, layout: Layout, n: Word, ino: Inode)
    requires layout.Valid() && n < MAX_INODES
    ensures SameData(d, SyncInode(d, layout.inodeTableLba, n, ino), layout.dataStart)
  {
  }

  lemma ClearSlotSameData(d: Disk, layout: Layout, n: nat)
    requires layout.Valid() && n < MAX_INODES
    ensures SameData(d, StoreSlot(d, layout.inodeTableLba, n, Zeros(76)), layout.dataStart)
  {
  }

  /** The changing part of a mounted partition. */
  datatype View = View(disk: Disk, blockBits: seq<bool>, inodes: map<nat, Inode>, owner: Owner)

  ghost predicate FsOk(layout: Layout, reserved: set<nat>, inodeBits: seq<bool>, dirs: set<nat>, v: View) {
    && layout.Valid()
    && |v.blockBits| == layout.blocks && |inodeBits| == MAX_INODES
    && (forall n :: n in v.inodes ==> n < MAX_INODES)
    && (forall n :: 0 <= n < MAX_INODES ==> (inodeBits[n] <==> n in v.inodes))
    && 0 in v.inodes && 0 in dirs && v.inodes[0].sectors[0] == layout.dataStart
    && Own(AllRefs(v.disk, v.inodes), v.blockBits, v.owner, reserved, layout.dataStart)
    && (forall n :: n in v.inodes && n !in dirs ==> FileOk(RefsOf(v.disk, v.inodes[n]), v.inodes[n].size))
    && (forall n :: n in v.inodes && n in dirs ==> v.inodes[n].sectors[12] == 0)
  }

  ghost function Bytes(v: View, n: nat): seq<Byte>
    requires n in v.inodes
  {
    FileBytes(v.disk, RefsOf(v.disk, v.inodes[n]), v.inodes[n].size)
  }

  /** What a single inode has to satisfy. */
  ghost predicate InodeOk(layout: Layout, dirs: set<nat>, n: nat, d: Disk, ino: Inode) {
    && (n !in dirs ==> FileOk(RefsOf(d, ino), ino.size))
    && (n in dirs ==> ino.sectors[12] == 0)
    && (n == 0 ==> ino.sectors[0] == layout.dataStart)
  }

  /** One inode changed, its pointers with it, and it is good again. */
  lemma OkAfterChange(layout: Layout, reserved: set<nat>, inodeBits: seq<bool>, dirs: set<nat>, v: View, v': View,
                      n: nat, ino: Inode)
    requires FsOk(layout, reserved, inodeBits, dirs, v) && n in v.inodes
    requires |v'.blockBits| == layout.blocks && v'.inodes == v.inodes[n := ino]
    requires Own(AllRefs(v'.disk, v'.inodes), v'.blockBits, v'.owner, reserved, layout.dataStart)
    requires AllRefs(v'.disk, v'.inodes) == AllRefs(v.disk, v.inodes)[n := RefsOf(v'.disk, ino)]
    requires InodeOk(layout, dirs, n, v'.disk, ino)
    ensures FsOk(layout, reserved, inodeBits, dirs, v')
  {
    hide Own; hide RefsOf; hide FileOk;
    forall m | m in v'.inodes && m != n ensures RefsOf(v'.disk, v'.inodes[m]) == RefsOf(v.disk, v.inodes[m]) {
      assert AllRefs(v'.disk, v'.inodes)[m] == AllRefs(v.disk, v.inodes)[m];
    }
  }

  /** Storing metadata keeps the partition good and every file's bytes. */
  lemma OkAfterSync(layout: Layout, reserved: set<nat>, inodeBits: seq<bool>, dirs: set<nat>, v: View, d: Disk)
    requires FsOk(layout, reserved, inodeBits, dirs, v) && SameData(v.disk, d, layout.dataStart)
    ensures FsOk(layout, reserved, inodeBits, dirs, v.(disk := d))
    ensures AllRefs(d, v.inodes) == AllRefs(v.disk, v.inodes)
    ensures forall n :: n in v.inodes && n !in dirs ==> Bytes(v.(disk := d), n) == Bytes(v, n)
  {
    hide Own; hide RefsOf; hide FileOk; hide FileBytes;
    RefsSameData(v.disk, d, v.inodes, v.blockBits, v.owner, reserved, layout.dataStart);
    forall m | m in v.inodes ensures RefsOf(d, v.inodes[m]) == RefsOf(v.disk, v.inodes[m]) {
      assert AllRefs(d, v.inodes)[m] == AllRefs(v.disk, v.inodes)[m];
    }
    forall m | m in v.inodes && m !in dirs ensures Bytes(v.(disk := d), m) == Bytes(v, m) {
      OwnBytes(v.disk, d, AllRefs(v.disk, v.inodes), m, v.inodes[m].size,
               v.blockBits, v.owner, reserved, layout.dataStart);
    }
  }

  /** A change to inode n's sectors and pointers leaves every other file's bytes. */
  lemma OthersSame(layout: Layout, reserved: set<nat>, inodeBits: seq<bool>, dirs: set<nat>, v: View, v': View, n: nat)
    requires FsOk(layout, reserved, inodeBits, dirs, v) && FsOk(layout, reserved, inodeBits, dirs, v')
    requires v'.inodes.Keys == v.inodes.Keys
    requires forall m :: m in v'.inodes && m != n ==> v'.inodes[m] == v.inodes[m]
    requires n in v.inodes
    requires AllRefs(v'.disk, v'.inodes) == AllRefs(v.disk, v.inodes)[n := RefsOf(v'.disk, v'.inodes[n])]
    requires OnlyOf(v.disk, v'.disk, layout.dataStart, v'.owner, n)
    ensures forall m :: m in v'.inodes && m != n && m !in dirs ==> Bytes(v', m) == Bytes(v, m)
  {
    hide Own; hide RefsOf; hide FileOk; hide FileBytes; hide OnlyOf;
    forall m | m in v'.inodes && m != n && m !in dirs ensures Bytes(v', m) == Bytes(v, m) {
      assert AllRefs(v'.disk, v'.inodes)[m] == AllRefs(v.disk, v.inodes)[m];
      OtherBytes(v.disk, v'.disk, AllRefs(v'.disk, v'.inodes), n, m, v'.inodes[m].size,
                 v'.blockBits, v'.owner, reserved, layout.dataStart);
    }
  }

  /** The end of a write: v2 is the state after the data loop, d3 the disk after the
      inode was stored. */
  lemma WriteDone(layout: Layout, reserved: set<nat>, inodeBits: seq<bool>, dirs: set<nat>,
                  v0: View, d1: Disk, v2: View, d3: Disk, n: nat)
    requires FsOk(layout, reserved, inodeBits, dirs, v0) && n in v0.inodes && n !in dirs && n in v2.inodes
    requires |v2.blockBits| == layout.blocks && v2.inodes == v0.inodes[n := v2.inodes[n]]
    requires Own(AllRefs(v2.disk, v2.inodes), v2.blockBits, v2.owner, reserved, layout.dataStart)
    requires AllRefs(v2.disk, v2.inodes) == AllRefs(v0.disk, v0.inodes)[n := RefsOf(v2.disk, v2.inodes[n])]
    requires Shape(RefsOf(v2.disk, v2.inodes[n]), v2.inodes[n].size / 512 + 1) && v2.inodes[n].size < MAX_SIZE
    requires SameBut(v0.disk, d1, layout.inodeTableLba, RefsOf(v2.disk, v2.inodes[n])[12])
    requires OnlyOf(d1, v2.disk, layout.inodeTableLba, v2.owner, n) && SameData(v2.disk, d3, layout.dataStart)
    ensures var v3 := v2.(disk := d3);
            && FsOk(layout, reserved, inodeBits, dirs, v3)
            && Bytes(v3, n) == Bytes(v2, n)
            && (forall m :: m in v3.inodes && m != n && m !in dirs ==> Bytes(v3, m) == Bytes(v0, m))
            && OnlyOf(v0.disk, d3, layout.dataStart, v3.owner, n)
  {
    hide Own; hide RefsOf; hide FileOk; hide FileBytes; hide OnlyOf; hide AllRefs; hide Shape;
    var v3, g := v2.(disk := d3), RefsOf(v2.disk, v2.inodes[n]);
    GoodShape(g, v2.inodes[n].size);
    OkAfterChange(layout, reserved, inodeBits, dirs, v0, v2, n, v2.inodes[n]);
    OkAfterSync(layout, reserved, inodeBits, dirs, v2, d3);
    AllRefsAt(v2.disk, v2.inodes, n);
    AllRefsAt(d3, v2.inodes, n);
    PointerOwned(AllRefs(v2.disk, v2.inodes), v2.blockBits, v2.owner, reserved, layout.dataStart, n, 12);
    OnlyOfCompose(v0.disk, d1, v2.disk, d3, layout.inodeTableLba, layout.dataStart, v2.owner, n, g[12]);
    OthersSame(layout, reserved, inodeBits, dirs, v0, v3, n);
  }

  lemma FilesBounded(layout: Layout, reserved: set<nat>, inodeBits: seq<bool>, dirs: set<nat>, v: View)
    requires FsOk(layout, reserved, inodeBits, dirs, v)
    ensures |inodeBits| == MAX_INODES
    ensures forall m :: m in v.inodes ==> m < MAX_INODES
    ensures forall m :: 0 <= m < MAX_INODES ==> (inodeBits[m] <==> m in v.inodes)
    ensures forall m :: m in v.inodes && m !in dirs ==> v.inodes[m].size < MAX_SIZE && |Bytes(v, m)| == v.inodes[m].size
  {
  }

  lemma NotRoot(layout: Layout, reserved: set<nat>, inodeBits: seq<bool>, dirs: set<nat>, v: View)
    requires FsOk(layout, reserved, inodeBits, dirs, v)
    ensures 0 in dirs
  {
  }

  /** A number that is not live owns no block. */
  lemma NewOwnsNothing(layout: Layout, reserved: set<nat>, inodeBits: seq<bool>, dirs: set<nat>, v: View, n: nat)
    requires FsOk(layout, reserved, inodeBits, dirs, v) && n !in v.inodes
    ensures Except(v.owner, n) == v.owner
  {
    hide RefsOf; hide FileOk;
    forall b | b in v.owner ensures v.owner[b].0 != n {
      assert v.owner[b].0 in AllRefs(v.disk, v.inodes);
    }
  }

  lemma SameBitsBack(layout: Layout, reserved: set<nat>, inodeBits: seq<bool>, dirs: set<nat>, v: View, v': View)
    requires FsOk(layout, reserved, inodeBits, dirs, v) && FsOk(layout, reserved, inodeBits, dirs, v')
    requires v'.owner == v.owner
    ensures v'.blockBits == v.blockBits
  {
  }

  // ---------------------------------------------------------------- memory and disk agree

  ghost predicate Agree(d: Disk, layout: Layout, inodes: map<nat, Inode>) {
    forall m :: m in inodes ==> RecordIs(d, layout.inodeTableLba, m, inodes[m])
  }

  /** The inode table sectors are the same. */
  ghost predicate SameTableSectors(d: Disk, d': Disk, layout: Layout) {
    forall lba :: layout.inodeTableLba <= lba < layout.inodeTableLba + INODE_TABLE_SECTS ==>
        Read(d', lba) == Read(d, lba)
  }

  lemma SlotsKept(d: Disk, d': Disk, layout: Layout, m: nat)
    requires SameTableSectors(d, d', layout) && m < MAX_INODES
    ensures Slot(d', layout.inodeTableLba, m) == Slot(d, layout.inodeTableLba, m)
  {
    var base := layout.inodeTableLba;
    var s, s' := Slot(d, base, m), Slot(d', base, m);
    forall i: nat | i < 76 ensures s'[i] == s[i] {
      assert (76 * m + i) / 512 < INODE_TABLE_SECTS;
      assert s'[i] == TableByte(d', base, 76 * m + i) && s[i] == TableByte(d, base, 76 * m + i);
    }
  }

  lemma AgreeSectors(d: Disk, d': Disk, layout: Layout, inodes: map<nat, Inode>)
    requires Agree(d, layout, inodes) && SameTableSectors(d, d', layout) && forall m :: m in inodes ==> m < MAX_INODES
    ensures Agree(d', layout, inodes)
  {
    hide Slot; hide Decode; hide DecodeNo;
    forall m | m in inodes ensures Slot(d', layout.inodeTableLba, m) == Slot(d, layout.inodeTableLba, m) {
      SlotsKept(d, d', layout, m);
    }
  }

  lemma AgreeKept(d: Disk, d': Disk, layout: Layout, inodes: map<nat, Inode>)
    requires Agree(d, layout, inodes) && SameData(d, d', layout.inodeTableLba) && forall m :: m in inodes ==>
              m < MAX_INODES
    ensures Agree(d', layout, inodes)
  {
    AgreeSectors(d, d', layout, inodes);
  }

  /** After the sync of inode n every record agrees exactly when n fits eight bits, or when
      it hits no live record and its own was right before. */
  lemma AgreeAfterSync(d: Disk, layout: Layout, inodes: map<nat, Inode>, n: Word, ino: Inode)
    requires Agree(d, layout, inodes - {n})
    ensures Agree(SyncInode(d, layout.inodeTableLba, n, ino), layout, inodes[n := ino])
            <==> n < 256 || (n % 256 !in inodes && RecordIs(d, layout.inodeTableLba, n, ino))
    ensures Slot(SyncInode(d, layout.inodeTableLba, n, ino), layout.inodeTableLba, n % 256) == Encode(n, ino)
  {
    hide Slot; hide Decode; hide DecodeNo; hide StoreSlot; hide Encode;
    var base := layout.inodeTableLba;
    var d' := SyncInode(d, base, n, ino);
    StoreSlotOnly(d, base, n % 256, Encode(n, ino));
    RecordRoundTrip(n, ino);
    assert RecordIs(d', layout.inodeTableLba, n % 256, ino) <==> n < 256;
    forall m | m in inodes && m != n && m != n % 256 ensures RecordIs(d', layout.inodeTableLba, m, inodes[m]) {
      assert m in inodes - {n};
    }
    var inodes' := inodes[n := ino];
    if n >= 256 && n % 256 in inodes {
      assert n % 256 in inodes' && !RecordIs(d', layout.inodeTableLba, n % 256, inodes'[n % 256]);
    } else if n >= 256 {
      assert Slot(d', base, n) == Slot(d, base, n);
      assert n in inodes'
             && (RecordIs(d', layout.inodeTableLba, n, inodes'[n]) <==> RecordIs(d, layout.inodeTableLba, n, ino));
    }
  }

  lemma AgreeAfterClear(d: Disk, layout: Layout, inodes: map<nat, Inode>, n: nat)
    requires Agree(d, layout, inodes)
    ensures Agree(StoreSlot(d, layout.inodeTableLba, n, Zeros(76)), layout, inodes - {n})
  {
    hide Slot; hide Decode; hide DecodeNo; hide StoreSlot;
    StoreSlotOnly(d, layout.inodeTableLba, n, Zeros(76));
  }

  /** From 256 on: where slot n mod 256 belongs to a live inode, that inode's record now
      says n, and reading it gives what n has. */
  lemma WideSyncLoses(d: Disk, layout: Layout, inodes: map<nat, Inode>, n: Word, ino: Inode)
    requires n >= 256 && n % 256 in inodes
    ensures var d' := SyncInode(d, layout.inodeTableLba, n, ino);
            && !Agree(d', layout, inodes[n := ino])
            && DecodeNo(Slot(d', layout.inodeTableLba, n % 256)) == n
            && Decode(Slot(d', layout.inodeTableLba, n % 256)) == ino
  {
    hide Slot; hide Decode; hide DecodeNo; hide Encode; hide SyncInode;
    SyncedRecord(d, layout, n, ino);
    RecordRoundTrip(n, ino);
    var d', inodes' := SyncInode(d, layout.inodeTableLba, n, ino), inodes[n := ino];
    assert n % 256 in inodes' && !RecordIs(d', layout.inodeTableLba, n % 256, inodes'[n % 256]);
  }

  lemma SyncedRecord(d: Disk, layout: Layout, n: Word, ino: Inode)
    ensures Slot(SyncInode(d, layout.inodeTableLba, n, ino), layout.inodeTableLba, n % 256) == Encode(n, ino)
  {
    hide Slot; hide Encode; hide StoreSlot;
    StoreSlotOnly(d, layout.inodeTableLba, n % 256, Encode(n, ino));
  }

  /** A new inode has the lowest free number, so from 256 on its record lands on that of a
      live one. */
  lemma CreateAgrees(d: Disk, d1: Disk, d2: Disk, layout: Layout, inodes: map<nat, Inode>, n: Word, ino: Inode)
    requires Agree(d, layout, inodes) && n !in inodes && n < MAX_INODES && (forall m :: m in inodes ==> m < MAX_INODES)
    requires forall m :: 0 <= m < n ==> m in inodes
    requires d1 == SyncInode(d, layout.inodeTableLba, n, ino) && SameData(d1, d2, layout.inodeTableLba)
    ensures Agree(d2, layout, inodes[n := ino]) <==> n < 256
  {
    hide Agree; hide SyncInode; hide Slot; hide Encode;
    assert inodes - {n} == inodes;
    AgreeAfterSync(d, layout, inodes, n, ino);
    AgreeSame(d1, d2, layout, inodes[n := ino]);
  }

  lemma AgreeSame(d: Disk, d': Disk, layout: Layout, inodes: map<nat, Inode>)
    requires SameData(d, d', layout.inodeTableLba) && forall m :: m in inodes ==> m < MAX_INODES
    ensures Agree(d', layout, inodes) <==> Agree(d, layout, inodes)
  {
    hide Agree;
    if Agree(d, layout, inodes) { AgreeKept(d, d', layout, inodes); }
    if Agree(d', layout, inodes) { AgreeKept(d', d, layout, inodes); }
  }

  // ---------------------------------------------------------------- which records change

  /** Every record but that of m is the same. */
  ghost predicate SlotsBut(d: Disk, d': Disk, layout: Layout, m: nat) {
    forall k: nat :: k < MAX_INODES && k != m ==>
      Slot(d', layout.inodeTableLba, k) == Slot(d, layout.inodeTableLba, k)
  }

  /** No record from 256 on says its own number: no sync ever writes one. */
  ghost predicate HighClear(d: Disk, layout: Layout) {
    forall k: nat :: 256 <= k < MAX_INODES ==> DecodeNo(Slot(d, layout.inodeTableLba, k)) != k
  }

  lemma SlotsButSame(d: Disk, d': Disk, layout: Layout, m: nat)
    requires SameTableSectors(d, d', layout) || SameData(d, d', layout.inodeTableLba)
    ensures SlotsBut(d, d', layout, m)
  {
    hide Slot;
    forall k: nat | k < MAX_INODES { SlotsKept(d, d', layout, k); }
  }

  lemma SlotsButTrans(d: Disk, d': Disk, d'': Disk, layout: Layout, m: nat)
    requires SlotsBut(d, d', layout, m) && SlotsBut(d', d'', layout, m)
    ensures SlotsBut(d, d'', layout, m)
  {
  }

  lemma SlotsButSync(d: Disk, layout: Layout, n: Word, ino: Inode)
    ensures SlotsBut(d, SyncInode(d, layout.inodeTableLba, n, ino), layout, n % 256)
  {
    hide Slot; hide Encode; hide StoreSlot;
    StoreSlotOnly(d, layout.inodeTableLba, n % 256, Encode(n, ino));
  }

  lemma SlotsButClear(d: Disk, layout: Layout, n: nat)
    ensures SlotsBut(d, StoreSlot(d, layout.inodeTableLba, n, Zeros(76)), layout, n)
    ensures Slot(StoreSlot(d, layout.inodeTableLba, n, Zeros(76)), layout.inodeTableLba, n) == Zeros(76)
  {
    hide Slot; hide StoreSlot;
    StoreSlotOnly(d, layout.inodeTableLba, n, Zeros(76));
  }

  lemma HighKept(d: Disk, d': Disk, layout: Layout, m: nat)
    requires HighClear(d, layout) && SlotsBut(d, d', layout, m)
    requires m < 256 || Slot(d', layout.inodeTableLba, m) == Zeros(76)
    ensures HighClear(d', layout)
  {
    hide Slot;
    WordsOfZeros(76);
    forall k: nat | 256 <= k < MAX_INODES ensures DecodeNo(Slot(d', layout.inodeTableLba, k)) != k {
      assert k != m ==> DecodeNo(Slot(d, layout.inodeTableLba, k)) != k;
    }
  }

  lemma BlankHigh(d: Disk, layout: Layout)
    requires d == map[]
    ensures HighClear(d, layout)
  {
    WordsOfZeros(76);
    var base := layout.inodeTableLba;
    assert forall off: nat :: TableByte(d, base, off) == 0;
    forall k: nat | 256 <= k < MAX_INODES ensures DecodeNo(Slot(d, base, k)) != k {
      assert Slot(d, base, k) == Zeros(76);
    }
  }

  /** A sync and later writes outside the table. */
  lemma SyncedThen(d: Disk, d2: Disk, layout: Layout, n: Word, ino: Inode)
    requires HighClear(d, layout) && SameData(SyncInode(d, layout.inodeTableLba, n, ino), d2, layout.inodeTableLba)
    ensures SlotsBut(d, d2, layout, n % 256) && HighClear(d2, layout)
    ensures Slot(d2, layout.inodeTableLba, n % 256) == Encode(n, ino)
  {
    hide Slot; hide Encode; hide SyncInode; hide SlotsBut; hide HighClear;
    var d1 := SyncInode(d, layout.inodeTableLba, n, ino);
    SlotsButSync(d, layout, n, ino);
    SlotsButSame(d1, d2, layout, n % 256);
    SlotsButTrans(d, d1, d2, layout, n % 256);
    HighKept(d, d2, layout, n % 256);
    SyncedRecord(d, layout, n, ino);
    SlotsKept(d1, d2, layout, n % 256);
  }

  /** A cleared record and writes outside the table before it. */
  lemma ClearedThen(d: Disk, d1: Disk, layout: Layout, n: nat)
    requires HighClear(d, layout) && SameData(d, d1, layout.inodeTableLba)
    ensures SlotsBut(d, StoreSlot(d1, layout.inodeTableLba, n, Zeros(76)), layout, n)
    ensures HighClear(StoreSlot(d1, layout.inodeTableLba, n, Zeros(76)), layout)
  {
    hide Slot; hide StoreSlot; hide SlotsBut; hide HighClear;
    var d2 := StoreSlot(d1, layout.inodeTableLba, n, Zeros(76));
    SlotsButSame(d, d1, layout, n);
    SlotsButClear(d1, layout, n);
    SlotsButTrans(d, d1, d2, layout, n);
    HighKept(d, d2, layout, n);
  }

  /** Writes outside the table. */
  lemma TableKept(d: Disk, d': Disk, layout: Layout, m: nat)
    requires HighClear(d, layout) && (SameTableSectors(d, d', layout) || SameData(d, d', layout.inodeTableLba))
    ensures HighClear(d', layout) && SlotsBut(d, d', layout, m)
  {
    hide HighClear; hide SlotsBut;
    SlotsButSame(d, d', layout, m);
    SlotsButSame(d, d', layout, 0);
    HighKept(d, d', layout, 0);
  }

  /** The inodes that an open gives as they are: the root is never closed, any other inode is
      read from its record. */
  ghost function Readable(d: Disk, layout: Layout, inodes: map<nat, Inode>): set<nat> {
    set m | m in inodes && (m == 0 || RecordIs(d, layout.inodeTableLba, m, inodes[m]))
  }

  /** After the sync of inode n at most one other record is lost, and none is mended. */
  lemma ReadableSynced(d: Disk, d': Disk, layout: Layout, inodes: map<nat, Inode>, inodes': map<nat, Inode>, n: Word)
    requires SlotsBut(d, d', layout, n % 256) && HighClear(d', layout) && n in inodes' && n < MAX_INODES
    requires Slot(d', layout.inodeTableLba, n % 256) == Encode(n, inodes'[n])
    requires inodes'.Keys == inodes.Keys + {n} && forall m :: m in inodes ==> m < MAX_INODES
    requires forall m :: m in inodes && m != n ==> inodes'[m] == inodes[m]
    ensures var r, r' := Readable(d, layout, inodes), Readable(d', layout, inodes');
            && (forall m :: m in r' && m != n ==> m in r)
            && (forall m :: m in r && m != n && (m == 0 || m != n % 256) ==> m in r')
            && (n in r' <==> n < 256)
            && (n >= 256 && n % 256 != 0 ==> n % 256 !in r')
  {
    hide Slot; hide Decode; hide DecodeNo; hide Encode;
    RecordRoundTrip(n, inodes'[n]);
    var r, r' := Readable(d, layout, inodes), Readable(d', layout, inodes');
    forall m | m in inodes && m != n && m != n % 256 ensures m in r <==> m in r' {
      assert RecordIs(d', layout.inodeTableLba, m, inodes'[m]) <==> RecordIs(d, layout.inodeTableLba, m, inodes[m]);
    }
  }

  lemma ReadableLess(d: Disk, d': Disk, layout: Layout, inodes: map<nat, Inode>, n: nat)
    requires SlotsBut(d, d', layout, n) && forall m :: m in inodes ==> m < MAX_INODES
    ensures Readable(d', layout, inodes - {n}) == Readable(d, layout, inodes) - {n}
  {
    hide Slot; hide Decode; hide DecodeNo;
    var r, r' := Readable(d, layout, inodes), Readable(d', layout, inodes - {n});
    forall m | m in inodes && m != n ensures m in r <==> m in r' {
      assert RecordIs(d', layout.inodeTableLba, m, inodes[m]) <==> RecordIs(d, layout.inodeTableLba, m, inodes[m]);
    }
  }

  lemma ReadableSame(d: Disk, d': Disk, layout: Layout, inodes: map<nat, Inode>)
    requires SlotsBut(d, d', layout, MAX_INODES) && forall m :: m in inodes ==> m < MAX_INODES
    ensures Readable(d', layout, inodes) == Readable(d, layout, inodes)
  {
    hide Slot; hide Decode; hide DecodeNo;
    assert forall m :: m in inodes ==>
        (RecordIs(d', layout.inodeTableLba, m, inodes[m]) <==> RecordIs(d, layout.inodeTableLba, m, inodes[m]));
  }

  lemma ReadableIff(d: Disk, layout: Layout, inodes: map<nat, Inode>, n: nat)
    requires n in inodes
    ensures n in Readable(d, layout, inodes) <==> n == 0 || RecordIs(d, layout.inodeTableLba, n, inodes[n])
  {
  }

  /** From 256 on no open gives the inode as it is. */
  lemma ReadableSmall(d: Disk, layout: Layout, inodes: map<nat, Inode>)
    requires HighClear(d, layout) && forall m :: m in inodes ==> m < MAX_INODES
    ensures forall m :: m in Readable(d, layout, inodes) ==> m < 256
  {
    hide Slot; hide Decode; hide DecodeNo;
  }

  lemma ShapeFirst(d: Disk, d': Disk, ino: Inode, cnt: nat)
    requires Shape(RefsOf(d, ino), cnt) && cnt > 0
    ensures RefsOf(d', ino)[0] != 0
  {
    assert RefsOf(d, ino)[Idx(0)] != 0;
  }

  /** Two changes of inode n are one. */
  lemma KeptTrans(d0: Disk, d1: Disk, d2: Disk, layout: Layout, owner: Owner, n: nat)
    requires OnlyOf(d0, d1, layout.dataStart, owner, n) && OnlyOf(d1, d2, layout.dataStart, owner, n)
    requires SlotsBut(d0, d1, layout, n % 256) && SlotsBut(d1, d2, layout, n % 256)
    ensures OnlyOf(d0, d2, layout.dataStart, owner, n) && SlotsBut(d0, d2, layout, n % 256)
  {
    hide Slot;
  }

  /** Data and bitmap writes miss the inode table. */
  lemma WriteMissesTable(layout: Layout, reserved: set<nat>, v0: View, d1: Disk, v2: View, n: nat)
    requires layout.Valid() && n in v2.inodes
    requires Own(AllRefs(v2.disk, v2.inodes), v2.blockBits, v2.owner, reserved, layout.dataStart)
    requires SameBut(v0.disk, d1, layout.inodeTableLba, RefsOf(v2.disk, v2.inodes[n])[12])
    requires OnlyOf(d1, v2.disk, layout.inodeTableLba, v2.owner, n)
    ensures SameTableSectors(v0.disk, v2.disk, layout)
  {
    hide RefsOf;
    AllRefsAt(v2.disk, v2.inodes, n);
    var t := AllRefs(v2.disk, v2.inodes)[n][12];
    assert t == 0 || t >= layout.dataStart;
    assert forall b :: b in v2.owner ==> b >= layout.dataStart;
  }

  /** So a write changes one record, and none from 256 on. */
  lemma WriteSlots(layout: Layout, reserved: set<nat>, v0: View, d1: Disk, v2: View, n: nat)
    requires layout.Valid() && n in v2.inodes && n < MAX_INODES && HighClear(v0.disk, layout)
    requires Own(AllRefs(v2.disk, v2.inodes), v2.blockBits, v2.owner, reserved, layout.dataStart)
    requires SameBut(v0.disk, d1, layout.inodeTableLba, RefsOf(v2.disk, v2.inodes[n])[12])
    requires OnlyOf(d1, v2.disk, layout.inodeTableLba, v2.owner, n)
    ensures var d := SyncInode(v2.disk, layout.inodeTableLba, n, v2.inodes[n]);
            && SlotsBut(v0.disk, d, layout, n % 256) && HighClear(d, layout)
            && Slot(d, layout.inodeTableLba, n % 256) == Encode(n, v2.inodes[n])
  {
    hide Own; hide RefsOf; hide AllRefs; hide Slot; hide Encode; hide SyncInode; hide OnlyOf; hide SlotsBut;
    hide HighClear;
    var d := SyncInode(v2.disk, layout.inodeTableLba, n, v2.inodes[n]);
    WriteMissesTable(layout, reserved, v0, d1, v2, n);
    SlotsButSame(v0.disk, v2.disk, layout, n % 256);
    SlotsButSync(v2.disk, layout, n, v2.inodes[n]);
    SlotsButTrans(v0.disk, v2.disk, d, layout, n % 256);
    HighKept(v0.disk, d, layout, n % 256);
    SyncedRecord(v2.disk, layout, n, v2.inodes[n]);
  }

  /** Data and bitmap writes miss the inode table, so memory and disk agree after the
      final sync under the same condition. */
  lemma AgreeAfterWrite(layout: Layout, reserved: set<nat>, v0: View, d1: Disk, v2: View, n: nat)
    requires layout.Valid() && n in v0.inodes && n in v2.inodes && (forall m :: m in v0.inodes ==> m < MAX_INODES)
    requires Agree(v0.disk, layout, v0.inodes) && v2.inodes == v0.inodes[n := v2.inodes[n]]
    requires Own(AllRefs(v2.disk, v2.inodes), v2.blockBits, v2.owner, reserved, layout.dataStart)
    requires AllRefs(v2.disk, v2.inodes)[n] == RefsOf(v2.disk, v2.inodes[n])
    requires SameBut(v0.disk, d1, layout.inodeTableLba, RefsOf(v2.disk, v2.inodes[n])[12])
    requires OnlyOf(d1, v2.disk, layout.inodeTableLba, v2.owner, n)
    ensures Agree(SyncInode(v2.disk, layout.inodeTableLba, n, v2.inodes[n]), layout, v2.inodes)
            <==> n < 256 || (n % 256 !in v0.inodes && v2.inodes[n] == v0.inodes[n])
  {
    hide Slot; hide Decode; hide DecodeNo; hide SyncInode; hide RefsOf; hide FileBytes;
    WriteMissesTable(layout, reserved, v0, d1, v2, n);
    AgreeSectors(v0.disk, v2.disk, layout, v0.inodes);
    AgreeAfterSync(v2.disk, layout, v0.inodes, n, v2.inodes[n]);
    assert RecordIs(v2.disk, layout.inodeTableLba, n, v0.inodes[n]);
  }

  // ---------------------------------------------------------------- what an inode stands for

  ghost function DirBlocks(d: Disk, ino: Inode): map<nat, Sector> {
    map k: nat | k < 12 && ino.sectors[k] != 0 :: Read(d, ino.sectors[k])
  }

  ghost function NodeOf(d: Disk, dirs: set<nat>, n: nat, ino: Inode): Node {
    if n in dirs then Dir(ino.size, DirBlocks(d, ino)) else File(FileBytes(d, RefsOf(d, ino), ino.size))
  }

  /** What all live inodes stand for. */
  ghost function NodesOf(d: Disk, dirs: set<nat>, inodes: map<nat, Inode>): (nodes: Store)
    ensures nodes.Keys == inodes.Keys
  {
    map n | n in inodes :: NodeOf(d, dirs, n, inodes[n])
  }

  /** A directory's blocks are its own. */
  lemma DirBlocksKept(d: Disk, d': Disk, m: nat, ino: Inode, n: nat,
                      refs: map<nat, seq<int>>, bits: seq<bool>, owner: Owner, reserved: set<nat>, base: nat)
    requires Own(refs, bits, owner, reserved, base) && m in refs && m != n && refs[m][..13] == ino.sectors
    requires OnlyOf(d, d', base, owner, n)
    ensures DirBlocks(d', ino) == DirBlocks(d, ino)
  {
    forall k: nat | k < 12 && ino.sectors[k] != 0 ensures Read(d', ino.sectors[k]) == Read(d, ino.sectors[k]) {
      assert refs[m][k] == refs[m][..13][k];
    }
  }

  /** A change of inode n and its sectors leaves every other node. */
  lemma NodesKept(layout: Layout, reserved: set<nat>, inodeBits: seq<bool>, dirs: set<nat>, v: View, v': View, n: nat)
    requires FsOk(layout, reserved, inodeBits, dirs, v') && v'.inodes.Keys == v.inodes.Keys
    requires forall m :: m in v'.inodes && m != n ==> v'.inodes[m] == v.inodes[m]
    requires forall m :: m in v'.inodes && m != n && m !in dirs ==> Bytes(v', m) == Bytes(v, m)
    requires OnlyOf(v.disk, v'.disk, layout.dataStart, v'.owner, n)
    ensures forall m :: m in v'.inodes && m != n ==>
              NodeOf(v'.disk, dirs, m, v'.inodes[m]) == NodeOf(v.disk, dirs, m, v.inodes[m])
  {
    hide Own; hide FileBytes; hide DirBlocks; hide FileOk; hide OnlyOf; hide RefsOf;
    forall m | m in v'.inodes && m != n && m in dirs
      ensures DirBlocks(v'.disk, v'.inodes[m]) == DirBlocks(v.disk, v.inodes[m])
    {
      AllRefsAt(v'.disk, v'.inodes, m);
      RefsHead(v'.disk, v'.inodes[m]);
      DirBlocksKept(v.disk, v'.disk, m, v'.inodes[m], n, AllRefs(v'.disk, v'.inodes), v'.blockBits, v'.owner,
                    reserved, layout.dataStart);
    }
  }

  /** So on the store as a whole only n's entry changes. */
  lemma NodesChanged(layout: Layout, reserved: set<nat>, inodeBits: seq<bool>, dirs: set<nat>, v: View, v': View,
        n: nat)
    requires FsOk(layout, reserved, inodeBits, dirs, v') && v'.inodes.Keys == v.inodes.Keys && n in v.inodes
    requires forall m :: m in v'.inodes && m != n ==> v'.inodes[m] == v.inodes[m]
    requires forall m :: m in v'.inodes && m != n && m !in dirs ==> Bytes(v', m) == Bytes(v, m)
    requires OnlyOf(v.disk, v'.disk, layout.dataStart, v'.owner, n)
    ensures NodesOf(v'.disk, dirs, v'.inodes)
            == NodesOf(v.disk, dirs, v.inodes)[n := NodeOf(v'.disk, dirs, n, v'.inodes[n])]
  {
    hide FsOk; hide NodeOf; hide FileBytes; hide RefsOf; hide OnlyOf;
    NodesKept(layout, reserved, inodeBits, dirs, v, v', n);
  }

  lemma RefsHead(d: Disk, ino: Inode)
    ensures RefsOf(d, ino)[..13] == ino.sectors
  {
  }

  /** And a change below the data area leaves them all. */
  lemma NodesSameData(layout: Layout, reserved: set<nat>, inodeBits: seq<bool>, dirs: set<nat>, v: View, d: Disk)
    requires FsOk(layout, reserved, inodeBits, dirs, v) && SameData(v.disk, d, layout.dataStart)
    ensures forall m :: m in v.inodes ==> NodeOf(d, dirs, m, v.inodes[m]) == NodeOf(v.disk, dirs, m, v.inodes[m])
  {
    hide Own; hide FileBytes; hide DirBlocks; hide FileOk; hide RefsOf;
    OkAfterSync(layout, reserved, inodeBits, dirs, v, d);
    forall m | m in v.inodes ensures DirBlocks(d, v.inodes[m]) == DirBlocks(v.disk, v.inodes[m]) {
      AllRefsAt(v.disk, v.inodes, m);
      RefsHead(v.disk, v.inodes[m]);
      DirBlocksKept(v.disk, d, m, v.inodes[m], m + 1, AllRefs(v.disk, v.inodes), v.blockBits, v.owner,
                    reserved, layout.dataStart);
    }
  }

  /** A direct pointer of a directory is set or cleared. */
  lemma DirBlocksSet(layout: Layout, reserved: set<nat>, inodeBits: seq<bool>, dirs: set<nat>, v: View, d: Disk,
                     n: nat, k: nat, b: Word)
    requires FsOk(layout, reserved, inodeBits, dirs, v) && n in v.inodes && k < 12
    requires SameData(v.disk, d, layout.dataStart)
    ensures var ino := v.inodes[n];
            DirBlocks(d, ino.(sectors := ino.sectors[k := b]))
            == if b == 0 then DirBlocks(v.disk, ino) - {k} else DirBlocks(v.disk, ino)[k := Read(d, b)]
  {
    hide RefsOf; hide FileOk;
    var ino := v.inodes[n];
    forall j: nat | j < 12 && ino.sectors[j] != 0 ensures Read(d, ino.sectors[j]) == Read(v.disk, ino.sectors[j]) {
      DirBlockOwned(layout, reserved, inodeBits, dirs, v, n, j);
    }
  }

  /** The blocks of an inode lie in the data area and are distinct. */
  lemma DirBlockOwned(layout: Layout, reserved: set<nat>, inodeBits: seq<bool>, dirs: set<nat>, v: View, n: nat, j: nat)
    requires FsOk(layout, reserved, inodeBits, dirs, v) && n in v.inodes && j < 12 && v.inodes[n].sectors[j] != 0
    ensures v.inodes[n].sectors[j] >= layout.dataStart
    ensures forall i :: 0 <= i < 12 && i != j ==> v.inodes[n].sectors[i] != v.inodes[n].sectors[j]
  {
    hide Own; hide RefsOf; hide FileOk;
    var ino := v.inodes[n];
    AllRefsAt(v.disk, v.inodes, n);
    RefsHead(v.disk, ino);
    assert forall i :: 0 <= i < 12 ==> RefsOf(v.disk, ino)[i] == RefsOf(v.disk, ino)[..13][i] == ino.sectors[i];
    PointerOwned(AllRefs(v.disk, v.inodes), v.blockBits, v.owner, reserved, layout.dataStart, n, j);
  }

  lemma DirBlocksWrite(layout: Layout, reserved: set<nat>, inodeBits: seq<bool>, dirs: set<nat>, v: View,
                       n: nat, k: nat, content: Sector)
    requires FsOk(layout, reserved, inodeBits, dirs, v) && n in v.inodes && k < 12 && v.inodes[n].sectors[k] != 0
    ensures var ino := v.inodes[n];
            DirBlocks(v.disk[ino.sectors[k] := content], ino) == DirBlocks(v.disk, ino)[k := content]
  {
    hide FsOk;
    DirBlockOwned(layout, reserved, inodeBits, dirs, v, n, k);
  }

  lemma DirBlocksSame(layout: Layout, reserved: set<nat>, inodeBits: seq<bool>, dirs: set<nat>, v: View, d: Disk,
                      n: nat, ino: Inode)
    requires FsOk(layout, reserved, inodeBits, dirs, v) && n in v.inodes && ino.sectors == v.inodes[n].sectors
    requires SameData(v.disk, d, layout.dataStart)
    ensures DirBlocks(d, ino) == DirBlocks(v.disk, v.inodes[n])
  {
    hide RefsOf; hide FileOk;
    forall j: nat | j < 12 && ino.sectors[j] != 0 ensures Read(d, ino.sectors[j]) == Read(v.disk, ino.sectors[j]) {
      DirBlockOwned(layout, reserved, inodeBits, dirs, v, n, j);
    }
  }

  lemma EmptyDirBlocks(d: Disk)
    ensures DirBlocks(d, EMPTY_INODE) == map[]
  {
  }

  /** A new directory, before it has a block. */
  lemma DirAdded(layout: Layout, reserved: set<nat>, inodeBits: seq<bool>, dirs: set<nat>, v: View, n: nat)
    requires FsOk(layout, reserved, inodeBits, dirs, v) && n !in v.inodes && n < MAX_INODES
    ensures FsOk(layout, reserved, inodeBits[n := true], dirs + {n}, v.(inodes := v.inodes[n := EMPTY_INODE]))
  {
    hide Own; hide RefsOf; hide FileOk; hide AllRefs;
    var v' := v.(inodes := v.inodes[n := EMPTY_INODE]);
    OkAfterAdd(layout, reserved, inodeBits, dirs - {n}, v, v.disk, n);
    assert forall m :: m in v'.inodes && m !in dirs + {n} ==> m !in dirs - {n};
  }
}
