/** A file and its entry in a directory: `file_create`, writes, and `sys_unlink` together
    (fs/file.c, fs/dir.c, fs/fs.c). The directory's sectors hold the images of the entries
    that `Dirs.Directory` keeps. */
module Volumes {
  import opened Disks
  import opened Bitmaps
  import opened Inodes
  import opened Ownership
  import opened Stores
  import opened FileViews
  import opened Files
  import Formatting
  import Dirs

  // ---------------------------------------------------------------- entries as bytes

  function NameBytes(name: string): (s: seq<Byte>)
    ensures |s| == 16
  {
    seq(16, (i: nat) => if i < |name| && name[i] as int < 256 then (name[i] as int) as Byte else 0)
  }

  function KindCode(kind: Dirs.Kind): Word {
    match kind
    case Unknown => 0
    case Regular => 1
    case Directory => FT_DIRECTORY
  }

  function EntryImage(e: Dirs.Entry): (s: seq<Byte>)
    ensures |s| == 24
  {
    EntryRecord(NameBytes(e.name), e.ino % U32, KindCode(e.kind))
  }

  /** A sector with these entries. */
  function BlockImage(b: seq<Dirs.Entry>): Sector {
    seq(512, (i: nat) requires i < 512 => if i / 24 < |b| then EntryImage(b[i / 24])[i % 24] else 0)
  }

  /** The sectors of a directory, by position. */
  ghost function Images(v: seq<seq<Dirs.Entry>>): map<nat, Sector> {
    map k: nat | k < |v| && v[k] != [] :: BlockImage(v[k])
  }

  lemma ImagesSet(v: seq<seq<Dirs.Entry>>, k: nat, b: seq<Dirs.Entry>)
    requires k < |v| && b != []
    ensures Images(v[k := b]) == Images(v)[k := BlockImage(b)]
  {
  }

  // ---------------------------------------------------------------- the directory and its inode

  /** The inode of a directory says what the directory holds. */
  ghost predicate DirMatches(sectors: seq<nat>, entries: map<nat, seq<Dirs.Entry>>, size: nat, d: Disk, ino: Inode) {
    && |sectors| == 13 && (forall i :: 0 <= i < 13 ==> sectors[i] == ino.sectors[i]) && size == ino.size
    && DirBlocks(d, ino) == Images(Dirs.View(sectors, entries))
  }

  lemma DotsImage(n: nat, parent: nat)
    ensures BlockImage(Dirs.FirstBlock(n, parent)) == DotsSector(n, parent)
  {
    var b, s, t := Dirs.FirstBlock(n, parent), BlockImage(Dirs.FirstBlock(n, parent)), DotsSector(n, parent);
    assert NameBytes(".") == [46] + Zeros(15) && NameBytes("..") == [46, 46] + Zeros(14);
    ZeroImage();
    forall i: nat | i < 512 ensures s[i] == t[i] {
      if 2 <= i / 24 < |b| { assert b[i / 24] == Dirs.ZERO; }
    }
  }

  lemma ZeroImage()
    ensures EntryImage(Dirs.ZERO) == Zeros(24)
  {
    assert NameBytes("") == Zeros(16);
    assert WordBytes([0, 0]) == Zeros(8);
  }

  lemma RootNode(d: Disk, root: Inode, blocks: map<nat, Sector>)
    requires NodesOf(d, {0}, map[0 := root]) == map[0 := Dir(48, blocks)]
    ensures DirBlocks(d, root) == blocks && Small(NodesOf(d, {0}, map[0 := root]))
  {
    assert NodesOf(d, {0}, map[0 := root])[0] == NodeOf(d, {0}, 0, root);
  }

  lemma RootMatches(sectors: seq<nat>, entries: map<nat, seq<Dirs.Entry>>, d: Disk, ino: Inode, lba: Word)
    requires lba != 0 && sectors == [lba] + seq(12, _ => 0) && entries == map[lba := Dirs.FirstBlock(0, 0)]
    requires ino.sectors == [lba] + seq(12, _ => 0) && ino.size == 48
    requires DirBlocks(d, ino) == map[0 := BlockImage(Dirs.FirstBlock(0, 0))]
    ensures DirMatches(sectors, entries, 48, d, ino)
  {
    hide BlockImage; hide DirBlocks;
    var v := Dirs.View(sectors, entries);
    assert v[0] == Dirs.FirstBlock(0, 0) && forall k :: 1 <= k < 12 ==> v[k] == [];
  }

  lemma RoomFacts(sectors: seq<nat>, entries: map<nat, seq<Dirs.Entry>>, d: Disk, ino: Inode, size: nat, k: nat)
    requires DirMatches(sectors, entries, size, d, ino) && k < DIRECT
    ensures |sectors| == 13 && |Dirs.View(sectors, entries)| == DIRECT && size == ino.size
    ensures forall i :: 0 <= i < 13 ==> sectors[i] == ino.sectors[i]
    ensures DirBlocks(d, ino) == Images(Dirs.View(sectors, entries))
  {
  }

  lemma OneNode(nodes: Store, nodes': Store, p: nat)
    requires p in nodes && p in nodes' && nodes' == nodes[p := nodes'[p]]
    ensures nodes' - {p} == nodes - {p} && (Small(nodes') <==> Small(nodes))
  {
    assert nodes'.Keys == nodes.Keys;
  }

  lemma SameMatch(sectors: seq<nat>, entries: map<nat, seq<Dirs.Entry>>, size: nat, d: Disk, d': Disk, ino: Inode)
    requires DirMatches(sectors, entries, size, d, ino) && DirBlocks(d', ino) == DirBlocks(d, ino)
    ensures DirMatches(sectors, entries, size, d', ino)
  {
  }

  lemma NewKey<X>(a: map<nat, X>, b: map<nat, X>, p: nat, n: nat, x: X)
    requires b - {p} == a - {p} && n != p
    ensures b[n := x] - {p} == a[n := x] - {p}
  {
    var a', b' := a[n := x] - {p}, b[n := x] - {p};
    assert forall m :: m in a' <==> m == n || m in a - {p};
    assert forall m :: m in b' <==> m == n || m in b - {p};
    forall m | m in a' ensures b'[m] == a'[m] {
      if m != n { assert (b - {p})[m] == (a - {p})[m]; }
    }
  }

  lemma NewNode(nodes: Store, nodes1: Store, nodes2: Store, p: nat, n: nat)
    requires nodes1 - {p} == nodes - {p} && nodes1.Keys == nodes.Keys && n !in nodes && p in nodes
    requires nodes2 == nodes1[n := File([])]
    ensures nodes2 - {p} == nodes[n := File([])] - {p}
    ensures Small(nodes) ==> Small(nodes1) && (Small(nodes2) <==> n < 256)
  {
    assert nodes2.Keys == nodes.Keys + {n};
    forall m | m in nodes2 && m != p ensures nodes2[m] == nodes[n := File([])][m] {
      if m != n { assert m in nodes1 - {p}; }
    }
  }

  lemma NodeAt(d: Disk, dirs: set<nat>, inodes: map<nat, Inode>, p: nat)
    requires p in inodes
    ensures p in NodesOf(d, dirs, inodes) && NodesOf(d, dirs, inodes)[p] == NodeOf(d, dirs, p, inodes[p])
  {
  }

  lemma NewFileAt(a: map<nat, Inode>, b: map<nat, Inode>, p: nat, n: nat)
    requires b - {p} == a[n := EMPTY_INODE] - {p} && n != p && p in b
    ensures n in b && b[n] == EMPTY_INODE && p in b - {n}
  {
    assert n in a[n := EMPTY_INODE] - {p};
  }

  /** Maps that differ from each other at n and at p only. */
  lemma MapMid<X>(a0: map<nat, X>, a1: map<nat, X>, a2: map<nat, X>, p: nat, n: nat, x: X)
    requires a1 - {p} == a0[n := x] - {p} && a2 - {n} == a1 - {n} && n !in a0
    ensures a2 - {n} - {p} == a0 - {p}
  {
    assert a2 - {n} - {p} == a1 - {n} - {p} == a1 - {p} - {n} == a0[n := x] - {p} - {n} == a0 - {p};
  }

  lemma MapBack<X>(a0: map<nat, X>, a2: map<nat, X>, a3: map<nat, X>, p: nat, n: nat)
    requires a2 - {n} - {p} == a0 - {p} && a3 - {p} == a2 - {p}
    requires n !in a0 && p in a0 && p != n && p in a3 && a3[p] == a0[p]
    ensures a3 - {n} == a0
  {
    assert a3 - {n} - {p} == a3 - {p} - {n} == a2 - {p} - {n} == a2 - {n} - {p} == a0 - {p};
    forall m | m in a0 && m != p ensures m in a3 && a3[m] == a0[m] {
      assert m in a0 - {p};
      assert (a3 - {n} - {p})[m] == (a0 - {p})[m];
    }
    forall m | m in a3 - {n} && m != p ensures m in a0 { assert m in a3 - {n} - {p}; }
  }

  /** The same blocks and size make the same inode and the same node. */
  lemma SameDirectory(sectors: seq<nat>, entries: map<nat, seq<Dirs.Entry>>, size: nat, d: Disk, ino: Inode,
                      sectors0: seq<nat>, entries0: map<nat, seq<Dirs.Entry>>, d0: Disk, ino0: Inode,
                      dirs: set<nat>, p: nat)
    requires DirMatches(sectors, entries, size, d, ino) && DirMatches(sectors0, entries0, size, d0, ino0)
    requires Dirs.View(sectors, entries) == Dirs.View(sectors0, entries0) && ino.sectors == ino0.sectors && p in dirs
    ensures ino == ino0 && NodeOf(d, dirs, p, ino) == NodeOf(d0, dirs, p, ino0)
  {
  }

  lemma MatchesNow(sectors: seq<nat>, entries: map<nat, seq<Dirs.Entry>>, size: nat, d: Disk, ino: Inode)
    requires |sectors| == 13 && (forall i :: 0 <= i < 13 ==> sectors[i] == ino.sectors[i]) && size == ino.size
    requires DirBlocks(d, ino) == Images(Dirs.View(sectors, entries))
    ensures DirMatches(sectors, entries, size, d, ino)
  {
  }

  lemma ErasedIs(v: seq<seq<Dirs.Entry>>, v': seq<seq<Dirs.Entry>>, k: nat, ino: nat)
    requires Dirs.Erased(v, v', k, ino)
    ensures k < |v| == |v'| && v' == v[k := v'[k]]
  {
  }

  lemma ImagesDrop(v: seq<seq<Dirs.Entry>>, k: nat)
    requires k < |v|
    ensures Images(v[k := []]) == Images(v) - {k}
  {
  }

  lemma StoredIs(v: seq<seq<Dirs.Entry>>, v': seq<seq<Dirs.Entry>>, k: nat, e: Dirs.Entry, isNew: bool)
    requires Dirs.Stored(v, v', k, e, isNew)
    ensures k < |v| == |v'| && v' == v[k := v'[k]] && v'[k] != [] && (v[k] == [] <==> isNew)
  {
  }

  lemma OnlyAdded(a: seq<Dirs.Entry>, b: seq<Dirs.Entry>, e: Dirs.Entry)
    requires multiset(b) == multiset(a) + multiset{e} || multiset(b) == multiset(a) + multiset{e, e}
    ensures forall x :: x in b ==> x in a || x == e
  {
    assert forall x :: x in b ==> x in multiset(b);
  }

  /** A free block, or one past the last, is no block of the directory. */
  lemma FreshSector(layout: Layout, reserved: set<nat>, inodeBits: seq<bool>, dirs: set<nat>, v: View, p: nat,
                    sectors: seq<nat>, lba: nat)
    requires FsOk(layout, reserved, inodeBits, dirs, v) && p in v.inodes && p in dirs
    requires |sectors| == 13 && forall i :: 0 <= i < 13 ==> sectors[i] == v.inodes[p].sectors[i]
    requires lba >= layout.dataStart && (lba - layout.dataStart < |v.blockBits| ==>
              !v.blockBits[lba - layout.dataStart])
    ensures lba != 0 && lba !in sectors
  {
    hide RefsOf; hide FileOk;
    var refs := AllRefs(v.disk, v.inodes);
    AllRefsAt(v.disk, v.inodes, p);
    RefsHead(v.disk, v.inodes[p]);
    forall i | 0 <= i < 12 ensures sectors[i] != lba {
      assert refs[p][i] == refs[p][..13][i];
      PointerOwned(refs, v.blockBits, v.owner, reserved, layout.dataStart, p, i);
    }
  }

  /** How far a run of create, writes and unlink comes. */
  datatype Stage =
    | Lost          // the directory's record does not say what the directory is
    | NoNumber      // halted: no inode number
    | Beyond        // the directory would need an indirect table
    | NoBlock       // halted: no block for the directory
    | WriteHalts
    | UnlinkLost    // by now it does not
    | UnlinkHalts   // halted: the ASSERT on a second entry or on the number in the record
    | Complete

  /** What a volume was. */
  datatype Snapshot = Snapshot(v: View, inodeBits: seq<bool>, dirs: set<nat>, nodes: Store, sectors: seq<nat>,
                               entries: map<nat, seq<Dirs.Entry>>, size: nat) {
    ghost function Blocks(): seq<seq<Dirs.Entry>> {
      Dirs.View(sectors, entries)
    }

    /** The directory block that a new entry goes to. */
    ghost function Room(): nat {
      Dirs.RoomFrom(Blocks(), 0)
    }

    /** Whether that block has yet to be allocated. */
    ghost predicate TakesBlock() {
      Room() < |sectors| && sectors[Room()] == 0
    }
  }

  class Volume {
    const fs: FileSystem
    const dir: Dirs.Directory
    const p: nat

    /** Directory p and its inode match, and every entry is for a live inode. */
    ghost predicate Valid()
      reads this, fs, dir
    {
      && fs.Valid() && dir.Valid() && p in fs.dirs
      && DirMatches(dir.sectors, dir.disk, dir.size, fs.disk, fs.Get(p))
      && forall e :: e in dir.Entries() ==> e.ino in fs.inodes
    }

    /** A formatted partition, with its root directory. */
    constructor Format(start: nat, secCnt: nat)
      requires Fits(start, secCnt) && Formatting.BitLen(secCnt) >= 8
      ensures fresh(fs) && fresh(dir) && p == 0 && Valid() && fs.Coherent() && Small(fs.Nodes())
    {
      hide FsOk; hide Agree; hide NodesOf; hide FormattedBits; hide DirMatches; hide DotsSector; hide BlockImage;
      hide Dirs.DirOk; hide Dirs.SectorsOk; hide Dirs.View; hide Dirs.Live; hide Dirs.FirstBlock; hide DirBlocks;
      var f := new FileSystem.Format(start, secCnt);
      var d := new Dirs.Directory(0, 0, f.layout.dataStart);
      fs, dir, p := f, d, 0;
      new;
      DotsImage(0, 0);
      RootNode(fs.disk, fs.Get(0), map[0 := DotsSector(0, 0)]);
      RootMatches(dir.sectors, dir.disk, fs.disk, fs.Get(0), fs.layout.dataStart);
    }

    ghost function Now(): Snapshot
      reads this, fs, dir
    {
      Snapshot(fs.Now(), fs.inodeBits, fs.dirs, fs.Nodes(), dir.sectors, dir.disk, dir.size)
    }

    ghost function Room(): nat
      reads this, fs, dir
    {
      Now().Room()
    }

    ghost predicate TakesBlock()
      reads this, fs, dir
    {
      Now().TakesBlock()
    }

    /** Of the file system, only directory p changed. */
    twostate predicate OnlyDir()
      reads this, fs
    {
      && p in fs.inodes && fs.dirs == old(fs.dirs) && fs.inodeBits == old(fs.inodeBits)
      && fs.inodes.Keys == old(fs.inodes).Keys
      && fs.inodes - {p} == old(fs.inodes) - {p} && fs.Nodes() - {p} == old(fs.Nodes()) - {p}
      && (old(fs.Coherent()) && Small(old(fs.Nodes())) ==> fs.Coherent())
      && fs.ReadsKept(p)
    }

    /** Since `was` the file n was created under that name, empty, and nothing else changed but
        the directory. */
    ghost predicate Created(was: Snapshot, name: string, n: nat)
      reads this, fs, dir
    {
      && Valid() && n !in was.v.inodes && (forall m :: 0 <= m < n ==> m in was.v.inodes)
      && Dirs.Stored(was.Blocks(), dir.Blocks(), was.Room(), Dirs.Entry(name, n, Dirs.Regular), was.TakesBlock())
      && fs.dirs == was.dirs && n < |was.inodeBits| && fs.inodeBits == was.inodeBits[n := true]
      && fs.inodes - {p} == was.v.inodes[n := EMPTY_INODE] - {p}
      && fs.Nodes() - {p} == was.nodes[n := File([])] - {p}
      && (!was.TakesBlock() ==>
            fs.owner == was.v.owner && p in was.v.inodes && fs.Get(p).sectors == was.v.inodes[p].sectors)
      && (Small(was.nodes) ==>
            && (Small(fs.Nodes()) <==> n < 256)
            && (Agree(was.v.disk, fs.layout, was.v.inodes) ==> (fs.Coherent() <==> n < 256)))
      && FreeCount(fs.blockBits) == FreeCount(was.v.blockBits) - (if was.TakesBlock() then 1 else 0)
      && (n in fs.Sound() <==> n < 256)
      && (p < 256 && p in Readable(was.v.disk, fs.layout, was.v.inodes) ==>
            (p in fs.Sound() <==> p == 0 || n < 256 || p != n % 256))
    }

    /** A volume that was valid. */
    ghost predicate Good(was: Snapshot)
      reads this, fs
    {
      && FsOk(fs.layout, fs.reserved, was.inodeBits, was.dirs, was.v) && p in was.v.inodes && p in was.dirs
      && (forall m :: m in was.dirs ==> m in was.v.inodes)
      && Dirs.DirOk(was.Blocks(), was.size)
      && DirMatches(was.sectors, was.entries, was.size, was.v.disk, was.v.inodes[p])
      && was.nodes == NodesOf(was.v.disk, was.dirs, was.v.inodes)
      && (forall x :: x in Dirs.Live(was.Blocks()) ==> x.ino in was.v.inodes)
    }

    /** The writes of an open file, up to one that halts. */
    method WriteAll(n: nat, pieces: seq<seq<Byte>>) returns (halted: bool)
      requires fs.Valid() && n in fs.inodes && n !in fs.dirs
      modifies fs`blockBits, fs`owner, fs`disk, fs`inodes
      ensures halted <==>
                WritesHalt(old(fs.Refs(n))[0] == 0, old(fs.Get(n)).size, FreeCount(old(fs.blockBits)), pieces)
      ensures !halted ==>
                && fs.Valid() && n in fs.inodes && fs.inodes - {n} == old(fs.inodes) - {n}
                && Except(fs.owner, n) == old(Except(fs.owner, n))
                && fs.Nodes() - {n} == old(fs.Nodes()) - {n} && fs.Nodes().Keys == old(fs.Nodes()).Keys
                && (old(fs.Coherent()) && Small(old(fs.Nodes())) ==> fs.Coherent())
                && fs.ReadsKept(n)
    {
      hide FsOk; hide NodeOf; hide Except; hide Agree; hide Cost; hide FreeCount; hide RefsOf; hide FileBytes;
      hide HighClear; hide Readable; hide WritesHalt;
      halted := false;
      WritesNone(pieces);
      ghost var all := WritesHalt(fs.Refs(n)[0] == 0, fs.Get(n).size, FreeCount(fs.blockBits), pieces);
      for i := 0 to |pieces|
        invariant !halted && fs.Valid() && n in fs.inodes && fs.inodes - {n} == old(fs.inodes) - {n}
        invariant Except(fs.owner, n) == old(Except(fs.owner, n))
        invariant fs.Nodes() - {n} == old(fs.Nodes()) - {n} && fs.Nodes().Keys == old(fs.Nodes()).Keys
        invariant old(fs.Coherent()) && Small(old(fs.Nodes())) ==> fs.Coherent()
        invariant all <==> WritesHalt(fs.Refs(n)[0] == 0, fs.Get(n).size, FreeCount(fs.blockBits), pieces[i..])
        invariant fs.ReadsKept(n)
      {
        var answer;
        ghost var nodes, inodes := fs.Nodes(), fs.inodes;
        WritesNext(fs.Refs(n)[0] == 0, fs.Get(n).size, FreeCount(fs.blockBits), pieces, i);
        halted, answer := fs.DoAppend(n, pieces[i]);
        if halted { return; }
        assert fs.Nodes() - {n} == nodes - {n};
      }
    }

    /** Block k of the directory, old or new, gets this content, and its inode this size. */
    method PutBlock(k: nat, content: Sector, size: Word) returns (halted: bool)
      requires fs.Valid() && p in fs.dirs && k < DIRECT
      modifies fs
      ensures halted <==> old(fs.Get(p)).sectors[k] == 0 && FreeCount(old(fs.blockBits)) == 0
      ensures !halted ==>
                && fs.Valid() && OnlyDir() && fs.Get(p).size == size
                && FreeCount(fs.blockBits)
                   == FreeCount(old(fs.blockBits)) - (if old(fs.Get(p)).sectors[k] == 0 then 1 else 0)
                && DirBlocks(fs.disk, fs.Get(p)) == old(DirBlocks(fs.disk, fs.Get(p)))[k := content]
                && fs.Get(p).sectors == old(fs.Get(p)).sectors[k := fs.Get(p).sectors[k]]
                && if old(fs.Get(p)).sectors[k] == 0
                   then fs.Get(p).sectors[k] - fs.layout.dataStart == FirstRun(old(fs.blockBits), 1)
                   else fs.owner == old(fs.owner) && fs.Get(p).sectors == old(fs.Get(p)).sectors
    {
      hide FsOk; hide Agree; hide NodeOf; hide DirBlocks; hide FreeCount; hide Except; hide Small; hide FirstRun;
      hide Needed; hide HighClear; hide Readable;
      hide RefsOf; hide FileBytes; hide LowestFree;
      halted := false;
      BlockListed(fs.disk, fs.dirs, p, fs.Get(p));
      ghost var nodes := fs.Nodes();
      if fs.inodes[p].sectors[k] == 0 {
        var answer;
        halted, answer := fs.DoGrowDir(p, k, content, size);
        if halted { return; }
      } else {
        var answer := fs.DoStoreInDir(p, k, content, size);
      }
      BlockListed(fs.disk, fs.dirs, p, fs.Get(p));
      OneNode(nodes, fs.Nodes(), p);
    }

    /** `sync_dir_entry` and the sync of the directory's inode. */
    method AddEntry(e: Dirs.Entry) returns (halted: bool)
      requires Valid() && !e.kind.Unknown? && !Dirs.IsDot(e) && Room() < DIRECT
      modifies fs, dir
      ensures halted <==> old(TakesBlock()) && FreeCount(old(fs.blockBits)) == 0
      ensures !halted ==>
                && fs.Valid() && dir.Valid() && DirMatches(dir.sectors, dir.disk, dir.size, fs.disk, fs.Get(p))
                && Dirs.Stored(old(dir.Blocks()), dir.Blocks(), old(Room()), e, old(TakesBlock()))
                && (forall x :: x in dir.Entries() ==> x in old(dir.Entries()) || x == e)
                && FreeCount(fs.blockBits) == FreeCount(old(fs.blockBits)) - (if old(TakesBlock()) then 1 else 0)
                && OnlyDir() && (!old(TakesBlock()) ==>
                    fs.owner == old(fs.owner) && fs.Get(p).sectors == old(fs.Get(p)).sectors)
    {
      hide FsOk; hide Agree; hide NodeOf; hide DirBlocks; hide BlockImage; hide FreeCount; hide Except;
      hide Dirs.DirOk;
      hide Dirs.Live; hide Dirs.RoomFrom; hide Dirs.Stored; hide Images; hide Small; hide FirstRun; hide Dirs.View;
      hide Dirs.IsDot;
      hide RefsOf; hide FileBytes; hide Needed; hide Dirs.SectorsOk; hide Dirs.Twice; hide DirMatches;
      hide HighClear; hide Readable; hide NodesOf;
      ghost var v := dir.Blocks();
      LayoutGood(fs.layout, fs.reserved, fs.inodeBits, fs.dirs, fs.Now());
      FreeCountZero(fs.blockBits);
      var k := Dirs.RoomFrom(Dirs.View(dir.sectors, dir.disk), 0);
      RoomFacts(dir.sectors, dir.disk, fs.disk, fs.Get(p), dir.size, k);
      var bit := FirstRun(fs.blockBits, 1);
      var isNew := dir.sectors[k] == 0;
      halted := isNew && bit == -1;
      if halted { return; }
      var lba := fs.layout.dataStart + if isNew then bit else |fs.blockBits|;
      FreshSector(fs.layout, fs.reserved, fs.inodeBits, fs.dirs, fs.Now(), p, dir.sectors, lba);
      ghost var was := dir.Entries();
      var ok := dir.SyncDirEntry(e, lba);
      ghost var v1 := dir.Blocks();
      OnlyAdded(was, dir.Entries(), e);
      Dirs.SizeBound(v1, dir.size);
      StoredIs(v, v1, k, e, isNew);
      ImagesSet(v, k, v1[k]);
      var content := BlockImage(Dirs.Block(dir.sectors, dir.disk, k));
      halted := PutBlock(k, content, dir.size);
      MatchesNow(dir.sectors, dir.disk, dir.size, fs.disk, fs.Get(p));
    }

    /** How far the creation of a file comes, from this state. */
    ghost function CreateStage(was: Snapshot): Stage {
      if p !in Readable(was.v.disk, fs.layout, was.v.inodes) then Lost
      else if forall m :: 0 <= m < MAX_INODES ==> m in was.v.inodes then NoNumber
      else if was.Room() == DIRECT then Beyond
      else if was.TakesBlock() && FreeCount(was.v.blockBits) == 0 then NoBlock
      else Complete
    }

    /** How far the creation, these writes and the unlink come. */
    ghost function RunStage(was: Snapshot, pieces: seq<seq<Byte>>): Stage {
      var n := LowestFree(was.v.inodes.Keys, 0);
      if CreateStage(was) != Complete then CreateStage(was)
      else if WritesHalt(true, 0, FreeCount(was.v.blockBits) - (if was.TakesBlock() then 1 else 0), pieces)
      then WriteHalts
      else if n >= 256 && p != 0 && p == n % 256 then UnlinkLost
      else if n >= 256 || was.TakesBlock() then UnlinkHalts
      else Complete
    }

    /** `file_create`, with the entry in the directory. */
    method CreateFile(name: string) returns (stage: Stage, n: int)
      requires Valid() && name != "." && name != ".."
      modifies fs, dir
      ensures stage == CreateStage(old(Now()))
      ensures stage == Complete ==> p < 256 && 0 <= n < MAX_INODES && Created(old(Now()), name, n)
    {
      hide FsOk; hide Agree; hide NodeOf; hide DirBlocks; hide FreeCount; hide Dirs.DirOk; hide Images; hide Small;
      hide Except;
      hide Dirs.Live; hide Dirs.RoomFrom; hide Dirs.Stored; hide Dirs.SectorsOk; hide Dirs.View; hide FirstRun;
      hide LowestFree;
      hide RefsOf; hide FileBytes; hide Needed; hide DirMatches; hide NodesOf; hide HighClear; hide Readable;
      if p >= 256 { fs.HighNumbersFail(p, 0, Zeros(512), 0); }
      var lost, answer := fs.DoReopen(p);
      if lost { return Lost, -1; }
      FilesBounded(fs.layout, fs.reserved, fs.inodeBits, fs.dirs, fs.Now());
      NumberFree(fs.inodeBits, fs.inodes);
      RoomFacts(dir.sectors, dir.disk, fs.disk, fs.Get(p), dir.size, 0);
      n := FirstRun(fs.inodeBits, 1);
      if n == -1 { return NoNumber, -1; }
      if Dirs.RoomFrom(Dirs.View(dir.sectors, dir.disk), 0) == DIRECT { return Beyond, -1; }
      var halted := Enter(name, n);
      stage := if halted then NoBlock else Complete;
    }

    /** The entry, then the inode. */
    method Enter(name: string, n: nat) returns (halted: bool)
      requires Valid() && name != "." && name != ".." && Room() < DIRECT
      requires n < MAX_INODES && n !in fs.inodes && forall m :: 0 <= m < n ==> m in fs.inodes
      modifies fs, dir
      ensures halted <==> old(TakesBlock()) && FreeCount(old(fs.blockBits)) == 0
      ensures !halted ==> Created(old(Now()), name, n)
    {
      hide FsOk; hide Agree; hide NodeOf; hide DirBlocks; hide FreeCount; hide Dirs.DirOk; hide Images; hide Small;
      hide Except; hide Dirs.Live; hide Dirs.RoomFrom; hide Dirs.Stored; hide Dirs.SectorsOk; hide Dirs.View;
      hide FirstRun;
      hide LowestFree; hide RefsOf; hide FileBytes; hide Needed; hide DirMatches; hide NodesOf; hide Readable;
      hide HighClear;
      halted := AddEntry(Dirs.Entry(name, n, Dirs.Regular));
      if halted { return; }
      ghost var nodes1, inodes1 := fs.Nodes(), fs.inodes;
      CreateInode(n);
      NewNode(old(fs.Nodes()), nodes1, fs.Nodes(), p, n);
      NewKey(old(fs.inodes), inodes1, p, n, EMPTY_INODE);
    }

    /** The inode of the new file, once its entry is stored. */
    method CreateInode(ghost n: nat)
      requires fs.Valid() && p in fs.dirs && DirMatches(dir.sectors, dir.disk, dir.size, fs.disk, fs.Get(p))
      requires n < MAX_INODES && n !in fs.inodes && forall m :: 0 <= m < n ==> m in fs.inodes
      modifies fs`disk, fs`inodes, fs`inodeBits
      ensures fs.Valid() && DirMatches(dir.sectors, dir.disk, dir.size, fs.disk, fs.Get(p))
      ensures fs.inodes == old(fs.inodes)[n := EMPTY_INODE] && n < |old(fs.inodeBits)|
      ensures fs.inodeBits == old(fs.inodeBits)[n := true] && fs.Nodes() == old(fs.Nodes())[n := File([])]
      ensures old(fs.Coherent()) && Small(old(fs.Nodes())) ==> (fs.Coherent() <==> n < 256)
      ensures n in fs.Sound() <==> n < 256
      ensures p in old(fs.Sound()) ==> (p in fs.Sound() <==> p == 0 || n < 256 || p != n % 256)
    {
      hide FsOk; hide Agree; hide NodeOf; hide DirBlocks; hide FreeCount; hide Small; hide LowestFree; hide RefsOf;
      hide FileBytes; hide Needed; hide DirMatches; hide HighClear; hide Readable;
      FilesBounded(fs.layout, fs.reserved, fs.inodeBits, fs.dirs, fs.Now());
      BlockListed(fs.disk, fs.dirs, p, fs.Get(p));
      LowestFreeIs(fs.Nodes().Keys, 0, n);
      var halted, answer := fs.DoCreate();
      assert fs.Nodes()[p] == old(fs.Nodes())[p];
      BlockListed(fs.disk, fs.dirs, p, fs.Get(p));
      SameMatch(dir.sectors, dir.disk, dir.size, old(fs.disk), fs.disk, fs.Get(p));
      if Small(old(fs.Nodes())) { SmallAdd(old(fs.Nodes()), n, File([])); }
    }

    /** A block of the directory goes back. */
    method DropBlock(k: nat, size: Word)
      requires fs.Valid() && p in fs.dirs && 0 < k < DIRECT && fs.Get(p).sectors[k] != 0
      modifies fs
      ensures fs.Valid() && OnlyDir() && fs.Get(p).size == size
      ensures fs.Get(p).sectors == old(fs.Get(p)).sectors[k := 0]
      ensures DirBlocks(fs.disk, fs.Get(p)) == old(DirBlocks(fs.disk, fs.Get(p))) - {k}
    {
      hide FsOk; hide Agree; hide NodeOf; hide DirBlocks; hide FreeCount; hide Except; hide Small; hide FirstRun;
      hide Needed; hide HighClear; hide Readable;
      hide RefsOf; hide FileBytes; hide LowestFree;
      BlockListed(fs.disk, fs.dirs, p, fs.Get(p));
      ghost var nodes := fs.Nodes();
      var answer := fs.DoShrinkDir(p, k, size);
      BlockListed(fs.disk, fs.dirs, p, fs.Get(p));
      OneNode(nodes, fs.Nodes(), p);
    }

    /** `delete_dir_entry`, with the block and the inode of the directory. */
    method RemoveEntry(n: nat) returns (halted: bool)
      requires Valid()
      modifies fs, dir
      ensures var v := old(dir.Blocks()); var k := Dirs.FirstWith(v, n, 0);
              && (halted <==> k < |v| && Dirs.Copies(v[k], n, |v[k]|) >= 2)
              && (!halted ==>
                    && fs.Valid() && dir.Valid() && DirMatches(dir.sectors, dir.disk, dir.size, fs.disk, fs.Get(p))
                    && OnlyDir() && (if k < |v| then Dirs.Erased(v, dir.Blocks(), k, n) else dir.Blocks() == v)
                    && (k < |v| && |dir.Blocks()| == |v| && dir.Blocks()[k] != [] ==>
                          fs.owner == old(fs.owner) && fs.Get(p).sectors == old(fs.Get(p)).sectors))
    {
      hide FsOk; hide Agree; hide NodesOf; hide DirBlocks; hide BlockImage; hide FreeCount; hide Dirs.DirOk;
      hide Dirs.LiveIn;
      hide Dirs.Live; hide Dirs.FirstWith; hide Dirs.Erased; hide Dirs.Copies; hide Images; hide Small; hide FirstRun;
      hide Dirs.View; hide DirMatches; hide Dirs.SectorsOk; hide HighClear; hide Readable;
      ghost var v := dir.Blocks();
      RoomFacts(dir.sectors, dir.disk, fs.disk, fs.Get(p), dir.size, 0);
      var k := Dirs.FirstWith(Dirs.View(dir.sectors, dir.disk), n, 0);
      var found;
      halted, found := dir.DeleteDirEntry(n);
      if halted || !found { return; }
      ghost var v1 := dir.Blocks();
      Dirs.SizeBound(v1, dir.size);
      Dirs.AbsentMeansZero(dir.sectors, dir.disk);
      ErasedIs(v, v1, k, n);
      if dir.sectors[k] == 0 {
        ImagesDrop(v, k);
        DropBlock(k, dir.size);
      } else {
        ImagesSet(v, k, v1[k]);
        halted := PutBlock(k, BlockImage(Dirs.Block(dir.sectors, dir.disk, k)), dir.size);
      }
      MatchesNow(dir.sectors, dir.disk, dir.size, fs.disk, fs.Get(p));
    }

    /** A file is created under a new name, written any number of times, and unlinked. If its
        entry found an unused slot and its number is below 256, both bitmaps, all inodes, all
        files and the directory are as they were. If the directory took a block for the entry,
        or from number 256 on, the unlink halts; from there on it may not even find the
        directory. */
    method CreateWriteUnlink(name: string, pieces: seq<seq<Byte>>) returns (stage: Stage, n: int)
      requires Valid() && name != "." && name != ".."
      modifies fs, dir
      ensures stage == RunStage(old(Now()), pieces)
      ensures CreateStage(old(Now())) == Complete ==> n == LowestFree(old(fs.inodes).Keys, 0)
      ensures stage == Complete ==>
                Restored(old(Now())) && (old(fs.Coherent()) ==> fs.Coherent())
    {
      hide FsOk; hide Agree; hide NodesOf; hide NodeOf; hide DirBlocks; hide FreeCount; hide Except; hide Dirs.DirOk;
      hide Dirs.Live; hide Dirs.RoomFrom; hide Dirs.Stored; hide Dirs.Erased; hide Dirs.FirstWith;
      hide Dirs.Copies; hide Images; hide WritesHalt; hide HighClear; hide Readable;
      hide Small; hide Dirs.View; hide DirMatches; hide Dirs.SectorsOk; hide RefsOf; hide FileBytes;
      hide LowestFree;
      if fs.Coherent() { fs.CoherentSmall(); }
      ghost var was := Now();
      stage, n := CreateFile(name);
      if stage != Complete { return; }
      SinceCreated(was, name, n);
      LowestFreeIs(was.v.inodes.Keys, 0, n);
      stage := WriteUnlink(n, pieces, was, was.Room(), Dirs.Entry(name, n, Dirs.Regular), was.TakesBlock());
    }

    /** `was` is the volume before file n got its entry e, which went into block k. */
    ghost predicate Since(was: Snapshot, n: nat, k: nat, e: Dirs.Entry, isNew: bool)
      reads this, fs, dir
    {
      && p < 256 && (n < 256 ==> n in fs.Sound())
      && Good(was) && n !in was.v.inodes && fs.dirs == was.dirs
      && e.ino == n && e.kind.Regular? && !Dirs.IsDot(e)
      && Dirs.FirstWith(was.Blocks(), n, 0) == |was.Blocks()|
      && Dirs.Stored(was.Blocks(), dir.Blocks(), k, e, isNew)
      && n < |was.inodeBits| && fs.inodeBits == was.inodeBits[n := true]
      && (!isNew ==> Except(fs.owner, n) == was.v.owner && fs.Get(p).sectors == was.v.inodes[p].sectors)
    }

    lemma SinceCreated(was: Snapshot, name: string, n: nat)
      requires Good(was) && Created(was, name, n) && p < 256 && name != "." && name != ".."
      ensures Since(was, n, was.Room(), Dirs.Entry(name, n, Dirs.Regular), was.TakesBlock())
    {
      hide FsOk; hide Agree; hide NodesOf; hide NodeOf; hide DirBlocks; hide FreeCount; hide Except; hide Dirs.DirOk;
      hide Dirs.Live; hide Dirs.RoomFrom; hide Dirs.Stored; hide Dirs.FirstWith; hide Images; hide HighClear;
      hide Readable; hide Small; hide Dirs.View; hide DirMatches; hide Dirs.SectorsOk; hide RefsOf; hide FileBytes;
      Dirs.NoEntryFor(was.Blocks(), n);
      NewOwnsNothing(fs.layout, fs.reserved, was.inodeBits, fs.dirs, was.v, n);
    }

    /** Both bitmaps, all inodes, all files and the directory are what they were. */
    ghost predicate Restored(was: Snapshot)
      reads this, fs, dir
    {
      && Valid() && fs.blockBits == was.v.blockBits && fs.inodeBits == was.inodeBits
      && fs.inodes == was.v.inodes && fs.owner == was.v.owner
      && fs.dirs == was.dirs && fs.Nodes() == was.nodes && dir.Blocks() == was.Blocks()
    }

    /** The part of it after the creation. */
    method WriteUnlink(n: nat, pieces: seq<seq<Byte>>, ghost was: Snapshot, ghost k: nat, ghost e: Dirs.Entry,
                       ghost isNew: bool) returns (stage: Stage)
      requires Valid() && Since(was, n, k, e, isNew)
      requires p in fs.Sound() <==> p == 0 || n < 256 || p != n % 256
      requires fs.inodes - {p} == was.v.inodes[n := EMPTY_INODE] - {p}
      requires fs.Nodes() - {p} == was.nodes[n := File([])] - {p}
      modifies fs, dir
      ensures stage == WriteHalts <==> WritesHalt(true, 0, FreeCount(old(fs.blockBits)), pieces)
      ensures stage == UnlinkLost <==> stage != WriteHalts && p !in old(fs.Sound())
      ensures stage == UnlinkHalts <==> stage != WriteHalts && stage != UnlinkLost && (isNew || n >= 256)
      ensures stage == Complete || stage == WriteHalts || stage == UnlinkLost || stage == UnlinkHalts
      ensures stage == Complete ==>
                && Restored(was)
                && (old(fs.Coherent()) && Small(old(fs.Nodes())) ==> fs.Coherent())
    {
      hide FsOk; hide Agree; hide NodesOf; hide NodeOf; hide DirBlocks; hide FreeCount; hide Except;
      hide Dirs.DirOk; hide Dirs.Live; hide WritesHalt;
      hide Dirs.Stored; hide Dirs.FirstWith; hide Images; hide Small; hide Dirs.View;
      hide DirMatches; hide Dirs.SectorsOk; hide RefsOf; hide FileBytes; hide Dirs.IsDot; hide HighClear;
      hide Readable;
      ghost var inodes1, nodes1 := fs.inodes, fs.Nodes();
      NewFileAt(was.v.inodes, inodes1, p, n);
      EmptyRefs(fs.disk);
      var halted := WriteFile(n, pieces);
      if halted { return WriteHalts; }
      MapMid(was.v.inodes, inodes1, fs.inodes, p, n, EMPTY_INODE);
      MapMid(was.nodes, nodes1, fs.Nodes(), p, n, File([]));
      var lost;
      halted, lost := UnlinkNew(n, was, k, e, isNew);
      stage := if lost then UnlinkLost else if halted then UnlinkHalts else Complete;
    }

    /** Unlink of a file whose entry is the only change to the directory since `was`. */
    method UnlinkNew(n: nat, ghost was: Snapshot, ghost k: nat, ghost e: Dirs.Entry, ghost isNew: bool)
      returns (halted: bool, lost: bool)
      requires Valid() && n in fs.inodes && Since(was, n, k, e, isNew)
      requires fs.inodes - {n} - {p} == was.v.inodes - {p} && fs.Nodes() - {n} - {p} == was.nodes - {p}
      modifies fs, dir
      ensures lost <==> p !in old(fs.Sound())
      ensures halted <==> !lost && (isNew || n >= 256)
      ensures !halted && !lost ==>
                && Restored(was)
                && (old(fs.Coherent()) && Small(old(fs.Nodes())) ==> fs.Coherent())
    {
      hide FsOk; hide Agree; hide NodesOf; hide NodeOf; hide DirBlocks; hide FreeCount; hide Except;
      hide Dirs.DirOk; hide Dirs.Live;
      hide Dirs.Stored; hide Dirs.Erased; hide Dirs.FirstWith; hide Dirs.Copies; hide Images; hide Small;
      hide Dirs.View;
      hide DirMatches; hide Dirs.SectorsOk; hide RefsOf; hide FileBytes; hide Dirs.IsDot; hide HighClear;
      hide Readable;
      halted := false;
      var answer;
      lost, answer := fs.DoReopen(p);
      if lost { return; }
      ghost var v1, inodes2, nodes2 := dir.Blocks(), fs.inodes, fs.Nodes();
      Dirs.StoredFirst(was.Blocks(), v1, k, e, isNew);
      StoredIs(was.Blocks(), v1, k, e, isNew);
      halted := RemoveEntry(n);
      if halted { return; }
      Dirs.StoredErased(was.Blocks(), v1, dir.Blocks(), was.size, k, e);
      Dirs.SizeIs(was.Blocks(), was.size, dir.size);
      SameDirectory(dir.sectors, dir.disk, dir.size, fs.disk, fs.Get(p),
                    was.sectors, was.entries, was.v.disk, was.v.inodes[p], fs.dirs, p);
      NodeAt(fs.disk, fs.dirs, fs.inodes, p);
      NodeAt(was.v.disk, fs.dirs, was.v.inodes, p);
      MapBack(was.v.inodes, inodes2, fs.inodes, p, n);
      MapBack(was.nodes, nodes2, fs.Nodes(), p, n);
      halted := Release(n, was.v, was.inodeBits);
    }

    /** The inode goes last, and with it every trace. */
    method Release(n: nat, ghost v0: View, ghost inodeBits0: seq<bool>) returns (halted: bool)
      requires n < 256 ==> n in fs.Sound()
      requires Valid() && n in fs.inodes && n !in fs.dirs
      requires FsOk(fs.layout, fs.reserved, inodeBits0, fs.dirs, v0) && n !in v0.inodes && n < |inodeBits0|
      requires fs.inodes - {n} == v0.inodes && Except(fs.owner, n) == v0.owner && fs.inodeBits == inodeBits0[n := true]
      requires forall e :: e in dir.Entries() ==> e.ino in v0.inodes
      modifies fs
      ensures halted <==> n >= 256
      ensures !halted ==>
                && Valid() && fs.inodes == v0.inodes && fs.owner == v0.owner && fs.blockBits == v0.blockBits
                && fs.inodeBits == inodeBits0 && fs.dirs == old(fs.dirs) && fs.Nodes() == old(fs.Nodes()) - {n}
                && (old(fs.Coherent()) ==> fs.Coherent())
    {
      hide FsOk; hide Agree; hide NodeOf; hide DirBlocks; hide Except; hide Dirs.DirOk; hide Dirs.Live;
      hide DirMatches;
      hide Dirs.View; hide Dirs.SectorsOk; hide RefsOf; hide FileBytes;
      ghost var ino := fs.Get(p);
      BlockListed(fs.disk, fs.dirs, p, ino);
      NotRoot(fs.layout, fs.reserved, fs.inodeBits, fs.dirs, fs.Now());
      FilesBounded(fs.layout, fs.reserved, inodeBits0, fs.dirs, v0);
      var lost;
      halted, lost := fs.DoRelease(n);
      if halted || lost { return; }
      assert fs.Nodes()[p] == old(fs.Nodes())[p];
      BlockListed(fs.disk, fs.dirs, p, ino);
      SameMatch(dir.sectors, dir.disk, dir.size, old(fs.disk), fs.disk, ino);
      assert fs.inodeBits == inodeBits0 && fs.dirs == old(fs.dirs);
      SameBitsBack(fs.layout, fs.reserved, inodeBits0, fs.dirs, v0, fs.Now());
    }

    /** The writes, seen from the directory. */
    method WriteFile(n: nat, pieces: seq<seq<Byte>>) returns (halted: bool)
      requires Valid() && n in fs.inodes && n !in fs.dirs
      modifies fs`blockBits, fs`owner, fs`disk, fs`inodes
      ensures halted <==>
                WritesHalt(old(fs.Refs(n))[0] == 0, old(fs.Get(n)).size, FreeCount(old(fs.blockBits)), pieces)
      ensures !halted ==>
                && Valid() && n in fs.inodes && fs.inodes - {n} == old(fs.inodes) - {n}
                && Except(fs.owner, n) == old(Except(fs.owner, n))
                && fs.Nodes() - {n} == old(fs.Nodes()) - {n}
                && (old(fs.Coherent()) && Small(old(fs.Nodes())) ==> fs.Coherent() && Small(fs.Nodes()))
                && (n < 256 && n in old(fs.Sound()) ==> n in fs.Sound())
                && (p in old(fs.Sound()) && (p == 0 || p != n % 256) ==> p in fs.Sound())
                && (p in fs.Sound() ==> p in old(fs.Sound()))
    {
      hide FsOk; hide Agree; hide NodeOf; hide DirBlocks; hide Except; hide Dirs.DirOk; hide Dirs.Live;
      hide DirMatches; hide HighClear; hide Readable; hide WritesHalt;
      hide Dirs.View; hide Dirs.SectorsOk; hide RefsOf; hide FileBytes;
      ghost var ino := fs.Get(p);
      BlockListed(fs.disk, fs.dirs, p, ino);
      halted := WriteAll(n, pieces);
      if halted { return; }
      assert fs.Get(p) == ino by { assert p in fs.inodes - {n}; }
      assert fs.Nodes()[p] == old(fs.Nodes())[p] by { assert p in fs.Nodes() - {n}; }
      BlockListed(fs.disk, fs.dirs, p, ino);
      SameMatch(dir.sectors, dir.disk, dir.size, old(fs.disk), fs.disk, ino);
    }
  }
}
