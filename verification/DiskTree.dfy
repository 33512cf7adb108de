/** The tree that the directories on the disk make. Entries are read back from the sectors
    that `Stores.Node` holds; `sys_mkdir` and `sys_rmdir` (fs/fs.c, fs/dir.c) are runs of the
    steps that `Files.FileSystem` performs. */
module DiskTrees {
  import opened Options
  import opened Disks
  import opened Inodes
  import opened Stores
  import opened Dirs
  import opened Paths
  import opened Trees
  import opened Volumes
  import Files

  // ---------------------------------------------------------------- entries from bytes

  /** A name ends at the first zero. */
  function NameFrom(s: seq<Byte>): string {
    if s == [] || s[0] == 0 then "" else [(s[0] as int) as char] + NameFrom(s[1..])
  }

  function KindFrom(code: Word): Kind {
    if code == 1 then Regular else if code == FT_DIRECTORY then Directory else Unknown
  }

  function EntryAt(s: Sector, j: nat): Entry
    requires j < PER_SECTOR
  {
    var b := s[24 * j..24 * j + 24];
    Entry(NameFrom(b[..16]), WordAt(b, 4), KindFrom(WordAt(b, 5)))
  }

  /** The 21 slots of a sector. */
  function SlotsOf(s: Sector): (b: seq<Entry>)
    ensures |b| == PER_SECTOR
  {
    seq(PER_SECTOR, (j: nat) requires j < PER_SECTOR => EntryAt(s, j))
  }

  /** Names are at most 16 bytes without a zero. */
  predicate Short(name: string) {
    |name| <= 16 && forall i :: 0 <= i < |name| ==> 0 < name[i] as int < 256
  }

  predicate Storable(e: Entry) {
    Short(e.name) && e.ino < U32
  }

  lemma {:induction false} NameFromAt(s: seq<Byte>, name: string)
    requires |name| <= |s| && (|name| < |s| ==> s[|name|] == 0)
    requires forall i :: 0 <= i < |name| ==> 0 < name[i] as int < 256 && s[i] as int == name[i] as int
    ensures NameFrom(s) == name
  {
    if name != "" {
      NameFromAt(s[1..], name[1..]);
      assert name == [name[0]] + name[1..];
    }
  }

  lemma WordsAfterName(name: seq<Byte>, ws: seq<Word>, k: nat)
    requires |name| == 16 && k < |ws|
    ensures WordAt(name + WordBytes(ws), 4 + k) == ws[k]
  {
    hide WordBytes; hide Join;
    WordRoundTrip(ws, k);
    var s := name + WordBytes(ws);
    assert forall i :: 0 <= i < 4 * |ws| ==> s[16 + i] == WordBytes(ws)[i];
  }

  lemma EntryRoundTrip(s: Sector, j: nat, e: Entry)
    requires j < PER_SECTOR && Storable(e) && s[24 * j..24 * j + 24] == EntryImage(e)
    ensures EntryAt(s, j) == e
  {
    hide WordBytes; hide WordAt; hide NameFrom;
    var words := [e.ino, KindCode(e.kind)];
    var b := EntryImage(e);
    assert b == NameBytes(e.name) + WordBytes(words) by { assert NameBytes(e.name) + Zeros(0) == NameBytes(e.name); }
    assert b[..16] == NameBytes(e.name);
    NameFromAt(NameBytes(e.name), e.name);
    WordsAfterName(NameBytes(e.name), words, 0);
    WordsAfterName(NameBytes(e.name), words, 1);
  }

  /** What is stored is read back. */
  lemma BlockRoundTrip(b: seq<Entry>)
    requires |b| == PER_SECTOR && forall j :: 0 <= j < |b| ==> Storable(b[j])
    ensures SlotsOf(BlockImage(b)) == b
  {
    hide EntryImage; hide EntryAt; hide Storable;
    var s := BlockImage(b);
    forall j: nat | j < PER_SECTOR ensures EntryAt(s, j) == b[j] {
      forall i: nat | i < 24 ensures s[24 * j..24 * j + 24][i] == EntryImage(b[j])[i] {
        assert (24 * j + i) / 24 == j && (24 * j + i) % 24 == i;
      }
      assert s[24 * j..24 * j + 24] == EntryImage(b[j]);
      EntryRoundTrip(s, j, b[j]);
    }
  }

  lemma {:induction false} NameShort(s: seq<Byte>)
    ensures |NameFrom(s)| <= |s| && forall i :: 0 <= i < |NameFrom(s)| ==> 0 < NameFrom(s)[i] as int < 256
  {
    if s != [] && s[0] != 0 { NameShort(s[1..]); }
  }

  lemma SlotsStorable(s: Sector)
    ensures forall j :: 0 <= j < PER_SECTOR ==> Storable(SlotsOf(s)[j])
  {
    hide NameFrom; hide WordAt;
    forall j: nat | j < PER_SECTOR ensures Storable(EntryAt(s, j)) { NameShort(s[24 * j..24 * j + 24][..16]); }
  }

  lemma DotsRead(n: nat, parent: nat)
    requires n < U32 && parent < U32
    ensures SlotsOf(DotsSector(n, parent)) == FirstBlock(n, parent)
  {
    hide SlotsOf; hide BlockImage; hide DotsSector;
    DotsImage(n, parent);
    BlockRoundTrip(FirstBlock(n, parent));
  }

  // ---------------------------------------------------------------- directories as values

  predicate IsNamed(e: Entry) {
    !e.kind.Unknown? && !IsDot(e)
  }

  /** The entries for one number are in one block. */
  ghost predicate OneBlock(v: seq<seq<Entry>>) {
    forall i, j, k, l ::
      && 0 <= i < |v| && 0 <= j < |v[i]| && 0 <= k < |v| && 0 <= l < |v[k]|
      && IsNamed(v[i][j]) && IsNamed(v[k][l]) && v[i][j].ino == v[k][l].ino
      ==> i == k
  }

  lemma {:induction false} SlotOf(v: seq<seq<Entry>>, n: nat, e: Entry) returns (i: nat, j: nat)
    requires n <= |v| && e in LiveTo(v, n)
    ensures i < n && j < |v[i]| && v[i][j] == e && !e.kind.Unknown?
  {
    hide LiveIn;
    if e in LiveTo(v, n - 1) {
      i, j := SlotOf(v, n - 1, e);
    } else {
      LiveInFrom(v[n - 1], |v[n - 1]|, e);
      i := n - 1;
      j :| 0 <= j < |v[i]| && v[i][j] == e && !e.kind.Unknown?;
    }
  }

  /** The dots stay in front. */
  lemma DotsStay(v: seq<seq<Entry>>, v': seq<seq<Entry>>, size: nat, size': nat)
    requires DirOk(v, size) && DirOk(v', size')
    requires v'[0][0] == v[0][0] && v'[0][1] == v[0][1]
    ensures SameDots(Live(v), Live(v'))
  {
    hide Live;
    EmptyMeans(v, size);
    EmptyMeans(v', size');
  }

  lemma HasIs(live: seq<Entry>)
    requires |live| >= 2
    ensures multiset(live) == multiset(live[..2]) + multiset(live[2..])
    ensures forall x :: Has(live, x) <==> x in multiset(live[2..])
  {
    assert live == live[..2] + live[2..];
    forall x | Has(live, x) ensures x in live[2..] {
      var k :| 2 <= k < |live| && live[k] == x;
      assert live[2..][k - 2] == x;
    }
    forall x | x in live[2..] ensures Has(live, x) {
      var k :| 0 <= k < |live[2..]| && live[2..][k] == x;
      assert live[k + 2] == x;
    }
  }

  lemma Cancel<T>(d: multiset<T>, a: multiset<T>, b: multiset<T>, m: multiset<T>)
    requires d + b == d + a + m
    ensures b == a + m
  {
    forall x ensures b[x] == (a + m)[x] { assert (d + b)[x] == d[x] + b[x] == d[x] + a[x] + m[x]; }
  }

  lemma InSum<T>(a: seq<T>, b: seq<T>, m: multiset<T>)
    requires multiset(b) == multiset(a) + m
    ensures forall x :: x in b <==> x in a || x in m
  {
    forall x ensures x in b <==> x in a || x in m { assert x in b <==> x in multiset(b); }
  }

  /** `live'` lists `m` besides what `live` lists. */
  lemma HasMore(live: seq<Entry>, live': seq<Entry>, m: multiset<Entry>)
    requires SameDots(live, live') && multiset(live') == multiset(live) + m
    ensures forall x :: Has(live', x) <==> Has(live, x) || x in m
    ensures forall x :: x in live' <==> x in live || x in m
  {
    hide Has;
    HasIs(live);
    HasIs(live');
    Cancel(multiset(live[..2]), multiset(live[2..]), multiset(live'[2..]), m);
    InSum(live, live', m);
  }

  /** An entry for a new number was stored. */
  lemma StoredKeeps(v: seq<seq<Entry>>, v': seq<seq<Entry>>, size: nat, k: nat, e: Entry, isNew: bool)
    requires DirOk(v, size) && Stored(v, v', k, e, isNew) && IsNamed(e) && OneBlock(v)
    requires forall x :: x in Live(v) ==> x.ino != e.ino
    ensures DirOk(v', size + if isNew then 2 * ENTRY_SIZE else ENTRY_SIZE) && OneBlock(v')
    ensures SameDots(Live(v), Live(v')) && forall x :: Has(Live(v'), x) <==> Has(Live(v), x) || x == e
    ensures forall x :: x in Live(v') ==> x in Live(v) || x == e
  {
    hide Live; hide OneBlock; hide Has; hide Twice; hide SameDots; hide BlockOk; hide RestOk;
    var size' := size + if isNew then 2 * ENTRY_SIZE else ENTRY_SIZE;
    assert DotsFirst(v[0]);
    if isNew {
      NewBlockStep(v, size, k, e);
      DotsStay(v, v', size, size');
      NewInBlock(v, k, 0, Twice(e), e);
      HasMore(Live(v), Live(v'), multiset{e, e});
    } else {
      var j :| 0 <= j < |v[k]| && v[k][j].kind.Unknown? && v' == v[k := v[k][j := e]];
      FreeSlotStep(v, size, k, j, e);
      DotsStay(v, v', size, size');
      NewInBlock(v, k, j, v[k][j := e], e);
      HasMore(Live(v), Live(v'), multiset{e});
    }
  }

  lemma NewInBlock(v: seq<seq<Entry>>, k: nat, j: nat, b: seq<Entry>, e: Entry)
    requires OneBlock(v) && k < |v| && forall x :: x in Live(v) ==> x.ino != e.ino
    requires b == Twice(e) || (j < |v[k]| && b == v[k][j := e])
    ensures OneBlock(v[k := b])
  {
    hide LiveTo;
    var v' := v[k := b];
    forall i, j | 0 <= i < |v| && 0 <= j < |v[i]| && IsNamed(v[i][j]) ensures v[i][j].ino != e.ino {
      LiveAt(v, i, j);
      assert v[i][j] in Live(v);
    }
    assert forall j :: 0 <= j < |b| && IsNamed(b[j]) && b[j] != e ==> j < |v[k]| && b[j] == v[k][j];
  }

  /** The one entry for a number was erased. */
  lemma ErasedKeeps(v: seq<seq<Entry>>, size: nat, k: nat, j: nat, c: nat)
    requires DirOk(v, size) && OneBlock(v) && k < |v| && j < |v[k]| && Match(v[k][j], c)
    requires Copies(v[k], c, |v[k]|) < 2
    ensures var b := v[k]; var e := b[j];
            var v' := v[k := if k != 0 && |LiveIn(b, |b|)| == 1 then [] else b[j := ZERO]];
            && size >= ENTRY_SIZE && DirOk(v', size - ENTRY_SIZE) && OneBlock(v') && SameDots(Live(v), Live(v'))
            && (forall x :: Has(Live(v'), x) <==> Has(Live(v), x) && x != e)
            && (forall x :: x in Live(v') ==> x in Live(v) && (IsNamed(x) ==> x.ino != c))
            && Has(Live(v), e) && IsNamed(e) && multiset(Live(v)) == multiset(Live(v')) + multiset{e}
  {
    hide LiveTo; hide LiveIn; hide OneBlock; hide Has; hide SameDots; hide BlockOk; hide RestOk; hide Copies;
    var b := v[k];
    var e, b' := b[j], if k != 0 && |LiveIn(b, |b|)| == 1 then [] else b[j := ZERO];
    var v' := v[k := b'];
    assert DotsFirst(v[0]);
    BlockFacts(v, size, k);
    DeleteStep(v, size, k, j, c);
    DotsStay(v, v', size, size - ENTRY_SIZE);
    LessInBlock(v, k, j, b');
    forall x | x in Live(v') && IsNamed(x) ensures x.ino != c {
      NoneLeftFor(v, k, j, c, b', x);
    }
    assert !Has(Live(v'), e) by { HasNamed(Live(v'), e); }
    DotsBack(Live(v), Live(v'));
    HasMore(Live(v'), Live(v), multiset{e});
  }

  lemma DotsBack(live: seq<Entry>, live': seq<Entry>)
    requires SameDots(live, live')
    ensures SameDots(live', live)
  {
  }

  lemma HasNamed(live: seq<Entry>, e: Entry)
    ensures Has(live, e) ==> e in live
  {
  }

  lemma LessInBlock(v: seq<seq<Entry>>, k: nat, j: nat, b: seq<Entry>)
    requires OneBlock(v) && k < |v| && j < |v[k]| && (b == [] || b == v[k][j := ZERO])
    ensures OneBlock(v[k := b])
  {
    var v' := v[k := b];
    assert forall j :: 0 <= j < |b| && IsNamed(b[j]) ==> j < |v[k]| && b[j] == v[k][j];
  }

  lemma NoneLeftFor(v: seq<seq<Entry>>, k: nat, j: nat, c: nat, b': seq<Entry>, x: Entry)
    requires OneBlock(v) && k < |v| && j < |v[k]| && Match(v[k][j], c) && Copies(v[k], c, |v[k]|) < 2
    requires b' == [] || b' == v[k][j := ZERO]
    requires x in Live(v[k := b']) && IsNamed(x)
    ensures x.ino != c
  {
    hide LiveTo; hide Copies;
    var v' := v[k := b'];
    var i, l := SlotOf(v', |v'|, x);
    if x.ino == c {
      assert v'[i][l] == v[i][l];
      assert i == k;
      TwoCopies(v[k], c, j, l);
    }
  }

  lemma TwoCopies(b: seq<Entry>, c: nat, i: nat, j: nat)
    requires i < |b| && j < |b| && i != j && Match(b[i], c) && Match(b[j], c)
    ensures Copies(b, c, |b|) >= 2
  {
    hide Match;
    var lo, hi := if i < j then i else j, if i < j then j else i;
    CopiesSome(b, c, lo, hi);
    assert Copies(b, c, hi + 1) == Copies(b, c, hi) + 1;
    CopiesGrow(b, c, hi + 1, |b|);
  }

  // ---------------------------------------------------------------- the tree of a store

  /** The blocks of a directory, as `sync_dir_entry` and the searches read them. */
  function BlocksOf(node: Node): (v: seq<seq<Entry>>)
    ensures |v| == DIRECT
  {
    seq(DIRECT, (k: nat) requires k < DIRECT => if node.Dir? && k in node.blocks then SlotsOf(node.blocks[k]) else [])
  }

  function TreeOf(store: Store): Tree {
    map d | d in store && store[d].Dir? :: Live(BlocksOf(store[d]))
  }

  /** A directory whose size and slots are in order and whose entries are for live inodes of
      their kind. */
  ghost predicate GoodDir(store: Store, d: nat) {
    && d in store && DirNode(store[d])
    && forall x :: x in Live(BlocksOf(store[d])) ==> x.ino in store && (x.kind.Directory? <==> store[x.ino].Dir?)
  }

  ghost predicate DirNode(node: Node) {
    && node.Dir? && (forall k :: k in node.blocks ==> k < DIRECT)
    && DirOk(BlocksOf(node), node.size) && OneBlock(BlocksOf(node))
  }

  ghost predicate DiskOk(store: Store, depth: map<nat, nat>) {
    && TreeOk(TreeOf(store), depth) && (forall n :: n in store ==> n < MAX_INODES)
    && forall d {:trigger GoodDir(store, d)} :: d in store && store[d].Dir? ==> GoodDir(store, d)
  }

  lemma BlocksSet(size: nat, node: Node, k: nat, content: Sector)
    requires node.Dir? && k < DIRECT
    ensures BlocksOf(Dir(size, node.blocks[k := content])) == BlocksOf(node)[k := SlotsOf(content)]
  {
    hide SlotsOf;
  }

  lemma BlocksDrop(size: nat, node: Node, k: nat)
    requires node.Dir? && k < DIRECT
    ensures BlocksOf(Dir(size, node.blocks - {k})) == BlocksOf(node)[k := []]
  {
    hide SlotsOf;
  }

  lemma BlockThere(node: Node, k: nat)
    requires k < DIRECT && node.Dir?
    ensures BlocksOf(node)[k] != [] <==> k in node.blocks
    ensures k in node.blocks ==> |BlocksOf(node)[k]| == PER_SECTOR
    ensures forall j :: 0 <= j < |BlocksOf(node)[k]| ==> Storable(BlocksOf(node)[k][j])
  {
    hide Storable; hide EntryAt;
    if k in node.blocks { SlotsStorable(node.blocks[k]); }
  }

  // ---------------------------------------------------------------- an entry comes

  function FirstFree(b: seq<Entry>, j: nat): (r: nat)
    requires j <= |b|
    ensures j <= r <= |b| && (r < |b| ==> b[r].kind.Unknown?) && forall i :: j <= i < r ==> !b[i].kind.Unknown?
    decreases |b| - j
  {
    if j == |b| || b[j].kind.Unknown? then j else FirstFree(b, j + 1)
  }

  /** What `sync_dir_entry` and the inode sync do to directory p. */
  function AddOps(p: nat, node: Node, e: Entry): seq<Op>
    requires node.Dir?
  {
    var v := BlocksOf(node);
    var k := RoomFrom(v, 0);
    if k == DIRECT then []
    else if v[k] == [] then [GrowDir(p, k, BlockImage(Twice(e)), (node.size + 2 * ENTRY_SIZE) % U32)]
    else
      var j := FirstFree(v[k], 0);
      if j == |v[k]| then []
      else [StoreInDir(p, k, BlockImage(v[k][j := e]), (node.size + ENTRY_SIZE) % U32)]
  }

  ghost predicate Entered(node: Node, node': Node, e: Entry) {
    && DirNode(node') && SameDots(Live(BlocksOf(node)), Live(BlocksOf(node')))
    && (forall x :: Has(Live(BlocksOf(node')), x) <==> Has(Live(BlocksOf(node)), x) || x == e)
    && (forall x :: x in Live(BlocksOf(node')) ==> x in Live(BlocksOf(node)) || x == e)
  }

  lemma AddStep(store: Store, p: nat, e: Entry)
    requires p in store && DirNode(store[p]) && IsNamed(e) && Storable(e)
    requires RoomFrom(BlocksOf(store[p]), 0) < DIRECT && forall x :: x in Live(BlocksOf(store[p])) ==> x.ino != e.ino
    ensures var ops := AddOps(p, store[p], e);
            |ops| == 1 && var s' := Step(store, ops[0]);
            p in s' && s' == store[p := s'[p]] && Entered(store[p], s'[p], e)
  {
    hide Live; hide SlotsOf; hide BlockImage; hide OneBlock; hide Has; hide SameDots; hide BlocksOf; hide Twice;
    hide DirOk; hide Full; hide IsNamed; hide Storable;
    var node := store[p];
    var v := BlocksOf(node);
    var k := RoomFrom(v, 0);
    SizeBound(v, node.size);
    BlockThere(node, k);
    if v[k] == [] {
      NewBlock(e);
      BlocksSet(node.size + 2 * ENTRY_SIZE, node, k, BlockImage(Twice(e)));
      StoredKeeps(v, v[k := Twice(e)], node.size, k, e, true);
    } else {
      var j := FirstFree(v[k], 0);
      if j == |v[k]| { IsFull(v[k]); }
      BlockRoundTrip(v[k][j := e]);
      BlocksSet(node.size + ENTRY_SIZE, node, k, BlockImage(v[k][j := e]));
      StoredKeeps(v, v[k := v[k][j := e]], node.size, k, e, false);
    }
  }

  lemma NewBlock(e: Entry)
    requires Storable(e)
    ensures SlotsOf(BlockImage(Twice(e))) == Twice(e) && Twice(e) != []
  {
    hide SlotsOf; hide BlockImage;
    BlockRoundTrip(Twice(e));
  }

  /** `sys_mkdir`: the entry in p and the new directory, in the order of the two inode syncs. */
  function MkdirOps(store: Store, p: nat, name: string): seq<Op>
    requires IsDir(store, p)
  {
    AddOps(p, store[p], Entry(name, LowestFree(store.Keys, 0), Directory)) + [MakeDir(p)]
  }

  lemma AfterTwo(store: Store, a: Op, b: Op)
    ensures After(store, [a] + [b]) == Step(Step(store, a), b)
  {
    hide Step;
    var ops := [a] + [b];
    AfterNone(store, ops);
    AfterNext(store, ops, 0);
    AfterNext(store, ops, 1);
    assert ops[..2] == ops;
  }

  /** The node of a new directory. */
  lemma NewNodeGood(c: nat, p: nat)
    requires c < U32 && p < U32
    ensures var node := Dir(48, map[0 := DotsSector(c, p)]);
            DirNode(node) && Live(BlocksOf(node)) == NewDir(c, p)
  {
    hide Live; hide SlotsOf; hide DotsSector;
    var node := Dir(48, map[0 := DotsSector(c, p)]);
    DotsRead(c, p);
    NewBlocks(BlocksOf(node), Entry(".", c, Directory), Entry("..", p, Directory));
  }

  /** Directory c is new, and p has the entry e for it. */
  ghost predicate Grafted(store: Store, s2: Store, p: nat, c: nat, e: Entry) {
    && IsDir(store, p) && c !in store && p in s2 && c in s2 && s2 == store[c := s2[c]][p := s2[p]]
    && DirNode(s2[c]) && Live(BlocksOf(s2[c])) == NewDir(c, p) && Entered(store[p], s2[p], e)
    && e.ino == c && e.kind.Directory?
  }

  lemma TreeAfterMkdir(store: Store, s2: Store, p: nat, c: nat, e: Entry)
    requires Grafted(store, s2, p, c, e)
    ensures TreeOf(s2) == TreeOf(store)[p := Live(BlocksOf(s2[p]))][c := NewDir(c, p)]
  {
    hide Live; hide BlocksOf; hide OneBlock; hide DirOk; hide Has; hide SameDots;
  }

  lemma GoodAfterMkdir(store: Store, s2: Store, p: nat, c: nat, e: Entry, d: nat)
    requires Grafted(store, s2, p, c, e) && GoodDir(store, p)
    requires d in s2 && s2[d].Dir? && (d in store && store[d].Dir? ==> GoodDir(store, d))
    ensures GoodDir(s2, d)
  {
    hide Live; hide BlocksOf; hide OneBlock; hide DirOk; hide Has; hide SameDots;
  }

  lemma MkdirGrafts(store: Store, p: nat, name: string)
    requires IsDir(store, p) && GoodDir(store, p) && p < MAX_INODES && Plain(name) && Short(name)
    requires LowestFree(store.Keys, 0) < MAX_INODES && RoomFrom(BlocksOf(store[p]), 0) < DIRECT
    ensures var c := LowestFree(store.Keys, 0);
            Grafted(store, After(store, MkdirOps(store, p, name)), p, c, Entry(name, c, Directory))
  {
    hide Live; hide BlocksOf; hide DirNode; hide DotsSector; hide LowestFree; hide After; hide RoomFrom; hide Plain;
    hide AddOps; hide SameDots; hide Has;
    var c := LowestFree(store.Keys, 0);
    LowestFreeMin(store.Keys, 0);
    var e := Entry(name, c, Directory);
    PlainNamed(e);
    NewNodeGood(c, p);
    AddStep(store, p, e);
    var op := AddOps(p, store[p], e)[0];
    assert AddOps(p, store[p], e) == [op];
    AfterTwo(store, op, MakeDir(p));
    assert Step(store, op).Keys == store.Keys;
  }

  lemma GraftedTree(store: Store, s2: Store, depth: map<nat, nat>, p: nat, c: nat, e: Entry)
    requires DiskOk(store, depth) && Grafted(store, s2, p, c, e) && c != 0 && Plain(e.name)
    requires FindName(TreeOf(store)[p], e.name).None?
    ensures p in depth && TreeOk(TreeOf(s2), depth[c := depth[p] + 1])
    ensures p in TreeOf(s2) && Has(TreeOf(s2)[p], e)
  {
    hide Live; hide BlocksOf; hide DirNode; hide TreeOk; hide Plain; hide FindName; hide SameDots; hide Has;
    var dirs := TreeOf(store);
    TreeAfterMkdir(store, s2, p, c, e);
    InTree(dirs, depth, p);
    assert GoodDir(store, p);
    forall x | Has(dirs[p], x) ensures x.name != e.name && x.ino != c { NotListed(dirs[p], x, e.name); }
    MkdirTree(dirs, depth, p, e.name, c, Live(BlocksOf(s2[p])));
  }

  /** `sys_mkdir` keeps the tree on the disk, and the new directory is found by its name. */
  lemma MkdirKeeps(store: Store, depth: map<nat, nat>, p: nat, name: string)
    requires DiskOk(store, depth) && IsDir(store, p) && Plain(name) && Short(name)
    requires FindName(TreeOf(store)[p], name).None? && LowestFree(store.Keys, 0) < MAX_INODES
    requires RoomFrom(BlocksOf(store[p]), 0) < DIRECT
    ensures p in depth
    ensures var c, s2 := LowestFree(store.Keys, 0), After(store, MkdirOps(store, p, name));
            && DiskOk(s2, depth[c := depth[p] + 1]) && Walk(TreeOf(s2), p, [name]) == AtDir(c)
  {
    hide Live; hide BlocksOf; hide DirNode; hide LowestFree; hide After; hide TreeOk; hide MkdirOps; hide RoomFrom;
    hide Plain; hide FindName; hide Walk; hide Entered; hide Short; hide TreeOf; hide Has;
    var c, s2 := LowestFree(store.Keys, 0), After(store, MkdirOps(store, p, name));
    var e := Entry(name, c, Directory);
    RootThere(store, depth);
    assert GoodDir(store, p);
    MkdirGrafts(store, p, name);
    GraftedTree(store, s2, depth, p, c, e);
    forall d | d in s2 && s2[d].Dir? ensures GoodDir(s2, d) {
      assert d in store && store[d].Dir? ==> GoodDir(store, d);
      GoodAfterMkdir(store, s2, p, c, e, d);
    }
    FoundNew(TreeOf(s2), depth[c := depth[p] + 1], p, e);
  }

  lemma RootThere(store: Store, depth: map<nat, nat>)
    requires DiskOk(store, depth)
    ensures 0 in store
  {
    hide Live; hide BlocksOf;
    assert 0 in TreeOf(store);
  }

  lemma PlainNamed(e: Entry)
    requires Plain(e.name) && e.kind.Directory? && Short(e.name) && e.ino < MAX_INODES
    ensures IsNamed(e) && Storable(e)
  {
  }

  lemma InTree(dirs: Tree, depth: map<nat, nat>, p: nat)
    requires TreeOk(dirs, depth) && p in dirs
    ensures p in depth && DirIn(dirs, depth, p)
  {
  }

  lemma NotListed(live: seq<Entry>, x: Entry, name: string)
    requires FindName(live, name).None? && Has(live, x)
    ensures x.name != name && x in live
  {
    hide FindName;
    var k :| 2 <= k < |live| && live[k] == x;
    if x.name == name { FindSome(live, name, k); }
  }

  lemma FoundNew(dirs: Tree, depth: map<nat, nat>, p: nat, e: Entry)
    requires TreeOk(dirs, depth) && p in dirs && Has(dirs[p], e) && e.kind.Directory?
    ensures Walk(dirs, p, [e.name]) == AtDir(e.ino)
  {
    hide FindName;
    var k :| 2 <= k < |dirs[p]| && dirs[p][k] == e;
    assert DirIn(dirs, depth, p);
    FindPlain(dirs[p], p, e.name, k);
    assert Walk(dirs, e.ino, []) == AtDir(e.ino);
  }

  // ---------------------------------------------------------------- an entry goes

  function MatchFrom(b: seq<Entry>, c: nat, j: nat): (r: nat)
    requires j <= |b|
    ensures j <= r <= |b| && (r < |b| ==> Match(b[r], c)) && forall i :: j <= i < r ==> !Match(b[i], c)
    decreases |b| - j
  {
    if j == |b| || Match(b[j], c) then j else MatchFrom(b, c, j + 1)
  }

  /** What `delete_dir_entry` and the inode sync do to directory p; nothing where the entry is
      missing or stored twice, which halts. */
  function DropOps(p: nat, node: Node, c: nat): seq<Op>
    requires node.Dir?
  {
    var v := BlocksOf(node);
    var k := FirstWith(v, c, 0);
    if k == DIRECT || Copies(v[k], c, |v[k]|) != 1 then []
    else
      var j := MatchFrom(v[k], c, 0);
      if j == |v[k]| then []
      else if k != 0 && |LiveIn(v[k], |v[k]|)| == 1 then [ShrinkDir(p, k, (node.size - ENTRY_SIZE) % U32)]
      else [StoreInDir(p, k, BlockImage(v[k][j := ZERO]), (node.size - ENTRY_SIZE) % U32)]
  }

  ghost predicate Left(node: Node, node': Node, e: Entry) {
    && DirNode(node') && SameDots(Live(BlocksOf(node)), Live(BlocksOf(node'))) && Has(Live(BlocksOf(node)), e)
    && (forall x :: Has(Live(BlocksOf(node')), x) <==> Has(Live(BlocksOf(node)), x) && x != e)
    && (forall x :: x in Live(BlocksOf(node')) ==> x in Live(BlocksOf(node)) && (IsNamed(x) ==> x.ino != e.ino))
    && IsNamed(e) && multiset(Live(BlocksOf(node))) == multiset(Live(BlocksOf(node'))) + multiset{e}
  }

  lemma DropStep(store: Store, p: nat, c: nat) returns (e: Entry)
    requires p in store && DirNode(store[p]) && DropOps(p, store[p], c) != []
    ensures var ops := DropOps(p, store[p], c);
            |ops| == 1 && var s' := Step(store, ops[0]);
            p in s' && s' == store[p := s'[p]] && Left(store[p], s'[p], e) && e.ino == c
  {
    hide Live; hide LiveIn; hide SlotsOf; hide BlockImage; hide OneBlock; hide Has; hide SameDots; hide BlocksOf;
    hide DirOk; hide Copies; hide IsDot; hide Storable; hide FirstWith; hide IsNamed;
    var node := store[p];
    var v := BlocksOf(node);
    var k := FirstWith(v, c, 0);
    var j := MatchFrom(v[k], c, 0);
    e := v[k][j];
    SizeBound(v, node.size);
    BlockThere(node, k);
    ErasedKeeps(v, node.size, k, j, c);
    if k != 0 && |LiveIn(v[k], |v[k]|)| == 1 {
      BlocksDrop(node.size - ENTRY_SIZE, node, k);
    } else {
      ZeroStorable();
      BlockRoundTrip(v[k][j := ZERO]);
      BlocksSet(node.size - ENTRY_SIZE, node, k, BlockImage(v[k][j := ZERO]));
    }
  }

  lemma ZeroStorable()
    ensures Storable(ZERO)
  {
  }

  /** `sys_rmdir` of c, which is in p: the entry first, then the inode. */
  function RmdirOps(store: Store, p: nat, c: nat): seq<Op>
    requires IsDir(store, p)
  {
    DropOps(p, store[p], c) + [RemoveDir(c)]
  }

  /** Directory c is gone, and p has lost the entry for it. */
  ghost predicate Pruned(store: Store, s2: Store, p: nat, c: nat, e: Entry) {
    && IsDir(store, p) && IsDir(store, c) && p != c && p in s2 && s2 == store[p := s2[p]] - {c}
    && Left(store[p], s2[p], e) && e.ino == c
  }

  lemma RmdirPrunes(store: Store, p: nat, c: nat) returns (e: Entry)
    requires IsDir(store, p) && IsDir(store, c) && p != c && store[c].size == 48 && DirNode(store[p])
    requires DropOps(p, store[p], c) != []
    ensures Pruned(store, After(store, RmdirOps(store, p, c)), p, c, e)
  {
    hide Live; hide BlocksOf; hide DirNode; hide After; hide DropOps; hide SameDots; hide Has;
    e := DropStep(store, p, c);
    var op := DropOps(p, store[p], c)[0];
    assert DropOps(p, store[p], c) == [op];
    AfterTwo(store, op, RemoveDir(c));
  }

  lemma TreeAfterRmdir(store: Store, s2: Store, p: nat, c: nat, e: Entry)
    requires Pruned(store, s2, p, c, e)
    ensures TreeOf(s2) == TreeOf(store)[p := Live(BlocksOf(s2[p]))] - {c}
  {
    hide Live; hide BlocksOf; hide OneBlock; hide DirOk; hide Has; hide SameDots;
  }

  /** An empty directory is in the listing of its parent only. */
  lemma OnlyInParent(dirs: Tree, depth: map<nat, nat>, c: nat, d: nat, x: Entry)
    requires TreeOk(dirs, depth) && c in dirs && |dirs[c]| == 2 && d in dirs && d != c && x in dirs[d] && x.ino == c
    requires x.kind.Directory?
    ensures Parent(dirs, c) == d && IsNamed(x)
  {
    hide Plain;
    assert DirIn(dirs, depth, d);
    var k :| 0 <= k < |dirs[d]| && dirs[d][k] == x;
    if k == 1 {
      if d != 0 { NoneBelow(dirs[c], d); }
      assert false;
    }
    PlainIsNamed(x);
  }

  lemma PlainIsNamed(x: Entry)
    requires Plain(x.name) && !x.kind.Unknown?
    ensures IsNamed(x)
  {
  }

  lemma GoodAfterRmdir(store: Store, s2: Store, depth: map<nat, nat>, p: nat, c: nat, e: Entry, d: nat)
    requires DiskOk(store, depth) && Pruned(store, s2, p, c, e) && Parent(TreeOf(store), c) == p
    requires |TreeOf(store)[c]| == 2 && d in s2 && s2[d].Dir?
    ensures GoodDir(s2, d)
  {
    hide Live; hide BlocksOf; hide OneBlock; hide DirOk; hide Has; hide SameDots; hide TreeOk; hide Parent;
    hide IsNamed;
    var dirs := TreeOf(store);
    assert GoodDir(store, d);
    forall x | x in Live(BlocksOf(s2[d])) ensures x.ino in s2 && (x.kind.Directory? <==> s2[x.ino].Dir?) {
      assert x in dirs[d];
      if x.ino == c { OnlyInParent(dirs, depth, c, d, x); }
    }
  }

  /** `sys_rmdir` of an empty directory keeps the tree on the disk. */
  lemma RmdirKeeps(store: Store, depth: map<nat, nat>, c: nat)
    requires DiskOk(store, depth) && IsDir(store, c) && c != 0 && store[c].size == 48
    ensures IsDir(store, Parent(TreeOf(store), c))
    ensures var p := Parent(TreeOf(store), c);
            DropOps(p, store[p], c) != [] ==>
              var s2 := After(store, RmdirOps(store, p, c));
              DiskOk(s2, depth) && c !in s2
  {
    hide Live; hide BlocksOf; hide OneBlock; hide DirOk; hide After; hide RmdirOps; hide DropOps; hide Has;
    hide SameDots;
    var dirs := TreeOf(store);
    var p := Parent(dirs, c);
    assert GoodDir(store, c) && DirIn(dirs, depth, c);
    assert p in dirs && p != c;
    assert GoodDir(store, p);
    TwoListed(store[c]);
    if DropOps(p, store[p], c) != [] {
      var e := RmdirPrunes(store, p, c);
      PrunedKeeps(store, After(store, RmdirOps(store, p, c)), depth, p, c, e);
    }
  }

  lemma TwoListed(node: Node)
    requires DirNode(node) && node.size == 48
    ensures |Live(BlocksOf(node))| == 2
  {
    hide Live; hide BlocksOf; hide OneBlock;
  }

  lemma PrunedKeeps(store: Store, s2: Store, depth: map<nat, nat>, p: nat, c: nat, e: Entry)
    requires DiskOk(store, depth) && Pruned(store, s2, p, c, e) && Parent(TreeOf(store), c) == p && c != 0
    requires |TreeOf(store)[c]| == 2
    ensures DiskOk(s2, depth) && c !in s2
  {
    hide Live; hide BlocksOf; hide DirNode; hide TreeOk; hide Has; hide SameDots; hide Parent; hide GoodDir;
    var dirs := TreeOf(store);
    TreeAfterRmdir(store, s2, p, c, e);
    RmdirTree(dirs, depth, c, e, Live(BlocksOf(s2[p])));
    forall d | d in s2 && s2[d].Dir? ensures GoodDir(s2, d) { GoodAfterRmdir(store, s2, depth, p, c, e, d); }
  }

  // ---------------------------------------------------------------- whole runs

  /** `mkdir` and `rmdir` of a name in the directory that a path leads to. */
  datatype Command = Mkdir(at: seq<string>, name: string) | Rmdir(at: seq<string>, name: string)

  /** The steps of a command that goes through; none where the path leads nowhere, the name is
      there or is not, the directory is not empty, or nothing is free. */
  function CommandOps(store: Store, cmd: Command): seq<Op> {
    var dirs := TreeOf(store);
    var hit := Walk(dirs, 0, cmd.at);
    if !(hit.AtDir? && IsDir(store, hit.d) && Plain(cmd.name)) then []
    else
      var f := FindName(dirs[hit.d], cmd.name);
      match cmd
      case Mkdir(_, name) =>
        if f.Some? || !Short(name) || LowestFree(store.Keys, 0) >= MAX_INODES
           || RoomFrom(BlocksOf(store[hit.d]), 0) == DIRECT
        then [] else MkdirOps(store, hit.d, name)
      case Rmdir(_, _) =>
        if f.None? || !f.value.kind.Directory? || !IsDir(store, f.value.ino) || store[f.value.ino].size != 48
           || DropOps(hit.d, store[hit.d], f.value.ino) == []
        then [] else RmdirOps(store, hit.d, f.value.ino)
  }

  lemma CommandKeeps(store: Store, depth: map<nat, nat>, cmd: Command) returns (depth': map<nat, nat>)
    requires DiskOk(store, depth)
    ensures DiskOk(After(store, CommandOps(store, cmd)), depth')
  {
    hide Live; hide BlocksOf; hide LowestFree; hide TreeOk; hide MkdirOps; hide RmdirOps; hide DropOps; hide RoomFrom;
    hide Plain; hide FindName; hide Walk; hide GoodDir; hide Short; hide Step; hide Parent;
    depth' := depth;
    var dirs := TreeOf(store);
    var hit := Walk(dirs, 0, cmd.at);
    if CommandOps(store, cmd) != [] {
      var p := hit.d;
      match cmd
      case Mkdir(_, name) =>
        MkdirKeeps(store, depth, p, name);
        depth' := depth[LowestFree(store.Keys, 0) := depth[p] + 1];
      case Rmdir(_, name) =>
        var c := FindName(dirs[p], name).value.ino;
        FoundChild(dirs, depth, p, name);
        RmdirKeeps(store, depth, c);
    } else {
      AfterNone(store, []);
    }
  }

  lemma FoundChild(dirs: Tree, depth: map<nat, nat>, p: nat, name: string)
    requires TreeOk(dirs, depth) && p in dirs && Plain(name) && FindName(dirs[p], name).Some?
    requires FindName(dirs[p], name).value.kind.Directory?
    ensures var c := FindName(dirs[p], name).value.ino; c != 0 && Parent(dirs, c) == p
  {
    hide FindName; hide Name; hide NameOf; hide PathTo;
    var k := FindFirst(dirs[p], name);
    assert DirIn(dirs, depth, p);
    ChildName(dirs, depth, p, k);
  }

  /** All steps of a run of commands, each resolved in the tree that the ones before it left. */
  function RunOps(store: Store, cmds: seq<Command>): seq<Op>
    decreases |cmds|
  {
    if cmds == [] then []
    else
      var ops := CommandOps(store, cmds[0]);
      ops + RunOps(After(store, ops), cmds[1..])
  }

  lemma {:induction false} AfterConcat(store: Store, a: seq<Op>, b: seq<Op>)
    ensures After(store, a + b) == After(After(store, a), b)
    decreases |b|
  {
    hide Step;
    if b == [] {
      assert a + b == a;
    } else {
      var n := |a + b| - 1;
      assert (a + b)[..n] == a + b[..|b| - 1] && (a + b)[n] == b[|b| - 1];
      AfterConcat(store, a, b[..|b| - 1]);
    }
  }

  /** Whatever the commands, the disk holds a tree in the end. */
  lemma {:induction false} RunKeeps(store: Store, depth: map<nat, nat>, cmds: seq<Command>)
    returns (depth': map<nat, nat>)
    requires DiskOk(store, depth)
    ensures DiskOk(After(store, RunOps(store, cmds)), depth')
    decreases |cmds|
  {
    hide DiskOk; hide CommandOps; hide Step;
    if cmds == [] {
      depth' := depth;
    } else {
      var ops := CommandOps(store, cmds[0]);
      var mid := CommandKeeps(store, depth, cmds[0]);
      depth' := RunKeeps(After(store, ops), mid, cmds[1..]);
      AfterConcat(store, ops, RunOps(After(store, ops), cmds[1..]));
    }
  }

  // ---------------------------------------------------------------- what a command does

  /** Names are found as before where their entries stay. */
  lemma FindKept(live: seq<Entry>, live': seq<Entry>, d: nat, name: string)
    requires Listing(live, d) && Listing(live', d) && SameDots(live, live') && FindName(live, name).Some?
    requires Has(live, FindName(live, name).value) ==> Has(live', FindName(live, name).value)
    ensures FindName(live', name) == FindName(live, name)
  {
    hide FindName; hide Plain;
    var k := FindFirst(live, name);
    var x := live[k];
    FindDots(live, d);
    FindDots(live', d);
    assert live[0] == live[..2][0] == live'[0] && live[1] == live[..2][1] == live'[1];
    if k >= 2 {
      assert Has(live, x);
      var j :| 2 <= j < |live'| && live'[j] == x;
      FindPlain(live', d, name, j);
    }
  }

  /** A walk to a directory goes on to end there when a listing gets longer. */
  lemma {:induction false} WalkMore(dirs: Tree, depth: map<nat, nat>, dirs': Tree, depth': map<nat, nat>, p: nat,
                                    at: nat, comps: seq<string>)
    requires TreeOk(dirs, depth) && TreeOk(dirs', depth') && at in dirs && Walk(dirs, at, comps).AtDir?
    requires forall q :: q in dirs ==> q in dirs' && (q != p ==> dirs'[q] == dirs[q])
    requires p in dirs ==> SameDots(dirs[p], dirs'[p]) && forall x :: Has(dirs[p], x) ==> Has(dirs'[p], x)
    ensures Walk(dirs', at, comps) == Walk(dirs, at, comps)
    decreases comps
  {
    hide TreeOk; hide FindName; hide SameDots; hide Has; hide Listing;
    if comps != [] {
      var f := FindName(dirs[at], comps[0]);
      ListingAt(dirs, depth, at);
      ListingAt(dirs', depth', at);
      if at == p { FindKept(dirs[p], dirs'[p], p, comps[0]); }
      WalkOne(dirs, depth, at, comps[0]);
      WalkMore(dirs, depth, dirs', depth', p, f.value.ino, comps[1..]);
    }
  }

  lemma ListingAt(dirs: Tree, depth: map<nat, nat>, d: nat)
    requires TreeOk(dirs, depth) && d in dirs
    ensures Listing(dirs[d], d)
  {
    assert DirIn(dirs, depth, d);
  }

  /** Directory c and its entry e in p are gone. */
  ghost predicate Gone(dirs: Tree, dirs': Tree, p: nat, c: nat, e: Entry) {
    && dirs'.Keys == dirs.Keys - {c} && c in dirs && p in dirs' && Has(dirs[p], e) && e.ino == c
    && (forall q :: q in dirs' && q != p ==> dirs'[q] == dirs[q])
    && SameDots(dirs[p], dirs'[p]) && forall x :: Has(dirs'[p], x) <==> Has(dirs[p], x) && x != e
  }

  /** The name of an entry that is gone is not found. */
  lemma NotFound(dirs: Tree, depth: map<nat, nat>, dirs': Tree, p: nat, c: nat, e: Entry)
    requires TreeOk(dirs, depth) && TreeOk(dirs', depth) && Gone(dirs, dirs', p, c, e)
    ensures FindName(dirs'[p], e.name).None?
  {
    hide FindName; hide TreeOk; hide Has; hide SameDots;
    ListingAt(dirs, depth, p);
    ListingAt(dirs', depth, p);
    if FindName(dirs'[p], e.name).Some? {
      var k := FindFirst(dirs'[p], e.name);
      ListingPair(dirs[p], p, e, e);
      NamedIndex(dirs'[p], p, k);
      ListingPair(dirs[p], p, dirs'[p][k], e);
    }
  }

  lemma NamedIndex(live: seq<Entry>, d: nat, k: nat)
    requires Listing(live, d) && k < |live| && Plain(live[k].name)
    ensures k >= 2 && Has(live, live[k])
  {
  }

  /** A walk to another directory still ends there, or it went through c and ends nowhere. */
  lemma {:induction false} WalkLess(dirs: Tree, depth: map<nat, nat>, dirs': Tree, p: nat, c: nat, e: Entry, at: nat,
                                    comps: seq<string>)
    requires TreeOk(dirs, depth) && TreeOk(dirs', depth) && Gone(dirs, dirs', p, c, e) && |dirs[c]| == 2
    requires Parent(dirs, c) == p && at in dirs' && Walk(dirs, at, comps).AtDir?
    ensures Walk(dirs', at, comps) == Walk(dirs, at, comps) || Walk(dirs', at, comps) == Missing
    decreases comps
  {
    hide TreeOk; hide FindName; hide SameDots; hide Has; hide Listing; hide Parent;
    if comps != [] {
      var f := FindName(dirs[at], comps[0]);
      ListingAt(dirs, depth, at);
      ListingAt(dirs', depth, at);
      WalkOne(dirs, depth, at, comps[0]);
      var k := FindFirst(dirs[at], comps[0]);
      if f.value.ino == c {
        OnlyInParent(dirs, depth, c, at, f.value);
        SameChild(dirs[p], p, f.value, e);
        NotFound(dirs, depth, dirs', p, c, e);
      } else {
        if at == p { FindKept(dirs[p], dirs'[p], p, comps[0]); }
        WalkLess(dirs, depth, dirs', p, c, e, f.value.ino, comps[1..]);
      }
    }
  }

  lemma SameChild(live: seq<Entry>, d: nat, x: Entry, e: Entry)
    requires Listing(live, d) && x in live && IsNamed(x) && Has(live, e) && x.ino == e.ino
    ensures x == e
  {
    hide Plain;
    var k :| 0 <= k < |live| && live[k] == x;
    assert Has(live, x);
    ListingPair(live, d, x, e);
  }

  // When a command goes through.

  ghost predicate HasRoom(v: seq<seq<Entry>>) {
    exists k :: 0 <= k < |v| && SomeFree(v[k])
  }

  ghost predicate SomeFree(b: seq<Entry>) {
    b == [] || exists j :: 0 <= j < |b| && b[j].kind.Unknown?
  }

  /** The path leads to a directory, the name is plain, short and new, a number is free, and
      the directory has an absent block or an unused slot. */
  ghost predicate CanMkdir(store: Store, at: seq<string>, name: string) {
    var dirs := TreeOf(store);
    var hit := Walk(dirs, 0, at);
    && hit.AtDir? && hit.d in dirs && Plain(name) && Short(name)
    && (forall x :: x in dirs[hit.d] ==> x.name != name)
    && (exists m :: 0 <= m < MAX_INODES && m !in store) && HasRoom(BlocksOf(store[hit.d]))
  }

  /** The path leads to a directory that lists, once, a directory of that plain name with
      nothing but its dots. */
  ghost predicate CanRmdir(store: Store, at: seq<string>, name: string) {
    var dirs := TreeOf(store);
    var hit := Walk(dirs, 0, at);
    && hit.AtDir? && hit.d in dirs && Plain(name)
    && exists k :: 0 <= k < |dirs[hit.d]| && Removable(dirs, dirs[hit.d], dirs[hit.d][k], name)
  }

  predicate Removable(dirs: Tree, live: seq<Entry>, e: Entry, name: string) {
    e.name == name && e.kind.Directory? && e.ino in dirs && |dirs[e.ino]| == 2 && !ListedTwice(live, e.ino)
  }

  lemma RoomIff(v: seq<seq<Entry>>)
    ensures RoomFrom(v, 0) < |v| <==> HasRoom(v)
  {
    var k := RoomFrom(v, 0);
    if k < |v| { assert SomeFree(v[k]); }
  }

  lemma {:induction false} NameAbsent(live: seq<Entry>, name: string)
    ensures FindName(live, name).None? <==> forall x :: x in live ==> x.name != name
  {
    if live != [] {
      NameAbsent(live[1..], name);
      assert live == [live[0]] + live[1..];
      assert live[0] in live;
    }
  }

  lemma NumberIff(store: Store)
    ensures LowestFree(store.Keys, 0) < MAX_INODES <==> exists m :: 0 <= m < MAX_INODES && m !in store
  {
    hide LowestFree;
    LowestFreeMin(store.Keys, 0);
  }

  lemma MkdirIff(store: Store, depth: map<nat, nat>, at: seq<string>, name: string)
    requires DiskOk(store, depth)
    ensures CommandOps(store, Mkdir(at, name)) != [] <==> CanMkdir(store, at, name)
  {
    hide Live; hide BlocksOf; hide LowestFree; hide TreeOk; hide DropOps; hide RoomFrom; hide AddOps; hide HasRoom;
    hide Plain; hide FindName; hide Walk; hide GoodDir; hide Short;
    var dirs := TreeOf(store);
    var hit := Walk(dirs, 0, at);
    NumberIff(store);
    if hit.AtDir? && hit.d in dirs {
      RoomIff(BlocksOf(store[hit.d]));
      NameAbsent(dirs[hit.d], name);
    }
  }

  /** A directory's entry can be dropped if and only if it is there once. */
  lemma DropIff(store: Store, depth: map<nat, nat>, p: nat, e: Entry)
    requires DiskOk(store, depth) && IsDir(store, p) && Has(TreeOf(store)[p], e) && IsNamed(e)
    ensures DropOps(p, store[p], e.ino) != [] <==> !ListedTwice(TreeOf(store)[p], e.ino)
  {
    hide Live; hide BlocksOf; hide TreeOk; hide DirNode; hide ListedTwice; hide Has; hide DropOps;
    assert GoodDir(store, p);
    ListingAt(TreeOf(store), depth, p);
    if DropOps(p, store[p], e.ino) != [] {
      var x := DropStep(store, p, e.ino);
      OnceListed(store[p], Step(store, DropOps(p, store[p], e.ino)[0])[p], p, x);
    } else {
      TwiceStored(store[p], p, e);
    }
  }

  lemma OnceListed(node: Node, node': Node, d: nat, e: Entry)
    requires Left(node, node', e) && Listing(Live(BlocksOf(node)), d)
    ensures !ListedTwice(Live(BlocksOf(node)), e.ino)
  {
    hide Live; hide BlocksOf; hide DirNode; hide Listing; hide SameDots; hide IsNamed;
    var live, live' := Live(BlocksOf(node)), Live(BlocksOf(node'));
    if ListedTwice(live, e.ino) {
      var j, k :| 2 <= j < k < |live| && live[j].ino == e.ino && live[k].ino == e.ino;
      assert Has(live, live[j]) && Has(live, live[k]);
      ListingPair(live, d, live[j], e);
      ListingPair(live, d, live[k], e);
      TwoInMultiset(live, j, k);
    }
  }

  lemma TwoInMultiset<T>(s: seq<T>, j: nat, k: nat)
    requires j < k < |s| && s[j] == s[k]
    ensures multiset(s)[s[j]] >= 2
  {
    assert s == s[..k] + s[k..] && s[j] in s[..k] && s[k] in s[k..] && s[..k][j] == s[j] && s[k..][0] == s[k];
    assert multiset(s) == multiset(s[..k]) + multiset(s[k..]);
  }

  lemma TwiceStored(node: Node, d: nat, e: Entry)
    requires DirNode(node) && Listing(Live(BlocksOf(node)), d) && Has(Live(BlocksOf(node)), e) && IsNamed(e)
    requires DropOps(d, node, e.ino) == []
    ensures ListedTwice(Live(BlocksOf(node)), e.ino)
  {
    hide LiveTo; hide LiveIn; hide BlocksOf; hide OneBlock; hide DirOk; hide Copies; hide Match; hide Listing;
    var v := BlocksOf(node);
    HasNamed(Live(v), e);
    var i, j := SlotOf(v, |v|, e);
    MatchIs(e);
    CopiesSome(v[i], e.ino, j, |v[i]|);
    var k := FirstWith(v, e.ino, 0);
    assert k < DIRECT;
    var l := CopyAt(v[k], e.ino, |v[k]|);
    assert MatchFrom(v[k], e.ino, 0) < |v[k]|;
    var a, b := CopyPair(v[k], e.ino, |v[k]|);
    TwoPlaces(v, k, a, b, d, e.ino);
  }

  lemma MatchIs(e: Entry)
    requires IsNamed(e)
    ensures Match(e, e.ino)
  {
  }

  lemma {:induction false} CopyPair(b: seq<Entry>, c: nat, n: nat) returns (i: nat, j: nat)
    requires n <= |b| && Copies(b, c, n) >= 2
    ensures i < j < n && Match(b[i], c) && Match(b[j], c)
  {
    hide Match;
    if Match(b[n - 1], c) {
      i := CopyAt(b, c, n - 1);
      j := n - 1;
    } else {
      i, j := CopyPair(b, c, n - 1);
    }
  }

  /** Two slots of a block are two places of the listing. */
  lemma TwoPlaces(v: seq<seq<Entry>>, k: nat, a: nat, b: nat, d: nat, c: nat)
    requires k < |v| && a < b < |v[k]| && Match(v[k][a], c) && Match(v[k][b], c) && Listing(Live(v), d)
    ensures ListedTwice(Live(v), c)
  {
    hide LiveTo;
    LiveAt(v, k, a);
    LiveAt(v, k, b);
    LiveInPrefix(v[k], a + 1, b);
    LiveInNext(v[k], a);
    var live := Live(v);
    var i, j := |LiveTo(v, k)| + |LiveIn(v[k], a)|, |LiveTo(v, k)| + |LiveIn(v[k], b)|;
    assert live[i] == v[k][a] && live[j] == v[k][b] && i < j;
  }

  lemma RmdirIff(store: Store, depth: map<nat, nat>, at: seq<string>, name: string)
    requires DiskOk(store, depth)
    ensures CommandOps(store, Rmdir(at, name)) != [] <==> CanRmdir(store, at, name)
  {
    hide Live; hide BlocksOf; hide LowestFree; hide TreeOk; hide DropOps; hide RoomFrom; hide AddOps; hide DirNode;
    hide Plain; hide FindName; hide Walk; hide Short; hide ListedTwice; hide Has; hide Listing;
    var dirs := TreeOf(store);
    var hit := Walk(dirs, 0, at);
    if hit.AtDir? && hit.d in dirs && Plain(name) {
      var p := hit.d;
      var f := FindName(dirs[p], name);
      assert GoodDir(store, p);
      ListingAt(dirs, depth, p);
      if f.Some? {
        var k := FindFirst(dirs[p], name);
        NamedIndex(dirs[p], p, k);
        TheEntry(dirs[p], p, name);
        if f.value.kind.Directory? {
          PlainIsNamed(f.value);
          DropIff(store, depth, p, f.value);
          SizeIff(store, depth, f.value.ino);
        }
      } else {
        NameAbsent(dirs[p], name);
      }
    }
  }

  lemma TheEntry(live: seq<Entry>, d: nat, name: string)
    requires Listing(live, d) && Plain(name) && FindName(live, name).Some?
    ensures forall k :: 0 <= k < |live| && live[k].name == name ==> live[k] == FindName(live, name).value
  {
    hide FindName; hide Plain;
    forall k | 0 <= k < |live| && live[k].name == name ensures live[k] == FindName(live, name).value {
      NamedIndex(live, d, k);
      FindPlain(live, d, name, k);
    }
  }

  lemma SizeIff(store: Store, depth: map<nat, nat>, c: nat)
    requires DiskOk(store, depth) && IsDir(store, c)
    ensures store[c].size == 48 <==> |TreeOf(store)[c]| == 2
  {
    hide Live; hide BlocksOf; hide TreeOk; hide OneBlock;
    assert GoodDir(store, c);
  }

  /** A mkdir that goes through: a directory that was not there is found under the path and the
      name, its parent has one entry more, and every other file and directory is as it was. */
  lemma MkdirDoes(store: Store, depth: map<nat, nat>, at: seq<string>, name: string)
    requires DiskOk(store, depth) && CanMkdir(store, at, name)
    ensures var dirs, s2 := TreeOf(store), After(store, CommandOps(store, Mkdir(at, name)));
            var p, c := Walk(dirs, 0, at).d, LowestFree(store.Keys, 0);
            && c !in store && p in store && s2.Keys == store.Keys + {c}
            && (forall n :: n in store && n != p ==> s2[n] == store[n])
            && Walk(TreeOf(s2), 0, at + [name]) == AtDir(c)
            && c in TreeOf(s2) && TreeOf(s2)[c] == NewDir(c, p)
            && p in TreeOf(s2) && SameDots(dirs[p], TreeOf(s2)[p])
            && forall x :: Has(TreeOf(s2)[p], x) <==> Has(dirs[p], x) || x == Entry(name, c, Directory)
  {
    hide Live; hide BlocksOf; hide LowestFree; hide After; hide TreeOk; hide MkdirOps; hide RoomFrom; hide HasRoom;
    hide Plain; hide FindName; hide Walk; hide DirNode; hide Short; hide Has; hide SameDots;
    var dirs := TreeOf(store);
    var p, c := Walk(dirs, 0, at).d, LowestFree(store.Keys, 0);
    NumberIff(store);
    RoomIff(BlocksOf(store[p]));
    NameAbsent(dirs[p], name);
    RootThere(store, depth);
    assert GoodDir(store, p);
    var s2, e := After(store, MkdirOps(store, p, name)), Entry(name, c, Directory);
    MkdirIff(store, depth, at, name);
    assert CommandOps(store, Mkdir(at, name)) == MkdirOps(store, p, name);
    MkdirGrafts(store, p, name);
    MkdirKeeps(store, depth, p, name);
    TreeAfterMkdir(store, s2, p, c, e);
    RootIn(dirs, depth);
    WalkMore(dirs, depth, TreeOf(s2), depth[c := depth[p] + 1], p, 0, at);
    WalkAppend(TreeOf(s2), 0, at, [name]);
  }

  /** A rmdir that goes through: nothing is found under the path and the name, the directory is
      gone, its parent has lost its entry, and every other file and directory is as it was. */
  lemma RmdirDoes(store: Store, depth: map<nat, nat>, at: seq<string>, name: string) returns (e: Entry)
    requires DiskOk(store, depth) && CanRmdir(store, at, name)
    ensures var dirs, s2 := TreeOf(store), After(store, CommandOps(store, Rmdir(at, name)));
            var p := Walk(dirs, 0, at).d;
            && e in dirs[p] && e.name == name && e.kind.Directory? && e.ino != p
            && s2.Keys == store.Keys - {e.ino}
            && (forall n :: n in s2 && n != p ==> s2[n] == store[n])
            && Walk(TreeOf(s2), 0, at + [name]) == Missing
            && Gone(dirs, TreeOf(s2), p, e.ino, e)
  {
    hide Live; hide BlocksOf; hide After; hide TreeOk; hide RmdirOps; hide DropOps; hide ListedTwice;
    hide Plain; hide FindName; hide Walk; hide DirNode; hide Has; hide SameDots; hide Parent;
    var dirs := TreeOf(store);
    var p := Walk(dirs, 0, at).d;
    RmdirIff(store, depth, at, name);
    var f := FindName(dirs[p], name).value;
    var c := f.ino;
    assert CommandOps(store, Rmdir(at, name)) == RmdirOps(store, p, c);
    FoundChild(dirs, depth, p, name);
    SizeIff(store, depth, c);
    var s2 := After(store, RmdirOps(store, p, c));
    RmdirKeeps(store, depth, c);
    ListingAt(dirs, depth, p);
    assert GoodDir(store, p);
    NotOwnChild(dirs, depth, p, c);
    e := RmdirPrunes(store, p, c);
    TreeAfterRmdir(store, s2, p, c, e);
    FoundThere(dirs[p], p, name);
    ListingPair(dirs[p], p, e, f);
    HasNamed(dirs[p], e);
    assert Gone(dirs, TreeOf(s2), p, c, e);
    RootIn(dirs, depth);
    WalkLess(dirs, depth, TreeOf(s2), p, c, e, 0, at);
    NotFound(dirs, depth, TreeOf(s2), p, c, e);
    WalkOn(TreeOf(s2), at, name, p);
  }

  lemma NotOwnChild(dirs: Tree, depth: map<nat, nat>, p: nat, c: nat)
    requires TreeOk(dirs, depth) && c in dirs && c != 0 && Parent(dirs, c) == p
    ensures p != c
  {
    assert DirIn(dirs, depth, c);
  }

  lemma FoundThere(live: seq<Entry>, d: nat, name: string)
    requires Listing(live, d) && Plain(name) && FindName(live, name).Some?
    ensures Has(live, FindName(live, name).value) && FindName(live, name).value.name == name
  {
    hide FindName; hide Plain;
    var k := FindFirst(live, name);
    NamedIndex(live, d, k);
  }

  lemma WalkOn(dirs: Tree, at: seq<string>, name: string, p: nat)
    requires Walk(dirs, 0, at) == Missing || (Walk(dirs, 0, at) == AtDir(p) && FindName(EntriesOf(dirs, p), name).None?)
    ensures Walk(dirs, 0, at + [name]) == Missing
  {
    hide FindName;
    if Walk(dirs, 0, at) == Missing {
      MissingOn(dirs, 0, at, [name]);
    } else {
      WalkAppend(dirs, 0, at, [name]);
    }
  }

  lemma {:induction false} MissingOn(dirs: Tree, at: nat, a: seq<string>, b: seq<string>)
    requires Walk(dirs, at, a) == Missing
    ensures Walk(dirs, at, a + b) == Missing
    decreases a
  {
    hide FindName;
    assert (a + b)[0] == a[0] && (a + b)[1..] == a[1..] + b;
    var f := FindName(EntriesOf(dirs, at), a[0]);
    if f.Some? && f.value.kind.Directory? { MissingOn(dirs, f.value.ino, a[1..], b); }
  }

  ghost predicate GoesThrough(store: Store, cmd: Command) {
    match cmd
    case Mkdir(at, name) => CanMkdir(store, at, name)
    case Rmdir(at, name) => CanRmdir(store, at, name)
  }

  /** Any other command does nothing. */
  lemma FailsIff(store: Store, depth: map<nat, nat>, cmd: Command)
    requires DiskOk(store, depth)
    ensures CommandOps(store, cmd) == [] <==> !GoesThrough(store, cmd)
    ensures CommandOps(store, cmd) == [] ==> After(store, CommandOps(store, cmd)) == store
  {
    hide CanMkdir; hide CanRmdir; hide DiskOk; hide CommandOps;
    match cmd
    case Mkdir(at, name) => MkdirIff(store, depth, at, name);
    case Rmdir(at, name) => RmdirIff(store, depth, at, name);
  }

  /** A run of commands is one command after the other. */
  lemma {:induction false} RunStep(store: Store, cmds: seq<Command>, cmd: Command)
    ensures var mid := After(store, RunOps(store, cmds));
            After(store, RunOps(store, cmds + [cmd])) == After(mid, CommandOps(mid, cmd))
    ensures RunOps(store, []) == []
    decreases |cmds|
  {
    hide CommandOps; hide Step;
    if cmds == [] {
      assert cmds + [cmd] == [cmd] && [cmd][1..] == [];
      var ops := CommandOps(store, cmd);
      assert ops + [] == ops;
      AfterNone(store, []);
    } else {
      var ops := CommandOps(store, cmds[0]);
      var s1 := After(store, ops);
      assert (cmds + [cmd])[0] == cmds[0] && (cmds + [cmd])[1..] == cmds[1..] + [cmd];
      RunStep(s1, cmds[1..], cmd);
      AfterConcat(store, ops, RunOps(s1, cmds[1..]));
      AfterConcat(store, ops, RunOps(s1, cmds[1..] + [cmd]));
    }
  }

  /** A new partition holds the tree of the root. */
  lemma FormattedTree()
    ensures DiskOk(map[0 := Dir(48, map[0 := DotsSector(0, 0)])], map[0 := 0])
  {
    hide Live; hide BlocksOf; hide DotsSector; hide DirNode;
    NewNodeGood(0, 0);
    RootTree();
    var store: Store := map[0 := Dir(48, map[0 := DotsSector(0, 0)])];
    assert TreeOf(store) == map[0 := NewDir(0, 0)];
    assert GoodDir(store, 0);
  }

  /** The steps of any commands, done to a mounted partition whose directories make a tree:
      unless one of them halts or finds a record lost, what the directories on the disk say
      afterwards is a tree again. */
  method RunOnDisk(fs: Files.FileSystem, ops: seq<Op>, ghost cmds: seq<Command>, ghost depth: map<nat, nat>)
    returns (halted: bool, lost: bool, ghost depth': map<nat, nat>)
    requires fs.Valid() && DiskOk(fs.Nodes(), depth) && ops == RunOps(fs.Nodes(), cmds)
    modifies fs
    ensures !halted && !lost ==>
              && fs.Valid() && DiskOk(fs.Nodes(), depth')
              && fs.Nodes() == After(old(fs.Nodes()), RunOps(old(fs.Nodes()), cmds))
  {
    hide DiskOk; hide RunOps; hide After;
    depth' := RunKeeps(fs.Nodes(), depth, cmds);
    var answers: seq<Answer>;
    ghost var trace: seq<Files.Moment>;
    halted, lost, answers, trace := fs.DoAll(ops);
  }
}
