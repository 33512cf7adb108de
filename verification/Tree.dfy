/** Name resolution, `sys_chdir`, `sys_getcwd` (fs/fs.c) and the shell's `cd`
    (shell/buildin_cmd.c) over a tree of directories. A directory is the sequence of its used
    entries, in slot order, as `Dirs.Directory` stores and searches them. */
module Trees {
  import opened Options
  import opened Dirs
  import opened Paths

  type Tree = map<nat, seq<Entry>>

  /** Where `..` leads. */
  function Parent(dirs: Tree, d: nat): nat {
    if d in dirs && |dirs[d]| >= 2 then dirs[d][1].ino else 0
  }

  /** `get_child_dir_name`: the name of the first entry with this number. */
  function NameOf(live: seq<Entry>, c: nat): Option<Entry> {
    if live == [] then None else if live[0].ino == c then Some(live[0]) else NameOf(live[1..], c)
  }

  function EntriesOf(dirs: Tree, d: nat): seq<Entry> {
    if d in dirs then dirs[d] else []
  }

  /** The name a directory has in its parent. */
  function Name(dirs: Tree, d: nat): string {
    var f := NameOf(EntriesOf(dirs, Parent(dirs, d)), d);
    if f.Some? then f.value.name else ""
  }

  /** Every directory starts with its dots. The other names are plain, and two entries with
      the same name or the same number are the same entry. */
  ghost predicate Listing(live: seq<Entry>, d: nat) {
    && |live| >= 2 && live[0] == Entry(".", d, Directory) && live[1].name == ".." && live[1].kind.Directory?
    && (forall k :: 2 <= k < |live| ==> Plain(live[k].name) && !live[k].kind.Unknown?)
    && (forall j, k :: 2 <= j < k < |live| && (live[j].name == live[k].name || live[j].ino == live[k].ino) ==>
        live[j] == live[k])
  }

  /** The directory c hangs below p. */
  predicate Below(dirs: Tree, depth: map<nat, nat>, p: nat, c: nat) {
    c != 0 && c in dirs && c in depth && p in depth && Parent(dirs, c) == p && depth[c] == depth[p] + 1
  }

  ghost predicate DirIn(dirs: Tree, depth: map<nat, nat>, d: nat) {
    && d in dirs && Listing(dirs[d], d) && d in depth
    && (forall k :: 2 <= k < |dirs[d]| && dirs[d][k].kind.Directory? ==> Below(dirs, depth, d, dirs[d][k].ino))
    && (d == 0 ==> Parent(dirs, d) == 0)
    && (d != 0 ==>
          Parent(dirs, d) in dirs && Below(dirs, depth, Parent(dirs, d), d) && Linked(dirs[Parent(dirs, d)], d))
  }

  predicate Linked(live: seq<Entry>, d: nat) {
    exists k :: 2 <= k < |live| && live[k].ino == d && live[k].kind.Directory?
  }

  /** A tree with root 0. */
  ghost predicate TreeOk(dirs: Tree, depth: map<nat, nat>) {
    0 in dirs && forall d {:trigger DirIn(dirs, depth, d)} :: d in dirs ==> DirIn(dirs, depth, d)
  }

  /** The names from the root down. */
  ghost function PathTo(dirs: Tree, depth: map<nat, nat>, d: nat): seq<string>
    decreases if d in depth then depth[d] else 0
  {
    var p := Parent(dirs, d);
    if d == 0 || d !in depth || p !in depth || depth[p] >= depth[d] then []
    else PathTo(dirs, depth, p) + [Name(dirs, d)]
  }

  // ---------------------------------------------------------------- looking up

  lemma {:induction false} NameOfAt(live: seq<Entry>, k: nat, c: nat)
    requires k < |live| && live[k].ino == c && forall j :: 0 <= j < k ==> live[j].ino != c
    ensures NameOf(live, c) == Some(live[k])
  {
    if k > 0 {
      assert live[1..][k - 1] == live[k];
      NameOfAt(live[1..], k - 1, c);
    }
  }

  lemma {:induction false} NameOfFirst(live: seq<Entry>, c: nat, k: nat) returns (j: nat)
    requires k < |live| && live[k].ino == c
    ensures j <= k && live[j].ino == c && NameOf(live, c) == Some(live[j])
  {
    if live[0].ino == c {
      j := 0;
    } else {
      j := NameOfFirst(live[1..], c, k - 1);
      j := j + 1;
    }
  }

  lemma {:induction false} FindFirst(live: seq<Entry>, name: string) returns (k: nat)
    requires FindName(live, name).Some?
    ensures k < |live| && live[k].name == name && FindName(live, name) == Some(live[k])
  {
    if live[0].name == name {
      k := 0;
    } else {
      k := FindFirst(live[1..], name);
      k := k + 1;
    }
  }

  lemma {:induction false} FindSome(live: seq<Entry>, name: string, k: nat)
    requires k < |live| && live[k].name == name
    ensures FindName(live, name).Some?
  {
    if live[0].name != name { FindSome(live[1..], name, k - 1); }
  }

  /** Dots are found where they are. */
  lemma FindDots(live: seq<Entry>, d: nat)
    requires Listing(live, d)
    ensures FindName(live, ".") == Some(live[0]) && FindName(live, "..") == Some(live[1])
  {
  }

  /** An entry found under a plain name is not one of the dots, and it is the one entry of
      that name. */
  lemma FindPlain(live: seq<Entry>, d: nat, name: string, k: nat)
    requires Listing(live, d) && 2 <= k < |live| && live[k].name == name
    ensures FindName(live, name) == Some(live[k])
  {
    hide FindName;
    FindSome(live, name, k);
    var j := FindFirst(live, name);
    assert Plain(live[k].name);
  }

  // ---------------------------------------------------------------- one level

  /** A subdirectory is called in its parent what its entry says. */
  lemma ChildName(dirs: Tree, depth: map<nat, nat>, p: nat, k: nat)
    requires TreeOk(dirs, depth) && p in dirs && 2 <= k < |dirs[p]| && dirs[p][k].kind.Directory?
    ensures var c := dirs[p][k].ino;
            && c in dirs && c != 0 && Parent(dirs, c) == p && Name(dirs, c) == dirs[p][k].name
            && NameOf(dirs[p], c) == Some(dirs[p][k])
            && PathTo(dirs, depth, c) == PathTo(dirs, depth, p) + [dirs[p][k].name]
  {
    hide NameOf;
    var live, c := dirs[p], dirs[p][k].ino;
    assert DirIn(dirs, depth, p) && Below(dirs, depth, p, c);
    var j := NameOfFirst(live, c, k);
    assert live[0].ino == p;
    if p != 0 { assert Below(dirs, depth, Parent(dirs, p), p); }
    assert live[1].ino == Parent(dirs, p);
    assert j >= 2;
  }

  /** And every directory but the root is such a subdirectory. */
  lemma IsChild(dirs: Tree, depth: map<nat, nat>, c: nat) returns (k: nat)
    requires TreeOk(dirs, depth) && c in dirs && c != 0
    ensures var p := Parent(dirs, c);
            && p in dirs && p in depth && c in depth && depth[p] < depth[c]
            && 2 <= k < |dirs[p]| && dirs[p][k].ino == c && dirs[p][k].kind.Directory?
            && dirs[p][k].name == Name(dirs, c) && Plain(Name(dirs, c))
  {
    var p := Parent(dirs, c);
    assert DirIn(dirs, depth, c) && DirIn(dirs, depth, p);
    k :| 2 <= k < |dirs[p]| && dirs[p][k].ino == c && dirs[p][k].kind.Directory?;
    ChildName(dirs, depth, p, k);
  }

  lemma {:induction false} PathPlain(dirs: Tree, depth: map<nat, nat>, d: nat)
    requires TreeOk(dirs, depth) && d in dirs
    ensures AllPlain(PathTo(dirs, depth, d))
    decreases if d in depth then depth[d] else 0
  {
    hide TreeOk; hide Name; hide Plain;
    if d != 0 {
      var k := IsChild(dirs, depth, d);
      PathPlain(dirs, depth, Parent(dirs, d));
    }
  }

  // ---------------------------------------------------------------- resolution

  /** Where a path leads. A regular file ends the search, whatever follows it. */
  datatype Hit = AtDir(d: nat) | AtFile(ino: nat) | Missing

  function Walk(dirs: Tree, at: nat, comps: seq<string>): Hit
    decreases comps
  {
    if comps == [] then AtDir(at)
    else
      var f := FindName(EntriesOf(dirs, at), comps[0]);
      if f.None? then Missing
      else if f.value.kind.Directory? then Walk(dirs, f.value.ino, comps[1..])
      else AtFile(f.value.ino)
  }

  /** One component, found to be a directory, is one step of the normal form. */
  lemma WalkOne(dirs: Tree, depth: map<nat, nat>, at: nat, c: string)
    requires TreeOk(dirs, depth) && at in dirs && FindName(dirs[at], c).Some?
    requires FindName(dirs[at], c).value.kind.Directory?
    ensures var d := FindName(dirs[at], c).value.ino;
            d in dirs && PathTo(dirs, depth, d) == Push(PathTo(dirs, depth, at), c)
  {
    hide FindName; hide NameOf; hide Name;
    assert DirIn(dirs, depth, at);
    var live := dirs[at];
    FindDots(live, at);
    if c == ".." {
      assert live[1].ino == Parent(dirs, at);
      if at != 0 {
        var k := IsChild(dirs, depth, at);
        var path := PathTo(dirs, depth, Parent(dirs, at));
        assert (path + [Name(dirs, at)])[..|path|] == path;
      }
    } else if c != "." {
      var k := FindFirst(live, c);
      ChildName(dirs, depth, at, k);
    }
  }

  /** If the walk ends at a directory, that directory's path is the normal form: following
      `..` on disk and dropping a component lexically come to the same. */
  lemma {:induction false} WalkNormal(dirs: Tree, depth: map<nat, nat>, at: nat, comps: seq<string>)
    requires TreeOk(dirs, depth) && at in dirs && Walk(dirs, at, comps).AtDir?
    ensures var d := Walk(dirs, at, comps).d;
            d in dirs && PathTo(dirs, depth, d) == Normal(PathTo(dirs, depth, at), comps)
    decreases comps
  {
    hide TreeOk; hide PathTo; hide FindName; hide Push;
    if comps != [] {
      WalkOne(dirs, depth, at, comps[0]);
      WalkNormal(dirs, depth, FindName(dirs[at], comps[0]).value.ino, comps[1..]);
    }
  }

  lemma {:induction false} WalkAppend(dirs: Tree, at: nat, a: seq<string>, b: seq<string>)
    requires Walk(dirs, at, a).AtDir?
    ensures Walk(dirs, at, a + b) == Walk(dirs, Walk(dirs, at, a).d, b)
    decreases a
  {
    if a == [] {
      assert a + b == b;
    } else {
      assert (a + b)[1..] == a[1..] + b && (a + b)[0] == a[0];
      WalkAppend(dirs, FindName(EntriesOf(dirs, at), a[0]).value.ino, a[1..], b);
    }
  }

  /** The path of a directory leads back to it. */
  lemma {:induction false} WalkPath(dirs: Tree, depth: map<nat, nat>, d: nat)
    requires TreeOk(dirs, depth) && d in dirs
    ensures Walk(dirs, 0, PathTo(dirs, depth, d)) == AtDir(d)
    decreases if d in depth then depth[d] else 0
  {
    if d != 0 {
      var p := Parent(dirs, d);
      var k := IsChild(dirs, depth, d);
      WalkPath(dirs, depth, p);
      WalkAppend(dirs, 0, PathTo(dirs, depth, p), [Name(dirs, d)]);
      WalkLast(dirs, depth, p, k, Name(dirs, d));
      assert DirIn(dirs, depth, p);
    }
  }

  lemma WalkLast(dirs: Tree, depth: map<nat, nat>, p: nat, k: nat, name: string)
    requires TreeOk(dirs, depth) && p in dirs && 2 <= k < |dirs[p]|
    requires dirs[p][k].kind.Directory? && dirs[p][k].name == name
    ensures Walk(dirs, p, [name]) == AtDir(dirs[p][k].ino)
  {
    assert DirIn(dirs, depth, p);
    FindPlain(dirs[p], p, name, k);
    assert Walk(dirs, dirs[p][k].ino, []) == AtDir(dirs[p][k].ino);
  }

  /** A directory keeps its path as long as it and the directories above it, the set
      `chain`, keep their places. */
  lemma {:induction false} PathStable(dirs: Tree, depth: map<nat, nat>, dirs': Tree, depth': map<nat, nat>,
        chain: set<nat>, d: nat)
    requires TreeOk(dirs, depth) && TreeOk(dirs', depth') && d in chain
    requires forall c :: c in chain ==> c in dirs && c in dirs'
    requires forall c :: c in chain && c != 0 ==>
               Parent(dirs, c) in chain && Parent(dirs', c) == Parent(dirs, c) && Name(dirs', c) == Name(dirs, c)
    ensures PathTo(dirs', depth', d) == PathTo(dirs, depth, d)
    decreases if d in depth then depth[d] else 0
  {
    hide TreeOk; hide Name;
    if d != 0 {
      var k := IsChild(dirs, depth, d);
      var k' := IsChild(dirs', depth', d);
      PathStable(dirs, depth, dirs', depth', chain, Parent(dirs, d));
    }
  }

  // ---------------------------------------------------------------- the tree stays a tree

  /** The entries of a directory after its dots. */
  predicate Has(live: seq<Entry>, x: Entry) {
    exists k :: 2 <= k < |live| && live[k] == x
  }

  ghost predicate SameDots(live: seq<Entry>, live': seq<Entry>) {
    |live| >= 2 && |live'| >= 2 && live'[..2] == live[..2]
  }

  lemma ListingPair(live: seq<Entry>, d: nat, x: Entry, y: Entry)
    requires Listing(live, d) && Has(live, x) && Has(live, y) && (x.name == y.name || x.ino == y.ino)
    ensures x == y && Plain(x.name) && !x.kind.Unknown?
  {
  }

  /** A directory with one entry more, under a new name and number, once or twice. */
  lemma ListingAdd(live: seq<Entry>, live': seq<Entry>, d: nat, e: Entry)
    requires Listing(live, d) && SameDots(live, live') && Plain(e.name) && !e.kind.Unknown?
    requires forall x :: Has(live', x) <==> Has(live, x) || x == e
    requires forall x :: Has(live, x) ==> x.name != e.name && x.ino != e.ino
    ensures Listing(live', d)
  {
    hide Plain; hide Has;
    assert live'[0] == live'[..2][0] && live'[1] == live'[..2][1] && live[0] == live[..2][0] && live[1] == live[..2][1];
    forall k | 2 <= k < |live'| ensures Plain(live'[k].name) && !live'[k].kind.Unknown? {
      HasAt(live', k);
      if live'[k] != e { ListingPair(live, d, live'[k], live'[k]); }
    }
    forall j, k | 2 <= j < k < |live'| && (live'[j].name == live'[k].name || live'[j].ino == live'[k].ino)
      ensures live'[j] == live'[k]
    {
      HasAt(live', j);
      HasAt(live', k);
      if live'[j] != e && live'[k] != e { ListingPair(live, d, live'[j], live'[k]); }
    }
  }

  lemma HasAt(live: seq<Entry>, k: nat)
    requires 2 <= k < |live|
    ensures Has(live, live[k])
  {
  }

  /** A directory with one entry less. */
  lemma ListingDrop(live: seq<Entry>, live': seq<Entry>, d: nat, e: Entry)
    requires Listing(live, d) && SameDots(live, live')
    requires forall x :: Has(live', x) <==> Has(live, x) && x != e
    ensures Listing(live', d)
  {
    hide Plain; hide Has;
    assert live'[0] == live'[..2][0] && live'[1] == live'[..2][1] && live[0] == live[..2][0] && live[1] == live[..2][1];
    forall k | 2 <= k < |live'| ensures Plain(live'[k].name) && !live'[k].kind.Unknown? {
      HasAt(live', k);
      ListingPair(live, d, live'[k], live'[k]);
    }
    forall j, k | 2 <= j < k < |live'| && (live'[j].name == live'[k].name || live'[j].ino == live'[k].ino)
      ensures live'[j] == live'[k]
    {
      HasAt(live', j);
      HasAt(live', k);
      ListingPair(live, d, live'[j], live'[k]);
    }
  }

  function NewDir(c: nat, p: nat): seq<Entry> {
    [Entry(".", c, Directory), Entry("..", p, Directory)]
  }

  lemma RootTree()
    ensures TreeOk(map[0 := NewDir(0, 0)], map[0 := 0])
  {
  }

  /** Making a directory keeps the tree. */
  lemma MkdirTree(dirs: Tree, depth: map<nat, nat>, p: nat, name: string, c: nat, live: seq<Entry>)
    requires TreeOk(dirs, depth) && p in dirs && p in depth && c !in dirs && c != 0 && Plain(name)
    requires SameDots(dirs[p], live) && forall x :: Has(live, x) <==> Has(dirs[p], x) || x == Entry(name, c, Directory)
    requires forall x :: Has(dirs[p], x) ==> x.name != name && x.ino != c
    ensures TreeOk(dirs[p := live][c := NewDir(c, p)], depth[c := depth[p] + 1])
    ensures Parent(dirs[p := live][c := NewDir(c, p)], c) == p
  {
    hide Plain; hide Has; hide Listing; hide SameDots;
    var e := Entry(name, c, Directory);
    var dirs', depth' := dirs[p := live][c := NewDir(c, p)], depth[c := depth[p] + 1];
    assert DirIn(dirs, depth, p);
    ListingAdd(dirs[p], live, p, e);
    ParentsKept(dirs, dirs', p, live);
    forall d | d in dirs && d != p ensures DirIn(dirs', depth', d) {
      assert DirIn(dirs, depth, d);
      MkdirOther(dirs, depth, dirs', depth', p, e, d);
    }
    assert DirIn(dirs', depth', p) by {
      forall k | 2 <= k < |live| && live[k].kind.Directory? ensures Below(dirs', depth', p, live[k].ino) {
        HasAt(live, k);
        if live[k] != e { OldChild(dirs, depth, p, live[k]); }
      }
      if p != 0 { assert Parent(dirs, p) != p; }
    }
    NewDirIn(dirs', depth', c, p, e);
  }

  lemma MkdirOther(dirs: Tree, depth: map<nat, nat>, dirs': Tree, depth': map<nat, nat>, p: nat, e: Entry, d: nat)
    requires d in dirs && d != p && DirIn(dirs, depth, d) && d in dirs' && dirs'[d] == dirs[d]
    requires forall q :: q in dirs ==>
               q in dirs' && Parent(dirs', q) == Parent(dirs, q) && (q == p || dirs'[q] == dirs[q])
    requires forall q :: q in dirs && q in depth ==> q in depth' && depth'[q] == depth[q]
    requires p in dirs && forall x :: Has(dirs'[p], x) <==> Has(dirs[p], x) || x == e
    ensures DirIn(dirs', depth', d)
  {
    hide Has; hide Listing; hide Linked; hide Parent;
    var q := Parent(dirs, d);
    if d != 0 { LinkedMore(dirs[q], dirs'[q], d, e); }
  }

  lemma ParentsKept(dirs: Tree, dirs': Tree, p: nat, live: seq<Entry>)
    requires p in dirs && p in dirs' && dirs'[p] == live && SameDots(dirs[p], live)
    requires forall d :: d in dirs && d != p && d in dirs' ==> dirs'[d] == dirs[d]
    ensures forall d :: d in dirs && d in dirs' ==> Parent(dirs', d) == Parent(dirs, d)
  {
  }

  lemma OldChild(dirs: Tree, depth: map<nat, nat>, p: nat, x: Entry)
    requires p in dirs && DirIn(dirs, depth, p) && Has(dirs[p], x) && x.kind.Directory?
    ensures Below(dirs, depth, p, x.ino)
  {
  }

  lemma LinkedMore(live: seq<Entry>, live': seq<Entry>, d: nat, e: Entry)
    requires Linked(live, d) && (live' == live || forall x :: Has(live', x) <==> Has(live, x) || x == e)
    ensures Linked(live', d)
  {
    if live' != live {
      var k :| 2 <= k < |live| && live[k].ino == d && live[k].kind.Directory?;
      assert Has(live, live[k]) && Has(live', live[k]);
      var j :| 2 <= j < |live'| && live'[j] == live[k];
    }
  }

  lemma NewDirIn(dirs: Tree, depth: map<nat, nat>, c: nat, p: nat, e: Entry)
    requires c in dirs && p in dirs && c != 0 && dirs[c] == NewDir(c, p) && p in depth && c in depth
    requires depth[c] == depth[p] + 1
    requires Has(dirs[p], e) && e.ino == c && e.kind.Directory?
    ensures DirIn(dirs, depth, c)
  {
  }

  /** Removing an empty directory keeps the tree. */
  lemma RmdirTree(dirs: Tree, depth: map<nat, nat>, c: nat, e: Entry, live: seq<Entry>)
    requires TreeOk(dirs, depth) && c in dirs && c != 0 && |dirs[c]| == 2
    requires var p := Parent(dirs, c);
             && p in dirs && Has(dirs[p], e) && e.ino == c && SameDots(dirs[p], live)
             && forall x :: Has(live, x) <==> Has(dirs[p], x) && x != e
    ensures TreeOk(dirs[Parent(dirs, c) := live] - {c}, depth)
  {
    hide Plain; hide Has; hide Listing; hide SameDots;
    var p := Parent(dirs, c);
    var dirs' := dirs[p := live] - {c};
    assert DirIn(dirs, depth, p) && DirIn(dirs, depth, c);
    assert p != c;
    ListingDrop(dirs[p], live, p, e);
    ParentsKept(dirs, dirs', p, live);
    forall d | d in dirs' && d != 0 ensures Parent(dirs, d) != c && Linked(EntriesOf(dirs', Parent(dirs, d)), d) {
      assert DirIn(dirs, depth, d);
      if Parent(dirs, d) == c { NoneBelow(dirs[c], d); }
      if Parent(dirs, d) == p { LinkedLess(dirs[p], live, d, e, p); }
    }
    forall d | d in dirs' && d != p ensures DirIn(dirs', depth, d) {
      assert DirIn(dirs, depth, d);
      forall k | 2 <= k < |dirs[d]| && dirs[d][k].kind.Directory? ensures Below(dirs', depth, d, dirs[d][k].ino) {
        assert Below(dirs, depth, d, dirs[d][k].ino);
      }
    }
    assert DirIn(dirs', depth, p) by {
      forall k | 2 <= k < |live| && live[k].kind.Directory? ensures Below(dirs', depth, p, live[k].ino) {
        HasAt(live, k);
        OldChild(dirs, depth, p, live[k]);
        SameNumber(dirs[p], p, live[k], e);
      }
    }
  }

  lemma SameNumber(live: seq<Entry>, d: nat, x: Entry, e: Entry)
    requires Listing(live, d) && Has(live, x) && Has(live, e) && x != e
    ensures x.ino != e.ino
  {
  }

  lemma NoneBelow(live: seq<Entry>, d: nat)
    requires |live| == 2
    ensures !Linked(live, d)
  {
  }

  lemma LinkedLess(live: seq<Entry>, live': seq<Entry>, d: nat, e: Entry, p: nat)
    requires Listing(live, p) && Linked(live, d) && e.ino != d && forall x :: Has(live', x) <==> Has(live, x) && x != e
    ensures Linked(live', d)
  {
    var k :| 2 <= k < |live| && live[k].ino == d && live[k].kind.Directory?;
    assert Has(live, live[k]) && Has(live', live[k]);
    var j :| 2 <= j < |live'| && live'[j] == live[k];
  }

  // ---------------------------------------------------------------- the system calls

  /** Paths that are taken for the root without a search. */
  predicate RootAlias(path: string) {
    path == "/" || path == "/." || path == "/.."
  }

  lemma RootAliasSplit(path: string)
    requires RootAlias(path)
    ensures Split(path) == if path == "/" then [] else [path[1..]]
  {
    SplitSlash(path[1..]);
    assert path == "/" + path[1..];
    if path != "/" {
      assert path[1..] + "" == path[1..];
      SplitName(path[1..], "");
    }
  }

  lemma RootAliasWalk(dirs: Tree, depth: map<nat, nat>, path: string)
    requires TreeOk(dirs, depth) && RootAlias(path)
    ensures Walk(dirs, 0, Split(path)) == AtDir(0)
  {
    RootAliasSplit(path);
    assert DirIn(dirs, depth, 0);
    FindDots(dirs[0], 0);
    assert Walk(dirs, 0, []) == AtDir(0);
  }

  /** `search_file`, and the directory it records as the parent: the one in which the last
      component was looked up. With no component to look for, the entry it returns was never
      filled in: `junk` stands for what that memory holds. */
  method SearchFile(dirs: Tree, ghost depth: map<nat, nat>, path: string, junk: Hit) returns (r: Hit, parent: nat)
    requires TreeOk(dirs, depth) && path != "" && path[0] == '/'
    ensures r == if Split(path) == [] && !RootAlias(path) then junk else Walk(dirs, 0, Split(path))
    ensures Split(path) == [] || RootAlias(path) ==> parent == 0
    ensures Split(path) != [] && !RootAlias(path) && r.AtDir? ==>
              r.d in dirs && parent in dirs && Walk(dirs, 0, Split(path)[..|Split(path)| - 1]) == AtDir(parent)
  {
    hide TreeOk; hide PathTo; hide FindName; hide Split; hide Walk; hide RootAlias; hide NoSlash; hide Left;
    RootIn(dirs, depth);
    parent := 0;
    if RootAlias(path) {
      RootAliasWalk(dirs, depth, path);
      return AtDir(0), 0;
    }
    assert path[0..] == path;
    var at := 0;
    r := junk;
    var name, sub := PathParse(path, 0);
    ghost var done: seq<string> := [];
    ghost var todo := Split(path);
    WalkNone(dirs, 0);
    LeftIs(path, 0, name, sub);
    while name != ""
      invariant -1 <= sub < |path| && at in dirs && parent in dirs && Walk(dirs, 0, done) == AtDir(at)
      invariant if done == [] then parent == 0 && r == junk
                else r == AtDir(at) && Walk(dirs, 0, done[..|done| - 1]) == AtDir(parent)
      invariant Split(path) == done + todo && todo == Left(path, name, sub) && (todo == [] <==> name == "")
      decreases if name == "" then 0 else 1, if sub == -1 then 0 else |path| - sub + 1
    {
      LeftFirst(path, name, sub);
      WalkStep(dirs, depth, done, at, name, todo[1..]);
      var f := FindName(dirs[at], name);
      if f.None? {
        return Missing, parent;
      }
      if !f.value.kind.Directory? {
        return AtFile(f.value.ino), parent;
      }
      parent := at;
      at := f.value.ino;
      r := AtDir(at);
      done, todo := done + [name], todo[1..];
      name := "";
      if sub != -1 {
        ghost var pos := sub;
        name, sub := PathParse(path, sub);
        LeftIs(path, pos, name, sub);
      }
    }
    assert done + [] == done;
  }

  /** The components not yet looked up. */
  function Left(path: string, name: string, sub: int): seq<string>
    requires -1 <= sub <= |path|
  {
    if name == "" then [] else [name] + if sub == -1 then [] else Split(path[sub..])
  }

  lemma LeftIs(path: string, pos: nat, name: string, sub: int)
    requires pos <= |path| && -1 <= sub < |path|
    requires name == "" ==> sub == -1 && Split(path[pos..]) == []
    requires name != "" ==> Split(path[pos..]) == [name] + (if sub == -1 then [] else Split(path[sub..]))
    ensures Left(path, name, sub) == Split(path[pos..]) && (Left(path, name, sub) == [] <==> name == "")
  {
  }

  lemma LeftFirst(path: string, name: string, sub: int)
    requires -1 <= sub <= |path| && name != ""
    ensures var todo := Left(path, name, sub);
            && todo != [] && todo == [name] + todo[1..] && todo[1..] == if sub == -1 then [] else Split(path[sub..])
    ensures sub == -1 ==> Left(path, "", sub) == []
  {
  }

  /** One more component, after a walk that ended at a directory. */
  lemma WalkStep(dirs: Tree, depth: map<nat, nat>, done: seq<string>, at: nat, name: string, rest: seq<string>)
    requires TreeOk(dirs, depth) && at in dirs && Walk(dirs, 0, done) == AtDir(at)
    ensures var f := FindName(dirs[at], name);
            && (f.None? ==> Walk(dirs, 0, done + ([name] + rest)) == Missing)
            && (f.Some? && !f.value.kind.Directory? ==> Walk(dirs, 0, done + ([name] + rest)) == AtFile(f.value.ino))
            && (f.Some? && f.value.kind.Directory? ==>
                  f.value.ino in dirs && Walk(dirs, 0, done + [name]) == AtDir(f.value.ino))
    ensures done + ([name] + rest) == (done + [name]) + rest && (done + [name])[..|done|] == done
  {
    hide TreeOk; hide FindName; hide Walk; hide PathTo;
    WalkAppend(dirs, 0, done, [name] + rest);
    WalkAppend(dirs, 0, done, [name]);
    WalkFirst(dirs, at, name, rest);
    WalkFirst(dirs, at, name, []);
    assert [name] + [] == [name];
    var f := FindName(dirs[at], name);
    if f.Some? && f.value.kind.Directory? {
      WalkOne(dirs, depth, at, name);
      WalkNone(dirs, f.value.ino);
    }
  }

  lemma WalkNone(dirs: Tree, at: nat)
    ensures Walk(dirs, at, []) == AtDir(at)
  {
  }

  lemma WalkFirst(dirs: Tree, at: nat, name: string, rest: seq<string>)
    requires at in dirs
    ensures var f := FindName(dirs[at], name);
            Walk(dirs, at, [name] + rest)
            == if f.None? then Missing else if f.value.kind.Directory? then Walk(dirs, f.value.ino, rest)
                else AtFile(f.value.ino)
  {
    assert ([name] + rest)[1..] == rest;
  }

  lemma RootIn(dirs: Tree, depth: map<nat, nat>)
    requires TreeOk(dirs, depth)
    ensures 0 in dirs && PathTo(dirs, depth, 0) == []
  {
  }

  // ---------------------------------------------------------------- rmdir

  /** How many entries after the dots, among the first n, carry number d. */
  function Numbered(live: seq<Entry>, d: nat, n: nat): nat
    requires n <= |live|
  {
    if n <= 2 then 0 else Numbered(live, d, n - 1) + if live[n - 1].ino == d then 1 else 0
  }

  lemma {:induction false} NumberedSome(live: seq<Entry>, d: nat, k: nat, n: nat)
    requires 2 <= k < n <= |live| && live[k].ino == d
    ensures Numbered(live, d, n) > 0 && (Numbered(live, d, n) == 1 ==> forall j :: 2 <= j < n && j != k ==>
              live[j].ino != d)
  {
    if k < n - 1 { NumberedSome(live, d, k, n - 1); } else { NumberedRest(live, d, n - 1); }
  }

  lemma {:induction false} NumberedRest(live: seq<Entry>, d: nat, n: nat)
    requires n <= |live|
    ensures Numbered(live, d, n) == 0 <==> forall j :: 2 <= j < n ==> live[j].ino != d
  {
    if n > 2 { NumberedRest(live, d, n - 1); }
  }

  predicate ListedTwice(live: seq<Entry>, d: nat) {
    exists j, k :: 2 <= j < k < |live| && live[j].ino == d && live[k].ino == d
  }

  lemma NumberedTwice(live: seq<Entry>, d: nat)
    ensures Numbered(live, d, |live|) > 1 <==> ListedTwice(live, d)
  {
    hide Numbered;
    if j, k :| 2 <= j < k < |live| && live[j].ino == d && live[k].ino == d {
      NumberedSome(live, d, j, |live|);
    } else if k :| 2 <= k < |live| && live[k].ino == d {
      NumberedOnce(live, d, k, |live|);
    } else {
      NumberedRest(live, d, |live|);
    }
  }

  lemma {:induction false} NumberedOnce(live: seq<Entry>, d: nat, k: nat, n: nat)
    requires 2 <= k < n <= |live| && live[k].ino == d && forall j :: 2 <= j < n && j != k ==> live[j].ino != d
    ensures Numbered(live, d, n) == 1
  {
    if k < n - 1 { NumberedOnce(live, d, k, n - 1); } else { NumberedRest(live, d, n - 1); }
  }

  /** `delete_dir_entry` on a listing: the entry with this number, if there is just one. */
  function DropNumber(live: seq<Entry>, d: nat): seq<Entry> {
    if |live| <= 2 then live
    else if live[|live| - 1].ino == d then live[..|live| - 1]
    else DropNumber(live[..|live| - 1], d) + [live[|live| - 1]]
  }

  lemma {:induction false} DropNumberIs(live: seq<Entry>, d: nat, k: nat)
    requires 2 <= k < |live| && live[k].ino == d && forall j :: 2 <= j < |live| && j != k ==> live[j].ino != d
    ensures DropNumber(live, d) == live[..k] + live[k + 1..]
  {
    var init := live[..|live| - 1];
    if k < |live| - 1 {
      DropNumberIs(init, d, k);
      assert live[k + 1..] == init[k + 1..] + [live[|live| - 1]];
    }
  }

  lemma {:induction false} DropNumberNone(live: seq<Entry>, d: nat)
    requires forall j :: 2 <= j < |live| ==> live[j].ino != d
    ensures DropNumber(live, d) == live
  {
    if |live| > 2 { DropNumberNone(live[..|live| - 1], d); }
  }

  /** The tree after `dir_remove`: the entry leaves the recorded parent, the directory goes. */
  function Rmdir(dirs: Tree, parent: nat, d: nat): Tree {
    dirs[parent := DropNumber(EntriesOf(dirs, parent), d)] - {d}
  }

  /** What the recorded parent has to do with the real one. */
  lemma LastStep(dirs: Tree, depth: map<nat, nat>, comps: seq<string>, parent: nat, d: nat)
    requires TreeOk(dirs, depth) && comps != [] && parent in dirs && d in dirs && d != 0 && |dirs[d]| == 2
    requires Walk(dirs, 0, comps[..|comps| - 1]) == AtDir(parent) && Walk(dirs, 0, comps) == AtDir(d)
    ensures var last := comps[|comps| - 1];
            if last == "." then parent == d
            else exists k :: 2 <= k < |dirs[parent]| && dirs[parent][k].ino == d && dirs[parent][k].kind.Directory?
  {
    hide TreeOk; hide PathTo; hide FindName; hide Walk;
    var init, last := comps[..|comps| - 1], comps[|comps| - 1];
    assert comps == init + [last];
    WalkAppend(dirs, 0, init, [last]);
    assert [last] + [] == [last];
    WalkFirst(dirs, parent, last, []);
    DirAt(dirs, depth, parent);
    var live := dirs[parent];
    FindDots(live, parent);
    var f := FindName(live, last);
    assert f.Some? && f.value.kind.Directory?;
    WalkNone(dirs, f.value.ino);
    if last == ".." {
      ParentNotEmpty(dirs, depth, parent, d);
    } else if last != "." {
      var k := FindFirst(live, last);
      assert k >= 2;
    }
  }

  lemma DirAt(dirs: Tree, depth: map<nat, nat>, d: nat)
    requires TreeOk(dirs, depth) && d in dirs
    ensures Listing(dirs[d], d) && dirs[d][1].ino == Parent(dirs, d)
  {
    assert DirIn(dirs, depth, d);
  }

  /** A directory with a subdirectory has more than its dots. */
  lemma ParentNotEmpty(dirs: Tree, depth: map<nat, nat>, c: nat, d: nat)
    requires TreeOk(dirs, depth) && c in dirs && Parent(dirs, c) == d && d != 0
    ensures d in dirs && |dirs[d]| > 2
  {
    assert DirIn(dirs, depth, c);
    if c != 0 { var k := IsChild(dirs, depth, c); }
  }

  lemma RmdirDone(dirs: Tree, depth: map<nat, nat>, comps: seq<string>, parent: nat, d: nat)
    requires TreeOk(dirs, depth) && comps != [] && parent in dirs && d in dirs && d != 0 && |dirs[d]| == 2
    requires Walk(dirs, 0, comps[..|comps| - 1]) == AtDir(parent) && Walk(dirs, 0, comps) == AtDir(d)
    requires Numbered(dirs[parent], d, |dirs[parent]|) <= 1
    ensures Rmdir(dirs, parent, d).Keys == dirs.Keys - {d}
    ensures forall q :: q in Rmdir(dirs, parent, d) && q != parent ==> Rmdir(dirs, parent, d)[q] == dirs[q]
    ensures if comps[|comps| - 1] == "." then forall any :: !TreeOk(Rmdir(dirs, parent, d), any)
            else
              && TreeOk(Rmdir(dirs, parent, d), depth) && parent in Rmdir(dirs, parent, d)
              && exists k :: 2 <= k < |dirs[parent]| && dirs[parent][k].ino == d
                             && Rmdir(dirs, parent, d)[parent] == dirs[parent][..k] + dirs[parent][k + 1..]
  {
    hide TreeOk; hide PathTo; hide Walk; hide FindName; hide Numbered; hide DropNumber;
    LastStep(dirs, depth, comps, parent, d);
    if comps[|comps| - 1] == "." {
      Orphaned(dirs, depth, d, Rmdir(dirs, parent, d));
    } else {
      var k :| 2 <= k < |dirs[parent]| && dirs[parent][k].ino == d && dirs[parent][k].kind.Directory?;
      ChildName(dirs, depth, parent, k);
      NumberedSome(dirs[parent], d, k, |dirs[parent]|);
      DropNumberIs(dirs[parent], d, k);
      DroppedAt(dirs[parent], k);
      RmdirTree(dirs, depth, d, dirs[parent][k], DropNumber(dirs[parent], d));
    }
  }

  /** A directory that goes while its entry stays leaves no tree. */
  lemma Orphaned(dirs: Tree, depth: map<nat, nat>, d: nat, dirs': Tree)
    requires TreeOk(dirs, depth) && d in dirs && d != 0 && dirs' == dirs[d := EntriesOf(dirs', d)] - {d}
    ensures forall any :: !TreeOk(dirs', any)
  {
    var k := IsChild(dirs, depth, d);
    var p := Parent(dirs, d);
    assert p != d && p in dirs' && dirs'[p] == dirs[p];
    forall any ensures !TreeOk(dirs', any) { Dangling(dirs', any, p, k); }
  }

  lemma Dangling(dirs: Tree, depth: map<nat, nat>, p: nat, k: nat)
    requires p in dirs && 2 <= k < |dirs[p]| && dirs[p][k].kind.Directory? && dirs[p][k].ino !in dirs
    ensures !DirIn(dirs, depth, p)
  {
  }

  lemma DroppedAt(live: seq<Entry>, k: nat)
    requires 2 <= k < |live| && forall j :: 2 <= j < |live| && j != k ==> live[j].ino != live[k].ino
    ensures var live' := live[..k] + live[k + 1..];
            SameDots(live, live') && Has(live, live[k]) && forall x :: Has(live', x) <==> Has(live, x) && x != live[k]
  {
    var live' := live[..k] + live[k + 1..];
    assert live'[..2] == live[..2];
    forall x ensures Has(live', x) <==> Has(live, x) && x != live[k] {
      if Has(live', x) {
        var j :| 2 <= j < |live'| && live'[j] == x;
        assert live[if j < k then j else j + 1] == x;
      }
      if Has(live, x) && x != live[k] {
        var j :| 2 <= j < |live| && live[j] == x;
        assert live'[if j < k then j else j - 1] == x;
      }
    }
  }

  /** `sys_rmdir`. A path that ends in a dot makes `search_file` record the directory itself as
      its parent. Its entry then stays where it is while its inode goes: the tree is kept
      exactly when the last component is not a dot. */
  method SysRmdir(dirs: Tree, ghost depth: map<nat, nat>, path: string, junk: Hit)
    returns (halted: bool, ok: bool, dirs': Tree, ghost parent: nat)
    requires TreeOk(dirs, depth) && path != "" && path[0] == '/' && (Split(path) != [] || RootAlias(path))
    ensures Walk(dirs, 0, Split(path)).AtDir? && !RootAlias(path) ==>
              Walk(dirs, 0, Split(path)[..|Split(path)| - 1]) == AtDir(parent)
    ensures halted <==>
              || Walk(dirs, 0, Split(path)) == AtDir(0)
              || var hit, live := Walk(dirs, 0, Split(path)), EntriesOf(dirs, parent);
                 hit.AtDir? && |EntriesOf(dirs, hit.d)| == 2 && ListedTwice(live, hit.d)
    ensures !halted && !ok ==> dirs' == dirs && Walk(dirs, 0, Split(path)) != AtDir(0)
    ensures !halted ==>
              (ok <==> Walk(dirs, 0, Split(path)).AtDir? && |EntriesOf(dirs, Walk(dirs, 0, Split(path)).d)| == 2)
    ensures ok ==>
              && !halted && Split(path) != [] && dirs'.Keys == dirs.Keys - {Walk(dirs, 0, Split(path)).d}
              && dirs' == Rmdir(dirs, parent, Walk(dirs, 0, Split(path)).d)
              && (forall q :: q in dirs' && q != parent ==> dirs'[q] == dirs[q])
              && if Split(path)[|Split(path)| - 1] == "." then forall any :: !TreeOk(dirs', any)
                  else
                    && TreeOk(dirs', depth) && parent in dirs'
                    && exists k :: 2 <= k < |dirs[parent]| && dirs[parent][k].ino == Walk(dirs, 0, Split(path)).d
                                   && dirs'[parent] == dirs[parent][..k] + dirs[parent][k + 1..]
  {
    hide TreeOk; hide Walk; hide Split; hide PathTo; hide Numbered; hide DropNumber; hide FindName;
    var hit, above := SearchFile(dirs, depth, path, junk);
    RootIn(dirs, depth);
    if hit.AtDir? && above in dirs { NumberedTwice(dirs[above], hit.d); }
    if RootAlias(path) { RootAliasWalk(dirs, depth, path); }
    halted, ok, dirs', parent := false, false, dirs, above;
    if hit == AtDir(0) { halted := true; return; }
    if !hit.AtDir? || |dirs[hit.d]| != 2 { return; }
    if Numbered(dirs[above], hit.d, |dirs[above]|) > 1 { halted := true; return; }
    ok := true;
    dirs' := Rmdir(dirs, above, hit.d);
    RmdirDone(dirs, depth, Split(path), above, hit.d);
  }

  /** The root with one empty directory a, removed as "/a/.": the root keeps an entry for an
      inode that is free. */
  method RmdirDotExample() returns (dirs: Tree)
    ensures forall any :: !TreeOk(dirs, any)
    ensures 1 !in dirs && 0 in dirs && Has(dirs[0], Entry("a", 1, Directory))
  {
    hide TreeOk; hide Numbered;
    var a := Entry("a", 1, Directory);
    var was: Tree := map[0 := NewDir(0, 0) + [a], 1 := NewDir(1, 0)];
    RootTree();
    OneMoreEntry(NewDir(0, 0), a);
    MkdirTree(map[0 := NewDir(0, 0)], map[0 := 0], 0, "a", 1, NewDir(0, 0) + [a]);
    assert map[0 := NewDir(0, 0)][0 := NewDir(0, 0) + [a]][1 := NewDir(1, 0)] == was;
    var depth := map[0 := 0, 1 := 1];
    assert map[0 := 0][1 := 1] == depth;
    DotComponents();
    DotWalk(was, a);
    var halted, ok;
    ghost var parent;
    halted, ok, dirs, parent := SysRmdir(was, depth, "/a/.", Missing);
    assert ["a", "."][..1] == ["a"];
    assert dirs[0] == was[0] && dirs[0][2] == a;
  }

  lemma OneMoreEntry(live: seq<Entry>, e: Entry)
    requires |live| == 2
    ensures SameDots(live, live + [e]) && forall x :: Has(live + [e], x) <==> Has(live, x) || x == e
  {
    assert (live + [e])[2] == e;
  }

  lemma DotWalk(dirs: Tree, a: Entry)
    requires dirs == map[0 := NewDir(0, 0) + [a], 1 := NewDir(1, 0)] && a == Entry("a", 1, Directory)
    ensures Walk(dirs, 0, ["a"]) == AtDir(1) && Walk(dirs, 0, ["a", "."]) == AtDir(1)
    ensures Numbered(dirs[1], 1, 2) == 0 && |dirs[1]| == 2
  {
    assert ["a", "."] == ["a"] + ["."] && ["a"] == ["a"] + [] && ["."] == ["."] + [];
    assert FindName(dirs[0][2..], "a") == Some(a);
    assert dirs[0][1..][1..] == dirs[0][2..];
    assert FindName(dirs[0], "a") == Some(a);
    WalkFirst(dirs, 0, "a", []);
    WalkFirst(dirs, 0, "a", ["."]);
    WalkFirst(dirs, 1, ".", []);
  }

  lemma DotComponents()
    ensures Split("/a/.") == ["a", "."] && !RootAlias("/a/.")
  {
    assert "/a/." == "/" + "a/." && "a/." == "a" + "/." && "/." == "/" + "." && "." == "." + "";
    SplitSlash("a/.");
    SplitName("a", "/.");
    SplitSlash(".");
    SplitName(".", "");
  }

  function Rev(s: seq<string>): (r: seq<string>)
    ensures |r| == |s| && forall i :: 0 <= i < |s| ==> r[i] == s[|s| - 1 - i]
  {
    if s == [] then [] else Rev(s[1..]) + [s[0]]
  }

  /** `sys_getcwd`: climbing the `..` entries ends at the root, after as many steps as the
      directory is deep, and the names met on the way, turned round, are its path. */
  method Getcwd(dirs: Tree, ghost depth: map<nat, nat>, cwd: nat) returns (ok: bool, buf: string)
    requires TreeOk(dirs, depth) && cwd in dirs
    ensures ok && buf == Render(PathTo(dirs, depth, cwd))
  {
    hide TreeOk; hide PathTo; hide NameOf; hide Slashed;
    RootIn(dirs, depth);
    if cwd == 0 { return true, "/"; }
    ghost var full := PathTo(dirs, depth, cwd);
    ghost var rest: seq<string> := [];
    assert full + [] == full;
    SlashedNone();
    PathPlain(dirs, depth, cwd);
    PathLong(dirs, depth, cwd);
    var child, reversed := cwd, "";
    while child != 0
      invariant child in dirs && PathTo(dirs, depth, child) + rest == full && reversed == Slashed(Rev(rest))
      decreases if child in depth then depth[child] else 0, child != 0
    {
      var parent := Parent(dirs, child);
      ghost var k := IsChild(dirs, depth, child);
      ChildName(dirs, depth, parent, k);
      var f := NameOf(dirs[parent], child);
      if f.None? { return false, ""; }
      ghost var name := f.value.name;
      RevFirst(name, rest);
      SlashedPush(Rev(rest), name);
      reversed := reversed + "/" + f.value.name;
      assert PathTo(dirs, depth, parent) + ([name] + rest) == full;
      rest := [name] + rest;
      child := parent;
    }
    assert [] + rest == rest;
    buf := TurnRound(reversed, full);
    ok := true;
  }

  lemma PathLong(dirs: Tree, depth: map<nat, nat>, d: nat)
    requires TreeOk(dirs, depth) && d in dirs && d != 0
    ensures PathTo(dirs, depth, d) != []
  {
    var k := IsChild(dirs, depth, d);
  }

  lemma SlashedNone()
    ensures Slashed([]) == "" && Rev([]) == []
  {
  }

  lemma SlashedPush(names: seq<string>, name: string)
    ensures Slashed(names + [name]) == Slashed(names) + "/" + name
  {
  }

  /** The loop that copies the reversed path out, last component first. */
  method TurnRound(reversed: string, ghost full: seq<string>) returns (buf: string)
    requires AllPlain(full) && reversed == Slashed(Rev(full))
    ensures buf == Slashed(full)
  {
    hide Slashed; hide NoSlash; hide Rev;
    buf := "";
    var left := reversed;
    ghost var k := 0;
    SlashedNone();
    assert full[..0] == [] && full[0..] == full;
    while true
      invariant 0 <= k <= |full| && left == Slashed(Rev(full[k..])) && buf == Slashed(full[..k])
      decreases |full| - k
    {
      RevLast(full, k);
      var slash := LastSlash(left);
      if slash == -1 { break; }
      buf := buf + left[slash..];
      left := left[..slash];
      k := k + 1;
    }
    assert full[..k] == full;
  }

  /** The last component of the reversed rest is the next of the path. */
  lemma RevLast(full: seq<string>, k: nat)
    requires AllPlain(full) && k <= |full|
    ensures var left := Slashed(Rev(full[k..])); var slash := LastSlash(left);
            if k == |full| then slash == -1
            else
              && slash >= 0 && left[..slash] == Slashed(Rev(full[k + 1..]))
              && Slashed(full[..k]) + left[slash..] == Slashed(full[..k + 1])
  {
    hide Slashed; hide Rev; hide LastSlash;
    var rest := Rev(full[k..]);
    if k < |full| {
      var init, name := Rev(full[k + 1..]), full[k];
      assert full[k..] == [name] + full[k + 1..];
      RevFirst(name, full[k + 1..]);
      SlashedPush(init, name);
      LastSlashOf(Slashed(init), name);
      SlashedPush(full[..k], name);
      assert full[..k + 1] == full[..k] + [name];
      CutAt(Slashed(init), "/" + name, Slashed(full[..k]));
      assert Slashed(init) + "/" + name == Slashed(init) + ("/" + name);
      assert Slashed(full[..k]) + "/" + name == Slashed(full[..k]) + ("/" + name);
    } else {
      assert full[k..] == [];
      SlashedNone();
      NoLastSlash();
    }
  }

  lemma RevFirst(name: string, rest: seq<string>)
    ensures Rev([name] + rest) == Rev(rest) + [name]
  {
  }

  lemma CutAt(a: string, b: string, c: string)
    ensures (a + b)[..|a|] == a && c + (a + b)[|a|..] == c + b
  {
  }

  lemma NoLastSlash()
    ensures LastSlash("") == -1
  {
  }

  /** The shell process: its working directory and the path it shows in the prompt. */
  class Shell {
    var cwd: nat
    var cache: string

    constructor ()
      ensures cwd == 0 && cache == "/"
    {
      cwd, cache := 0, "/";
    }

    /** `sys_chdir`. */
    method Chdir(dirs: Tree, ghost depth: map<nat, nat>, path: string, junk: Hit) returns (ok: bool)
      requires TreeOk(dirs, depth) && path != "" && path[0] == '/'
      modifies this`cwd
      ensures var hit := if Split(path) == [] && !RootAlias(path) then junk else Walk(dirs, 0, Split(path));
              (ok <==> hit.AtDir?) && cwd == if ok then hit.d else old(cwd)
      ensures ok && (Split(path) != [] || RootAlias(path)) ==>
                cwd in dirs && Render(PathTo(dirs, depth, cwd)) == Washed(path)
    {
      hide TreeOk; hide PathTo; hide Split; hide Walk; hide Normal;
      var hit, parent := SearchFile(dirs, depth, path, junk);
      ok := hit.AtDir?;
      if ok {
        if Split(path) != [] || RootAlias(path) {
          RootIn(dirs, depth);
          WalkNormal(dirs, depth, 0, Split(path));
        }
        cwd := hit.d;
      }
    }

    /** `cd` with an argument. An argument that starts with a slash is followed from the root,
        any other from the working directory. It succeeds if and only if the names that are
        left after dots and dot-dots are dropped lead from the root to a directory; then that
        is the path of the new working directory, and the prompt shows it. */
    method Cd(dirs: Tree, ghost depth: map<nat, nat>, arg: string, junk: Hit) returns (ok: bool)
      requires TreeOk(dirs, depth) && cwd in dirs
      modifies this
      ensures var from := if arg != "" && arg[0] == '/' then [] else PathTo(dirs, depth, old(cwd));
              var names := Normal(from, Split(arg));
              && (ok <==> Walk(dirs, 0, names).AtDir?)
              && (ok ==> cwd in dirs && PathTo(dirs, depth, cwd) == names && cache == Render(names))
              && (ok && arg != "" && arg[0] == '/' ==> cache == Washed(arg))
      ensures !ok ==> cwd == old(cwd) && cache == old(cache)
    {
      hide TreeOk; hide PathTo; hide Split; hide Walk; hide Normal; hide Slashed; hide Washed;
      PathPlain(dirs, depth, cwd);
      ghost var from: seq<string> := [];
      var path := arg;
      if arg == "" || arg[0] != '/' {
        from := PathTo(dirs, depth, cwd);
        RenderStarts(from);
        var got, here := Getcwd(dirs, depth, cwd);
        if here != "/" { here := here + "/"; }
        path := here + arg;
        WashedRelativeNames(from, arg);
      } else {
        WashedAbsolute(arg);
      }
      ghost var names := Normal(from, Split(arg));
      SplitSlashed(names);
      var final := WashPath(path);
      assert final == Render(names);
      WashedShape(path);
      ok := Chdir(dirs, depth, final, junk);
      if ok {
        PathPlain(dirs, depth, cwd);
        WashedIdempotent(path);
        RenderInjective(PathTo(dirs, depth, cwd), names);
        cache := final;
      }
    }

    /** `cd` without an argument goes to the root. */
    method CdRoot(dirs: Tree, ghost depth: map<nat, nat>, junk: Hit) returns (ok: bool)
      requires TreeOk(dirs, depth)
      modifies this
      ensures ok && cwd == 0 && cache == "/"
    {
      hide TreeOk; hide PathTo; hide Split; hide Normal;
      RootAliasSplit("/");
      ok := Chdir(dirs, depth, "/", junk);
      cache := "/";
    }
  }

  lemma WashedAbsolute(path: string)
    ensures Washed(path) == Render(Normal([], Split(path))) && AllPlain(Normal([], Split(path)))
  {
    SplitNames(path);
    NormalPlain([], Split(path));
  }

  lemma RenderStarts(names: seq<string>)
    requires AllPlain(names)
    ensures |Render(names)| >= 1 && Render(names)[0] == '/' && (Render(names) == "/" <==> names == [])
  {
    SlashedLonger(names);
    SlashedStarts(names);
  }

  lemma {:induction false} SlashedStarts(names: seq<string>)
    ensures names != [] ==> |Slashed(names)| >= 1 && Slashed(names)[0] == '/'
  {
    if names != [] {
      SlashedStarts(names[..|names| - 1]);
      if |names| == 1 { assert Slashed(names[..0]) == ""; }
    }
  }

  lemma RenderInjective(a: seq<string>, b: seq<string>)
    requires AllPlain(a) && AllPlain(b) && Render(a) == Render(b)
    ensures a == b
  {
    SplitSlashed(a);
    SplitSlashed(b);
  }

  lemma WashedRelativeNames(names: seq<string>, path: string)
    requires AllPlain(names)
    ensures Washed((if names == [] then "/" else Render(names) + "/") + path) == Render(Normal(names, Split(path)))
    ensures AllPlain(Normal(names, Split(path)))
  {
    WashedRelative(names, path);
    SplitNames(path);
    NormalPlain(names, Split(path));
  }

  /** A washed path can be searched for. */
  lemma WashedShape(path: string)
    ensures var w := Washed(path); w != "" && w[0] == '/' && (Split(w) != [] || RootAlias(w))
  {
    WashedIdempotent(path);
    var names := Normal([], Split(path));
    RenderStarts(names);
  }
}
