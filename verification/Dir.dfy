/** Directories whose entries lie in direct blocks (fs/dir.c). A block holds 21 entries; an
    unused slot is all zero. */
module Dirs {
  import opened Options
  import opened Stores

  const ENTRY_SIZE := 24
  const PER_SECTOR := 21

  datatype Kind = Unknown | Regular | Directory
  datatype Entry = Entry(name: string, ino: nat, kind: Kind)

  const ZERO := Entry("", 0, Unknown)

  predicate IsDot(e: Entry) {
    e.name == "." || e.name == ".."
  }

  // ---------------------------------------------------------------- live entries, in order

  function Used(e: Entry): seq<Entry> {
    if e.kind.Unknown? then [] else [e]
  }

  /** The used slots among the first n of a block. */
  function LiveIn(b: seq<Entry>, n: nat): seq<Entry>
    requires n <= |b|
  {
    if n == 0 then [] else LiveIn(b, n - 1) + Used(b[n - 1])
  }

  /** The used slots of the first n blocks. */
  function LiveTo(blocks: seq<seq<Entry>>, n: nat): seq<Entry>
    requires n <= |blocks|
  {
    if n == 0 then [] else LiveTo(blocks, n - 1) + LiveIn(blocks[n - 1], |blocks[n - 1]|)
  }

  function Live(blocks: seq<seq<Entry>>): seq<Entry> {
    LiveTo(blocks, |blocks|)
  }

  lemma {:induction false} LiveInPrefix(b: seq<Entry>, m: nat, n: nat)
    requires m <= n <= |b|
    ensures LiveIn(b, m) <= LiveIn(b, n)
  {
    if m < n { LiveInPrefix(b, m, n - 1); }
  }

  lemma {:induction false} LiveToPrefix(blocks: seq<seq<Entry>>, m: nat, n: nat)
    requires m <= n <= |blocks|
    ensures LiveTo(blocks, m) <= LiveTo(blocks, n)
  {
    if m < n { LiveToPrefix(blocks, m, n - 1); }
  }

  /** Where a used slot stands among all. */
  lemma LiveAt(blocks: seq<seq<Entry>>, i: nat, j: nat)
    requires i < |blocks| && j < |blocks[i]| && !blocks[i][j].kind.Unknown?
    ensures var k := |LiveTo(blocks, i)| + |LiveIn(blocks[i], j)|;
            k < |Live(blocks)| && Live(blocks)[k] == blocks[i][j]
  {
    LiveInPrefix(blocks[i], j + 1, |blocks[i]|);
    LiveToPrefix(blocks, i + 1, |blocks|);
    var k := |LiveTo(blocks, i)| + |LiveIn(blocks[i], j)|;
    assert LiveTo(blocks, i + 1) == LiveTo(blocks, i) + LiveIn(blocks[i], |blocks[i]|);
    assert LiveIn(blocks[i], |blocks[i]|)[|LiveIn(blocks[i], j)|] == blocks[i][j];
    assert LiveTo(blocks, i + 1)[k] == blocks[i][j];
  }

  /** Nothing but used slots is listed. */
  lemma {:induction false} LiveInFrom(b: seq<Entry>, n: nat, e: Entry)
    requires n <= |b| && e in LiveIn(b, n)
    ensures exists j :: 0 <= j < n && b[j] == e && !e.kind.Unknown?
  {
    if e in LiveIn(b, n - 1) { LiveInFrom(b, n - 1, e); } else { assert b[n - 1] == e; }
  }

  lemma {:induction false} LiveInSame(b: seq<Entry>, c: seq<Entry>, n: nat)
    requires n <= |b| && n <= |c| && b[..n] == c[..n]
    ensures LiveIn(b, n) == LiveIn(c, n)
  {
    if n > 0 {
      assert b[n - 1] == b[..n][n - 1] == c[n - 1];
      assert b[..n - 1] == b[..n][..n - 1] == c[..n - 1];
      LiveInSame(b, c, n - 1);
    }
  }

  lemma {:induction false} LiveToSame(blocks: seq<seq<Entry>>, i: nat, b: seq<Entry>, n: nat)
    requires n <= i < |blocks|
    ensures LiveTo(blocks[i := b], n) == LiveTo(blocks, n)
  {
    if n > 0 { LiveToSame(blocks, i, b, n - 1); }
  }

  lemma Exchange<T>(a: seq<T>, a': seq<T>, x: seq<T>, y: seq<T>, c: seq<T>)
    requires multiset(a') + multiset(x) == multiset(a) + multiset(y)
    ensures multiset(a' + c) + multiset(x) == multiset(a + c) + multiset(y)
  {
    assert multiset(a' + c) == multiset(a') + multiset(c);
    assert multiset(a + c) == multiset(a) + multiset(c);
    assert multiset(a') + multiset(c) + multiset(x) == (multiset(a') + multiset(x)) + multiset(c);
  }

  /** Writing a slot exchanges what it lists. */
  lemma {:induction false} LiveInSet(b: seq<Entry>, j: nat, e: Entry, n: nat)
    requires j < n <= |b|
    ensures multiset(LiveIn(b[j := e], n)) + multiset(Used(b[j])) == multiset(LiveIn(b, n)) + multiset(Used(e))
  {
    hide Used;
    if j == n - 1 {
      assert b[j := e][..j] == b[..j];
      LiveInSame(b[j := e], b, j);
    } else {
      LiveInSet(b, j, e, n - 1);
      Exchange(LiveIn(b, n - 1), LiveIn(b[j := e], n - 1), Used(b[j]), Used(e), Used(b[n - 1]));
    }
  }

  /** Replacing a block exchanges what it lists. */
  lemma {:induction false} LiveSet(blocks: seq<seq<Entry>>, i: nat, b: seq<Entry>, n: nat)
    requires i < n <= |blocks|
    ensures multiset(LiveTo(blocks[i := b], n)) + multiset(LiveIn(blocks[i], |blocks[i]|))
            == multiset(LiveTo(blocks, n)) + multiset(LiveIn(b, |b|))
  {
    hide LiveIn;
    if i == n - 1 {
      LiveToSame(blocks, i, b, i);
    } else {
      LiveSet(blocks, i, b, n - 1);
      Exchange(LiveTo(blocks, n - 1), LiveTo(blocks[i := b], n - 1), LiveIn(blocks[i], |blocks[i]|), LiveIn(b, |b|),
               LiveIn(blocks[n - 1], |blocks[n - 1]|));
    }
  }

  // ---------------------------------------------------------------- the invariant

  /** Whole or absent, and unused slots are zero. */
  predicate BlockOk(b: seq<Entry>) {
    && (b == [] || |b| == PER_SECTOR)
    && forall j :: 0 <= j < |b| && b[j].kind.Unknown? ==> b[j] == ZERO
  }

  predicate DotsFirst(b: seq<Entry>) {
    && |b| == PER_SECTOR
    && b[0].name == "." && b[0].kind.Directory? && b[1].name == ".." && b[1].kind.Directory?
    && forall j :: 2 <= j < |b| ==> !IsDot(b[j])
  }

  predicate NoDots(b: seq<Entry>) {
    forall j :: 0 <= j < |b| ==> !IsDot(b[j])
  }

  /** A block after the first is absent or has a used slot. */
  predicate RestOk(b: seq<Entry>) {
    NoDots(b) && (b != [] ==> LiveIn(b, |b|) != [])
  }

  ghost predicate DirOk(blocks: seq<seq<Entry>>, size: nat) {
    && |blocks| == DIRECT && (forall i :: 0 <= i < |blocks| ==> BlockOk(blocks[i]))
    && DotsFirst(blocks[0]) && (forall i :: 1 <= i < |blocks| ==> RestOk(blocks[i]))
    && size == ENTRY_SIZE * |Live(blocks)|
  }

  /** Only `.` and `..` are left exactly when two entries are, and then no block but the
      first is there. */
  lemma EmptyMeans(blocks: seq<seq<Entry>>, size: nat)
    requires DirOk(blocks, size)
    ensures |Live(blocks)| >= 2 && Live(blocks)[0] == blocks[0][0] && Live(blocks)[1] == blocks[0][1]
    ensures size == 2 * ENTRY_SIZE <==> Live(blocks) == [blocks[0][0], blocks[0][1]]
    ensures size == 2 * ENTRY_SIZE ==> forall i :: 1 <= i < |blocks| ==> blocks[i] == []
  {
    hide BlockOk; hide NoDots; hide LiveIn; hide LiveTo;
    var b, all := blocks[0], Live(blocks);
    TwoDots(blocks);
    forall i | 1 <= i < |blocks| && blocks[i] != [] ensures |all| > 2 {
      assert RestOk(blocks[i]);
      OneMore(blocks, i);
    }
    assert |all| == 2 ==> all == [b[0], b[1]];
  }

  lemma TwoDots(blocks: seq<seq<Entry>>)
    requires |blocks| == DIRECT && DotsFirst(blocks[0])
    ensures |LiveTo(blocks, 1)| >= 2 && LiveTo(blocks, 1)[0] == blocks[0][0] && LiveTo(blocks, 1)[1] == blocks[0][1]
    ensures LiveTo(blocks, 1) <= Live(blocks)
  {
    var b := blocks[0];
    LiveInPrefix(b, 2, |b|);
    assert LiveIn(b, 0) == [] && LiveIn(b, 1) == [b[0]] && LiveIn(b, 2) == [b[0], b[1]];
    assert LiveTo(blocks, 1) == LiveIn(b, |b|) by { assert LiveTo(blocks, 0) == []; }
    LiveToPrefix(blocks, 1, |blocks|);
  }

  /** A block with used slots lists more than the blocks before it. */
  lemma OneMore(blocks: seq<seq<Entry>>, i: nat)
    requires 1 <= i < |blocks| && LiveIn(blocks[i], |blocks[i]|) != []
    ensures |Live(blocks)| > |LiveTo(blocks, 1)|
  {
    hide LiveIn;
    LiveToPrefix(blocks, 1, i);
    LiveToPrefix(blocks, i + 1, |blocks|);
    assert LiveTo(blocks, i + 1) == LiveTo(blocks, i) + LiveIn(blocks[i], |blocks[i]|);
  }

  // ---------------------------------------------------------------- steps on values

  /** Live entries after one block is replaced. */
  lemma BlockReplaced(blocks: seq<seq<Entry>>, size: nat, k: nat, b: seq<Entry>, size': nat)
    requires DirOk(blocks, size) && k < DIRECT && BlockOk(b)
    requires if k == 0 then DotsFirst(b) else RestOk(b)
    requires size' + ENTRY_SIZE * |LiveIn(blocks[k], |blocks[k]|)| == size + ENTRY_SIZE * |LiveIn(b, |b|)|
    ensures DirOk(blocks[k := b], size')
    ensures multiset(Live(blocks[k := b])) + multiset(LiveIn(blocks[k], |blocks[k]|))
            == multiset(Live(blocks)) + multiset(LiveIn(b, |b|))
  {
    hide BlockOk; hide DotsFirst; hide RestOk; hide LiveIn; hide LiveTo;
    var blocks' := blocks[k := b];
    LiveSet(blocks, k, b, |blocks|);
    var x, y := LiveIn(blocks[k], |blocks[k]|), LiveIn(b, |b|);
    assert |multiset(Live(blocks')) + multiset(x)| == |Live(blocks')| + |x|;
    assert |multiset(Live(blocks)) + multiset(y)| == |Live(blocks)| + |y|;
    assert forall i :: 0 <= i < |blocks'| ==> BlockOk(blocks'[i]);
    assert forall i :: 1 <= i < |blocks'| ==> RestOk(blocks'[i]);
  }

  /** A used entry goes to an unused slot. */
  lemma StoreSlot(b: seq<Entry>, j: nat, e: Entry)
    requires BlockOk(b) && j < |b| && b[j].kind.Unknown? && !e.kind.Unknown? && !IsDot(e)
    ensures BlockOk(b[j := e]) && (DotsFirst(b) ==> DotsFirst(b[j := e])) && (NoDots(b) ==> RestOk(b[j := e]))
    ensures multiset(LiveIn(b[j := e], |b|)) == multiset(LiveIn(b, |b|)) + multiset{e}
    ensures |LiveIn(b[j := e], |b|)| == |LiveIn(b, |b|)| + 1
  {
    hide LiveIn;
    LiveInSet(b, j, e, |b|);
    var x, y := LiveIn(b[j := e], |b|), LiveIn(b, |b|);
    assert multiset(Used(b[j])) == multiset{} && multiset(Used(e)) == multiset{e};
    assert multiset(x) == multiset(y) + multiset{e};
    assert |multiset(x)| == |x| && |multiset(y)| == |y|;
  }

  /** A used slot other than the dots is cleared. */
  lemma EraseSlot(b: seq<Entry>, j: nat)
    requires BlockOk(b) && j < |b| && !b[j].kind.Unknown? && !IsDot(b[j])
    ensures BlockOk(b[j := ZERO]) && (DotsFirst(b) ==> DotsFirst(b[j := ZERO])) && (NoDots(b) ==> NoDots(b[j := ZERO]))
    ensures multiset(LiveIn(b[j := ZERO], |b|)) + multiset{b[j]} == multiset(LiveIn(b, |b|))
    ensures |LiveIn(b[j := ZERO], |b|)| + 1 == |LiveIn(b, |b|)|
  {
    hide LiveIn;
    LiveInSet(b, j, ZERO, |b|);
    var x, y := LiveIn(b[j := ZERO], |b|), LiveIn(b, |b|);
    assert multiset(Used(b[j])) == multiset{b[j]} && multiset(Used(ZERO)) == multiset{};
    assert |multiset(x) + multiset{b[j]}| == |x| + 1 && |multiset(y)| == |y|;
  }

  /** The contents of a block that `sync_dir_entry` has just added: the entry, twice. */
  function Twice(e: Entry): (b: seq<Entry>)
    ensures |b| == PER_SECTOR
  {
    [e, e] + seq(PER_SECTOR - 2, _ => ZERO)
  }

  lemma {:induction false} ZerosLiveNone(b: seq<Entry>, m: nat, n: nat)
    requires m <= n <= |b| && forall j :: m <= j < n ==> b[j] == ZERO
    ensures LiveIn(b, n) == LiveIn(b, m)
  {
    if m < n { ZerosLiveNone(b, m, n - 1); }
  }

  lemma TwiceLive(e: Entry)
    requires !e.kind.Unknown? && !IsDot(e)
    ensures BlockOk(Twice(e)) && RestOk(Twice(e)) && LiveIn(Twice(e), PER_SECTOR) == [e, e]
  {
    hide LiveIn;
    TwoLive(Twice(e), e, e);
  }

  // ---------------------------------------------------------------- what the loops look for

  predicate Full(b: seq<Entry>) {
    b != [] && forall j :: 0 <= j < |b| ==> !b[j].kind.Unknown?
  }

  /** The first block that is absent or has an unused slot. */
  function RoomFrom(blocks: seq<seq<Entry>>, i: nat): (k: nat)
    requires i <= |blocks|
    ensures i <= k <= |blocks| && (k < |blocks| ==> !Full(blocks[k])) && forall m :: i <= m < k ==> Full(blocks[m])
    decreases |blocks| - i
  {
    if i == |blocks| || !Full(blocks[i]) then i else RoomFrom(blocks, i + 1)
  }

  lemma RoomStep(blocks: seq<seq<Entry>>, i: nat)
    requires i <= |blocks|
    ensures i == |blocks| ==> RoomFrom(blocks, i) == i
    ensures i < |blocks| && Full(blocks[i]) ==> RoomFrom(blocks, i) == RoomFrom(blocks, i + 1)
    ensures i < |blocks| && !Full(blocks[i]) ==> RoomFrom(blocks, i) == i
    ensures i < |blocks| && blocks[i] == [] ==> RoomFrom(blocks, i) == i
  {
  }

  lemma NotFull(b: seq<Entry>, j: nat)
    requires j < |b| && b[j].kind.Unknown?
    ensures !Full(b)
  {
  }

  lemma IsFull(b: seq<Entry>)
    requires b != [] && forall j :: 0 <= j < |b| ==> !b[j].kind.Unknown?
    ensures Full(b)
  {
  }

  /** Block k got the entry, in an unused slot or as a new block. */
  predicate Stored(v: seq<seq<Entry>>, v': seq<seq<Entry>>, k: nat, e: Entry, isNew: bool) {
    && k < |v| && (v[k] == [] <==> isNew)
    && if isNew then v' == v[k := Twice(e)]
       else exists j :: 0 <= j < |v[k]| && v[k][j].kind.Unknown? && v' == v[k := v[k][j := e]]
  }

  /** An entry for `ino` left block k, and the block with it if it was the last of a later
      block. */
  predicate Erased(v: seq<seq<Entry>>, v': seq<seq<Entry>>, k: nat, ino: nat) {
    && k < |v|
    && exists j :: 0 <= j < |v[k]| && Match(v[k][j], ino)
                   && v' == v[k := if k != 0 && |LiveIn(v[k], |v[k]|)| == 1 then [] else v[k][j := ZERO]]
  }

  lemma ErasedBy(v: seq<seq<Entry>>, k: nat, j: nat, ino: nat)
    requires k < |v| && j < |v[k]| && Match(v[k][j], ino)
    ensures Erased(v, v[k := if k != 0 && |LiveIn(v[k], |v[k]|)| == 1 then [] else v[k][j := ZERO]], k, ino)
  {
    hide Match; hide LiveIn;
  }

  lemma {:induction false} CopiesSome(b: seq<Entry>, ino: nat, j: nat, n: nat)
    requires j < n <= |b| && Match(b[j], ino)
    ensures Copies(b, ino, n) > 0
  {
    if j < n - 1 { CopiesSome(b, ino, j, n - 1); }
  }

  lemma {:induction false} CopyAt(b: seq<Entry>, ino: nat, n: nat) returns (j: nat)
    requires n <= |b| && Copies(b, ino, n) > 0
    ensures j < n && Match(b[j], ino)
  {
    if Match(b[n - 1], ino) { j := n - 1; } else { j := CopyAt(b, ino, n - 1); }
  }

  /** What was stored in an unused slot and erased again leaves no trace. */
  lemma StoredErased(v: seq<seq<Entry>>, v1: seq<seq<Entry>>, v2: seq<seq<Entry>>, size: nat, k: nat, e: Entry)
    requires DirOk(v, size) && Stored(v, v1, k, e, false) && Erased(v1, v2, k, e.ino)
    requires FirstWith(v, e.ino, 0) == |v| && !e.kind.Unknown? && !IsDot(e)
    ensures v2 == v
  {
    hide FirstWith; hide LiveIn; hide Copies; hide LiveTo; hide DotsFirst;
    var b := v[k];
    var j :| 0 <= j < |b| && b[j].kind.Unknown? && v1 == v[k := b[j := e]];
    var i :| 0 <= i < |v1[k]| && Match(v1[k][i], e.ino)
             && v2 == v1[k := if k != 0 && |LiveIn(v1[k], |v1[k]|)| == 1 then [] else v1[k][i := ZERO]];
    assert Copies(b, e.ino, |b|) == 0;
    if i != j { CopiesSome(b, e.ino, i, |b|); }
    assert BlockOk(b);
    StoreSlot(b, j, e);
    if k != 0 { assert RestOk(b); }
    assert b[j := e][j := ZERO] == b;
  }

  /** The block that got a new number is the first with it. */
  lemma StoredFirst(v: seq<seq<Entry>>, v': seq<seq<Entry>>, k: nat, e: Entry, isNew: bool)
    requires Stored(v, v', k, e, isNew) && !e.kind.Unknown? && !IsDot(e) && FirstWith(v, e.ino, 0) == |v|
    ensures FirstWith(v', e.ino, 0) == k && Copies(v'[k], e.ino, |v'[k]|) == if isNew then 2 else 1
  {
    hide FirstWith;
    assert Copies(v[k], e.ino, |v[k]|) == 0;
    if isNew {
      CopiesTwice(e);
    } else {
      var j :| 0 <= j < |v[k]| && v[k][j].kind.Unknown? && v' == v[k := v[k][j := e]];
      CopiesSet(v[k], j, e, |v[k]|);
    }
    FirstWithIs(v', e.ino, 0, k);
  }

  lemma {:induction false} FirstWithIs(v: seq<seq<Entry>>, ino: nat, i: nat, k: nat)
    requires i <= k < |v| && Copies(v[k], ino, |v[k]|) > 0
    requires forall m :: i <= m < k ==> Copies(v[m], ino, |v[m]|) == 0
    ensures FirstWith(v, ino, i) == k
    decreases k - i
  {
    hide Copies;
    if i < k { FirstWithIs(v, ino, i + 1, k); }
  }

  lemma {:induction false} CopiesSame(b: seq<Entry>, c: seq<Entry>, ino: nat, n: nat)
    requires n <= |b| && n <= |c| && forall j :: 0 <= j < n ==> b[j] == c[j]
    ensures Copies(b, ino, n) == Copies(c, ino, n)
  {
    if n > 0 { CopiesSame(b, c, ino, n - 1); }
  }

  lemma {:induction false} CopiesSet(b: seq<Entry>, j: nat, e: Entry, n: nat)
    requires j < n <= |b| && b[j].kind.Unknown? && !e.kind.Unknown? && !IsDot(e)
    ensures Copies(b[j := e], e.ino, n) == Copies(b, e.ino, n) + 1
  {
    if j == n - 1 { CopiesSame(b, b[j := e], e.ino, j); } else { CopiesSet(b, j, e, n - 1); }
  }

  lemma {:induction false} CopiesZero(b: seq<Entry>, ino: nat, m: nat, n: nat)
    requires m <= n <= |b| && forall j :: m <= j < n ==> b[j] == ZERO
    ensures Copies(b, ino, n) == Copies(b, ino, m)
  {
    if m < n { CopiesZero(b, ino, m, n - 1); }
  }

  lemma CopiesTwice(e: Entry)
    requires !e.kind.Unknown? && !IsDot(e)
    ensures Copies(Twice(e), e.ino, PER_SECTOR) == 2
  {
    hide Copies;
    var z := seq(PER_SECTOR, _ => ZERO);
    CopiesZero(z, e.ino, 0, PER_SECTOR);
    CopiesStart(z, e.ino);
    CopiesSet(z, 0, e, PER_SECTOR);
    CopiesSet(z[0 := e], 1, e, PER_SECTOR);
    assert z[0 := e][1 := e] == Twice(e);
  }

  lemma {:induction false} LiveInBound(b: seq<Entry>, n: nat)
    requires n <= |b|
    ensures |LiveIn(b, n)| <= n
  {
    if n > 0 { LiveInBound(b, n - 1); }
  }

  lemma {:induction false} LiveToBound(blocks: seq<seq<Entry>>, n: nat)
    requires n <= |blocks| && forall i :: 0 <= i < |blocks| ==> BlockOk(blocks[i])
    ensures |LiveTo(blocks, n)| <= PER_SECTOR * n
  {
    hide LiveIn;
    if n > 0 {
      LiveToBound(blocks, n - 1);
      assert BlockOk(blocks[n - 1]);
      LiveInBound(blocks[n - 1], |blocks[n - 1]|);
    }
  }

  lemma SizeBound(v: seq<seq<Entry>>, size: nat)
    requires DirOk(v, size)
    ensures size <= ENTRY_SIZE * PER_SECTOR * DIRECT
  {
    hide LiveTo;
    LiveToBound(v, |v|);
  }

  lemma SizeIs(v: seq<seq<Entry>>, size: nat, size': nat)
    requires DirOk(v, size) && DirOk(v, size')
    ensures size' == size
  {
  }

  lemma CopiesStart(b: seq<Entry>, ino: nat)
    ensures Copies(b, ino, 0) == 0
  {
  }

  predicate Match(e: Entry, ino: nat) {
    !e.kind.Unknown? && !IsDot(e) && e.ino == ino
  }

  /** How many of the first n slots hold an entry for `ino`, and how many any entry. */
  function Copies(b: seq<Entry>, ino: nat, n: nat): nat
    requires n <= |b|
  {
    if n == 0 then 0 else Copies(b, ino, n - 1) + if Match(b[n - 1], ino) then 1 else 0
  }

  function Named(b: seq<Entry>, n: nat): nat
    requires n <= |b|
  {
    if n == 0 then 0 else Named(b, n - 1) + if !b[n - 1].kind.Unknown? && !IsDot(b[n - 1]) then 1 else 0
  }

  lemma {:induction false} CopiesGrow(b: seq<Entry>, ino: nat, m: nat, n: nat)
    requires m <= n <= |b|
    ensures Copies(b, ino, m) <= Copies(b, ino, n)
  {
    if m < n { CopiesGrow(b, ino, m, n - 1); }
  }

  lemma {:induction false} NamedIsLive(b: seq<Entry>, n: nat)
    requires n <= |b| && NoDots(b)
    ensures Named(b, n) == |LiveIn(b, n)|
  {
    if n > 0 { NamedIsLive(b, n - 1); }
  }

  function FirstWith(blocks: seq<seq<Entry>>, ino: nat, i: nat): (k: nat)
    requires i <= |blocks|
    ensures i <= k <= |blocks| && (k < |blocks| ==> Copies(blocks[k], ino, |blocks[k]|) > 0)
    ensures forall m :: i <= m < k ==> Copies(blocks[m], ino, |blocks[m]|) == 0
    decreases |blocks| - i
  {
    if i == |blocks| || Copies(blocks[i], ino, |blocks[i]|) > 0 then i else FirstWith(blocks, ino, i + 1)
  }

  // ---------------------------------------------------------------- on disk

  function Block(sectors: seq<nat>, disk: map<nat, seq<Entry>>, i: nat): seq<Entry>
    requires i < |sectors|
  {
    if sectors[i] == 0 || sectors[i] !in disk then [] else disk[sectors[i]]
  }

  function View(sectors: seq<nat>, disk: map<nat, seq<Entry>>): (v: seq<seq<Entry>>)
    ensures |sectors| == DIRECT + 1 ==> |v| == DIRECT && forall i :: 0 <= i < DIRECT ==> v[i] == Block(sectors, disk, i)
  {
    if |sectors| != DIRECT + 1 then [] else seq(DIRECT, (i: nat) requires i < DIRECT => Block(sectors, disk, i))
  }

  /** Direct blocks only, each with a sector of its own. */
  predicate SectorsOk(sectors: seq<nat>, disk: map<nat, seq<Entry>>) {
    && |sectors| == DIRECT + 1 && sectors[DIRECT] == 0
    && (forall i :: 0 <= i < DIRECT && sectors[i] != 0 ==> sectors[i] in disk && |disk[sectors[i]]| == PER_SECTOR)
    && (forall i, j :: 0 <= i < j < DIRECT && sectors[i] != 0 ==> sectors[i] != sectors[j])
  }

  lemma AbsentMeansZero(sectors: seq<nat>, disk: map<nat, seq<Entry>>)
    requires SectorsOk(sectors, disk)
    ensures |sectors| == DIRECT + 1 && sectors[DIRECT] == 0
    ensures forall i :: 0 <= i < DIRECT ==> (sectors[i] == 0 <==> View(sectors, disk)[i] == [])
  {
  }

  lemma WriteBlock(sectors: seq<nat>, disk: map<nat, seq<Entry>>, i: nat, b: seq<Entry>)
    requires SectorsOk(sectors, disk) && i < DIRECT && sectors[i] != 0 && |b| == PER_SECTOR
    ensures SectorsOk(sectors, disk[sectors[i] := b])
    ensures View(sectors, disk[sectors[i] := b]) == View(sectors, disk)[i := b]
  {
  }

  lemma AddBlock(sectors: seq<nat>, disk: map<nat, seq<Entry>>, i: nat, lba: nat, b: seq<Entry>)
    requires SectorsOk(sectors, disk) && i < DIRECT && lba != 0 && lba !in sectors && |b| == PER_SECTOR
    ensures SectorsOk(sectors[i := lba], disk[lba := b])
    ensures View(sectors[i := lba], disk[lba := b]) == View(sectors, disk)[i := b]
  {
  }

  lemma DropBlock(sectors: seq<nat>, disk: map<nat, seq<Entry>>, i: nat)
    requires SectorsOk(sectors, disk) && i < DIRECT
    ensures SectorsOk(sectors[i := 0], disk) && View(sectors[i := 0], disk) == View(sectors, disk)[i := []]
  {
  }

  /** The first block of a new directory. */
  function FirstBlock(ino: nat, parent: nat): (b: seq<Entry>)
    ensures |b| == PER_SECTOR
  {
    [Entry(".", ino, Directory), Entry("..", parent, Directory)] + seq(PER_SECTOR - 2, _ => ZERO)
  }

  function FindName(live: seq<Entry>, name: string): Option<Entry> {
    if live == [] then None else if live[0].name == name then Some(live[0]) else FindName(live[1..], name)
  }

  class Directory {
    /** The direct blocks and the indirect table, of which there is none. */
    var sectors: seq<nat>
    var disk: map<nat, seq<Entry>>
    var size: nat
    var pos: nat

    ghost predicate Valid()
      reads this
    {
      SectorsOk(sectors, disk) && DirOk(View(sectors, disk), size)
    }

    ghost function Blocks(): seq<seq<Entry>>
      reads this
    {
      View(sectors, disk)
    }

    /** The entries, in slot order. */
    ghost function Entries(): seq<Entry>
      reads this
    {
      Live(View(sectors, disk))
    }

    /** A new directory: `.` and `..` in its first block, written by `sys_mkdir`. */
    constructor (ino: nat, parent: nat, lba: nat)
      requires lba != 0
      ensures Valid() && Entries() == [Entry(".", ino, Directory), Entry("..", parent, Directory)] && pos == 0
      ensures sectors == [lba] + seq(DIRECT, _ => 0) && disk == map[lba := FirstBlock(ino, parent)]
      ensures size == 2 * ENTRY_SIZE
    {
      sectors := [lba] + seq(DIRECT, _ => 0);
      disk := map[lba := FirstBlock(ino, parent)];
      size, pos := 2 * ENTRY_SIZE, 0;
      new;
      NewBlocks(View(sectors, disk), Entry(".", ino, Directory), Entry("..", parent, Directory));
    }

    /** `sync_dir_entry`. `lba` is the block that `block_bitmap_alloc` would give. With all
        direct blocks full the result is false and nothing is stored here; the source then
        goes on to the indirect table. An entry that needs a new block is stored twice. */
    method SyncDirEntry(e: Entry, lba: nat) returns (ok: bool)
      requires Valid() && !e.kind.Unknown? && !IsDot(e) && lba != 0 && lba !in sectors
      modifies this`sectors, this`disk, this`size
      ensures Valid() && (ok <==> RoomFrom(old(View(sectors, disk)), 0) < DIRECT)
      ensures !ok ==> sectors == old(sectors) && disk == old(disk) && size == old(size)
      ensures ok ==>
                var k := RoomFrom(old(View(sectors, disk)), 0);
                && multiset(Entries()) == old(multiset(Entries())) + (if old(sectors)[k] == 0 then multiset{e, e}
                    else multiset{e})
                && Stored(old(View(sectors, disk)), View(sectors, disk), k, e, old(sectors)[k] == 0)
                && sectors == if old(sectors)[k] == 0 then old(sectors)[k := lba] else old(sectors)
      ensures forall q :: q in old(disk) && q !in old(sectors) && q != lba ==> q in disk && disk[q] == old(disk)[q]
    {
      hide DirOk; hide Live; hide Full; hide RoomFrom; hide Twice; hide IsDot;
      ghost var v := View(sectors, disk);
      var idx := 0;
      while idx < DIRECT
        invariant sectors == old(sectors) && disk == old(disk) && size == old(size)
        invariant 0 <= idx <= DIRECT && RoomFrom(v, 0) == RoomFrom(v, idx)
      {
        RoomStep(v, idx);
        if sectors[idx] == 0 {
          NewBlockStep(v, size, idx, e);
          AddBlock(sectors, disk, idx, lba, Twice(e));
          ok := AppendTwice(idx, e, lba);
          return;
        }
        var b := disk[sectors[idx]];
        assert v[idx] == b;
        var j := FreeSlot(b);
        if j < PER_SECTOR {
          FreeSlotStep(v, size, idx, j, e);
          WriteBlock(sectors, disk, idx, b[j := e]);
          assert !Full(b) by { NotFull(b, j); }
          disk := disk[sectors[idx] := b[j := e]];
          size := size + ENTRY_SIZE;
          return true;
        }
        assert Full(b) by { IsFull(b); }
        idx := idx + 1;
      }
      RoomStep(v, DIRECT);
      ok := false;
    }

    /** A new block gets the entry in its first slot, and then, because nothing returns, in
        its first unused slot as well. */
    method AppendTwice(idx: nat, e: Entry, lba: nat) returns (ok: bool)
      requires |sectors| == DIRECT + 1 && idx < DIRECT && !e.kind.Unknown?
      modifies this`sectors, this`disk, this`size
      ensures ok && sectors == old(sectors)[idx := lba] && disk == old(disk)[lba := Twice(e)]
      ensures size == old(size) + 2 * ENTRY_SIZE
    {
      sectors := sectors[idx := lba];
      disk := disk[lba := [e] + seq(PER_SECTOR - 1, _ => ZERO)];
      size := size + ENTRY_SIZE;
      var b := disk[sectors[idx]];
      var j := FreeSlot(b);
      assert b[1].kind.Unknown?;
      assert j == 1;
      assert b[1 := e] == Twice(e);
      disk := disk[sectors[idx] := b[j := e]];
      size := size + ENTRY_SIZE;
      ok := true;
    }

    /** `delete_dir_entry`. Stops at a failed ASSERT exactly when the first block with an
        entry for `ino` has a second one. */
    method DeleteDirEntry(ino: nat) returns (halted: bool, found: bool)
      requires Valid()
      modifies this`sectors, this`disk, this`size
      ensures var v := old(View(sectors, disk)); var k := FirstWith(v, ino, 0);
              && (halted <==> k < DIRECT && Copies(v[k], ino, |v[k]|) >= 2)
              && (!halted ==> (found <==> k < DIRECT))
              && (!halted && found ==>
                    && Valid() && Erased(v, View(sectors, disk), k, ino)
                    && (exists e :: Match(e, ino) && multiset(Entries()) + multiset{e} == old(multiset(Entries())))
                    && (old(sectors)[k] != 0 && (sectors[k] == 0 <==> k != 0 && |LiveIn(v[k], |v[k]|)| == 1))
                    && (forall i :: 0 <= i <= DIRECT && i != k ==> sectors[i] == old(sectors)[i])
                    && (sectors[k] == 0 || sectors[k] == old(sectors)[k]))
      ensures halted || !found ==> sectors == old(sectors) && disk == old(disk) && size == old(size)
    {
      hide DirOk; hide Live; hide FirstWith; hide Copies; hide Named; hide LiveIn; hide DotsFirst; hide NoDots;
      hide BlockOk; hide Match;
      ghost var v := View(sectors, disk);
      halted, found := false, false;
      var idx := 0;
      while idx < DIRECT
        invariant sectors == old(sectors) && disk == old(disk) && size == old(size)
        invariant 0 <= idx <= DIRECT && FirstWith(v, ino, 0) == FirstWith(v, ino, idx) && !halted && !found
      {
        FirstWithStep(v, ino, idx);
        if sectors[idx] == 0 {
          idx := idx + 1;
          continue;
        }
        var b := disk[sectors[idx]];
        assert v[idx] == b;
        var first, cnt, at := false, 0, -1;
        halted, first, cnt, at := ScanBlock(b, ino);
        if halted { return; }
        if at == -1 {
          idx := idx + 1;
          continue;
        }
        BlockFacts(v, size, idx);
        DeleteStep(v, size, idx, at, ino);
        ErasedBy(v, idx, at, ino);
        assert first <==> idx == 0;
        if cnt == 1 && !first {
          DropBlock(sectors, disk, idx);
          sectors := sectors[idx := 0];
        } else {
          WriteBlock(sectors, disk, idx, b[at := ZERO]);
          disk := disk[sectors[idx] := b[at := ZERO]];
        }
        if size < ENTRY_SIZE { halted := true; return; }
        size := size - ENTRY_SIZE;
        found := true;
        return;
      }
      FirstWithStep(v, ino, DIRECT);
    }

    /** An entry is added under a new number and deleted again. The second ASSERT of
        `delete_dir_entry` fails exactly when the entry took a new block; otherwise the
        directory is as it was, slot by slot. */
    method AddThenDelete(e: Entry, lba: nat) returns (halted: bool, ok: bool)
      requires Valid() && !e.kind.Unknown? && !IsDot(e) && lba != 0 && lba !in sectors
      requires FirstWith(View(sectors, disk), e.ino, 0) == DIRECT
      modifies this`sectors, this`disk, this`size
      ensures ok <==> RoomFrom(old(View(sectors, disk)), 0) < DIRECT
      ensures halted <==> ok && old(sectors)[RoomFrom(old(View(sectors, disk)), 0)] == 0
      ensures !halted ==> Valid() && View(sectors, disk) == old(View(sectors, disk)) && size == old(size)
    {
      hide DirOk; hide LiveTo; hide FirstWith; hide Copies; hide LiveIn; hide RoomFrom; hide Stored; hide Erased;
      hide IsDot;
      ghost var v := View(sectors, disk);
      halted := false;
      ok := SyncDirEntry(e, lba);
      if ok {
        ghost var k := RoomFrom(v, 0);
        ghost var v1 := View(sectors, disk);
        StoredFirst(v, v1, k, e, old(sectors)[k] == 0);
        var found;
        halted, found := DeleteDirEntry(e.ino);
        if !halted {
          StoredErased(v, v1, View(sectors, disk), old(size), k, e);
          SizeIs(v, old(size), size);
        }
      }
    }

    /** `search_dir_entry`: the first entry of that name. The loop compares names only; an
        unused slot has an empty one. */
    method SearchDirEntry(name: string) returns (r: Option<Entry>)
      requires Valid() && name != ""
      ensures r == FindName(Entries(), name)
    {
      hide LiveTo; hide LiveIn; hide FindName; hide NoName; hide DotsFirst; hide RestOk;
      ghost var v := View(sectors, disk);
      NoNameStart(v, name);
      var idx := 0;
      while idx < DIRECT
        invariant 0 <= idx <= DIRECT && NoName(LiveTo(v, idx), name)
      {
        assert BlockOk(v[idx]);
        if sectors[idx] == 0 {
          NoNameBlock(v, idx, name);
          idx := idx + 1;
          continue;
        }
        var b := disk[sectors[idx]];
        assert v[idx] == b;
        NoNameSlots(b, name);
        var j := 0;
        while j < PER_SECTOR
          invariant 0 <= j <= PER_SECTOR && NoName(LiveIn(b, j), name)
        {
          if b[j].name == name {
            FoundAt(v, idx, j, name);
            return Some(b[j]);
          }
          NoNameSlot(b, j, name);
          j := j + 1;
        }
        NoNameBlock(v, idx, name);
        idx := idx + 1;
      }
      FindNone(LiveTo(v, DIRECT), name);
      r := None;
    }

    /** `dir_read`: the entry at the position, or NULL past the last. Its ASSERT holds. */
    method DirRead() returns (halted: bool, r: Option<Entry>)
      requires Valid() && pos % ENTRY_SIZE == 0
      modifies this`pos
      ensures !halted
      ensures var k := old(pos) / ENTRY_SIZE;
              if k < |Entries()| then r == Some(Entries()[k]) && pos == old(pos) + ENTRY_SIZE
                  else r == None && pos == old(pos)
    {
      hide LiveTo; hide LiveIn; hide DotsFirst; hide RestOk; hide BlockOk;
      ghost var v := View(sectors, disk);
      LiveStart(v);
      halted, r := false, None;
      var cur, idx := 0, 0;
      while idx < DIRECT
        invariant 0 <= idx <= DIRECT && cur == ENTRY_SIZE * |LiveTo(v, idx)| <= pos && pos == old(pos)
      {
        if pos >= size { return; }
        LiveNext(v, idx);
        if sectors[idx] == 0 {
          idx := idx + 1;
          continue;
        }
        var b := disk[sectors[idx]];
        assert v[idx] == b;
        var j := 0;
        while j < PER_SECTOR
          invariant 0 <= j <= PER_SECTOR && pos == old(pos)
          invariant cur == ENTRY_SIZE * (|LiveTo(v, idx)| + |LiveIn(b, j)|) <= pos
        {
          LiveInNext(b, j);
          if !b[j].kind.Unknown? {
            if cur < pos {
              cur := cur + ENTRY_SIZE;
              j := j + 1;
              continue;
            }
            if cur != pos { halted := true; return; }
            LiveAt(v, idx, j);
            pos := pos + ENTRY_SIZE;
            return false, Some(b[j]);
          }
          j := j + 1;
        }
        idx := idx + 1;
      }
    }

    /** Reading from position 0 until NULL gives every entry once, in order. */
    method ReadAll() returns (all: seq<Entry>)
      requires Valid()
      modifies this`pos
      ensures all == Entries()
    {
      hide LiveTo; hide LiveIn; hide DirOk;
      pos, all := 0, [];
      var halted, r := DirRead();
      while r.Some?
        invariant |all| <= |Entries()| && all == Entries()[..|all|] && sectors == old(sectors) && disk == old(disk)
        invariant size == old(size)
        invariant r.Some? ==> |all| < |Entries()| && r.value == Entries()[|all|] && pos == ENTRY_SIZE * (|all| + 1)
        invariant r == None ==> |all| == |Entries()|
        decreases |Entries()| - |all|, r.Some?
      {
        all := all + [r.value];
        halted, r := DirRead();
      }
    }

    /** `dir_is_empty`. */
    method IsEmpty() returns (r: bool)
      requires Valid()
      ensures r <==> forall e :: e in Entries() ==> IsDot(e)
      ensures r <==> |Entries()| == 2
    {
      r := size == ENTRY_SIZE * 2;
      EmptyMeans(View(sectors, disk), size);
      OnlyDots(View(sectors, disk), size);
    }

    /** The loop at the head of `dir_remove`, as `sys_rmdir` reaches it. */
    method RmdirCheck() returns (halted: bool, removable: bool)
      requires Valid()
      ensures !halted && (removable <==> forall e :: e in Entries() ==> IsDot(e))
      ensures removable ==> sectors[0] != 0 && forall i :: 1 <= i < |sectors| ==> sectors[i] == 0
    {
      removable := IsEmpty();
      halted := false;
      if removable {
        EmptyMeans(View(sectors, disk), size);
        AbsentMeansZero(sectors, disk);
        var idx := 1;
        while idx < DIRECT + 1
          invariant 1 <= idx <= DIRECT + 1 && forall i :: 1 <= i < idx ==> sectors[i] == 0
        {
          if sectors[idx] != 0 {
            halted := true;
            return;
          }
          idx := idx + 1;
        }
      }
    }
  }

  predicate NoName(s: seq<Entry>, name: string) {
    forall i :: 0 <= i < |s| ==> s[i].name != name
  }

  lemma NoNameStart(blocks: seq<seq<Entry>>, name: string)
    ensures NoName(LiveTo(blocks, 0), name)
  {
  }

  lemma NoNameSlots(b: seq<Entry>, name: string)
    ensures NoName(LiveIn(b, 0), name)
  {
  }

  lemma NoNameSlot(b: seq<Entry>, j: nat, name: string)
    requires j < |b| && NoName(LiveIn(b, j), name) && b[j].name != name
    ensures NoName(LiveIn(b, j + 1), name)
  {
  }

  lemma NoNameBlock(blocks: seq<seq<Entry>>, i: nat, name: string)
    requires i < |blocks| && NoName(LiveTo(blocks, i), name)
    requires blocks[i] == [] || NoName(LiveIn(blocks[i], |blocks[i]|), name)
    ensures NoName(LiveTo(blocks, i + 1), name)
  {
  }

  lemma {:induction false} FindNone(live: seq<Entry>, name: string)
    requires NoName(live, name)
    ensures FindName(live, name) == None
  {
    if live != [] { FindNone(live[1..], name); }
  }

  lemma {:induction false} FindAt(live: seq<Entry>, k: nat, name: string)
    requires k < |live| && live[k].name == name && NoName(live[..k], name)
    ensures FindName(live, name) == Some(live[k])
  {
    if k > 0 {
      assert live[..k][0] == live[0];
      assert live[1..][..k - 1] == live[..k][1..];
      FindAt(live[1..], k - 1, name);
    }
  }

  lemma FoundAt(blocks: seq<seq<Entry>>, i: nat, j: nat, name: string)
    requires i < |blocks| && j < |blocks[i]| && BlockOk(blocks[i]) && name != "" && blocks[i][j].name == name
    requires NoName(LiveTo(blocks, i), name) && NoName(LiveIn(blocks[i], j), name)
    ensures FindName(Live(blocks), name) == Some(blocks[i][j])
  {
    hide LiveTo; hide LiveIn; hide FindName;
    var live, a, c := Live(blocks), LiveTo(blocks, i), LiveIn(blocks[i], j);
    LiveToNext(blocks, i);
    LiveAt(blocks, i, j);
    LiveInPrefix(blocks[i], j, |blocks[i]|);
    LiveToPrefix(blocks, i + 1, |blocks|);
    assert live[..|a| + |c|] == a + c;
    FindAt(live, |a| + |c|, name);
  }

  lemma LiveToNext(blocks: seq<seq<Entry>>, i: nat)
    requires i < |blocks|
    ensures LiveTo(blocks, i + 1) == LiveTo(blocks, i) + LiveIn(blocks[i], |blocks[i]|)
  {
  }

  lemma LiveStart(blocks: seq<seq<Entry>>)
    ensures LiveTo(blocks, 0) == []
  {
  }

  lemma LiveNext(blocks: seq<seq<Entry>>, i: nat)
    requires i < |blocks|
    ensures |LiveTo(blocks, i + 1)| == |LiveTo(blocks, i)| + |LiveIn(blocks[i], |blocks[i]|)|
    ensures LiveIn(blocks[i], 0) == []
    ensures blocks[i] == [] ==> |LiveTo(blocks, i + 1)| == |LiveTo(blocks, i)|
  {
  }

  lemma LiveInNext(b: seq<Entry>, j: nat)
    requires j < |b|
    ensures |LiveIn(b, j + 1)| == |LiveIn(b, j)| + if b[j].kind.Unknown? then 0 else 1
  {
  }

  /** Entries other than the dots are exactly what makes a directory longer than two. */
  lemma OnlyDots(blocks: seq<seq<Entry>>, size: nat)
    requires DirOk(blocks, size)
    ensures |Live(blocks)| == 2 <==> forall e :: e in Live(blocks) ==> IsDot(e)
  {
    hide LiveIn; hide BlockOk; hide RestOk;
    EmptyMeans(blocks, size);
    var live := Live(blocks);
    if |live| != 2 { ThirdIsNoDot(blocks, size); } else { assert live == [blocks[0][0], blocks[0][1]]; }
  }

  lemma ThirdIsNoDot(blocks: seq<seq<Entry>>, size: nat)
    requires DirOk(blocks, size) && |Live(blocks)| > 2
    ensures Live(blocks)[2] in Live(blocks) && !IsDot(Live(blocks)[2])
  {
    hide BlockOk; hide LiveIn; hide LiveTo;
    TailTo(blocks, |blocks|);
  }

  predicate TailNoDots(s: seq<Entry>) {
    |s| >= 2 && forall k :: 2 <= k < |s| ==> !IsDot(s[k])
  }

  lemma {:induction false} TailIn(b: seq<Entry>, n: nat)
    requires DotsFirst(b) && 2 <= n <= |b|
    ensures TailNoDots(LiveIn(b, n))
  {
    if n == 2 {
      assert LiveIn(b, 0) == [] && LiveIn(b, 1) == [b[0]] && LiveIn(b, 2) == [b[0], b[1]];
    } else {
      TailIn(b, n - 1);
    }
  }

  lemma {:induction false} PlainIn(b: seq<Entry>, n: nat)
    requires NoDots(b) && n <= |b|
    ensures forall k :: 0 <= k < |LiveIn(b, n)| ==> !IsDot(LiveIn(b, n)[k])
  {
    if n > 0 { PlainIn(b, n - 1); }
  }

  lemma {:induction false} TailTo(blocks: seq<seq<Entry>>, n: nat)
    requires |blocks| == DIRECT && DotsFirst(blocks[0]) && 1 <= n <= |blocks|
    requires forall i :: 1 <= i < |blocks| ==> RestOk(blocks[i])
    ensures TailNoDots(LiveTo(blocks, n))
  {
    hide LiveIn;
    if n == 1 {
      TailIn(blocks[0], |blocks[0]|);
      assert LiveTo(blocks, 0) == [] && LiveTo(blocks, 1) == LiveIn(blocks[0], |blocks[0]|);
    } else {
      TailTo(blocks, n - 1);
      assert RestOk(blocks[n - 1]);
      PlainIn(blocks[n - 1], |blocks[n - 1]|);
    }
  }

  /** The inner loop of `delete_dir_entry`: whether the block holds `.`, how many other
      entries, and where the one for `ino` is. */
  method ScanBlock(b: seq<Entry>, ino: nat) returns (halted: bool, first: bool, cnt: nat, at: int)
    requires |b| == PER_SECTOR
    ensures halted <==> Copies(b, ino, |b|) >= 2
    ensures !halted ==> (first <==> exists j :: 0 <= j < |b| && !b[j].kind.Unknown? && b[j].name == ".")
    ensures !halted ==> cnt == Named(b, |b|) && (at == -1 <==> Copies(b, ino, |b|) == 0)
    ensures !halted && at != -1 ==> 0 <= at < |b| && Match(b[at], ino)
  {
    halted, first, cnt, at := false, false, 0, -1;
    var j := 0;
    while j < PER_SECTOR
      invariant 0 <= j <= PER_SECTOR && !halted
      invariant first <==> exists i :: 0 <= i < j && !b[i].kind.Unknown? && b[i].name == "."
      invariant cnt == Named(b, j) && Copies(b, ino, j) == (if at == -1 then 0 else 1)
      invariant at != -1 ==> 0 <= at < j && Match(b[at], ino)
    {
      if !b[j].kind.Unknown? {
        if b[j].name == "." {
          first := true;
        } else if b[j].name != ".." {
          cnt := cnt + 1;
          if b[j].ino == ino {
            if at != -1 {
              CopiesGrow(b, ino, j + 1, |b|);
              halted := true;
              return;
            }
            at := j;
          }
        }
      }
      j := j + 1;
    }
  }

  lemma FirstWithStep(blocks: seq<seq<Entry>>, ino: nat, i: nat)
    requires i <= |blocks|
    ensures i == |blocks| ==> FirstWith(blocks, ino, i) == i
    ensures i < |blocks| ==>
              FirstWith(blocks, ino, i) == if Copies(blocks[i], ino, |blocks[i]|) > 0 then i
                  else FirstWith(blocks, ino, i + 1)
    ensures i < |blocks| && blocks[i] == [] ==> Copies(blocks[i], ino, |blocks[i]|) == 0
  {
  }

  /** What the scan of a block means in a well-formed directory. */
  lemma BlockFacts(blocks: seq<seq<Entry>>, size: nat, k: nat)
    requires DirOk(blocks, size) && k < DIRECT && blocks[k] != []
    ensures size >= ENTRY_SIZE
    ensures (exists j :: 0 <= j < |blocks[k]| && !blocks[k][j].kind.Unknown? && blocks[k][j].name == ".") <==> k == 0
    ensures k > 0 ==> Named(blocks[k], |blocks[k]|) == |LiveIn(blocks[k], |blocks[k]|)|
  {
    var b := blocks[k];
    EmptyMeans(blocks, size);
    if k == 0 {
      assert !b[0].kind.Unknown? && b[0].name == ".";
    } else {
      assert RestOk(b);
      NamedIsLive(b, |b|);
    }
  }

  lemma DeleteStep(blocks: seq<seq<Entry>>, size: nat, k: nat, j: nat, ino: nat)
    requires DirOk(blocks, size) && k < DIRECT && j < |blocks[k]| && Match(blocks[k][j], ino) && size >= ENTRY_SIZE
    ensures var b := blocks[k]; var one := k != 0 && |LiveIn(b, |b|)| == 1;
            var blocks' := blocks[k := if one then [] else b[j := ZERO]];
            DirOk(blocks', size - ENTRY_SIZE) && multiset(Live(blocks')) + multiset{b[j]} == multiset(Live(blocks))
  {
    hide LiveTo; hide LiveIn;
    var b := blocks[k];
    var one := k != 0 && |LiveIn(b, |b|)| == 1;
    assert BlockOk(b) && (k > 0 ==> RestOk(b));
    EraseSlot(b, j);
    var x := LiveIn(b[j := ZERO], |b|);
    var b' := if one then [] else b[j := ZERO];
    if one { NoneLeft(x); NothingIn(); }
    BlockReplaced(blocks, size, k, b', size - ENTRY_SIZE);
    CancelDrop(multiset(Live(blocks[k := b'])), multiset(LiveIn(b, |b|)), multiset(Live(blocks)),
        multiset(LiveIn(b', |b'|)), multiset{b[j]});
  }

  lemma NothingIn()
    ensures LiveIn([], 0) == []
  {
  }

  lemma NoneLeft<T>(x: seq<T>)
    ensures |x| == 0 ==> x == [] && multiset(x) == multiset{}
  {
  }

  lemma CancelDrop<T>(a: multiset<T>, b: multiset<T>, c: multiset<T>, x: multiset<T>, y: multiset<T>)
    requires a + b == c + x && x + y == b
    ensures a + y == c
  {
    assert (a + y) + x == c + x;
    assert a + y == ((a + y) + x) - x;
    assert c == (c + x) - x;
  }

  /** The first unused slot of a block. */
  method FreeSlot(b: seq<Entry>) returns (j: nat)
    requires |b| == PER_SECTOR
    ensures j <= PER_SECTOR && (j < PER_SECTOR ==> b[j].kind.Unknown?)
    ensures forall i :: 0 <= i < j ==> !b[i].kind.Unknown?
  {
    j := 0;
    while j < PER_SECTOR
      invariant j <= PER_SECTOR && forall i :: 0 <= i < j ==> !b[i].kind.Unknown?
    {
      if b[j].kind.Unknown? { return; }
      j := j + 1;
    }
  }

  lemma NewBlocks(blocks: seq<seq<Entry>>, dot: Entry, dotdot: Entry)
    requires |blocks| == DIRECT && blocks[0] == [dot, dotdot] + seq(PER_SECTOR - 2, _ => ZERO)
    requires forall i :: 1 <= i < DIRECT ==> blocks[i] == []
    requires dot.name == "." && dotdot.name == ".." && dot.kind.Directory? && dotdot.kind.Directory?
    ensures Live(blocks) == [dot, dotdot] && DirOk(blocks, 2 * ENTRY_SIZE)
  {
    hide LiveIn; hide LiveTo;
    var b := blocks[0];
    TwoLive(b, dot, dotdot);
    AbsentLiveNone(blocks, 1, DIRECT);
    LiveStart(blocks);
    LiveToNext(blocks, 0);
    assert [] + [dot, dotdot] == [dot, dotdot];
  }

  lemma TwoLive(b: seq<Entry>, dot: Entry, dotdot: Entry)
    requires b == [dot, dotdot] + seq(PER_SECTOR - 2, _ => ZERO) && !dot.kind.Unknown? && !dotdot.kind.Unknown?
    ensures LiveIn(b, PER_SECTOR) == [dot, dotdot]
  {
    hide LiveIn;
    ZerosLiveNone(b, 2, PER_SECTOR);
    LiveInStep(b, 0);
    LiveInStep(b, 1);
  }

  lemma LiveInStep(b: seq<Entry>, j: nat)
    requires j < |b|
    ensures LiveIn(b, 0) == [] && LiveIn(b, j + 1) == LiveIn(b, j) + Used(b[j])
  {
  }

  lemma {:induction false} AbsentLiveNone(blocks: seq<seq<Entry>>, m: nat, n: nat)
    requires m <= n <= |blocks| && forall i :: m <= i < n ==> blocks[i] == []
    ensures LiveTo(blocks, n) == LiveTo(blocks, m)
  {
    if m < n { AbsentLiveNone(blocks, m, n - 1); }
  }

  lemma NewBlockStep(blocks: seq<seq<Entry>>, size: nat, k: nat, e: Entry)
    requires DirOk(blocks, size) && k < DIRECT && blocks[k] == [] && !e.kind.Unknown? && !IsDot(e)
    ensures DirOk(blocks[k := Twice(e)], size + 2 * ENTRY_SIZE)
    ensures multiset(Live(blocks[k := Twice(e)])) == multiset(Live(blocks)) + multiset{e, e}
  {
    hide LiveTo; hide RestOk; hide BlockOk; hide Twice;
    TwiceLive(e);
    assert LiveIn(blocks[k], 0) == [];
    BlockReplaced(blocks, size, k, Twice(e), size + 2 * ENTRY_SIZE);
    assert multiset([e, e]) == multiset{e, e};
  }

  lemma FreeSlotStep(blocks: seq<seq<Entry>>, size: nat, k: nat, j: nat, e: Entry)
    requires DirOk(blocks, size) && k < DIRECT && j < |blocks[k]| && blocks[k][j].kind.Unknown?
    requires !e.kind.Unknown? && !IsDot(e)
    ensures DirOk(blocks[k := blocks[k][j := e]], size + ENTRY_SIZE)
    ensures multiset(Live(blocks[k := blocks[k][j := e]])) == multiset(Live(blocks)) + multiset{e}
  {
    hide LiveTo; hide LiveIn;
    var b := blocks[k];
    assert BlockOk(b) && (k > 0 ==> RestOk(b));
    StoreSlot(b, j, e);
    BlockReplaced(blocks, size, k, b[j := e], size + ENTRY_SIZE);
    CancelSum(multiset(Live(blocks[k := b[j := e]])), multiset(LiveIn(b, |b|)), multiset(Live(blocks)), multiset{e});
  }

  lemma CancelSum<T>(a: multiset<T>, x: multiset<T>, c: multiset<T>, y: multiset<T>)
    requires a + x == c + (x + y)
    ensures a == c + y
  {
    assert a + x == (c + y) + x;
    assert a == (a + x) - x;
  }

  /** Where no entry has a number, no block has a match for it. */
  lemma NoEntryFor(v: seq<seq<Entry>>, n: nat)
    requires forall e :: e in Live(v) ==> e.ino != n
    ensures FirstWith(v, n, 0) == |v|
  {
    var k := FirstWith(v, n, 0);
    if k < |v| {
      var j := CopyAt(v[k], n, |v[k]|);
      LiveAt(v, k, j);
      assert false;
    }
  }

  // ---------------------------------------------------------------- a full first block

  lemma {:induction false} LiveInAll(b: seq<Entry>, n: nat)
    requires n <= |b|
    ensures |LiveIn(b, n)| <= n && (|LiveIn(b, n)| == n <==> forall j :: 0 <= j < n ==> !b[j].kind.Unknown?)
  {
    if n > 0 { LiveInAll(b, n - 1); }
  }

  /** Which block a new entry goes to, while there is only the first. */
  lemma FirstBlockRoom(v: seq<seq<Entry>>)
    requires |v| == DIRECT && |v[0]| == PER_SECTOR && v[1] == []
    ensures RoomFrom(v, 0) == if |LiveIn(v[0], PER_SECTOR)| < PER_SECTOR then 0 else 1
  {
    hide LiveIn; hide RoomFrom; hide Full;
    LiveInAll(v[0], PER_SECTOR);
    RoomStep(v, 0);
    RoomStep(v, 1);
    if |LiveIn(v[0], PER_SECTOR)| < PER_SECTOR {
      var j :| 0 <= j < PER_SECTOR && v[0][j].kind.Unknown?;
      NotFull(v[0], j);
    } else {
      IsFull(v[0]);
    }
  }

  lemma StoredCount(v: seq<seq<Entry>>, v': seq<seq<Entry>>, e: Entry)
    requires Stored(v, v', 0, e, false) && BlockOk(v[0]) && v[0] != [] && !e.kind.Unknown? && !IsDot(e)
    ensures |v'| == |v| && |v'[0]| == |v[0]| && |LiveIn(v'[0], |v'[0]|)| == |LiveIn(v[0], |v[0]|)| + 1
    ensures forall i :: 1 <= i < |v| ==> v'[i] == v[i]
  {
    hide LiveIn; hide BlockOk;
    var j :| 0 <= j < |v[0]| && v[0][j].kind.Unknown? && v' == v[0 := v[0][j := e]];
    StoreSlot(v[0], j, e);
  }

  /** A new directory with nineteen entries has its 21 slots in use. The next entry is stored
      twice, and its removal halts. */
  method TwentiethEntryHalts() returns (halted: bool)
    ensures halted
  {
    hide LiveIn; hide LiveTo; hide Stored; hide RoomFrom; hide FirstWith; hide BlockOk; hide DotsFirst;
    hide RestOk; hide View;
    var d := new Directory(0, 0, 1);
    NewDirectory(d.Blocks(), 1);
    var i := 0;
    while i < 19
      invariant 0 <= i <= 19 && fresh(d) && d.Valid() && d.sectors == [1] + seq(DIRECT, _ => 0)
      invariant |d.Blocks()| == DIRECT && |d.Blocks()[0]| == PER_SECTOR && |LiveIn(d.Blocks()[0], PER_SECTOR)| == 2 + i
      invariant d.Blocks()[1] == [] && forall e :: e in multiset(d.Entries()) ==> e.ino < 20
    {
      ghost var v := d.Blocks();
      var e := Entry("f", i + 1, Regular);
      FirstBlockRoom(v);
      assert BlockOk(v[0]);
      var ok := d.SyncDirEntry(e, 2);
      StoredCount(v, d.Blocks(), e);
      i := i + 1;
    }
    FirstBlockRoom(d.Blocks());
    assert forall e :: e in d.Entries() ==> e in multiset(d.Entries());
    NoEntryFor(d.Blocks(), 20);
    var ok;
    halted, ok := d.AddThenDelete(Entry("f", 20, Regular), 2);
  }

  lemma NewDirectory(v: seq<seq<Entry>>, lba: nat)
    requires lba != 0 && v == View([lba] + seq(DIRECT, _ => 0), map[lba := FirstBlock(0, 0)])
    ensures |v| == DIRECT && v[0] == FirstBlock(0, 0) && v[1] == [] && |LiveIn(v[0], PER_SECTOR)| == 2
  {
    hide LiveIn;
    TwoLive(v[0], Entry(".", 0, Directory), Entry("..", 0, Directory));
  }
}
