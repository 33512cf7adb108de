/** `sync_dir_entry` over all 140 blocks of a directory (fs/dir.c). Searches read the indirect
    table; the store does not. */
module DirTables {
  import opened Stores
  import opened Dirs

  const POINTERS := 128

  /** The blocks that the inode and its table point to, `[]` for a zero pointer. */
  datatype Whole = Whole(direct: seq<seq<Entry>>, table: seq<seq<Entry>>) {
    predicate Ok() {
      && |direct| == DIRECT && |table| == POINTERS
      && forall i :: 0 <= i < DIRECT && direct[i] != [] ==> |direct[i]| == PER_SECTOR
    }

    /** What a search or a listing goes through. */
    function Entries(): seq<Entry> {
      Live(direct + table)
    }
  }

  /** A table with one block, which holds the entry twice. */
  function NewTable(e: Entry): seq<seq<Entry>> {
    [Twice(e)] + seq(POINTERS - 1, _ => [])
  }

  /** The entry went into a direct block, or a new table took the place of the old one. */
  ghost predicate Synced(w: Whole, w': Whole, e: Entry) {
    && w.Ok() && w'.Ok()
    && var k := RoomFrom(w.direct, 0);
       if k < DIRECT then w'.table == w.table && Stored(w.direct, w'.direct, k, e, w.direct[k] == [])
       else w'.direct == w.direct && w'.table == NewTable(e)
  }

  /** How many blocks the entry takes. */
  function Taken(w: Whole): nat
    requires w.Ok()
  {
    var k := RoomFrom(w.direct, 0);
    if k == DIRECT then 2 else if w.direct[k] == [] then 1 else 0
  }

  /** `sync_dir_entry` with this many free blocks: it stores the entry, or an allocation halts.
      The loop never gets to its end, where it would report a full directory, because block 12
      is taken for absent. */
  method SyncDirEntry(w: Whole, e: Entry, free: nat) returns (halted: bool, w': Whole)
    requires w.Ok() && !e.kind.Unknown?
    ensures halted <==> free < Taken(w)
    ensures !halted ==> Synced(w, w', e)
  {
    hide RoomFrom; hide Full;
    var all := w.direct + seq(POINTERS, _ => []);
    var idx := 0;
    while idx < DIRECT + POINTERS
      invariant 0 <= idx <= DIRECT && RoomFrom(w.direct, 0) == RoomFrom(w.direct, idx)
    {
      RoomStep(w.direct, idx);
      if all[idx] == [] {
        if free == 0 || (idx == DIRECT && free == 1) { return true, w; }
        var b := [e] + seq(PER_SECTOR - 1, _ => ZERO);
        var j := FreeSlot(b);
        assert b[1].kind.Unknown? && j == 1;
        assert b[j := e] == Twice(e);
        if idx < DIRECT {
          return false, Whole(w.direct[idx := b[j := e]], w.table);
        }
        return false, Whole(w.direct, [b[j := e]] + seq(POINTERS - 1, _ => []));
      }
      var j := FreeSlot(all[idx]);
      if j < PER_SECTOR {
        NotFull(all[idx], j);
        return false, Whole(w.direct[idx := all[idx][j := e]], w.table);
      }
      IsFull(all[idx]);
      idx := idx + 1;
    }
    assert false;
  }

  // ---------------------------------------------------------------- what is lost

  lemma {:induction false} LiveToLeft(a: seq<seq<Entry>>, b: seq<seq<Entry>>, n: nat)
    requires n <= |a|
    ensures LiveTo(a + b, n) == LiveTo(a, n)
  {
    if n > 0 { LiveToLeft(a, b, n - 1); }
  }

  lemma {:induction false} LiveToRight(a: seq<seq<Entry>>, b: seq<seq<Entry>>, n: nat)
    requires n <= |b|
    ensures LiveTo(a + b, |a| + n) == Live(a) + LiveTo(b, n)
  {
    hide LiveIn; hide LiveTo;
    if n == 0 {
      LiveToLeft(a, b, |a|);
      LiveStart(b);
    } else {
      LiveToRight(a, b, n - 1);
      LiveToNext(a + b, |a| + n - 1);
      LiveToNext(b, n - 1);
    }
  }

  lemma LiveConcat(w: Whole)
    ensures w.Entries() == Live(w.direct) + Live(w.table)
  {
    LiveToRight(w.direct, w.table, |w.table|);
  }

  lemma NewTableLive(e: Entry)
    requires !e.kind.Unknown? && !IsDot(e)
    ensures Live(NewTable(e)) == [e, e]
  {
    hide LiveIn; hide Twice;
    var t := NewTable(e);
    AbsentLiveNone(t, 1, POINTERS);
    TwiceLive(e);
    LiveStart(t);
    LiveToNext(t, 0);
  }

  lemma StoredLive(v: seq<seq<Entry>>, v': seq<seq<Entry>>, k: nat, e: Entry, isNew: bool)
    requires Stored(v, v', k, e, isNew) && !e.kind.Unknown? && !IsDot(e)
    ensures multiset(Live(v')) == multiset(Live(v)) + if isNew then multiset{e, e} else multiset{e}
  {
    hide LiveTo; hide LiveIn; hide Twice;
    if isNew {
      LiveSet(v, k, Twice(e), |v|);
      TwiceLive(e);
      NothingIn();
      assert multiset([e, e]) == multiset{e, e};
    } else {
      var j :| 0 <= j < |v[k]| && v[k][j].kind.Unknown? && v' == v[k := v[k][j := e]];
      LiveSet(v, k, v[k][j := e], |v|);
      LiveInSet(v[k], j, e, |v[k]|);
      var x, y := multiset(LiveIn(v[k], |v[k]|)), multiset(LiveIn(v[k][j := e], |v[k]|));
      assert y == x + multiset{e};
      CancelSum(multiset(Live(v')), x, multiset(Live(v)), multiset{e});
    }
  }

  lemma CommonPart<T>(d: multiset<T>, t: multiset<T>, x: multiset<T>)
    ensures d + t <= d + x <==> t <= x
  {
    assert forall y :: (d + t)[y] == d[y] + t[y] && (d + x)[y] == d[y] + x[y];
  }

  lemma RoomKeeps(w: Whole, w': Whole, e: Entry)
    requires Synced(w, w', e) && !e.kind.Unknown? && !IsDot(e) && RoomFrom(w.direct, 0) < DIRECT
    ensures multiset(w.Entries()) <= multiset(w'.Entries()) && e in w'.Entries()
  {
    hide Live; hide Stored; hide NewTable; hide RoomFrom;
    var k := RoomFrom(w.direct, 0);
    LiveConcat(w);
    LiveConcat(w');
    StoredLive(w.direct, w'.direct, k, e, w.direct[k] == []);
    var a, b, t := Live(w.direct), Live(w'.direct), Live(w.table);
    assert e in multiset(b);
    assert multiset(a + t) == multiset(a) + multiset(t) && multiset(b + t) == multiset(b) + multiset(t);
  }

  /** An entry that is stored displaces none exactly if a direct block has room, or the table
      held nothing else. */
  lemma KeepsIff(w: Whole, w': Whole, e: Entry)
    requires Synced(w, w', e) && !e.kind.Unknown? && !IsDot(e)
    ensures multiset(w.Entries()) <= multiset(w'.Entries())
            <==> RoomFrom(w.direct, 0) < DIRECT || multiset(Live(w.table)) <= multiset{e, e}
    ensures e in w'.Entries()
    ensures RoomFrom(w.direct, 0) == DIRECT ==> w'.Entries() == Live(w.direct) + [e, e]
  {
    hide Live; hide Stored; hide NewTable; hide RoomFrom;
    if RoomFrom(w.direct, 0) < DIRECT {
      RoomKeeps(w, w', e);
    } else {
      LiveConcat(w);
      LiveConcat(w');
      NewTableLive(e);
      var d, t := Live(w.direct), Live(w.table);
      assert multiset(d + t) == multiset(d) + multiset(t);
      assert multiset(d + [e, e]) == multiset(d) + multiset{e, e};
      CommonPart(multiset(d), multiset(t), multiset{e, e});
    }
  }

  /** Of any number of entries added once the direct blocks are full, the last is there. */
  method SyncAll(w: Whole, es: seq<Entry>, free: nat) returns (halted: bool, w': Whole)
    requires w.Ok() && RoomFrom(w.direct, 0) == DIRECT
    requires forall i :: 0 <= i < |es| ==> !es[i].kind.Unknown? && !IsDot(es[i])
    ensures halted <==> free < 2 * |es|
    ensures !halted ==> w'.Ok() && w'.direct == w.direct
    ensures !halted && es != [] ==> w'.Entries() == Live(w.direct) + [es[|es| - 1], es[|es| - 1]]
  {
    hide RoomFrom; hide Live; hide NewTable;
    halted, w' := false, w;
    for i := 0 to |es|
      invariant !halted && w'.Ok() && w'.direct == w.direct && 2 * i <= free
      invariant i > 0 ==> w'.Entries() == Live(w.direct) + [es[i - 1], es[i - 1]]
    {
      ghost var before := w';
      halted, w' := SyncDirEntry(w', es[i], free - 2 * i);
      if halted { return; }
      KeepsIff(before, w', es[i]);
    }
  }

  function Numbered(n: nat): Entry
    requires n < 416
  {
    Entry(['a' + (n / 16) as char, 'a' + (n % 16) as char], n, Regular)
  }

  /** Block k of a directory in which files 1 to 239 were created. */
  function FilledBlock(k: nat): seq<Entry>
    requires k < DIRECT
  {
    seq(PER_SECTOR, (j: nat) requires j < PER_SECTOR =>
      if k == 0 && j < 2 then FirstBlock(0, 0)[j]
      else if k == 0 then Numbered(j - 1)
      else Numbered(20 * k + if j == 0 then 0 else j - 1))
  }

  /** The next two files: the entry of 240 is gone when 241 is created. */
  method SecondIsGone() returns (w: Whole)
    ensures Numbered(240) !in w.Entries() && Numbered(241) in w.Entries()
  {
    hide LiveTo; hide LiveIn;
    var start := Whole(seq(DIRECT, k requires 0 <= k < DIRECT => FilledBlock(k)), seq(POINTERS, _ => []));
    forall k | 0 <= k < DIRECT
      ensures Full(start.direct[k]) && forall j :: 0 <= j < PER_SECTOR ==> start.direct[k][j].ino < 240
    {
    }
    assert RoomFrom(start.direct, 0) == DIRECT;
    var halted;
    halted, w := SyncAll(start, [Numbered(240), Numbered(241)], 4);
    NumbersBelow(start.direct, DIRECT);
  }

  lemma {:induction false} NumbersBelow(blocks: seq<seq<Entry>>, n: nat)
    requires n <= |blocks| && forall i, j :: 0 <= i < |blocks| && 0 <= j < |blocks[i]| ==> blocks[i][j].ino < 240
    ensures forall x :: x in LiveTo(blocks, n) ==> x.ino < 240
  {
    hide LiveIn;
    if n > 0 {
      NumbersBelow(blocks, n - 1);
      NumbersIn(blocks[n - 1], |blocks[n - 1]|);
    }
  }

  lemma {:induction false} NumbersIn(b: seq<Entry>, n: nat)
    requires n <= |b| && forall j :: 0 <= j < |b| ==> b[j].ino < 240
    ensures forall x :: x in LiveIn(b, n) ==> x.ino < 240
  {
    if n > 0 { NumbersIn(b, n - 1); }
  }
}
