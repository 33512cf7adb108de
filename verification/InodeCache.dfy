/** The list of open inodes (fs/inode.c: `inode_open`, `inode_close`, `inode_delete`, and the
    pushes of `file_create`). */
module InodeCache {
  import opened Disks
  import opened Inodes

  /** An inode in memory and how many times it is open. */
  datatype OpenInode = OpenInode(no: Word, ino: Inode, cnt: nat)

  predicate IsOpen(open: seq<OpenInode>, n: Word) {
    exists i :: 0 <= i < |open| && open[i].no == n
  }

  ghost predicate Unique(open: seq<OpenInode>) {
    forall i, j :: 0 <= i < j < |open| ==> open[i].no != open[j].no
  }

  /** Every open inode that is still allocated agrees with its record. */
  ghost predicate Agrees(open: seq<OpenInode>, inUse: set<Word>, d: Disk, base: nat) {
    forall i :: 0 <= i < |open| && open[i].no in inUse ==> RecordIs(d, base, open[i].no, open[i].ino)
  }

  ghost predicate Records(inUse: set<Word>, d: Disk, base: nat) {
    forall n :: n in inUse ==> DecodeNo(Slot(d, base, n)) == n
  }

  ghost predicate CacheOk(open: seq<OpenInode>, inUse: set<Word>, d: Disk, base: nat) {
    && Unique(open) && Agrees(open, inUse, d, base) && Records(inUse, d, base)
    && forall i :: 0 <= i < |open| ==> open[i].cnt > 0
  }

  // ---------------------------------------------------------------- steps on values

  lemma PushOk(open: seq<OpenInode>, inUse: set<Word>, d: Disk, base: nat, x: OpenInode)
    requires CacheOk(open, inUse, d, base) && x.cnt > 0 && !IsOpen(open, x.no)
    requires x.no in inUse ==> RecordIs(d, base, x.no, x.ino)
    ensures CacheOk([x] + open, inUse, d, base)
  {
  }

  lemma SetOk(open: seq<OpenInode>, inUse: set<Word>, d: Disk, base: nat, i: nat, cnt: nat)
    requires CacheOk(open, inUse, d, base) && i < |open| && cnt > 0
    ensures CacheOk(open[i := open[i].(cnt := cnt)], inUse, d, base)
  {
  }

  lemma DropOk(open: seq<OpenInode>, inUse: set<Word>, d: Disk, base: nat, i: nat)
    requires CacheOk(open, inUse, d, base) && i < |open|
    ensures CacheOk(open[..i] + open[i + 1..], inUse, d, base) && !IsOpen(open[..i] + open[i + 1..], open[i].no)
  {
    var open' := open[..i] + open[i + 1..];
    assert forall j :: 0 <= j < |open'| ==> open'[j] == if j < i then open[j] else open[j + 1];
  }

  /** What `inode_sync` does to the table. */
  lemma SyncTable(d: Disk, base: nat, n: Word, ino: Inode)
    ensures var d' := SyncInode(d, base, n, ino);
            && (forall m: Word :: m != n % 256 ==> Slot(d', base, m) == Slot(d, base, m))
            && DecodeNo(Slot(d', base, n % 256)) == n && Decode(Slot(d', base, n % 256)) == ino
  {
    hide Slot; hide Decode; hide DecodeNo; hide StoreSlot; hide Encode;
    StoreSlotOnly(d, base, n % 256, Encode(n, ino));
    RecordRoundTrip(n, ino);
  }

  /** A copy changes and is synced. The list stays sound exactly when the number fits eight
      bits, or when the sync hits no record in use and changes nothing. */
  lemma SyncOk(open: seq<OpenInode>, inUse: set<Word>, d: Disk, base: nat, i: nat, ino: Inode)
    requires CacheOk(open, inUse, d, base) && i < |open| && open[i].no in inUse
    ensures CacheOk(open[i := open[i].(ino := ino)], inUse, SyncInode(d, base, open[i].no, ino), base)
            <==> open[i].no < 256 || (open[i].no % 256 !in inUse && ino == open[i].ino)
  {
    hide Slot; hide SyncInode; hide Decode; hide DecodeNo;
    var n := open[i].no;
    var d', open' := SyncInode(d, base, n, ino), open[i := open[i].(ino := ino)];
    SyncTable(d, base, n, ino);
    assert forall j :: 0 <= j < |open| ==> open'[j].no == open[j].no;
    assert RecordIs(d, base, n, open[i].ino);
    if n < 256 || n % 256 !in inUse {
      forall j | 0 <= j < |open'| && open'[j].no in inUse && j != i
          ensures RecordIs(d', base, open'[j].no, open'[j].ino) {
        assert open'[j] == open[j] && RecordIs(d, base, open[j].no, open[j].ino);
        assert open[j].no != n;
      }
      assert RecordIs(d', base, n, ino) <==> n < 256 || ino == open[i].ino;
      assert open'[i].no == n && open'[i].ino == ino;
    }
  }

  /** A new record, and a copy pushed without looking for another. */
  lemma CreateOk(open: seq<OpenInode>, inUse: set<Word>, d: Disk, base: nat, n: Word, x: OpenInode)
    requires CacheOk(open, inUse, d, base) && n !in inUse && x.no == n && x.cnt > 0
    ensures CacheOk([x] + open, inUse + {n}, SyncInode(d, base, n, x.ino), base)
            <==> !IsOpen(open, n) && (n < 256 || (n % 256 !in inUse && RecordIs(d, base, n, x.ino)))
  {
    hide Slot; hide SyncInode; hide Decode; hide DecodeNo;
    var d', open' := SyncInode(d, base, n, x.ino), [x] + open;
    SyncTable(d, base, n, x.ino);
    assert open'[0] == x;
    if IsOpen(open, n) {
      TwoCopies(open, x);
    } else if n < 256 || n % 256 !in inUse {
      assert RecordIs(d', base, n, x.ino) <==> n < 256 || RecordIs(d, base, n, x.ino);
      forall j | 0 < j < |open'| && open'[j].no in inUse + {n} ensures RecordIs(d', base, open'[j].no, open'[j].ino) {
        assert open'[j] == open[j - 1] && open[j - 1].no != n;
        assert RecordIs(d, base, open[j - 1].no, open[j - 1].ino);
      }
    } else {
      assert n % 256 in inUse + {n};
    }
  }

  /** A cleared record, of a number no longer allocated. */
  lemma DeleteOk(open: seq<OpenInode>, inUse: set<Word>, d: Disk, base: nat, n: Word)
    requires CacheOk(open, inUse, d, base)
    ensures CacheOk(open, inUse - {n}, StoreSlot(d, base, n, Zeros(76)), base)
  {
    hide Slot; hide StoreSlot; hide Decode; hide DecodeNo;
    var d' := StoreSlot(d, base, n, Zeros(76));
    StoreSlotOnly(d, base, n, Zeros(76));
    assert forall m: Word :: m != n ==> Slot(d', base, m) == Slot(d, base, m);
    forall j | 0 <= j < |open| && open[j].no in inUse - {n} ensures RecordIs(d', base, open[j].no, open[j].ino) {
      assert RecordIs(d, base, open[j].no, open[j].ino);
    }
  }

  class Cache {
    const base: nat
    var disk: Disk
    var open: seq<OpenInode>
    var inUse: set<Word>

    ghost predicate Valid()
      reads this
    {
      CacheOk(open, inUse, disk, base)
    }

    /** A mounted partition: nothing is open, and every allocated record names itself. */
    constructor (base: nat, disk: Disk, inUse: set<Word>)
      requires Records(inUse, disk, base)
      ensures Valid() && open == [] && this.base == base && this.disk == disk && this.inUse == inUse
    {
      this.base, this.disk, this.inUse := base, disk, inUse;
      open := [];
    }

    /** The loop over the open list. */
    method Find(n: Word) returns (i: int)
      ensures i == -1 <==> !IsOpen(open, n)
      ensures i != -1 ==> 0 <= i < |open| && open[i].no == n
    {
      i := 0;
      while i < |open|
        invariant 0 <= i <= |open| && forall k :: 0 <= k < i ==> open[k].no != n
      {
        if open[i].no == n { return; }
        i := i + 1;
      }
      i := -1;
    }

    /** `inode_open`: the copy in memory if there is one, else the record. Either way it
        agrees with the disk. */
    method InodeOpen(n: Word) returns (i: nat)
      requires Valid() && n in inUse
      modifies this`open
      ensures Valid() && i < |open| && open[i].no == n && RecordIs(disk, base, n, open[i].ino)
      ensures if IsOpen(old(open), n)
              then |open| == |old(open)| && open == old(open)[i := old(open)[i].(cnt := old(open)[i].cnt + 1)]
              else i == 0 && open == [OpenInode(n, Decode(Slot(disk, base, n)), 1)] + old(open)
    {
      hide Slot; hide Decode; hide DecodeNo; hide LoadSlot;
      var at := Find(n);
      if at != -1 {
        i := at;
        SetOk(open, inUse, disk, base, i, open[i].cnt + 1);
        open := open[i := open[i].(cnt := open[i].cnt + 1)];
        assert RecordIs(disk, base, open[i].no, open[i].ino);
      } else {
        i := 0;
        LoadSlotIsSlot(disk, base, n);
        var record := LoadSlot(disk, base, n);
        var x := OpenInode(DecodeNo(record), Decode(record), 1);
        PushOk(open, inUse, disk, base, x);
        open := [x] + open;
      }
    }

    /** `inode_close` of the inode at position i: the last close drops the copy. */
    method InodeClose(i: nat)
      requires Valid() && i < |open|
      modifies this`open
      ensures Valid()
      ensures if old(open)[i].cnt == 1
              then open == old(open)[..i] + old(open)[i + 1..] && !IsOpen(open, old(open)[i].no)
              else open == old(open)[i := old(open)[i].(cnt := old(open)[i].cnt - 1)]
    {
      hide CacheOk;
      CountsPositive(open, inUse, disk, base);
      if open[i].cnt - 1 == 0 {
        DropOk(open, inUse, disk, base, i);
        open := open[..i] + open[i + 1..];
      } else {
        SetOk(open, inUse, disk, base, i, open[i].cnt - 1);
        open := open[i := open[i].(cnt := open[i].cnt - 1)];
      }
    }

    /** A change of an open inode, followed by `inode_sync`, as every write does. */
    method Change(i: nat, ino: Inode)
      requires Valid() && i < |open| && open[i].no in inUse
      modifies this`open, this`disk
      ensures Valid() <==> old(open)[i].no < 256 || (old(open)[i].no % 256 !in inUse && ino == old(open)[i].ino)
      ensures open == old(open)[i := old(open)[i].(ino := ino)]
      ensures forall m: Word :: m != open[i].no % 256 ==> Slot(disk, base, m) == Slot(old(disk), base, m)
    {
      hide CacheOk; hide Slot; hide SyncInode;
      SyncOk(open, inUse, disk, base, i, ino);
      SyncTable(disk, base, open[i].no, ino);
      disk := SyncInode(disk, base, open[i].no, ino);
      open := open[i := open[i].(ino := ino)];
    }

    /** `file_create` for the number n: the record is written, and a copy is pushed without
        looking for another. The list stays sound exactly when n was not open, which a
        directory that was removed while open may have been, and n fits eight bits, or hits
        no record in use and finds its own in place. */
    method Create(n: Word)
      requires Valid() && n !in inUse
      modifies this
      ensures Valid() <==>
                && !IsOpen(old(open), n)
                && (n < 256 || (n % 256 !in old(inUse) && RecordIs(old(disk), base, n, EMPTY_INODE)))
      ensures inUse == old(inUse) + {n} && open == [OpenInode(n, EMPTY_INODE, 1)] + old(open)
      ensures RecordIs(disk, base, n % 256, EMPTY_INODE) <==> n < 256
    {
      hide Slot; hide Decode; hide DecodeNo; hide SyncInode; hide CacheOk;
      var x := OpenInode(n, EMPTY_INODE, 1);
      SyncTable(disk, base, n, EMPTY_INODE);
      CreateOk(open, inUse, disk, base, n, x);
      disk := SyncInode(disk, base, n, EMPTY_INODE);
      inUse := inUse + {n};
      open := [x] + open;
    }

    /** `inode_release`, without the blocks: the number is freed and its record cleared; a
        copy that someone else holds stays open. */
    method Release(n: Word)
      requires Valid() && n in inUse
      modifies this
      ensures Valid() && inUse == old(inUse) - {n} && Slot(disk, base, n) == Zeros(76)
      ensures IsOpen(open, n) <==> IsOpen(old(open), n)
    {
      hide CacheOk; hide Slot; hide StoreSlot; hide Decode; hide DecodeNo;
      var i := InodeOpen(n);
      DeleteOk(open, inUse, disk, base, n);
      StoreSlotOnly(disk, base, n, Zeros(76));
      inUse := inUse - {n};
      disk := StoreSlot(disk, base, n, Zeros(76));
      ghost var mid := open;
      CountsPositive(old(open), old(inUse), old(disk), base);
      InodeClose(i);
      if mid[i].cnt != 1 { assert open[i].no == n; }
      assert Slot(disk, base, n) == Zeros(76);
    }
  }

  lemma CountsPositive(open: seq<OpenInode>, inUse: set<Word>, d: Disk, base: nat)
    requires CacheOk(open, inUse, d, base)
    ensures forall i :: 0 <= i < |open| ==> open[i].cnt > 0
  {
  }

  lemma TwoCopies(open: seq<OpenInode>, x: OpenInode)
    requires IsOpen(open, x.no)
    ensures !Unique([x] + open)
  {
    var i :| 0 <= i < |open| && open[i].no == x.no;
    var all := [x] + open;
    assert all[0] == x && all[i + 1] == open[i];
  }

  /** A number that is open twice over. On a mounted disk with the record of directory n, one
      process opens the directory, another removes it, and its number goes to a new file. */
  method StaleCopy(base: nat, n: Word, ino: Inode) returns (c: Cache)
    requires n < 256
    ensures !c.Valid()
  {
    hide CacheOk; hide Slot; hide RecordIs; hide SyncInode;
    RecordOf(base, n, ino);
    c := new Cache(base, SyncInode(map[], base, n, ino), {n});
    var i := c.InodeOpen(n);
    assert c.open[i].no == n;
    c.Release(n);
    assert IsOpen(c.open, n);
    c.Create(n);
  }

  lemma RecordOf(base: nat, n: Word, ino: Inode)
    requires n < 256
    ensures Records({n}, SyncInode(map[], base, n, ino), base)
  {
    hide Slot; hide SyncInode; hide DecodeNo;
    SyncTable(map[], base, n, ino);
  }
}
