/** What the system calls promise of files and directories: a map from inode number to
    contents, and what each completed call does to it. */
module Stores {
  import opened Disks
  import opened Inodes

  const MAX_SIZE := 71680
  const DIRECT := 12
  const FT_DIRECTORY := 2

  /** A regular file, or a directory with its direct blocks by position. */
  datatype Node = File(bytes: seq<Byte>) | Dir(size: nat, blocks: map<nat, Sector>)

  type Store = map<nat, Node>

  /** System calls and the parts of them that touch an inode. The directory steps are those
      of `sync_dir_entry` and `delete_dir_entry` with the inode sync that follows; `Reopen`
      is the last close of an inode and the next open. */
  datatype Op =
    | Create
    | Append(n: nat, data: seq<Byte>)
    | Fetch(n: nat, from: nat, count: nat)
    | Remove(n: nat)
    | MakeDir(parent: nat)
    | StoreInDir(n: nat, k: nat, content: Sector, size: Word)
    | GrowDir(n: nat, k: nat, content: Sector, size: Word)
    | ShrinkDir(n: nat, k: nat, size: Word)
    | RemoveDir(n: nat)
    | Reopen(n: nat)

  datatype Answer = NoFile | NotEmpty | Made(n: nat) | Count(r: int) | Data(r: int, bytes: seq<Byte>) | Done

  /** The first number not taken. */
  function LowestFree(taken: set<nat>, from: nat): nat
    decreases MAX_INODES - from
  {
    if from >= MAX_INODES || from !in taken then from else LowestFree(taken, from + 1)
  }

  lemma {:induction false} LowestFreeIs(taken: set<nat>, from: nat, n: nat)
    requires from <= n < MAX_INODES && n !in taken && forall m :: from <= m < n ==> m in taken
    ensures LowestFree(taken, from) == n
    decreases n - from
  {
    if from < n { LowestFreeIs(taken, from + 1, n); }
  }

  function EntryRecord(name: seq<Byte>, no: Word, kind: Word): (s: seq<Byte>)
    requires |name| <= 16
    ensures |s| == 24
  {
    name + Zeros(16 - |name|) + WordBytes([no, kind])
  }

  /** The first block of a new directory: `.` and `..`. */
  function DotsSector(n: nat, parent: nat): Sector {
    EntryRecord([46], n % U32, FT_DIRECTORY) + EntryRecord([46, 46], parent % U32, FT_DIRECTORY) + Zeros(464)
  }

  predicate IsFile(store: Store, n: nat) {
    n in store && store[n].File?
  }

  predicate IsDir(store: Store, n: nat) {
    n in store && store[n].Dir?
  }

  /** What a call that completes does. */
  function Step(store: Store, op: Op): Store {
    match op
    case Create => store[LowestFree(store.Keys, 0) := File([])]
    case Append(n, data) =>
      if IsFile(store, n) && |store[n].bytes| + |data| <= MAX_SIZE
      then store[n := File(store[n].bytes + data)] else store
    case Fetch(_, _, _) => store
    case Remove(n) => if IsFile(store, n) then store - {n} else store
    case MakeDir(parent) =>
      var n := LowestFree(store.Keys, 0);
      store[n := Dir(48, map[0 := DotsSector(n, parent)])]
    case StoreInDir(n, k, content, size) =>
      if IsDir(store, n) && k in store[n].blocks
      then store[n := Dir(size, store[n].blocks[k := content])] else store
    case GrowDir(n, k, content, size) =>
      if IsDir(store, n) && k < DIRECT && k !in store[n].blocks
      then store[n := Dir(size, store[n].blocks[k := content])] else store
    case ShrinkDir(n, k, size) =>
      if IsDir(store, n) && k > 0 && k in store[n].blocks
      then store[n := Dir(size, store[n].blocks - {k})] else store
    case RemoveDir(n) => if IsDir(store, n) && store[n].size == 48 then store - {n} else store
    case Reopen(_) => store
  }

  /** What it returns. */
  function Reply(store: Store, op: Op): Answer {
    match op
    case Create => Made(LowestFree(store.Keys, 0))
    case Append(n, data) =>
      if !IsFile(store, n) then NoFile
      else if |store[n].bytes| + |data| <= MAX_SIZE then Count(|data|) else Count(-1)
    case Fetch(n, from, count) =>
      if !IsFile(store, n) || from > |store[n].bytes| then NoFile
      else
        var bytes := store[n].bytes;
        if from == |bytes| && count > 0 then Data(-1, [])
        else
          var size := if count > |bytes| - from then |bytes| - from else count;
          Data(size, bytes[from..from + size])
    case Remove(n) => if IsFile(store, n) then Done else NoFile
    case MakeDir(_) => Made(LowestFree(store.Keys, 0))
    case StoreInDir(n, k, _, _) => if IsDir(store, n) && k in store[n].blocks then Done else NoFile
    case GrowDir(n, k, _, _) => if IsDir(store, n) && k < DIRECT && k !in store[n].blocks then Done else NoFile
    case ShrinkDir(n, k, _) => if IsDir(store, n) && k > 0 && k in store[n].blocks then Done else NoFile
    case RemoveDir(n) => if !IsDir(store, n) then NoFile else if store[n].size == 48 then Done else NotEmpty
    case Reopen(n) => if n in store then Done else NoFile
  }

  function After(store: Store, ops: seq<Op>): Store {
    if ops == [] then store else Step(After(store, ops[..|ops| - 1]), ops[|ops| - 1])
  }

  lemma AfterNone(store: Store, ops: seq<Op>)
    ensures After(store, ops[..0]) == store
  {
  }

  lemma AfterNext(store: Store, ops: seq<Op>, i: nat)
    requires i < |ops|
    ensures After(store, ops[..i + 1]) == Step(After(store, ops[..i]), ops[i])
  {
    assert ops[..i + 1][..i] == ops[..i];
  }

  /** All numbers fit the eight bits that `inode_sync` keeps. */
  predicate Small(store: Store) {
    forall n :: n in store ==> n < 256
  }

  lemma SmallAdd(store: Store, n: nat, x: Node)
    requires Small(store)
    ensures Small(store[n := x]) <==> n < 256
  {
    assert n in store[n := x];
  }

  lemma {:induction false} LowestFreeMin(taken: set<nat>, from: nat)
    requires from <= MAX_INODES
    ensures var n := LowestFree(taken, from);
            from <= n && (n < MAX_INODES ==> n !in taken) && forall m :: from <= m < n ==> m in taken
    decreases MAX_INODES - from
  {
    if from < MAX_INODES && from in taken { LowestFreeMin(taken, from + 1); }
  }

  /** A new file or directory keeps the numbers small exactly if one below 256 is free. */
  lemma SmallCreateIff(store: Store, parent: nat)
    requires Small(store)
    ensures Small(Step(store, Create)) <==> exists m :: 0 <= m < 256 && m !in store
    ensures Small(Step(store, MakeDir(parent))) <==> exists m :: 0 <= m < 256 && m !in store
  {
    hide LowestFree; hide DotsSector;
    var n := LowestFree(store.Keys, 0);
    LowestFreeMin(store.Keys, 0);
    SmallAdd(store, n, File([]));
    SmallAdd(store, n, Dir(48, map[0 := DotsSector(n, parent)]));
    if exists m :: 0 <= m < 256 && m !in store {
      var m :| 0 <= m < 256 && m !in store;
      assert !(m < n);
    }
  }

  /** No call of a run takes the store past that. */
  predicate SmallRun(store: Store, ops: seq<Op>) {
    forall i :: 0 <= i <= |ops| ==> Small(After(store, ops[..i]))
  }

  lemma SmallStart(store: Store, ops: seq<Op>)
    ensures SmallRun(store, ops[..0]) <==> Small(store)
  {
    assert ops[..0][..0] == ops[..0];
    AfterNone(store, ops);
  }

  lemma SmallNext(store: Store, ops: seq<Op>, i: nat)
    requires i < |ops|
    ensures SmallRun(store, ops[..i + 1]) <==> SmallRun(store, ops[..i]) && Small(After(store, ops[..i + 1]))
  {
    hide Small; hide After;
    var a, b := ops[..i], ops[..i + 1];
    assert forall j :: 0 <= j <= i ==> b[..j] == a[..j];
    assert b[..i + 1] == b;
  }

  lemma SmallPrefix(store: Store, ops: seq<Op>, i: nat)
    requires SmallRun(store, ops) && i <= |ops|
    ensures SmallRun(store, ops[..i])
  {
    hide Small; hide After;
    assert forall j :: 0 <= j <= i ==> ops[..i][..j] == ops[..j];
  }
}
