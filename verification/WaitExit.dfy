/** Fork, wait, exit and adoption (userprog/fork.c, userprog/wait_exit.c, and the pid
    pool of thread/thread.c), for any number of processes in any interleaving.

    System calls run with interrupts off. `sys_wait` gives up the processor only where it
    blocks, `sys_exit` also while it releases the process's resources, so it is two steps.
    Process control blocks are told apart by an `Id` that is never reused, pids are. */
module WaitExit {
  import opened Bitmaps
  import opened Queues

  type Id = nat

  const INIT: Id := 0

  datatype Phase =
    | Live        // running its own code, ready or blocked elsewhere
    | InWait      // TASK_WAITING in sys_wait
    | Scanning    // woken in sys_wait, about to scan again
    | Exiting     // in sys_exit, children given away, resources not yet released
    | Hanging     // TASK_HANGING, waiting to be reaped

  /** `parentPid` is the field of the control block; `parentId` says which control block
      had that pid when the field was set. Kernel threads and init have parent pid 0. */
  datatype Proc = Proc(pid: nat, parentPid: int, parentId: Id, user: bool, phase: Phase, exitStatus: int)

  datatype Stop = Going | OutOfPids | NullParent

  /** `all` is thread_all_list. `reaped` and `exits` record what happened. */
  datatype State = State(procs: map<Id, Proc>, all: seq<Id>, pids: seq<bool>, nextId: Id, stop: Stop,
                         reaped: seq<Reap>, exits: map<Id, int>)

  datatype Reap = Reap(child: Id, parent: Id, status: int)

  datatype Act =
    | Fork(p: Id)
    | Wait(p: Id)
    | ExitBegin(p: Id, status: int)
    | ExitEnd(p: Id)
    | KernelExit(p: Id)

  /** `exit_status` is an int8_t. */
  function Int8(x: int): (r: int)
    ensures -128 <= r <= 127 && (x - r) % 256 == 0
  {
    (x + 128) % 256 - 128
  }

  // ---------------------------------------------------------------- list searches

  predicate IsChild(q: Proc, pid: int) {
    q.parentPid == pid
  }

  predicate IsHangingChild(q: Proc, pid: int) {
    q.parentPid == pid && q.phase == Hanging
  }

  /** `list_traversal` with one of the two callbacks: the first match in list order. */
  function Find(all: seq<Id>, procs: map<Id, Proc>, match_: Proc -> bool): (r: int)
    requires forall i :: i in all ==> i in procs
    ensures r >= 0 ==> r in all && match_(procs[r])
    ensures r >= 0 ==> exists k :: 0 <= k < |all| && all[k] == r && forall j :: 0 <= j < k ==> !match_(procs[all[j]])
    ensures r == -1 <==> forall i :: i in all ==> !match_(procs[i])
    ensures r >= -1
  {
    if all == [] then -1
    else if match_(procs[all[0]]) then all[0]
    else
      var r := Find(all[1..], procs, match_);
      FoundLater(all, procs, match_, r);
      r
  }

  lemma FoundLater(all: seq<Id>, procs: map<Id, Proc>, match_: Proc -> bool, r: int)
    requires all != [] && (forall i :: i in all ==> i in procs) && !match_(procs[all[0]])
    requires r >= 0 ==> exists k :: 0 <= k < |all[1..]| && all[1..][k] == r
                                    && forall j :: 0 <= j < k ==> !match_(procs[all[1..][j]])
    ensures r >= 0 ==> exists k :: 0 <= k < |all| && all[k] == r && forall j :: 0 <= j < k ==> !match_(procs[all[j]])
  {
    if r >= 0 {
      var k :| 0 <= k < |all[1..]| && all[1..][k] == r && forall j :: 0 <= j < k ==> !match_(procs[all[1..][j]]);
      assert all[k + 1] == r;
      forall j | 0 <= j < k + 1 ensures !match_(procs[all[j]]) {
        if j > 0 { assert all[1..][j - 1] == all[j]; }
      }
    }
  }

  function FindPid(all: seq<Id>, procs: map<Id, Proc>, pid: int): (r: int)
    requires forall i :: i in all ==> i in procs
  {
    Find(all, procs, (q: Proc) => q.pid == pid)
  }

  // ---------------------------------------------------------------- steps

  /** The list holds exactly the control blocks, each once. */
  ghost predicate Listed(procs: map<Id, Proc>, all: seq<Id>) {
    Distinct(all) && forall i :: i in all <==> i in procs
  }

  predicate Enabled(s: State, a: Act) {
    && s.stop == Going
    && match a
       case Fork(p) => p in s.procs && s.procs[p].user && s.procs[p].phase == Live
       case Wait(p) => p in s.procs && s.procs[p].user && (s.procs[p].phase == Live || s.procs[p].phase == Scanning)
       case ExitBegin(p, _) => p in s.procs && s.procs[p].user && s.procs[p].phase == Live && p != INIT
       case ExitEnd(p) => p in s.procs && s.procs[p].phase == Exiting
       case KernelExit(p) => p in s.procs && !s.procs[p].user
  }

  function SetPhase(s: State, p: Id, ph: Phase): State
    requires p in s.procs
  {
    s.(procs := s.procs[p := s.procs[p].(phase := ph)])
  }

  function DoFork(s: State, p: Id): State
    requires p in s.procs
  {
    var bit := FirstRun(s.pids, 1);
    if bit == -1 then s.(stop := OutOfPids)
    else
      var child := Proc(bit + 1, s.procs[p].pid, p, true, Live, 0);
      s.(pids := s.pids[bit := true], procs := s.procs[s.nextId := child], all := s.all + [s.nextId],
         nextId := s.nextId + 1)
  }

  /** `thread_exit`: off the list, pid given back. */
  function Remove(s: State, c: Id): State
    requires c in s.procs
  {
    var bit := s.procs[c].pid - 1;
    s.(procs := s.procs - {c}, all := Without(s.all, c),
       pids := if 0 <= bit < |s.pids| then s.pids[bit := false] else s.pids)
  }

  /** One turn of the loop in `sys_wait`. */
  function DoWait(s: State, p: Id): State
    requires p in s.procs && forall i :: i in s.all ==> i in s.procs
  {
    var pid := s.procs[p].pid;
    var c := Find(s.all, s.procs, (q: Proc) => IsHangingChild(q, pid));
    if c >= 0 then
      var s1 := SetPhase(s, p, Live);
      Remove(s1.(reaped := s.reaped + [Reap(c, p, s.procs[c].exitStatus)]), c)
    else if Find(s.all, s.procs, (q: Proc) => IsChild(q, pid)) == -1 then SetPhase(s, p, Live)
    else SetPhase(s, p, InWait)
  }

  function Adopt(procs: map<Id, Proc>, pid: int): map<Id, Proc> {
    map i | i in procs :: if procs[i].parentPid == pid then procs[i].(parentPid := 1, parentId := INIT) else procs[i]
  }

  function DoExitBegin(s: State, p: Id, status: int): State
    requires p in s.procs
  {
    var procs := s.procs[p := s.procs[p].(exitStatus := Int8(status), phase := Exiting)];
    s.(procs := Adopt(procs, s.procs[p].pid), exits := s.exits[p := status])
  }

  function DoExitEnd(s: State, p: Id): State
    requires p in s.procs && forall i :: i in s.all ==> i in s.procs
  {
    var parent := FindPid(s.all, s.procs, s.procs[p].parentPid);
    if parent < 0 then s.(stop := NullParent)
    else
      var s1 := if s.procs[parent].phase == InWait then SetPhase(s, parent, Scanning) else s;
      SetPhase(s1, p, Hanging)
  }

  ghost function Step(s: State, a: Act): State
    requires Listed(s.procs, s.all) && Enabled(s, a)
  {
    match a
    case Fork(p) => DoFork(s, p)
    case Wait(p) => DoWait(s, p)
    case ExitBegin(p, status) => DoExitBegin(s, p, status)
    case ExitEnd(p) => DoExitEnd(s, p)
    case KernelExit(p) => Remove(s, p)
  }

  // ---------------------------------------------------------------- the invariant

  /** Not yet past the adoption of its children. */
  predicate Present(q: Proc) {
    q.user && (q.phase == Live || q.phase == InWait || q.phase == Scanning)
  }

  ghost predicate HasPid(procs: map<Id, Proc>, pid: int) {
    exists i :: i in procs && procs[i].pid == pid
  }

  /** Pids are unique among the listed processes and are exactly the set bits. */
  ghost predicate PidsOk(procs: map<Id, Proc>, pids: seq<bool>) {
    && |pids| == 1024
    && (forall i :: i in procs ==> 1 <= procs[i].pid <= 1024 && pids[procs[i].pid - 1])
    && (forall i, j :: i in procs && j in procs && procs[i].pid == procs[j].pid ==> i == j)
    && (forall b :: 0 <= b < 1024 && pids[b] ==> HasPid(procs, b + 1))
  }

  /** A forked process has a parent that is listed and not yet exiting. */
  ghost predicate ParentOk(procs: map<Id, Proc>, i: Id) {
    i in procs &&
    var q := procs[i];
    if q.user && i != INIT
    then q.parentId in procs && q.parentId != i && Present(procs[q.parentId]) && procs[q.parentId].pid == q.parentPid
    else q.parentPid == 0
  }

  ghost predicate ParentsOk(procs: map<Id, Proc>) {
    && INIT in procs && procs[INIT].pid == 1 && Present(procs[INIT])
    && (forall i :: i in procs && !procs[i].user ==> procs[i].phase == Live)
    && (forall i {:trigger ParentOk(procs, i)} :: i in procs ==> ParentOk(procs, i))
  }

  /** A waiting parent other than init has no hanging child. */
  ghost predicate WaitersOk(procs: map<Id, Proc>) {
    forall c, p :: c in procs && p in procs && procs[c].phase == Hanging && procs[c].parentId == p && p != INIT ==>
      procs[p].phase != InWait
  }

  /** Each exit is reaped at most once, with the status it gave. */
  ghost predicate ReapsOk(procs: map<Id, Proc>, nextId: Id, reaped: seq<Reap>, exits: map<Id, int>) {
    && (forall i :: i in procs ==> i < nextId)
    && (forall k :: 0 <= k < |reaped| ==>
          && reaped[k].child < nextId && reaped[k].child !in procs
          && StatusIs(exits, reaped[k].child, reaped[k].status))
    && (forall k, l :: 0 <= k < l < |reaped| ==> reaped[k].child != reaped[l].child)
    && (forall i :: i in procs && (procs[i].phase == Exiting || procs[i].phase == Hanging) ==>
          StatusIs(exits, i, procs[i].exitStatus))
  }

  /** The process called `sys_exit`, and `status` is what its parent will be told. */
  predicate StatusIs(exits: map<Id, int>, i: Id, status: int) {
    i in exits && status == Int8(exits[i])
  }

  ghost predicate Inv(s: State) {
    && Listed(s.procs, s.all) && PidsOk(s.procs, s.pids) && ParentsOk(s.procs) && WaitersOk(s.procs)
    && ReapsOk(s.procs, s.nextId, s.reaped, s.exits) && s.stop != NullParent
  }

  // ---------------------------------------------------------------- every step keeps it

  /** Pids are only about pids. */
  lemma PidsKept(procs: map<Id, Proc>, procs': map<Id, Proc>, pids: seq<bool>)
    requires PidsOk(procs, pids) && procs'.Keys == procs.Keys
    requires forall i :: i in procs ==> procs'[i].pid == procs[i].pid
    ensures PidsOk(procs', pids)
  {
  }

  lemma PidsAdd(procs: map<Id, Proc>, pids: seq<bool>, i: Id, q: Proc, bit: nat)
    requires PidsOk(procs, pids) && i !in procs && bit < 1024 && !pids[bit] && q.pid == bit + 1
    ensures PidsOk(procs[i := q], pids[bit := true])
  {
    var procs' := procs[i := q];
    var pids' := pids[bit := true];
    forall b | 0 <= b < 1024 && pids'[b] ensures HasPid(procs', b + 1) {
      if b == bit {
        assert procs'[i].pid == b + 1;
      } else {
        assert HasPid(procs, b + 1);
        var j :| j in procs && procs[j].pid == b + 1;
        assert procs'[j].pid == b + 1;
      }
    }
  }

  lemma PidsDrop(procs: map<Id, Proc>, pids: seq<bool>, c: Id)
    requires PidsOk(procs, pids) && c in procs
    ensures PidsOk(procs - {c}, pids[procs[c].pid - 1 := false])
  {
    var procs' := procs - {c};
    var pids' := pids[procs[c].pid - 1 := false];
    forall b | 0 <= b < 1024 && pids'[b] ensures HasPid(procs', b + 1) {
      var j :| j in procs && procs[j].pid == b + 1;
      assert procs'[j].pid == b + 1;
    }
  }

  lemma ListedDrop(procs: map<Id, Proc>, all: seq<Id>, c: Id)
    requires Listed(procs, all)
    ensures Listed(procs - {c}, Without(all, c))
  {
    hide Distinct;
    WithoutIs(all, c);
  }

  // One process changes phase.

  lemma ParentsPhase(procs: map<Id, Proc>, p: Id, ph: Phase)
    requires ParentsOk(procs) && p in procs && procs[p].user && (Present(procs[p]) ==> Present(procs[p].(phase := ph)))
    ensures ParentsOk(procs[p := procs[p].(phase := ph)])
  {
    var procs' := procs[p := procs[p].(phase := ph)];
    forall i | i in procs' ensures ParentOk(procs', i) { assert ParentOk(procs, i); }
  }

  lemma WaitersPhase(procs: map<Id, Proc>, p: Id, ph: Phase)
    requires WaitersOk(procs) && p in procs
    requires ph == InWait && p != INIT ==> forall i :: i in procs && procs[i].phase == Hanging ==>
              procs[i].parentId != p
    requires ph == Hanging ==> procs[p].parentId != p
                               && forall u :: u in procs && procs[p].parentId == u ==> procs[u].phase != InWait
    ensures WaitersOk(procs[p := procs[p].(phase := ph)])
  {
  }

  lemma ReapsPhase(procs: map<Id, Proc>, nextId: Id, reaped: seq<Reap>, exits: map<Id, int>, p: Id, ph: Phase)
    requires ReapsOk(procs, nextId, reaped, exits) && p in procs
    requires ph == Hanging || ph == Exiting ==> procs[p].phase == Exiting
    ensures ReapsOk(procs[p := procs[p].(phase := ph)], nextId, reaped, exits)
  {
  }

  /** A process on its way through `sys_wait` or `sys_exit`. */
  lemma InvSetPhase(s: State, p: Id, ph: Phase)
    requires Inv(s) && p in s.procs && s.procs[p].user && (Present(s.procs[p]) ==> Present(s.procs[p].(phase := ph)))
    requires ph == Hanging || ph == Exiting ==> s.procs[p].phase == Exiting
    requires ph == InWait && p != INIT ==>
               forall i :: i in s.procs && s.procs[i].phase == Hanging ==> s.procs[i].parentId != p
    requires ph == Hanging ==> s.procs[p].parentId != p
                               && forall u :: u in s.procs && s.procs[p].parentId == u ==> s.procs[u].phase != InWait
    ensures Inv(SetPhase(s, p, ph))
  {
    hide PidsOk; hide ParentsOk; hide WaitersOk; hide ReapsOk; hide Distinct;
    PidsKept(s.procs, SetPhase(s, p, ph).procs, s.pids);
    ParentsPhase(s.procs, p, ph);
    WaitersPhase(s.procs, p, ph);
    ReapsPhase(s.procs, s.nextId, s.reaped, s.exits, p, ph);
  }

  // A process comes, a process goes.

  lemma ParentsAdd(procs: map<Id, Proc>, i: Id, q: Proc, p: Id)
    requires ParentsOk(procs) && i !in procs && p in procs && Present(procs[p])
    requires q.user && q.parentId == p && q.parentPid == procs[p].pid
    ensures ParentsOk(procs[i := q])
  {
    var procs' := procs[i := q];
    forall j | j in procs' ensures ParentOk(procs', j) { if j != i { assert ParentOk(procs, j); } }
  }

  lemma WaitersAdd(procs: map<Id, Proc>, i: Id, q: Proc)
    requires WaitersOk(procs) && i !in procs && q.phase == Live
    ensures WaitersOk(procs[i := q])
  {
  }

  lemma ReapsAdd(procs: map<Id, Proc>, nextId: Id, reaped: seq<Reap>, exits: map<Id, int>, q: Proc)
    requires ReapsOk(procs, nextId, reaped, exits) && q.phase == Live
    ensures nextId !in procs && ReapsOk(procs[nextId := q], nextId + 1, reaped, exits)
  {
  }

  lemma InvFork(s: State, p: Id)
    requires Inv(s) && Enabled(s, Fork(p))
    ensures Inv(DoFork(s, p))
  {
    hide PidsOk; hide ParentsOk; hide WaitersOk; hide ReapsOk; hide Distinct;
    PidsLength(s.procs, s.pids);
    var bit := FirstRun(s.pids, 1);
    if bit != -1 {
      assert FreeRun(s.pids, bit, 1) && !s.pids[bit];
      var child := Proc(bit + 1, s.procs[p].pid, p, true, Live, 0);
      ReapsAdd(s.procs, s.nextId, s.reaped, s.exits, child);
      PidsAdd(s.procs, s.pids, s.nextId, child, bit);
      ParentsAdd(s.procs, s.nextId, child, p);
      WaitersAdd(s.procs, s.nextId, child);
      DistinctAppend(s.all, s.nextId);
    }
  }

  lemma PidsLength(procs: map<Id, Proc>, pids: seq<bool>)
    requires PidsOk(procs, pids)
    ensures |pids| == 1024 && forall i :: i in procs ==> 1 <= procs[i].pid <= 1024
  {
  }

  lemma ParentsDrop(procs: map<Id, Proc>, c: Id)
    requires ParentsOk(procs) && c in procs && c != INIT && !Present(procs[c])
    ensures ParentsOk(procs - {c})
  {
    var procs' := procs - {c};
    forall j | j in procs' ensures ParentOk(procs', j) { assert ParentOk(procs, j); }
  }

  lemma WaitersDrop(procs: map<Id, Proc>, c: Id)
    requires WaitersOk(procs)
    ensures WaitersOk(procs - {c})
  {
  }

  lemma ReapsDrop(procs: map<Id, Proc>, nextId: Id, reaped: seq<Reap>, exits: map<Id, int>, c: Id)
    requires ReapsOk(procs, nextId, reaped, exits)
    ensures ReapsOk(procs - {c}, nextId, reaped, exits)
  {
  }

  /** Only a process that is past its adoption, or a kernel thread, is taken off. */
  lemma InvRemove(s: State, c: Id)
    requires Inv(s) && c in s.procs && c != INIT && !Present(s.procs[c])
    ensures Inv(Remove(s, c)) && Remove(s, c).procs == s.procs - {c}
  {
    hide PidsOk; hide ParentsOk; hide WaitersOk; hide ReapsOk; hide Listed;
    PidsLength(s.procs, s.pids);
    PidsDrop(s.procs, s.pids, c);
    ListedDrop(s.procs, s.all, c);
    ParentsDrop(s.procs, c);
    WaitersDrop(s.procs, c);
    ReapsDrop(s.procs, s.nextId, s.reaped, s.exits, c);
  }

  /** A reaped child is recorded, and was not before. */
  lemma ReapsRecord(procs: map<Id, Proc>, nextId: Id, reaped: seq<Reap>, exits: map<Id, int>, c: Id, p: Id)
    requires ReapsOk(procs, nextId, reaped, exits) && c in procs && procs[c].phase == Hanging
    ensures ReapsOk(procs - {c}, nextId, reaped + [Reap(c, p, procs[c].exitStatus)], exits)
  {
  }

  lemma InvReap(s: State, p: Id, c: Id)
    requires Inv(s) && p in s.procs && Present(s.procs[p]) && c in s.procs && s.procs[c].phase == Hanging && c != INIT
    ensures Inv(Remove(SetPhase(s, p, Live).(reaped := s.reaped + [Reap(c, p, s.procs[c].exitStatus)]), c))
  {
    hide PidsOk; hide ParentsOk; hide WaitersOk; hide ReapsOk; hide Listed;
    var s1, r := SetPhase(s, p, Live), Reap(c, p, s.procs[c].exitStatus);
    InvSetPhase(s, p, Live);
    InvRemove(s1, c);
    ReapsRecord(s1.procs, s1.nextId, s1.reaped, s1.exits, c, p);
  }

  /** A child's parent is the process its parent pid names. */
  lemma ParentByPid(s: State, c: Id, p: Id)
    requires Inv(s) && c in s.procs && p in s.procs && s.procs[p].pid == s.procs[c].parentPid
    ensures s.procs[c].user && c != INIT && s.procs[c].parentId == p && Present(s.procs[p])
  {
    hide WaitersOk; hide ReapsOk; hide Listed;
    assert ParentOk(s.procs, c);
  }

  /** And the other way round. */
  lemma PidOfParent(s: State, c: Id)
    requires Inv(s) && c in s.procs && s.procs[c].user && c != INIT
    ensures s.procs[c].parentId in s.procs && Present(s.procs[s.procs[c].parentId])
    ensures s.procs[s.procs[c].parentId].pid == s.procs[c].parentPid
  {
    hide PidsOk; hide WaitersOk; hide ReapsOk; hide Listed;
    assert ParentOk(s.procs, c);
  }

  lemma KernelLive(s: State, c: Id)
    requires Inv(s) && c in s.procs && (s.procs[c].phase == Hanging || s.procs[c].phase == Exiting)
    ensures s.procs[c].user && c != INIT
  {
  }

  lemma InvWait(s: State, p: Id)
    requires Inv(s) && Enabled(s, Wait(p))
    ensures Inv(DoWait(s, p))
  {
    hide PidsOk; hide ParentsOk; hide WaitersOk; hide ReapsOk; hide Distinct;
    var pid := s.procs[p].pid;
    var hanging, child := (q: Proc) => IsHangingChild(q, pid), (q: Proc) => IsChild(q, pid);
    var c := Find(s.all, s.procs, hanging);
    if c >= 0 {
      assert hanging(s.procs[c]);
      KernelLive(s, c);
      InvReap(s, p, c);
    } else if Find(s.all, s.procs, child) == -1 {
      InvSetPhase(s, p, Live);
    } else {
      forall i | i in s.procs && s.procs[i].phase == Hanging ensures s.procs[i].parentId != p {
        assert i in s.all && !hanging(s.procs[i]);
        KernelLive(s, i);
        PidOfParent(s, i);
      }
      InvSetPhase(s, p, InWait);
    }
  }

  // Exit.

  lemma AdoptParents(procs: map<Id, Proc>, p: Id, q: Proc)
    requires ParentsOk(procs) && p in procs && p != INIT && procs[p].user && procs[p].pid > 0
    requires forall i, j :: i in procs && j in procs && procs[i].pid == procs[j].pid ==> i == j
    requires q == procs[p].(phase := q.phase, exitStatus := q.exitStatus)
    ensures ParentsOk(Adopt(procs[p := q], procs[p].pid))
  {
    var procs' := Adopt(procs[p := q], procs[p].pid);
    forall i | i in procs' ensures ParentOk(procs', i) { assert ParentOk(procs, i); }
  }

  lemma AdoptWaiters(procs: map<Id, Proc>, p: Id, q: Proc)
    requires WaitersOk(procs) && p in procs && q.phase == Exiting
    ensures WaitersOk(Adopt(procs[p := q], procs[p].pid))
  {
  }

  lemma AdoptReaps(procs: map<Id, Proc>, nextId: Id, reaped: seq<Reap>, exits: map<Id, int>, p: Id, status: int)
    requires ReapsOk(procs, nextId, reaped, exits) && p in procs
    ensures ReapsOk(Adopt(procs[p := procs[p].(exitStatus := Int8(status), phase := Exiting)], procs[p].pid),
                    nextId, reaped, exits[p := status])
  {
  }

  lemma InvExitBegin(s: State, p: Id, status: int)
    requires Inv(s) && Enabled(s, ExitBegin(p, status))
    ensures Inv(DoExitBegin(s, p, status))
  {
    hide PidsOk; hide ParentsOk; hide WaitersOk; hide ReapsOk; hide Distinct; hide Int8;
    PidsUnique(s.procs, s.pids);
    var q := s.procs[p].(exitStatus := Int8(status), phase := Exiting);
    PidsKept(s.procs, Adopt(s.procs[p := q], s.procs[p].pid), s.pids);
    AdoptParents(s.procs, p, q);
    AdoptWaiters(s.procs, p, q);
    AdoptReaps(s.procs, s.nextId, s.reaped, s.exits, p, status);
  }

  lemma PidsUnique(procs: map<Id, Proc>, pids: seq<bool>)
    requires PidsOk(procs, pids)
    ensures forall i :: i in procs ==> procs[i].pid > 0
    ensures forall i, j :: i in procs && j in procs && procs[i].pid == procs[j].pid ==> i == j
  {
  }

  /** The lookup in `sys_exit` always finds the parent. */
  lemma LookupFinds(s: State, p: Id)
    requires Inv(s) && p in s.procs && s.procs[p].phase == Exiting
    ensures FindPid(s.all, s.procs, s.procs[p].parentPid) == s.procs[p].parentId
    ensures s.procs[p].parentId in s.procs && Present(s.procs[s.procs[p].parentId])
  {
    hide PidsOk; hide ParentsOk; hide WaitersOk; hide ReapsOk; hide Distinct;
    KernelLive(s, p);
    PidOfParent(s, p);
    PidsUnique(s.procs, s.pids);
    var named := (q: Proc) => q.pid == s.procs[p].parentPid;
    assert s.procs[p].parentId in s.all && named(s.procs[s.procs[p].parentId]);
    var parent := Find(s.all, s.procs, named);
    assert parent >= 0 && named(s.procs[parent]);
  }

  lemma InvExitEnd(s: State, p: Id)
    requires Inv(s) && Enabled(s, ExitEnd(p))
    ensures Inv(DoExitEnd(s, p))
  {
    hide PidsOk; hide ParentsOk; hide WaitersOk; hide ReapsOk; hide Distinct; hide FindPid;
    LookupFinds(s, p);
    KernelLive(s, p);
    var parent := s.procs[p].parentId;
    if s.procs[parent].phase == InWait {
      InvSetPhase(s, parent, Scanning);
      InvSetPhase(SetPhase(s, parent, Scanning), p, Hanging);
    } else {
      InvSetPhase(s, p, Hanging);
    }
  }

  lemma InvStep(s: State, a: Act)
    requires Inv(s) && Enabled(s, a)
    ensures Inv(Step(s, a))
  {
    hide PidsOk; hide ParentsOk; hide WaitersOk; hide ReapsOk; hide Distinct;
    match a
    case Fork(p) => InvFork(s, p);
    case Wait(p) => InvWait(s, p);
    case ExitBegin(p, status) => InvExitBegin(s, p, status);
    case ExitEnd(p) => InvExitEnd(s, p);
    case KernelExit(p) => InitIsUser(s); InvRemove(s, p);
  }

  lemma InitIsUser(s: State)
    requires Inv(s)
    ensures INIT in s.procs && s.procs[INIT].user
  {
  }

  // ---------------------------------------------------------------- whole runs

  /** The state with control blocks `ps`, listed in order, and pids 1, 2, 3, .... */
  function At(ps: seq<Proc>, exits: map<Id, int>): State
    requires |ps| <= 1024
  {
    State(map i | 0 <= i < |ps| :: ps[i], seq(|ps|, i => i), seq(1024, i => i < |ps|), |ps|, Going, [], exits)
  }

  lemma AtOk(ps: seq<Proc>, exits: map<Id, int>)
    requires |ps| <= 1024 && forall i :: 0 <= i < |ps| ==> ps[i].pid == i + 1
    ensures Listed(At(ps, exits).procs, At(ps, exits).all) && PidsOk(At(ps, exits).procs, At(ps, exits).pids)
  {
    var s := At(ps, exits);
    forall i ensures i in s.all <==> i in s.procs {
      if i in s.procs { assert s.all[i] == i; }
    }
    forall b | 0 <= b < 1024 && s.pids[b] ensures HasPid(s.procs, b + 1) { assert s.procs[b].pid == b + 1; }
  }

  lemma AtParents(ps: seq<Proc>, exits: map<Id, int>)
    requires 0 < |ps| <= 1024 && ps[0].pid == 1 && Present(ps[0]) && ps[0].parentPid == 0
    requires forall i :: 0 < i < |ps| ==>
               if ps[i].user
               then ps[i].parentId < |ps| && ps[i].parentId != i && Present(ps[ps[i].parentId])
                    && ps[ps[i].parentId].pid == ps[i].parentPid
               else ps[i].parentPid == 0 && ps[i].phase == Live
    ensures ParentsOk(At(ps, exits).procs)
  {
  }

  lemma AtRest(ps: seq<Proc>, exits: map<Id, int>)
    requires |ps| <= 1024
    requires forall c, p :: 0 <= c < |ps| && 0 < p < |ps| && ps[c].phase == Hanging && ps[c].parentId == p ==>
              ps[p].phase != InWait
    requires forall i :: 0 <= i < |ps| && (ps[i].phase == Exiting || ps[i].phase == Hanging) ==>
              StatusIs(exits, i, ps[i].exitStatus)
    ensures WaitersOk(At(ps, exits).procs) && ReapsOk(At(ps, exits).procs, |ps|, [], exits)
  {
  }

  /** Boot: init, then the main and idle kernel threads, with pids 1, 2 and 3. */
  function Init(): State {
    At([Proc(1, 0, INIT, true, Live, 0), Proc(2, 0, INIT, false, Live, 0), Proc(3, 0, INIT, false, Live, 0)], map[])
  }

  lemma InvInit()
    ensures Inv(Init())
  {
    hide PidsOk; hide Listed; hide ParentsOk; hide WaitersOk; hide ReapsOk;
    var ps := [Proc(1, 0, INIT, true, Live, 0), Proc(2, 0, INIT, false, Live, 0), Proc(3, 0, INIT, false, Live, 0)];
    AtOk(ps, map[]);
    AtParents(ps, map[]);
    AtRest(ps, map[]);
  }

  /** A turn given to a step that is not possible is lost. */
  ghost function Run(s: State, acts: seq<Act>): State {
    if acts == [] then s
    else
      var s1 := Run(s, acts[..|acts| - 1]);
      var a := acts[|acts| - 1];
      if Listed(s1.procs, s1.all) && Enabled(s1, a) then Step(s1, a) else s1
  }

  lemma {:induction false} InvRun(acts: seq<Act>)
    ensures Inv(Run(Init(), acts))
  {
    hide PidsOk; hide ParentsOk; hide WaitersOk; hide ReapsOk; hide Distinct; hide Step; hide Init;
    if acts == [] {
      InvInit();
    } else {
      InvRun(acts[..|acts| - 1]);
      var s1, a := Run(Init(), acts[..|acts| - 1]), acts[|acts| - 1];
      if Enabled(s1, a) { InvStep(s1, a); }
    }
  }

  /** In every run: the parent pid of every forked process names a listed process that
      has not begun to exit, so the lookup in `sys_exit` never fails; pids are unique;
      a waiting parent other than init has no hanging child; and no exit is reaped twice. */
  lemma WaitExitSafety(acts: seq<Act>)
    ensures var s := Run(Init(), acts);
            && s.stop != NullParent
            && (forall i :: i in s.procs && s.procs[i].user && i != INIT ==>
                  exists p :: p in s.procs && p == s.procs[i].parentId && s.procs[p].pid == s.procs[i].parentPid
                              && Present(s.procs[p]))
            && (forall i, j :: i in s.procs && j in s.procs && s.procs[i].pid == s.procs[j].pid ==> i == j)
            && WaitersOk(s.procs)
            && (forall k, l :: 0 <= k < l < |s.reaped| ==> s.reaped[k].child != s.reaped[l].child)
            && (forall k :: 0 <= k < |s.reaped| ==>
                  && s.reaped[k].child in s.exits && -128 <= s.reaped[k].status <= 127
                  && (s.exits[s.reaped[k].child] - s.reaped[k].status) % 256 == 0)
  {
    hide Run; hide Init; hide Inv; hide WaitersOk; hide Present;
    InvRun(acts);
    var s := Run(Init(), acts);
    ParentsListed(s);
    SafePids(s);
    SafeReaps(s);
  }

  lemma ParentsListed(s: State)
    requires Inv(s)
    ensures forall i :: i in s.procs && s.procs[i].user && i != INIT ==>
              exists p :: p in s.procs && p == s.procs[i].parentId && s.procs[p].pid == s.procs[i].parentPid
                          && Present(s.procs[p])
  {
    forall i | i in s.procs && s.procs[i].user && i != INIT
      ensures exists p :: p in s.procs && p == s.procs[i].parentId && s.procs[p].pid == s.procs[i].parentPid
                          && Present(s.procs[p])
    {
      PidOfParent(s, i);
    }
  }

  lemma SafePids(s: State)
    requires Inv(s)
    ensures s.stop != NullParent && WaitersOk(s.procs)
    ensures forall i, j :: i in s.procs && j in s.procs && s.procs[i].pid == s.procs[j].pid ==> i == j
  {
    PidsUnique(s.procs, s.pids);
  }

  lemma SafeReaps(s: State)
    requires Inv(s)
    ensures forall k, l :: 0 <= k < l < |s.reaped| ==> s.reaped[k].child != s.reaped[l].child
    ensures forall k :: 0 <= k < |s.reaped| ==>
              && s.reaped[k].child in s.exits && -128 <= s.reaped[k].status <= 127
              && (s.exits[s.reaped[k].child] - s.reaped[k].status) % 256 == 0
  {
    hide PidsOk; hide ParentsOk; hide WaitersOk; hide Int8;
    forall k | 0 <= k < |s.reaped|
      ensures s.reaped[k].child in s.exits && -128 <= s.reaped[k].status <= 127
              && (s.exits[s.reaped[k].child] - s.reaped[k].status) % 256 == 0
    {
      StatusMeans(s.exits, s.reaped[k].child, s.reaped[k].status);
    }
  }

  lemma StatusMeans(exits: map<Id, int>, i: Id, status: int)
    requires StatusIs(exits, i, status)
    ensures i in exits && -128 <= status <= 127 && (exits[i] - status) % 256 == 0
  {
  }

  // ---------------------------------------------------------------- what each call does

  ghost predicate HangsUnder(s: State, c: Id, p: Id) {
    c in s.procs && s.procs[c].phase == Hanging && s.procs[c].parentId == p
  }

  ghost predicate ChildOf(s: State, c: Id, p: Id) {
    c in s.procs && s.procs[c].user && c != INIT && s.procs[c].parentId == p
  }

  /** The callbacks of `sys_wait` look for the right processes. */
  lemma CallbacksAgree(s: State, p: Id, c: Id)
    requires Inv(s) && p in s.procs && s.procs[p].user && c in s.procs
    ensures IsHangingChild(s.procs[c], s.procs[p].pid) <==> HangsUnder(s, c, p)
    ensures IsChild(s.procs[c], s.procs[p].pid) <==> ChildOf(s, c, p)
  {
    if IsChild(s.procs[c], s.procs[p].pid) {
      ParentByPid(s, c, p);
    }
    if s.procs[c].phase == Hanging { KernelLive(s, c); }
    if s.procs[c].user && c != INIT { PidOfParent(s, c); }
  }

  /** The process at place k of the list is the first hanging child of p. */
  ghost predicate FirstHanging(s: State, p: Id, k: nat) {
    k < |s.all| && HangsUnder(s, s.all[k], p) && forall j :: 0 <= j < k ==> !HangsUnder(s, s.all[j], p)
  }

  lemma {:induction false} HangsFirst(s: State, p: Id, c: Id)
    requires Listed(s.procs, s.all) && HangsUnder(s, c, p)
    ensures exists k :: FirstHanging(s, p, k)
  {
    hide HangsUnder; hide Distinct;
    HangsListed(s, p);
    var i :| 0 <= i < |s.all| && s.all[i] == c;
    FirstFrom(s, p, i);
  }

  lemma {:induction false} FirstFrom(s: State, p: Id, i: nat)
    requires i < |s.all| && HangsUnder(s, s.all[i], p)
    ensures exists k :: FirstHanging(s, p, k)
    decreases i
  {
    hide HangsUnder;
    if j :| 0 <= j < i && HangsUnder(s, s.all[j], p) {
      FirstFrom(s, p, j);
    } else {
      assert FirstHanging(s, p, i);
    }
  }

  /** `sys_wait` reaps if and only if a child hangs, and takes the first one in list order. */
  lemma ReapedByParent(s: State, p: Id)
    requires Inv(s) && Enabled(s, Wait(p))
    ensures DoWait(s, p).reaped != s.reaped <==> exists c :: HangsUnder(s, c, p)
    ensures (exists c :: HangsUnder(s, c, p)) ==> exists k :: FirstHanging(s, p, k)
    ensures forall k :: FirstHanging(s, p, k) ==> Reaped(s, DoWait(s, p), p, k)
  {
    hide PidsOk; hide ParentsOk; hide WaitersOk; hide ReapsOk; hide Distinct; hide HangsUnder; hide DoWait; hide Reaped;
    hide FirstHanging;
    forall k | FirstHanging(s, p, k) ensures Reaped(s, DoWait(s, p), p, k) { ReapsAt(s, p, k); }
    if c :| HangsUnder(s, c, p) {
      HangsFirst(s, p, c);
      var k :| FirstHanging(s, p, k);
      ReapedMore(s, DoWait(s, p), p, k);
    } else {
      WaitsForChild(s, p);
    }
  }

  /** The child at place k is gone: its status is told to the parent, its pid is free again,
      and nothing else changes. */
  ghost predicate Reaped(s: State, s': State, p: Id, k: nat) {
    k < |s.all| &&
    var c := s.all[k];
    && c in s.procs && p in s.procs
    && s'.reaped == s.reaped + [Reap(c, p, s.procs[c].exitStatus)]
    && s'.procs == s.procs[p := s.procs[p].(phase := Live)] - {c}
    && s'.all == s.all[..k] + s.all[k + 1..]
    && 1 <= s.procs[c].pid <= |s.pids| && s'.pids == s.pids[s.procs[c].pid - 1 := false]
    && s'.nextId == s.nextId && s'.stop == s.stop && s'.exits == s.exits
  }

  lemma ReapedMore(s: State, s': State, p: Id, k: nat)
    requires Reaped(s, s', p, k)
    ensures s'.reaped != s.reaped
  {
  }

  lemma FindsFirst(s: State, p: Id, k: nat)
    requires Inv(s) && p in s.procs && s.procs[p].user && FirstHanging(s, p, k)
    ensures Find(s.all, s.procs, (q: Proc) => IsHangingChild(q, s.procs[p].pid)) == s.all[k]
  {
    hide PidsOk; hide ParentsOk; hide WaitersOk; hide ReapsOk; hide Distinct; hide HangsUnder;
    HangsListed(s, p);
    var hanging := (q: Proc) => IsHangingChild(q, s.procs[p].pid);
    forall c | c in s.procs ensures hanging(s.procs[c]) <==> HangsUnder(s, c, p) { CallbacksAgree(s, p, c); }
    var c := Find(s.all, s.procs, hanging);
    assert s.all[k] in s.all && hanging(s.procs[s.all[k]]);
    var i :| 0 <= i < |s.all| && s.all[i] == c && forall j :: 0 <= j < i ==> !hanging(s.procs[s.all[j]]);
    assert HangsUnder(s, s.all[i], p);
    assert !(i < k) && !(k < i);
  }

  lemma ReapsAt(s: State, p: Id, k: nat)
    requires Inv(s) && Enabled(s, Wait(p)) && FirstHanging(s, p, k)
    ensures Reaped(s, DoWait(s, p), p, k)
  {
    hide PidsOk; hide ParentsOk; hide WaitersOk; hide ReapsOk; hide Distinct; hide HangsUnder; hide Without; hide Find;
    PidsLength(s.procs, s.pids);
    HangsListed(s, p);
    FindsFirst(s, p, k);
    WithoutAt(s.all, k);
  }

  lemma HangsListed(s: State, p: Id)
    requires Listed(s.procs, s.all)
    ensures forall c :: HangsUnder(s, c, p) ==> c in s.all && c in s.procs
  {
  }

  /** With no child it returns at once, with children none of which hangs it sleeps; nothing
      else changes. */
  lemma WaitsForChild(s: State, p: Id)
    requires Inv(s) && Enabled(s, Wait(p)) && forall c :: !HangsUnder(s, c, p)
    ensures DoWait(s, p)
            == s.(procs := s.procs[p := s.procs[p].(phase := if exists c :: ChildOf(s, c, p) then InWait else Live)])
  {
    hide PidsOk; hide ParentsOk; hide WaitersOk; hide ReapsOk; hide Distinct; hide HangsUnder; hide ChildOf;
    var pid := s.procs[p].pid;
    var hanging, child := (q: Proc) => IsHangingChild(q, pid), (q: Proc) => IsChild(q, pid);
    forall c | c in s.procs
      ensures hanging(s.procs[c]) <==> HangsUnder(s, c, p)
      ensures child(s.procs[c]) <==> ChildOf(s, c, p)
    {
      CallbacksAgree(s, p, c);
    }
    ChildListed(s, p);
  }

  lemma ChildListed(s: State, p: Id)
    requires Listed(s.procs, s.all)
    ensures forall c :: ChildOf(s, c, p) ==> c in s.all && c in s.procs
  {
  }

  /** `sys_fork` runs out of pids if and only if all are taken. Otherwise the lowest free one
      goes to a new child of p, last in the list, and nothing else changes. */
  lemma ForkMakesChild(s: State, p: Id)
    requires Inv(s) && Enabled(s, Fork(p))
    ensures var s', c := DoFork(s, p), s.nextId;
            if forall b :: 0 <= b < 1024 ==> s.pids[b] then s' == s.(stop := OutOfPids)
            else
              && c !in s.procs && c in s'.procs && s'.procs == s.procs[c := s'.procs[c]] && ChildOf(s', c, p)
              && s'.procs[c].phase == Live && s'.all == s.all + [c] && s'.nextId == c + 1
              && 1 <= s'.procs[c].pid <= 1024 && !s.pids[s'.procs[c].pid - 1]
              && (forall b :: 0 <= b < s'.procs[c].pid - 1 ==> s.pids[b])
              && s'.pids == s.pids[s'.procs[c].pid - 1 := true]
              && s'.stop == s.stop && s'.reaped == s.reaped && s'.exits == s.exits
  {
    InitIsUser(s);
    PidsLength(s.procs, s.pids);
    var child := Proc(0, 0, p, true, Live, 0);
    ReapsAdd(s.procs, s.nextId, s.reaped, s.exits, child);
    hide Inv;
    var bit := FirstRun(s.pids, 1);
    if bit != -1 {
      assert FreeRun(s.pids, bit, 1) && !s.pids[bit];
    }
    forall b | 0 <= b < 1024 && (bit == -1 || b < bit) ensures s.pids[b] { assert !FreeRun(s.pids, b, 1); }
  }

  /** `sys_exit` up to the release of resources: the status is kept in eight bits, the children
      of p become children of init, and nothing else changes. */
  lemma ExitGivesAway(s: State, p: Id, status: int)
    requires Inv(s) && Enabled(s, ExitBegin(p, status))
    ensures var s' := DoExitBegin(s, p, status);
            && s' == s.(procs := s'.procs, exits := s.exits[p := status]) && s'.procs.Keys == s.procs.Keys
            && s'.procs[p].phase == Exiting && s'.procs[p].exitStatus == Int8(status)
            && s'.procs[p].pid == s.procs[p].pid && s'.procs[p].user
            && (forall c :: c != p && c in s.procs ==>
                  && s'.procs[c].pid == s.procs[c].pid && s'.procs[c].phase == s.procs[c].phase
                  && s'.procs[c].exitStatus == s.procs[c].exitStatus && s'.procs[c].user == s.procs[c].user)
            && (forall c, q :: ChildOf(s', c, q) <==>
                  if q == INIT then ChildOf(s, c, INIT) || ChildOf(s, c, p) else q != p && ChildOf(s, c, q))
  {
    hide Inv; hide Int8; hide ChildOf;
    var s' := DoExitBegin(s, p, status);
    forall c, q
      ensures ChildOf(s', c, q) <==>
                if q == INIT then ChildOf(s, c, INIT) || ChildOf(s, c, p) else q != p && ChildOf(s, c, q)
    {
      AdoptedKin(s, p, status, c, q);
    }
  }

  lemma AdoptedKin(s: State, p: Id, status: int, c: Id, q: Id)
    requires Inv(s) && Enabled(s, ExitBegin(p, status))
    ensures ChildOf(DoExitBegin(s, p, status), c, q) <==>
              if q == INIT then ChildOf(s, c, INIT) || ChildOf(s, c, p) else q != p && ChildOf(s, c, q)
  {
    hide Inv; hide Int8;
    if c in s.procs { CallbacksAgree(s, p, c); }
  }

  /** The end of `sys_exit`: the parent is woken if it waits, and p hangs. */
  lemma ExitHangs(s: State, p: Id)
    requires Inv(s) && Enabled(s, ExitEnd(p))
    ensures var parent := s.procs[p].parentId;
            && parent in s.procs && parent != p
            && DoExitEnd(s, p) == s.(procs := s.procs[parent := s.procs[parent].(phase :=
                   if s.procs[parent].phase == InWait then Scanning else s.procs[parent].phase)]
                   [p := s.procs[p].(phase := Hanging)])
  {
    LookupFinds(s, p);
    KernelLive(s, p);
    assert s.procs[p].phase == Exiting;
    hide Inv; hide FindPid;
    var parent := s.procs[p].parentId;
    if s.procs[parent].phase != InWait { assert s.procs[parent := s.procs[parent]] == s.procs; }
  }

  /** Init sleeps although a child of its own is ready to be reaped. */
  ghost predicate InitMisses(s: State) {
    INIT in s.procs && s.procs[INIT].phase == InWait && exists c :: HangsUnder(s, c, INIT)
  }

  /** After an exit begins, the hanging children of init are its own and the exiting
      process's. */
  lemma AdoptKin(s: State, p: Id, status: int, c: Id)
    requires Inv(s) && Enabled(s, ExitBegin(p, status))
    ensures HangsUnder(DoExitBegin(s, p, status), c, INIT) <==> HangsUnder(s, c, INIT) || HangsUnder(s, c, p)
  {
    if c in s.procs && s.procs[c].phase == Hanging {
      KernelLive(s, c);
      PidOfParent(s, c);
      PidsUnique(s.procs, s.pids);
    }
    hide PidsOk; hide ParentsOk; hide WaitersOk; hide ReapsOk; hide Distinct; hide Int8;
  }

  /** Adoption does not wake init. It leaves a waiting init with a hanging child exactly
      when init waits and the exiting process has a hanging child. */
  lemma AdoptionMissesInitIff(s: State, p: Id, status: int)
    requires Inv(s) && Enabled(s, ExitBegin(p, status)) && !InitMisses(s)
    ensures InitMisses(DoExitBegin(s, p, status)) <==>
              INIT in s.procs && s.procs[INIT].phase == InWait && exists c :: HangsUnder(s, c, p)
  {
    InitIsUser(s);
    hide Inv; hide HangsUnder; hide Int8;
    forall c ensures HangsUnder(DoExitBegin(s, p, status), c, INIT) <==> HangsUnder(s, c, INIT) || HangsUnder(s, c, p) {
      AdoptKin(s, p, status, c);
    }
  }

  /** The end of an exit wakes init if and only if init is the exiting process's own
      parent; then init does not miss anything any more. */
  lemma ExitEndMissesIff(s: State, p: Id)
    requires Inv(s) && Enabled(s, ExitEnd(p))
    ensures InitMisses(DoExitEnd(s, p)) <==> InitMisses(s) && s.procs[p].parentId != INIT
  {
    hide PidsOk; hide ParentsOk; hide WaitersOk; hide ReapsOk; hide Distinct; hide FindPid;
    LookupFinds(s, p);
    KernelLive(s, p);
    InitIsUser(s);
    var s', parent := DoExitEnd(s, p), s.procs[p].parentId;
    if parent != INIT {
      forall c ensures HangsUnder(s', c, INIT) <==> HangsUnder(s, c, INIT) { }
    }
  }

  /** A whole exit: init is left asleep with a hanging child exactly when init waits, the
      exiting process has a hanging child, and its own parent is not init. */
  lemma ExitMissesInitIff(s: State, p: Id, status: int)
    requires Inv(s) && Enabled(s, ExitBegin(p, status)) && !InitMisses(s)
    ensures var s1 := DoExitBegin(s, p, status);
            && Inv(s1) && Enabled(s1, ExitEnd(p))
            && (InitMisses(DoExitEnd(s1, p)) <==>
                  && INIT in s.procs && s.procs[INIT].phase == InWait && s.procs[p].parentId != INIT
                  && exists c :: HangsUnder(s, c, p))
  {
    var s1 := DoExitBegin(s, p, status);
    OwnParent(s, p);
    assert s1.procs[p].parentId == s.procs[p].parentId && Enabled(s1, ExitEnd(p));
    hide Inv; hide HangsUnder; hide Int8; hide InitMisses;
    InvExitBegin(s, p, status);
    AdoptionMissesInitIff(s, p, status);
    ExitEndMissesIff(s1, p);
  }

  /** Nobody is its own parent. */
  lemma OwnParent(s: State, p: Id)
    requires Inv(s) && p in s.procs && s.procs[p].user && p != INIT && Present(s.procs[p])
    ensures s.procs[p].parentPid != s.procs[p].pid
  {
    assert ParentOk(s.procs, p);
    PidsUnique(s.procs, s.pids);
  }

  // ---------------------------------------------------------------- a run in which init misses a child

  lemma ForkAt(ps: seq<Proc>, exits: map<Id, int>, p: Id)
    requires |ps| < 1024 && p < |ps|
    ensures DoFork(At(ps, exits), p) == At(ps + [Proc(|ps| + 1, ps[p].pid, p, true, Live, 0)], exits)
  {
    var s := At(ps, exits);
    assert FreeRun(s.pids, |ps|, 1);
    forall k: nat | k < |ps| ensures !FreeRun(s.pids, k, 1) { assert s.pids[k]; }
    FirstRunUnique(s.pids, 1, |ps|);
  }

  lemma PhaseAt(ps: seq<Proc>, exits: map<Id, int>, p: Id, ph: Phase)
    requires |ps| <= 1024 && p < |ps|
    ensures SetPhase(At(ps, exits), p, ph) == At(ps[p := ps[p].(phase := ph)], exits)
  {
  }

  lemma RunNext(s: State, acts: seq<Act>, a: Act, s1: State, s2: State)
    requires Run(s, acts) == s1 && Inv(s1) && Enabled(s1, a) && Step(s1, a) == s2
    ensures Run(s, acts + [a]) == s2 && Inv(s2)
  {
    assert (acts + [a])[..|acts|] == acts;
    InvStep(s1, a);
  }

  lemma WaitAt(ps: seq<Proc>, exits: map<Id, int>, p: Id, c: Id)
    requires |ps| <= 1024 && p < |ps| && c < |ps| && ps[c].parentPid == ps[p].pid
    requires forall i :: 0 <= i < |ps| ==> ps[i].phase != Hanging
    ensures DoWait(At(ps, exits), p) == At(ps[p := ps[p].(phase := InWait)], exits)
  {
    var s, pid := At(ps, exits), ps[p].pid;
    var child := (q: Proc) => IsChild(q, pid);
    assert s.all[c] == c && child(s.procs[c]);
    PhaseAt(ps, exits, p, InWait);
  }

  /** The control blocks after an exit has begun. */
  function Adopted(ps: seq<Proc>, p: Id, status: int): seq<Proc>
    requires p < |ps|
  {
    seq(|ps|, (i: nat) requires i < |ps| =>
      var q := if i == p then ps[i].(exitStatus := Int8(status), phase := Exiting) else ps[i];
      if q.parentPid == ps[p].pid then q.(parentPid := 1, parentId := INIT) else q)
  }

  lemma ExitBeginAt(ps: seq<Proc>, exits: map<Id, int>, p: Id, status: int)
    requires |ps| <= 1024 && p < |ps|
    ensures DoExitBegin(At(ps, exits), p, status) == At(Adopted(ps, p, status), exits[p := status])
  {
    hide Int8;
  }

  lemma ExitEndAt(ps: seq<Proc>, exits: map<Id, int>, p: Id)
    requires |ps| <= 1024 && p < |ps| && Inv(At(ps, exits)) && ps[p].phase == Exiting
    requires ps[p].parentId < |ps| && ps[ps[p].parentId].phase != InWait
    ensures DoExitEnd(At(ps, exits), p) == At(ps[p := ps[p].(phase := Hanging)], exits)
  {
    hide FindPid; hide Inv;
    LookupFinds(At(ps, exits), p);
    PhaseAt(ps, exits, p, Hanging);
  }

  /** A run from boot leads to these control blocks. */
  ghost predicate Reached(acts: seq<Act>, ps: seq<Proc>, exits: map<Id, int>) {
    |ps| <= 1024 && Run(Init(), acts) == At(ps, exits) && Inv(At(ps, exits))
  }

  lemma Boot()
    ensures Reached([], [Proc(1, 0, INIT, true, Live, 0), Proc(2, 0, INIT, false, Live, 0),
                         Proc(3, 0, INIT, false, Live, 0)], map[])
  {
    hide Inv;
    InvInit();
  }

  lemma ForkRun(acts: seq<Act>, acts': seq<Act>, ps: seq<Proc>, ps': seq<Proc>, p: Id)
    requires Reached(acts, ps, map[]) && |ps| < 1024 && p < |ps| && ps[p].user && ps[p].phase == Live
    requires acts' == acts + [Fork(p)] && ps' == ps + [Proc(|ps| + 1, ps[p].pid, p, true, Live, 0)]
    ensures Reached(acts', ps', map[])
  {
    hide Run; hide Inv; hide DoFork;
    ForkAt(ps, map[], p);
    RunNext(Init(), acts, Fork(p), At(ps, map[]), At(ps', map[]));
  }

  lemma WaitRun(acts: seq<Act>, acts': seq<Act>, ps: seq<Proc>, ps': seq<Proc>, p: Id, c: Id)
    requires Reached(acts, ps, map[]) && p < |ps| && c < |ps| && ps[c].parentPid == ps[p].pid
    requires ps[p].user && ps[p].phase == Live && forall i :: 0 <= i < |ps| ==> ps[i].phase != Hanging
    requires acts' == acts + [Wait(p)] && ps' == ps[p := ps[p].(phase := InWait)]
    ensures Reached(acts', ps', map[])
  {
    hide Run; hide Inv; hide DoWait;
    WaitAt(ps, map[], p, c);
    RunNext(Init(), acts, Wait(p), At(ps, map[]), At(ps', map[]));
  }

  lemma ExitRun(acts: seq<Act>, acts': seq<Act>, ps: seq<Proc>, ps': seq<Proc>, exits: map<Id, int>,
                exits': map<Id, int>,
                p: Id, status: int)
    requires Reached(acts, ps, exits) && p < |ps| && ps[p].user && ps[p].phase == Live && p != INIT
    requires acts' == acts + [ExitBegin(p, status), ExitEnd(p)] && exits' == exits[p := status]
    requires ps[p].parentId < |ps| && ps[p].parentPid != ps[p].pid && ps[ps[p].parentId].phase != InWait
    requires ps[p].parentId != p
    requires var a := Adopted(ps, p, status); ps' == a[p := a[p].(phase := Hanging)]
    ensures Reached(acts', ps', exits')
  {
    hide Run; hide Inv; hide DoExitBegin; hide DoExitEnd; hide Int8;
    var a := Adopted(ps, p, status);
    ExitBeginAt(ps, exits, p, status);
    RunNext(Init(), acts, ExitBegin(p, status), At(ps, exits), At(a, exits'));
    ExitEndAt(a, exits', p);
    RunNext(Init(), acts + [ExitBegin(p, status)], ExitEnd(p), At(a, exits'), At(ps', exits'));
    assert acts' == acts + [ExitBegin(p, status)] + [ExitEnd(p)];
  }

  /** From boot: init has a child 3, that a child 4, that a child 5. Init waits, 5 exits, and
      then 4. Now 5 hangs below init, which sleeps on. */
  lemma InitMissesExample()
    ensures InitMisses(Run(Init(), [Fork(0), Fork(3), Fork(4), Wait(0), ExitBegin(5, 7), ExitEnd(5), ExitBegin(4, 0),
                                    ExitEnd(4)]))
  {
    hide Reached; hide Run;
    var i, m, d := Proc(1, 0, INIT, true, Live, 0), Proc(2, 0, INIT, false, Live, 0), Proc(3, 0, INIT, false, Live, 0);
    var a, b, c := Proc(4, 1, 0, true, Live, 0), Proc(5, 4, 3, true, Live, 0), Proc(6, 5, 4, true, Live, 0);
    var w, c1 := i.(phase := InWait), c.(phase := Hanging, exitStatus := 7);
    var b1, c2 := b.(phase := Hanging), c1.(parentPid := 1, parentId := INIT);
    Boot();
    ForkRun([], [Fork(0)], [i, m, d], [i, m, d, a], 0);
    ForkRun([Fork(0)], [Fork(0), Fork(3)], [i, m, d, a], [i, m, d, a, b], 3);
    ForkRun([Fork(0), Fork(3)], [Fork(0), Fork(3), Fork(4)], [i, m, d, a, b], [i, m, d, a, b, c], 4);
    WaitRun([Fork(0), Fork(3), Fork(4)], [Fork(0), Fork(3), Fork(4), Wait(0)], [i, m, d, a, b, c],
        [w, m, d, a, b, c], 0, 3);
    var acts := [Fork(0), Fork(3), Fork(4), Wait(0)];
    ExitRun(acts, acts + [ExitBegin(5, 7), ExitEnd(5)], [w, m, d, a, b, c], [w, m, d, a, b, c1], map[], map[5 := 7],
        5, 7);
    acts := acts + [ExitBegin(5, 7), ExitEnd(5)];
    ExitRun(acts, acts + [ExitBegin(4, 0), ExitEnd(4)], [w, m, d, a, b, c1], [w, m, d, a, b1, c2], map[5 := 7],
        map[5 := 7, 4 := 0], 4, 0);
    acts := acts + [ExitBegin(4, 0), ExitEnd(4)];
    assert acts == [Fork(0), Fork(3), Fork(4), Wait(0), ExitBegin(5, 7), ExitEnd(5), ExitBegin(4, 0), ExitEnd(4)];
    MissedThere(acts, [w, m, d, a, b1, c2], map[5 := 7, 4 := 0], 5);
  }

  lemma MissedThere(acts: seq<Act>, ps: seq<Proc>, exits: map<Id, int>, c: Id)
    requires Reached(acts, ps, exits) && 0 < c < |ps| && ps[0].phase == InWait && ps[c].phase == Hanging
    requires ps[c].parentId == INIT
    ensures InitMisses(Run(Init(), acts))
  {
    hide Run; hide Inv;
    assert HangsUnder(At(ps, exits), c, INIT);
  }
}
