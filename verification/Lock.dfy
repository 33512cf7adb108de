/** The re-entrant lock over a binary semaphore (thread/sync.c), run by any number of
    threads in any interleaving.

    `sema_down` up to its sleep and `sema_up` run with interrupts off and are one step
    each. Every other access to a shared field is a step of its own; `++` and `--` are a
    read and a write. A failed ASSERT sets `halted`. */
module LockProtocol {
  import opened Options
  import opened Queues

  /** Threads are told apart by the address of their control block. */
  type Tid = nat

  datatype PC =
    | Outside                    // in the caller's code
    | AcquireTest                // lock_acquire: holder != running_thread()
    | DownTest                   // sema_down, before its first test
    | Waiting                    // blocked in `waiters`
    | Woken                      // unblocked, about to test again
    | SetHolder | CheckRepeat | SetRepeat
    | IncRead | IncWrite(seen: nat)
    | ReleaseCheck               // lock_release: ASSERT(holder == running_thread())
    | ReleaseTest                // holder_repeat_nr > 1
    | DecRead | DecWrite(got: nat)
    | CheckOne | ClearHolder | ClearRepeat | Up

  /** `depth` counts the acquisitions the thread has completed and not released. */
  datatype Local = Local(pc: PC, depth: nat)

  datatype State = State(value: nat, waiters: seq<Tid>, holder: Option<Tid>, repeat: nat,
                         threads: map<Tid, Local>, halted: bool)

  /** What a thread outside the lock does next. */
  datatype Choice = Acquire | Release

  // ---------------------------------------------------------------- steps

  /** A blocked thread cannot move, and only a thread inside the lock releases it. */
  predicate Enabled(s: State, t: Tid, c: Choice) {
    && t in s.threads && !s.halted && s.threads[t].pc != Waiting
    && (s.threads[t].pc == Outside && c == Release ==> s.threads[t].depth > 0)
  }

  function Goto(s: State, t: Tid, pc: PC): State
    requires t in s.threads
  {
    s.(threads := s.threads[t := s.threads[t].(pc := pc)])
  }

  function Return(s: State, t: Tid, depth: nat): State
    requires t in s.threads
  {
    s.(threads := s.threads[t := Local(Outside, depth)])
  }

  function Halt(s: State): State {
    s.(halted := true)
  }

  function SemaDown(s: State, t: Tid): State
    requires t in s.threads
  {
    if s.value == 0 then
      if t in s.waiters then Halt(s)
      else Goto(s.(waiters := s.waiters + [t]), t, Waiting)
    else if s.value - 1 != 0 then Halt(s)
    else Goto(s.(value := s.value - 1), t, SetHolder)
  }

  function SemaUp(s: State, t: Tid): State
    requires t in s.threads
  {
    if s.value != 0 then Halt(s)
    else
      var s1 := s.(value := s.value + 1);
      if s.waiters == [] then Return(s1, t, 0)
      else
        var w := s.waiters[0];
        if w !in s.threads || s.threads[w].pc != Waiting then Halt(s)
        else Return(Goto(s1.(waiters := s.waiters[1..]), w, Woken), t, 0)
  }

  function Step(s: State, t: Tid, c: Choice): State
    requires Enabled(s, t, c)
  {
    var me := s.threads[t];
    match me.pc
    case Outside => Goto(s, t, if c == Acquire then AcquireTest else ReleaseCheck)
    case AcquireTest => Goto(s, t, if s.holder != Some(t) then DownTest else IncRead)
    case DownTest => SemaDown(s, t)
    case Woken => SemaDown(s, t)
    case SetHolder => Goto(s.(holder := Some(t)), t, CheckRepeat)
    case CheckRepeat => if s.repeat != 0 then Halt(s) else Goto(s, t, SetRepeat)
    case SetRepeat => Return(s.(repeat := 1), t, me.depth + 1)
    case IncRead => Goto(s, t, IncWrite(s.repeat))
    case IncWrite(seen) => Return(s.(repeat := seen + 1), t, me.depth + 1)
    case ReleaseCheck => if s.holder != Some(t) then Halt(s) else Goto(s, t, ReleaseTest)
    case ReleaseTest => Goto(s, t, if s.repeat > 1 then DecRead else CheckOne)
    case DecRead => Goto(s, t, DecWrite(s.repeat))
    case DecWrite(got) => if got == 0 || me.depth == 0 then Halt(s) else Return(s.(repeat := got - 1), t, me.depth - 1)
    case CheckOne => if s.repeat != 1 then Halt(s) else Goto(s, t, ClearHolder)
    case ClearHolder => Goto(s.(holder := None), t, ClearRepeat)
    case ClearRepeat => Goto(s.(repeat := 0), t, Up)
    case Up => SemaUp(s, t)
  }

  // ---------------------------------------------------------------- the invariant

  /** Between a successful `sema_down` and the matching `sema_up`. */
  predicate Inside(l: Local) {
    match l.pc
    case Outside => l.depth > 0
    case AcquireTest => l.depth > 0
    case DownTest => false
    case Waiting => false
    case Woken => false
    case _ => true
  }

  /** The part of that stretch in which `holder` names the thread. */
  predicate Holding(l: Local) {
    Inside(l) && l.pc != SetHolder && l.pc != ClearRepeat && l.pc != Up
  }

  /** What the lock's counter is while a thread is inside, and what it has read. */
  predicate CountOk(l: Local, repeat: nat) {
    match l.pc
    case SetHolder => l.depth == 0 && repeat == 0
    case CheckRepeat => l.depth == 0 && repeat == 0
    case SetRepeat => l.depth == 0 && repeat == 0
    case IncWrite(seen) => seen == repeat == l.depth > 0
    case DecRead => repeat == l.depth > 1
    case DecWrite(got) => got == repeat == l.depth > 1
    case CheckOne => repeat == l.depth == 1
    case ClearHolder => repeat == l.depth == 1
    case ClearRepeat => repeat == l.depth == 1
    case Up => repeat == 0 && l.depth == 1
    case _ => repeat == l.depth > 0
  }

  /** The wait list holds exactly the sleeping threads, each once. */
  ghost predicate Queue(s: State) {
    && Distinct(s.waiters)
    && (forall t :: t in s.waiters ==> t in s.threads)
    && (forall t :: t in s.threads ==> (t in s.waiters <==> s.threads[t].pc == Waiting))
  }

  /** The semaphore is 0 exactly while one thread is inside, and the lock's fields
      are that thread's. */
  ghost predicate Region(s: State) {
    && (forall t :: t in s.threads && !Inside(s.threads[t]) ==> s.threads[t].depth == 0)
    && (forall t, u :: t in s.threads && u in s.threads && Inside(s.threads[t]) && Inside(s.threads[u]) ==> t == u)
    && (s.value == 0 <==> exists t :: t in s.threads && Inside(s.threads[t]))
    && (s.value == 1 ==> s.repeat == 0)
    && (forall t :: t in s.threads && Inside(s.threads[t]) ==> CountOk(s.threads[t], s.repeat))
    && (forall t :: s.holder == Some(t) <==> t in s.threads && Holding(s.threads[t]))
  }

  ghost predicate Inv(s: State) {
    && !s.halted && s.value <= 1 && Queue(s) && Region(s)
    && (s.value == 1 && s.waiters != [] ==> exists t :: t in s.threads && s.threads[t].pc == Woken)
  }

  lemma HoldingIsInside()
    ensures forall l :: Holding(l) ==> Inside(l)
  {
  }

  /** What the invariant says of one thread. */
  lemma InvAt(s: State, t: Tid)
    requires Inv(s) && t in s.threads
    ensures s.holder == Some(t) <==> Holding(s.threads[t])
    ensures if Inside(s.threads[t]) then CountOk(s.threads[t], s.repeat) else s.threads[t].depth == 0
  {
  }

  /** A step that neither enters nor leaves the lock: `l` is the thread afterwards. */
  ghost predicate Moves(s: State, t: Tid, l: Local, holder: Option<Tid>, repeat: nat)
    requires t in s.threads
  {
    var was := s.threads[t];
    && was.pc != Waiting && was.pc != Woken && l.pc != Waiting && Inside(l) == Inside(was)
    && (if Inside(l) then CountOk(l, repeat) else l.depth == 0 && repeat == s.repeat)
    && holder == if Holding(l) then Some(t) else if Holding(was) then None else s.holder
  }

  lemma RegionMove(s: State, t: Tid, l: Local, holder: Option<Tid>, repeat: nat)
    requires Inv(s) && t in s.threads && Moves(s, t, l, holder, repeat)
    ensures Region(s.(threads := s.threads[t := l], holder := holder, repeat := repeat))
  {
    hide Inside; hide Holding; hide CountOk; hide Queue;
    HoldingIsInside();
    var s' := s.(threads := s.threads[t := l], holder := holder, repeat := repeat);
    if s.value == 0 {
      var u :| u in s.threads && Inside(s.threads[u]);
      assert u in s'.threads && Inside(s'.threads[u]);
    }
  }

  lemma InvMove(s: State, t: Tid, l: Local, holder: Option<Tid>, repeat: nat)
    requires Inv(s) && t in s.threads && Moves(s, t, l, holder, repeat)
    ensures Inv(s.(threads := s.threads[t := l], holder := holder, repeat := repeat))
  {
    RegionMove(s, t, l, holder, repeat);
    hide Inside; hide Holding; hide CountOk; hide Region; hide Distinct;
    var s' := s.(threads := s.threads[t := l], holder := holder, repeat := repeat);
    if s.value == 1 && s.waiters != [] {
      var u :| u in s.threads && s.threads[u].pc == Woken;
      assert s'.threads[u].pc == Woken;
    }
  }

  /** Going to sleep: the thread was not inside and is not. */
  lemma InvBlock(s: State, t: Tid)
    requires Inv(s) && t in s.threads && (s.threads[t].pc == DownTest || s.threads[t].pc == Woken) && s.value == 0
    ensures t !in s.waiters && Inv(Goto(s.(waiters := s.waiters + [t]), t, Waiting))
  {
    hide CountOk;
    var s' := Goto(s.(waiters := s.waiters + [t]), t, Waiting);
    var l, l' := s.threads[t], s'.threads[t];
    assert !Inside(l) && !Inside(l') && !Holding(l) && !Holding(l');
    hide Inside; hide Holding;
    var u :| u in s.threads && Inside(s.threads[u]);
    assert u in s'.threads && Inside(s'.threads[u]);
  }

  /** Taking the semaphore: nobody was inside, the thread now is. */
  lemma InvTake(s: State, t: Tid)
    requires Inv(s) && t in s.threads && (s.threads[t].pc == DownTest || s.threads[t].pc == Woken) && s.value == 1
    ensures Inv(Goto(s.(value := 0), t, SetHolder))
  {
    var s' := Goto(s.(value := 0), t, SetHolder);
    var l, l' := s.threads[t], s'.threads[t];
    assert !Inside(l) && Inside(l') && !Holding(l) && !Holding(l') && CountOk(l', 0);
    hide Inside; hide Holding; hide CountOk;
    assert t in s'.threads && Inside(s'.threads[t]);
  }

  lemma WaiterIsOutside(l: Local)
    requires l.pc == Waiting || l.pc == Woken || l == Local(Outside, 0)
    ensures !Inside(l) && !Holding(l)
  {
  }

  lemma RegionEmpty(s: State)
    requires s.value == 1 && s.repeat == 0 && s.holder == None
    requires forall t :: t in s.threads ==> !Inside(s.threads[t]) && s.threads[t].depth == 0
    ensures Region(s)
  {
  }

  /** While the thread is about to leave, nobody else is inside and nobody holds. */
  lemma LastInside(s: State, t: Tid)
    requires Region(s) && t in s.threads && s.threads[t].pc == Up
    ensures s.repeat == 0 && s.holder == None
    ensures forall u :: u in s.threads && u != t ==> !Inside(s.threads[u]) && s.threads[u].depth == 0
  {
    var l := s.threads[t];
    assert Inside(l) && !Holding(l) && CountOk(l, s.repeat) && s.repeat == 0;
    hide Inside; hide Holding; hide CountOk;
    HoldingIsInside();
    match s.holder
    case None =>
    case Some(h) => assert false;
  }

  lemma RegionUp(s: State, t: Tid)
    requires Inv(s) && t in s.threads && s.threads[t].pc == Up
    ensures !SemaUp(s, t).halted && Region(SemaUp(s, t))
  {
    LastInside(s, t);
    var s' := SemaUp(s, t);
    assert s.value == 0 by { assert Inside(s.threads[t]); }
    hide Region; hide Inside;
    WaiterIsOutside(Local(Outside, 0));
    if s.waiters != [] {
      var w := s.waiters[0];
      assert w in s.waiters && s.threads[w].pc == Waiting && w != t;
      WaiterIsOutside(s.threads[w].(pc := Woken));
    }
    RegionEmpty(s');
  }

  lemma QueueUp(s: State, t: Tid)
    requires !s.halted && Queue(s) && s.value == 0 && t in s.threads && s.threads[t].pc == Up
    ensures var s' := SemaUp(s, t);
            && !s'.halted && s'.value == 1 && Queue(s')
            && (s.waiters != [] ==> s.waiters[0] in s'.threads && s'.threads[s.waiters[0]].pc == Woken)
  {
    hide Distinct;
    if s.waiters != [] {
      assert s.waiters[0] in s.waiters;
      PopFirst(s.waiters);
    }
  }

  lemma InvSemaUp(s: State, t: Tid)
    requires Inv(s) && t in s.threads && s.threads[t].pc == Up
    ensures Inv(SemaUp(s, t))
  {
    assert s.value == 0 by { assert Inside(s.threads[t]); }
    RegionUp(s, t);
    QueueUp(s, t);
    hide Region; hide Queue;
  }

  lemma InvAcquire(s: State, t: Tid, c: Choice)
    requires Inv(s) && Enabled(s, t, c)
    requires s.threads[t].pc in {AcquireTest, DownTest, Woken, SetHolder, CheckRepeat, SetRepeat, IncRead}
    ensures Inv(Step(s, t, c))
  {
    hide Inv; hide SemaUp;
    var me := s.threads[t];
    InvAt(s, t);
    match me.pc
    case AcquireTest => InvMove(s, t, me.(pc := if s.holder != Some(t) then DownTest else IncRead), s.holder, s.repeat);
    case SetHolder => InvMove(s, t, me.(pc := CheckRepeat), Some(t), s.repeat);
    case CheckRepeat => InvMove(s, t, me.(pc := SetRepeat), s.holder, s.repeat);
    case SetRepeat => InvMove(s, t, Local(Outside, me.depth + 1), s.holder, 1);
    case IncRead => InvMove(s, t, me.(pc := IncWrite(s.repeat)), s.holder, s.repeat);
    case _ => ValueIsBit(s); if s.value == 0 { InvBlock(s, t); } else { InvTake(s, t); }
  }

  lemma ValueIsBit(s: State)
    requires Inv(s)
    ensures s.value <= 1
  {
  }

  lemma InvRelease(s: State, t: Tid, c: Choice)
    requires Inv(s) && Enabled(s, t, c)
    requires s.threads[t].pc in {ReleaseCheck, ReleaseTest, DecRead, CheckOne, ClearHolder, ClearRepeat, Up}
    ensures Inv(Step(s, t, c))
  {
    hide Inv; hide SemaDown; hide SemaUp;
    var me := s.threads[t];
    InvAt(s, t);
    match me.pc
    case ReleaseCheck => InvMove(s, t, me.(pc := ReleaseTest), s.holder, s.repeat);
    case ReleaseTest => InvMove(s, t, me.(pc := if s.repeat > 1 then DecRead else CheckOne), s.holder, s.repeat);
    case DecRead => InvMove(s, t, me.(pc := DecWrite(s.repeat)), s.holder, s.repeat);
    case CheckOne => InvMove(s, t, me.(pc := ClearHolder), s.holder, s.repeat);
    case ClearHolder => InvMove(s, t, me.(pc := ClearRepeat), None, s.repeat);
    case ClearRepeat => InvMove(s, t, me.(pc := Up), s.holder, 0);
    case Up => InvSemaUp(s, t);
  }

  lemma InvStep(s: State, t: Tid, c: Choice)
    requires Inv(s) && Enabled(s, t, c)
    ensures Inv(Step(s, t, c))
  {
    hide Inv; hide SemaDown; hide SemaUp;
    var me := s.threads[t];
    InvAt(s, t);
    match me.pc
    case Outside => InvMove(s, t, me.(pc := if c == Acquire then AcquireTest else ReleaseCheck), s.holder, s.repeat);
    case IncWrite(seen) => InvMove(s, t, Local(Outside, me.depth + 1), s.holder, seen + 1);
    case DecWrite(got) => InvMove(s, t, Local(Outside, me.depth - 1), s.holder, got - 1);
    case _ =>
      if me.pc in {AcquireTest, DownTest, Woken, SetHolder, CheckRepeat, SetRepeat, IncRead} {
        InvAcquire(s, t, c);
      } else {
        InvRelease(s, t, c);
      }
  }

  // ---------------------------------------------------------------- whole runs

  function Init(tids: set<Tid>): State {
    State(1, [], None, 0, map t | t in tids :: Local(Outside, 0), false)
  }

  /** The state after a schedule. A turn given to a thread that cannot move is lost. */
  function Run(s: State, schedule: seq<(Tid, Choice)>): State {
    if schedule == [] then s
    else
      var s1 := Run(s, schedule[..|schedule| - 1]);
      var (t, c) := schedule[|schedule| - 1];
      if Enabled(s1, t, c) then Step(s1, t, c) else s1
  }

  lemma {:induction false} InvRun(tids: set<Tid>, schedule: seq<(Tid, Choice)>)
    ensures Inv(Run(Init(tids), schedule))
  {
    if schedule != [] {
      var (t, c) := schedule[|schedule| - 1];
      InvRun(tids, schedule[..|schedule| - 1]);
      var s1 := Run(Init(tids), schedule[..|schedule| - 1]);
      if Enabled(s1, t, c) { InvStep(s1, t, c); }
    }
  }

  // ---------------------------------------------------------------- calls, counted from the schedule

  /** The call that thread t is in or was in last: what it chose when it last left its own
      code. */
  function Begun(s: State, schedule: seq<(Tid, Choice)>, t: Tid): Choice {
    if schedule == [] then Acquire
    else
      var init := schedule[..|schedule| - 1];
      var (u, c) := schedule[|schedule| - 1];
      var s1 := Run(s, init);
      if u == t && Enabled(s1, t, c) && s1.threads[t].pc == Outside then c else Begun(s, init, t)
  }

  /** How many calls of this kind thread t has returned from: the turns that brought it back
      to its own code. */
  function Returned(s: State, schedule: seq<(Tid, Choice)>, t: Tid, call: Choice): nat {
    if schedule == [] then 0
    else
      var init := schedule[..|schedule| - 1];
      var (u, c) := schedule[|schedule| - 1];
      var s1, s2 := Run(s, init), Run(s, schedule);
      Returned(s, init, t, call)
      + if u == t && Enabled(s1, t, c) && s1.threads[t].pc != Outside && t in s2.threads
           && s2.threads[t].pc == Outside && Begun(s, init, t) == call
        then 1 else 0
  }

  predicate Acquiring(pc: PC) {
    match pc
    case AcquireTest => true
    case DownTest => true
    case Waiting => true
    case Woken => true
    case SetHolder => true
    case CheckRepeat => true
    case SetRepeat => true
    case IncRead => true
    case IncWrite(_) => true
    case _ => false
  }

  /** What a step does to the thread that takes it. */
  lemma StepSelf(s: State, t: Tid, c: Choice)
    requires Enabled(s, t, c) && !Step(s, t, c).halted && (s.threads[t].pc == Up ==> s.threads[t].depth == 1)
    ensures var s' := Step(s, t, c);
            t in s'.threads &&
            var l, l' := s.threads[t], s'.threads[t];
            if l.pc == Outside then l' == Local(if c == Acquire then AcquireTest else ReleaseCheck, l.depth)
            else if l'.pc == Outside then l'.depth == if Acquiring(l.pc) then l.depth + 1 else l.depth - 1
            else Acquiring(l'.pc) == Acquiring(l.pc) && l'.depth == l.depth
  {
  }

  /** And to any other. */
  lemma StepOther(s: State, t: Tid, c: Choice, u: Tid)
    requires Enabled(s, t, c) && u in s.threads && u != t
    ensures var s' := Step(s, t, c);
            && u in s'.threads
            && (s'.threads[u] == s.threads[u]
                || (s.threads[u].pc == Waiting && s'.threads[u] == s.threads[u].(pc := Woken)))
  {
  }

  /** The nesting depth of a thread is the number of `lock_acquire` calls it returned from,
      less the number of `lock_release` calls. */
  lemma {:induction false} DepthIsCalls(tids: set<Tid>, schedule: seq<(Tid, Choice)>, t: Tid)
    requires t in tids
    ensures var s := Run(Init(tids), schedule);
            && t in s.threads
            && (s.threads[t].pc != Outside ==>
                  (Acquiring(s.threads[t].pc) <==> Begun(Init(tids), schedule, t) == Acquire))
            && s.threads[t].depth
               == Returned(Init(tids), schedule, t, Acquire) - Returned(Init(tids), schedule, t, Release)
  {
    hide Inv; hide Step; hide Enabled; hide Acquiring;
    if schedule != [] {
      var init := schedule[..|schedule| - 1];
      var (u, c) := schedule[|schedule| - 1];
      var s1 := Run(Init(tids), init);
      DepthIsCalls(tids, init, t);
      InvRun(tids, init);
      if Enabled(s1, u, c) {
        if u == t {
          InvStep(s1, t, c);
          Leaving(s1, t, c);
          StepSelf(s1, t, c);
          CallPlaces();
        } else {
          IsThread(s1, u, c);
          StepOther(s1, u, c, t);
          CallPlaces();
        }
      }
    }
  }

  lemma Leaving(s: State, t: Tid, c: Choice)
    requires Inv(s) && Enabled(s, t, c) && Inv(Step(s, t, c))
    ensures !Step(s, t, c).halted && (s.threads[t].pc == Up ==> s.threads[t].depth == 1)
  {
    hide Step;
    InvAt(s, t);
  }

  lemma IsThread(s: State, t: Tid, c: Choice)
    requires Enabled(s, t, c)
    ensures t in s.threads
  {
  }

  lemma CallPlaces()
    ensures Acquiring(AcquireTest) && !Acquiring(ReleaseCheck) && Acquiring(Waiting) && Acquiring(Woken)
  {
  }

  /** Under every schedule: no ASSERT fires, and at most one thread is inside. A thread that
      has returned from more acquires than releases holds the lock whenever it runs its own
      code or acquires again, and keeps it through every release but the last; the count is
      the difference. */
  lemma LockSafety(tids: set<Tid>, schedule: seq<(Tid, Choice)>)
    ensures var s := Run(Init(tids), schedule);
            && !s.halted
            && (forall t, u :: t in s.threads && u in s.threads && Inside(s.threads[t]) && Inside(s.threads[u]) ==>
                t == u)
    ensures forall t :: t in tids ==>
              var s := Run(Init(tids), schedule);
              var held := Returned(Init(tids), schedule, t, Acquire) - Returned(Init(tids), schedule, t, Release);
              && t in s.threads && held >= 0
              && (s.threads[t].pc == Outside ==>
                    (s.holder == Some(t) <==> held > 0) && (held > 0 ==> s.repeat == held))
              && (held > 1 || (held == 1 && Begun(Init(tids), schedule, t) == Acquire) ==> s.holder == Some(t))
  {
    InvRun(tids, schedule);
    var s := Run(Init(tids), schedule);
    forall t | t in tids
      ensures var held := Returned(Init(tids), schedule, t, Acquire) - Returned(Init(tids), schedule, t, Release);
              && t in s.threads && held >= 0
              && (s.threads[t].pc == Outside ==>
                    (s.holder == Some(t) <==> held > 0) && (held > 0 ==> s.repeat == held))
              && (held > 1 || (held == 1 && Begun(Init(tids), schedule, t) == Acquire) ==> s.holder == Some(t))
    {
      DepthIsCalls(tids, schedule, t);
      InvAt(s, t);
    }
  }

  /** Sleepers are woken in the order in which they went to sleep. */
  lemma WaitersInOrder(s: State, t: Tid, c: Choice)
    requires Enabled(s, t, c)
    ensures var s' := Step(s, t, c);
            || s'.waiters == s.waiters
            || (s'.waiters == s.waiters + [t] && s'.threads[t].pc == Waiting)
            || (s.waiters != [] && s'.waiters == s.waiters[1..] && s'.threads[s.waiters[0]].pc == Woken)
    ensures forall u :: u in s.threads && s.threads[u].pc == Waiting && Step(s, t, c).threads[u].pc != Waiting ==>
              s.waiters != [] && u == s.waiters[0]
  {
  }

  // ---------------------------------------------------------------- a thread that is left alone

  /** k turns of one thread, while no other has any. */
  function Alone(s: State, t: Tid, c: Choice, k: nat): State
    decreases k
  {
    if k == 0 || !Enabled(s, t, c) then s else Alone(Step(s, t, c), t, c, k - 1)
  }

  lemma AloneStep(s: State, t: Tid, c: Choice, k: nat, s1: State)
    requires k > 0 && Enabled(s, t, c) && Step(s, t, c) == s1
    ensures Alone(s, t, c, k) == Alone(s1, t, c, k - 1) && Alone(s1, t, c, 0) == s1
  {
    hide Enabled; hide Step;
  }

  /** The same state with thread t elsewhere. */
  function At(s: State, t: Tid, pc: PC): State
    requires t in s.threads
  {
    s.(threads := s.threads[t := Local(pc, s.threads[t].depth)])
  }

  lemma AtTwice(s: State, t: Tid, pc: PC, l: Local)
    requires t in s.threads
    ensures At(s, t, s.threads[t].pc) == s && At(s, t, pc).threads[t := l] == s.threads[t := l]
  {
  }

  /** The steps inside the two calls, from state s to state s2 of the lock's fields. */
  lemma Moved(s: State, t: Tid, c: Choice, pc: PC, s2: State, pc2: PC, k: nat)
    requires !s.halted && t in s.threads && k > 0 && s2.threads == s.threads
    requires || (pc == Outside && c == Acquire && s2 == s && pc2 == AcquireTest)
             || (pc == AcquireTest && s2 == s && pc2 == if s.holder != Some(t) then DownTest else IncRead)
             || (pc == DownTest && s.value == 1 && s2 == s.(value := 0) && pc2 == SetHolder)
             || (pc == DownTest && s.value == 0 && t !in s.waiters && s2 == s.(waiters := s.waiters + [t])
                 && pc2 == Waiting)
             || (pc == SetHolder && s2 == s.(holder := Some(t)) && pc2 == CheckRepeat)
             || (pc == CheckRepeat && s.repeat == 0 && s2 == s && pc2 == SetRepeat)
             || (pc == IncRead && s2 == s && pc2 == IncWrite(s.repeat))
             || (pc == Outside && c == Release && s.threads[t].depth > 0 && s2 == s && pc2 == ReleaseCheck)
             || (pc == ReleaseCheck && s.holder == Some(t) && s2 == s && pc2 == ReleaseTest)
             || (pc == ReleaseTest && s2 == s && pc2 == if s.repeat > 1 then DecRead else CheckOne)
             || (pc == DecRead && s2 == s && pc2 == DecWrite(s.repeat))
             || (pc == CheckOne && s.repeat == 1 && s2 == s && pc2 == ClearHolder)
             || (pc == ClearHolder && s2 == s.(holder := None) && pc2 == ClearRepeat)
             || (pc == ClearRepeat && s2 == s.(repeat := 0) && pc2 == Up)
    ensures Alone(At(s, t, pc), t, c, k) == Alone(At(s2, t, pc2), t, c, k - 1)
    ensures Alone(At(s2, t, pc2), t, c, 0) == At(s2, t, pc2)
  {
    hide Alone; hide SemaUp;
    AtTwice(s, t, pc, Local(pc2, s.threads[t].depth));
    AloneStep(At(s, t, pc), t, c, k, At(s2, t, pc2));
  }

  /** The steps that return. */
  lemma Finished(s: State, t: Tid, c: Choice, pc: PC, repeat: nat, depth: nat)
    requires !s.halted && t in s.threads
    requires || (pc == SetRepeat && repeat == 1 && depth == s.threads[t].depth + 1)
             || (pc == IncWrite(s.repeat) && repeat == s.repeat + 1 && depth == s.threads[t].depth + 1)
             || (pc == DecWrite(s.repeat) && repeat == s.repeat - 1 && depth == s.threads[t].depth - 1)
    ensures Alone(At(s, t, pc), t, c, 1) == s.(repeat := repeat, threads := s.threads[t := Local(Outside, depth)])
  {
    hide Alone; hide SemaUp; hide SemaDown;
    AtTwice(s, t, pc, Local(Outside, depth));
    AloneStep(At(s, t, pc), t, c, 1, s.(repeat := repeat, threads := s.threads[t := Local(Outside, depth)]));
  }

  /** `lock_acquire` by the holder returns after four turns with the count one higher. */
  lemma NestedReturns(s: State, t: Tid)
    requires Inv(s) && t in s.threads && s.threads[t].pc == Outside && s.holder == Some(t)
    ensures Alone(s, t, Acquire, 4)
            == s.(repeat := s.repeat + 1, threads := s.threads[t := Local(Outside, s.threads[t].depth + 1)])
  {
    hide Inv; hide Alone; hide Step; hide Enabled;
    FreeLock(s, t);
    AtTwice(s, t, Outside, Local(Outside, 0));
    Moved(s, t, Acquire, Outside, s, AcquireTest, 4);
    Moved(s, t, Acquire, AcquireTest, s, IncRead, 3);
    Moved(s, t, Acquire, IncRead, s, IncWrite(s.repeat), 2);
    Finished(s, t, Acquire, IncWrite(s.repeat), s.repeat + 1, s.threads[t].depth + 1);
  }

  /** On a free lock it returns after six, as the holder. */
  lemma FreeReturns(s: State, t: Tid)
    requires Inv(s) && t in s.threads && s.threads[t].pc == Outside && s.value == 1
    ensures Alone(s, t, Acquire, 6)
            == s.(value := 0, holder := Some(t), repeat := 1, threads := s.threads[t := Local(Outside, 1)])
  {
    hide Inv; hide Alone; hide Step; hide Enabled;
    FreeLock(s, t);
    AtTwice(s, t, Outside, Local(Outside, 0));
    Moved(s, t, Acquire, Outside, s, AcquireTest, 6);
    Moved(s, t, Acquire, AcquireTest, s, DownTest, 5);
    Moved(s, t, Acquire, DownTest, s.(value := 0), SetHolder, 4);
    TakenReturns(s.(value := 0), t);
  }

  lemma TakenReturns(s: State, t: Tid)
    requires !s.halted && t in s.threads && s.threads[t].depth == 0 && s.repeat == 0
    ensures Alone(At(s, t, SetHolder), t, Acquire, 3)
            == s.(holder := Some(t), repeat := 1, threads := s.threads[t := Local(Outside, 1)])
  {
    hide Alone; hide Step; hide Enabled;
    var s2 := s.(holder := Some(t));
    Moved(s, t, Acquire, SetHolder, s2, CheckRepeat, 3);
    Moved(s2, t, Acquire, CheckRepeat, s2, SetRepeat, 2);
    Finished(s2, t, Acquire, SetRepeat, 1, 1);
  }

  /** Else it sleeps after three, last in line. */
  lemma BusySleeps(s: State, t: Tid)
    requires Inv(s) && t in s.threads && s.threads[t].pc == Outside && s.value == 0 && s.holder != Some(t)
    ensures Alone(s, t, Acquire, 3) == At(s.(waiters := s.waiters + [t]), t, Waiting)
  {
    hide Inv; hide Alone; hide Step; hide Enabled;
    FreeLock(s, t);
    AtTwice(s, t, Outside, Local(Outside, 0));
    Moved(s, t, Acquire, Outside, s, AcquireTest, 3);
    Moved(s, t, Acquire, AcquireTest, s, DownTest, 2);
    Moved(s, t, Acquire, DownTest, s.(waiters := s.waiters + [t]), Waiting, 1);
  }

  lemma FreeLock(s: State, t: Tid)
    requires Inv(s) && t in s.threads && s.threads[t].pc == Outside
    ensures !s.halted && s.value <= 1 && t !in s.waiters
    ensures s.value == 1 ==> s.holder != Some(t) && s.repeat == 0 && s.threads[t].depth == 0
    ensures s.holder == Some(t) ==> s.value == 0 && s.repeat == s.threads[t].depth > 0
    ensures s.waiters != [] ==> s.waiters[0] in s.threads && s.threads[s.waiters[0]].pc == Waiting
  {
    InvAt(s, t);
    if s.waiters != [] { assert s.waiters[0] in s.waiters; }
  }

  /** `lock_release` by a thread that acquired more than once returns after five turns with
      the count one lower. */
  lemma InnerReturns(s: State, t: Tid)
    requires Inv(s) && t in s.threads && s.threads[t].pc == Outside && s.holder == Some(t) && s.repeat > 1
    ensures Alone(s, t, Release, 5)
            == s.(repeat := s.repeat - 1, threads := s.threads[t := Local(Outside, s.threads[t].depth - 1)])
  {
    hide Inv; hide Alone; hide Step; hide Enabled;
    FreeLock(s, t);
    AtTwice(s, t, Outside, Local(Outside, 0));
    Moved(s, t, Release, Outside, s, ReleaseCheck, 5);
    Moved(s, t, Release, ReleaseCheck, s, ReleaseTest, 4);
    Moved(s, t, Release, ReleaseTest, s, DecRead, 3);
    Moved(s, t, Release, DecRead, s, DecWrite(s.repeat), 2);
    Finished(s, t, Release, DecWrite(s.repeat), s.repeat - 1, s.threads[t].depth - 1);
  }

  /** The last release returns after seven, with the lock free and the first sleeper awake. */
  lemma LastReturns(s: State, t: Tid)
    requires Inv(s) && t in s.threads && s.threads[t].pc == Outside && s.holder == Some(t) && s.repeat == 1
    ensures var s' := s.(value := 1, holder := None, repeat := 0);
            Alone(s, t, Release, 7)
            == if s.waiters == [] then s'.(threads := s.threads[t := Local(Outside, 0)])
               else
                 var w := s.waiters[0];
                 s'.(waiters := s.waiters[1..],
                     threads := s.threads[w := Local(Woken, s.threads[w].depth)][t := Local(Outside, 0)])
  {
    hide Inv; hide Alone; hide Step; hide Enabled; hide SemaUp;
    FreeLock(s, t);
    AtTwice(s, t, Outside, Local(Outside, 0));
    Moved(s, t, Release, Outside, s, ReleaseCheck, 7);
    Moved(s, t, Release, ReleaseCheck, s, ReleaseTest, 6);
    Moved(s, t, Release, ReleaseTest, s, CheckOne, 5);
    Moved(s, t, Release, CheckOne, s, ClearHolder, 4);
    ClearedReturns(s, t);
    UpWakes(s.(holder := None, repeat := 0), t);
  }

  lemma ClearedReturns(s: State, t: Tid)
    requires t in s.threads && !s.halted
    ensures Alone(At(s, t, ClearHolder), t, Release, 3) == SemaUp(At(s.(holder := None, repeat := 0), t, Up), t)
  {
    hide Alone; hide Step; hide Enabled; hide SemaUp;
    var s1, s2 := s.(holder := None), s.(holder := None, repeat := 0);
    Moved(s, t, Release, ClearHolder, s1, ClearRepeat, 3);
    Moved(s1, t, Release, ClearRepeat, s2, Up, 2);
    UpReturns(s2, t);
  }

  lemma UpReturns(s: State, t: Tid)
    requires t in s.threads && !s.halted
    ensures Alone(At(s, t, Up), t, Release, 1) == SemaUp(At(s, t, Up), t)
  {
    hide Alone; hide SemaUp; hide SemaDown;
    AloneStep(At(s, t, Up), t, Release, 1, SemaUp(At(s, t, Up), t));
  }

  lemma UpWakes(s: State, t: Tid)
    requires t in s.threads && s.value == 0 && s.threads[t].pc == Outside
    requires s.waiters != [] ==> s.waiters[0] in s.threads && s.threads[s.waiters[0]].pc == Waiting
    ensures var s' := s.(value := 1);
            SemaUp(At(s, t, Up), t)
            == if s.waiters == [] then s'.(threads := s.threads[t := Local(Outside, 0)])
               else
                 var w := s.waiters[0];
                 s'.(waiters := s.waiters[1..],
                     threads := s.threads[w := Local(Woken, s.threads[w].depth)][t := Local(Outside, 0)])
  {
    AtTwice(s, t, Up, Local(Outside, 0));
    if s.waiters != [] {
      var w := s.waiters[0];
      var woken := Local(Woken, s.threads[w].depth);
      assert s.threads[t := Local(Up, s.threads[t].depth)][w := woken][t := Local(Outside, 0)]
             == s.threads[w := woken][t := Local(Outside, 0)];
    }
  }

  /** No wakeup is lost: while anyone waits, a thread is inside the lock or a woken
      one has yet to test again, and that one can move. */
  lemma NoLostWakeup(tids: set<Tid>, schedule: seq<(Tid, Choice)>)
    ensures var s := Run(Init(tids), schedule);
            s.waiters != [] ==>
              exists t :: Enabled(s, t, Acquire) && (if s.value == 1 then s.threads[t].pc == Woken
                  else Inside(s.threads[t]))
  {
    InvRun(tids, schedule);
    var s := Run(Init(tids), schedule);
    if s.waiters != [] {
      if s.value == 1 {
        var t :| t in s.threads && s.threads[t].pc == Woken;
        assert Enabled(s, t, Acquire);
      } else {
        var t :| t in s.threads && Inside(s.threads[t]);
        assert Enabled(s, t, Acquire);
      }
    }
  }
}
