/** The round-robin scheduler, blocking, and semaphore wait lists (thread/thread.c,
    thread/sync.c, device/timer.c). Every method runs with interrupts off, as one step;
    the kernel's ASSERTs are `assert` statements, so they are proved never to fire. */
module Scheduling {
  import opened Queues

  type Tid = nat

  datatype Status = Running | Ready | Blocked | WaitingForChild | Hanging | Died
  datatype Task = Task(status: Status, ticks: nat, priority: nat, elapsed: nat)
  datatype Sema = Sema(value: nat, waiters: seq<Tid>)

  predicate IsBlocked(s: Status) {
    s == Blocked || s == WaitingForChild || s == Hanging
  }

  // ---------------------------------------------------------------- turns

  /** Who runs and who is ready. */
  datatype Turns = Turns(cur: Tid, ready: seq<Tid>)

  /** One `schedule`: a thread whose time is up goes to the back, the front runs, and
      an empty queue runs idle. */
  function Turn(q: Turns, requeue: bool, idle: Tid): Turns {
    var ready := if requeue then q.ready + [q.cur] else q.ready;
    if ready == [] then Turns(idle, []) else Turns(ready[0], ready[1..])
  }

  function TurnsAfter(q: Turns, requeue: seq<bool>, idle: Tid): Turns
    decreases |requeue|
  {
    if requeue == [] then q else TurnsAfter(Turn(q, requeue[0], idle), requeue[1..], idle)
  }

  /** Round robin: the thread at place k of the queue runs after exactly k + 1 turns,
      whatever the threads before it do, and moves up one place with each. */
  lemma {:induction false} RunsInTurn(q: Turns, requeue: seq<bool>, idle: Tid, k: nat)
    requires k < |q.ready| && |requeue| <= k + 1
    ensures var after := TurnsAfter(q, requeue, idle);
            if |requeue| == k + 1 then after.cur == q.ready[k]
            else k - |requeue| < |after.ready| && after.ready[k - |requeue|] == q.ready[k]
    decreases |requeue|
  {
    if requeue != [] {
      var next := Turn(q, requeue[0], idle);
      if k == 0 {
        assert requeue[1..] == [];
        assert next.cur == q.ready[0];
      } else {
        assert next.ready[k - 1] == q.ready[k];
        RunsInTurn(next, requeue[1..], idle, k - 1);
      }
    }
  }

  // ---------------------------------------------------------------- the lists

  /** The ready list is exactly the READY threads, each once. */
  ghost predicate ReadyOk(tasks: map<Tid, Task>, ready: seq<Tid>) {
    && Distinct(ready)
    && (forall t :: t in ready ==> t in tasks)
    && (forall t :: t in tasks ==> (t in ready <==> tasks[t].status == Ready))
  }

  /** A thread sleeps in at most one wait list, once, and then it is BLOCKED; idle
      sleeps in none. */
  ghost predicate WaitsOk(tasks: map<Tid, Task>, semas: map<nat, Sema>, idle: Tid) {
    && (forall s :: s in semas ==> Distinct(semas[s].waiters))
    && (forall s, t :: Sleeps(semas, s, t) ==> t in tasks && tasks[t].status == Blocked && t != idle)
    && (forall s, r, t :: Sleeps(semas, s, t) && Sleeps(semas, r, t) ==> s == r)
  }

  predicate Sleeps(semas: map<nat, Sema>, s: nat, t: Tid) {
    s in semas && t in semas[s].waiters
  }

  ghost predicate InNoList(semas: map<nat, Sema>, t: Tid) {
    forall s :: !Sleeps(semas, s, t)
  }

  lemma ReadyAppend(tasks: map<Tid, Task>, ready: seq<Tid>, t: Tid, task: Task)
    requires ReadyOk(tasks, ready) && t !in ready && task.status == Ready
    ensures ReadyOk(tasks[t := task], ready + [t]) && ReadyOk(tasks[t := task], [t] + ready)
  {
  }

  lemma ReadyPop(tasks: map<Tid, Task>, ready: seq<Tid>, task: Task)
    requires ReadyOk(tasks, ready) && ready != [] && task.status != Ready
    ensures ready[0] in tasks && tasks[ready[0]].status == Ready
    ensures ReadyOk(tasks[ready[0] := task], ready[1..])
  {
  }

  lemma ReadyKept(tasks: map<Tid, Task>, ready: seq<Tid>, t: Tid, task: Task)
    requires ReadyOk(tasks, ready) && t !in ready && task.status != Ready
    ensures ReadyOk(tasks[t := task], ready) && ReadyOk(tasks - {t}, ready)
  {
  }

  lemma ReadyStatus(tasks: map<Tid, Task>, ready: seq<Tid>, t: Tid)
    requires ReadyOk(tasks, ready)
    ensures t in ready <==> t in tasks && tasks[t].status == Ready
  {
  }

  lemma WaitsKept(tasks: map<Tid, Task>, semas: map<nat, Sema>, idle: Tid, t: Tid, task: Task)
    requires WaitsOk(tasks, semas, idle) && InNoList(semas, t)
    ensures WaitsOk(tasks[t := task], semas, idle) && WaitsOk(tasks - {t}, semas, idle)
  {
  }

  /** A thread that is not BLOCKED sleeps nowhere. */
  lemma Awake(tasks: map<Tid, Task>, semas: map<nat, Sema>, idle: Tid, t: Tid)
    requires WaitsOk(tasks, semas, idle)
    requires t == idle || t !in tasks || tasks[t].status != Blocked
    ensures InNoList(semas, t)
  {
  }

  lemma WaitsAdd(tasks: map<Tid, Task>, semas: map<nat, Sema>, idle: Tid, s: nat, t: Tid, task: Task)
    requires WaitsOk(tasks, semas, idle) && s in semas && InNoList(semas, t) && t != idle && task.status == Blocked
    ensures WaitsOk(tasks[t := task], semas[s := semas[s].(waiters := semas[s].waiters + [t])], idle)
  {
    var semas' := semas[s := semas[s].(waiters := semas[s].waiters + [t])];
    assert !Sleeps(semas, s, t);
    DistinctAppend(semas[s].waiters, t);
    hide Distinct;
    forall r, u ensures Sleeps(semas', r, u) <==> Sleeps(semas, r, u) || (r == s && u == t) { }
  }

  lemma WaitsPop(tasks: map<Tid, Task>, semas: map<nat, Sema>, idle: Tid, s: nat, value: nat)
    requires WaitsOk(tasks, semas, idle) && s in semas && semas[s].waiters != []
    ensures var q, semas' := semas[s].waiters, semas[s := Sema(value, semas[s].waiters[1..])];
            && WaitsOk(tasks, semas', idle) && InNoList(semas', q[0])
            && q[0] in tasks && tasks[q[0]].status == Blocked && q[0] != idle
  {
    hide Distinct;
    var q := semas[s].waiters;
    var semas' := semas[s := Sema(value, q[1..])];
    PopFirst(q);
    assert Sleeps(semas, s, q[0]);
    forall r, u ensures Sleeps(semas', r, u) <==> Sleeps(semas, r, u) && !(r == s && u == q[0]) { }
  }

  lemma WaitsValue(tasks: map<Tid, Task>, semas: map<nat, Sema>, idle: Tid, s: nat, value: nat)
    requires WaitsOk(tasks, semas, idle) && s in semas
    ensures WaitsOk(tasks, semas[s := Sema(value, semas[s].waiters)], idle)
    ensures forall t :: InNoList(semas, t) ==> InNoList(semas[s := Sema(value, semas[s].waiters)], t)
  {
    hide Distinct;
    var semas' := semas[s := Sema(value, semas[s].waiters)];
    forall r, u ensures Sleeps(semas', r, u) <==> Sleeps(semas, r, u) { }
  }

  /** A running thread whose time is up becomes ready with a full slice. */
  function Expire(tasks: map<Tid, Task>, t: Tid): map<Tid, Task> {
    if t in tasks && tasks[t].status == Running
    then tasks[t := tasks[t].(status := Ready, ticks := tasks[t].priority)]
    else tasks
  }

  /** `next` gets the processor. */
  function Dispatch(tasks: map<Tid, Task>, next: Tid): map<Tid, Task> {
    if next in tasks then tasks[next := tasks[next].(status := Running)] else tasks
  }

  // ---------------------------------------------------------------- the scheduler

  class Scheduler {
    const idle: Tid
    var tasks: map<Tid, Task>
    var ready: seq<Tid>
    var cur: Tid
    var semas: map<nat, Sema>

    ghost predicate IdleOk()
      reads this
    {
      idle in tasks && (tasks[idle].status == Running || tasks[idle].status == Ready || tasks[idle].status == Blocked)
    }

    /** Between steps exactly one thread is RUNNING, the current one. */
    ghost predicate Valid()
      reads this
    {
      && ReadyOk(tasks, ready) && WaitsOk(tasks, semas, idle) && IdleOk()
      && cur in tasks && forall t :: t in tasks ==> (tasks[t].status == Running <==> t == cur)
    }

    /** On entry to `schedule` the current thread may have given up the processor. */
    ghost predicate Switching()
      reads this
    {
      && ReadyOk(tasks, ready) && WaitsOk(tasks, semas, idle) && IdleOk()
      && forall t :: t in tasks && tasks[t].status == Running ==> t == cur
    }

    ghost function Queue(): Turns
      reads this
    {
      Turns(cur, ready)
    }

    constructor (main: Tid, mainTask: Task, idle: Tid, idleTask: Task, semas: map<nat, Sema>)
      requires main != idle && mainTask.status == Running && idleTask.status == Ready
      requires forall s :: s in semas ==> semas[s].waiters == []
      ensures Valid() && cur == main && ready == [idle] && this.idle == idle
    {
      this.idle := idle;
      tasks := map[main := mainTask, idle := idleTask];
      ready := [idle];
      cur := main;
      this.semas := semas;
    }

    method ThreadUnblock(t: Tid)
      requires ReadyOk(tasks, ready) && WaitsOk(tasks, semas, idle) && IdleOk()
      requires t in tasks && IsBlocked(tasks[t].status)
      requires InNoList(semas, t)
      requires t == idle ==> tasks[t].status == Blocked
      modifies this`tasks, this`ready
      ensures ReadyOk(tasks, ready) && WaitsOk(tasks, semas, idle) && IdleOk()
      ensures ready == [t] + old(ready) && tasks == old(tasks)[t := old(tasks)[t].(status := Ready)]
    {
      hide ReadyOk; hide WaitsOk; hide InNoList;
      ReadyStatus(tasks, ready, t);
      assert t !in ready;
      ReadyAppend(tasks, ready, t, tasks[t].(status := Ready));
      WaitsKept(tasks, semas, idle, t, tasks[t].(status := Ready));
      ready := [t] + ready;
      tasks := tasks[t := tasks[t].(status := Ready)];
    }

    method Schedule()
      requires Switching()
      modifies this`tasks, this`ready, this`cur
      ensures Valid()
      ensures Queue() == Turn(old(Queue()), old(cur in tasks && tasks[cur].status == Running), idle)
      ensures cur in tasks && tasks == Dispatch(Expire(old(tasks), old(cur)), cur)
      ensures tasks.Keys == old(tasks.Keys)
      ensures old(cur in tasks && tasks[cur].status == Running) ==>
                && tasks[old(cur)].ticks == old(tasks)[old(cur)].priority
                && (cur != old(cur) ==> tasks[old(cur)].status == Ready)
      ensures old(cur in tasks && tasks[cur].status != Running) && cur != old(cur) ==>
                tasks[old(cur)] == old(tasks)[old(cur)]
      ensures forall t :: t in tasks && t != old(cur) ==>
                tasks[t] == if t == cur then old(tasks)[t].(status := Running) else old(tasks)[t]
    {
      hide ReadyOk; hide WaitsOk; hide InNoList;
      if cur in tasks && tasks[cur].status == Running {
        ReadyStatus(tasks, ready, cur);
        assert cur !in ready;
        ghost var task := tasks[cur].(status := Ready, ticks := tasks[cur].priority);
        ReadyAppend(tasks, ready, cur, task);
        Awake(tasks, semas, idle, cur);
        WaitsKept(tasks, semas, idle, cur, task);
        ready := ready + [cur];
        tasks := tasks[cur := tasks[cur].(status := Ready, ticks := tasks[cur].priority)];
      }
      if ready == [] {
        ReadyStatus(tasks, ready, idle);
        Awake(tasks, semas, idle, idle);
        ThreadUnblock(idle);
      }
      assert ready != [];
      var next := ready[0];
      ReadyPop(tasks, ready, Task(Running, 0, 0, 0));
      ReadyPop(tasks, ready, tasks[next].(status := Running));
      Awake(tasks, semas, idle, next);
      WaitsKept(tasks, semas, idle, next, tasks[next].(status := Running));
      ready := ready[1..];
      tasks := tasks[next := tasks[next].(status := Running)];
      cur := next;
    }

    method ThreadBlock(status: Status)
      requires Valid() && IsBlocked(status) && (cur == idle ==> status == Blocked)
      modifies this`tasks, this`ready, this`cur
      ensures Valid() && Queue() == Turn(old(Queue()), false, idle)
      ensures tasks == Dispatch(old(tasks)[old(cur) := old(tasks)[old(cur)].(status := status)], cur)
    {
      hide ReadyOk; hide WaitsOk; hide InNoList;
      ReadyStatus(tasks, ready, cur);
      Awake(tasks, semas, idle, cur);
      ReadyKept(tasks, ready, cur, tasks[cur].(status := status));
      WaitsKept(tasks, semas, idle, cur, tasks[cur].(status := status));
      tasks := tasks[cur := tasks[cur].(status := status)];
      Schedule();
    }

    method ThreadYield()
      requires Valid()
      modifies this`tasks, this`ready, this`cur
      ensures Valid() && Queue() == Turn(old(Queue()), true, idle)
      ensures tasks == Dispatch(old(tasks)[old(cur) := old(tasks)[old(cur)].(status := Ready)], cur)
    {
      hide ReadyOk; hide WaitsOk; hide InNoList;
      ReadyStatus(tasks, ready, cur);
      assert cur !in ready;
      Awake(tasks, semas, idle, cur);
      ReadyAppend(tasks, ready, cur, tasks[cur].(status := Ready));
      WaitsKept(tasks, semas, idle, cur, tasks[cur].(status := Ready));
      ready := ready + [cur];
      tasks := tasks[cur := tasks[cur].(status := Ready)];
      Schedule();
    }

    /** The clock: a thread runs until its ticks are used up. */
    method TimerTick()
      requires Valid()
      modifies this`tasks, this`ready, this`cur
      ensures Valid()
      ensures Queue() == if old(tasks)[old(cur)].ticks == 0 then Turn(old(Queue()), true, idle) else old(Queue())
      ensures var was := old(tasks)[old(cur)];
              var ticked := was.(elapsed := was.elapsed + 1);
              tasks == if was.ticks == 0 then Dispatch(Expire(old(tasks)[old(cur) := ticked], old(cur)), cur)
                       else old(tasks)[old(cur) := ticked.(ticks := was.ticks - 1)]
      ensures var was := old(tasks)[old(cur)];
              && old(cur) in tasks && tasks[old(cur)].elapsed == was.elapsed + 1
              && tasks[old(cur)].ticks == (if was.ticks == 0 then was.priority else was.ticks - 1)
              && (forall t :: t in old(tasks) && t != old(cur) && t != cur ==> t in tasks && tasks[t] == old(tasks)[t])
              && (cur != old(cur) ==>
                    && was.ticks == 0 && tasks[old(cur)].status == Ready
                    && cur in old(tasks) && tasks[cur] == old(tasks)[cur].(status := Running))
    {
      hide ReadyOk; hide WaitsOk; hide InNoList;
      ReadyStatus(tasks, ready, cur);
      Awake(tasks, semas, idle, cur);
      ghost var ticked := tasks[cur].(elapsed := tasks[cur].elapsed + 1);
      ReadyKept(tasks, ready, cur, ticked);
      WaitsKept(tasks, semas, idle, cur, ticked);
      if ticked.ticks > 0 {
        ReadyKept(tasks[cur := ticked], ready, cur, ticked.(ticks := ticked.ticks - 1));
        WaitsKept(tasks[cur := ticked], semas, idle, cur, ticked.(ticks := ticked.ticks - 1));
      }
      tasks := tasks[cur := tasks[cur].(elapsed := tasks[cur].elapsed + 1)];
      if tasks[cur].ticks == 0 {
        Schedule();
      } else {
        tasks := tasks[cur := tasks[cur].(ticks := tasks[cur].ticks - 1)];
      }
    }

    /** A new thread, from `thread_start`, `process_execute` or `sys_fork`. */
    method ThreadStart(t: Tid, task: Task)
      requires Valid() && t !in tasks && task.status == Ready
      modifies this`tasks, this`ready
      ensures Valid() && tasks == old(tasks)[t := task] && ready == old(ready) + [t]
    {
      hide ReadyOk; hide WaitsOk; hide InNoList;
      ReadyStatus(tasks, ready, t);
      assert t !in ready;
      Awake(tasks, semas, idle, t);
      ReadyAppend(tasks, ready, t, task);
      WaitsKept(tasks, semas, idle, t, task);
      ready := ready + [t];
      tasks := tasks[t := task];
    }

    /** `thread_exit` of another thread, which may still be ready. */
    method ThreadExit(t: Tid)
      requires Valid() && t in tasks && t != cur && t != idle
      requires InNoList(semas, t)
      modifies this`tasks, this`ready
      ensures Valid() && tasks == old(tasks) - {t}
      ensures ready == Without(old(ready), t) && (t !in old(ready) ==> ready == old(ready))
      ensures forall k :: 0 <= k < |old(ready)| && old(ready)[k] == t ==> ready == old(ready)[..k] + old(ready)[k + 1..]
    {
      hide ReadyOk; hide WaitsOk; hide InNoList;
      ReadyOrder(tasks, ready, t);
      ReadyRemove(tasks, ready, t);
      WaitsKept(tasks, semas, idle, t, tasks[t]);
      if t in ready {
        ready := Without(ready, t);
      }
      tasks := tasks - {t};
    }

    /** `thread_exit` of the current thread, which goes on to schedule. */
    method ThreadExitSelf()
      requires Valid() && cur != idle
      modifies this`tasks, this`ready, this`cur
      ensures Valid() && tasks == Dispatch(old(tasks) - {old(cur)}, cur)
      ensures Queue() == Turn(old(Queue()), false, idle)
    {
      hide ReadyOk; hide WaitsOk; hide InNoList;
      ReadyStatus(tasks, ready, cur);
      Awake(tasks, semas, idle, cur);
      ReadyKept(tasks, ready, cur, tasks[cur]);
      WaitsKept(tasks, semas, idle, cur, tasks[cur]);
      tasks := tasks - {cur};
      Schedule();
    }

    /** One pass through the loop of `sema_down`. */
    method SemaDown(s: nat) returns (taken: bool)
      requires Valid() && s in semas && cur != idle && semas[s].value <= 1
      modifies this`tasks, this`ready, this`cur, this`semas
      ensures Valid() && taken == (old(semas)[s].value == 1)
      ensures taken ==>
                && semas == old(semas)[s := Sema(0, old(semas)[s].waiters)]
                && Queue() == old(Queue()) && tasks == old(tasks)
      ensures !taken ==> semas == old(semas)[s := Sema(0, old(semas)[s].waiters + [old(cur)])]
                         && Queue() == Turn(old(Queue()), false, idle)
                         && tasks == Dispatch(old(tasks)[old(cur) := old(tasks)[old(cur)].(status := Blocked)], cur)
    {
      taken := semas[s].value != 0;
      Awake(tasks, semas, idle, cur);
      ReadyStatus(tasks, ready, cur);
      if !taken {
        assert !Sleeps(semas, s, cur);
        hide ReadyOk; hide WaitsOk; hide InNoList;
        ReadyKept(tasks, ready, cur, tasks[cur].(status := Blocked));
        WaitsAdd(tasks, semas, idle, s, cur, tasks[cur].(status := Blocked));
        semas := semas[s := semas[s].(waiters := semas[s].waiters + [cur])];
        tasks := tasks[cur := tasks[cur].(status := Blocked)];
        Schedule();
      } else {
        WaitsValue(tasks, semas, idle, s, semas[s].value - 1);
        semas := semas[s := semas[s].(value := semas[s].value - 1)];
      }
    }

    method SemaUp(s: nat)
      requires Valid() && s in semas && semas[s].value == 0
      modifies this`tasks, this`ready, this`semas
      ensures Valid()
      ensures var q := old(semas)[s].waiters;
              if q == [] then semas == old(semas)[s := Sema(1, [])] && ready == old(ready) && tasks == old(tasks)
              else
                && semas == old(semas)[s := Sema(1, q[1..])] && ready == [q[0]] + old(ready)
                && q[0] in old(tasks) && tasks == old(tasks)[q[0] := old(tasks)[q[0]].(status := Ready)]
    {
      hide ReadyOk; hide WaitsOk; hide InNoList;
      var q := semas[s].waiters;
      if q != [] {
        WaitsPop(tasks, semas, idle, s, 0);
        semas := semas[s := Sema(0, q[1..])];
        ThreadUnblock(q[0]);
      }
      WaitsValue(tasks, semas, idle, s, semas[s].value + 1);
      semas := semas[s := semas[s].(value := semas[s].value + 1)];
    }
  }

  lemma ReadyOrder(tasks: map<Tid, Task>, ready: seq<Tid>, t: Tid)
    requires ReadyOk(tasks, ready)
    ensures forall k :: 0 <= k < |ready| && ready[k] == t ==> Without(ready, t) == ready[..k] + ready[k + 1..]
  {
    hide Distinct;
    forall k | 0 <= k < |ready| && ready[k] == t ensures Without(ready, t) == ready[..k] + ready[k + 1..] {
      WithoutAt(ready, k);
    }
  }

  lemma ReadyRemove(tasks: map<Tid, Task>, ready: seq<Tid>, t: Tid)
    requires ReadyOk(tasks, ready)
    ensures ReadyOk(tasks - {t}, Without(ready, t)) && (t !in ready ==> Without(ready, t) == ready)
  {
    hide Distinct;
    WithoutIs(ready, t);
  }
}
