/** The ring buffer (device/ioqueue.c) and the pipe calls on it (shell/pipe.c). */
module Rings {
  const BUFSIZE := 2048
  const CAPACITY := BUFSIZE - 1

  // ---------------------------------------------------------------- one user at a time

  function NextPos(pos: nat): nat {
    (pos + 1) % BUFSIZE
  }

  function RingLength(head: nat, tail: nat): (n: nat)
    requires head < BUFSIZE && tail < BUFSIZE
    ensures n <= CAPACITY && (tail + n) % BUFSIZE == head
  {
    if head >= tail then head - tail else BUFSIZE - (tail - head)
  }

  /** The bytes from the read cursor to the write cursor. */
  function Queue(buf: seq<char>, head: nat, tail: nat): (q: seq<char>)
    requires |buf| == BUFSIZE && head < BUFSIZE && tail < BUFSIZE
    ensures |q| == RingLength(head, tail)
  {
    seq(RingLength(head, tail), (i: nat) => buf[(tail + i) % BUFSIZE])
  }

  lemma QueuePut(buf: seq<char>, head: nat, tail: nat, byte: char)
    requires |buf| == BUFSIZE && head < BUFSIZE && tail < BUFSIZE && NextPos(head) != tail
    ensures Queue(buf[head := byte], NextPos(head), tail) == Queue(buf, head, tail) + [byte]
  {
    var n := RingLength(head, tail);
    assert RingLength(NextPos(head), tail) == n + 1;
    var q, q' := Queue(buf, head, tail), Queue(buf[head := byte], NextPos(head), tail);
    forall i: nat | i < n ensures q'[i] == q[i] {
      assert (tail + i) % BUFSIZE != head;
    }
  }

  lemma QueueGet(buf: seq<char>, head: nat, tail: nat)
    requires |buf| == BUFSIZE && head < BUFSIZE && tail < BUFSIZE && head != tail
    ensures Queue(buf, head, tail) == [buf[tail]] + Queue(buf, head, NextPos(tail))
  {
    var q := Queue(buf, head, NextPos(tail));
    assert RingLength(head, tail) == |q| + 1;
    forall i: nat | i < |q| ensures q[i] == Queue(buf, head, tail)[i + 1] {
      assert (NextPos(tail) + i) % BUFSIZE == (tail + i + 1) % BUFSIZE;
    }
  }

  class IoQueue {
    const buf: array<char>
    var head: nat
    var tail: nat

    ghost predicate Valid()
      reads this
    {
      buf.Length == BUFSIZE && head < BUFSIZE && tail < BUFSIZE
    }

    ghost function Contents(): (q: seq<char>)
      requires Valid()
      reads this, buf
      ensures |q| <= CAPACITY
    {
      Queue(buf[..], head, tail)
    }

    constructor ()
      ensures Valid() && Contents() == [] && fresh(buf)
    {
      buf := new char[BUFSIZE];
      head, tail := 0, 0;
    }

    /** `ioq_length`. */
    method Length() returns (len: nat)
      requires Valid()
      ensures len == |Contents()|
    {
      if head >= tail {
        len := head - tail;
      } else {
        len := BUFSIZE - (tail - head);
      }
    }

    /** `ioq_putchar` up to the point where it would sleep. */
    method PutChar(byte: char) returns (waits: bool)
      requires Valid()
      modifies this`head, buf
      ensures Valid() && (waits <==> |old(Contents())| == CAPACITY)
      ensures Contents() == if waits then old(Contents()) else old(Contents()) + [byte]
    {
      waits := NextPos(head) == tail;
      if waits { return; }
      QueuePut(buf[..], head, tail, byte);
      ghost var was := buf[..];
      buf[head] := byte;
      assert buf[..] == was[head := byte];
      head := NextPos(head);
    }

    /** `ioq_getchar` up to the point where it would sleep. */
    method GetChar() returns (waits: bool, byte: char)
      requires Valid()
      modifies this`tail
      ensures Valid() && (waits <==> old(Contents()) == [])
      ensures if waits then Contents() == old(Contents()) else [byte] + Contents() == old(Contents())
    {
      byte := '\0';
      waits := head == tail;
      if waits { return; }
      QueueGet(buf[..], head, tail);
      byte := buf[tail];
      tail := NextPos(tail);
    }

    /** `pipe_read` takes what is there, up to `count`, and never sleeps. */
    method PipeRead(count: nat) returns (waits: bool, data: seq<char>)
      requires Valid()
      modifies this`tail
      ensures Valid() && !waits && data + Contents() == old(Contents())
      ensures |data| == if count < |old(Contents())| then count else |old(Contents())|
    {
      hide Queue;
      data, waits := [], false;
      var len := Length();
      var size := if len > count then count else len;
      while |data| < size
        invariant Valid() && |data| <= size && data + Contents() == old(Contents())
      {
        var byte;
        ghost var before := Contents();
        waits, byte := GetChar();
        if waits { return; }
        assert data + before == data + [byte] + Contents();
        data := data + [byte];
      }
    }

    /** `pipe_write` takes the room for one byte more than there is, so it sleeps exactly
        when asked for more than the free capacity. */
    method PipeWrite(data: seq<char>) returns (waits: bool, written: nat)
      requires Valid()
      modifies this`head, buf
      ensures Valid() && (waits <==> |data| > CAPACITY - |old(Contents())|)
      ensures written == (if waits then CAPACITY - |old(Contents())| else |data|)
      ensures written <= |data| && Contents() == old(Contents()) + data[..written]
    {
      hide Queue;
      written, waits := 0, false;
      var len := Length();
      var left := BUFSIZE - len;
      var size := if left > |data| then |data| else left;
      while written < size
        invariant Valid() && written <= size && written + len <= CAPACITY
        invariant Contents() == old(Contents()) + data[..written]
      {
        waits := PutChar(data[written]);
        if waits { return; }
        assert data[..written] + [data[written]] == data[..written + 1];
        written := written + 1;
      }
    }
  }

  /** An empty pipe has room for 2047 bytes; offered 2048, it takes 2047 and sleeps. */
  method PipeWriteSleeps(data: seq<char>) returns (waits: bool, written: nat)
    requires |data| == BUFSIZE
    ensures waits && written == CAPACITY
  {
    hide Queue;
    var q := new IoQueue();
    waits, written := q.PipeWrite(data);
  }

  // ---------------------------------------------------------------- many users

  /** Interrupts are off in `ioq_getchar` and `ioq_putchar`, so a thread runs until it
      blocks. `AtLock` has found the ring empty (or full) and not got the lock; `Asleep`
      holds it and is in its waiter slot; `Woken` holds it and has left the slot. */
  datatype Role = Taker | Giver(byte: char)
  datatype Pc = Away | AtLock(role: Role) | Asleep(role: Role) | Woken(role: Role)

  datatype State = State(
    queue: seq<char>,
    put: seq<char>,
    got: seq<char>,
    lock: int,
    producer: int,
    consumer: int,
    pc: seq<Pc>
  )

  const NOBODY := -1

  function Blocked(s: State, role: Role): bool {
    if role.Taker? then s.queue == [] else |s.queue| == CAPACITY
  }

  function Slot(s: State, role: Role): int {
    if role.Taker? then s.consumer else s.producer
  }

  function WithSlot(s: State, role: Role, t: int): State {
    if role.Taker? then s.(consumer := t) else s.(producer := t)
  }

  /** `wakeup`, if the slot is taken. The ASSERTs are `s.pc[..].Asleep?`. */
  function Wake(s: State, role: Role): State {
    var w := Slot(s, role);
    if 0 <= w < |s.pc| && s.pc[w].Asleep? then WithSlot(s, role, NOBODY).(pc := s.pc[w := Woken(s.pc[w].role)])
    else s
  }

  /** The byte moves, and the other side is woken. */
  function Move(s: State, role: Role): State
  {
    if role.Taker?
    then if s.queue == [] then s
         else Wake(s.(queue := s.queue[1..], got := s.got + [s.queue[0]]), Giver('\0'))
    else Wake(s.(queue := s.queue + [role.byte], put := s.put + [role.byte]), Taker)
  }

  /** `lock_acquire` and `ioq_wait`, by a thread that found the ring blocked. */
  function TryLock(s: State, t: nat, role: Role): State
    requires t < |s.pc|
  {
    if s.lock == NOBODY then WithSlot(s, role, t).(lock := t, pc := s.pc[t := Asleep(role)])
    else s.(pc := s.pc[t := AtLock(role)])
  }

  /** The loop test, then either the move or another wait. */
  function Test(s: State, t: nat, role: Role): State
    requires t < |s.pc|
  {
    if Blocked(s, role) then TryLock(s, t, role) else Move(s.(pc := s.pc[t := Away]), role)
  }

  /** One turn of thread t; a thread that is away calls with `role`. A sleeper has none. */
  function Turn(s: State, t: nat, role: Role): State
    requires t < |s.pc|
  {
    match s.pc[t]
    case Away => Test(s, t, role)
    case AtLock(r) => TryLock(s, t, r)
    case Asleep(_) => s
    case Woken(r) => Test(s.(lock := NOBODY), t, r)
  }

  predicate Holds(p: Pc) {
    p.Asleep? || p.Woken?
  }

  /** What the waiter slots and the lock say about each thread. */
  ghost predicate ThreadOk(s: State, t: nat)
    requires t < |s.pc|
  {
    && (Holds(s.pc[t]) <==> s.lock == t)
    && (s.pc[t].Asleep? && s.pc[t].role.Taker? <==> s.consumer == t)
    && (s.pc[t].Asleep? && s.pc[t].role.Giver? <==> s.producer == t)
  }

  ghost predicate Inv(s: State) {
    && |s.queue| <= CAPACITY && s.put == s.got + s.queue
    && (forall t: nat :: t < |s.pc| ==> ThreadOk(s, t))
    && -1 <= s.lock < |s.pc| && -1 <= s.producer < |s.pc| && -1 <= s.consumer < |s.pc|
  }

  lemma InvTry(s: State, t: nat, role: Role)
    requires Inv(s) && t < |s.pc| && !Holds(s.pc[t])
    ensures Inv(TryLock(s, t, role))
  {
    assert ThreadOk(s, t);
    var s' := TryLock(s, t, role);
    forall u: nat | u < |s.pc| ensures ThreadOk(s', u) { assert ThreadOk(s, u); }
  }

  lemma InvMove(s: State, t: nat, role: Role)
    requires Inv(s) && t < |s.pc| && !Holds(s.pc[t]) && !Blocked(s, role)
    ensures Inv(Move(s.(pc := s.pc[t := Away]), role))
  {
    assert ThreadOk(s, t);
    var s0 := s.(pc := s.pc[t := Away]);
    var s' := Move(s0, role);
    forall u: nat | u < |s.pc| ensures ThreadOk(s0, u) { assert ThreadOk(s, u); }
    forall u: nat | u < |s.pc| ensures ThreadOk(s', u) { assert ThreadOk(s0, u); }
  }

  /** Between turns: what was taken and what is queued is what was put, in order, and a
      sleeper holds the lock. */
  lemma InvTurn(s: State, t: nat, role: Role)
    requires Inv(s) && t < |s.pc|
    ensures Inv(Turn(s, t, role))
  {
    hide Move; hide TryLock;
    match s.pc[t]
    case Away =>
      if Blocked(s, role) { InvTry(s, t, role); } else { InvMove(s, t, role); }
    case AtLock(r) =>
      InvTry(s, t, r);
    case Asleep(_) =>
    case Woken(r) =>
      var s0 := s.(lock := NOBODY, pc := s.pc[t := Away]);
      assert ThreadOk(s, t);
      forall u: nat | u < |s.pc| ensures ThreadOk(s0, u) { assert ThreadOk(s, u); }
      assert Test(s.(lock := NOBODY), t, r) == Test(s0, t, r) by { SamePc(s.(lock := NOBODY), t, r); }
      if Blocked(s0, r) { InvTry(s0, t, r); } else { InvMove(s0, t, r); }
  }

  lemma SamePc(s: State, t: nat, role: Role)
    requires t < |s.pc|
    ensures Test(s, t, role) == Test(s.(pc := s.pc[t := Away]), t, role)
  {
    hide Wake;
    assert s.pc[t := Away][t := Away] == s.pc[t := Away];
    assert s.pc[t := Away][t := Asleep(role)] == s.pc[t := Asleep(role)];
    assert s.pc[t := Away][t := AtLock(role)] == s.pc[t := AtLock(role)];
  }

  /** What a turn does, by the role of the thread. It returns if and only if it tests the ring
      and finds it usable. A giver's byte then is the last one put, a taker's the first one
      queued; nobody is left asleep on the other side; and a turn that does not return moves no
      byte. */
  lemma TurnMoves(s: State, t: nat, role: Role)
    requires Inv(s) && t < |s.pc| && !s.pc[t].Asleep?
    ensures var s', r := Turn(s, t, role), if s.pc[t].Away? then role else s.pc[t].role;
            if s.pc[t].AtLock? || Blocked(s, r)
            then s'.pc[t] != Away && s'.put == s.put && s'.got == s.got && s'.queue == s.queue
            else
              && s'.pc[t] == Away
              && (match r
                  case Giver(byte) => s'.put == s.put + [byte] && s'.got == s.got && s'.consumer == NOBODY
                  case Taker =>
                    s.queue != [] && s'.got == s.got + [s.queue[0]] && s'.put == s.put && s'.producer == NOBODY)
  {
    var r := if s.pc[t].Away? then role else s.pc[t].role;
    var s1 := (if s.pc[t].Woken? then s.(lock := NOBODY) else s).(pc := s.pc[t := Away]);
    if !s.pc[t].AtLock? && !Blocked(s, r) {
      assert ThreadOk(s, t);
      if 0 <= s.consumer { assert ThreadOk(s, s.consumer); }
      if 0 <= s.producer { assert ThreadOk(s, s.producer); }
      MoveLeaves(s1, t, r);
    }
  }

  function Start(n: nat): State {
    State([], [], [], NOBODY, NOBODY, NOBODY, seq(n, _ => Away))
  }

  /** Any number of turns of any threads. */
  function Run(s: State, turns: seq<(nat, Role)>): (s': State)
    ensures |s'.pc| == |s.pc|
    decreases turns
  {
    if turns == [] then s
    else
      var (t, role) := turns[0];
      Run(if t < |s.pc| then Turn(s, t, role) else s, turns[1..])
  }

  lemma {:induction false} InvRun(s: State, turns: seq<(nat, Role)>)
    requires Inv(s)
    ensures Inv(Run(s, turns))
    decreases turns
  {
    if turns != [] {
      var (t, role) := turns[0];
      if t < |s.pc| { InvTurn(s, t, role); }
      InvRun(if t < |s.pc| then Turn(s, t, role) else s, turns[1..]);
    }
  }

  /** Over every run of every number of threads: bytes come out in the order they went in,
      the ring never holds more than 2047, at most one waiter slot is taken, by a sleeper
      that holds the lock, and a thread that gets the lock finds its slot empty. */
  lemma RingSafety(n: nat, turns: seq<(nat, Role)>)
    ensures var s := Run(Start(n), turns);
            && s.got <= s.put && s.put == s.got + s.queue && |s.queue| <= CAPACITY
            && (s.producer == NOBODY || s.consumer == NOBODY)
            && (forall role :: Slot(s, role) != NOBODY ==>
                0 <= Slot(s, role) < n && s.pc[Slot(s, role)].Asleep? && s.lock == Slot(s, role))
            && (s.lock == NOBODY ==> s.producer == NOBODY && s.consumer == NOBODY)
  {
    InvRun(Start(n), turns);
    var s := Run(Start(n), turns);
    if s.producer != NOBODY { assert ThreadOk(s, s.producer); }
    if s.consumer != NOBODY { assert ThreadOk(s, s.consumer); }
  }

  /** The ring is not tested again between getting the lock and going to sleep. So a thread
      goes to sleep on a ring it could use exactly when it had to wait for the lock and the
      ring changed meanwhile. */
  lemma SleepsOnUsableIff(s: State, t: nat, role: Role)
    requires Inv(s) && t < |s.pc| && !s.pc[t].Asleep?
    ensures var s' := Turn(s, t, role);
            s'.pc[t].Asleep? && !Blocked(s', s'.pc[t].role)
            <==> s.pc[t].AtLock? && s.lock == NOBODY && !Blocked(s, s.pc[t].role)
  {
    var r := if s.pc[t].Away? then role else s.pc[t].role;
    var s1 := (if s.pc[t].Woken? then s.(lock := NOBODY) else s).(pc := s.pc[t := Away]);
    if !Blocked(s, r) && !s.pc[t].AtLock? {
      MoveLeaves(s1, t, r);
    }
  }

  lemma MoveLeaves(s: State, t: nat, role: Role)
    requires t < |s.pc| && s.pc[t] == Away
    ensures Move(s, role).pc[t] == Away
  {
  }

  /** Two takers and a giver: one byte is left, and a taker sleeps. */
  lemma SleepsOnUsableExample()
    ensures var s := Run(Start(3), [(0, Taker), (1, Taker), (2, Giver('a')), (2, Giver('b')), (0, Taker), (1, Taker)]);
            s.queue == ['b'] && s.consumer == 1 && s.pc[1] == Asleep(Taker) && s.pc[0] == Away && s.pc[2] == Away
  {
    var s0 := Start(3);
    var s1 := Turn(s0, 0, Taker);
    var s2 := Turn(s1, 1, Taker);
    var s3 := Turn(s2, 2, Giver('a'));
    var s4 := Turn(s3, 2, Giver('b'));
    var s5 := Turn(s4, 0, Taker);
    var s6 := Turn(s5, 1, Taker);
    assert s3.pc == [Woken(Taker), AtLock(Taker), Away];
    assert s5.queue == ['b'];
    RunOne(s5, 1, Taker, []);
    RunOne(s4, 0, Taker, [(1, Taker)]);
    RunOne(s3, 2, Giver('b'), [(0, Taker), (1, Taker)]);
    RunOne(s2, 2, Giver('a'), [(2, Giver('b')), (0, Taker), (1, Taker)]);
    RunOne(s1, 1, Taker, [(2, Giver('a')), (2, Giver('b')), (0, Taker), (1, Taker)]);
    RunOne(s0, 0, Taker, [(1, Taker), (2, Giver('a')), (2, Giver('b')), (0, Taker), (1, Taker)]);
  }

  lemma RunOne(s: State, t: nat, role: Role, rest: seq<(nat, Role)>)
    requires t < |s.pc|
    ensures Run(s, [(t, role)] + rest) == Run(Turn(s, t, role), rest)
  {
    assert ([(t, role)] + rest)[1..] == rest;
  }
}
