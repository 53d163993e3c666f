/**
 The scheduler (threads/thread.c) and the synchronization primitives (threads/synch.c) as one step system.

 There is one processor. A section that runs with interrupts off is one step; between steps the timer may
 take the processor away. What a thread is in the middle of is recorded in its control point, so that a
 run of this system is any interleaving of any number of threads that call these functions in any order.
 Kernel assertions (a lock released by a thread that does not hold it, say) stop the machine: a step that
 would fail one is not enabled.
 */
module Threads {
  import opened Basics

  type Tid = nat

  datatype Status = Running | Ready | Blocked | Dying

  /** A condition variable; each one goes with a single lock. */
  datatype Cond = Cond(lock: nat, id: nat)

  /** A semaphore of its own, the one inside a lock, or the one a thread keeps on its stack in cond_wait. */
  datatype Sema = Plain(id: nat) | OfLock(lock: nat) | Waiter(owner: Tid)

  /** `initial`, `ups` and `downs` record the history of the semaphore since sema_init. */
  datatype SemaState = SemaState(value: nat, waiters: seq<Tid>, initial: nat, ups: nat, downs: nat)

  /** `signaled` and `returned` count the waiters taken off the queue and the calls of cond_wait that came back. */
  datatype CondState = CondState(queue: seq<Tid>, signaled: nat, returned: nat)

  /** What follows a completed sema_down. */
  datatype After =
    | Return                                    // sema_down itself
    | Acquired(lock: nat, wait: Option<Cond>)   // in lock_acquire, called directly or at the end of cond_wait
    | Signaled(cond: Cond)                      // in cond_wait: the lock is still to be taken again

  /** The point a thread has reached; it is the next thing the thread does when it runs. */
  datatype Point =
    | User                                          // outside these functions
    | Unborn                                        // set up by thread_create, not yet unblocked
    | Creating(child: Tid)                          // in thread_create, about to unblock the new thread
    | IdleLoop                                      // the idle thread, about to block
    | Down(sema: Sema, slept: bool, after: After)   // in sema_down, about to test the value
    | SetHolder(lock: nat, wait: Option<Cond>)      // in lock_acquire, after sema_down
    | Releasing(cond: Cond)                         // in cond_wait, queued, about to release the lock
    | UpLock(lock: nat, wait: Option<Cond>)         // in lock_release, holder cleared, about to sema_up
    | Signaling(cond: Cond, waiter: Tid, all: Option<(seq<Tid>, seq<Tid>)>)  // waiter off the queue, about to sema_up
    | Broadcasting(cond: Cond, whole: seq<Tid>, done: seq<Tid>)              // at the loop test of cond_broadcast

  datatype State = State(
    status: map<Tid, Status>,
    point: map<Tid, Point>,
    cur: Tid,
    idle: Tid,
    ready: seq<Tid>,
    semas: map<Sema, SemaState>,
    holders: map<nat, Option<Tid>>,
    conds: map<Cond, CondState>)

  // ---------------------------------------------------------------- reading the state

  function Sem(st: State, s: Sema): SemaState {
    if s in st.semas then st.semas[s]
    else SemaState(if s.OfLock? then 1 else 0, [], if s.OfLock? then 1 else 0, 0, 0)
  }

  function Holder(st: State, l: nat): Option<Tid> {
    if l in st.holders then st.holders[l] else None
  }

  function Cv(st: State, c: Cond): CondState {
    if c in st.conds then st.conds[c] else CondState([], 0, 0)
  }

  function Here(st: State): Point
    requires st.cur in st.point
  {
    st.point[st.cur]
  }

  /** Interrupts are on, except in a thread that has just been given the processor inside sema_down. */
  predicate Preemptible(p: Point) {
    !(p.Down? && p.slept)
  }

  // ---------------------------------------------------------------- pieces of steps

  function SetSema(st: State, s: Sema, x: SemaState): (r: State)
    ensures forall q {:trigger Sem(r, q)} :: Sem(r, q) == if q == s then x else Sem(st, q)
  {
    st.(semas := st.semas[s := x])
  }

  function SetCond(st: State, c: Cond, x: CondState): (r: State)
    ensures forall d {:trigger Cv(r, d)} :: Cv(r, d) == if d == c then x else Cv(st, d)
  {
    st.(conds := st.conds[c := x])
  }

  function SetHolderOf(st: State, l: nat, h: Option<Tid>): (r: State)
    ensures forall k {:trigger Holder(r, k)} :: Holder(r, k) == if k == l then h else Holder(st, k)
  {
    st.(holders := st.holders[l := h])
  }

  function Goto(st: State, p: Point): State {
    st.(point := st.point[st.cur := p])
  }

  /** thread_unblock. */
  function Unblock(st: State, t: Tid): State {
    st.(ready := st.ready + [t], status := st.status[t := Ready])
  }

  /** next_thread_to_run, schedule and thread_schedule_tail; the running thread's status is already changed. */
  function Schedule(st: State): State {
    if st.ready == [] then st.(cur := st.idle, status := st.status[st.idle := Running])
    else st.(cur := st.ready[0], ready := st.ready[1..], status := st.status[st.ready[0] := Running])
  }

  /** sema_up. */
  function SemaUp(st: State, s: Sema): State {
    var x := Sem(st, s);
    var y := x.(value := x.value + 1, ups := x.ups + 1);
    if x.waiters == [] then SetSema(st, s, y)
    else SetSema(Unblock(st, x.waiters[0]), s, y.(waiters := x.waiters[1..]))
  }

  /** The end of sema_down: the value is positive and is taken. */
  function SemaTake(st: State, s: Sema): State
    requires Sem(st, s).value > 0
  {
    var x := Sem(st, s);
    SetSema(st, s, x.(value := x.value - 1, downs := x.downs + 1))
  }

  /** The running thread puts itself on the wait list of `s` and blocks. */
  function Queued(st: State, s: Sema, after: After): State {
    var x := Sem(st, s);
    Goto(SetSema(st, s, x.(waiters := x.waiters + [st.cur])), Down(s, true, after))
      .(status := st.status[st.cur := Blocked])
  }

  /** The body of the loop in sema_down: queue up, block, and run somebody else. */
  function Sleep(st: State, s: Sema, after: After): State {
    Schedule(Queued(st, s, after))
  }

  /** thread_yield: the idle thread does not go on the ready list. */
  function Yield(st: State): State {
    Schedule(st.(ready := if st.cur == st.idle then st.ready else st.ready + [st.cur],
                 status := st.status[st.cur := Ready]))
  }

  /** thread_exit, from where it turns interrupts off. */
  function Exit(st: State, childSema: Sema): State {
    var up := SemaUp(st, childSema);
    Schedule(up.(status := up.status[up.cur := Dying]))
  }

  function AfterDown(after: After): Point {
    match after
    case Return => User
    case Acquired(l, w) => SetHolder(l, w)
    case Signaled(c) => Down(OfLock(c.lock), false, Acquired(c.lock, Some(c)))
  }

  /** thread_create, up to the new thread being set up, blocked. */
  function SetUp(st: State, t: Tid): State {
    Goto(st.(status := st.status[t := Blocked], point := st.point[t := Unborn]), Creating(t))
  }

  /** The end of thread_create: the new thread is unblocked. */
  function Launch(st: State, t: Tid): State {
    Unblock(st, t).(point := st.point[st.cur := User][t := User])
  }

  // ---------------------------------------------------------------- steps

  datatype Event =
    | CallDown(id: nat) | TryDown(id: nat) | Up(id: nat) | TryUp(id: nat)
    | Acquire(lock: nat) | TryAcquire(lock: nat) | Release(lock: nat)
    | Wait(cond: Cond) | Signal(cond: Cond) | Broadcast(cond: Cond)
    | Create(child: Tid) | ExitThread(childSema: nat)
    | Advance      // the running thread goes on from its control point
    | Preempt      // the timer, or the thread itself, yields the processor

  predicate Enabled(st: State, e: Event)
    requires st.cur in st.point
  {
    match e
    case CallDown(_) => Here(st) == User
    case TryDown(_) => Preemptible(Here(st))     // also from an interrupt handler
    case Up(_) => Preemptible(Here(st))          // also from an interrupt handler
    case TryUp(_) => Preemptible(Here(st))
    case Acquire(l) => Here(st) == User && Holder(st, l) != Some(st.cur)
    case TryAcquire(l) => Here(st) == User && Holder(st, l) != Some(st.cur)
    case Release(l) => Here(st) == User && Holder(st, l) == Some(st.cur)
    case Wait(c) => Here(st) == User && Holder(st, c.lock) == Some(st.cur)
    case Signal(c) => Here(st) == User && Holder(st, c.lock) == Some(st.cur)
    case Broadcast(c) =>                         // without waiters, nothing asks for the lock
      Here(st) == User && (Holder(st, c.lock) == Some(st.cur) || Cv(st, c).queue == [])
    case Create(t) => Here(st) == User && t !in st.point && t !in st.status
    case ExitThread(_) => Here(st) == User && st.cur != st.idle
    case Advance => Here(st) != User && Here(st) != Unborn
    case Preempt => Preemptible(Here(st))
  }

  function PopWaiter(st: State, c: Cond, all: Option<(seq<Tid>, seq<Tid>)>): State
    requires Cv(st, c).queue != []
  {
    var x := Cv(st, c);
    Goto(SetCond(st, c, x.(queue := x.queue[1..], signaled := x.signaled + 1)), Signaling(c, x.queue[0], all))
  }

  /** The running thread goes on from its control point. */
  function Continue(st: State): State
    requires st.cur in st.point
  {
    match Here(st)
    case Down(s, _, after) =>
      if Sem(st, s).value == 0 then Sleep(st, s, after) else Goto(SemaTake(st, s), AfterDown(after))
    case SetHolder(l, w) =>
      var st' := Goto(SetHolderOf(st, l, Some(st.cur)), User);
      if w == None then st' else
        var x := Cv(st, w.value);
        SetCond(st', w.value, x.(returned := x.returned + 1))
    case Releasing(c) => Goto(SetHolderOf(st, c.lock, None), UpLock(c.lock, Some(c)))
    case UpLock(l, w) =>
      Goto(SemaUp(st, OfLock(l)), if w == None then User else Down(Waiter(st.cur), false, Signaled(w.value)))
    case Signaling(c, t, all) =>
      Goto(SemaUp(st, Waiter(t)), if all == None then User else Broadcasting(c, all.value.0, all.value.1 + [t]))
    case Broadcasting(c, whole, done) =>
      if Cv(st, c).queue == [] then Goto(st, User) else PopWaiter(st, c, Some((whole, done)))
    case Creating(t) => Launch(st, t)
    case IdleLoop => Schedule(st.(status := st.status[st.cur := Blocked]))
    case User => st
    case Unborn => st
  }

  function Apply(st: State, e: Event): State
    requires st.cur in st.point && Enabled(st, e)
  {
    match e
    case CallDown(n) => Goto(st, Down(Plain(n), false, Return))
    case TryDown(n) => if Sem(st, Plain(n)).value > 0 then SemaTake(st, Plain(n)) else st
    case Up(n) => SemaUp(st, Plain(n))
    case TryUp(n) => if Sem(st, Plain(n)).value == 0 then SemaUp(st, Plain(n)) else st
    case Acquire(l) => Goto(st, Down(OfLock(l), false, Acquired(l, None)))
    case TryAcquire(l) =>
      if Sem(st, OfLock(l)).value > 0 then Goto(SemaTake(st, OfLock(l)), SetHolder(l, None)) else st
    case Release(l) => Goto(SetHolderOf(st, l, None), UpLock(l, None))
    case Wait(c) =>
      var x := Cv(st, c);
      var st' := SetSema(st, Waiter(st.cur), SemaState(0, [], 0, 0, 0));
      Goto(SetCond(st', c, x.(queue := x.queue + [st.cur])), Releasing(c))
    case Signal(c) => if Cv(st, c).queue == [] then st else PopWaiter(st, c, None)
    case Broadcast(c) =>
      if Holder(st, c.lock) == Some(st.cur) then Goto(st, Broadcasting(c, Cv(st, c).queue, [])) else st
    case Create(t) => SetUp(st, t)
    case ExitThread(n) => Exit(st, Plain(n))
    case Advance => Continue(st)
    case Preempt => Yield(st)
  }

  /** The state thread_start leaves: the initial thread runs, the idle thread waits to be needed. */
  ghost predicate Init(st: State) {
    exists main: Tid ::
      && main != st.idle && st.cur == main && st.ready == []
      && (st.status == map[main := Running, st.idle := Blocked] || st.status == map[main := Running, st.idle := Ready])
      && st.point == map[main := User, st.idle := IdleLoop]
      && (forall s | s in st.semas ::
            s.Plain? && st.semas[s] == SemaState(st.semas[s].value, [], st.semas[s].value, 0, 0))
      && st.holders == map[] && st.conds == map[]
  }

  /** A run: `trace[i]` is the state after the first `i` events. */
  ghost predicate Run(trace: seq<State>, events: seq<Event>) {
    && |trace| == |events| + 1 && Init(trace[0])
    && forall i | 0 <= i < |events| ::
         && trace[i].cur in trace[i].point && Enabled(trace[i], events[i])
         && trace[i + 1] == Apply(trace[i], events[i])
  }
}
