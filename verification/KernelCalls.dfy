/**
 What the calls do, over every interleaving and in terms of the calls alone: how a semaphore's value and wait list come
 out of the ups and downs made on it, how a condition's queue comes out of the waits and signals, and that every call
 does the ups and downs it is there for, once each, before it returns.
 */
module KernelCalls {
  import opened Basics
  import opened Threads
  import opened ThreadInvariants
  import opened SemaphoreSafety
  import opened LockSafety
  import opened ConditionSafety
  import opened KernelRuns

  // ---------------------------------------------------------------- one semaphore, one step

  /** The step is a sema_up of `s`: called as such, by sema_try_up or thread_exit, by lock_release, or by cond_signal.
      */
  predicate Ups(st: State, e: Event, s: Sema)
    requires st.cur in st.point
  {
    match s
    case Plain(n) => e == Up(n) || e == ExitThread(n) || (e == TryUp(n) && Sem(st, s).value == 0)
    case OfLock(l) => e.Advance? && Here(st).UpLock? && Here(st).lock == l
    case Waiter(t) => e.Advance? && Here(st).Signaling? && Here(st).waiter == t
  }

  /** The step tests the value of `s`, in sema_down, sema_try_down or lock_try_acquire. */
  predicate Tests(st: State, e: Event, s: Sema)
    requires st.cur in st.point
  {
    || (e.Advance? && Here(st).Down? && Here(st).sema == s)
    || (s.Plain? && e == TryDown(s.id)) || (s.OfLock? && e == TryAcquire(s.lock))
  }

  /** It finds the value positive and takes one off. */
  predicate Downs(st: State, e: Event, s: Sema)
    requires st.cur in st.point
  {
    Tests(st, e, s) && Sem(st, s).value > 0
  }

  /** It finds it zero, in sema_down, and the thread goes to sleep. */
  predicate Sleeps(st: State, e: Event, s: Sema)
    requires st.cur in st.point
  {
    e.Advance? && Tests(st, e, s) && Sem(st, s).value == 0
  }

  /** cond_wait sets up the semaphore of its caller. */
  predicate Renews(st: State, e: Event, s: Sema) {
    e.Wait? && s == Waiter(st.cur)
  }

  function Rest<T>(s: seq<T>): seq<T> { if s == [] then [] else s[1..] }

  /** What a step may do to a semaphore: one up, which wakes the first waiter; one down; one more sleeper; or nothing.
      */
  ghost predicate SemaLaw(st: State, e: Event, r: State, s: Sema)
    requires st.cur in st.point
  {
    var x, y := Sem(st, s), Sem(r, s);
    if Ups(st, e, s) then
      && y.value == x.value + 1 && y.waiters == Rest(x.waiters) && y.ups == x.ups + 1 && y.downs == x.downs
      && (x.waiters != [] ==> Awake(r, x.waiters[0]))
    else if Downs(st, e, s) then
      y.value == x.value - 1 && y.waiters == x.waiters && y.ups == x.ups && y.downs == x.downs + 1
    else if Sleeps(st, e, s) then y == x.(waiters := x.waiters + [st.cur])
    else if Renews(st, e, s) then y.value == 0 && y.waiters == []
    else y == x
  }

  ghost predicate Awake(st: State, t: Tid) {
    t in st.status && st.status[t] != Blocked && (t in st.ready || t == st.cur)
  }

  lemma {:induction false} UpLaw(st: State, q: Sema, s: Sema)
    ensures var x, y, r := Sem(st, s), Sem(SemaUp(st, q), s), SemaUp(st, q);
      if s == q then
        && y.value == x.value + 1 && y.waiters == Rest(x.waiters) && y.ups == x.ups + 1 && y.downs == x.downs
        && (x.waiters != [] ==> Awake(r, x.waiters[0]))
      else y == x
  {
    hide SemaUp, Sem;
    SemaUpEffect(st, q);
  }

  /** Going to another control point changes no semaphore and wakes or stops nobody. */
  lemma {:induction false} GotoSame(st: State, p: Point, s: Sema, t: Tid)
    ensures Sem(Goto(st, p), s) == Sem(st, s) && (Awake(st, t) ==> Awake(Goto(st, p), t))
  {
  }

  lemma {:induction false} ExitLaw(st: State, n: nat, s: Sema)
    ensures Sem(Exit(st, Plain(n)), s) == Sem(SemaUp(st, Plain(n)), s)
    ensures Sem(st, s).waiters != [] && s == Plain(n) ==> Awake(Exit(st, Plain(n)), Sem(st, s).waiters[0])
  {
    SemaUpEffect(st, Plain(n));
    hide SemaUp, Sem;
    var up := SemaUp(st, Plain(n));
    var mid := up.(status := up.status[up.cur := Dying]);
    ScheduleEffect(mid);
    SameSem(up, mid, s);
    SameSem(mid, Exit(st, Plain(n)), s);
    if s == Plain(n) && Sem(st, s).waiters != [] { assert up.ready[|up.ready| - 1] == Sem(st, s).waiters[0]; }
  }

  /** The step is an up of `q` and goes on to `p`. */
  lemma {:induction false} UpThenLaw(st: State, q: Sema, p: Point, s: Sema)
    requires st.cur in st.point && Continue(st) == Goto(SemaUp(st, q), p)
    requires forall k :: Ups(st, Advance, k) <==> k == q
    requires !Here(st).Down?
    ensures SemaLaw(st, Advance, Continue(st), s)
  {
    hide Sem, SemaUp, Awake, Ups, Continue;
    UpLaw(st, q, s);
    GotoSame(SemaUp(st, q), p, s, if Sem(st, s).waiters == [] then 0 else Sem(st, s).waiters[0]);
  }

  lemma {:induction false} ContinueLaw(st: State, s: Sema)
    requires st.cur in st.point && Enabled(st, Advance)
    ensures SemaLaw(st, Advance, Continue(st), s)
  {
    hide Sem, SemaUp, SemaTake, Sleep, Awake;
    match Here(st)
    case UpLock(l, w) =>
      UpThenLaw(st, OfLock(l), if w == None then User else Down(Waiter(st.cur), false, Signaled(w.value)), s);
    case Signaling(c, t, all) =>
      UpThenLaw(st, Waiter(t), if all == None then User else Broadcasting(c, all.value.0, all.value.1 + [t]), s);
    case Down(q, _, after) => DownLaw(st, q, after, s);
    case _ => SameSem(st, Continue(st), s);
  }

  lemma {:induction false} SameSem(st: State, r: State, s: Sema)
    requires r.semas == st.semas
    ensures Sem(r, s) == Sem(st, s)
  {
  }

  lemma {:induction false} TakeLaw(st: State, q: Sema, s: Sema)
    requires Sem(st, q).value > 0
    ensures var x, y := Sem(st, s), Sem(SemaTake(st, q), s);
      y == if s == q then x.(value := x.value - 1, downs := x.downs + 1) else x
  {
  }

  lemma {:induction false} DownLaw(st: State, q: Sema, after: After, s: Sema)
    requires st.cur in st.point && Here(st).Down? && Here(st).sema == q && Here(st).after == after
    ensures SemaLaw(st, Advance, Continue(st), s)
  {
    hide Sem, SemaTake, Queued;
    if Sem(st, q).value == 0 {
      QueuedEffect(st, q, after);
      SameSem(Queued(st, q, after), Continue(st), s);
    } else {
      TakeLaw(st, q, s);
      SameSem(SemaTake(st, q), Continue(st), s);
    }
  }

  /** Every step obeys the law for every semaphore. */
  lemma {:induction false} StepLaw(st: State, e: Event, s: Sema)
    requires st.cur in st.point && Enabled(st, e)
    ensures SemaLaw(st, e, Apply(st, e), s)
  {
    hide Sem, SemaUp, SemaTake, Exit, Continue, Awake, SetUp, Yield;
    match e
    case Advance => ContinueLaw(st, s);
    case Up(n) => UpLaw(st, Plain(n), s);
    case TryUp(n) => UpLaw(st, Plain(n), s);
    case TryDown(n) => if Sem(st, Plain(n)).value > 0 { TakeLaw(st, Plain(n), s); }
    case TryAcquire(l) =>
      if Sem(st, OfLock(l)).value > 0 {
        TakeLaw(st, OfLock(l), s);
        GotoSame(SemaTake(st, OfLock(l)), SetHolder(l, None), s, st.cur);
      }
    case ExitThread(n) =>
      UpLaw(st, Plain(n), s);
      ExitLaw(st, n, s);
    case Wait(c) => WaitLaw(st, c, s);
    case _ => QuietLaw(st, e, s);
  }

  lemma {:induction false} WaitLaw(st: State, c: Cond, s: Sema)
    requires st.cur in st.point && Enabled(st, Wait(c))
    ensures SemaLaw(st, Wait(c), Apply(st, Wait(c)), s)
  {
  }

  lemma {:induction false} QuietLaw(st: State, e: Event, s: Sema)
    requires st.cur in st.point && Enabled(st, e)
    requires e.CallDown? || e.Acquire? || e.Release? || e.Signal? || e.Broadcast? || e.Create? || e.Preempt?
    ensures SemaLaw(st, e, Apply(st, e), s)
  {
    assert Apply(st, e).semas == st.semas;
    SameSem(st, Apply(st, e), s);
    hide Sem, Apply;
  }

  // ---------------------------------------------------------------- one semaphore, a whole run

  lemma {:induction false} RunLaw(trace: seq<State>, events: seq<Event>, j: nat, s: Sema)
    requires Run(trace, events) && j < |events|
    ensures trace[j].cur in trace[j].point && SemaLaw(trace[j], events[j], trace[j + 1], s)
  {
    hide Run, Apply, SemaLaw;
    RunLength(trace, events);
    RunStep(trace, events, j + 1);
    StepLaw(trace[j], events[j], s);
  }

  ghost predicate InRun(trace: seq<State>, events: seq<Event>, j: nat) {
    j < |events| && |trace| == |events| + 1 && trace[j].cur in trace[j].point
  }

  /** How many of the steps from `i` up to `j` are ups of `s`, or downs; and which of them put whom to sleep. */
  ghost function UpCount(trace: seq<State>, events: seq<Event>, s: Sema, i: nat, j: nat): nat {
    if i >= j then 0
    else UpCount(trace, events, s, i, j - 1)
         + if InRun(trace, events, j - 1) && Ups(trace[j - 1], events[j - 1], s) then 1 else 0
  }

  ghost function DownCount(trace: seq<State>, events: seq<Event>, s: Sema, i: nat, j: nat): nat {
    if i >= j then 0
    else DownCount(trace, events, s, i, j - 1)
         + if InRun(trace, events, j - 1) && Downs(trace[j - 1], events[j - 1], s) then 1 else 0
  }

  ghost function Sleepers(trace: seq<State>, events: seq<Event>, s: Sema, i: nat, j: nat): seq<Tid> {
    if i >= j then []
    else Sleepers(trace, events, s, i, j - 1)
         + if InRun(trace, events, j - 1) && Sleeps(trace[j - 1], events[j - 1], s) then [trace[j - 1].cur] else []
  }

  /** No step both ups and tests a semaphore. */
  lemma {:induction false} UpsOrTests(st: State, e: Event, s: Sema)
    requires st.cur in st.point
    ensures !(Ups(st, e, s) && Tests(st, e, s)) && (Renews(st, e, s) ==> s.Waiter?)
  {
    hide Sem;
  }

  /** The value of a semaphore is what it was, plus the ups, minus the downs that found it positive. */
  lemma {:induction false} ValueCounted(trace: seq<State>, events: seq<Event>, s: Sema, i: nat, j: nat)
    requires Run(trace, events) && i <= j < |trace| && !s.Waiter?
    ensures Sem(trace[j], s).value + DownCount(trace, events, s, i, j)
         == Sem(trace[i], s).value + UpCount(trace, events, s, i, j)
    ensures Sem(trace[j], s).ups == Sem(trace[i], s).ups + UpCount(trace, events, s, i, j)
    ensures Sem(trace[j], s).downs == Sem(trace[i], s).downs + DownCount(trace, events, s, i, j)
    decreases j
  {
    hide Run, Sem, Ups, Tests, Renews;
    if i < j {
      ValueCounted(trace, events, s, i, j - 1);
      RunLength(trace, events);
      RunLaw(trace, events, j - 1, s);
      UpsOrTests(trace[j - 1], events[j - 1], s);
    }
  }

  lemma {:induction false} RunLength(trace: seq<State>, events: seq<Event>)
    requires Run(trace, events)
    ensures |trace| == |events| + 1
  {
  }

  /** How many ups find somebody waiting. */
  ghost function WakeCount(trace: seq<State>, events: seq<Event>, s: Sema, i: nat, j: nat): nat {
    if i >= j then 0
    else WakeCount(trace, events, s, i, j - 1)
         + if InRun(trace, events, j - 1) && Ups(trace[j - 1], events[j - 1], s) && Sem(trace[j - 1], s).waiters != []
           then 1 else 0
  }

  /** The wait list is what it was, then everybody who went to sleep since, less as many from the front as were woken.
      */
  lemma {:induction false} WaitersFifo(trace: seq<State>, events: seq<Event>, s: Sema, i: nat, j: nat)
    requires Run(trace, events) && i <= j < |trace| && !s.Waiter?
    ensures var all := Sem(trace[i], s).waiters + Sleepers(trace, events, s, i, j);
      var n := WakeCount(trace, events, s, i, j);
      n <= |all| && Sem(trace[j], s).waiters == all[n..]
    decreases j
  {
    hide Run, Sem, Ups, Sleeps, SemaLaw, UpCount, DownCount;
    if i < j {
      WaitersFifo(trace, events, s, i, j - 1);
      RunLength(trace, events);
      RunLaw(trace, events, j - 1, s);
      LawWaiters(trace[j - 1], events[j - 1], trace[j], s);
      Fifo(Sem(trace[i], s).waiters, Sleepers(trace, events, s, i, j - 1), WakeCount(trace, events, s, i, j - 1),
           trace[j - 1].cur);
    }
  }

  lemma {:induction false} LawWaiters(st: State, e: Event, r: State, s: Sema)
    requires st.cur in st.point && SemaLaw(st, e, r, s) && !s.Waiter?
    ensures Ups(st, e, s) ==> !Sleeps(st, e, s) && Sem(r, s).waiters == Rest(Sem(st, s).waiters)
    ensures Sleeps(st, e, s) ==> Sem(r, s).waiters == Sem(st, s).waiters + [st.cur]
    ensures !Ups(st, e, s) && !Sleeps(st, e, s) ==> Sem(r, s).waiters == Sem(st, s).waiters
  {
    hide Sem, Ups, Tests;
    UpsOrTests(st, e, s);
  }

  /** Adding at the back and taking off the front of what is left of `a + b` after `n` were taken. */
  lemma {:induction false} Fifo<T>(a: seq<T>, b: seq<T>, n: nat, t: T)
    requires n <= |a + b|
    ensures (a + b)[n..] + [t] == (a + (b + [t]))[n..] && n <= |a + (b + [t])|
    ensures n < |a + b| ==> Rest((a + b)[n..]) == (a + b)[n + 1..]
    ensures b + [] == b
  {
    assert a + (b + [t]) == (a + b) + [t];
  }

  /** sema_up: one more, and the first waiter, if any, goes to the back of the ready list. */
  lemma {:induction false} UpRaises(trace: seq<State>, events: seq<Event>, i: nat, n: nat)
    requires Run(trace, events) && i < |events| && events[i] == Up(n)
    ensures var x, y := Sem(trace[i], Plain(n)), Sem(trace[i + 1], Plain(n));
      && y.value == x.value + 1 && y.waiters == Rest(x.waiters)
      && trace[i + 1].ready == trace[i].ready + (if x.waiters == [] then [] else [x.waiters[0]])
      && trace[i + 1].cur == trace[i].cur && trace[i + 1].point == trace[i].point
  {
    RunStep(trace, events, i + 1);
    hide Run, SemaUp, Sem;
    SemaUpEffect(trace[i], Plain(n));
  }

  /** The thread it wakes runs after as many switches as there were threads ready before it, and one more. */
  lemma {:induction false} WokenRuns(trace: seq<State>, events: seq<Event>, i: nat, n: nat, j: nat)
    requires Run(trace, events) && i < |events| && events[i] == Up(n) && Sem(trace[i], Plain(n)).waiters != []
    requires i + 1 < j < |trace| && Switches(trace[j - 1], events[j - 1])
    requires SwitchCount(trace, events, i + 1, j) == |trace[i].ready| + 1
    ensures trace[j].cur == Sem(trace[i], Plain(n)).waiters[0]
  {
    UpRaises(trace, events, i, n);
    RoundRobin(trace, events, i + 1, j, |trace[i].ready|);
    hide Run, Sem, Switches;
  }

  /** sema_try_down and lock_try_acquire take exactly when the value is positive, and else change nothing. */
  lemma {:induction false} TriesTake(trace: seq<State>, events: seq<Event>, i: nat, n: nat)
    requires Run(trace, events) && i < |events|
    ensures events[i] == TryDown(n) ==>
      if Sem(trace[i], Plain(n)).value > 0 then
        Sem(trace[i + 1], Plain(n)).value == Sem(trace[i], Plain(n)).value - 1 && trace[i + 1].point == trace[i].point
      else trace[i + 1] == trace[i]
    ensures events[i] == TryAcquire(n) ==>
      if Sem(trace[i], OfLock(n)).value > 0 then
        && Sem(trace[i + 1], OfLock(n)).value == Sem(trace[i], OfLock(n)).value - 1
        && trace[i + 1].point == trace[i].point[trace[i].cur := SetHolder(n, None)] && trace[i + 1].cur == trace[i].cur
      else trace[i + 1] == trace[i]
  {
    RunStep(trace, events, i + 1);
    hide Run;
  }

  // ---------------------------------------------------------------- one condition variable

  /** The step takes the first waiter off the queue of `c`, to signal it. */
  predicate Pops(st: State, e: Event, c: Cond)
    requires st.cur in st.point
  {
    Cv(st, c).queue != [] && (e == Signal(c) || (e.Advance? && Here(st).Broadcasting? && Here(st).cond == c))
  }

  predicate Returns(st: State, e: Event, c: Cond)
    requires st.cur in st.point
  {
    e.Advance? && Here(st).SetHolder? && Here(st).wait == Some(c)
  }

  /** cond_wait queues its caller at the back; a signal takes the front, and goes on to put up its semaphore. */
  ghost predicate CondLaw(st: State, e: Event, r: State, c: Cond)
    requires st.cur in st.point
  {
    var x, y := Cv(st, c), Cv(r, c);
    if e == Wait(c) then
      y == x.(queue := x.queue + [st.cur]) && r.cur == st.cur && r.point == st.point[st.cur := Releasing(c)]
    else if Pops(st, e, c) then
      && y == x.(queue := x.queue[1..], signaled := x.signaled + 1) && r.cur == st.cur
      && r.cur in r.point && Here(r).Signaling? && Here(r).cond == c && Here(r).waiter == x.queue[0]
    else if Returns(st, e, c) then
      y == x.(returned := x.returned + 1) && r.cur == st.cur && r.point == st.point[st.cur := User]
    else y == x
  }

  lemma {:induction false} ContinueCondLaw(st: State, c: Cond)
    requires st.cur in st.point && Enabled(st, Advance)
    ensures CondLaw(st, Advance, Continue(st), c)
  {
    ContinueConds(st);
    if Here(st).SetHolder? {
      SetHolderCond(st, c);
    } else if Here(st).Broadcasting? {
      BroadcastingCond(st, c);
    }
    hide Continue;
  }

  lemma {:induction false} SetHolderCond(st: State, c: Cond)
    requires st.cur in st.point && Here(st).SetHolder?
    ensures CondLaw(st, Advance, Continue(st), c)
  {
  }

  lemma {:induction false} BroadcastingCond(st: State, c: Cond)
    requires st.cur in st.point && Here(st).Broadcasting?
    ensures CondLaw(st, Advance, Continue(st), c)
  {
  }

  lemma {:induction false} StepCondLaw(st: State, e: Event, c: Cond)
    requires st.cur in st.point && Enabled(st, e)
    ensures CondLaw(st, e, Apply(st, e), c)
  {
    if e.Advance? {
      ContinueCondLaw(st, c);
      hide CondLaw, Continue;
    } else {
      CallCondLaw(st, e, c);
      hide CondLaw, Apply;
    }
  }

  lemma {:induction false} CallCondLaw(st: State, e: Event, c: Cond)
    requires st.cur in st.point && Enabled(st, e) && !e.Advance?
    ensures CondLaw(st, e, Apply(st, e), c)
  {
    if e.Up? || e.TryUp? { SemaUpEffect(st, Plain(e.id)); }
    if e.ExitThread? { SemaUpEffect(st, Plain(e.childSema)); }
    hide SemaUp, Sem;
  }

  lemma {:induction false} RunCondLaw(trace: seq<State>, events: seq<Event>, j: nat, c: Cond)
    requires Run(trace, events) && j < |events|
    ensures trace[j].cur in trace[j].point && CondLaw(trace[j], events[j], trace[j + 1], c)
  {
    hide Run, Apply, CondLaw;
    RunLength(trace, events);
    RunStep(trace, events, j + 1);
    StepCondLaw(trace[j], events[j], c);
  }

  /** Who called cond_wait on `c` in the steps from `i` up to `j`, in order; and how many were taken off its queue. */
  ghost function Callers(trace: seq<State>, events: seq<Event>, c: Cond, i: nat, j: nat): seq<Tid> {
    if i >= j then []
    else Callers(trace, events, c, i, j - 1)
         + if InRun(trace, events, j - 1) && events[j - 1] == Wait(c) then [trace[j - 1].cur] else []
  }

  ghost function PopCount(trace: seq<State>, events: seq<Event>, c: Cond, i: nat, j: nat): nat {
    if i >= j then 0
    else PopCount(trace, events, c, i, j - 1)
         + if InRun(trace, events, j - 1) && Pops(trace[j - 1], events[j - 1], c) then 1 else 0
  }

  /** The queue is what it was, then everybody who called cond_wait since, less as many from the front as were
      signaled. */
  lemma {:induction false} QueueFifo(trace: seq<State>, events: seq<Event>, c: Cond, i: nat, j: nat)
    requires Run(trace, events) && i <= j < |trace|
    ensures var all, n := Cv(trace[i], c).queue + Callers(trace, events, c, i, j), PopCount(trace, events, c, i, j);
      && n <= |all| && Cv(trace[j], c).queue == all[n..] && Cv(trace[j], c).signaled == Cv(trace[i], c).signaled + n
    decreases j
  {
    hide Run, Cv, CondLaw, Pops;
    if i < j {
      QueueFifo(trace, events, c, i, j - 1);
      RunLength(trace, events);
      RunCondLaw(trace, events, j - 1, c);
      LawQueue(trace[j - 1], events[j - 1], trace[j], c);
      Fifo(Cv(trace[i], c).queue, Callers(trace, events, c, i, j - 1), PopCount(trace, events, c, i, j - 1),
           trace[j - 1].cur);
    }
  }

  lemma {:induction false} LawQueue(st: State, e: Event, r: State, c: Cond)
    requires st.cur in st.point && CondLaw(st, e, r, c)
    ensures e == Wait(c) ==> !Pops(st, e, c)
    ensures Pops(st, e, c) ==> Cv(st, c).queue != []
    ensures Cv(r, c).queue ==
      if e == Wait(c) then Cv(st, c).queue + [st.cur]
      else if Pops(st, e, c) then Rest(Cv(st, c).queue)
      else Cv(st, c).queue
    ensures Cv(r, c).signaled == Cv(st, c).signaled + if Pops(st, e, c) then 1 else 0
  {
    hide Cv, Here;
  }

  // ---------------------------------------------------------------- what a call owes

  datatype Act = Upped(sema: Sema) | Downed(sema: Sema)

  ghost function UpsOf(ts: seq<Tid>): multiset<Act> {
    if ts == [] then multiset{} else multiset{Upped(Waiter(ts[0]))} + UpsOf(ts[1..])
  }

  /** The ups and downs that thread `u` still has to make before the call it is in returns. */
  ghost function Owed(u: Tid, p: Point): multiset<Act> {
    match p
    case Down(s, _, Signaled(c)) => multiset{Downed(s), Downed(OfLock(c.lock))}
    case Down(s, _, _) => multiset{Downed(s)}
    case Releasing(c) => multiset{Upped(OfLock(c.lock)), Downed(Waiter(u)), Downed(OfLock(c.lock))}
    case UpLock(l, None) => multiset{Upped(OfLock(l))}
    case UpLock(l, Some(c)) => multiset{Upped(OfLock(l)), Downed(Waiter(u)), Downed(OfLock(c.lock))}
    case Signaling(_, t, None) => multiset{Upped(Waiter(t))}
    case Signaling(_, t, Some(all)) =>
      multiset{Upped(Waiter(t))} + if |all.1| < |all.0| then UpsOf(all.0[|all.1| + 1..]) else multiset{}
    case Broadcasting(_, whole, done) => if |done| <= |whole| then UpsOf(whole[|done|..]) else multiset{}
    case _ => multiset{}
  }

  /** What the functions are there for: the ups and downs that each call makes after it is entered. */
  ghost function Promised(st: State, e: Event): multiset<Act> {
    match e
    case CallDown(n) => multiset{Downed(Plain(n))}
    case Acquire(l) => multiset{Downed(OfLock(l))}
    case Release(l) => multiset{Upped(OfLock(l))}
    case Wait(c) => multiset{Upped(OfLock(c.lock)), Downed(Waiter(st.cur)), Downed(OfLock(c.lock))}
    case Signal(c) => if Cv(st, c).queue == [] then multiset{} else multiset{Upped(Waiter(Cv(st, c).queue[0]))}
    case Broadcast(c) => UpsOf(Cv(st, c).queue)
    case _ => multiset{}
  }

  /** The up or down that the running thread makes in a step of its own. */
  ghost function DoneNow(st: State, e: Event): multiset<Act>
    requires st.cur in st.point
  {
    if !e.Advance? then multiset{}
    else match Here(st)
      case Down(s, _, _) => if Sem(st, s).value > 0 then multiset{Downed(s)} else multiset{}
      case UpLock(l, _) => multiset{Upped(OfLock(l))}
      case Signaling(_, t, _) => multiset{Upped(Waiter(t))}
      case _ => multiset{}
  }

  /** These are ups and downs as the law for semaphores has them. */
  lemma {:induction false} DoneIs(st: State, e: Event, s: Sema)
    requires st.cur in st.point
    ensures Upped(s) in DoneNow(st, e) <==> e.Advance? && Ups(st, e, s)
    ensures Downed(s) in DoneNow(st, e) <==> e.Advance? && Downs(st, e, s)
  {
    hide Sem;
  }

  /** A step of the thread's own takes what it does off what it owes. */
  lemma {:induction false} OwnWork(st: State, e: Event)
    requires st.cur in st.point && Enabled(st, e) && Here(st) != User && PointOk(st.cur, Here(st)) && BroadcastInv(st)
    requires Here(st).Creating? ==> Here(st).child != st.cur
    ensures st.cur in Apply(st, e).point
    ensures Owed(st.cur, Here(st)) == DoneNow(st, e) + Owed(st.cur, Apply(st, e).point[st.cur])
  {
    if e.Advance? {
      ContinueWork(st);
    } else {
      StaysPut(st, e);
    }
    hide Apply, Continue, Owed, BroadcastInv;
  }

  lemma {:induction false} StaysPut(st: State, e: Event)
    requires st.cur in st.point && Enabled(st, e) && Here(st) != User && !e.Advance?
    ensures st.cur in Apply(st, e).point && Apply(st, e).point[st.cur] == Here(st)
  {
    if e.Up? || e.TryUp? { SemaUpEffect(st, Plain(e.id)); }
    hide SemaUp, Sem, Cv;
  }

  /** The control point that the running thread reaches from the one it is at, outside cond_broadcast. */
  function Onward(st: State): Point
    requires st.cur in st.point
  {
    match Here(st)
    case Down(s, _, after) => if Sem(st, s).value == 0 then Down(s, true, after) else AfterDown(after)
    case Releasing(c) => UpLock(c.lock, Some(c))
    case UpLock(_, Some(c)) => Down(Waiter(st.cur), false, Signaled(c))
    case IdleLoop => IdleLoop
    case Unborn => Unborn
    case _ => User
  }

  lemma {:induction false} OnwardIs(st: State)
    requires st.cur in st.point && Enabled(st, Advance) && !Here(st).Signaling? && !Here(st).Broadcasting?
    requires Here(st).Creating? ==> Here(st).child != st.cur
    ensures st.cur in Continue(st).point && Continue(st).point[st.cur] == Onward(st)
  {
    hide SemaUp, Sem, Cv;
    match Here(st)
    case UpLock(l, _) => SemaUpEffect(st, OfLock(l));
    case _ =>
  }

  lemma {:induction false} DownOwes(u: Tid, s: Sema, slept: bool, after: After)
    ensures Owed(u, Down(s, slept, after)) == multiset{Downed(s)} + Owed(u, AfterDown(after))
    ensures Owed(u, Down(s, true, after)) == Owed(u, Down(s, slept, after))
  {
  }

  lemma {:induction false} WaitOwes(u: Tid, l: nat, c: Cond)
    requires c.lock == l
    ensures Owed(u, Releasing(c)) == Owed(u, UpLock(l, Some(c)))
    ensures Owed(u, UpLock(l, Some(c))) == multiset{Upped(OfLock(l))} + Owed(u, Down(Waiter(u), false, Signaled(c)))
    ensures Owed(u, UpLock(l, None)) == multiset{Upped(OfLock(l))}
  {
  }

  lemma {:induction false} OnwardOwes(st: State)
    requires st.cur in st.point && PointOk(st.cur, Here(st)) && !Here(st).Signaling? && !Here(st).Broadcasting?
    ensures Owed(st.cur, Here(st)) == DoneNow(st, Advance) + Owed(st.cur, Onward(st))
  {
    hide Sem, AfterDown;
    if Here(st).Down? {
      DownOwes(st.cur, Here(st).sema, Here(st).slept, Here(st).after);
      hide Owed;
    } else if Here(st).UpLock? {
      WaitOwes(st.cur, Here(st).lock, if Here(st).wait == None then Cond(Here(st).lock, 0) else Here(st).wait.value);
      hide Owed;
    } else if Here(st).Releasing? {
      WaitOwes(st.cur, Here(st).cond.lock, Here(st).cond);
      hide Owed;
    } else {
      NothingOwed(st);
      hide Owed;
    }
  }

  lemma {:induction false} NothingOwed(st: State)
    requires st.cur in st.point && !Here(st).Signaling? && !Here(st).Broadcasting?
    requires !Here(st).Down? && !Here(st).UpLock? && !Here(st).Releasing?
    ensures Owed(st.cur, Here(st)) == DoneNow(st, Advance) == Owed(st.cur, Onward(st)) == multiset{}
  {
    hide Sem;
  }

  lemma {:induction false} ContinueWork(st: State)
    requires st.cur in st.point && Enabled(st, Advance) && PointOk(st.cur, Here(st)) && BroadcastInv(st)
    requires Here(st).Creating? ==> Here(st).child != st.cur
    ensures st.cur in Continue(st).point
    ensures Owed(st.cur, Here(st)) == DoneNow(st, Advance) + Owed(st.cur, Continue(st).point[st.cur])
  {
    hide Continue, Owed, DoneNow, BroadcastInv, PointOk, Onward;
    if Here(st).Signaling? {
      SignalWork(st, Here(st).cond, Here(st).waiter, Here(st).all);
    } else if Here(st).Broadcasting? {
      BroadcastWork(st, Here(st).cond, Here(st).whole, Here(st).done);
    } else {
      OnwardIs(st);
      OnwardOwes(st);
    }
  }

  lemma {:induction false} SignalWork(st: State, c: Cond, t: Tid, all: Option<(seq<Tid>, seq<Tid>)>)
    requires st.cur in st.point && Here(st) == Signaling(c, t, all) && BroadcastInv(st)
    ensures st.cur in Continue(st).point
    ensures Owed(st.cur, Here(st)) == DoneNow(st, Advance) + Owed(st.cur, Continue(st).point[st.cur])
  {
    hide SemaUp, Sem, Cv, Owed, BroadcastInv;
    SemaUpEffect(st, Waiter(t));
    if all == None {
      SignalOwes(st.cur, c, t);
      FreeOwes(st.cur, 0, None);
    } else {
      SignaledQueue(st, c, t, all.value.0, all.value.1);
      BroadcastSignalOwes(st.cur, c, t, all.value.0, all.value.1);
    }
  }

  lemma {:induction false} SignaledQueue(st: State, c: Cond, t: Tid, whole: seq<Tid>, done: seq<Tid>)
    requires st.cur in st.point && Here(st) == Signaling(c, t, Some((whole, done))) && BroadcastInv(st)
    ensures |done| < |whole|
  {
    hide Cv;
    assert st.point[st.cur].Signaling?;
  }

  lemma {:induction false} BroadcastWork(st: State, c: Cond, whole: seq<Tid>, done: seq<Tid>)
    requires st.cur in st.point && Here(st) == Broadcasting(c, whole, done) && BroadcastInv(st)
    ensures st.cur in Continue(st).point
    ensures Owed(st.cur, Here(st)) == DoneNow(st, Advance) + Owed(st.cur, Continue(st).point[st.cur])
  {
    BroadcastQueued(st, c, whole, done);
    var q := Cv(st, c).queue;
    LoopPoint(st, c, whole, done);
    hide Continue, BroadcastInv, Cv, Here;
    QueueOwes(st.cur, c, whole, done, q);
  }

  lemma {:induction false} BroadcastQueued(st: State, c: Cond, whole: seq<Tid>, done: seq<Tid>)
    requires st.cur in st.point && Here(st) == Broadcasting(c, whole, done) && BroadcastInv(st)
    ensures whole == done + Cv(st, c).queue
  {
    hide Cv;
    assert st.point[st.cur].Broadcasting?;
  }

  lemma {:induction false} LoopPoint(st: State, c: Cond, whole: seq<Tid>, done: seq<Tid>)
    requires st.cur in st.point && Here(st) == Broadcasting(c, whole, done)
    ensures st.cur in Continue(st).point && DoneNow(st, Advance) == multiset{}
    ensures var q := Cv(st, c).queue;
      Continue(st).point[st.cur] == if q == [] then User else Signaling(c, q[0], Some((whole, done)))
  {
  }

  lemma {:induction false} QueueOwes(u: Tid, c: Cond, whole: seq<Tid>, done: seq<Tid>, q: seq<Tid>)
    requires whole == done + q
    ensures Owed(u, Broadcasting(c, whole, done))
         == Owed(u, if q == [] then User else Signaling(c, q[0], Some((whole, done))))
  {
    assert whole[|done|..] == q;
    if q != [] { assert whole[|done| + 1..] == q[1..]; }
  }

  /** The control point at which a call begins. */
  function Entry(st: State, e: Event): Point
    requires st.cur in st.point && Enabled(st, e)
  {
    match e
    case CallDown(n) => Down(Plain(n), false, Return)
    case Acquire(l) => Down(OfLock(l), false, Acquired(l, None))
    case TryAcquire(l) => if Sem(st, OfLock(l)).value > 0 then SetHolder(l, None) else User
    case Release(l) => UpLock(l, None)
    case Wait(c) => Releasing(c)
    case Signal(c) => if Cv(st, c).queue == [] then User else Signaling(c, Cv(st, c).queue[0], None)
    case Broadcast(c) =>
      if Holder(st, c.lock) == Some(st.cur) then Broadcasting(c, Cv(st, c).queue, []) else User
    case Create(t) => Creating(t)
    case _ => User
  }

  lemma {:induction false} EntryIs(st: State, e: Event)
    requires st.cur in st.point && Enabled(st, e) && Here(st) == User
    ensures st.cur in Apply(st, e).point && Apply(st, e).point[st.cur] == Entry(st, e)
  {
    if e.Up? || e.TryUp? { SemaUpEffect(st, Plain(e.id)); }
    if e.ExitThread? { SemaUpEffect(st, Plain(e.childSema)); }
    hide SemaUp, Sem, Cv, Holder;
  }

  lemma {:induction false} BroadcastOwes(u: Tid, c: Cond, q: seq<Tid>)
    ensures Owed(u, Broadcasting(c, q, [])) == UpsOf(q) && Owed(u, User) == UpsOf([]) == multiset{}
  {
    assert q[0..] == q;
  }

  lemma {:induction false} EntryOwes(st: State, e: Event)
    requires st.cur in st.point && Enabled(st, e) && Here(st) == User
    ensures Owed(st.cur, Entry(st, e)) == Promised(st, e)
  {
    hide Sem, Cv, Holder, UpsOf;
    if e.Broadcast? {
      BroadcastOwes(st.cur, e.cond, Cv(st, e.cond).queue);
      hide Owed;
    } else {
      PlainOwes(st, e);
      hide Owed, Entry, Promised;
    }
  }

  lemma {:induction false} PlainOwes(st: State, e: Event)
    requires st.cur in st.point && Enabled(st, e) && !e.Broadcast?
    ensures Owed(st.cur, Entry(st, e)) == Promised(st, e)
  {
    hide Sem, Cv, Holder, UpsOf, Enabled, Here, Owed;
    var u := st.cur;
    FreeOwes(u, 0, None);
    match e
    case CallDown(n) => DownOwes(u, Plain(n), false, Return);
    case Acquire(l) =>
      DownOwes(u, OfLock(l), false, Acquired(l, None));
      FreeOwes(u, l, None);
    case Release(l) => WaitOwes(u, l, Cond(l, 0));
    case Wait(c) => WaitingOwes(u, c);
    case Signal(c) => if Cv(st, c).queue != [] { SignalOwes(u, c, Cv(st, c).queue[0]); }
    case TryAcquire(l) => FreeOwes(u, l, None);
    case Create(t) => FreeOwes(u, t, None);
    case _ =>
  }

  lemma {:induction false} FreeOwes(u: Tid, n: nat, w: Option<Cond>)
    ensures Owed(u, User) == Owed(u, SetHolder(n, w)) == Owed(u, Creating(n)) == multiset{}
  {
  }

  lemma {:induction false} WaitingOwes(u: Tid, c: Cond)
    ensures Owed(u, Releasing(c)) == multiset{Upped(OfLock(c.lock)), Downed(Waiter(u)), Downed(OfLock(c.lock))}
  {
  }

  lemma {:induction false} SignalOwes(u: Tid, c: Cond, t: Tid)
    ensures Owed(u, Signaling(c, t, None)) == multiset{Upped(Waiter(t))}
  {
  }

  lemma {:induction false} BroadcastSignalOwes(u: Tid, c: Cond, t: Tid, whole: seq<Tid>, done: seq<Tid>)
    requires |done| < |whole|
    ensures Owed(u, Signaling(c, t, Some((whole, done))))
         == multiset{Upped(Waiter(t))} + Owed(u, Broadcasting(c, whole, done + [t]))
  {
  }

  /** A call starts with all that it promises still to do. */
  lemma {:induction false} CallStarts(st: State, e: Event)
    requires st.cur in st.point && Enabled(st, e) && Here(st) == User
    ensures st.cur in Apply(st, e).point && Owed(st.cur, Apply(st, e).point[st.cur]) == Promised(st, e)
  {
    hide Apply, Enabled, Owed, Promised, Entry;
    EntryIs(st, e);
    EntryOwes(st, e);
  }

  /** What thread `u` did in the steps from `i` up to `j`. */
  ghost function DoneBy(trace: seq<State>, events: seq<Event>, u: Tid, i: nat, j: nat): multiset<Act> {
    if i >= j then multiset{}
    else DoneBy(trace, events, u, i, j - 1)
         + if InRun(trace, events, j - 1) && trace[j - 1].cur == u then DoneNow(trace[j - 1], events[j - 1])
           else multiset{}
  }

  lemma {:induction false} WorkKept(trace: seq<State>, events: seq<Event>, u: Tid, i: nat, j: nat)
    requires Run(trace, events) && i <= j < |trace|
    requires forall m | i <= m < j :: u in trace[m].point && trace[m].point[u] != User
    requires u in trace[i].point
    ensures u in trace[j].point
    ensures DoneBy(trace, events, u, i, j) + Owed(u, trace[j].point[u]) == Owed(u, trace[i].point[u])
    decreases j
  {
    hide Run, Apply, Enabled, Owed, DoneNow, PointInv, BroadcastInv;
    if i < j {
      WorkKept(trace, events, u, i, j - 1);
      RunStep(trace, events, j);
      RunLength(trace, events);
      RunParts(trace, events, j - 1);
      AnyWork(trace[j - 1], events[j - 1], u);
    }
  }

  lemma {:induction false} AnyWork(st: State, e: Event, u: Tid)
    requires st.cur in st.point && Enabled(st, e) && u in st.point && st.point[u] != User && PointInv(st)
    requires BroadcastInv(st)
    ensures u in Apply(st, e).point
    ensures Owed(u, st.point[u])
         == (if st.cur == u then DoneNow(st, e) else multiset{}) + Owed(u, Apply(st, e).point[u])
  {
    if u == st.cur {
      assert PointOk(u, st.point[u]) && (Here(st).Creating? ==> Here(st).child != u);
      OwnWork(st, e);
    } else if Here(st).Creating? && Here(st).child == u {
      ChildWork(st, e, u);
    } else {
      OtherPoint(st, e, u);
    }
    hide Apply, Enabled, DoneNow, PointInv, BroadcastInv;
  }

  /** A thread that is not born yet owes nothing, before and after. */
  lemma {:induction false} ChildWork(st: State, e: Event, u: Tid)
    requires st.cur in st.point && Enabled(st, e) && PointInv(st) && Here(st) == Creating(u) && u != st.cur
    ensures u in st.point && u in Apply(st, e).point
    ensures Owed(u, st.point[u]) == Owed(u, Apply(st, e).point[u]) == multiset{}
  {
    assert Here(st).Creating?;
    if e.Up? || e.TryUp? { SemaUpEffect(st, Plain(e.id)); }
    hide SemaUp, Sem, Cv;
  }

  /** By the time a call returns, its thread has made the ups and downs the call promises, each once, and no others. */
  lemma {:induction false} CallDone(trace: seq<State>, events: seq<Event>, u: Tid, i: nat, j: nat)
    requires Run(trace, events) && i < j < |trace| && trace[i].cur == u
    requires u in trace[i].point && trace[i].point[u] == User
    requires forall m | i < m < j :: u in trace[m].point && trace[m].point[u] != User
    requires u in trace[j].point && trace[j].point[u] == User
    ensures DoneBy(trace, events, u, i + 1, j) == Promised(trace[i], events[i])
  {
    hide Run, Apply, Enabled, Promised;
    RunStep(trace, events, i + 1);
    CallStarts(trace[i], events[i]);
    WorkKept(trace, events, u, i + 1, j);
  }

  // ---------------------------------------------------------------- locks

  /** In lock_acquire of `l`, or about to leave lock_try_acquire with it. */
  predicate Acquiring(p: Point, l: nat) {
    (p.Down? && p.sema == OfLock(l) && p.after.Acquired? && p.after.lock == l) || (p.SetHolder? && p.lock == l)
  }

  lemma {:induction false} AcquireStep(st: State, e: Event, l: nat)
    requires st.cur in st.point && Enabled(st, e) && Acquiring(Here(st), l)
    ensures var r := Apply(st, e);
      && st.cur in r.point
      && (Acquiring(r.point[st.cur], l) || (r.point[st.cur] == User && Holder(r, l) == Some(st.cur)))
  {
    if e.Up? || e.TryUp? { SemaUpEffect(st, Plain(e.id)); }
    hide SemaUp, Sem, Cv;
  }

  /** lock_acquire, and lock_try_acquire once it has the semaphore, return with the lock held. */
  lemma {:induction false} ReturnsHolding(trace: seq<State>, events: seq<Event>, u: Tid, l: nat, i: nat, j: nat)
    requires Run(trace, events) && i < j < |trace| && u in trace[i].point && Acquiring(trace[i].point[u], l)
    requires forall m | i <= m < j :: u in trace[m].point && trace[m].point[u] != User
    requires u in trace[j].point && trace[j].point[u] == User
    ensures Holder(trace[j], l) == Some(u) && Owners(trace[j], l) == {u}
  {
    hide Run, Apply, Enabled, Acquiring, PointInv, BroadcastInv, Holder;
    StillAcquiring(trace, events, u, l, i, j - 1);
    RunStep(trace, events, j);
    RunParts(trace, events, j - 1);
    if trace[j - 1].cur == u {
      AcquireStep(trace[j - 1], events[j - 1], l);
      NotUser(trace[j].point[u], l);
    } else {
      NotChild(trace[j - 1], u, l);
      OtherPoint(trace[j - 1], events[j - 1], u);
    }
    MutualExclusion(trace, events, j, l);
  }

  lemma {:induction false} NotUser(p: Point, l: nat)
    ensures Acquiring(p, l) ==> p != User
  {
  }

  lemma {:induction false} NotChild(st: State, u: Tid, l: nat)
    requires PointInv(st) && st.cur in st.point && u in st.point && Acquiring(st.point[u], l)
    ensures Here(st).Creating? ==> Here(st).child != u
  {
  }

  lemma {:induction false} StillAcquiring(trace: seq<State>, events: seq<Event>, u: Tid, l: nat, i: nat, j: nat)
    requires Run(trace, events) && i <= j < |trace| && u in trace[i].point && Acquiring(trace[i].point[u], l)
    requires forall m | i <= m <= j :: u in trace[m].point && trace[m].point[u] != User
    ensures Acquiring(trace[j].point[u], l)
    decreases j
  {
    hide Run, Apply, Enabled, Acquiring, PointInv, BroadcastInv, Holder;
    if i < j {
      StillAcquiring(trace, events, u, l, i, j - 1);
      RunStep(trace, events, j);
      RunParts(trace, events, j - 1);
      if trace[j - 1].cur == u {
        AcquireStep(trace[j - 1], events[j - 1], l);
      } else {
        NotChild(trace[j - 1], u, l);
        OtherPoint(trace[j - 1], events[j - 1], u);
      }
    }
  }

  /** The holder field changes only where a lock is let go or taken. */
  lemma {:induction false} HolderLaw(trace: seq<State>, events: seq<Event>, i: nat, l: nat)
    requires Run(trace, events) && i < |events|
    ensures trace[i].cur in trace[i].point
    ensures var st, e, h := trace[i], events[i], Holder(trace[i + 1], l);
      if e == Release(l) || (e.Advance? && Here(st).Releasing? && Here(st).cond.lock == l) then h == None
      else if e.Advance? && Here(st).SetHolder? && Here(st).lock == l then h == Some(st.cur)
      else h == Holder(st, l)
  {
    RunStep(trace, events, i + 1);
    hide Run;
    HolderStep(trace[i], events[i], l);
  }

  lemma {:induction false} ContinueHolders(st: State)
    requires st.cur in st.point && Enabled(st, Advance)
    ensures Continue(st).holders ==
      if Here(st).Releasing? then st.holders[Here(st).cond.lock := None]
      else if Here(st).SetHolder? then st.holders[Here(st).lock := Some(st.cur)]
      else st.holders
  {
    hide SemaUp, Sem, Cv;
    match Here(st)
    case UpLock(l, _) => SemaUpEffect(st, OfLock(l));
    case Signaling(_, t, _) => SemaUpEffect(st, Waiter(t));
    case _ =>
  }

  lemma {:induction false} HolderStep(st: State, e: Event, l: nat)
    requires st.cur in st.point && Enabled(st, e)
    ensures var h := Holder(Apply(st, e), l);
      if e == Release(l) || (e.Advance? && Here(st).Releasing? && Here(st).cond.lock == l) then h == None
      else if e.Advance? && Here(st).SetHolder? && Here(st).lock == l then h == Some(st.cur)
      else h == Holder(st, l)
  {
    if e.Advance? { ContinueHolders(st); }
    if e.Up? || e.TryUp? { SemaUpEffect(st, Plain(e.id)); }
    if e.ExitThread? { SemaUpEffect(st, Plain(e.childSema)); }
    hide SemaUp, Sem, Cv, Continue;
  }

  // ---------------------------------------------------------------- thread_create

  /** `t` is free to run and last on the ready list. */
  ghost predicate JustReady(before: State, r: State, t: Tid) {
    && r.ready == before.ready + [t]
    && t in r.status && r.status[t] == Ready && t in r.point && r.point[t] == User
  }

  lemma {:induction false} CreateStep(st: State, e: Event, t: Tid)
    requires st.cur in st.point && Enabled(st, e) && Here(st) == Creating(t) && t != st.cur
    ensures var r := Apply(st, e);
      && st.cur in r.point
      && (if e.Advance? then r.point[st.cur] == User && JustReady(st, r, t) else r.point[st.cur] == Creating(t))
  {
    if e.Up? || e.TryUp? { SemaUpEffect(st, Plain(e.id)); }
    hide SemaUp, Sem, Cv;
  }

  lemma {:induction false} OtherThanChild(st: State, u: Tid, t: Tid)
    requires PointInv(st) && st.cur in st.point && u in st.point && st.point[u] == Creating(t)
    ensures t != u && (Here(st).Creating? ==> Here(st).child != u)
  {
    assert st.point[u].Creating?;
  }

  lemma {:induction false} CreatingStep(trace: seq<State>, events: seq<Event>, u: Tid, t: Tid, j: nat)
    requires Run(trace, events) && 0 < j < |trace| && u in trace[j - 1].point && trace[j - 1].point[u] == Creating(t)
    ensures u in trace[j].point
    ensures if trace[j - 1].cur == u && events[j - 1].Advance? then
              trace[j].point[u] == User && JustReady(trace[j - 1], trace[j], t)
            else trace[j].point[u] == Creating(t)
  {
    hide Run, Apply, Enabled, PointInv, BroadcastInv, JustReady;
    RunStep(trace, events, j);
    RunParts(trace, events, j - 1);
    OtherThanChild(trace[j - 1], u, t);
    if trace[j - 1].cur == u {
      CreateStep(trace[j - 1], events[j - 1], t);
    } else {
      OtherPoint(trace[j - 1], events[j - 1], u);
    }
  }

  lemma {:induction false} StillCreating(trace: seq<State>, events: seq<Event>, u: Tid, t: Tid, i: nat, j: nat)
    requires Run(trace, events) && i <= j < |trace| && u in trace[i].point && trace[i].point[u] == Creating(t)
    requires forall m | i <= m <= j :: u in trace[m].point && trace[m].point[u] != User
    ensures trace[j].point[u] == Creating(t)
    decreases j
  {
    hide Run, JustReady;
    if i < j {
      StillCreating(trace, events, u, t, i, j - 1);
      CreatingStep(trace, events, u, t, j);
    }
  }

  /** thread_create makes a thread that was not there, and returns with it last on the ready list. */
  lemma {:induction false} CreateReturns(trace: seq<State>, events: seq<Event>, u: Tid, t: Tid, i: nat, j: nat)
    requires Run(trace, events) && i < j < |trace| && events[i] == Create(t) && trace[i].cur == u
    requires forall m | i < m < j :: u in trace[m].point && trace[m].point[u] != User
    requires u in trace[j].point && trace[j].point[u] == User
    ensures t !in trace[i].point && JustReady(trace[j - 1], trace[j], t)
  {
    hide Run, Apply, Enabled, JustReady;
    RunStep(trace, events, i + 1);
    CreateStarts(trace[i], t);
    StillCreating(trace, events, u, t, i + 1, j - 1);
    CreatingStep(trace, events, u, t, j);
  }

  lemma {:induction false} CreateStarts(st: State, t: Tid)
    requires st.cur in st.point && Enabled(st, Create(t))
    ensures t !in st.point && var r := Apply(st, Create(t)); st.cur in r.point && r.point[st.cur] == Creating(t)
  {
  }

  // ---------------------------------------------------------------- what is possible

  /** No state is stuck: the running thread can go on, or is free to make any call whose assertions hold. */
  lemma {:induction false} NeverStuck(trace: seq<State>, events: seq<Event>, i: nat)
    requires Run(trace, events) && i < |trace|
    ensures var st := trace[i];
      && st.cur in st.point && (Here(st) != User ==> Enabled(st, Advance))
      && (Preemptible(Here(st)) ==>
            Enabled(st, Preempt) && forall n :: Enabled(st, Up(n)) && Enabled(st, TryUp(n)) && Enabled(st, TryDown(n)))
      && (Here(st) == User ==>
            && (forall n :: Enabled(st, CallDown(n)))
            && (forall l :: Enabled(st, Acquire(l)) && Enabled(st, TryAcquire(l)) <==> Holder(st, l) != Some(st.cur))
            && (forall l :: Enabled(st, Release(l)) <==> Holder(st, l) == Some(st.cur))
            && (forall c :: Enabled(st, Wait(c)) && Enabled(st, Signal(c)) <==> Holder(st, c.lock) == Some(st.cur))
            && (forall c :: Enabled(st, Broadcast(c)) <==> Holder(st, c.lock) == Some(st.cur) || Cv(st, c).queue == []))
  {
    hide Run, SchedInv, PointInv, WaitInv, WakeInv, Ledger, LockInv, CondInv, Sem;
    RunKeeps(trace, events, i);
    HereBorn(trace[i]);
  }
}
