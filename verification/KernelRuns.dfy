/** What holds in every state of every run of the step system in `Threads`. */
module KernelRuns {
  import opened Basics
  import opened Threads
  import opened ThreadInvariants
  import opened SemaphoreSafety
  import opened LockSafety
  import opened ConditionSafety

  ghost predicate Inv(st: State) {
    Base(st) && WakeInv(st) && Ledger(st) && LockInv(st) && CondInv(st)
  }

  lemma {:induction false} InitBase(st: State)
    requires Init(st)
    ensures Base(st) && WakeInv(st) && Ledger(st)
  {
    hide SchedInv, PointInv;
    InitThreads(st);
    assert forall s {:trigger Sem(st, s)} :: Sem(st, s).waiters == [];
  }

  lemma {:induction false} InitThreads(st: State)
    requires Init(st)
    ensures SchedInv(st) && PointInv(st)
  {
    hide Sem;
  }

  lemma {:induction false} InitLocks(st: State)
    requires Init(st)
    ensures LockInv(st)
  {
    assert forall l :: OfLock(l) !in st.semas;
    assert forall l :: Holder(st, l) == None;
  }

  lemma {:induction false} InitConds(st: State)
    requires Init(st)
    ensures CondInv(st)
  {
    assert forall t :: Waiter(t) !in st.semas;
    assert forall c :: Cv(st, c) == CondState([], 0, 0);
    assert forall c {:trigger Pending(st, c)} :: Pending(st, c) == {};
  }

  lemma {:induction false} StepKeeps(st: State, e: Event)
    requires Inv(st) && Enabled(st, e)
    ensures Inv(Apply(st, e))
  {
    assert PointInv(st) && HolderInv(st);
    hide SchedInv, PointInv, WaitInv, WakeInv, Ledger, LockInv, HolderInv, CondInv;
    BaseStep(st, e);
    WakeStep(st, e);
    LedgerStep(st, e);
    LockStepKeeps(st, e);
    CondStepKeeps(st, e);
  }

  /** The invariant holds throughout every run. */
  lemma {:induction false} RunKeeps(trace: seq<State>, events: seq<Event>, i: nat)
    requires Run(trace, events) && i < |trace|
    ensures Inv(trace[i])
  {
    if i == 0 {
      InitBase(trace[0]);
      InitLocks(trace[0]);
      InitConds(trace[0]);
    } else {
      RunKeeps(trace, events, i - 1);
      StepKeeps(trace[i - 1], events[i - 1]);
    }
  }

  // ---------------------------------------------------------------- what it means

  /** A thread's list element is on one list at most, as its two uses require. */
  lemma {:induction false} OneListEach(trace: seq<State>, events: seq<Event>, i: nat, t: Tid, s: Sema, q: Sema)
    requires Run(trace, events) && i < |trace|
    ensures t in Sem(trace[i], s).waiters ==> t !in trace[i].ready
    ensures t in Sem(trace[i], s).waiters && t in Sem(trace[i], q).waiters ==> s == q
    ensures Distinct(trace[i].ready) && Distinct(Sem(trace[i], s).waiters)
  {
    hide Run, WakeInv, Ledger, LockInv, CondInv, PointInv, Sem;
    RunKeeps(trace, events, i);
  }

  /** Exactly one thread runs, and the ready list is exactly the other ready threads. */
  lemma {:induction false} OneRunning(trace: seq<State>, events: seq<Event>, i: nat, t: Tid)
    requires Run(trace, events) && i < |trace|
    ensures trace[i].cur in trace[i].status
    ensures t in trace[i].status ==> (trace[i].status[t] == Running <==> t == trace[i].cur)
    ensures t in trace[i].ready <==> t in trace[i].status && trace[i].status[t] == Ready && t != trace[i].idle
  {
    RunKeeps(trace, events, i);
    hide Run, WakeInv, Ledger, LockInv, CondInv, PointInv, WaitInv;
  }

  /** If a semaphore is up while a thread waits for it, a thread that will take it is running or ready to run. */
  lemma {:induction false} NoLostWakeUp(trace: seq<State>, events: seq<Event>, i: nat, s: Sema)
    requires Run(trace, events) && i < |trace|
    ensures Sem(trace[i], s).waiters != [] ==> Sem(trace[i], s).value <= |Woken(trace[i], s)|
    ensures forall t | t in Woken(trace[i], s) :: t == trace[i].cur || t in trace[i].ready
  {
    RunKeeps(trace, events, i);
    var st := trace[i];
    hide Run, Ledger, LockInv, CondInv, WaitInv, Sem;
    forall t | t in Woken(st, s) ensures t == st.cur || t in st.ready {
      assert st.point[t] != User && st.point[t] != IdleLoop;
    }
  }

  lemma {:induction false} ValueConserved(trace: seq<State>, events: seq<Event>, i: nat, s: Sema)
    requires Run(trace, events) && i < |trace|
    ensures var x := Sem(trace[i], s); x.initial + x.ups == x.value + x.downs
  {
    RunKeeps(trace, events, i);
    hide Run, WakeInv, LockInv, CondInv, Base, Sem;
  }

  ghost function Owners(st: State, l: nat): set<Tid> {
    set t | t in st.point && Owns(st, t, l)
  }

  /** The value of a lock's semaphore and the threads between its down and its up always add up to one. */
  lemma {:induction false} MutualExclusion(trace: seq<State>, events: seq<Event>, i: nat, l: nat)
    requires Run(trace, events) && i < |trace|
    ensures Sem(trace[i], OfLock(l)).value + |Owners(trace[i], l)| == 1
    ensures Holder(trace[i], l).Some? ==> Owners(trace[i], l) == {Holder(trace[i], l).value}
  {
    RunKeeps(trace, events, i);
    var st := trace[i];
    hide Run, WakeInv, Ledger, CondInv, Base, Sem;
    if Sem(st, OfLock(l)).value == 0 {
      var t: Tid :| Owns(st, t, l);
      assert Owners(st, l) == {t};
    } else {
      assert Owners(st, l) == {};
    }
    assert Holder(st, l).Some? ==> Owns(st, Holder(st, l).value, l);
  }

  // ---------------------------------------------------------------- round robin

  /** The step goes through `schedule`. */
  predicate Switches(st: State, e: Event)
    requires st.cur in st.point && Enabled(st, e)
  {
    || e.Preempt? || e.ExitThread?
    || (e.Advance? && (Here(st).IdleLoop? || (Here(st).Down? && Sem(st, Here(st).sema).value == 0)))
  }

  /** The ready list as `schedule` finds it. */
  function Offered(st: State, e: Event): seq<Tid>
    requires st.cur in st.point && Enabled(st, e) && Switches(st, e)
  {
    match e
    case Preempt => if st.cur == st.idle then st.ready else st.ready + [st.cur]
    case ExitThread(n) => SemaUp(st, Plain(n)).ready
    case Advance => st.ready
  }

  lemma {:induction false} ContinueKept(st: State)
    requires st.cur in st.point && Enabled(st, Advance) && !Switches(st, Advance)
    ensures st.ready <= Continue(st).ready && Continue(st).cur == st.cur
  {
    hide SemaUp, Sem, Cv;
    match Here(st)
    case UpLock(l, _) => SemaUpEffect(st, OfLock(l));
    case Signaling(_, t, _) => SemaUpEffect(st, Waiter(t));
    case _ =>
  }

  lemma {:induction false} ReadyKept(st: State, e: Event)
    requires st.cur in st.point && Enabled(st, e) && !Switches(st, e)
    ensures st.ready <= Apply(st, e).ready && Apply(st, e).cur == st.cur
  {
    if e.Advance? { ContinueKept(st); }
    hide Continue;
  }

  /** Threads join the ready list at the back, and only `schedule` takes one off, at the front. */
  lemma {:induction false} ReadyTaken(st: State, e: Event)
    requires st.cur in st.point && Enabled(st, e) && Switches(st, e)
    ensures var r, q := Apply(st, e), Offered(st, e);
            && st.ready <= q
            && (if q == [] then r.cur == st.idle && r.ready == [] else r.cur == q[0] && r.ready == q[1..])
  {
  }

  ghost predicate MovesUp(st: State, r: State, switched: bool) {
    if switched then
      && (st.ready != [] ==> r.cur == st.ready[0])
      && (forall m | 0 < m < |st.ready| :: m - 1 < |r.ready| && r.ready[m - 1] == st.ready[m])
    else st.ready <= r.ready
  }

  lemma {:induction false} ReadyStep(st: State, e: Event)
    requires st.cur in st.point && Enabled(st, e)
    ensures MovesUp(st, Apply(st, e), Switches(st, e))
  {
    if Switches(st, e) { ReadyTaken(st, e); } else { ReadyKept(st, e); }
    hide Apply, Enabled, Switches, Offered;
  }

  ghost function SwitchCount(trace: seq<State>, events: seq<Event>, i: nat, j: nat): nat
    requires Run(trace, events) && i <= j < |trace|
  {
    if i == j then 0
    else SwitchCount(trace, events, i, j - 1) + if Switches(trace[j - 1], events[j - 1]) then 1 else 0
  }

  lemma {:induction false} RunStep(trace: seq<State>, events: seq<Event>, j: nat)
    requires Run(trace, events) && 0 < j < |trace|
    ensures j - 1 < |events| && trace[j - 1].cur in trace[j - 1].point && Enabled(trace[j - 1], events[j - 1])
    ensures trace[j] == Apply(trace[j - 1], events[j - 1])
  {
  }

  /** A thread that is number `k` on the ready list moves up one place per switch and gets the processor at switch `k
      + 1`. */
  lemma {:induction false} RoundRobin(trace: seq<State>, events: seq<Event>, i: nat, j: nat, k: nat)
    requires Run(trace, events) && i <= j < |trace| && k < |trace[i].ready|
    ensures var n := SwitchCount(trace, events, i, j);
            && (n <= k ==> k - n < |trace[j].ready| && trace[j].ready[k - n] == trace[i].ready[k])
            && (i < j && n == k + 1 && Switches(trace[j - 1], events[j - 1]) ==> trace[j].cur == trace[i].ready[k])
    decreases j
  {
    hide Run, Apply, Switches, Enabled;
    if i < j {
      RoundRobin(trace, events, i, j - 1, k);
      RunStep(trace, events, j);
      ReadyStep(trace[j - 1], events[j - 1]);
    }
  }

  // ---------------------------------------------------------------- wake-ups

  /** A step leaves the wait list as it is, adds to its back, or ups the semaphore and makes the front ready. */
  ghost predicate WaitersMove(st: State, r: State, s: Sema) {
    var x, y := Sem(st, s), Sem(r, s);
    || (y.ups == x.ups && x.waiters <= y.waiters)
    || (&& y.ups == x.ups + 1 && y.waiters == (if x.waiters == [] then [] else x.waiters[1..])
        && (x.waiters != [] ==> x.waiters[0] in r.ready || x.waiters[0] == r.cur))
  }

  lemma {:induction false} SemaUpMoves(st: State, q: Sema, s: Sema, p: Point)
    ensures WaitersMove(st, Goto(SemaUp(st, q), p), s)
  {
    UpMoves(st, q, s);
    hide SemaUp;
    assert Sem(Goto(SemaUp(st, q), p), s) == Sem(SemaUp(st, q), s);
  }

  lemma {:induction false} UpMoves(st: State, q: Sema, s: Sema)
    ensures WaitersMove(st, SemaUp(st, q), s)
  {
    SemaUpEffect(st, q);
    hide SemaUp, Sem;
  }

  lemma {:induction false} SameMoves(st: State, r: State, s: Sema)
    requires r.semas == st.semas
    ensures WaitersMove(st, r, s)
  {
  }

  lemma {:induction false} TakeMoves(st: State, q: Sema, s: Sema, p: Point)
    requires Sem(st, q).value > 0
    ensures WaitersMove(st, Goto(SemaTake(st, q), p), s) && WaitersMove(st, SemaTake(st, q), s)
  {
  }

  lemma {:induction false} SleepMoves(st: State, q: Sema, after: After, s: Sema)
    ensures WaitersMove(st, Sleep(st, q, after), s)
  {
    QueuedEffect(st, q, after);
    var r := Queued(st, q, after);
    assert Schedule(r).semas == r.semas;
    hide Queued, Schedule;
  }

  lemma {:induction false} ContinueMoves(st: State, s: Sema)
    requires st.cur in st.point && Enabled(st, Advance)
    ensures WaitersMove(st, Continue(st), s)
  {
    hide WaitersMove, Sem, SemaUp, SemaTake, Sleep;
    match Here(st)
    case UpLock(l, w) =>
      SemaUpMoves(st, OfLock(l), s, if w == None then User else Down(Waiter(st.cur), false, Signaled(w.value)));
    case Signaling(c, t, all) =>
      SemaUpMoves(st, Waiter(t), s, if all == None then User else Broadcasting(c, all.value.0, all.value.1 + [t]));
    case Down(q, _, after) =>
      if Sem(st, q).value == 0 { SleepMoves(st, q, after, s); } else { TakeMoves(st, q, s, AfterDown(after)); }
    case _ => SameMoves(st, Continue(st), s);
  }

  lemma {:induction false} ExitMoves(st: State, n: nat, s: Sema)
    ensures WaitersMove(st, Exit(st, Plain(n)), s)
  {
    SemaUpEffect(st, Plain(n));
    hide SemaUp;
    var up, x := SemaUp(st, Plain(n)), Sem(st, Plain(n));
    assert Sem(Exit(st, Plain(n)), s) == Sem(up, s);
    if x.waiters != [] { assert up.ready[|up.ready| - 1] == x.waiters[0]; }
  }

  lemma {:induction false} WaitMoves(st: State, c: Cond, s: Sema)
    requires st.cur in st.point && Enabled(st, Wait(c)) && !s.Waiter?
    ensures WaitersMove(st, Apply(st, Wait(c)), s)
  {
  }

  lemma {:induction false} WaitersStep(st: State, e: Event, s: Sema)
    requires st.cur in st.point && Enabled(st, e) && !s.Waiter?
    ensures WaitersMove(st, Apply(st, e), s)
  {
    hide WaitersMove, Sem, SemaUp, SemaTake, Sleep, Exit, Continue;
    match e
    case Advance => ContinueMoves(st, s);
    case Up(n) => UpMoves(st, Plain(n), s);
    case TryUp(n) => UpMoves(st, Plain(n), s); SameMoves(st, st, s);
    case TryDown(n) =>
      if Sem(st, Plain(n)).value > 0 { TakeMoves(st, Plain(n), s, User); } else { SameMoves(st, st, s); }
    case TryAcquire(l) =>
      if Sem(st, OfLock(l)).value > 0 {
        TakeMoves(st, OfLock(l), s, SetHolder(l, None));
      } else {
        SameMoves(st, st, s);
      }
    case ExitThread(n) => ExitMoves(st, n, s);
    case Wait(c) => WaitMoves(st, c, s);
    case _ => SameMoves(st, Apply(st, e), s);
  }

  /** The waiter that is number `k` on the wait list of a semaphore or lock is the one that up `k + 1` makes ready. */
  lemma {:induction false} WakesInOrder(trace: seq<State>, events: seq<Event>, i: nat, j: nat, s: Sema, k: nat)
    requires Run(trace, events) && i <= j < |trace| && !s.Waiter? && k < |Sem(trace[i], s).waiters|
    ensures Sem(trace[i], s).ups <= Sem(trace[j], s).ups
    ensures var n, t := Sem(trace[j], s).ups - Sem(trace[i], s).ups, Sem(trace[i], s).waiters[k];
            && (n <= k ==> k - n < |Sem(trace[j], s).waiters| && Sem(trace[j], s).waiters[k - n] == t)
            && (i < j && n == k + 1 && Sem(trace[j - 1], s).ups < Sem(trace[j], s).ups ==>
                 t in trace[j].ready || t == trace[j].cur)
    decreases j
  {
    hide Run, Apply, Enabled, Sem;
    if i < j {
      WakesInOrder(trace, events, i, j - 1, s, k);
      RunStep(trace, events, j);
      WaitersStep(trace[j - 1], events[j - 1], s);
    }
  }

  // ---------------------------------------------------------------- signals

  /** A step leaves the queue as it is, adds to its back, or takes its front off to signal it. */
  ghost predicate QueueMoves(st: State, r: State, c: Cond) {
    || (Cv(r, c).signaled == Cv(st, c).signaled && Cv(st, c).queue <= Cv(r, c).queue)
    || (&& Cv(r, c).signaled == Cv(st, c).signaled + 1 && Cv(st, c).queue != []
        && Cv(r, c).queue == Cv(st, c).queue[1..]
        && r.cur in r.point && Here(r).Signaling? && Here(r).cond == c && Here(r).waiter == Cv(st, c).queue[0])
  }

  /** What going on from a control point does to the condition variables. */
  lemma {:induction false} ContinueConds(st: State)
    requires st.cur in st.point && Enabled(st, Advance)
    ensures !Here(st).SetHolder? && !Here(st).Broadcasting? ==> Continue(st).conds == st.conds
  {
    hide SemaUp, Sem, Cv;
    match Here(st)
    case UpLock(l, _) => SemaUpEffect(st, OfLock(l));
    case Signaling(_, t, _) => SemaUpEffect(st, Waiter(t));
    case _ =>
  }

  lemma {:induction false} ContinueQueue(st: State, c: Cond)
    requires st.cur in st.point && Enabled(st, Advance)
    ensures QueueMoves(st, Continue(st), c)
  {
    ContinueConds(st);
    if Here(st).SetHolder? {
      SetHolderQueue(st, c);
    } else if Here(st).Broadcasting? {
      BroadcastingQueue(st, c);
    } else {
      hide Continue;
    }
    hide SemaUp, Sem, Continue;
  }

  lemma {:induction false} SetHolderQueue(st: State, c: Cond)
    requires st.cur in st.point && Here(st).SetHolder?
    ensures QueueMoves(st, Continue(st), c)
  {
  }

  lemma {:induction false} BroadcastingQueue(st: State, c: Cond)
    requires st.cur in st.point && Here(st).Broadcasting?
    ensures QueueMoves(st, Continue(st), c)
  {
  }

  lemma {:induction false} QueueStep(st: State, e: Event, c: Cond)
    requires st.cur in st.point && Enabled(st, e)
    ensures QueueMoves(st, Apply(st, e), c)
  {
    if e.Advance? { ContinueQueue(st, c); }
    if e.Up? { SemaUpEffect(st, Plain(e.id)); }
    if e.TryUp? { SemaUpEffect(st, Plain(e.id)); }
    if e.ExitThread? { SemaUpEffect(st, Plain(e.childSema)); }
    hide SemaUp, Continue, QueueMoves, Sem;
  }

  /** The waiter that is number `k` on the queue is the one that signal `k + 1` from there on releases. */
  lemma {:induction false} SignalsInOrder(trace: seq<State>, events: seq<Event>, i: nat, j: nat, c: Cond, k: nat)
    requires Run(trace, events) && i <= j < |trace| && k < |Cv(trace[i], c).queue|
    ensures Cv(trace[i], c).signaled <= Cv(trace[j], c).signaled
    ensures var n, t := Cv(trace[j], c).signaled - Cv(trace[i], c).signaled, Cv(trace[i], c).queue[k];
            && (n <= k ==> k - n < |Cv(trace[j], c).queue| && Cv(trace[j], c).queue[k - n] == t)
            && (i < j && n == k + 1 && Cv(trace[j - 1], c).signaled < Cv(trace[j], c).signaled ==>
                  trace[j].cur in trace[j].point && Here(trace[j]).Signaling? && Here(trace[j]).waiter == t)
    decreases j
  {
    hide Run, Apply, Enabled, Cv;
    if i < j {
      SignalsInOrder(trace, events, i, j - 1, c, k);
      RunStep(trace, events, j);
      QueueStep(trace[j - 1], events[j - 1], c);
    }
  }

  /** A signal finds its waiter inside cond_wait, with its semaphore down, whether or not it sleeps yet. */
  lemma {:induction false} SignalFindsWaiter(trace: seq<State>, events: seq<Event>, i: nat, u: Tid)
    requires Run(trace, events) && i < |trace| && u in trace[i].point && trace[i].point[u].Signaling?
    ensures var st := trace[i]; var p := st.point[u];
            && Holder(st, p.cond.lock) == Some(u) && p.waiter in st.point
            && WaitFor(st.point[p.waiter]) == Some(p.cond) && Sem(st, Waiter(p.waiter)).value == 0
  {
    hide Run, WakeInv, Ledger, Base, Sem;
    RunKeeps(trace, events, i);
    assert Signals(trace[i], u, trace[i].point[u].waiter);
    assert Needs(trace[i].point[u]) == Some(trace[i].point[u].cond.lock);
  }

  lemma {:induction false} AsleepWaiter(st: State, t: Tid)
    requires Base(st) && t in st.point
    ensures st.status[t] == Blocked && WaitFor(st.point[t]).Some? ==>
              t in Sem(st, Waiter(t)).waiters && Woken(st, Waiter(t)) == {}
  {
    hide SchedInv, Sem;
    assert PointOk(t, st.point[t]) && (st.point[t] == IdleLoop <==> t == st.idle);
    assert forall u | u in Woken(st, Waiter(t)) :: PointOk(u, st.point[u]) && u == t;
  }

  /** Once its semaphore is up, a waiter is never left blocked. */
  lemma {:induction false} SignaledWaiterRuns(trace: seq<State>, events: seq<Event>, i: nat, t: Tid)
    requires Run(trace, events) && i < |trace| && Sem(trace[i], Waiter(t)).value == 1
    ensures t in trace[i].status && t in trace[i].point && trace[i].status[t] != Blocked
    ensures WaitFor(trace[i].point[t]).Some?
  {
    hide Run, Ledger, LockInv, QueueInv, SignalInv, BroadcastInv, CountInv, Sem, SchedInv, WaitInv;
    RunKeeps(trace, events, i);
    AsleepWaiter(trace[i], t);
  }

  /** cond_wait comes back once per signal. */
  lemma {:induction false} OneReturnPerSignal(trace: seq<State>, events: seq<Event>, i: nat, c: Cond)
    requires Run(trace, events) && i < |trace|
    ensures Cv(trace[i], c).signaled == Cv(trace[i], c).returned + |Pending(trace[i], c)|
  {
    hide Run, WakeInv, Ledger, LockInv, Base, QueueInv, SignalInv, OutcomeInv, BroadcastInv, Cv;
    RunKeeps(trace, events, i);
  }

  /** When cond_wait comes back, its caller holds the lock. */
  lemma {:induction false} ReturnHoldsLock(trace: seq<State>, events: seq<Event>, i: nat, c: Cond)
    requires Run(trace, events) && 0 < i < |trace| && Cv(trace[i - 1], c).returned < Cv(trace[i], c).returned
    ensures trace[i].cur == trace[i - 1].cur && trace[i].cur in trace[i].point
    ensures Here(trace[i]) == User && Holder(trace[i], c.lock) == Some(trace[i].cur)
    ensures Owners(trace[i], c.lock) == {trace[i].cur}
  {
    hide Run, Apply, Enabled, Cv, SchedInv, WaitInv, WakeInv, Ledger, LockInv, CondInv, Owners;
    RunStep(trace, events, i);
    RunKeeps(trace, events, i - 1);
    ReturnStep(trace[i - 1], events[i - 1], c);
    MutualExclusion(trace, events, i, c.lock);
  }

  /** Only the last step of lock_acquire inside cond_wait counts as a return. */
  lemma {:induction false} ContinueReturn(st: State, c: Cond)
    requires st.cur in st.point && Enabled(st, Advance)
    ensures Cv(Continue(st), c).returned == Cv(st, c).returned || (Here(st).SetHolder? && Here(st).wait == Some(c))
  {
    ContinueConds(st);
    if Here(st).SetHolder? || Here(st).Broadcasting? { QuietReturn(st, c); }
    hide Continue;
  }

  lemma {:induction false} QuietReturn(st: State, c: Cond)
    requires st.cur in st.point && (Here(st).SetHolder? || Here(st).Broadcasting?)
    ensures Cv(Continue(st), c).returned == Cv(st, c).returned || (Here(st).SetHolder? && Here(st).wait == Some(c))
  {
  }

  lemma {:induction false} ReturnOnly(st: State, e: Event, c: Cond)
    requires st.cur in st.point && Enabled(st, e)
    ensures Cv(Apply(st, e), c).returned == Cv(st, c).returned
        || (e.Advance? && Here(st).SetHolder? && Here(st).wait == Some(c))
  {
    if e.Advance? { ContinueReturn(st, c); }
    if e.Up? { SemaUpEffect(st, Plain(e.id)); }
    if e.TryUp? { SemaUpEffect(st, Plain(e.id)); }
    if e.ExitThread? { SemaUpEffect(st, Plain(e.childSema)); }
    hide SemaUp, Sem, Continue;
  }

  lemma {:induction false} ReturnStep(st: State, e: Event, c: Cond)
    requires st.cur in st.point && PointInv(st) && Enabled(st, e)
    ensures var r := Apply(st, e);
            Cv(st, c).returned < Cv(r, c).returned ==>
              r.cur == st.cur && r.cur in r.point && Here(r) == User && Holder(r, c.lock) == Some(r.cur)
  {
    ReturnOnly(st, e, c);
    if e.Advance? && Here(st).SetHolder? { HolderSet(st); }
    hide PointInv, Cv, Continue, Holder;
    if !e.Advance? {
      hide Apply;
    }
  }

  lemma {:induction false} HolderSet(st: State)
    requires st.cur in st.point && PointInv(st) && Here(st).SetHolder?
    ensures var r := Continue(st);
      r.cur == st.cur && r.cur in r.point && Here(r) == User && Holder(r, Here(st).lock) == Some(st.cur)
    ensures Here(st).wait == None || Here(st).wait.value.lock == Here(st).lock
  {
    assert PointOk(st.cur, Here(st));
    hide PointInv;
  }

  // ---------------------------------------------------------------- broadcasts

  predicate InBroadcast(p: Point, c: Cond, whole: seq<Tid>) {
    || (p.Broadcasting? && p.cond == c && p.whole == whole)
    || (p.Signaling? && p.cond == c && p.all.Some? && p.all.value.0 == whole)
  }

  /** How many waiters a broadcast has taken off the queue. */
  function Taken(p: Point): nat
    requires p.Broadcasting? || (p.Signaling? && p.all.Some?)
  {
    if p.Broadcasting? then |p.done| else |p.all.value.1| + 1
  }

  lemma {:induction false} OtherContinue(st: State, u: Tid)
    requires st.cur in st.point && Enabled(st, Advance) && u in st.point && u != st.cur
    requires Here(st).Creating? ==> Here(st).child != u
    ensures u in Continue(st).point && Continue(st).point[u] == st.point[u]
  {
    hide SemaUp, Sem, Cv;
    match Here(st)
    case UpLock(l, _) => SemaUpEffect(st, OfLock(l));
    case Signaling(_, t, _) => SemaUpEffect(st, Waiter(t));
    case _ =>
  }

  lemma {:induction false} OtherPoint(st: State, e: Event, u: Tid)
    requires st.cur in st.point && Enabled(st, e) && u in st.point && u != st.cur
    requires Here(st).Creating? ==> Here(st).child != u
    ensures u in Apply(st, e).point && Apply(st, e).point[u] == st.point[u]
  {
    if e.Advance? { OtherContinue(st, u); }
    if e.Up? { SemaUpEffect(st, Plain(e.id)); }
    if e.TryUp? { SemaUpEffect(st, Plain(e.id)); }
    if e.ExitThread? { SemaUpEffect(st, Plain(e.childSema)); }
    hide SemaUp, Sem, Cv, Continue;
  }

  /** A thread inside cond_broadcast stays there with its count, takes one more waiter, or has found the queue empty. */
  lemma {:induction false} OwnPoint(st: State, e: Event, c: Cond, whole: seq<Tid>)
    requires st.cur in st.point && Enabled(st, e) && InBroadcast(Here(st), c, whole)
    ensures var r := Apply(st, e);
            && st.cur in r.point
            && (r.point[st.cur] == User ==> Cv(st, c).queue == [] && r.conds == st.conds)
            && (InBroadcast(r.point[st.cur], c, whole) ==> Taken(r.point[st.cur]) >= Taken(Here(st)))
  {
    if e.Advance? && Here(st).Signaling? { SemaUpEffect(st, Waiter(Here(st).waiter)); }
    if e.Up? { SemaUpEffect(st, Plain(e.id)); }
    if e.TryUp? { SemaUpEffect(st, Plain(e.id)); }
    hide SemaUp, Sem, Cv;
  }

  lemma {:induction false} BroadcastQueue(st: State, u: Tid, c: Cond, whole: seq<Tid>)
    requires BroadcastInv(st) && u in st.point && InBroadcast(st.point[u], c, whole)
    ensures Taken(st.point[u]) + |Cv(st, c).queue| == |whole|
  {
  }

  /** While a broadcast runs, whatever is not on the queue any more has been signaled. */
  lemma {:induction false} BroadcastProgress(trace: seq<State>, events: seq<Event>, i: nat, k: nat, u: Tid, c: Cond)
    requires Run(trace, events) && i < k < |trace| && events[i] == Broadcast(c) && trace[i].cur == u
    requires forall m | i < m <= k :: u in trace[m].point && InBroadcast(trace[m].point[u], c, Cv(trace[i], c).queue)
    ensures Cv(trace[k], c).signaled + |Cv(trace[k], c).queue| == Cv(trace[i], c).signaled + |Cv(trace[i], c).queue|
    decreases k
  {
    hide Run, Apply, Enabled, Cv, InBroadcast, PointInv, BroadcastInv;
    RunStep(trace, events, k);
    if k - 1 == i {
      BroadcastStart(trace[i], c);
    } else {
      BroadcastProgress(trace, events, i, k - 1, u, c);
      RunParts(trace, events, k - 1);
      RunParts(trace, events, k);
      BroadcastStays(trace[k - 1], events[k - 1], u, c, Cv(trace[i], c).queue);
    }
  }

  lemma {:induction false} RunParts(trace: seq<State>, events: seq<Event>, i: nat)
    requires Run(trace, events) && i < |trace|
    ensures PointInv(trace[i]) && BroadcastInv(trace[i])
  {
    hide Run;
    RunKeeps(trace, events, i);
  }

  lemma {:induction false} BroadcastStart(st: State, c: Cond)
    requires st.cur in st.point && Enabled(st, Broadcast(c))
    ensures Cv(Apply(st, Broadcast(c)), c) == Cv(st, c)
  {
  }

  lemma {:induction false} BroadcastNone(st: State, c: Cond)
    requires st.cur in st.point && Enabled(st, Broadcast(c)) && Apply(st, Broadcast(c)).point[st.cur] == User
    ensures Apply(st, Broadcast(c)) == st && Cv(st, c).queue == []
  {
  }

  lemma {:induction false} BroadcastStays(st: State, e: Event, u: Tid, c: Cond, whole: seq<Tid>)
    requires st.cur in st.point && PointInv(st) && Enabled(st, e) && BroadcastInv(st) && BroadcastInv(Apply(st, e))
    requires u in st.point && InBroadcast(st.point[u], c, whole)
    requires u in Apply(st, e).point && InBroadcast(Apply(st, e).point[u], c, whole)
    ensures var r := Apply(st, e); Cv(r, c).signaled + |Cv(r, c).queue| == Cv(st, c).signaled + |Cv(st, c).queue|
  {
    var r := Apply(st, e);
    BroadcastQueue(st, u, c, whole);
    BroadcastQueue(r, u, c, whole);
    QueueStep(st, e, c);
    if u == st.cur {
      OwnPoint(st, e, c, whole);
    } else {
      assert Here(st).Creating? ==> Here(st).child != u;
      OtherPoint(st, e, u);
    }
    hide Apply, Enabled, Cv, PointInv, BroadcastInv, InBroadcast, Taken;
  }

  lemma {:induction false} BroadcastEnds(st: State, e: Event, u: Tid, c: Cond, whole: seq<Tid>)
    requires st.cur in st.point && PointInv(st) && Enabled(st, e) && u in st.point && InBroadcast(st.point[u], c, whole)
    requires u in Apply(st, e).point && Apply(st, e).point[u] == User
    ensures Cv(st, c).queue == [] && Cv(Apply(st, e), c) == Cv(st, c)
  {
    assert Here(st).Creating? ==> Here(st).child != u;
    hide PointInv, Apply, Enabled;
    if u == st.cur { OwnPoint(st, e, c, whole); } else { OtherPoint(st, e, u); }
  }

  /** cond_broadcast returns with the queue empty, after one signal for each waiter it found there. */
  lemma {:induction false} BroadcastReleasesAll(trace: seq<State>, events: seq<Event>, i: nat, j: nat, u: Tid, c: Cond)
    requires Run(trace, events) && i < j < |trace| && events[i] == Broadcast(c) && trace[i].cur == u
    requires forall m | i < m < j :: u in trace[m].point && InBroadcast(trace[m].point[u], c, Cv(trace[i], c).queue)
    requires u in trace[j].point && trace[j].point[u] == User
    ensures Cv(trace[j], c).queue == []
    ensures Cv(trace[j], c).signaled == Cv(trace[i], c).signaled + |Cv(trace[i], c).queue|
  {
    hide Run, Apply, Enabled, Cv, InBroadcast, PointInv, BroadcastInv;
    RunStep(trace, events, j);
    if j == i + 1 {
      BroadcastNone(trace[i], c);
    } else {
      BroadcastProgress(trace, events, i, j - 1, u, c);
      RunParts(trace, events, j - 1);
      BroadcastEnds(trace[j - 1], events[j - 1], u, c, Cv(trace[i], c).queue);
    }
  }
}
