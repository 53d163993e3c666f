/** Semaphores over every interleaving: no wake-up is lost, and no unit of the value appears or disappears. */
module SemaphoreSafety {
  import opened Basics
  import opened Threads
  import opened ThreadInvariants

  /** Threads that sema_up took off the wait list of `s` and that have not tested the value again. */
  ghost function Woken(st: State, s: Sema): set<Tid> {
    set t | t in st.point && t in st.status && Asleep(st.point[t], s) && st.status[t] != Blocked
  }

  /** While anybody waits, the value is no more than what the threads already woken are going to look at. */
  ghost predicate WakeInv(st: State) {
    forall s {:trigger Sem(st, s)} :: Sem(st, s).waiters == [] || Sem(st, s).value <= |Woken(st, s)|
  }

  lemma {:induction false} WakeAside(st: State, r: State)
    requires WakeInv(st) && r.point == st.point && r.status == st.status
    requires forall q {:trigger Sem(r, q)} ::
      Sem(r, q).waiters == Sem(st, q).waiters && Sem(r, q).value <= Sem(st, q).value
    ensures WakeInv(r)
  {
    hide Sem;
    forall q {:trigger Sem(r, q)} | Sem(r, q).waiters != [] ensures Sem(r, q).value <= |Woken(r, q)| {
      assert Woken(r, q) == Woken(st, q);
    }
  }

  lemma {:induction false} WakeGoto(st: State, p: Point)
    requires WakeInv(st) && st.cur in st.point && Preemptible(Here(st)) && Preemptible(p)
    ensures WakeInv(Goto(st, p))
  {
    var r := Goto(st, p);
    assert forall q {:trigger Sem(r, q)} :: Sem(r, q) == Sem(st, q);
    hide Sem;
    forall q {:trigger Sem(r, q)} | Sem(r, q).waiters != [] ensures Sem(r, q).value <= |Woken(r, q)| {
      assert Woken(r, q) == Woken(st, q);
    }
  }

  /** sema_up adds the thread it takes off the list, and only that one. */
  lemma {:induction false} WokenAfterUp(st: State, s: Sema, q: Sema)
    requires WaitersBlocked(st)
    ensures var w := Sem(st, s).waiters;
            Woken(SemaUp(st, s), q) == if q == s && w != [] then Woken(st, q) + {w[0]} else Woken(st, q)
    ensures Sem(st, s).waiters != [] ==> Sem(st, s).waiters[0] !in Woken(st, q)
  {
    SemaUpEffect(st, s);
    hide SemaUp, Sem;
    var w := Sem(st, s).waiters;
    if w != [] {
      assert w[0] in w && Asleep(st.point[w[0]], s);
    }
  }

  lemma {:induction false} WakeUp(st: State, s: Sema)
    requires WaitersBlocked(st) && WakeInv(st)
    ensures WakeInv(SemaUp(st, s))
  {
    var r := SemaUp(st, s);
    forall q {:trigger Sem(r, q)} | Sem(r, q).waiters != [] ensures Sem(r, q).value <= |Woken(r, q)| {
      WokenAfterUp(st, s, q);
      SemaUpEffect(st, s);
      hide SemaUp, Sem, Woken;
    }
  }

  lemma {:induction false} CardMono<T>(a: set<T>, b: set<T>)
    requires a <= b
    ensures |a| <= |b|
  {
    assert b == a + (b - a);
  }

  lemma {:induction false} WokenAfterTake(st: State, p: Point, q: Sema)
    requires st.cur in st.point && st.cur in st.status && st.status[st.cur] == Running
    requires Here(st).Down? && Preemptible(p)
    ensures Woken(Goto(st, p), q) == if q == Here(st).sema then Woken(st, q) - {st.cur} else Woken(st, q)
    ensures q == Here(st).sema && !Here(st).slept ==> st.cur !in Woken(st, q)
  {
  }

  /** The test in sema_down succeeds: a woken thread that takes the value no longer counts as woken. */
  lemma {:induction false} WakeTake(st: State, p: Point)
    requires WakeInv(st) && st.cur in st.point && st.cur in st.status && st.status[st.cur] == Running
    requires Here(st).Down? && Sem(st, Here(st).sema).value > 0 && Preemptible(p)
    ensures WakeInv(Goto(SemaTake(st, Here(st).sema), p))
  {
    var s := Here(st).sema;
    var mid := SemaTake(st, s);
    var r := Goto(mid, p);
    forall q {:trigger Sem(r, q)} | Sem(r, q).waiters != [] ensures Sem(r, q).value <= |Woken(r, q)| {
      WokenAfterTake(mid, p, q);
      var w := Woken(st, q);
      assert Woken(mid, q) == w;
      assert Sem(r, q) == Sem(mid, q) && Sem(mid, q).waiters == Sem(st, q).waiters;
      assert Sem(mid, q).value == if q == s then Sem(st, q).value - 1 else Sem(st, q).value;
      hide Woken, Sem;
      assert |w| <= |w - {st.cur}| + 1 by {
        assert w <= (w - {st.cur}) + {st.cur};
        CardMono(w, (w - {st.cur}) + {st.cur});
      }
    }
  }

  lemma {:induction false} WakeQueued(st: State)
    requires Base(st) && WakeInv(st) && Here(st).Down? && Sem(st, Here(st).sema).value == 0
    ensures WakeInv(Queued(st, Here(st).sema, Here(st).after))
  {
    var s, r := Here(st).sema, Queued(st, Here(st).sema, Here(st).after);
    QueuedEffect(st, s, Here(st).after);
    hide Sem, Queued, PointInv, WaitInv, SchedInv;
    forall q {:trigger Sem(r, q)} | Sem(r, q).waiters != [] ensures Sem(r, q).value <= |Woken(r, q)| {
      if q != s {
        assert Woken(r, q) == Woken(st, q);
      }
    }
  }

  /** Changes of status that wake or block nobody who is inside sema_down. */
  lemma {:induction false} WakeStatus(st: State, r: State)
    requires WakeInv(st) && r.point == st.point && r.status.Keys == st.status.Keys
    requires forall t | t in st.point && t in st.status && st.point[t].Down? && st.point[t].slept ::
               r.status[t] == Blocked <==> st.status[t] == Blocked
    requires forall q {:trigger Sem(r, q)} :: Sem(r, q) == Sem(st, q)
    ensures WakeInv(r)
  {
    hide Sem;
    forall q {:trigger Sem(r, q)} | Sem(r, q).waiters != [] ensures Sem(r, q).value <= |Woken(r, q)| {
      assert Woken(r, q) == Woken(st, q);
    }
  }

  lemma {:induction false} WakeSchedule(st: State)
    requires Between(st) && WakeInv(st)
    ensures WakeInv(Schedule(st))
  {
    ScheduleEffect(st);
    hide Schedule, Sem, WaitInv;
    WakeStatus(st, Schedule(st));
  }

  lemma {:induction false} WakeStopped(st: State, r: State, own: Status)
    requires Base(st) && WakeInv(st) && Stopped(st, r, own) && (own == Blocked ==> st.cur == st.idle)
    ensures WakeInv(r)
  {
    hide Sem, WaitInv;
    WakeStatus(st, r);
  }

  lemma {:induction false} WakeSetUp(st: State, t: Tid)
    requires Base(st) && WakeInv(st) && t !in st.status && Here(st) == User
    ensures WakeInv(SetUp(st, t))
  {
    var r := SetUp(st, t);
    assert forall q {:trigger Sem(r, q)} :: Sem(r, q) == Sem(st, q);
    hide Sem, WaitInv, ReadyExact;
    forall q {:trigger Sem(r, q)} | Sem(r, q).waiters != [] ensures Sem(r, q).value <= |Woken(r, q)| {
      assert Woken(r, q) == Woken(st, q);
    }
  }

  lemma {:induction false} WakeLaunch(st: State, t: Tid)
    requires Base(st) && WakeInv(st) && Here(st) == Creating(t)
    ensures WakeInv(Launch(st, t))
  {
    hide Sem, SchedInv, PointInv, WaitInv, Woken;
    ChildUnborn(st, t);
    var r := Launch(st, t);
    forall q {:trigger Sem(r, q)} | Sem(r, q).waiters != [] ensures Sem(r, q).value <= |Woken(r, q)| {
      LaunchSame(st, t, q);
      WokenLaunch(st, t, q);
    }
  }

  lemma {:induction false} WokenLaunch(st: State, t: Tid, q: Sema)
    requires st.cur in st.point && Here(st) == Creating(t) && t in st.point && t in st.status
    requires st.point[t] == Unborn
    ensures Woken(Launch(st, t), q) == Woken(st, q)
  {
  }

  // ---------------------------------------------------------------- all steps

  lemma {:induction false} WakeContinue(st: State)
    requires Base(st) && WakeInv(st) && Enabled(st, Advance)
    ensures WakeInv(Continue(st))
  {
    hide SchedInv, PointInv, WaitersBlocked, WaitersOnce, BlockedWait, WakeInv;
    HereBorn(st);
    match Here(st)
    case Down(s, _, after) =>
      if Sem(st, s).value == 0 {
        assert PointOk(st.cur, Down(s, true, after));
        QueuedBetween(st, s, after);
        WakeQueued(st);
        WakeSchedule(Queued(st, s, after));
      } else {
        WakeTake(st, AfterDown(after));
      }
    case SetHolder(l, w) => WakeSetHolder(st);
    case Releasing(c) => WakeRelease(st, c.lock, Some(c));
    case UpLock(l, w) =>
      WakeUpThen(st, OfLock(l), if w == None then User else Down(Waiter(st.cur), false, Signaled(w.value)));
    case Signaling(c, t, all) =>
      WakeUpThen(st, Waiter(t), if all == None then User else Broadcasting(c, all.value.0, all.value.1 + [t]));
    case Broadcasting(c, whole, done) =>
      if Cv(st, c).queue == [] { WakeGoto(st, User); } else { WakePop(st, c, Some((whole, done))); }
    case Creating(t) => WakeLaunch(st, t);
    case IdleLoop =>
      var mid := st.(status := st.status[st.cur := Blocked]);
      StoppedBetween(st, mid, Blocked);
      WakeStopped(st, mid, Blocked);
      WakeSchedule(mid);
  }

  lemma {:induction false} WakeUpThen(st: State, s: Sema, p: Point)
    requires Base(st) && WakeInv(st) && Preemptible(Here(st)) && Preemptible(p)
    ensures WakeInv(Goto(SemaUp(st, s), p))
  {
    WakeUp(st, s);
    SemaUpEffect(st, s);
    hide SemaUp, WakeInv;
    WakeGoto(SemaUp(st, s), p);
  }

  lemma {:induction false} WakeSetHolder(st: State)
    requires WakeInv(st) && st.cur in st.point && Here(st).SetHolder?
    ensures WakeInv(Continue(st))
  {
    var l, w := Here(st).lock, Here(st).wait;
    var st1 := SetHolderOf(st, l, Some(st.cur));
    WakeAside(st, st1);
    WakeGoto(st1, User);
    if w != None {
      var x := Cv(st, w.value);
      WakeAside(Goto(st1, User), SetCond(Goto(st1, User), w.value, x.(returned := x.returned + 1)));
    }
  }

  lemma {:induction false} WakeRelease(st: State, l: nat, w: Option<Cond>)
    requires WakeInv(st) && st.cur in st.point && Preemptible(Here(st))
    ensures WakeInv(Goto(SetHolderOf(st, l, None), UpLock(l, w)))
  {
    WakeAside(st, SetHolderOf(st, l, None));
    WakeGoto(SetHolderOf(st, l, None), UpLock(l, w));
  }

  lemma {:induction false} WakePop(st: State, c: Cond, all: Option<(seq<Tid>, seq<Tid>)>)
    requires WakeInv(st) && st.cur in st.point && Preemptible(Here(st)) && Cv(st, c).queue != []
    ensures WakeInv(PopWaiter(st, c, all))
  {
    var x := Cv(st, c);
    var st1 := SetCond(st, c, x.(queue := x.queue[1..], signaled := x.signaled + 1));
    WakeAside(st, st1);
    WakeGoto(st1, Signaling(c, x.queue[0], all));
  }

  lemma {:induction false} WakeWait(st: State, c: Cond)
    requires Base(st) && WakeInv(st) && Enabled(st, Wait(c))
    ensures WakeInv(Apply(st, Wait(c)))
  {
    hide SchedInv, PointInv, WaitInv, WakeInv;
    OwnWaiterUnused(st);
    var st1 := SetSema(st, Waiter(st.cur), SemaState(0, [], 0, 0, 0));
    var x := Cv(st, c);
    var st2 := SetCond(st1, c, x.(queue := x.queue + [st.cur]));
    WakeAside(st, st1);
    WakeAside(st1, st2);
    WakeGoto(st2, Releasing(c));
  }

  lemma {:induction false} WakeExit(st: State, s: Sema)
    requires Base(st) && WakeInv(st) && Here(st) == User
    ensures WakeInv(Exit(st, s))
  {
    var up := SemaUp(st, s);
    SemaUpBase(st, s);
    SemaUpEffect(st, s);
    WakeUp(st, s);
    hide SemaUp, WakeInv;
    var mid := up.(status := up.status[up.cur := Dying]);
    StoppedBetween(up, mid, Dying);
    WakeStopped(up, mid, Dying);
    WakeSchedule(mid);
  }

  lemma {:induction false} WakeYield(st: State)
    requires Base(st) && WakeInv(st) && Here(st) != Unborn
    ensures WakeInv(Yield(st))
  {
    hide SchedInv, PointInv, WaitInv, WakeInv;
    var mid := st.(ready := if st.cur == st.idle then st.ready else st.ready + [st.cur],
                   status := st.status[st.cur := Ready]);
    StoppedBetween(st, mid, Ready);
    WakeStopped(st, mid, Ready);
    WakeSchedule(mid);
  }

  lemma {:induction false} WakeCall(st: State, e: Event)
    requires st.cur in st.point && WaitersBlocked(st) && WakeInv(st) && Enabled(st, e)
    requires e.CallDown? || e.TryDown? || e.Up? || e.TryUp? || e.Acquire? || e.TryAcquire?
    ensures WakeInv(Apply(st, e))
  {
    hide WakeInv, WaitersBlocked;
    match e
    case CallDown(n) => WakeGoto(st, Down(Plain(n), false, Return));
    case TryDown(n) => if Sem(st, Plain(n)).value > 0 { WakeAside(st, SemaTake(st, Plain(n))); }
    case Up(n) => WakeUp(st, Plain(n));
    case TryUp(n) => WakeUp(st, Plain(n));
    case Acquire(l) => WakeGoto(st, Down(OfLock(l), false, Acquired(l, None)));
    case TryAcquire(l) =>
      if Sem(st, OfLock(l)).value > 0 {
        WakeAside(st, SemaTake(st, OfLock(l)));
        WakeGoto(SemaTake(st, OfLock(l)), SetHolder(l, None));
      }
  }

  lemma {:induction false} WakeStep(st: State, e: Event)
    requires Base(st) && WakeInv(st) && Enabled(st, e)
    ensures WakeInv(Apply(st, e))
  {
    hide SchedInv, PointInv, WaitersBlocked, WaitersOnce, BlockedWait, WakeInv;
    HereBorn(st);
    match e
    case CallDown(_) => WakeCall(st, e);
    case TryDown(_) => WakeCall(st, e);
    case Up(_) => WakeCall(st, e);
    case TryUp(_) => WakeCall(st, e);
    case Acquire(_) => WakeCall(st, e);
    case TryAcquire(_) => WakeCall(st, e);
    case Release(l) => WakeRelease(st, l, None);
    case Wait(c) => WakeWait(st, c);
    case Signal(c) => if Cv(st, c).queue != [] { WakePop(st, c, None); }
    case Broadcast(c) =>
      if Holder(st, c.lock) == Some(st.cur) { WakeGoto(st, Broadcasting(c, Cv(st, c).queue, [])); }
    case Create(t) => WakeSetUp(st, t);
    case ExitThread(n) => WakeExit(st, Plain(n));
    case Advance => WakeContinue(st);
    case Preempt => WakeYield(st);
  }

  // ---------------------------------------------------------------- conservation

  /** Every up is in the value or has been taken by a completed down. */
  ghost predicate Ledger(st: State) {
    forall s {:trigger Sem(st, s)} ::
      && Sem(st, s).initial + Sem(st, s).ups == Sem(st, s).value + Sem(st, s).downs
      && (s.OfLock? ==> Sem(st, s).initial == 1) && (s.Waiter? ==> Sem(st, s).initial == 0)
  }

  lemma {:induction false} LedgerUp(st: State, s: Sema)
    requires Ledger(st)
    ensures Ledger(SemaUp(st, s))
  {
    SemaUpEffect(st, s);
    hide SemaUp, Sem;
  }

  lemma {:induction false} LedgerSame(st: State, r: State)
    requires Ledger(st) && r.semas == st.semas
    ensures Ledger(r)
  {
    assert forall q {:trigger Sem(r, q)} :: Sem(r, q) == Sem(st, q);
  }

  lemma {:induction false} LedgerContinue(st: State)
    requires Ledger(st) && st.cur in st.point && Enabled(st, Advance)
    ensures Ledger(Continue(st))
  {
    hide Ledger, SemaUp;
    match Here(st)
    case Down(s, _, after) => LedgerDown(st, s, after);
    case UpLock(l, w) =>
      LedgerUp(st, OfLock(l));
      LedgerSame(SemaUp(st, OfLock(l)), Continue(st));
    case Signaling(c, t, all) =>
      LedgerUp(st, Waiter(t));
      LedgerSame(SemaUp(st, Waiter(t)), Continue(st));
    case _ => LedgerSame(st, Continue(st));
  }

  lemma {:induction false} LedgerDown(st: State, s: Sema, after: After)
    requires Ledger(st) && st.cur in st.point && Here(st).Down? && Here(st).sema == s && Here(st).after == after
    ensures Ledger(Continue(st))
  {
    hide Ledger;
    if Sem(st, s).value == 0 {
      LedgerQueue(st, s, after);
      LedgerSame(Queued(st, s, after), Continue(st));
    } else {
      LedgerTake(st, s);
      LedgerSame(SemaTake(st, s), Continue(st));
    }
  }

  lemma {:induction false} LedgerQueue(st: State, s: Sema, after: After)
    requires Ledger(st)
    ensures Ledger(Queued(st, s, after))
  {
    QueuedEffect(st, s, after);
    hide Queued, Sem;
  }

  lemma {:induction false} LedgerTake(st: State, s: Sema)
    requires Ledger(st) && Sem(st, s).value > 0
    ensures Ledger(SemaTake(st, s))
  {
  }

  lemma {:induction false} LedgerWait(st: State, c: Cond)
    requires Ledger(st) && st.cur in st.point && Enabled(st, Wait(c))
    ensures Ledger(Apply(st, Wait(c)))
  {
    var st1 := SetSema(st, Waiter(st.cur), SemaState(0, [], 0, 0, 0));
    assert Ledger(st1);
    hide Ledger;
    LedgerSame(st1, Apply(st, Wait(c)));
  }

  lemma {:induction false} LedgerStep(st: State, e: Event)
    requires Ledger(st) && st.cur in st.point && Enabled(st, e)
    ensures Ledger(Apply(st, e))
  {
    hide Ledger;
    match e
    case TryDown(n) => if Sem(st, Plain(n)).value > 0 { LedgerTake(st, Plain(n)); }
    case Up(n) => LedgerUp(st, Plain(n));
    case TryUp(n) => LedgerUp(st, Plain(n));
    case TryAcquire(l) =>
      if Sem(st, OfLock(l)).value > 0 {
        LedgerTake(st, OfLock(l));
        LedgerSame(SemaTake(st, OfLock(l)), Apply(st, e));
      }
    case Wait(c) => LedgerWait(st, c);
    case ExitThread(n) =>
      LedgerUp(st, Plain(n));
      LedgerSame(SemaUp(st, Plain(n)), Apply(st, e));
    case Advance => LedgerContinue(st);
    case _ => LedgerSame(st, Apply(st, e));
  }
}
