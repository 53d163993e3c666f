/** What every reachable state of the step system in `Threads` satisfies. */
module ThreadInvariants {
  import opened Basics
  import opened Threads

  // ---------------------------------------------------------------- the scheduler

  /** One thread runs; the ready list holds the ready threads, other than the idle thread, once each. */
  ghost predicate SchedInv(st: State) {
    && st.cur in st.status && st.idle in st.status && st.status[st.cur] == Running
    && (forall t | t in st.status && st.status[t] == Running :: t == st.cur)
    && ReadyExact(st)
  }

  ghost predicate ReadyExact(st: State) {
    && Distinct(st.ready)
    && (forall t | t in st.ready :: t in st.status && st.status[t] == Ready && t != st.idle)
    && (forall t | t in st.status && st.status[t] == Ready && t != st.idle :: t in st.ready)
  }

  // ---------------------------------------------------------------- control points

  ghost predicate PointOk(t: Tid, p: Point) {
    match p
    case Down(Plain(_), _, after) => after == Return
    case Down(OfLock(l), _, after) =>
      after.Acquired? && after.lock == l && (after.wait == None || after.wait.value.lock == l)
    case Down(Waiter(o), _, after) => o == t && after.Signaled?
    case SetHolder(l, w) => w == None || w.value.lock == l
    case UpLock(l, w) => w == None || w.value.lock == l
    case _ => true
  }

  ghost predicate PointInv(st: State) {
    && st.point.Keys == st.status.Keys && st.cur in st.point && st.idle in st.point
    && PointsOk(st) && ChildrenUnborn(st) && OneCreator(st)
  }

  ghost predicate PointsOk(st: State) {
    forall t | t in st.point ::
      && t in st.status && PointOk(t, st.point[t])
      && (st.point[t] == IdleLoop <==> t == st.idle)
      && (st.point[t] == Unborn ==> st.status[t] == Blocked)
      && (st.status[t] == Dying ==> st.point[t] == User)
  }

  ghost predicate ChildrenUnborn(st: State) {
    forall t {:trigger st.point[t].Creating?} | t in st.point && st.point[t].Creating? ::
      st.point[t].child in st.point && st.point[st.point[t].child] == Unborn
  }

  ghost predicate OneCreator(st: State) {
    forall t, u | t in st.point && u in st.point && st.point[t].Creating? && st.point[t] == st.point[u] :: t == u
  }

  // ---------------------------------------------------------------- wait lists

  predicate Asleep(p: Point, s: Sema) {
    p.Down? && p.slept && p.sema == s
  }

  /** A thread is on a wait list exactly while it is blocked in sema_down on that semaphore. */
  ghost predicate WaitInv(st: State) {
    WaitersBlocked(st) && WaitersOnce(st) && BlockedWait(st)
  }

  ghost predicate WaitersBlocked(st: State) {
    forall s, t | t in Sem(st, s).waiters ::
        t in st.point && t in st.status && st.status[t] == Blocked && Asleep(st.point[t], s)
  }

  ghost predicate WaitersOnce(st: State) {
    forall s {:trigger Sem(st, s)} :: Distinct(Sem(st, s).waiters)
  }

  ghost predicate BlockedWait(st: State) {
    forall t | t in st.point && t in st.status && st.status[t] == Blocked && t != st.idle && st.point[t] != Unborn ::
      st.point[t].Down? && st.point[t].slept && t in Sem(st, st.point[t].sema).waiters
  }

  ghost predicate Base(st: State) {
    st.cur in st.point && SchedInv(st) && PointInv(st) && WaitInv(st)
  }

  lemma {:induction false} DistinctPush<T>(s: seq<T>, t: T)
    requires Distinct(s) && t !in s
    ensures Distinct(s + [t])
  {
  }

  lemma {:induction false} DistinctPop<T>(s: seq<T>)
    requires Distinct(s) && s != []
    ensures Distinct(s[1..]) && s[0] !in s[1..]
  {
  }

  lemma {:induction false} ScheduleKeeps(st: State)
    requires st.idle in st.status && ReadyExact(st)
    requires forall t | t in st.status :: st.status[t] != Running
    ensures SchedInv(Schedule(st))
  {
    if st.ready != [] {
      DistinctPop(st.ready);
      assert st.ready == [st.ready[0]] + st.ready[1..];
    }
  }

  /** Waking a blocked thread leaves the scheduler in order. */
  lemma {:induction false} UnblockKeeps(st: State, t: Tid)
    requires ReadyExact(st) && t in st.status && st.status[t] == Blocked && t != st.idle
    ensures ReadyExact(Unblock(st, t))
  {
    DistinctPush(st.ready, t);
  }

  /** sema_up, field by field. */
  lemma {:induction false} SemaUpEffect(st: State, s: Sema)
    ensures var x, r := Sem(st, s), SemaUp(st, s);
            && r.point == st.point && r.cur == st.cur && r.idle == st.idle && r.holders == st.holders
            && r.conds == st.conds
            && (x.waiters == [] ==> r.status == st.status && r.ready == st.ready)
            && (x.waiters != [] ==>
                  r.status == st.status[x.waiters[0] := Ready] && r.ready == st.ready + [x.waiters[0]])
            && (forall q {:trigger Sem(r, q)} | q != s :: Sem(r, q) == Sem(st, q))
            && Sem(r, s) == x.(value := x.value + 1, ups := x.ups + 1,
                               waiters := if x.waiters == [] then [] else x.waiters[1..])
  {
  }

  lemma {:induction false} SemaUpSched(st: State, s: Sema)
    requires SchedInv(st) && PointInv(st) && WaitInv(st)
    ensures SchedInv(SemaUp(st, s))
  {
    hide SemaUp, Sem, ReadyExact, PointInv, WaitInv;
    SemaUpEffect(st, s);
    var x := Sem(st, s);
    if x.waiters != [] {
      HeadBlocked(st, s);
      UnblockKeeps(st, x.waiters[0]);
      SameReady(Unblock(st, x.waiters[0]), SemaUp(st, s));
    } else {
      SameReady(st, SemaUp(st, s));
    }
  }

  /** The first thread on a wait list is blocked, and it is not the idle thread. */
  lemma {:induction false} HeadBlocked(st: State, s: Sema)
    requires PointInv(st) && WaitInv(st) && Sem(st, s).waiters != []
    ensures var t := Sem(st, s).waiters[0]; t in st.status && st.status[t] == Blocked && t != st.idle
  {
    hide Sem, PointOk, WaitersOnce, BlockedWait;
    assert Sem(st, s).waiters[0] in Sem(st, s).waiters;
  }

  lemma {:induction false} SameReady(st: State, r: State)
    requires ReadyExact(st) && r.ready == st.ready && r.status == st.status && r.idle == st.idle
    ensures ReadyExact(r)
  {
  }

  lemma {:induction false} SemaUpPoints(st: State, s: Sema)
    requires PointInv(st) && WaitInv(st)
    ensures PointInv(SemaUp(st, s))
  {
    hide SemaUp, Sem, PointsOk, ChildrenUnborn, OneCreator, WaitInv;
    SemaUpEffect(st, s);
    var x, r := Sem(st, s), SemaUp(st, s);
    if x.waiters != [] { HeadAsleep(st, s); }
    SamePoints(st, r, if x.waiters == [] then st.cur else x.waiters[0]);
  }

  lemma {:induction false} HeadAsleep(st: State, s: Sema)
    requires WaitInv(st) && Sem(st, s).waiters != []
    ensures var t := Sem(st, s).waiters[0]; t in st.point && t in st.status && st.point[t].Down?
  {
    hide Sem, WaitersOnce, BlockedWait;
    assert Sem(st, s).waiters[0] in Sem(st, s).waiters;
  }

  /** Control points stay in order when one thread past its creation becomes ready. */
  lemma {:induction false} SamePoints(st: State, r: State, t: Tid)
    requires PointsOk(st) && ChildrenUnborn(st) && OneCreator(st) && r.point == st.point && r.idle == st.idle
    requires r.status == st.status || (t in st.point && st.point[t].Down? && r.status == st.status[t := Ready])
    ensures PointsOk(r) && ChildrenUnborn(r) && OneCreator(r)
  {
    hide PointOk;
  }

  lemma {:induction false} SemaUpBlocked(st: State, s: Sema)
    requires WaitersBlocked(st) && WaitersOnce(st)
    ensures WaitersBlocked(SemaUp(st, s))
  {
    SemaUpEffect(st, s);
    hide SemaUp, Sem;
    var x, r := Sem(st, s), SemaUp(st, s);
    if x.waiters != [] {
      DistinctPop(x.waiters);
      forall q, t | t in Sem(r, q).waiters
        ensures t in r.point && t in r.status && r.status[t] == Blocked && Asleep(r.point[t], q)
      {
        assert t in Sem(st, q).waiters;
        assert x.waiters[0] in x.waiters;
      }
    }
  }

  lemma {:induction false} SemaUpWait(st: State, s: Sema)
    requires WaitInv(st)
    ensures WaitersOnce(SemaUp(st, s)) && BlockedWait(SemaUp(st, s))
  {
    SemaUpEffect(st, s);
    hide SemaUp, Sem;
    var x := Sem(st, s);
    if x.waiters != [] {
      DistinctPop(x.waiters);
      assert x.waiters == [x.waiters[0]] + x.waiters[1..];
    }
  }

  lemma {:induction false} SemaUpBase(st: State, s: Sema)
    requires Base(st)
    ensures Base(SemaUp(st, s))
  {
    SemaUpSched(st, s);
    SemaUpPoints(st, s);
    SemaUpBlocked(st, s);
    SemaUpWait(st, s);
  }

  /** A step that only moves the running thread to `p`, and perhaps changes values, holders or queues of conditions. */
  ghost predicate Quiet(st: State, r: State, p: Point) {
    && r.cur == st.cur && r.idle == st.idle && r.status == st.status && r.ready == st.ready
    && r.point == st.point[st.cur := p]
    && (forall q {:trigger Sem(r, q)} :: Sem(r, q).waiters == Sem(st, q).waiters)
  }

  lemma {:induction false} QuietPoints(st: State, r: State, p: Point)
    requires PointInv(st) && st.status[st.cur] != Dying && Quiet(st, r, p) && PointOk(st.cur, p)
    requires Here(st) != IdleLoop && Here(st) != Unborn && p != IdleLoop && p != Unborn && !p.Creating?
    ensures PointInv(r)
  {
    hide Sem, PointOk;
  }

  lemma {:induction false} QuietWait(st: State, r: State, p: Point)
    requires WaitInv(st) && Quiet(st, r, p) && st.cur in st.status && st.status[st.cur] == Running
    ensures WaitInv(r)
  {
    hide Sem;
    forall q, t | t in Sem(r, q).waiters
      ensures t in r.point && t in r.status && r.status[t] == Blocked && Asleep(r.point[t], q)
    {
      assert t in Sem(st, q).waiters;
    }
  }

  lemma {:induction false} QuietBase(st: State, r: State, p: Point)
    requires Base(st) && Quiet(st, r, p) && PointOk(st.cur, p)
    requires Here(st) != IdleLoop && Here(st) != Unborn && p != IdleLoop && p != Unborn && !p.Creating?
    ensures Base(r)
  {
    QuietPoints(st, r, p);
    QuietWait(st, r, p);
  }

  /** The state in which `schedule` is called: nobody runs, everything else is in order. */
  ghost predicate Between(st: State) {
    && st.idle in st.status && ReadyExact(st)
    && (forall t | t in st.status :: st.status[t] != Running)
    && PointInv(st) && WaitInv(st)
  }

  function NextThread(st: State): Tid {
    if st.ready == [] then st.idle else st.ready[0]
  }

  lemma {:induction false} ScheduleEffect(st: State)
    ensures var r, n := Schedule(st), NextThread(st);
            && r.cur == n && r.idle == st.idle && r.point == st.point && r.semas == st.semas
            && r.holders == st.holders && r.conds == st.conds
            && r.status == st.status[n := Running]
    ensures forall q {:trigger Sem(Schedule(st), q)} :: Sem(Schedule(st), q) == Sem(st, q)
  {
  }

  lemma {:induction false} SchedulePoints(st: State)
    requires Between(st)
    ensures PointInv(Schedule(st))
  {
    ScheduleEffect(st);
    hide Schedule, Sem, PointOk, WaitInv;
  }

  lemma {:induction false} ScheduleWait(st: State)
    requires Between(st)
    ensures WaitInv(Schedule(st))
  {
    ScheduleEffect(st);
    hide Schedule, Sem, PointOk;
    var r := Schedule(st);
    forall q, t | t in Sem(r, q).waiters
      ensures t in r.point && t in r.status && r.status[t] == Blocked && Asleep(r.point[t], q)
    {
      assert t in Sem(st, q).waiters;
    }
  }

  lemma {:induction false} ScheduleBase(st: State)
    requires Between(st)
    ensures Base(Schedule(st))
  {
    ScheduleKeeps(st);
    SchedulePoints(st);
    ScheduleWait(st);
  }

  /** `r` is `st` with the running thread marked `own`; only the ready list may differ otherwise. */
  ghost predicate Stopped(st: State, r: State, own: Status) {
    && r.cur == st.cur && r.idle == st.idle && r.point == st.point && r.status == st.status[st.cur := own]
    && (forall q {:trigger Sem(r, q)} :: Sem(r, q) == Sem(st, q))
  }

  lemma {:induction false} StoppedPoints(st: State, r: State, own: Status)
    requires PointInv(st) && Stopped(st, r, own) && Here(st) != Unborn && (own == Dying ==> Here(st) == User)
    ensures PointInv(r)
  {
    hide Sem, PointOk;
  }

  lemma {:induction false} StoppedWait(st: State, r: State, own: Status)
    requires WaitInv(st) && Stopped(st, r, own) && st.cur in st.status && st.status[st.cur] == Running
    requires own == Blocked ==> st.cur == st.idle
    ensures WaitInv(r)
  {
    hide Sem;
    forall q, t | t in Sem(r, q).waiters
      ensures t in r.point && t in r.status && r.status[t] == Blocked && Asleep(r.point[t], q)
    {
      assert t in Sem(st, q).waiters;
    }
  }

  lemma {:induction false} StoppedBetween(st: State, r: State, own: Status)
    requires Base(st) && Stopped(st, r, own) && own != Running && Here(st) != Unborn
    requires (own == Dying ==> Here(st) == User) && (own == Blocked ==> st.cur == st.idle)
    requires r.ready == if own == Ready && st.cur != st.idle then st.ready + [st.cur] else st.ready
    ensures Between(r)
  {
    hide PointInv, WaitInv, Sem;
    StoppedPoints(st, r, own);
    StoppedWait(st, r, own);
    DistinctPush(st.ready, st.cur);
  }

  lemma {:induction false} QueuedEffect(st: State, s: Sema, after: After)
    ensures var x, r := Sem(st, s), Queued(st, s, after);
            && r.cur == st.cur && r.idle == st.idle && r.ready == st.ready
            && r.status == st.status[st.cur := Blocked] && r.point == st.point[st.cur := Down(s, true, after)]
            && (forall q {:trigger Sem(r, q)} | q != s :: Sem(r, q) == Sem(st, q))
            && Sem(r, s) == x.(waiters := x.waiters + [st.cur])
  {
  }

  lemma {:induction false} QueuedWait(st: State, s: Sema, after: After)
    requires WaitInv(st) && st.cur in st.status && st.status[st.cur] == Running && st.cur in st.point
    ensures WaitInv(Queued(st, s, after))
  {
    QueuedEffect(st, s, after);
    hide Queued, Sem;
    var x, r := Sem(st, s), Queued(st, s, after);
    assert st.cur !in x.waiters;
    DistinctPush(x.waiters, st.cur);
    forall q, t | t in Sem(r, q).waiters
      ensures t in r.point && t in r.status && r.status[t] == Blocked && Asleep(r.point[t], q)
    {
      assert t == st.cur || t in Sem(st, q).waiters;
      assert q != s ==> st.cur !in Sem(st, q).waiters;
    }
  }

  lemma {:induction false} QueuedPoints(st: State, s: Sema, after: After)
    requires PointInv(st) && Here(st).Down? && PointOk(st.cur, Down(s, true, after))
    ensures PointInv(Queued(st, s, after))
  {
    QueuedEffect(st, s, after);
    hide Queued, Sem, PointOk;
  }

  lemma {:induction false} QueuedBetween(st: State, s: Sema, after: After)
    requires Base(st) && Here(st).Down? && PointOk(st.cur, Down(s, true, after))
    ensures Between(Queued(st, s, after))
  {
    hide Queued, Sem, PointOk, WaitInv, PointInv;
    QueuedWait(st, s, after);
    QueuedPoints(st, s, after);
    QueuedEffect(st, s, after);
  }

  lemma {:induction false} PointOkPlain(t: Tid, u: Tid)
    ensures PointOk(t, Unborn) && PointOk(t, User) && PointOk(u, User) && PointOk(u, Creating(t))
  {
  }

  lemma {:induction false} SetUpPoints(st: State, t: Tid)
    requires PointInv(st) && SchedInv(st) && t !in st.status && Here(st) == User
    ensures PointInv(SetUp(st, t))
  {
    hide PointsOk, ChildrenUnborn, OneCreator, PointOk, ReadyExact;
    PointOkPlain(t, st.cur);
    SetUpPointsOk(st, SetUp(st, t), t);
    SetUpCreators(st, SetUp(st, t), t);
  }

  lemma {:induction false} SetUpPointsOk(st: State, r: State, t: Tid)
    requires PointsOk(st) && st.cur in st.point && t !in st.point && t != st.cur && t != st.idle && r.idle == st.idle
    requires st.point[st.cur] == User && st.status[st.cur] == Running
    requires PointOk(t, Unborn) && PointOk(st.cur, Creating(t))
    requires r.point == st.point[t := Unborn][st.cur := Creating(t)] && r.status == st.status[t := Blocked]
    ensures PointsOk(r)
  {
    hide PointOk;
  }

  lemma {:induction false} SetUpCreators(st: State, r: State, t: Tid)
    requires ChildrenUnborn(st) && OneCreator(st) && st.cur in st.point && st.point[st.cur] == User && t !in st.point
    requires r.point == st.point[t := Unborn][st.cur := Creating(t)]
    ensures ChildrenUnborn(r) && OneCreator(r)
  {
    forall u | u in r.point && r.point[u].Creating? && u != st.cur
      ensures u in st.point && st.point[u] == r.point[u] && st.point[u].child in st.point && st.point[u].child != st.cur
    {
      assert st.point[u].Creating?;
    }
  }

  lemma {:induction false} SetUpSame(st: State, t: Tid, q: Sema)
    ensures Sem(SetUp(st, t), q) == Sem(st, q)
  {
  }

  lemma {:induction false} SetUpWait(st: State, t: Tid)
    requires PointInv(st) && SchedInv(st) && WaitInv(st) && t !in st.status
    ensures WaitInv(SetUp(st, t))
  {
    hide Sem, ReadyExact, PointOk;
    var r := SetUp(st, t);
    forall q {:trigger Sem(r, q)} ensures Sem(r, q) == Sem(st, q) { SetUpSame(st, t, q); }
    forall q, u | u in Sem(r, q).waiters
      ensures u in r.point && u in r.status && r.status[u] == Blocked && Asleep(r.point[u], q)
    {
      assert u in Sem(st, q).waiters;
    }
  }

  lemma {:induction false} SetUpSched(st: State, t: Tid)
    requires SchedInv(st) && t !in st.status
    ensures SchedInv(SetUp(st, t))
  {
  }

  lemma {:induction false} SetUpBase(st: State, t: Tid)
    requires Base(st) && t !in st.status && Here(st) == User
    ensures Base(SetUp(st, t))
  {
    hide SchedInv, PointInv, WaitInv;
    SetUpSched(st, t);
    SetUpPoints(st, t);
    SetUpWait(st, t);
  }

  /** The thread that is being made is there, blocked, and is neither the running nor the idle thread. */
  lemma {:induction false} ChildUnborn(st: State, t: Tid)
    requires SchedInv(st) && PointInv(st) && Here(st) == Creating(t)
    ensures t in st.point && t in st.status && st.point[t] == Unborn && st.status[t] == Blocked
    ensures t != st.idle && t != st.cur && st.cur != st.idle && st.cur in st.status && st.status[st.cur] == Running
  {
    hide PointOk, ReadyExact;
    assert Here(st).Creating?;
  }

  lemma {:induction false} LaunchPoints(st: State, t: Tid)
    requires PointInv(st) && SchedInv(st) && Here(st) == Creating(t)
    ensures PointInv(Launch(st, t))
  {
    hide PointInv, PointOk, SchedInv;
    ChildUnborn(st, t);
    PointOkPlain(t, st.cur);
    LaunchPoint(st, Launch(st, t), t);
  }

  lemma {:induction false} LaunchPoint(st: State, r: State, t: Tid)
    requires PointInv(st) && st.point[st.cur] == Creating(t) && t in st.point && st.point[t] == Unborn
    requires t != st.idle && t != st.cur && st.cur != st.idle
    requires r.cur == st.cur && r.idle == st.idle && PointOk(t, User) && PointOk(st.cur, User)
    requires r.point == st.point[st.cur := User][t := User] && r.status == st.status[t := Ready]
    ensures PointInv(r)
  {
    hide PointsOk, ChildrenUnborn, OneCreator, PointOk;
    LaunchPointsOk(st, r, t);
    LaunchCreators(st, r, t);
  }

  lemma {:induction false} LaunchPointsOk(st: State, r: State, t: Tid)
    requires PointsOk(st) && st.cur in st.point && t in st.point && t != st.idle && st.cur != st.idle
    requires r.idle == st.idle
    requires PointOk(t, User) && PointOk(st.cur, User)
    requires r.point == st.point[st.cur := User][t := User] && r.status == st.status[t := Ready]
    ensures PointsOk(r)
  {
    hide PointOk;
  }

  lemma {:induction false} LaunchCreators(st: State, r: State, t: Tid)
    requires ChildrenUnborn(st) && OneCreator(st) && st.cur in st.point && st.point[st.cur] == Creating(t)
    requires t in st.point && st.point[t] == Unborn && r.point == st.point[st.cur := User][t := User]
    ensures ChildrenUnborn(r) && OneCreator(r)
  {
    forall u | u in r.point && r.point[u].Creating?
      ensures u in st.point && st.point[u] == r.point[u] && st.point[u].child != t && st.point[u].child != st.cur
    {
      assert st.point[u].Creating?;
    }
  }

  lemma {:induction false} LaunchSame(st: State, t: Tid, q: Sema)
    ensures Sem(Launch(st, t), q) == Sem(st, q)
  {
  }

  lemma {:induction false} LaunchWait(st: State, t: Tid)
    requires PointInv(st) && SchedInv(st) && WaitInv(st) && Here(st) == Creating(t)
    ensures WaitInv(Launch(st, t))
  {
    hide Sem, SchedInv, PointInv;
    ChildUnborn(st, t);
    var r := Launch(st, t);
    forall q {:trigger Sem(r, q)} ensures Sem(r, q) == Sem(st, q) { LaunchSame(st, t, q); }
    forall q, u | u in Sem(r, q).waiters
      ensures u in r.point && u in r.status && r.status[u] == Blocked && Asleep(r.point[u], q)
    {
      assert u in Sem(st, q).waiters;
    }
  }

  lemma {:induction false} LaunchSched(st: State, t: Tid)
    requires SchedInv(st) && t in st.status && st.status[t] == Blocked && t != st.idle && t != st.cur
    ensures SchedInv(Launch(st, t))
  {
    hide ReadyExact;
    UnblockKeeps(st, t);
    SameReady(Unblock(st, t), Launch(st, t));
  }

  lemma {:induction false} LaunchBase(st: State, t: Tid)
    requires Base(st) && Here(st) == Creating(t)
    ensures Base(Launch(st, t))
  {
    hide SchedInv, PointInv, WaitInv;
    ChildUnborn(st, t);
    LaunchSched(st, t);
    LaunchPoints(st, t);
    LaunchWait(st, t);
  }

  /** The running thread is past its creation. */
  lemma {:induction false} HereBorn(st: State)
    requires st.cur in st.point && SchedInv(st) && PointInv(st)
    ensures Here(st) != Unborn && PointOk(st.cur, Here(st)) && (Here(st) == IdleLoop <==> st.cur == st.idle)
    ensures st.cur in st.status && st.status[st.cur] == Running
  {
    hide PointOk, ReadyExact;
  }

  // ---------------------------------------------------------------- all steps keep the scheduler in order

  lemma {:induction false} GotoBase(st: State, p: Point)
    requires Base(st) && PointOk(st.cur, p)
    requires Here(st) != IdleLoop && Here(st) != Unborn && p != IdleLoop && p != Unborn && !p.Creating?
    ensures Base(Goto(st, p))
  {
    QuietBase(st, Goto(st, p), p);
  }

  /** Values, holders and queues of conditions may change freely. */
  ghost predicate Aside(st: State, r: State) {
    && r.cur == st.cur && r.idle == st.idle && r.status == st.status && r.ready == st.ready && r.point == st.point
    && (forall q {:trigger Sem(r, q)} :: Sem(r, q).waiters == Sem(st, q).waiters)
  }

  lemma {:induction false} AsideBase(st: State, r: State)
    requires Base(st) && Aside(st, r)
    ensures Base(r)
  {
    hide Sem, PointsOk, ChildrenUnborn, OneCreator, ReadyExact;
    SamePoints(st, r, st.cur);
    SameReady(st, r);
    forall q, t | t in Sem(r, q).waiters
      ensures t in r.point && t in r.status && r.status[t] == Blocked && Asleep(r.point[t], q)
    {
      assert t in Sem(st, q).waiters;
    }
  }

  lemma {:induction false} YieldBase(st: State)
    requires Base(st) && Here(st) != Unborn
    ensures Base(Yield(st))
  {
    hide SchedInv, PointInv, WaitInv;
    var mid := st.(ready := if st.cur == st.idle then st.ready else st.ready + [st.cur],
                   status := st.status[st.cur := Ready]);
    StoppedBetween(st, mid, Ready);
    ScheduleBase(mid);
  }

  lemma {:induction false} ExitBase(st: State, s: Sema)
    requires Base(st) && Here(st) == User
    ensures Base(Exit(st, s))
  {
    hide SchedInv, PointInv, WaitInv;
    var up := SemaUp(st, s);
    SemaUpBase(st, s);
    SemaUpEffect(st, s);
    hide SemaUp;
    var mid := up.(status := up.status[up.cur := Dying]);
    StoppedBetween(up, mid, Dying);
    ScheduleBase(mid);
  }

  lemma {:induction false} IdleBase(st: State)
    requires Base(st) && Here(st) == IdleLoop
    ensures Base(Continue(st))
  {
    assert st.cur == st.idle;
    hide SchedInv, PointInv, WaitInv;
    var mid := st.(status := st.status[st.cur := Blocked]);
    StoppedBetween(st, mid, Blocked);
    ScheduleBase(mid);
  }

  lemma {:induction false} TakeBase(st: State, s: Sema)
    requires Base(st) && Sem(st, s).value > 0
    ensures Base(SemaTake(st, s)) && SemaTake(st, s).point == st.point && SemaTake(st, s).cur == st.cur
  {
    AsideBase(st, SemaTake(st, s));
  }

  lemma {:induction false} DownBase(st: State)
    requires Base(st) && Here(st).Down?
    ensures Base(Continue(st))
  {
    var s, after := Here(st).sema, Here(st).after;
    assert PointOk(st.cur, Here(st));
    assert PointOk(st.cur, Down(s, true, after)) && PointOk(st.cur, AfterDown(after));
    hide SchedInv, PointInv, WaitInv;
    if Sem(st, s).value == 0 {
      QueuedBetween(st, s, after);
      ScheduleBase(Queued(st, s, after));
    } else {
      TakeBase(st, s);
      GotoBase(SemaTake(st, s), AfterDown(after));
    }
  }

  lemma {:induction false} UpThenBase(st: State, s: Sema, p: Point)
    requires Base(st) && PointOk(st.cur, p)
    requires Here(st) != IdleLoop && Here(st) != Unborn && p != IdleLoop && p != Unborn && !p.Creating?
    ensures Base(Goto(SemaUp(st, s), p))
  {
    hide SchedInv, PointInv, WaitInv;
    SemaUpBase(st, s);
    SemaUpEffect(st, s);
    hide SemaUp;
    GotoBase(SemaUp(st, s), p);
  }

  lemma {:induction false} HolderBase(st: State, l: nat, h: Option<Tid>)
    requires Base(st)
    ensures Base(SetHolderOf(st, l, h)) && SetHolderOf(st, l, h).point == st.point
    ensures SetHolderOf(st, l, h).cur == st.cur
  {
    AsideBase(st, SetHolderOf(st, l, h));
  }

  lemma {:induction false} CondBase(st: State, c: Cond, x: CondState)
    requires Base(st)
    ensures Base(SetCond(st, c, x)) && SetCond(st, c, x).point == st.point && SetCond(st, c, x).cur == st.cur
  {
    AsideBase(st, SetCond(st, c, x));
  }

  lemma {:induction false} WaiterOnlyOwner(st: State, o: Tid, t: Tid)
    requires PointInv(st) && WaitInv(st) && t in Sem(st, Waiter(o)).waiters
    ensures t == o && t in st.status && st.status[t] == Blocked
  {
    assert PointOk(t, st.point[t]);
  }

  lemma {:induction false} OwnWaiterUnused(st: State)
    requires Base(st)
    ensures Sem(st, Waiter(st.cur)).waiters == []
  {
    var w := Sem(st, Waiter(st.cur)).waiters;
    if w != [] {
      WaiterOnlyOwner(st, st.cur, w[0]);
    }
  }

  lemma {:induction false} WaitCallBase(st: State, c: Cond)
    requires Base(st) && Enabled(st, Wait(c))
    ensures Base(Apply(st, Wait(c)))
  {
    hide SchedInv, PointInv, WaitInv;
    OwnWaiterUnused(st);
    var st1 := SetSema(st, Waiter(st.cur), SemaState(0, [], 0, 0, 0));
    AsideBase(st, st1);
    var x := Cv(st, c);
    CondBase(st1, c, x.(queue := x.queue + [st.cur]));
    GotoBase(SetCond(st1, c, x.(queue := x.queue + [st.cur])), Releasing(c));
  }

  lemma {:induction false} PopBase(st: State, c: Cond, all: Option<(seq<Tid>, seq<Tid>)>)
    requires Base(st) && Cv(st, c).queue != [] && Here(st) != IdleLoop && Here(st) != Unborn
    ensures Base(PopWaiter(st, c, all))
  {
    hide SchedInv, PointInv, WaitInv;
    var x := Cv(st, c);
    CondBase(st, c, x.(queue := x.queue[1..], signaled := x.signaled + 1));
    GotoBase(SetCond(st, c, x.(queue := x.queue[1..], signaled := x.signaled + 1)), Signaling(c, x.queue[0], all));
  }

  lemma {:induction false} SetHolderBase(st: State)
    requires Base(st) && Here(st).SetHolder?
    ensures Base(Continue(st))
  {
    hide SchedInv, PointInv, WaitInv;
    var l, w := Here(st).lock, Here(st).wait;
    HolderBase(st, l, Some(st.cur));
    var st1 := Goto(SetHolderOf(st, l, Some(st.cur)), User);
    GotoBase(SetHolderOf(st, l, Some(st.cur)), User);
    if w != None {
      var x := Cv(st, w.value);
      CondBase(st1, w.value, x.(returned := x.returned + 1));
    }
  }

  lemma {:induction false} ReleaseBase(st: State, l: nat, w: Option<Cond>)
    requires Base(st) && Here(st) != IdleLoop && Here(st) != Unborn && (w == None || w.value.lock == l)
    ensures Base(Goto(SetHolderOf(st, l, None), UpLock(l, w)))
  {
    hide SchedInv, PointInv, WaitInv;
    HolderBase(st, l, None);
    GotoBase(SetHolderOf(st, l, None), UpLock(l, w));
  }

  lemma {:induction false} PointHere(st: State)
    requires PointInv(st) && st.cur in st.point
    ensures PointOk(st.cur, Here(st))
    ensures Here(st).Creating? ==> Here(st).child in st.point && st.point[Here(st).child] == Unborn
  {
  }

  lemma {:induction false} ContinueBase(st: State)
    requires Base(st) && Enabled(st, Advance)
    ensures Base(Continue(st))
  {
    hide SchedInv, PointInv, WaitInv;
    PointHere(st);
    match Here(st)
    case Down(s, _, after) => DownBase(st);
    case SetHolder(l, w) => SetHolderBase(st);
    case Releasing(c) => ReleaseBase(st, c.lock, Some(c));
    case UpLock(l, w) =>
      UpThenBase(st, OfLock(l), if w == None then User else Down(Waiter(st.cur), false, Signaled(w.value)));
    case Signaling(c, t, all) =>
      UpThenBase(st, Waiter(t), if all == None then User else Broadcasting(c, all.value.0, all.value.1 + [t]));
    case Broadcasting(c, whole, done) =>
      if Cv(st, c).queue == [] { GotoBase(st, User); } else { PopBase(st, c, Some((whole, done))); }
    case Creating(t) => LaunchBase(st, t);
    case IdleLoop => IdleBase(st);
  }

  lemma {:induction false} SemaCallBase(st: State, e: Event)
    requires Base(st) && Enabled(st, e) && Here(st) != Unborn && (e.CallDown? || e.TryDown? || e.Up? || e.TryUp?)
    ensures Base(Apply(st, e))
  {
    assert Here(st) == IdleLoop <==> st.cur == st.idle;
    hide SchedInv, PointInv, WaitInv;
    match e
    case CallDown(n) => GotoBase(st, Down(Plain(n), false, Return));
    case TryDown(n) => if Sem(st, Plain(n)).value > 0 { TakeBase(st, Plain(n)); }
    case Up(n) => SemaUpBase(st, Plain(n));
    case TryUp(n) => SemaUpBase(st, Plain(n));
  }

  lemma {:induction false} LockCallBase(st: State, e: Event)
    requires Base(st) && Enabled(st, e) && (e.Acquire? || e.TryAcquire? || e.Release?)
    ensures Base(Apply(st, e))
  {
    hide SchedInv, PointInv, WaitInv;
    match e
    case Acquire(l) => GotoBase(st, Down(OfLock(l), false, Acquired(l, None)));
    case TryAcquire(l) =>
      if Sem(st, OfLock(l)).value > 0 {
        TakeBase(st, OfLock(l));
        GotoBase(SemaTake(st, OfLock(l)), SetHolder(l, None));
      }
    case Release(l) => ReleaseBase(st, l, None);
  }

  lemma {:induction false} BaseStep(st: State, e: Event)
    requires Base(st) && Enabled(st, e)
    ensures Base(Apply(st, e))
  {
    hide SchedInv, PointInv, WaitInv;
    HereBorn(st);
    match e
    case CallDown(_) => SemaCallBase(st, e);
    case TryDown(_) => SemaCallBase(st, e);
    case Up(_) => SemaCallBase(st, e);
    case TryUp(_) => SemaCallBase(st, e);
    case Acquire(_) => LockCallBase(st, e);
    case TryAcquire(_) => LockCallBase(st, e);
    case Release(_) => LockCallBase(st, e);
    case Wait(c) => WaitCallBase(st, c);
    case Signal(c) => if Cv(st, c).queue != [] { PopBase(st, c, None); }
    case Broadcast(c) =>
      if Holder(st, c.lock) == Some(st.cur) { GotoBase(st, Broadcasting(c, Cv(st, c).queue, [])); }
    case Create(t) => SetUpBase(st, t);
    case ExitThread(n) => ExitBase(st, Plain(n));
    case Advance => ContinueBase(st);
    case Preempt => YieldBase(st);
  }
}
