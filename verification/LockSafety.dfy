/** Locks over every interleaving: at most one thread is between a completed sema_down and the matching sema_up. */
module LockSafety {
  import opened Basics
  import opened Threads
  import opened ThreadInvariants

  predicate InLock(p: Point) {
    p.SetHolder? || p.UpLock?
  }

  /** Inside lock_acquire or lock_release of `l`, where the holder field does not show who has the lock. */
  predicate Mid(p: Point, l: nat) {
    InLock(p) && p.lock == l
  }

  ghost predicate Owns(st: State, t: Tid, l: nat) {
    Holder(st, l) == Some(t) || (t in st.point && Mid(st.point[t], l))
  }

  /** The lock that has to be held at a control point inside the condition variable functions. */
  function Needs(p: Point): Option<nat> {
    if p.Releasing? || p.Signaling? || p.Broadcasting? then Some(p.cond.lock) else None
  }

  ghost predicate LockInv(st: State) {
    && (forall l {:trigger Sem(st, OfLock(l))} :: Sem(st, OfLock(l)).value <= 1)
    && (forall l, t {:trigger Owns(st, t, l)} | Owns(st, t, l) :: Sem(st, OfLock(l)).value == 0 && t in st.point)
    && (forall l {:trigger Sem(st, OfLock(l))} | Sem(st, OfLock(l)).value == 0 :: exists t :: Owns(st, t, l))
    && (forall l, t, u {:trigger Owns(st, t, l), Owns(st, u, l)} | Owns(st, t, l) && Owns(st, u, l) :: t == u)
    && HolderInv(st)
  }

  /** What the holder field says at each control point. */
  ghost predicate HolderInv(st: State) {
    && (forall t, l {:trigger Mid(st.point[t], l)} | t in st.point && Mid(st.point[t], l) :: Holder(st, l) == None)
    && (forall t {:trigger Needs(st.point[t])} | t in st.point && Needs(st.point[t]).Some? ::
          Holder(st, Needs(st.point[t]).value) == Some(t))
  }

  /** Steps that touch no lock: only the running thread moves, to a point that is allowed there. */
  ghost predicate NoLock(st: State, r: State) {
    && (forall l {:trigger Holder(r, l)} :: Holder(r, l) == Holder(st, l))
    && (forall l {:trigger Sem(r, OfLock(l))} :: Sem(r, OfLock(l)).value == Sem(st, OfLock(l)).value)
    && (forall t | t in st.point :: t in r.point)
    && (forall t | t in r.point && t in st.point && r.point[t] != st.point[t] ::
          && !InLock(r.point[t]) && !InLock(st.point[t])
          && (Needs(r.point[t]).Some? ==> Holder(st, Needs(r.point[t]).value) == Some(t)))
    && (forall t | t in r.point && t !in st.point :: !InLock(r.point[t]) && Needs(r.point[t]) == None)
  }

  lemma {:induction false} NoLockHolder(st: State, r: State)
    requires HolderInv(st) && NoLock(st, r)
    ensures HolderInv(r)
  {
    hide Sem, Holder;
  }

  lemma {:induction false} NoLockKeeps(st: State, r: State)
    requires LockInv(st) && NoLock(st, r)
    ensures LockInv(r)
  {
    NoLockHolder(st, r);
    assert forall t, l {:trigger Owns(r, t, l)} :: Owns(r, t, l) <==> Owns(st, t, l);
    hide Sem, HolderInv, Owns;
    forall l {:trigger Sem(r, OfLock(l))} | Sem(r, OfLock(l)).value == 0 ensures exists t :: Owns(r, t, l) {
      var t :| Owns(st, t, l);
      assert Owns(r, t, l);
    }
  }

  /** Exactly the ownership of lock `l` changes: from nobody to `cur`, from `cur` to nobody, or not at all. */
  ghost predicate OwnerChange(st: State, r: State, l: nat) {
    && st.cur in st.point && st.cur in r.point && r.point.Keys == st.point.Keys
    && (forall k, t {:trigger Owns(r, t, k)} | k != l || t != st.cur :: Owns(r, t, k) == Owns(st, t, k))
    && (forall k {:trigger Sem(r, OfLock(k))} | k != l :: Sem(r, OfLock(k)).value == Sem(st, OfLock(k)).value)
    && Sem(r, OfLock(l)).value + (if Owns(r, st.cur, l) then 1 else 0) == 1
  }

  lemma {:induction false} OwnerChangeKeeps(st: State, r: State, l: nat)
    requires LockInv(st) && OwnerChange(st, r, l) && HolderInv(r)
    requires Owns(st, st.cur, l) || Sem(st, OfLock(l)).value == 1
    ensures LockInv(r)
  {
    hide Sem, HolderInv, Owns;
    assert forall t {:trigger Owns(st, t, l)} | Owns(st, t, l) :: t == st.cur;
    forall k {:trigger Sem(r, OfLock(k))} | Sem(r, OfLock(k)).value == 0 ensures exists t :: Owns(r, t, k) {
      if k == l {
        assert Owns(r, st.cur, l);
      } else {
        var t :| Owns(st, t, k);
        assert Owns(r, t, k);
      }
    }
  }

  /** `r` is `st` with the running thread at `p`, the holder of `l` as given, and the value of that lock's semaphore
      as given. */
  ghost predicate LockStep(st: State, r: State, p: Point, l: nat, h: Option<Tid>, v: nat) {
    && st.cur in st.point && r.point == st.point[st.cur := p]
    && (forall k {:trigger Holder(r, k)} :: Holder(r, k) == if k == l then h else Holder(st, k))
    && (forall k {:trigger Sem(r, OfLock(k))} | k != l :: Sem(r, OfLock(k)).value == Sem(st, OfLock(k)).value)
    && Sem(r, OfLock(l)).value == v
  }

  /** sema_down on the lock's semaphore completes; the holder field is still to be set. */
  lemma {:induction false} TakenKeeps(st: State, r: State, l: nat, w: Option<Cond>)
    requires LockInv(st) && LockStep(st, r, SetHolder(l, w), l, Holder(st, l), 0)
    requires Sem(st, OfLock(l)).value == 1 && !InLock(Here(st))
    ensures LockInv(r)
  {
    assert Holder(st, l).Some? ==> Owns(st, Holder(st, l).value, l);
    assert HolderInv(r) by { hide Sem; }
    assert OwnerChange(st, r, l) by { hide Sem; }
    OwnerChangeKeeps(st, r, l);
  }

  /** lock_acquire sets the holder field. */
  lemma {:induction false} HolderSetKeeps(st: State, r: State, l: nat, w: Option<Cond>)
    requires LockInv(st) && LockStep(st, r, User, l, Some(st.cur), Sem(st, OfLock(l)).value)
    requires Here(st) == SetHolder(l, w)
    ensures LockInv(r)
  {
    assert Owns(st, st.cur, l) && Mid(Here(st), l);
    forall t {:trigger Mid(st.point[t], l)} | t in st.point && Mid(st.point[t], l) ensures t == st.cur {
      assert Owns(st, t, l);
    }
    assert HolderInv(r) by { hide Sem; }
    assert OwnerChange(st, r, l) by { hide Sem; }
    OwnerChangeKeeps(st, r, l);
  }

  /** lock_release clears the holder field. */
  lemma {:induction false} ClearedKeeps(st: State, r: State, l: nat, w: Option<Cond>)
    requires LockInv(st) && LockStep(st, r, UpLock(l, w), l, None, Sem(st, OfLock(l)).value)
    requires st.cur in st.point && Holder(st, l) == Some(st.cur) && !InLock(Here(st))
    ensures LockInv(r)
  {
    assert Owns(st, st.cur, l);
    assert Mid(UpLock(l, w), l);
    assert HolderInv(r) by {
      hide Sem;
      forall t {:trigger Needs(r.point[t])} | t in r.point && Needs(r.point[t]).Some?
        ensures Holder(r, Needs(r.point[t]).value) == Some(t)
      {
        assert t in st.point && Needs(st.point[t]).Some?;
      }
    }
    assert Owns(r, st.cur, l);
    forall k, t {:trigger Owns(r, t, k)} | k != l || t != st.cur ensures Owns(r, t, k) == Owns(st, t, k) {
      assert t in r.point ==> r.point[t] == if t == st.cur then UpLock(l, w) else st.point[t];
    }
    assert OwnerChange(st, r, l);
    OwnerChangeKeeps(st, r, l);
  }

  /** lock_release completes. */
  lemma {:induction false} ReleasedKeeps(st: State, r: State, p: Point, l: nat, w: Option<Cond>)
    requires LockInv(st) && LockStep(st, r, p, l, Holder(st, l), Sem(st, OfLock(l)).value + 1)
    requires Here(st) == UpLock(l, w)
    requires !InLock(p) && Needs(p) == None
    ensures LockInv(r)
  {
    assert Mid(Here(st), l) && Owns(st, st.cur, l);
    assert HolderInv(r) by { hide Sem; }
    assert OwnerChange(st, r, l) by { hide Sem; }
    OwnerChangeKeeps(st, r, l);
  }

  // ---------------------------------------------------------------- all steps

  lemma {:induction false} LockGoto(st: State, p: Point)
    requires LockInv(st) && st.cur in st.point && !InLock(Here(st)) && !InLock(p)
    requires Needs(p).Some? ==> Holder(st, Needs(p).value) == Some(st.cur)
    ensures LockInv(Goto(st, p))
  {
    NoLockKeeps(st, Goto(st, p));
  }

  /** Control points and holders stay, and so do the values of the locks' semaphores. */
  lemma {:induction false} LockAside(st: State, r: State)
    requires LockInv(st) && r.point == st.point && r.holders == st.holders
    requires forall l {:trigger Sem(r, OfLock(l))} :: Sem(r, OfLock(l)).value == Sem(st, OfLock(l)).value
    ensures LockInv(r)
  {
    hide Sem;
    NoLockKeeps(st, r);
  }

  lemma {:induction false} LockUpOther(st: State, s: Sema)
    requires LockInv(st) && !s.OfLock?
    ensures LockInv(SemaUp(st, s))
  {
    SemaUpEffect(st, s);
    hide SemaUp, Sem;
    LockAside(st, SemaUp(st, s));
  }

  lemma {:induction false} LockSchedule(st: State)
    requires LockInv(st)
    ensures LockInv(Schedule(st))
  {
    ScheduleEffect(st);
    hide Schedule, Sem;
    LockAside(st, Schedule(st));
  }

  lemma {:induction false} LockQueued(st: State, s: Sema, after: After)
    requires LockInv(st) && st.cur in st.point && Here(st).Down?
    ensures LockInv(Queued(st, s, after))
  {
    var x := Sem(st, s);
    var st1 := SetSema(st, s, x.(waiters := x.waiters + [st.cur]));
    LockAside(st, st1);
    LockGoto(st1, Down(s, true, after));
    LockAside(Goto(st1, Down(s, true, after)), Queued(st, s, after));
  }

  lemma {:induction false} LockTake(st: State, s: Sema, p: Point)
    requires LockInv(st) && st.cur in st.point && !InLock(Here(st)) && Sem(st, s).value > 0
    requires if s.OfLock? then p.SetHolder? && p.lock == s.lock else !InLock(p) && Needs(p) == None
    ensures LockInv(Goto(SemaTake(st, s), p))
  {
    if s.OfLock? {
      TakenKeeps(st, Goto(SemaTake(st, s), p), s.lock, p.wait);
    } else {
      LockAside(st, SemaTake(st, s));
      LockGoto(SemaTake(st, s), p);
    }
  }

  lemma {:induction false} LockDown(st: State)
    requires LockInv(st) && st.cur in st.point && PointOk(st.cur, Here(st)) && Here(st).Down?
    ensures LockInv(Continue(st))
  {
    var s, after := Here(st).sema, Here(st).after;
    if Sem(st, s).value == 0 {
      LockQueued(st, s, after);
      LockSchedule(Queued(st, s, after));
    } else {
      LockTake(st, s, AfterDown(after));
    }
  }

  lemma {:induction false} LockSetHolder(st: State)
    requires LockInv(st) && st.cur in st.point && Here(st).SetHolder?
    ensures LockInv(Continue(st))
  {
    var l, w := Here(st).lock, Here(st).wait;
    var r := Goto(SetHolderOf(st, l, Some(st.cur)), User);
    HolderSetKeeps(st, r, l, w);
    if w != None {
      var x := Cv(st, w.value);
      LockAside(r, SetCond(r, w.value, x.(returned := x.returned + 1)));
    }
  }

  lemma {:induction false} LockUp(st: State, p: Point)
    requires LockInv(st) && st.cur in st.point && Here(st).UpLock? && !InLock(p) && Needs(p) == None
    ensures LockInv(Goto(SemaUp(st, OfLock(Here(st).lock)), p))
  {
    var l, w := Here(st).lock, Here(st).wait;
    var r := Goto(SemaUp(st, OfLock(l)), p);
    SemaUpEffect(st, OfLock(l));
    assert forall q {:trigger Sem(r, q)} :: Sem(r, q) == Sem(SemaUp(st, OfLock(l)), q);
    hide SemaUp, Sem;
    assert forall k :: Holder(r, k) == Holder(st, k);
    ReleasedKeeps(st, r, p, l, w);
  }

  lemma {:induction false} LockPop(st: State, c: Cond, all: Option<(seq<Tid>, seq<Tid>)>)
    requires LockInv(st) && st.cur in st.point && !InLock(Here(st))
    requires Cv(st, c).queue != [] && Holder(st, c.lock) == Some(st.cur)
    ensures LockInv(PopWaiter(st, c, all))
  {
    var x := Cv(st, c);
    var st1 := SetCond(st, c, x.(queue := x.queue[1..], signaled := x.signaled + 1));
    LockAside(st, st1);
    LockGoto(st1, Signaling(c, x.queue[0], all));
  }

  lemma {:induction false} LockSignaling(st: State)
    requires LockInv(st) && st.cur in st.point && Here(st).Signaling?
    ensures LockInv(Continue(st))
  {
    var c, t, all := Here(st).cond, Here(st).waiter, Here(st).all;
    assert Needs(Here(st)) == Some(c.lock);
    LockUpOther(st, Waiter(t));
    SemaUpEffect(st, Waiter(t));
    hide SemaUp, LockInv;
    LockGoto(SemaUp(st, Waiter(t)), if all == None then User else Broadcasting(c, all.value.0, all.value.1 + [t]));
  }

  lemma {:induction false} LockLaunch(st: State, t: Tid)
    requires LockInv(st) && st.cur in st.point && t in st.point && Here(st) == Creating(t) && st.point[t] == Unborn
    ensures LockInv(Launch(st, t))
  {
    assert Launch(st, t).holders == st.holders;
    var r := Launch(st, t);
    assert forall q {:trigger Sem(r, q)} :: Sem(r, q) == Sem(st, q);
    hide Sem, LockInv;
    NoLockKeeps(st, r);
  }

  lemma {:induction false} LockSetUp(st: State, t: Tid)
    requires LockInv(st) && st.cur in st.point && t !in st.point && Here(st) == User
    ensures LockInv(SetUp(st, t))
  {
    NoLockKeeps(st, SetUp(st, t));
  }

  lemma {:induction false} LockHere(st: State)
    requires st.cur in st.point && PointInv(st) && LockInv(st)
    ensures PointOk(st.cur, Here(st))
    ensures Needs(Here(st)).Some? ==> Holder(st, Needs(Here(st)).value) == Some(st.cur)
    ensures Here(st).Creating? ==> Here(st).child in st.point && st.point[Here(st).child] == Unborn
  {
  }

  lemma {:induction false} LockContinue(st: State)
    requires st.cur in st.point && PointInv(st) && LockInv(st) && Enabled(st, Advance)
    ensures LockInv(Continue(st))
  {
    hide LockInv, PointInv;
    LockHere(st);
    match Here(st)
    case Down(_, _, _) => LockDown(st);
    case SetHolder(_, _) => LockSetHolder(st);
    case Releasing(c) => ClearedKeeps(st, Continue(st), c.lock, Some(c));
    case UpLock(_, w) => LockUp(st, if w == None then User else Down(Waiter(st.cur), false, Signaled(w.value)));
    case Signaling(_, _, _) => LockSignaling(st);
    case Broadcasting(c, whole, done) =>
      if Cv(st, c).queue == [] { LockGoto(st, User); } else { LockPop(st, c, Some((whole, done))); }
    case Creating(t) => LockLaunch(st, t);
    case IdleLoop => LockIdle(st);
  }

  lemma {:induction false} LockIdle(st: State)
    requires LockInv(st)
    ensures LockInv(Schedule(st.(status := st.status[st.cur := Blocked])))
  {
    var mid := st.(status := st.status[st.cur := Blocked]);
    LockAside(st, mid);
    LockSchedule(mid);
  }

  lemma {:induction false} LockWait(st: State, c: Cond)
    requires LockInv(st) && st.cur in st.point && Enabled(st, Wait(c))
    ensures LockInv(Apply(st, Wait(c)))
  {
    var st1 := SetSema(st, Waiter(st.cur), SemaState(0, [], 0, 0, 0));
    var x := Cv(st, c);
    var st2 := SetCond(st1, c, x.(queue := x.queue + [st.cur]));
    LockAside(st, st1);
    LockAside(st1, st2);
    LockGoto(st2, Releasing(c));
  }

  lemma {:induction false} LockExit(st: State, n: nat)
    requires LockInv(st)
    ensures LockInv(Exit(st, Plain(n)))
  {
    var up := SemaUp(st, Plain(n));
    LockUpOther(st, Plain(n));
    hide SemaUp, LockInv;
    var mid := up.(status := up.status[up.cur := Dying]);
    LockAside(up, mid);
    LockSchedule(mid);
  }

  lemma {:induction false} LockYield(st: State)
    requires LockInv(st)
    ensures LockInv(Yield(st))
  {
    var mid := st.(ready := if st.cur == st.idle then st.ready else st.ready + [st.cur],
                   status := st.status[st.cur := Ready]);
    LockAside(st, mid);
    LockSchedule(mid);
  }

  lemma {:induction false} LockStepKeeps(st: State, e: Event)
    requires st.cur in st.point && PointInv(st) && LockInv(st) && Enabled(st, e)
    ensures LockInv(Apply(st, e))
  {
    hide LockInv, PointInv;
    match e
    case CallDown(n) => LockGoto(st, Down(Plain(n), false, Return));
    case TryDown(n) => if Sem(st, Plain(n)).value > 0 { LockAside(st, SemaTake(st, Plain(n))); }
    case Up(n) => LockUpOther(st, Plain(n));
    case TryUp(n) => LockUpOther(st, Plain(n));
    case Acquire(l) => LockGoto(st, Down(OfLock(l), false, Acquired(l, None)));
    case TryAcquire(l) => if Sem(st, OfLock(l)).value > 0 { LockTake(st, OfLock(l), SetHolder(l, None)); }
    case Release(l) => ClearedKeeps(st, Apply(st, e), l, None);
    case Wait(c) => LockWait(st, c);
    case Signal(c) => if Cv(st, c).queue != [] { LockPop(st, c, None); }
    case Broadcast(c) =>
      if Holder(st, c.lock) == Some(st.cur) { LockGoto(st, Broadcasting(c, Cv(st, c).queue, [])); }
    case Create(t) => LockSetUp(st, t);
    case ExitThread(n) => LockExit(st, n);
    case Advance => LockContinue(st);
    case Preempt => LockYield(st);
  }
}
