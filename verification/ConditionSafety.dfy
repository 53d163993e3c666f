/**
 Condition variables over every interleaving: waiters are released one per signal, in the order they queued up,
 wherever in cond_wait the signal finds them.
 */
module ConditionSafety {
  import opened Basics
  import opened Threads
  import opened ThreadInvariants
  import opened LockSafety

  /** The condition a thread is waiting for: from queuing up to taking its own semaphore down. */
  function WaitFor(p: Point): Option<Cond> {
    match p
    case Releasing(c) => Some(c)
    case UpLock(_, w) => w
    case Down(_, _, Signaled(c)) => Some(c)
    case _ => None
  }

  /** The condition whose signal a thread has taken; it is getting the lock back. */
  function Coming(p: Point): Option<Cond> {
    match p
    case Down(_, _, Acquired(_, w)) => w
    case SetHolder(_, w) => w
    case _ => None
  }

  ghost predicate Signals(st: State, u: Tid, t: Tid) {
    u in st.point && st.point[u].Signaling? && st.point[u].waiter == t
  }

  /** A queued thread is waiting, its semaphore is down, and it is queued once. */
  ghost predicate QueueInv(st: State) {
    && (forall c, t | t in Cv(st, c).queue ::
          t in st.point && WaitFor(st.point[t]) == Some(c) && Sem(st, Waiter(t)).value == 0)
    && (forall c {:trigger Cv(st, c)} :: Distinct(Cv(st, c).queue))
  }

  /** A thread taken off the queue is still inside cond_wait when its semaphore is put up. */
  ghost predicate SignalInv(st: State) {
    forall u, t {:trigger Signals(st, u, t)} | Signals(st, u, t) ::
      && t in st.point && WaitFor(st.point[t]) == Some(st.point[u].cond)
      && t !in Cv(st, st.point[u].cond).queue && Sem(st, Waiter(t)).value == 0
  }

  /** Whoever waits is queued, or has its signal on the way, or has it already; nobody gets two. */
  ghost predicate OutcomeInv(st: State) {
    && (forall t {:trigger WaitFor(st.point[t])} | t in st.point && WaitFor(st.point[t]).Some? ::
          || t in Cv(st, WaitFor(st.point[t]).value).queue || Sem(st, Waiter(t)).value == 1
          || exists u :: Signals(st, u, t))
    && (forall t {:trigger Sem(st, Waiter(t))} :: Sem(st, Waiter(t)).value <= 1)
    && (forall t {:trigger Sem(st, Waiter(t))} | Sem(st, Waiter(t)).value == 1 ::
          t in st.point && WaitFor(st.point[t]).Some?)
  }

  /** A broadcast goes through the queue it found, front to back. */
  ghost predicate BroadcastInv(st: State) {
    && (forall u {:trigger st.point[u].Broadcasting?} | u in st.point && st.point[u].Broadcasting? ::
          st.point[u].whole == st.point[u].done + Cv(st, st.point[u].cond).queue)
    && (forall u {:trigger st.point[u].Signaling?} | u in st.point && st.point[u].Signaling? && st.point[u].all.Some? ::
          st.point[u].all.value.0 == st.point[u].all.value.1 + [st.point[u].waiter] + Cv(st, st.point[u].cond).queue)
  }

  /** Threads that were signaled and have not returned from cond_wait. */
  ghost function Pending(st: State, c: Cond): set<Tid> {
    set t |
      && t in st.point
      && ((WaitFor(st.point[t]) == Some(c) && t !in Cv(st, c).queue) || Coming(st.point[t]) == Some(c))
  }

  /** One return per signal. */
  ghost predicate CountInv(st: State) {
    forall c {:trigger Cv(st, c)} :: Cv(st, c).signaled == Cv(st, c).returned + |Pending(st, c)|
  }

  ghost predicate CondInv(st: State) {
    QueueInv(st) && SignalInv(st) && OutcomeInv(st) && BroadcastInv(st) && CountInv(st)
  }

  // ---------------------------------------------------------------- steps that do not touch a condition

  /** All that the invariant sees of a control point, broadcasts aside. */
  function View(p: Point): (Option<Cond>, Option<Cond>, Point) {
    (WaitFor(p), Coming(p), if p.Signaling? then p else User)
  }

  ghost predicate NoCond(st: State, r: State) {
    && (forall c {:trigger Cv(r, c)} :: Cv(r, c) == Cv(st, c))
    && (forall t {:trigger Sem(r, Waiter(t))} :: Sem(r, Waiter(t)).value == Sem(st, Waiter(t)).value)
    && (forall t | t in st.point :: t in r.point)
    && (forall t {:trigger r.point[t]} | t in r.point ::
          View(r.point[t]) == if t in st.point then View(st.point[t]) else (None, None, User))
  }

  lemma {:induction false} NoCondQueue(st: State, r: State)
    requires QueueInv(st) && NoCond(st, r)
    ensures QueueInv(r)
  {
    hide Sem, Cv;
  }

  lemma {:induction false} NoCondSignal(st: State, r: State)
    requires SignalInv(st) && NoCond(st, r)
    ensures SignalInv(r)
  {
    hide Sem, Cv;
    forall u, t {:trigger Signals(r, u, t)} | Signals(r, u, t)
      ensures t in r.point && WaitFor(r.point[t]) == Some(r.point[u].cond) && t !in Cv(r, r.point[u].cond).queue
      ensures Sem(r, Waiter(t)).value == 0
    {
      assert Signals(st, u, t);
    }
  }

  lemma {:induction false} NoCondOutcome(st: State, r: State)
    requires OutcomeInv(st) && NoCond(st, r)
    ensures OutcomeInv(r)
  {
    hide Sem, Cv;
    forall t {:trigger WaitFor(r.point[t])} | t in r.point && WaitFor(r.point[t]).Some?
      ensures t in Cv(r, WaitFor(r.point[t]).value).queue || Sem(r, Waiter(t)).value == 1
        || exists u :: Signals(r, u, t)
    {
      assert t in st.point && WaitFor(st.point[t]) == WaitFor(r.point[t]);
      if u :| Signals(st, u, t) {
        assert Signals(r, u, t);
      }
    }
  }

  /** No thread enters the loop of cond_broadcast. */
  ghost predicate NoBroadcast(st: State, r: State) {
    forall t {:trigger r.point[t].Broadcasting?} | t in r.point && r.point[t].Broadcasting? ::
        t in st.point && st.point[t] == r.point[t]
  }

  lemma {:induction false} NoCondBroadcast(st: State, r: State)
    requires BroadcastInv(st) && NoCond(st, r) && NoBroadcast(st, r)
    ensures BroadcastInv(r)
  {
    hide Sem, Cv;
  }

  lemma {:induction false} NoCondCount(st: State, r: State)
    requires CountInv(st) && NoCond(st, r)
    ensures CountInv(r)
  {
    hide Sem, Cv;
    forall c {:trigger Cv(r, c)} ensures Cv(r, c).signaled == Cv(r, c).returned + |Pending(r, c)| {
      assert Pending(r, c) == Pending(st, c);
    }
  }

  lemma {:induction false} NoCondKeeps(st: State, r: State)
    requires CondInv(st) && NoCond(st, r) && NoBroadcast(st, r)
    ensures CondInv(r)
  {
    NoCondQueue(st, r);
    NoCondSignal(st, r);
    NoCondOutcome(st, r);
    NoCondBroadcast(st, r);
    NoCondCount(st, r);
  }

  // ---------------------------------------------------------------- steps on a condition

  /** The running thread goes to `p`, condition `c` becomes `x`, and the value of the semaphore of waiter `w` becomes
      `v`. */
  ghost predicate CondStep(st: State, r: State, p: Point, c: Cond, x: CondState, w: Tid, v: nat) {
    && st.cur in st.point && r.point == st.point[st.cur := p]
    && (forall d {:trigger Cv(r, d)} :: Cv(r, d) == if d == c then x else Cv(st, d))
    && (forall t {:trigger Sem(r, Waiter(t))} ::
          Sem(r, Waiter(t)).value == if t == w then v else Sem(st, Waiter(t)).value)
  }

  /** Only the holder of the lock is at a point where a signal or a broadcast is under way. */
  lemma {:induction false} SoleSignaler(st: State, c: Cond, u: Tid)
    requires HolderInv(st) && Holder(st, c.lock) == Some(st.cur) && u in st.point
    requires (st.point[u].Signaling? || st.point[u].Broadcasting?) && st.point[u].cond == c
    ensures u == st.cur
  {
    assert Needs(st.point[u]) == Some(c.lock);
  }

  /** cond_wait queues up. */
  lemma {:induction false} EnqueueKeeps(st: State, r: State, c: Cond)
    requires CondInv(st) && HolderInv(st) && st.cur in st.point && Here(st) == User
    requires Holder(st, c.lock) == Some(st.cur)
    requires var x := Cv(st, c); CondStep(st, r, Releasing(c), c, x.(queue := x.queue + [st.cur]), st.cur, 0)
    ensures QueueInv(r) && SignalInv(r)
  {
    hide Sem, Cv, Holder, CountInv;
    assert WaitFor(Here(st)) == None;
    DistinctPush(Cv(st, c).queue, st.cur);
    forall u, t {:trigger Signals(r, u, t)} | Signals(r, u, t)
      ensures t in r.point && WaitFor(r.point[t]) == Some(r.point[u].cond) && t !in Cv(r, r.point[u].cond).queue
      ensures Sem(r, Waiter(t)).value == 0
    {
      assert Signals(st, u, t);
    }
  }

  lemma {:induction false} EnqueueOutcome(st: State, r: State, c: Cond)
    requires CondInv(st) && HolderInv(st) && st.cur in st.point && Here(st) == User
    requires Holder(st, c.lock) == Some(st.cur)
    requires var x := Cv(st, c); CondStep(st, r, Releasing(c), c, x.(queue := x.queue + [st.cur]), st.cur, 0)
    ensures OutcomeInv(r) && BroadcastInv(r)
  {
    hide Sem, Cv, Holder, CountInv;
    assert WaitFor(Here(st)) == None;
    forall t {:trigger WaitFor(r.point[t])} | t in r.point && WaitFor(r.point[t]).Some?
      ensures t in Cv(r, WaitFor(r.point[t]).value).queue || Sem(r, Waiter(t)).value == 1
        || exists u :: Signals(r, u, t)
    {
      if t != st.cur {
        assert WaitFor(st.point[t]) == WaitFor(r.point[t]);
        if u :| Signals(st, u, t) {
          assert Signals(r, u, t);
        }
      }
    }
    forall u | u in st.point && (st.point[u].Signaling? || st.point[u].Broadcasting?) && st.point[u].cond == c
      ensures u == st.cur
    {
      SoleSignaler(st, c, u);
    }
  }

  lemma {:induction false} EnqueueCount(st: State, r: State, c: Cond)
    requires CountInv(st) && st.cur in st.point && Here(st) == User
    requires var x := Cv(st, c); CondStep(st, r, Releasing(c), c, x.(queue := x.queue + [st.cur]), st.cur, 0)
    ensures CountInv(r)
  {
    hide Sem, Cv;
    forall d {:trigger Cv(r, d)} ensures Cv(r, d).signaled == Cv(r, d).returned + |Pending(r, d)| {
      assert Pending(r, d) == Pending(st, d);
    }
  }

  /** A waiter comes off the front of the queue. */
  ghost predicate Popped(st: State, r: State, c: Cond, all: Option<(seq<Tid>, seq<Tid>)>) {
    && st.cur in st.point && (Here(st) == User || (Here(st).Broadcasting? && Here(st).cond == c))
    && Holder(st, c.lock) == Some(st.cur) && Cv(st, c).queue != []
    && (all.Some? ==> all.value.0 == all.value.1 + Cv(st, c).queue)
    && var x := Cv(st, c);
       CondStep(st, r, Signaling(c, x.queue[0], all), c, x.(queue := x.queue[1..], signaled := x.signaled + 1),
                st.cur, Sem(st, Waiter(st.cur)).value)
  }

  lemma {:induction false} PopKeeps(st: State, r: State, c: Cond, all: Option<(seq<Tid>, seq<Tid>)>)
    requires CondInv(st) && HolderInv(st) && Popped(st, r, c, all)
    ensures QueueInv(r) && SignalInv(r)
  {
    hide Sem, Cv, Holder, CountInv, BroadcastInv;
    var q := Cv(st, c).queue;
    DistinctPop(q);
    assert q[0] in q && WaitFor(Here(st)) == None;
    forall u, t {:trigger Signals(r, u, t)} | Signals(r, u, t)
      ensures t in r.point && WaitFor(r.point[t]) == Some(r.point[u].cond) && t !in Cv(r, r.point[u].cond).queue
      ensures Sem(r, Waiter(t)).value == 0
    {
      if u != st.cur {
        assert Signals(st, u, t);
      }
    }
  }

  lemma {:induction false} PopOutcome(st: State, r: State, c: Cond, all: Option<(seq<Tid>, seq<Tid>)>)
    requires CondInv(st) && HolderInv(st) && Popped(st, r, c, all)
    ensures OutcomeInv(r)
  {
    hide Sem, Cv, Holder, CountInv, BroadcastInv;
    var q := Cv(st, c).queue;
    assert q == [q[0]] + q[1..] && WaitFor(Here(st)) == None;
    forall t {:trigger WaitFor(r.point[t])} | t in r.point && WaitFor(r.point[t]).Some?
      ensures t in Cv(r, WaitFor(r.point[t]).value).queue || Sem(r, Waiter(t)).value == 1
        || exists u :: Signals(r, u, t)
    {
      assert t != st.cur && WaitFor(st.point[t]) == WaitFor(r.point[t]);
      if t == q[0] {
        assert Signals(r, st.cur, t);
      } else if u :| Signals(st, u, t) {
        assert Signals(r, u, t);
      }
    }
  }

  lemma {:induction false} PopBroadcast(st: State, r: State, c: Cond, all: Option<(seq<Tid>, seq<Tid>)>)
    requires BroadcastInv(st) && HolderInv(st) && Popped(st, r, c, all)
    ensures BroadcastInv(r)
  {
    hide Sem, Cv, Holder;
    var q := Cv(st, c).queue;
    assert q == [q[0]] + q[1..];
    forall u | u in st.point && (st.point[u].Signaling? || st.point[u].Broadcasting?) && st.point[u].cond == c
      ensures u == st.cur
    {
      SoleSignaler(st, c, u);
    }
  }

  /** The waiter that comes off the queue becomes pending. */
  lemma {:induction false} PendingAfterPop(st: State, r: State, c: Cond, all: Option<(seq<Tid>, seq<Tid>)>, d: Cond)
    requires QueueInv(st) && Popped(st, r, c, all)
    ensures Pending(r, d) == if d == c then Pending(st, c) + {Cv(st, c).queue[0]} else Pending(st, d)
    ensures Cv(st, c).queue[0] !in Pending(st, c)
  {
    hide Sem, Cv, Holder;
    var q := Cv(st, c).queue;
    DistinctPop(q);
    assert q[0] in q && q == [q[0]] + q[1..];
  }

  lemma {:induction false} PopCount(st: State, r: State, c: Cond, all: Option<(seq<Tid>, seq<Tid>)>)
    requires CountInv(st) && QueueInv(st) && Popped(st, r, c, all)
    ensures CountInv(r)
  {
    hide Sem, Cv, Holder, QueueInv, Pending;
    forall d {:trigger Cv(r, d)} ensures Cv(r, d).signaled == Cv(r, d).returned + |Pending(r, d)| {
      PendingAfterPop(st, r, c, all, d);
    }
  }

  /** cond_broadcast starts on the queue it finds, or stops because nothing is left. */
  ghost predicate LoopEdge(st: State, r: State, p: Point, c: Cond) {
    && st.cur in st.point && (Here(st) == User || Here(st).Broadcasting?)
    && (p == User || p == Broadcasting(c, Cv(st, c).queue, []))
    && CondStep(st, r, p, c, Cv(st, c), st.cur, Sem(st, Waiter(st.cur)).value)
  }

  lemma {:induction false} LoopBroadcast(st: State, r: State, p: Point, c: Cond)
    requires BroadcastInv(st) && LoopEdge(st, r, p, c)
    ensures NoCond(st, r) && BroadcastInv(r)
  {
    hide Sem, Cv;
    assert [] + Cv(st, c).queue == Cv(st, c).queue;
  }

  lemma {:induction false} LoopKeeps(st: State, r: State, p: Point, c: Cond)
    requires CondInv(st) && LoopEdge(st, r, p, c)
    ensures CondInv(r)
  {
    LoopBroadcast(st, r, p, c);
    hide QueueInv, SignalInv, OutcomeInv, BroadcastInv, CountInv, NoCond, LoopEdge;
    NoCondQueue(st, r);
    NoCondSignal(st, r);
    NoCondOutcome(st, r);
    NoCondCount(st, r);
  }

  /** sema_up on the semaphore of the waiter that was taken off the queue. */
  ghost predicate SignalDone(st: State, r: State, p: Point) {
    && st.cur in st.point && Here(st).Signaling?
    && (|| p == User
        || (&& Here(st).all.Some?
            && p == Broadcasting(Here(st).cond, Here(st).all.value.0, Here(st).all.value.1 + [Here(st).waiter])))
    && CondStep(st, r, p, Here(st).cond, Cv(st, Here(st).cond), Here(st).waiter, 1)
  }

  /** Nobody else is about to signal the same waiter. */
  lemma {:induction false} SignaledOnce(st: State, u: Tid)
    requires SignalInv(st) && HolderInv(st) && st.cur in st.point && Here(st).Signaling?
    requires Signals(st, u, Here(st).waiter)
    ensures u == st.cur
  {
    assert Signals(st, st.cur, Here(st).waiter);
    assert Needs(Here(st)) == Some(Here(st).cond.lock);
    SoleSignaler(st, Here(st).cond, u);
  }

  lemma {:induction false} SignalDoneKeeps(st: State, r: State, p: Point)
    requires CondInv(st) && HolderInv(st) && SignalDone(st, r, p)
    ensures QueueInv(r) && SignalInv(r)
  {
    hide Sem, Cv, Holder, CountInv, BroadcastInv;
    var w := Here(st).waiter;
    assert Signals(st, st.cur, w) && WaitFor(Here(st)) == None && WaitFor(p) == None;
    forall u, t {:trigger Signals(r, u, t)} | Signals(r, u, t)
      ensures t in r.point && WaitFor(r.point[t]) == Some(r.point[u].cond) && t !in Cv(r, r.point[u].cond).queue
      ensures Sem(r, Waiter(t)).value == 0
    {
      assert u != st.cur && Signals(st, u, t);
      if t == w { SignaledOnce(st, u); }
    }
  }

  lemma {:induction false} SignalDoneOutcome(st: State, r: State, p: Point)
    requires CondInv(st) && HolderInv(st) && SignalDone(st, r, p)
    ensures OutcomeInv(r)
  {
    hide Sem, Cv, Holder, CountInv, BroadcastInv;
    var w := Here(st).waiter;
    assert Signals(st, st.cur, w) && WaitFor(Here(st)) == None && WaitFor(p) == None;
    forall t {:trigger WaitFor(r.point[t])} | t in r.point && WaitFor(r.point[t]).Some?
      ensures t in Cv(r, WaitFor(r.point[t]).value).queue || Sem(r, Waiter(t)).value == 1
        || exists u :: Signals(r, u, t)
    {
      assert t != st.cur && WaitFor(st.point[t]) == WaitFor(r.point[t]);
      if t != w {
        if u :| Signals(st, u, t) {
          assert Signals(r, u, t);
        }
      }
    }
  }

  lemma {:induction false} SignalDoneCount(st: State, r: State, p: Point)
    requires CountInv(st) && BroadcastInv(st) && SignalDone(st, r, p)
    ensures CountInv(r) && BroadcastInv(r)
  {
    hide Sem, Cv;
    assert WaitFor(Here(st)) == WaitFor(p) == None && Coming(Here(st)) == Coming(p) == None;
    forall d {:trigger Cv(r, d)} ensures Cv(r, d).signaled == Cv(r, d).returned + |Pending(r, d)| {
      assert Pending(r, d) == Pending(st, d);
    }
  }

  /** The waiter takes its signal and goes for the lock. */
  ghost predicate SignalTaken(st: State, r: State, c: Cond) {
    && st.cur in st.point && Here(st).Down? && Here(st).after == Signaled(c) && Sem(st, Waiter(st.cur)).value == 1
    && CondStep(st, r, Down(OfLock(c.lock), false, Acquired(c.lock, Some(c))), c, Cv(st, c), st.cur, 0)
  }

  lemma {:induction false} TakenSignal(st: State, r: State, c: Cond)
    requires CondInv(st) && SignalTaken(st, r, c)
    ensures QueueInv(r) && SignalInv(r) && BroadcastInv(r)
  {
    hide Sem, Cv, CountInv;
    assert WaitFor(Here(st)) == Some(c);
    forall u, t {:trigger Signals(r, u, t)} | Signals(r, u, t)
      ensures t in r.point && WaitFor(r.point[t]) == Some(r.point[u].cond) && t !in Cv(r, r.point[u].cond).queue
      ensures Sem(r, Waiter(t)).value == 0
    {
      assert Signals(st, u, t);
    }
  }

  lemma {:induction false} TakenOutcome(st: State, r: State, c: Cond)
    requires OutcomeInv(st) && SignalTaken(st, r, c)
    ensures OutcomeInv(r)
  {
    hide Sem, Cv;
    forall t {:trigger WaitFor(r.point[t])} | t in r.point && WaitFor(r.point[t]).Some?
      ensures t in Cv(r, WaitFor(r.point[t]).value).queue || Sem(r, Waiter(t)).value == 1
        || exists u :: Signals(r, u, t)
    {
      assert t != st.cur && WaitFor(st.point[t]) == WaitFor(r.point[t]);
      if u :| Signals(st, u, t) {
        assert Signals(r, u, t);
      }
    }
  }

  lemma {:induction false} TakenCount(st: State, r: State, c: Cond)
    requires CountInv(st) && QueueInv(st) && SignalTaken(st, r, c)
    ensures CountInv(r)
  {
    hide Sem, Cv;
    forall d {:trigger Cv(r, d)} ensures Cv(r, d).signaled == Cv(r, d).returned + |Pending(r, d)| {
      assert Pending(r, d) == Pending(st, d);
    }
  }

  /** cond_wait returns. */
  ghost predicate Returned(st: State, r: State, c: Cond) {
    && st.cur in st.point && Here(st).SetHolder? && Here(st).wait == Some(c)
    && var x := Cv(st, c);
       CondStep(st, r, User, c, x.(returned := x.returned + 1), st.cur, Sem(st, Waiter(st.cur)).value)
  }

  lemma {:induction false} ReturnKeeps(st: State, r: State, c: Cond)
    requires CondInv(st) && Returned(st, r, c)
    ensures QueueInv(r) && SignalInv(r) && BroadcastInv(r)
  {
    hide Sem, Cv, CountInv;
    assert WaitFor(Here(st)) == None;
    forall u, t {:trigger Signals(r, u, t)} | Signals(r, u, t)
      ensures t in r.point && WaitFor(r.point[t]) == Some(r.point[u].cond) && t !in Cv(r, r.point[u].cond).queue
      ensures Sem(r, Waiter(t)).value == 0
    {
      assert Signals(st, u, t);
    }
  }

  lemma {:induction false} ReturnOutcome(st: State, r: State, c: Cond)
    requires OutcomeInv(st) && Returned(st, r, c)
    ensures OutcomeInv(r)
  {
    hide Sem, Cv;
    assert WaitFor(Here(st)) == None;
    forall t {:trigger WaitFor(r.point[t])} | t in r.point && WaitFor(r.point[t]).Some?
      ensures t in Cv(r, WaitFor(r.point[t]).value).queue || Sem(r, Waiter(t)).value == 1
        || exists u :: Signals(r, u, t)
    {
      assert t != st.cur && WaitFor(st.point[t]) == WaitFor(r.point[t]);
      if u :| Signals(st, u, t) {
        assert Signals(r, u, t);
      }
    }
  }

  lemma {:induction false} ReturnCount(st: State, r: State, c: Cond)
    requires CountInv(st) && Returned(st, r, c)
    ensures CountInv(r)
  {
    hide Sem, Cv;
    assert st.cur in Pending(st, c);
    forall d {:trigger Cv(r, d)} ensures Cv(r, d).signaled == Cv(r, d).returned + |Pending(r, d)| {
      assert Pending(r, d) == if d == c then Pending(st, c) - {st.cur} else Pending(st, d);
    }
  }

  // ---------------------------------------------------------------- all steps

  lemma {:induction false} CondGoto(st: State, p: Point)
    requires CondInv(st) && st.cur in st.point && View(p) == View(Here(st)) && !p.Broadcasting?
    ensures CondInv(Goto(st, p))
  {
    hide CondInv;
    NoCondKeeps(st, Goto(st, p));
  }

  /** Control points and conditions stay, and so do the values of the waiters' semaphores. */
  lemma {:induction false} CondAside(st: State, r: State)
    requires CondInv(st) && r.point == st.point && r.conds == st.conds
    requires forall t {:trigger Sem(r, Waiter(t))} :: Sem(r, Waiter(t)).value == Sem(st, Waiter(t)).value
    ensures CondInv(r)
  {
    hide Sem, CondInv;
    NoCondKeeps(st, r);
  }

  lemma {:induction false} CondUpOther(st: State, s: Sema)
    requires CondInv(st) && !s.Waiter?
    ensures CondInv(SemaUp(st, s))
  {
    SemaUpEffect(st, s);
    hide SemaUp, Sem, CondInv;
    CondAside(st, SemaUp(st, s));
  }

  lemma {:induction false} CondSchedule(st: State)
    requires CondInv(st)
    ensures CondInv(Schedule(st))
  {
    ScheduleEffect(st);
    hide Schedule, Sem, CondInv;
    CondAside(st, Schedule(st));
  }

  lemma {:induction false} CondQueued(st: State, s: Sema, after: After)
    requires CondInv(st) && st.cur in st.point && Here(st).Down? && Here(st).after == after
    ensures CondInv(Queued(st, s, after))
  {
    hide CondInv;
    var x := Sem(st, s);
    var st1 := SetSema(st, s, x.(waiters := x.waiters + [st.cur]));
    CondAside(st, st1);
    CondGoto(st1, Down(s, true, after));
    CondAside(Goto(st1, Down(s, true, after)), Queued(st, s, after));
  }

  lemma {:induction false} CondTake(st: State, s: Sema, p: Point)
    requires CondInv(st) && st.cur in st.point && Sem(st, s).value > 0 && !s.Waiter? && View(p) == View(Here(st))
    requires !p.Broadcasting?
    ensures CondInv(Goto(SemaTake(st, s), p))
  {
    hide CondInv;
    CondAside(st, SemaTake(st, s));
    CondGoto(SemaTake(st, s), p);
  }

  lemma {:induction false} CondDown(st: State)
    requires CondInv(st) && st.cur in st.point && PointOk(st.cur, Here(st)) && Here(st).Down?
    ensures CondInv(Continue(st))
  {
    var s, after := Here(st).sema, Here(st).after;
    assert Sem(st, Waiter(st.cur)).value <= 1;
    if Sem(st, s).value == 0 {
      hide CondInv;
      CondQueued(st, s, after);
      CondSchedule(Queued(st, s, after));
    } else if s.Waiter? {
      CondTakeSignal(st, after.cond);
    } else {
      hide CondInv;
      CondTake(st, s, AfterDown(after));
    }
  }

  lemma {:induction false} CondTakeSignal(st: State, c: Cond)
    requires CondInv(st) && st.cur in st.point && Here(st).Down? && Here(st).sema == Waiter(st.cur)
    requires Here(st).after == Signaled(c)
    requires Sem(st, Waiter(st.cur)).value == 1
    ensures CondInv(Continue(st))
  {
    var r := Continue(st);
    assert SignalTaken(st, r, c);
    hide QueueInv, SignalInv, OutcomeInv, BroadcastInv, CountInv, SignalTaken;
    TakenSignal(st, r, c);
    TakenOutcome(st, r, c);
    TakenCount(st, r, c);
  }

  lemma {:induction false} CondSetHolder(st: State)
    requires CondInv(st) && st.cur in st.point && Here(st).SetHolder?
    ensures CondInv(Continue(st))
  {
    var l, w := Here(st).lock, Here(st).wait;
    hide CondInv;
    if w == None {
      CondAside(st, SetHolderOf(st, l, Some(st.cur)));
      CondGoto(SetHolderOf(st, l, Some(st.cur)), User);
    } else {
      CondReturn(st, w.value);
    }
  }

  lemma {:induction false} CondReturn(st: State, c: Cond)
    requires CondInv(st) && st.cur in st.point && Here(st).SetHolder? && Here(st).wait == Some(c)
    ensures CondInv(Continue(st))
  {
    var r := Continue(st);
    assert Returned(st, r, c);
    hide QueueInv, SignalInv, OutcomeInv, BroadcastInv, CountInv, Returned, Continue;
    ReturnKeeps(st, r, c);
    ReturnOutcome(st, r, c);
    ReturnCount(st, r, c);
  }

  lemma {:induction false} CondRelease(st: State, l: nat, w: Option<Cond>)
    requires CondInv(st) && st.cur in st.point && View(Here(st)) == View(UpLock(l, w))
    ensures CondInv(Goto(SetHolderOf(st, l, None), UpLock(l, w)))
  {
    hide CondInv;
    CondAside(st, SetHolderOf(st, l, None));
    CondGoto(SetHolderOf(st, l, None), UpLock(l, w));
  }

  lemma {:induction false} CondUpLock(st: State)
    requires CondInv(st) && st.cur in st.point && Here(st).UpLock?
    ensures CondInv(Continue(st))
  {
    hide CondInv;
    var l, w := Here(st).lock, Here(st).wait;
    CondUpOther(st, OfLock(l));
    SemaUpEffect(st, OfLock(l));
    CondGoto(SemaUp(st, OfLock(l)), if w == None then User else Down(Waiter(st.cur), false, Signaled(w.value)));
  }

  lemma {:induction false} CondPop(st: State, c: Cond, all: Option<(seq<Tid>, seq<Tid>)>)
    requires CondInv(st) && HolderInv(st) && st.cur in st.point
    requires (Here(st) == User || (Here(st).Broadcasting? && Here(st).cond == c))
    requires Cv(st, c).queue != [] && Holder(st, c.lock) == Some(st.cur)
    requires (all.Some? ==> all.value.0 == all.value.1 + Cv(st, c).queue)
    ensures CondInv(PopWaiter(st, c, all))
  {
    var r := PopWaiter(st, c, all);
    assert Popped(st, r, c, all);
    hide QueueInv, SignalInv, OutcomeInv, BroadcastInv, CountInv, HolderInv, Popped;
    PopKeeps(st, r, c, all);
    PopOutcome(st, r, c, all);
    PopBroadcast(st, r, c, all);
    PopCount(st, r, c, all);
  }

  function AfterSignal(p: Point): Point
    requires p.Signaling?
  {
    if p.all == None then User else Broadcasting(p.cond, p.all.value.0, p.all.value.1 + [p.waiter])
  }

  lemma {:induction false} SignalDoneHolds(st: State)
    requires st.cur in st.point && Here(st).Signaling? && Sem(st, Waiter(Here(st).waiter)).value == 0
    ensures SignalDone(st, Continue(st), AfterSignal(Here(st)))
  {
    var up := SemaUp(st, Waiter(Here(st).waiter));
    SemaUpEffect(st, Waiter(Here(st).waiter));
    var r := Goto(up, AfterSignal(Here(st)));
    assert r.semas == up.semas && r.conds == st.conds;
    assert forall q {:trigger Sem(r, q)} :: Sem(r, q) == Sem(up, q);
    hide SemaUp;
  }

  lemma {:induction false} CondSignaling(st: State)
    requires CondInv(st) && HolderInv(st) && st.cur in st.point && Here(st).Signaling?
    ensures CondInv(Continue(st))
  {
    assert Signals(st, st.cur, Here(st).waiter);
    SignalDoneHolds(st);
    hide QueueInv, SignalInv, OutcomeInv, BroadcastInv, CountInv, HolderInv, SignalDone, Continue;
    SignalDoneKeeps(st, Continue(st), AfterSignal(Here(st)));
    SignalDoneOutcome(st, Continue(st), AfterSignal(Here(st)));
    SignalDoneCount(st, Continue(st), AfterSignal(Here(st)));
  }

  lemma {:induction false} BroadcastHere(st: State)
    requires CondInv(st) && HolderInv(st) && st.cur in st.point && Here(st).Broadcasting?
    ensures var c := Here(st).cond;
      Holder(st, c.lock) == Some(st.cur) && Here(st).whole == Here(st).done + Cv(st, c).queue
  {
    assert Needs(Here(st)) == Some(Here(st).cond.lock);
  }

  lemma {:induction false} CondBroadcasting(st: State)
    requires CondInv(st) && HolderInv(st) && st.cur in st.point && Here(st).Broadcasting?
    ensures CondInv(Continue(st))
  {
    hide CondInv, HolderInv;
    var c, whole, done := Here(st).cond, Here(st).whole, Here(st).done;
    BroadcastHere(st);
    if Cv(st, c).queue == [] { LoopKeeps(st, Goto(st, User), User, c); } else { CondPop(st, c, Some((whole, done))); }
  }

  lemma {:induction false} CondLaunch(st: State, t: Tid)
    requires CondInv(st) && st.cur in st.point && t in st.point && Here(st) == Creating(t) && st.point[t] == Unborn
    ensures CondInv(Launch(st, t))
  {
    hide CondInv;
    NoCondKeeps(st, Launch(st, t));
  }

  lemma {:induction false} CondSetUp(st: State, t: Tid)
    requires CondInv(st) && st.cur in st.point && t !in st.point && Here(st) == User
    ensures CondInv(SetUp(st, t))
  {
    hide CondInv;
    NoCondKeeps(st, SetUp(st, t));
  }

  lemma {:induction false} CondStop(st: State, r: State)
    requires CondInv(st) && r.point == st.point && r.conds == st.conds && r.semas == st.semas
    ensures CondInv(Schedule(r))
  {
    hide CondInv;
    CondAside(st, r);
    CondSchedule(r);
  }

  lemma {:induction false} CondContinue(st: State)
    requires st.cur in st.point && PointInv(st) && HolderInv(st) && CondInv(st) && Enabled(st, Advance)
    ensures CondInv(Continue(st))
  {
    hide CondInv, PointInv, HolderInv;
    PointHere(st);
    match Here(st)
    case Down(_, _, _) => CondDown(st);
    case SetHolder(_, _) => CondSetHolder(st);
    case Releasing(c) => CondRelease(st, c.lock, Some(c));
    case UpLock(_, _) => CondUpLock(st);
    case Signaling(_, _, _) => CondSignaling(st);
    case Broadcasting(_, _, _) => CondBroadcasting(st);
    case Creating(t) => CondLaunch(st, t);
    case IdleLoop => CondStop(st, st.(status := st.status[st.cur := Blocked]));
  }

  lemma {:induction false} WaitIsStep(st: State, c: Cond)
    requires st.cur in st.point && Enabled(st, Wait(c))
    ensures var x := Cv(st, c);
      CondStep(st, Apply(st, Wait(c)), Releasing(c), c, x.(queue := x.queue + [st.cur]), st.cur, 0)
  {
  }

  lemma {:induction false} CondWait(st: State, c: Cond)
    requires CondInv(st) && HolderInv(st) && st.cur in st.point && Enabled(st, Wait(c))
    ensures CondInv(Apply(st, Wait(c)))
  {
    hide QueueInv, SignalInv, OutcomeInv, BroadcastInv, CountInv, HolderInv, CondStep;
    var r := Apply(st, Wait(c));
    WaitIsStep(st, c);
    EnqueueKeeps(st, r, c);
    EnqueueOutcome(st, r, c);
    EnqueueCount(st, r, c);
  }

  lemma {:induction false} CondExit(st: State, n: nat)
    requires CondInv(st)
    ensures CondInv(Exit(st, Plain(n)))
  {
    hide CondInv;
    var up := SemaUp(st, Plain(n));
    CondUpOther(st, Plain(n));
    CondStop(up, up.(status := up.status[up.cur := Dying]));
  }

  lemma {:induction false} CondStepKeeps(st: State, e: Event)
    requires st.cur in st.point && PointInv(st) && HolderInv(st) && CondInv(st) && Enabled(st, e)
    ensures CondInv(Apply(st, e))
  {
    hide CondInv, PointInv, HolderInv;
    match e
    case CallDown(n) => CondGoto(st, Down(Plain(n), false, Return));
    case TryDown(n) => if Sem(st, Plain(n)).value > 0 { CondAside(st, SemaTake(st, Plain(n))); }
    case Up(n) => CondUpOther(st, Plain(n));
    case TryUp(n) => CondUpOther(st, Plain(n));
    case Acquire(l) => CondGoto(st, Down(OfLock(l), false, Acquired(l, None)));
    case TryAcquire(l) => if Sem(st, OfLock(l)).value > 0 { CondTake(st, OfLock(l), SetHolder(l, None)); }
    case Release(l) => CondRelease(st, l, None);
    case Wait(c) => CondWait(st, c);
    case Signal(c) => if Cv(st, c).queue != [] { CondPop(st, c, None); }
    case Broadcast(c) =>
      if Holder(st, c.lock) == Some(st.cur) {
        LoopKeeps(st, Apply(st, e), Broadcasting(c, Cv(st, c).queue, []), c);
      }
    case Create(t) => CondSetUp(st, t);
    case ExitThread(n) => CondExit(st, n);
    case Advance => CondContinue(st);
    case Preempt =>
      CondStop(st, st.(ready := if st.cur == st.idle then st.ready else st.ready + [st.cur],
                       status := st.status[st.cur := Ready]));
  }
}
