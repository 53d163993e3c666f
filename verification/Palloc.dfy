/**
 The page allocator under preemption (threads/palloc.c over lib/kernel/bitmap.c). palloc_get_multiple scans and sets
 bits under the pool lock; palloc_free_multiple clears bits without it. Each test, set or clear of one bit is a step,
 and steps of any number of threads interleave in any order.
 */
module Palloc {
  import opened Basics

  type Tid = nat

  datatype Phase =
    | Idle
    | Wanting(cnt: nat)                         // before lock_acquire
    | Scanning(cnt: nat, at: nat, seen: nat)    // the first `seen` bits of the group at `at` were clear
    | Setting(cnt: nat, at: nat, done: nat)     // the group at `at` was chosen; `done` of its bits are set
    | Leaving(cnt: nat, at: nat)                // before lock_release, with a group
    | Failing                                   // before lock_release, without one
    | Freeing(cnt: nat, at: nat, done: nat)     // `done` of the group's bits are cleared

  /** `holds` says which pages each thread was given and has not handed to palloc_free_multiple. */
  datatype State = State(bits: seq<bool>, lock: Option<Tid>, phase: seq<Phase>, holds: set<(Tid, nat)>)

  datatype Event =
    | Call(t: Tid, cnt: nat)
    | Acquire(t: Tid)
    | Test(t: Tid)
    | Mark(t: Tid)
    | Release(t: Tid)
    | CallFree(t: Tid, owner: Tid, at: nat, cnt: nat)
    | Clear(t: Tid)

  /** Pages that a call in progress has set or has yet to clear. */
  predicate Claims(ph: Phase, p: nat) {
    match ph
    case Setting(_, at, done) => at <= p < at + done
    case Leaving(cnt, at) => at <= p < at + cnt
    case Freeing(cnt, at, done) => at + done <= p < at + cnt
    case _ => false
  }

  predicate InLock(ph: Phase) {
    ph.Scanning? || ph.Setting? || ph.Leaving? || ph.Failing?
  }

  ghost predicate HoldsAll(s: State, t: Tid, at: nat, cnt: nat) {
    at + cnt <= |s.bits| && forall p: nat | at <= p < at + cnt :: (t, p) in s.holds
  }

  ghost predicate Enabled(s: State, e: Event) {
    && e.t < |s.phase|
    && match e
       case Call(t, cnt) => s.phase[t].Idle?
       case Acquire(t) => s.phase[t].Wanting? && s.lock.None?
       case Test(t) => s.phase[t].Scanning?
       case Mark(t) => s.phase[t].Setting?
       case Release(t) => s.phase[t].Leaving? || s.phase[t].Failing?
       case CallFree(t, owner, at, cnt) => s.phase[t].Idle? && HoldsAll(s, owner, at, cnt)
       case Clear(t) => s.phase[t].Freeing?
  }

  function Pages(t: Tid, at: nat, cnt: nat): set<(Tid, nat)>
    decreases cnt
  {
    if cnt == 0 then {} else Pages(t, at, cnt - 1) + {(t, at + cnt - 1)}
  }

  /** One test of bitmap_scan: on to the next bit of the group, to the next group, or to the end. */
  function AfterTest(bits: seq<bool>, cnt: nat, at: nat, seen: nat): Phase
    requires seen <= cnt
  {
    if at + cnt > |bits| then Failing
    else if seen == cnt then Setting(cnt, at, 0)
    else if bits[at + seen] then Scanning(cnt, at + 1, 0)
    else Scanning(cnt, at, seen + 1)
  }

  function Apply(s: State, e: Event): State
    requires e.t < |s.phase|
  {
    var t := e.t;
    var ph := s.phase[t];
    match e
    case Call(_, cnt) => s.(phase := s.phase[t := if cnt == 0 then Idle else Wanting(cnt)])
    case Acquire(_) => if ph.Wanting? then s.(lock := Some(t), phase := s.phase[t := Scanning(ph.cnt, 0, 0)]) else s
    case Test(_) =>
      if ph.Scanning? && (ph.seen <= ph.cnt) then s.(phase := s.phase[t := AfterTest(s.bits, ph.cnt, ph.at, ph.seen)])
      else s
    case Mark(_) =>
      if !ph.Setting? then s
      else if ph.done < ph.cnt && ph.at + ph.done < |s.bits| then
        s.(bits := s.bits[ph.at + ph.done := true], phase := s.phase[t := Setting(ph.cnt, ph.at, ph.done + 1)])
      else s.(phase := s.phase[t := Leaving(ph.cnt, ph.at)])
    case Release(_) =>
      if ph.Leaving? then s.(lock := None, phase := s.phase[t := Idle], holds := s.holds + Pages(t, ph.at, ph.cnt))
      else s.(lock := None, phase := s.phase[t := Idle])
    case CallFree(_, owner, at, cnt) =>
      s.(phase := s.phase[t := Freeing(cnt, at, 0)], holds := s.holds - Pages(owner, at, cnt))
    case Clear(_) =>
      if !ph.Freeing? then s
      else if ph.done < ph.cnt && ph.at + ph.done < |s.bits| then
        s.(bits := s.bits[ph.at + ph.done := false], phase := s.phase[t := Freeing(ph.cnt, ph.at, ph.done + 1)])
      else s.(phase := s.phase[t := Idle])
  }

  lemma {:induction false} PagesAre(t: Tid, at: nat, cnt: nat)
    ensures forall u, p: nat :: (u, p) in Pages(t, at, cnt) <==> u == t && at <= p < at + cnt
    decreases cnt
  {
    if cnt > 0 { PagesAre(t, at, cnt - 1); }
  }

  // ---------------------------------------------------------------- invariant

  /** A call's own group is on the map, and what it has seen, set and cleared is as it left it. */
  ghost predicate PhaseOk(s: State, t: Tid)
    requires t < |s.phase|
  {
    match s.phase[t]
    case Scanning(cnt, at, seen) =>
      cnt > 0 && seen <= cnt && (seen > 0 ==> at + cnt <= |s.bits|) && forall p: nat | at <= p < at + seen :: !s.bits[p]
    case Setting(cnt, at, done) =>
      at + cnt <= |s.bits| && done <= cnt && forall p: nat | at + done <= p < at + cnt :: !s.bits[p]
    case Leaving(cnt, at) => at + cnt <= |s.bits|
    case Freeing(cnt, at, done) => at + cnt <= |s.bits| && done <= cnt
    case Wanting(cnt) => cnt > 0
    case _ => true
  }

  ghost predicate LockOk(s: State) {
    forall t: Tid | t < |s.phase| :: InLock(s.phase[t]) <==> s.lock == Some(t)
  }

  ghost predicate LockHeld(s: State) {
    s.lock.Some? ==> s.lock.value < |s.phase|
  }

  predicate Has(s: State, t: Tid, p: nat) {
    (t, p) in s.holds
  }

  predicate Claimed(s: State, t: Tid, p: nat) {
    t < |s.phase| && Claims(s.phase[t], p)
  }

  /** Pages held or claimed are marked used, and no two threads hold or claim the same page. */
  ghost predicate Apart(s: State) {
    && (forall t: Tid, p: nat | Claimed(s, t, p) :: p < |s.bits| && s.bits[p])
    && (forall t: Tid, u: Tid, p: nat | Claimed(s, t, p) && Claimed(s, u, p) :: t == u)
    && (forall t: Tid, p: nat | Has(s, t, p) :: p < |s.bits| && s.bits[p])
    && (forall t: Tid, u: Tid, p: nat | Has(s, t, p) && Claimed(s, u, p) :: false)
    && (forall t: Tid, u: Tid, p: nat | Has(s, t, p) && Has(s, u, p) :: t == u)
  }

  ghost predicate Someones(s: State, p: nat) {
    (exists t: Tid :: Has(s, t, p)) || (exists t: Tid :: Claimed(s, t, p))
  }

  /** No page is lost: a page marked used is held or claimed. */
  ghost predicate Kept(s: State) {
    forall p: nat | p < |s.bits| && s.bits[p] :: Someones(s, p)
  }

  ghost predicate Inv(s: State) {
    (forall t: Tid | t < |s.phase| :: PhaseOk(s, t)) && LockOk(s) && LockHeld(s) && Apart(s) && Kept(s)
  }

  // ---------------------------------------------------------------- every step keeps it

  lemma {:induction false} SameClaimsKeep(s: State, w: State)
    requires Apart(s) && Kept(s) && w.bits == s.bits
    requires forall t: Tid, p: nat :: Has(w, t, p) == Has(s, t, p)
    requires forall t: Tid, p: nat :: Claimed(w, t, p) == Claimed(s, t, p)
    ensures Apart(w) && Kept(w)
  {
    hide Has, Claimed;
    forall p: nat | p < |w.bits| && w.bits[p] ensures Someones(w, p) { SomeonesStill(s, w, p); }
  }

  lemma {:induction false} QuietStep(s: State, e: Event)
    requires Inv(s) && Enabled(s, e) && (e.Call? || e.Acquire? || e.Test?)
    ensures Inv(Apply(s, e))
  {
    var w := Apply(s, e);
    assert PhaseOk(s, e.t);
    forall t: Tid | t < |s.phase| && t != e.t ensures PhaseOk(w, t) { assert PhaseOk(s, t); }
    assert PhaseOk(w, e.t);
    SameClaimsKeep(s, w);
  }

  /** A page that was held or claimed still is, if whoever held or claimed it still does. */
  lemma {:induction false} SomeonesStill(s: State, w: State, p: nat)
    requires Someones(s, p)
    requires forall u: Tid | Has(s, u, p) :: Has(w, u, p)
    requires forall u: Tid | Claimed(s, u, p) :: Claimed(w, u, p)
    ensures Someones(w, p)
  {
    hide Has, Claimed;
    if exists u: Tid :: Has(s, u, p) {
      var u: Tid :| Has(s, u, p);
      assert Has(w, u, p);
    } else {
      var u: Tid :| Claimed(s, u, p);
      assert Claimed(w, u, p);
    }
  }

  /** Thread `t` sets bit `q`, which was clear, and claims the page. */
  lemma {:induction false} Claim(s: State, w: State, t: Tid, q: nat)
    requires Apart(s) && Kept(s) && q < |s.bits| && !s.bits[q] && w.bits == s.bits[q := true]
    requires forall u: Tid, p: nat :: Has(w, u, p) == Has(s, u, p)
    requires forall u: Tid, p: nat :: Claimed(w, u, p) == (Claimed(s, u, p) || (u == t && p == q))
    ensures Apart(w) && Kept(w)
  {
    hide Has, Claimed;
    forall p: nat | p < |w.bits| && w.bits[p] ensures Someones(w, p) {
      if p == q {
        assert Claimed(w, t, p);
      } else {
        SomeonesStill(s, w, p);
      }
    }
  }

  /** Thread `t` clears bit `q` of a page it claimed. */
  lemma {:induction false} Unclaim(s: State, w: State, t: Tid, q: nat)
    requires Apart(s) && Kept(s) && q < |s.bits| && Claimed(s, t, q) && w.bits == s.bits[q := false]
    requires forall u: Tid, p: nat :: Has(w, u, p) == Has(s, u, p)
    requires forall u: Tid, p: nat :: Claimed(w, u, p) == (Claimed(s, u, p) && !(u == t && p == q))
    ensures Apart(w) && Kept(w)
  {
    hide Has, Claimed;
    forall u: Tid, p: nat | Claimed(w, u, p) ensures p != q {}
    forall u: Tid, p: nat | Has(w, u, p) ensures p != q {}
    forall p: nat | p < |w.bits| && w.bits[p] ensures Someones(w, p) { SomeonesStill(s, w, p); }
  }

  /** Pages move from the claim of `t` to what it holds. */
  lemma {:induction false} Grant(s: State, w: State, t: Tid)
    requires Apart(s) && Kept(s) && w.bits == s.bits
    requires forall u: Tid, p: nat :: Has(w, u, p) == (Has(s, u, p) || (u == t && Claimed(s, t, p)))
    requires forall u: Tid, p: nat :: Claimed(w, u, p) == (Claimed(s, u, p) && u != t)
    ensures Apart(w) && Kept(w)
  {
    hide Has, Claimed;
    forall p: nat | p < |w.bits| && w.bits[p] ensures Someones(w, p) {
      if Claimed(s, t, p) {
        assert Has(w, t, p);
      } else {
        SomeonesStill(s, w, p);
      }
    }
  }

  /** Pages move from what `owner` holds to the claim of `t`. */
  lemma {:induction false} GiveBack(s: State, w: State, t: Tid, owner: Tid, at: nat, cnt: nat)
    requires Apart(s) && Kept(s) && w.bits == s.bits && forall p: nat | at <= p < at + cnt :: Has(s, owner, p)
    requires forall u: Tid, p: nat :: Has(w, u, p) == (Has(s, u, p) && !(u == owner && at <= p < at + cnt))
    requires forall u: Tid, p: nat :: Claimed(w, u, p) == (Claimed(s, u, p) || (u == t && at <= p < at + cnt))
    ensures Apart(w) && Kept(w)
  {
    hide Has, Claimed;
    forall u: Tid, p: nat | Claimed(w, u, p) && at <= p < at + cnt ensures u == t && Has(s, owner, p) {
      assert Has(s, owner, p);
      assert Claimed(w, u, p) == (Claimed(s, u, p) || (u == t && at <= p < at + cnt));
    }
    forall u: Tid, p: nat | Has(w, u, p) ensures Has(s, u, p) && !(at <= p < at + cnt) {
      assert at <= p < at + cnt ==> Has(s, owner, p);
    }
    forall p: nat | p < |w.bits| && w.bits[p] ensures Someones(w, p) {
      if at <= p < at + cnt {
        assert Claimed(w, t, p);
      } else {
        SomeonesStill(s, w, p);
      }
    }
  }

  lemma {:induction false} MarkStep(s: State, e: Event)
    requires Inv(s) && Enabled(s, e) && e.Mark?
    ensures Inv(Apply(s, e))
  {
    var t, w, ph := e.t, Apply(s, e), s.phase[e.t];
    assert PhaseOk(s, t);
    forall u: Tid | u < |s.phase| ensures PhaseOk(w, u) { assert PhaseOk(s, u); }
    hide Apart, Kept;
    if ph.done < ph.cnt { Claim(s, w, t, ph.at + ph.done); } else { SameClaimsKeep(s, w); }
  }

  lemma {:induction false} ClearStep(s: State, e: Event)
    requires Inv(s) && Enabled(s, e) && e.Clear?
    ensures Inv(Apply(s, e))
  {
    var t, w, ph := e.t, Apply(s, e), s.phase[e.t];
    assert PhaseOk(s, t);
    forall u: Tid | u < |s.phase| ensures PhaseOk(w, u) { assert PhaseOk(s, u); }
    hide Apart, Kept;
    if ph.done < ph.cnt { Unclaim(s, w, t, ph.at + ph.done); } else { SameClaimsKeep(s, w); }
  }

  lemma {:induction false} ReleaseStep(s: State, e: Event)
    requires Inv(s) && Enabled(s, e) && e.Release?
    ensures Inv(Apply(s, e))
  {
    hide Apart, Kept;
    var t, w, ph := e.t, Apply(s, e), s.phase[e.t];
    assert PhaseOk(s, t);
    forall u: Tid | u < |s.phase| ensures PhaseOk(w, u) { assert PhaseOk(s, u); }
    if ph.Leaving? {
      PagesAre(t, ph.at, ph.cnt);
      hide Pages;
      Grant(s, w, t);
    } else {
      SameClaimsKeep(s, w);
    }
  }

  lemma {:induction false} CallFreeStep(s: State, e: Event)
    requires Inv(s) && Enabled(s, e) && e.CallFree?
    ensures Inv(Apply(s, e))
  {
    hide Apart, Kept;
    var w := Apply(s, e);
    forall u: Tid | u < |s.phase| ensures PhaseOk(w, u) { assert PhaseOk(s, u); }
    PagesAre(e.owner, e.at, e.cnt);
    hide Pages;
    GiveBack(s, w, e.t, e.owner, e.at, e.cnt);
  }

  lemma {:induction false} StepKeeps(s: State, e: Event)
    requires Inv(s) && Enabled(s, e)
    ensures Inv(Apply(s, e))
  {
    hide Inv, Apply;
    match e
    case Mark(_) => MarkStep(s, e);
    case Clear(_) => ClearStep(s, e);
    case Release(_) => ReleaseStep(s, e);
    case CallFree(_, _, _, _) => CallFreeStep(s, e);
    case _ => QuietStep(s, e);
  }

  // ---------------------------------------------------------------- runs

  ghost predicate Init(s: State) {
    && s.lock == None && s.holds == {} && (forall t: Tid | t < |s.phase| :: s.phase[t] == Idle)
    && forall p | 0 <= p < |s.bits| :: !s.bits[p]
  }

  /** The states of a run: each follows from the one before by an event that could happen. */
  ghost predicate Run(states: seq<State>, events: seq<Event>) {
    && |states| == |events| + 1 && Init(states[0])
    && forall i | 0 <= i < |events| :: Enabled(states[i], events[i]) && states[i + 1] == Apply(states[i], events[i])
  }

  lemma {:induction false} RunKeeps(states: seq<State>, events: seq<Event>, n: nat)
    requires Run(states, events) && n < |states|
    ensures Inv(states[n])
    decreases n
  {
    if n == 0 {
      assert Inv(states[0]);
    } else {
      RunKeeps(states, events, n - 1);
      hide Inv, Apply, Enabled;
      StepKeeps(states[n - 1], events[n - 1]);
    }
  }

  /** In no run does a page have two owners, nor an owner while it is being handed out or given back. */
  lemma {:induction false} OneOwner(states: seq<State>, events: seq<Event>, n: nat, t: Tid, u: Tid, p: nat)
    requires Run(states, events) && n < |states| && Has(states[n], t, p)
    ensures Has(states[n], u, p) ==> u == t
    ensures !Claimed(states[n], u, p)
    ensures p < |states[n].bits| && states[n].bits[p]
  {
    RunKeeps(states, events, n);
  }

  /** In every run, a page is marked used exactly when it is held or claimed: none is lost. */
  lemma {:induction false} NoPageLost(states: seq<State>, events: seq<Event>, n: nat, p: nat)
    requires Run(states, events) && n < |states| && p < |states[n].bits|
    ensures states[n].bits[p] <==> Someones(states[n], p)
  {
    RunKeeps(states, events, n);
  }

  /** The pages a call returns were nobody's and are its caller's from then on. */
  lemma {:induction false} Granted(states: seq<State>, events: seq<Event>, n: nat, t: Tid, p: nat, u: Tid)
    requires Run(states, events) && n < |events| && events[n] == Release(t) && states[n].phase[t].Leaving?
    requires var ph := states[n].phase[t]; ph.at <= p < ph.at + ph.cnt
    ensures !Has(states[n], u, p) && (Claimed(states[n], u, p) ==> u == t)
    ensures Has(states[n + 1], t, p) && p < |states[n].bits|
  {
    RunKeeps(states, events, n);
    var ph := states[n].phase[t];
    assert Claimed(states[n], t, p);
    PagesAre(t, ph.at, ph.cnt);
  }

  /** palloc_free_multiple finds every bit of its group still set, whatever other threads did meanwhile. */
  lemma {:induction false} FreedStillSet(states: seq<State>, events: seq<Event>, n: nat, t: Tid, p: nat)
    requires Run(states, events) && n < |states| && t < |states[n].phase| && states[n].phase[t].Freeing?
    requires var ph := states[n].phase[t]; ph.at + ph.done <= p < ph.at + ph.cnt
    ensures p < |states[n].bits| && states[n].bits[p]
  {
    RunKeeps(states, events, n);
    assert Claimed(states[n], t, p);
  }

  /** Every group of `cnt` pages that begins before `at` had a page in use when the scan looked at it. */
  ghost predicate PassedOver(states: seq<State>, i: nat, n: nat, cnt: nat, at: nat) {
    n < |states| && forall g: nat | g < at && g + cnt <= |states[n].bits| :: InUseOnce(states, i, n, g, cnt)
  }

  ghost predicate InUseOnce(states: seq<State>, i: nat, n: nat, g: nat, cnt: nat) {
    exists m: nat, q: nat :: i < m < n < |states| && g <= q < g + cnt && q < |states[m].bits| && states[m].bits[q]
  }

  /** How far a call has come that found the lock at step `i` and wanted `cnt` pages. */
  ghost predicate Progress(states: seq<State>, i: nat, n: nat, t: Tid, cnt: nat)
    requires n < |states| && t < |states[n].phase|
  {
    match states[n].phase[t]
    case Scanning(c, at, _) => c == cnt && PassedOver(states, i, n, cnt, at)
    case Setting(c, at, _) => c == cnt && PassedOver(states, i, n, cnt, at)
    case Leaving(c, at) => c == cnt && PassedOver(states, i, n, cnt, at)
    case Failing => PassedOver(states, i, n, cnt, |states[n].bits|)
    case _ => false
  }

  /** A call gets the pages it asked for, in the first group that it did not find in use; it fails only when it found a
      page in use in every group. */
  lemma {:induction false} FirstFit(states: seq<State>, events: seq<Event>, i: nat, n: nat, t: Tid, cnt: nat)
    requires Run(states, events) && i < n < |states| && events[i] == Acquire(t) && t < |states[i].phase|
    requires states[i].phase[t] == Wanting(cnt)
    requires forall m | i < m <= n :: t < |states[m].phase| && InLock(states[m].phase[t])
    ensures Progress(states, i, n, t, cnt)
    decreases n
  {
    hide Run, Enabled, Inv, InLock, Progress, InUseOnce;
    RunKeeps(states, events, n - 1);
    RunStep(states, events, n);
    if n - 1 > i {
      hide Apply;
      FirstFit(states, events, i, n - 1, t, cnt);
      LaterToo(states, i, n);
      ScanStep(states, events[n - 1], i, n, t, cnt);
    } else {
      ScanStarts(states, i, n, t, cnt);
    }
  }

  lemma {:induction false} ScanStarts(states: seq<State>, i: nat, n: nat, t: Tid, cnt: nat)
    requires n < |states| && t < |states[n].phase| && states[n].phase[t] == Scanning(cnt, 0, 0)
    ensures Progress(states, i, n, t, cnt)
  {
  }

  lemma {:induction false} LaterToo(states: seq<State>, i: nat, n: nat)
    requires 0 < n < |states|
    ensures forall g: nat, cnt: nat | InUseOnce(states, i, n - 1, g, cnt) :: InUseOnce(states, i, n, g, cnt)
  {
    forall g: nat, cnt: nat | InUseOnce(states, i, n - 1, g, cnt) ensures InUseOnce(states, i, n, g, cnt) {
      var m: nat, q: nat :|
        i < m < n - 1 < |states| && g <= q < g + cnt && q < |states[m].bits| && states[m].bits[q];
    }
  }

  lemma {:induction false} ScanStep(states: seq<State>, e: Event, i: nat, n: nat, t: Tid, cnt: nat)
    requires i < n - 1 && 0 < n < |states| && t < |states[n - 1].phase| && t < |states[n].phase|
    requires Enabled(states[n - 1], e) && states[n] == Apply(states[n - 1], e)
    requires Inv(states[n - 1]) && InLock(states[n - 1].phase[t]) && InLock(states[n].phase[t])
    requires Progress(states, i, n - 1, t, cnt)
    requires forall g: nat, c: nat | InUseOnce(states, i, n - 1, g, c) :: InUseOnce(states, i, n, g, c)
    ensures Progress(states, i, n, t, cnt)
  {
    var s, ph := states[n - 1], states[n - 1].phase[t];
    assert PhaseOk(s, t) && |states[n].bits| == |s.bits|;
    hide InUseOnce, Inv, PassedOver, PhaseOk;
    forall at | PassedOver(states, i, n - 1, cnt, at) ensures PassedOver(states, i, n, cnt, at) {
      PassedLater(states, i, n, cnt, at);
    }
    if e == Test(t) && ph.Scanning? {
      if ph.at + ph.cnt > |s.bits| {
        PassedAll(states, i, n, cnt, ph.at);
      } else if ph.seen < ph.cnt && s.bits[ph.at + ph.seen] {
        SeenInUse(states, i, n, ph.at, ph.cnt, ph.at + ph.seen);
        PassedOne(states, i, n, cnt, ph.at);
      }
    }
  }

  lemma {:induction false} PassedLater(states: seq<State>, i: nat, n: nat, cnt: nat, at: nat)
    requires 0 < n < |states| && |states[n].bits| == |states[n - 1].bits| && PassedOver(states, i, n - 1, cnt, at)
    requires forall g: nat, c: nat | InUseOnce(states, i, n - 1, g, c) :: InUseOnce(states, i, n, g, c)
    ensures PassedOver(states, i, n, cnt, at)
  {
    hide InUseOnce;
  }

  lemma {:induction false} PassedAll(states: seq<State>, i: nat, n: nat, cnt: nat, at: nat)
    requires PassedOver(states, i, n, cnt, at) && at + cnt > |states[n].bits|
    ensures PassedOver(states, i, n, cnt, |states[n].bits|)
  {
    hide InUseOnce;
  }

  lemma {:induction false} PassedOne(states: seq<State>, i: nat, n: nat, cnt: nat, at: nat)
    requires PassedOver(states, i, n, cnt, at) && InUseOnce(states, i, n, at, cnt)
    ensures PassedOver(states, i, n, cnt, at + 1)
  {
    hide InUseOnce;
  }

  lemma {:induction false} SeenInUse(states: seq<State>, i: nat, n: nat, g: nat, cnt: nat, q: nat)
    requires i < n - 1 && 0 < n < |states| && g <= q < g + cnt && q < |states[n - 1].bits| && states[n - 1].bits[q]
    ensures InUseOnce(states, i, n, g, cnt)
  {
  }

  /** The phases of palloc_get_multiple for `cnt` pages. */
  predicate Getting(ph: Phase, cnt: nat) {
    ph.Failing? || ((ph.Wanting? || ph.Scanning? || ph.Setting? || ph.Leaving?) && ph.cnt == cnt)
  }

  lemma {:induction false} GettingStep(s: State, e: Event, t: Tid, cnt: nat)
    requires Enabled(s, e) && t < |s.phase| && Getting(s.phase[t], cnt)
    ensures t < |Apply(s, e).phase|
    ensures Getting(Apply(s, e).phase[t], cnt) || (e == Release(t) && Apply(s, e).phase[t].Idle?)
  {
  }

  lemma {:induction false} StillGetting(states: seq<State>, events: seq<Event>, i: nat, n: nat, t: Tid, cnt: nat)
    requires Run(states, events) && i < n < |states| && events[i] == Call(t, cnt) && cnt > 0
    requires forall m | i < m < n :: t < |states[m].phase| && !states[m].phase[t].Idle?
    ensures t < |states[n].phase|
    ensures Getting(states[n].phase[t], cnt) || (events[n - 1] == Release(t) && states[n].phase[t].Idle? && i < n - 1)
    decreases n
  {
    assert Enabled(states[n - 1], events[n - 1]) && states[n] == Apply(states[n - 1], events[n - 1]);
    if n - 1 > i {
      StillGetting(states, events, i, n - 1, t, cnt);
      hide Run, Apply, Enabled;
      GettingStep(states[n - 1], events[n - 1], t, cnt);
    }
  }

  /** palloc_get_multiple for at least one page takes the lock, and returns by letting it go: with a group of the size
      asked for, which is then its caller's, or without one. */
  lemma {:induction false} GetReturns(states: seq<State>, events: seq<Event>, i: nat, j: nat, t: Tid, cnt: nat)
    requires Run(states, events) && i < j < |states| && events[i] == Call(t, cnt) && cnt > 0
    requires forall m | i < m < j :: t < |states[m].phase| && !states[m].phase[t].Idle?
    requires t < |states[j].phase| && states[j].phase[t].Idle?
    ensures i < j - 1 && events[j - 1] == Release(t) && t < |states[j - 1].phase|
    ensures var ph := states[j - 1].phase[t]; ph.Failing? || (ph.Leaving? && ph.cnt == cnt)
  {
    StillGetting(states, events, i, j, t, cnt);
    StillGetting(states, events, i, j - 1, t, cnt);
    assert Enabled(states[j - 1], events[j - 1]);
    hide Run, Apply;
  }

  /** Page `p` was cleared by thread `t` in a step between `i` and `n`. */
  ghost predicate Cleared(states: seq<State>, events: seq<Event>, i: nat, n: nat, t: Tid, p: nat) {
    exists m: nat :: i < m < n < |states| && m < |events| && ClearsAt(states, events, m, t, p)
  }

  ghost predicate ClearsAt(states: seq<State>, events: seq<Event>, m: nat, t: Tid, p: nat) {
    m < |events| && m + 1 < |states| && events[m] == Clear(t) && p < |states[m + 1].bits| && !states[m + 1].bits[p]
  }

  ghost predicate FreeProgress(states: seq<State>, events: seq<Event>, i: nat, n: nat, t: Tid, at: nat, cnt: nat)
    requires n < |states| && t < |states[n].phase|
  {
    var ph := states[n].phase[t];
    && (ph.Freeing? || ph.Idle?) && (ph.Freeing? ==> ph.cnt == cnt && ph.at == at && ph.done <= cnt)
    && var done := if ph.Freeing? then ph.done else cnt;
       forall p: nat | at <= p < at + done :: Cleared(states, events, i, n, t, p)
  }

  lemma {:induction false} FreeingStep(states: seq<State>, events: seq<Event>, i: nat, n: nat, t: Tid, at: nat,
                                       cnt: nat)
    requires i < n - 1 && 0 < n < |states| && n - 1 < |events| && Enabled(states[n - 1], events[n - 1])
    requires states[n] == Apply(states[n - 1], events[n - 1]) && t < |states[n - 1].phase|
    requires states[n - 1].phase[t].Freeing? && Inv(states[n - 1])
    requires FreeProgress(states, events, i, n - 1, t, at, cnt)
    ensures t < |states[n].phase| && FreeProgress(states, events, i, n, t, at, cnt)
  {
    var ph := states[n - 1].phase[t];
    assert PhaseOk(states[n - 1], t);
    forall p: nat | Cleared(states, events, i, n - 1, t, p) ensures Cleared(states, events, i, n, t, p) {
      var m: nat :| i < m < n - 1 && m < |events| && ClearsAt(states, events, m, t, p);
    }
    if events[n - 1] == Clear(t) && ph.done < ph.cnt { assert ClearsAt(states, events, n - 1, t, at + ph.done); }
    hide Cleared, Inv, ClearsAt;
  }

  /** By the time palloc_free_multiple returns it has cleared every page of its group, which was taken from its
      owner. */
  lemma {:induction false} FreeDone(states: seq<State>, events: seq<Event>, i: nat, n: nat, t: Tid, owner: Tid, at: nat,
                                    cnt: nat)
    requires Run(states, events) && i < n < |states| && events[i] == CallFree(t, owner, at, cnt)
    requires forall m | i < m < n :: t < |states[m].phase| && !states[m].phase[t].Idle?
    ensures t < |states[n].phase| && FreeProgress(states, events, i, n, t, at, cnt)
    ensures n == i + 1 ==> forall p: nat | at <= p < at + cnt :: !Has(states[n], owner, p)
    ensures n == i + 1 ==> !states[n].phase[t].Idle?
    decreases n
  {
    assert Enabled(states[n - 1], events[n - 1]) && states[n] == Apply(states[n - 1], events[n - 1]);
    if n - 1 > i {
      FreeDone(states, events, i, n - 1, t, owner, at, cnt);
      RunKeeps(states, events, n - 1);
      hide Run, Apply, Enabled, Inv;
      FreeingStep(states, events, i, n, t, at, cnt);
    } else {
      PagesAre(owner, at, cnt);
    }
  }

  // ---------------------------------------------------------------- every call ends

  /** How many more steps of its own a call can take at most, in a pool of `n` pages. */
  function Work(ph: Phase, n: nat): nat {
    match ph
    case Idle => 0
    case Wanting(cnt) => ScanWork(cnt, 0, 0, n) + 1
    case Scanning(cnt, at, seen) => ScanWork(cnt, at, seen, n)
    case Setting(cnt, at, done) => if done <= cnt then cnt - done + 2 else 2
    case Leaving(_, _) => 1
    case Failing => 1
    case Freeing(cnt, at, done) => if done <= cnt then cnt - done + 1 else 1
  }

  /** For each group still to test, its bits and two steps more; and the bits to set. */
  function ScanWork(cnt: nat, at: nat, seen: nat, n: nat): nat {
    Groups(at, n) * (cnt + 2) + (if seen <= cnt then cnt - seen else 0) + cnt + 3
  }

  function Groups(at: nat, n: nat): nat { if at <= n then n + 1 - at else 0 }

  lemma {:induction false} NextGroup(cnt: nat, at: nat, seen: nat, n: nat)
    requires at <= n && seen <= cnt
    ensures ScanWork(cnt, at + 1, 0, n) < ScanWork(cnt, at, seen, n)
  {
    assert Groups(at, n) == Groups(at + 1, n) + 1;
    assert Groups(at, n) * (cnt + 2) == Groups(at + 1, n) * (cnt + 2) + (cnt + 2);
  }

  lemma {:induction false} AboutToSet(cnt: nat, at: nat, seen: nat, n: nat)
    ensures ScanWork(cnt, at, seen, n) >= cnt + 3
  {
    assert Groups(at, n) * (cnt + 2) >= 0;
  }

  lemma {:induction false} WorkStep(s: State, e: Event)
    requires Inv(s) && Enabled(s, e) && !e.Call? && !e.CallFree?
    ensures var w := Apply(s, e);
      |w.phase| == |s.phase| && |w.bits| == |s.bits| && Work(w.phase[e.t], |w.bits|) < Work(s.phase[e.t], |s.bits|)
  {
    assert PhaseOk(s, e.t);
    hide Inv, ScanWork;
    var ph := s.phase[e.t];
    if ph.Scanning? {
      AboutToSet(ph.cnt, ph.at, ph.seen, |s.bits|);
      if ph.at <= |s.bits| { NextGroup(ph.cnt, ph.at, ph.seen, |s.bits|); }
      NextBit(ph.cnt, ph.at, ph.seen, |s.bits|);
    }
  }

  lemma {:induction false} NextBit(cnt: nat, at: nat, seen: nat, n: nat)
    ensures seen < cnt ==> ScanWork(cnt, at, seen + 1, n) < ScanWork(cnt, at, seen, n)
  {
    hide Groups;
  }

  /** The steps of `t` from `i` up to `n`. */
  ghost function OwnSteps(events: seq<Event>, t: Tid, i: nat, n: nat): nat {
    if i >= n || n > |events| then 0 else OwnSteps(events, t, i, n - 1) + if events[n - 1].t == t then 1 else 0
  }

  lemma {:induction false} OthersWork(s: State, e: Event, t: Tid)
    requires Enabled(s, e) && t < |s.phase| && e.t != t
    ensures var w := Apply(s, e); t < |w.phase| && |w.bits| == |s.bits| && w.phase[t] == s.phase[t]
  {
  }

  /** However the steps of others fall between, a call takes no more steps of its own than it has work when it begins;
      so no call goes on forever. */
  lemma {:induction false} CallEnds(states: seq<State>, events: seq<Event>, i: nat, n: nat, t: Tid)
    requires Run(states, events) && i <= n < |states|
    requires forall m | i <= m < n :: t < |states[m].phase| && !states[m].phase[t].Idle?
    requires t < |states[i].phase|
    ensures t < |states[n].phase|
    ensures OwnSteps(events, t, i, n) + Work(states[n].phase[t], |states[n].bits|)
         <= Work(states[i].phase[t], |states[i].bits|)
    decreases n
  {
    if i < n {
      hide Run, Work;
      CallEnds(states, events, i, n - 1, t);
      CallStep(states, events, n, t);
    }
  }

  lemma {:induction false} CallStep(states: seq<State>, events: seq<Event>, n: nat, t: Tid)
    requires Run(states, events) && 0 < n < |states| && t < |states[n - 1].phase| && !states[n - 1].phase[t].Idle?
    ensures n <= |events| && t < |states[n].phase|
    ensures (if events[n - 1].t == t then 1 else 0) + Work(states[n].phase[t], |states[n].bits|)
         <= Work(states[n - 1].phase[t], |states[n - 1].bits|)
  {
    hide Run, Apply, Enabled, Inv, Work;
    RunKeeps(states, events, n - 1);
    RunStep(states, events, n);
    var s, e := states[n - 1], events[n - 1];
    if e.t == t {
      NotACall(s, e);
      WorkStep(s, e);
    } else {
      OthersWork(s, e, t);
    }
  }

  lemma {:induction false} RunStep(states: seq<State>, events: seq<Event>, n: nat)
    requires Run(states, events) && 0 < n < |states|
    ensures n <= |events| && Enabled(states[n - 1], events[n - 1]) && states[n] == Apply(states[n - 1], events[n - 1])
  {
  }

  lemma {:induction false} NotACall(s: State, e: Event)
    requires Enabled(s, e) && e.t < |s.phase| && !s.phase[e.t].Idle?
    ensures !e.Call? && !e.CallFree?
  {
  }

  /** While a call is in progress some call can go on: the pools never deadlock. */
  lemma {:induction false} SomeGoOn(states: seq<State>, events: seq<Event>, n: nat, t: Tid) returns (e: Event)
    requires Run(states, events) && n < |states| && t < |states[n].phase| && !states[n].phase[t].Idle?
    ensures Enabled(states[n], e) && !states[n].phase[e.t].Idle?
  {
    RunKeeps(states, events, n);
    var s := states[n];
    var u := if s.phase[t].Wanting? && s.lock.Some? then s.lock.value else t;
    e := if s.phase[u].Wanting? then Acquire(u)
         else if s.phase[u].Scanning? then Test(u)
         else if s.phase[u].Setting? then Mark(u)
         else if s.phase[u].Freeing? then Clear(u)
         else Release(u);
    hide Run, Apart, Kept, PhaseOk;
  }

  // ---------------------------------------------------------------- the two pools

  /** The first page of a pool's bitmap, the first page it hands out, and the first page past it. */
  datatype Pool = Pool(bitmap: int, base: int, end: int)

  function DivRoundUp(x: int, d: int): int
    requires d > 0
  {
    (x + d - 1) / d
  }

  /** bitmap_buf_size. */
  function BufSize(bits: int): int { 8 + 4 * DivRoundUp(bits, 32) }

  /** init_pool, which panics when the bitmap does not fit. */
  function InitPool(base: int, pageCnt: int): Option<Pool> {
    var bmPages := DivRoundUp(BufSize(pageCnt), PGSIZE);
    if bmPages > pageCnt then None else Some(Pool(base, base + bmPages, base + pageCnt))
  }

  /** palloc_init: the kernel pool, then the user pool, over the free pages from `start` on. */
  function InitPools(start: int, freePages: int, userLimit: int): (Option<Pool>, Option<Pool>) {
    var user := if freePages / 2 > userLimit then userLimit else freePages / 2;
    var kernel := freePages - user;
    (InitPool(start, kernel), InitPool(start + kernel, user))
  }

  /** page_from_pool. */
  predicate FromPool(pool: Pool, page: int) {
    pool.base <= page < pool.end
  }

  lemma {:induction false} RoundUpIs(x: int, d: int)
    requires d > 0 && x >= 0
    ensures d * (DivRoundUp(x, d) - 1) < x <= d * DivRoundUp(x, d)
  {
    var n := DivRoundUp(x, d);
    assert x + d - 1 == n * d + (x + d - 1) % d;
    assert d * (n - 1) == n * d - d;
  }

  /** A pool is made exactly when its pages can hold a bitmap for them. Its bitmap has room for a bit for each page it
      hands out, and takes no page more than a bitmap for all pages would. */
  lemma {:induction false} BitmapFits(base: int, pageCnt: int)
    requires 0 <= pageCnt
    ensures InitPool(base, pageCnt).Some? <==> BufSize(pageCnt) <= PGSIZE * pageCnt
    ensures InitPool(base, pageCnt).Some? ==>
      var pool := InitPool(base, pageCnt).value;
      && base == pool.bitmap < pool.base <= pool.end == base + pageCnt
      && PGSIZE * (pool.base - pool.bitmap - 1) < BufSize(pageCnt)
      && BufSize(pool.end - pool.base) <= (pool.base - pool.bitmap) * PGSIZE
      && 8 * ((pool.base - pool.bitmap) * PGSIZE - 8) >= pool.end - pool.base
  {
    hide BufSize, DivRoundUp;
    BufSizeIs(pageCnt);
    RoundUpIs(BufSize(pageCnt), PGSIZE);
    if InitPool(base, pageCnt).Some? {
      var left := InitPool(base, pageCnt).value.end - InitPool(base, pageCnt).value.base;
      BufSizeIs(left);
      BufSizeGrows(left, pageCnt);
    }
  }

  lemma {:induction false} BufSizeGrows(a: int, b: int)
    requires 0 <= a <= b
    ensures BufSize(a) <= BufSize(b)
  {
  }

  /** Two words of administration, and as few words as have a bit for each. */
  lemma {:induction false} BufSizeIs(bits: int)
    requires 0 <= bits
    ensures var n := BufSize(bits) - 8; n >= 0 && n % 4 == 0 && 8 * (n - 4) < bits <= 8 * n
  {
    RoundUpIs(bits, 32);
  }

  /** The pools and their bitmaps fill the free pages and do not overlap: a page belongs to one pool, or to none if it
      is no free page or in a bitmap. */
  lemma {:induction false} PoolsApart(start: int, freePages: int, userLimit: int, page: int)
    requires 0 <= freePages && 0 <= userLimit
    requires InitPools(start, freePages, userLimit).0.Some? && InitPools(start, freePages, userLimit).1.Some?
    ensures var k := InitPools(start, freePages, userLimit).0.value;
      var u := InitPools(start, freePages, userLimit).1.value;
      && start == k.bitmap < k.base <= k.end == u.bitmap < u.base <= u.end == start + freePages
      && !(FromPool(k, page) && FromPool(u, page))
      && (start <= page < start + freePages ==>
            (FromPool(k, page) || FromPool(u, page) <==> !(k.bitmap <= page < k.base || u.bitmap <= page < u.base)))
      && (FromPool(k, page) || FromPool(u, page) ==> start <= page < start + freePages)
  {
    var user := if freePages / 2 > userLimit then userLimit else freePages / 2;
    BitmapFits(start, freePages - user);
    BitmapFits(start + freePages - user, user);
    hide InitPool;
  }

  /** The user pool has half the free pages, rounded down, or the limit if that is less. */
  lemma {:induction false} PoolSizes(start: int, freePages: int, userLimit: int)
    requires 0 <= freePages && 0 <= userLimit
    requires InitPools(start, freePages, userLimit).0.Some? && InitPools(start, freePages, userLimit).1.Some?
    ensures var k := InitPools(start, freePages, userLimit).0.value;
      var u := InitPools(start, freePages, userLimit).1.value;
      var kernel, user := k.end - k.bitmap, u.end - u.bitmap;
      kernel + user == freePages && user <= kernel && user <= userLimit && (user == userLimit || kernel <= user + 1)
  {
    var user := if freePages / 2 > userLimit then userLimit else freePages / 2;
    BitmapFits(start, freePages - user);
    BitmapFits(start + freePages - user, user);
    hide InitPool;
  }
}
