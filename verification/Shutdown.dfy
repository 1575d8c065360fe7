/** The scheduler's destructor: after it has asked the timer thread to stop, that thread ends. */
module Shutdown {
  import opened Scheduler

  ghost function NextFire(h: Handle): int { FireTime(h.t0, h.period, |h.log|) }

  /** The next item of the handle is in the heap or in the timer's hands, and due. */
  ghost predicate DueAt(s: State, id: nat, now: int)
    requires Known(s, id)
  {
    NextFire(s.handles[id]) <= now && Pending(s, Item(NextFire(s.handles[id]), id))
  }

  /**
   How often the timer may still pop an item of the handle. One whose task is cancelled is discarded
   when it is popped; if that happens between the two loads it comes back once.
   */
  ghost function PopsLeft(s: State, id: nat, now: int): nat
    requires Known(s, id)
  {
    if !DueAt(s, id, now) then 0 else PopsOf(s.handles[id], now, s.timer.Checked? && s.timer.item.id == id)
  }

  ghost function PopsOf(h: Handle, now: int, inHand: bool): (r: nat)
    requires NextFire(h) <= now
    ensures r >= 1
  {
    var cap := if inHand then 2 else 1;
    var regular := if h.period > 0 then Quotient(now - NextFire(h), h.period) + 1 else cap;
    if !h.repeating then 1 else if h.status == Cancelled && cap < regular then cap else regular
  }

  ghost function Quotient(d: int, p: int): (q: nat)
    requires d >= 0 && p > 0
  {
    if d < p then 0 else Quotient(d - p, p) + 1
  }

  ghost function AllPops(s: State, n: nat, now: int): nat
    requires n <= |s.handles|
  {
    if n == 0 then 0 else AllPops(s, n - 1, now) + PopsLeft(s, n - 1, now)
  }

  /** A bound on the steps the timer makes once it has been asked to stop. */
  ghost function StepsLeft(s: State): nat {
    match s.timer
    case Stopped => 0
    case Waiting => 1
    case Draining(now) => 4 * AllPops(s, |s.handles|, now) + 2
    case Popped(_, now) => 4 * AllPops(s, |s.handles|, now) + 1
    case Checked(_, now) => 4 * AllPops(s, |s.handles|, now)
    case Adding(_, now) => 4 * AllPops(s, |s.handles|, now) + 3
  }

  /** Every due repeating item of a task that is not cancelled has a positive period. */
  ghost predicate PositivePeriods(s: State) {
    !LockFree(s) ==> forall id :: 0 <= id < |s.handles| ==> PositivePeriod(s, id)
  }

  ghost predicate PositivePeriod(s: State, id: nat)
    requires Known(s, id) && !LockFree(s)
  {
    var h := s.handles[id];
    DueAt(s, id, s.timer.now) && h.repeating && h.status != Cancelled ==> h.period > 0
  }

  // ---------------------------------------------------------------- sums

  lemma {:induction false} PopsMono(s: State, t: State, n: nat, now: int)
    requires n <= |s.handles| && n <= |t.handles|
    requires forall id :: 0 <= id < n ==> PopsLeft(t, id, now) <= PopsLeft(s, id, now)
    ensures AllPops(t, n, now) <= AllPops(s, n, now)
  {
    hide PopsLeft;
    if n > 0 {
      PopsMono(s, t, n - 1, now);
    }
  }

  lemma {:induction false} PopsLess(s: State, t: State, n: nat, now: int, k: nat)
    requires k < n <= |s.handles| && n <= |t.handles|
    requires forall id :: 0 <= id < n ==> PopsLeft(t, id, now) <= PopsLeft(s, id, now)
    requires PopsLeft(t, k, now) < PopsLeft(s, k, now)
    ensures AllPops(t, n, now) < AllPops(s, n, now)
  {
    hide PopsLeft;
    if k == n - 1 {
      PopsMono(s, t, n - 1, now);
    } else {
      PopsLess(s, t, n - 1, now, k);
    }
  }

  // ---------------------------------------------------------------- steps of others

  /** Somebody else's step: a status may change, heap, timer and logs do not. */
  lemma OthersLeave(s: State, e: Step)
    requires Enabled(s, e) && !ByTimer(e) && !e.Schedule?
    ensures var t := Apply(s, e);
      |t.handles| == |s.handles| && t.heap == s.heap && t.timer == s.timer
    ensures forall id :: 0 <= id < |s.handles| ==> SameLog(s.handles[id], Apply(s, e).handles[id])
  {
    hide Apply, Enabled;
    TimerFrame(s, e);
    HandlesStep(s, e);
  }

  lemma PopsAfterOthers(s: State, t: State, id: nat, now: int)
    requires t.heap == s.heap && t.timer == s.timer && Known(s, id) && Known(t, id)
    requires SameLog(s.handles[id], t.handles[id])
    requires var h := s.handles[id]; DueAt(s, id, now) && h.repeating && h.status != Cancelled ==> h.period > 0
    ensures PopsLeft(t, id, now) <= PopsLeft(s, id, now)
    ensures DueAt(t, id, now) <==> DueAt(s, id, now)
  {
    hide FireTime, Quotient;
  }

  lemma OthersStep(s: State, e: Step)
    requires Enabled(s, e) && !ByTimer(e) && !e.Schedule? && PositivePeriods(s)
    ensures StepsLeft(Apply(s, e)) <= StepsLeft(s) && PositivePeriods(Apply(s, e))
  {
    hide Apply, Enabled, AllPops, PopsLeft, DueAt, SameLog;
    OthersLeave(s, e);
    var t := Apply(s, e);
    if !LockFree(s) {
      forall id | 0 <= id < |s.handles|
        ensures PopsLeft(t, id, s.timer.now) <= PopsLeft(s, id, s.timer.now) && PositivePeriod(t, id)
      {
        assert PositivePeriod(s, id);
        SameSettings(s.handles[id], t.handles[id]);
        PopsAfterOthers(s, t, id, s.timer.now);
      }
      PopsMono(s, t, |s.handles|, s.timer.now);
    }
  }

  lemma SameSettings(h: Handle, k: Handle)
    requires SameLog(h, k)
    ensures k.repeating == h.repeating && k.period == h.period && (h.status == Cancelled ==> k.status == Cancelled)
  {
  }

  // ---------------------------------------------------------------- the timer's steps

  /** The item in the timer's hands is the next one of its handle, and due. */
  lemma HandIsDue(s: State)
    requires Inv(s) && (s.timer.Popped? || s.timer.Checked?)
    ensures Known(s, s.timer.item.id) && DueAt(s, s.timer.item.id, s.timer.now)
    ensures s.timer.item == Item(NextFire(s.handles[s.timer.item.id]), s.timer.item.id)
  {
    hide FireTime, LogOk, MayBePending, Exclusive, OneShots;
    InHand(s);
    assert Pending(s, s.timer.item);
  }

  /** A step after which the same items are pending. */
  lemma SamePops(s: State, t: State, id: nat, now: int)
    requires Known(s, id) && t.handles == s.handles && (forall item :: Pending(t, item) <==> Pending(s, item))
    requires s.timer.Checked? && s.timer.item.id == id ==> s.handles[id].status != Cancelled
    requires t.timer.Checked? && t.timer.item.id == id ==> s.handles[id].status != Cancelled
    requires var h := s.handles[id]; DueAt(s, id, now) && h.repeating && h.status != Cancelled ==> h.period > 0
    ensures PopsLeft(t, id, now) == PopsLeft(s, id, now) && (DueAt(t, id, now) <==> DueAt(s, id, now))
  {
    hide FireTime, Quotient, Pending;
  }

  /** Pops that are the same for every handle, and what that means for the bound. */
  ghost predicate SameForAll(s: State, t: State, now: int) {
    && |t.handles| == |s.handles|
    && forall id :: 0 <= id < |s.handles| ==>
         PopsLeft(t, id, now) <= PopsLeft(s, id, now) && (DueAt(t, id, now) && t.handles[id].repeating ==>
           t.handles[id].status == Cancelled || t.handles[id].period > 0)
  }

  lemma KeptPositive(s: State, t: State, now: int)
    requires SameForAll(s, t, now) && (!LockFree(t) ==> t.timer.now == now)
    ensures PositivePeriods(t) && AllPops(t, |t.handles|, now) <= AllPops(s, |s.handles|, now)
  {
    hide PopsLeft, DueAt;
    PopsMono(s, t, |s.handles|, now);
  }

  lemma Moved(s: State, t: State)
    requires PositivePeriods(s) && !LockFree(s) && t.handles == s.handles
    requires forall item :: Pending(t, item) <==> Pending(s, item)
    requires s.timer.Checked? ==> !Known(s, s.timer.item.id)
    requires t.timer.Checked? ==> Known(s, t.timer.item.id) && s.handles[t.timer.item.id].status != Cancelled
    ensures SameForAll(s, t, s.timer.now)
  {
    hide PopsLeft, DueAt, Pending;
    forall id | 0 <= id < |s.handles|
      ensures PopsLeft(t, id, s.timer.now) == PopsLeft(s, id, s.timer.now)
      ensures DueAt(t, id, s.timer.now) && t.handles[id].repeating ==>
        t.handles[id].status == Cancelled || t.handles[id].period > 0
    {
      assert PositivePeriod(s, id);
      SamePops(s, t, id, s.timer.now);
    }
  }

  lemma PopPending(s: State, item: Item)
    requires Inv(s) && Enabled(s, Pop(item))
    ensures var t := Apply(s, Pop(item));
      t.handles == s.handles && t.timer == Popped(item, s.timer.now)
    ensures forall other :: Pending(Apply(s, Pop(item)), other) <==> Pending(s, other)
  {
    hide Exclusive, OneShots, TimerKnown, RunnerKnown, CancellersKnown;
    CadenceHeap(s, item);
    var t := Apply(s, Pop(item));
    assert forall other :: other in t.heap <==> other in s.heap && other != item;
  }

  lemma PopStep(s: State, item: Item)
    requires Inv(s) && Enabled(s, Pop(item)) && PositivePeriods(s)
    ensures StepsLeft(Apply(s, Pop(item))) < StepsLeft(s) && PositivePeriods(Apply(s, Pop(item)))
  {
    hide Inv, PositivePeriods, AllPops, SameForAll, Pending;
    PopPending(s, item);
    Moved(s, Apply(s, Pop(item)));
    KeptPositive(s, Apply(s, Pop(item)), s.timer.now);
  }

  lemma AddStep(s: State)
    requires Enabled(s, AddTask) && PositivePeriods(s)
    ensures StepsLeft(Apply(s, AddTask)) < StepsLeft(s) && PositivePeriods(Apply(s, AddTask))
  {
    hide PositivePeriods, AllPops, SameForAll;
    var t := Apply(s, AddTask);
    assert forall item :: Pending(t, item) <==> Pending(s, item);
    Moved(s, t);
    KeptPositive(s, t, s.timer.now);
  }

  /** A popped item goes for good. */
  lemma Leaves(s: State, outcome: Outcome, t: State)
    requires Inv(s) && PositivePeriods(s) && (s.timer.Popped? || s.timer.Checked?)
    requires Known(s, s.timer.item.id) && t.handles == Record(s, s.timer.item, outcome).handles && t.heap == s.heap
    requires !LockFree(t) && t.timer.now == s.timer.now && !t.timer.Popped? && !t.timer.Checked?
    ensures PositivePeriods(t)
    ensures AllPops(t, |t.handles|, s.timer.now) < AllPops(s, |s.handles|, s.timer.now)
  {
    hide AllPops, Pending, FireTime, Quotient, LogOk, MayBePending, Exclusive, OneShots;
    var now, me := s.timer.now, s.timer.item.id;
    HandIsDue(s);
    LeavesPending(s, t);
    forall id | 0 <= id < |s.handles|
      ensures PopsLeft(t, id, now) <= PopsLeft(s, id, now) && PositivePeriod(t, id)
    {
      assert PositivePeriod(s, id);
      if id == me {
        assert !DueAt(t, id, now);
      } else {
        assert t.handles[id] == s.handles[id];
      }
    }
    PopsLess(s, t, |s.handles|, now, me);
  }

  /** A popped item of a repeating task comes back one period later. */
  lemma Returns(s: State, outcome: Outcome, t: State)
    requires Inv(s) && PositivePeriods(s) && s.timer.Checked? && Known(s, s.timer.item.id)
    requires s.handles[s.timer.item.id].repeating
    requires t.handles == Record(s, s.timer.item, outcome).handles
    requires t.heap == s.heap + multiset{Next(s, s.timer.item)}
    requires !LockFree(t) && t.timer.now == s.timer.now && !t.timer.Popped? && !t.timer.Checked?
    ensures PositivePeriods(t)
    ensures AllPops(t, |t.handles|, s.timer.now) < AllPops(s, |s.handles|, s.timer.now)
  {
    hide AllPops, Pending, FireTime, PopsOf, LogOk, MayBePending, Exclusive, OneShots;
    var now, me := s.timer.now, s.timer.item.id;
    HandIsDue(s);
    ReturnsPending(s, t);
    var h := s.handles[me];
    FireTimes(h.t0, h.period, |h.log|);
    assert PositivePeriod(s, me);
    OneFewer(h, t.handles[me], now);
    forall id | 0 <= id < |s.handles|
      ensures PopsLeft(t, id, now) <= PopsLeft(s, id, now) && PositivePeriod(t, id)
    {
      assert PositivePeriod(s, id);
      if id != me {
        assert t.handles[id] == s.handles[id];
      }
    }
    PopsLess(s, t, |s.handles|, now, me);
  }

  lemma OneFewer(h: Handle, k: Handle, now: int)
    requires h.repeating && NextFire(h) <= now && (h.status != Cancelled ==> h.period > 0)
    requires k.repeating && k.period == h.period && k.status == h.status && NextFire(k) == NextFire(h) + h.period
    ensures NextFire(k) <= now ==> PopsOf(k, now, false) < PopsOf(h, now, true)
  {
    hide NextFire;
  }

  lemma LoadStep(s: State)
    requires Inv(s) && Enabled(s, LoadCancelled) && PositivePeriods(s)
    ensures StepsLeft(Apply(s, LoadCancelled)) < StepsLeft(s) && PositivePeriods(Apply(s, LoadCancelled))
  {
    hide Inv, PositivePeriods, AllPops, SameForAll;
    var t := Apply(s, LoadCancelled);
    if s.handles[s.timer.item.id].status == Cancelled {
      Leaves(s, Discarded, t);
    } else {
      assert forall item :: Pending(t, item) <==> Pending(s, item);
      Moved(s, t);
      KeptPositive(s, t, s.timer.now);
    }
  }

  lemma DecideStep(s: State)
    requires Inv(s) && Enabled(s, Decide) && PositivePeriods(s)
    ensures StepsLeft(Apply(s, Decide)) < StepsLeft(s) && PositivePeriods(Apply(s, Decide))
  {
    hide Inv, PositivePeriods, AllPops;
    var t := Apply(s, Decide);
    var h := s.handles[s.timer.item.id];
    if !h.repeating {
      Leaves(s, Dispatched, t);
    } else if h.policy == Skip && h.status == Running {
      Returns(s, Skipped, t);
    } else {
      Returns(s, Dispatched, t);
    }
  }

  lemma EndStep(s: State, e: Step)
    requires Enabled(s, e) && (e.EndDrain? || e.ExitTimer?)
    ensures StepsLeft(Apply(s, e)) < StepsLeft(s) && PositivePeriods(Apply(s, e))
  {
    hide AllPops;
  }

  lemma TimerStep(s: State, e: Step)
    requires Inv(s) && s.stop && Enabled(s, e) && ByTimer(e) && PositivePeriods(s)
    ensures StepsLeft(Apply(s, e)) < StepsLeft(s) && PositivePeriods(Apply(s, e))
  {
    if e.Wake? {
      assert false;
    }
    hide Inv, Apply, Enabled, StepsLeft, PositivePeriods;
    match e
    case Pop(item) => PopStep(s, item);
    case LoadCancelled => LoadStep(s);
    case Decide => DecideStep(s);
    case AddTask => AddStep(s);
    case EndDrain => EndStep(s, e);
    case ExitTimer => EndStep(s, e);
    case _ =>
  }

  // ---------------------------------------------------------------- whole runs

  lemma {:induction false} EarliestItem(m: multiset<Item>) returns (item: Item)
    requires m != multiset{}
    ensures item in m && forall other :: other in m ==> item.time <= other.time
    decreases |m|
  {
    var one :| one in m;
    var rest := m - multiset{one};
    assert forall other :: other in m <==> other in rest || other == one;
    item := one;
    if rest != multiset{} {
      var best := EarliestItem(rest);
      if best.time < one.time {
        item := best;
      }
    } else {
      assert forall other :: other !in rest;
    }
  }

  /** The timer has something to do: it waits only for a first item or for being asked to stop. */
  predicate HasWork(s: State) { !s.timer.Stopped? && (s.timer.Waiting? ==> s.stop || s.heap != multiset{}) }

  lemma CanGoOn(s: State) returns (e: Step)
    requires Inv(s) && HasWork(s)
    ensures ByTimer(e) && Enabled(s, e)
  {
    hide Exclusive, OneShots, Cadence, RunnerKnown, CancellersKnown;
    match s.timer
    case Waiting => e := if s.stop then ExitTimer else Wake;
    case Popped(_, _) => e := LoadCancelled;
    case Checked(_, _) => e := Decide;
    case Adding(_, _) => e := AddTask;
    case Draining(now) =>
      e := EndDrain;
      if s.heap != multiset{} {
        var item := EarliestItem(s.heap);
        if item.time <= now {
          e := Pop(item);
        }
      }
    case Stopped => assert false;
  }

  lemma StopsWhenAsked(s: State, e: Step)
    requires Enabled(s, e) && (s.timer.Stopped? ==> s.stop)
    ensures Apply(s, e).timer.Stopped? ==> Apply(s, e).stop
  {
  }

  /** In every run the timer can go on exactly as long as it has something to do, and ends only if asked to. */
  lemma {:induction false} TimerGoesOn(ss: seq<State>, es: seq<Step>, i: nat)
    requires Run(ss, es) && i < |ss|
    ensures HasWork(ss[i]) <==> exists e :: ByTimer(e) && Enabled(ss[i], e)
    ensures ss[i].timer.Stopped? ==> ss[i].stop
  {
    hide Inv, Apply;
    if i > 0 {
      TimerGoesOn(ss, es, i - 1);
      StopsWhenAsked(ss[i - 1], es[i - 1]);
    }
    Reachable(ss, es, i);
    if HasWork(ss[i]) {
      var e := CanGoOn(ss[i]);
    }
  }

  lemma StopStays(s: State, e: Step)
    requires Enabled(s, e) && s.stop
    ensures Apply(s, e).stop
  {
  }

  ghost function TimerSteps(es: seq<Step>, i: nat, j: nat): nat
    requires i <= j <= |es|
  {
    if i == j then 0 else TimerSteps(es, i, j - 1) + if ByTimer(es[j - 1]) then 1 else 0
  }

  /**
   The destructor returns. From the moment the timer has been asked to stop, and as long as nobody
   schedules, its own steps are bounded, whatever workers and calls of Cancel do in between; and as
   long as it has not ended it can make a step.
   */
  lemma {:induction false} TimerReturns(ss: seq<State>, es: seq<Step>, i: nat, j: nat)
    requires Run(ss, es) && i <= j < |ss| && ss[i].stop && PositivePeriods(ss[i])
    requires forall k :: i <= k < j ==> !es[k].Schedule?
    ensures ss[j].stop && PositivePeriods(ss[j])
    ensures TimerSteps(es, i, j) + StepsLeft(ss[j]) <= StepsLeft(ss[i])
    ensures !ss[j].timer.Stopped? ==> exists e :: ByTimer(e) && Enabled(ss[j], e)
    decreases j
  {
    hide Inv, Apply, Enabled, Init, StepsLeft, PositivePeriods;
    if i < j {
      TimerReturns(ss, es, i, j - 1);
      Reachable(ss, es, j - 1);
      var s, e := ss[j - 1], es[j - 1];
      StopStays(s, e);
      if ByTimer(e) {
        TimerStep(s, e);
      } else {
        OthersStep(s, e);
      }
    }
    Reachable(ss, es, j);
    if !ss[j].timer.Stopped? {
      var e := CanGoOn(ss[j]);
    }
  }
}
