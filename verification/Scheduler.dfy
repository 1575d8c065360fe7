/**
 TaskScheduler as a transition system. Each compare-exchange, status load, clock reading and section
 under the mutex is one step; any number of handles, workers and concurrent Cancel calls.
 The heap is a multiset here; TimerHeap.dfy has the array.
 */
module Scheduler {

  datatype Status = Scheduled | Running | Completed | Cancelled

  datatype Policy = Skip | Queue

  /** What the timer did with a popped item, and when by the clock. */
  datatype Outcome = Dispatched | Skipped | Discarded
  datatype Tick = Tick(time: int, outcome: Outcome, clock: int)

  /**
   A handle with the task's settings. `log` records the popped fire times in order, `starts` how
   often the body was entered, `drops` how often an invocation found the task not Scheduled.
   */
  datatype Handle = Handle(
    status: Status, repeating: bool, period: int, policy: Policy, t0: int, log: seq<Tick>, starts: nat, drops: nat)

  /** An element of the heap. The settings it carries are those of its handle. */
  datatype Item = Item(time: int, id: nat)

  /** The timer thread; it holds the mutex except when waiting or stopped. */
  datatype Timer =
    | Waiting
    | Draining(now: int)
    | Popped(item: Item, now: int)   // not yet known to be cancelled or not
    | Checked(item: Item, now: int)  // was not cancelled
    | Adding(id: nat, now: int)      // about to hand an invocation to the runner
    | Stopped

  /** A worker and the invocation it has taken. */
  datatype Worker = Idle | Got(id: nat) | Body(id: nat) | After(id: nat)

  /** A call of Cancel: before its first and its second compare-exchange, or returned. */
  datatype Canceller = First(id: nat) | Second(id: nat) | Done(id: nat, effective: bool)

  datatype State = State(
    handles: seq<Handle>, heap: multiset<Item>, clock: int, stop: bool, timer: Timer,
    queue: seq<nat>, workers: seq<Worker>, cancellers: seq<Canceller>)

  datatype Step =
    | Pass(d: nat)
    | Schedule(repeating: bool, t0: int, period: int, policy: Policy)
    | RequestStop
    | ExitTimer
    | Wake
    | Pop(item: Item)
    | LoadCancelled
    | Decide
    | AddTask
    | EndDrain
    | Take(w: nat)
    | TrySetRunning(w: nat)
    | EndBody(w: nat)
    | Finish(w: nat)            // SetCompleted or ResetToScheduled
    | StartCancel(id: nat)
    | CancelFirst(c: nat)
    | CancelSecond(c: nat)

  predicate LockFree(s: State) { s.timer.Waiting? || s.timer.Stopped? }

  predicate Known(s: State, id: nat) { id < |s.handles| }

  predicate WorkerAt(s: State, w: nat) { w < |s.workers| && (s.workers[w].Idle? || Known(s, s.workers[w].id)) }

  ghost predicate Enabled(s: State, e: Step) {
    match e
    case Pass(_) => true
    case Schedule(_, _, _, _) => LockFree(s)
    case RequestStop => LockFree(s)
    case ExitTimer => s.timer.Waiting? && s.stop
    case Wake => s.timer.Waiting? && !s.stop && s.heap != multiset{}
    case Pop(item) => s.timer.Draining? && item in s.heap && item.time <= s.timer.now
      && forall other :: other in s.heap ==> item.time <= other.time
    case LoadCancelled => s.timer.Popped? && Known(s, s.timer.item.id)
    case Decide => s.timer.Checked? && Known(s, s.timer.item.id)
    case AddTask => s.timer.Adding?
    case EndDrain => s.timer.Draining? && forall item :: item in s.heap ==> s.timer.now < item.time
    case Take(w) => w < |s.workers| && s.workers[w].Idle? && s.queue != []
    case TrySetRunning(w) => WorkerAt(s, w) && s.workers[w].Got?
    case EndBody(w) => WorkerAt(s, w) && s.workers[w].Body?
    case Finish(w) => WorkerAt(s, w) && s.workers[w].After?
    case StartCancel(id) => Known(s, id)
    case CancelFirst(c) => c < |s.cancellers| && s.cancellers[c].First? && Known(s, s.cancellers[c].id)
    case CancelSecond(c) => c < |s.cancellers| && s.cancellers[c].Second? && Known(s, s.cancellers[c].id)
  }

  function SetStatus(s: State, id: nat, status: Status): State
    requires Known(s, id)
  {
    s.(handles := s.handles[id := s.handles[id].(status := status)])
  }

  /** compare_exchange_strong. */
  function Exchange(s: State, id: nat, expected: Status, desired: Status): State
    requires Known(s, id)
  {
    if s.handles[id].status == expected then SetStatus(s, id, desired) else s
  }

  function SetWorker(s: State, w: nat, worker: Worker): State
    requires w < |s.workers|
  {
    s.(workers := s.workers[w := worker])
  }

  function SetCanceller(s: State, c: nat, canceller: Canceller): State
    requires c < |s.cancellers|
  {
    s.(cancellers := s.cancellers[c := canceller])
  }

  function Record(s: State, item: Item, outcome: Outcome): State
    requires Known(s, item.id)
  {
    var h := s.handles[item.id];
    s.(handles := s.handles[item.id := h.(log := h.log + [Tick(item.time, outcome, s.clock)])])
  }

  function Next(s: State, item: Item): Item
    requires Known(s, item.id)
  {
    Item(item.time + s.handles[item.id].period, item.id)
  }

  /** The timer's step for an item that was not cancelled. */
  function Decided(s: State): State
    requires s.timer.Checked? && Known(s, s.timer.item.id)
  {
    var item, now := s.timer.item, s.timer.now;
    var h := s.handles[item.id];
    if !h.repeating then
      Record(s, item, Dispatched).(timer := Adding(item.id, now))
    else if h.policy == Skip && h.status == Running then
      Record(s, item, Skipped).(heap := s.heap + multiset{Next(s, item)}, timer := Draining(now))
    else
      Record(s, item, Dispatched).(heap := s.heap + multiset{Next(s, item)}, timer := Adding(item.id, now))
  }

  /** The state after a step. */
  ghost function Apply(s: State, e: Step): State
    requires Enabled(s, e)
  {
    match e
    case Pass(d) => s.(clock := s.clock + d)
    case Schedule(repeating, t0, period, policy) =>
      s.(handles := s.handles + [Handle(Scheduled, repeating, period, policy, t0, [], 0, 0)],
         heap := s.heap + multiset{Item(t0, |s.handles|)})
    case RequestStop => s.(stop := true)
    case ExitTimer => s.(timer := Stopped)
    case Wake => s.(timer := Draining(s.clock))
    case Pop(item) => s.(heap := s.heap - multiset{item}, timer := Popped(item, s.timer.now))
    case LoadCancelled =>
      var item, now := s.timer.item, s.timer.now;
      if s.handles[item.id].status == Cancelled then Record(s, item, Discarded).(timer := Draining(now))
      else s.(timer := Checked(item, now))
    case Decide => Decided(s)
    case AddTask => s.(queue := s.queue + [s.timer.id], timer := Draining(s.timer.now))
    case EndDrain => s.(timer := Waiting)
    case Take(w) => SetWorker(s, w, Got(s.queue[0])).(queue := s.queue[1..])
    case TrySetRunning(w) =>
      var id := s.workers[w].id;
      var h := s.handles[id];
      if h.status == Scheduled then
        SetWorker(s, w, Body(id)).(handles := s.handles[id := h.(status := Running, starts := h.starts + 1)])
      else SetWorker(s, w, Idle).(handles := s.handles[id := h.(drops := h.drops + 1)])
    case EndBody(w) => SetWorker(s, w, After(s.workers[w].id))
    case Finish(w) =>
      var id := s.workers[w].id;
      SetWorker(Exchange(s, id, Running, if s.handles[id].repeating then Scheduled else Completed), w, Idle)
    case StartCancel(id) => s.(cancellers := s.cancellers + [First(id)])
    case CancelFirst(c) =>
      var id := s.cancellers[c].id;
      SetCanceller(Exchange(s, id, Scheduled, Cancelled), c,
        if s.handles[id].status == Scheduled then Done(id, true) else Second(id))
    case CancelSecond(c) =>
      var id := s.cancellers[c].id;
      SetCanceller(Exchange(s, id, Running, Cancelled), c, Done(id, s.handles[id].status == Running))
  }

  ghost predicate Init(s: State) {
    && s.handles == [] && s.heap == multiset{} && !s.stop && s.timer == Waiting && s.queue == []
    && s.cancellers == [] && forall w :: 0 <= w < |s.workers| ==> s.workers[w].Idle?
  }

  // ---------------------------------------------------------------- invariants

  ghost predicate TimerKnown(s: State) {
    && (forall item :: item in s.heap ==> Known(s, item.id))
    && (s.timer.Popped? || s.timer.Checked? ==> Known(s, s.timer.item.id))
    && (s.timer.Adding? ==> Known(s, s.timer.id))
  }

  ghost predicate RunnerKnown(s: State) {
    && (forall i :: 0 <= i < |s.queue| ==> Known(s, s.queue[i]))
    && (forall w :: 0 <= w < |s.workers| ==> WorkerAt(s, w))
  }

  ghost predicate CancellersKnown(s: State) {
    forall c :: 0 <= c < |s.cancellers| ==> Known(s, s.cancellers[c].id)
  }

  /** Every id in use is that of a handle. */
  ghost predicate WellFormed(s: State) {
    TimerKnown(s) && RunnerKnown(s) && CancellersKnown(s)
  }

  /** The worker has set the status to Running and has not finished yet. */
  predicate Active(s: State, w: nat, id: nat) {
    w < |s.workers| && (s.workers[w].Body? || s.workers[w].After?) && s.workers[w].id == id
  }

  predicate OnBody(s: State, w: nat, id: nat) { w < |s.workers| && s.workers[w] == Body(id) }

  /** At most one worker is active for a handle; Running means one, Scheduled and Completed none. */
  ghost predicate Exclusive(s: State) {
    && (forall id, w, v :: Active(s, w, id) && Active(s, v, id) ==> w == v)
    && (forall id :: 0 <= id < |s.handles| && s.handles[id].status == Running ==> exists w :: Active(s, w, id))
    && (forall id, w :: 0 <= id < |s.handles| && Active(s, w, id) ==>
         s.handles[id].status != Scheduled && s.handles[id].status != Completed)
  }

  predicate Terminal(h: Handle) { h.status == Completed || h.status == Cancelled }

  /** One-shot tasks never return to Scheduled, so their body is entered at most once. */
  ghost predicate OneShots(s: State) {
    && (forall id :: 0 <= id < |s.handles| && !s.handles[id].repeating ==>
         s.handles[id].starts <= if s.handles[id].status == Scheduled then 0 else 1)
    && (forall c :: 0 <= c < |s.cancellers| && Known(s, s.cancellers[c].id) ==>
         Settled(s.handles[s.cancellers[c].id], s.cancellers[c]))
  }

  /** Where a call of Cancel stands on a one-shot task, its status is no longer Scheduled. */
  predicate Settled(h: Handle, c: Canceller) {
    h.repeating || c.First? || (if c.Second? then h.status != Scheduled else Terminal(h))
  }

  /** The fire time of a handle after k pops. */
  ghost function FireTime(t0: int, period: int, k: nat): int { t0 + k * period }

  /** The item is in the heap, or popped and not put back yet. */
  ghost predicate Pending(s: State, item: Item) {
    item in s.heap || ((s.timer.Popped? || s.timer.Checked?) && s.timer.item == item)
  }

  /** The popped fire times of a handle are its progression, none before its time. */
  ghost predicate LogOk(h: Handle) {
    && (forall k :: 0 <= k < |h.log| ==>
         h.log[k].time == FireTime(h.t0, h.period, k) && h.log[k].time <= h.log[k].clock)
    && (forall k :: 0 <= k < |h.log| && h.log[k].outcome == Discarded ==> k == |h.log| - 1 && h.status == Cancelled)
    && (forall k :: 0 <= k < |h.log| && h.log[k].outcome == Skipped ==> h.repeating && h.policy == Skip)
    && (!h.repeating ==> |h.log| <= 1)
  }

  ghost predicate MustBePending(h: Handle) {
    if h.repeating then h.status != Cancelled else h.log == []
  }

  ghost predicate MayBePending(h: Handle) {
    && (forall k :: 0 <= k < |h.log| ==> h.log[k].outcome != Discarded)
    && (!h.repeating ==> h.log == [])
  }

  ghost predicate Cadence(s: State) {
    && (forall id :: 0 <= id < |s.handles| ==> LogOk(s.handles[id]))
    && (forall item :: item in s.heap ==> s.heap[item] == 1)
    && ((s.timer.Popped? || s.timer.Checked?) ==> s.timer.item !in s.heap && s.timer.item.time <= s.timer.now)
    && (!LockFree(s) ==> s.timer.now <= s.clock)
    && (forall a, b :: Pending(s, a) && Pending(s, b) && a.id == b.id ==> a == b)
    && (forall item :: Pending(s, item) && Known(s, item.id) ==>
         var h := s.handles[item.id];
         MayBePending(h) && item.time == FireTime(h.t0, h.period, |h.log|))
    && (forall id :: 0 <= id < |s.handles| && MustBePending(s.handles[id]) ==>
         var h := s.handles[id];
         Pending(s, Item(FireTime(h.t0, h.period, |h.log|), id)))
  }

  ghost predicate Inv(s: State) {
    WellFormed(s) && Exclusive(s) && OneShots(s) && Cadence(s)
  }

  // ---------------------------------------------------------------- every step keeps them

  /** The steps that may change a status. */
  predicate Decisive(e: Step) { e.TrySetRunning? || e.Finish? || e.CancelFirst? || e.CancelSecond? }

  lemma HandlesGrow(s: State, e: Step)
    requires Enabled(s, e)
    ensures |s.handles| <= |Apply(s, e).handles| <= |s.handles| + 1
    ensures !e.Schedule? ==> |Apply(s, e).handles| == |s.handles|
  {
  }

  /** What a step makes of the heap and the timer. */
  lemma TimerFrame(s: State, e: Step)
    requires Enabled(s, e)
    requires e.Pass? || e.RequestStop? || e.Take? || Decisive(e) || e.EndBody? || e.StartCancel?
    ensures Apply(s, e).heap == s.heap && Apply(s, e).timer == s.timer
  {
  }

  predicate ByTimer(e: Step) {
    e.ExitTimer? || e.Wake? || e.Pop? || e.LoadCancelled? || e.Decide? || e.AddTask? || e.EndDrain?
  }

  lemma TimerKnownDecide(s: State)
    requires TimerKnown(s) && Enabled(s, Decide)
    ensures TimerKnown(Apply(s, Decide))
  {
    hide Record;
    RecordKnows(s, s.timer.item, Skipped);
    RecordKnows(s, s.timer.item, Dispatched);
  }

  lemma RecordKnows(s: State, item: Item, outcome: Outcome)
    requires Known(s, item.id)
    ensures |Record(s, item, outcome).handles| == |s.handles| && Record(s, item, outcome).heap == s.heap
  {
  }

  lemma TimerKnownLoad(s: State)
    requires TimerKnown(s) && Enabled(s, LoadCancelled)
    ensures TimerKnown(Apply(s, LoadCancelled))
  {
    hide Record;
    RecordKnows(s, s.timer.item, Discarded);
  }

  predicate OnlyMoves(e: Step) { e.ExitTimer? || e.Wake? || e.Pop? || e.AddTask? || e.EndDrain? }

  /** Steps by which the timer makes and records no decision. */
  lemma TimerMoves(s: State, e: Step)
    requires Enabled(s, e) && OnlyMoves(e)
    ensures var t := Apply(s, e);
      && t.handles == s.handles && !t.timer.Checked? && !t.timer.Adding?
      && (t.timer.Popped? ==> t.timer.item in s.heap) && forall item :: item in t.heap ==> item in s.heap
  {
  }

  lemma TimerKnownByTimer(s: State, e: Step)
    requires TimerKnown(s) && Enabled(s, e) && ByTimer(e)
    ensures TimerKnown(Apply(s, e))
  {
    hide Apply, Enabled;
    if e.Decide? {
      TimerKnownDecide(s);
    } else if e.LoadCancelled? {
      TimerKnownLoad(s);
    } else {
      TimerMoves(s, e);
    }
  }

  lemma TimerKnownStep(s: State, e: Step)
    requires TimerKnown(s) && Enabled(s, e)
    ensures TimerKnown(Apply(s, e))
  {
    hide Decided, Record;
    HandlesGrow(s, e);
    if ByTimer(e) {
      TimerKnownByTimer(s, e);
    } else if !e.Schedule? {
      TimerFrame(s, e);
    }
  }

  lemma QueueStep(s: State, e: Step)
    requires Enabled(s, e)
    ensures Apply(s, e).queue ==
      if e.AddTask? then s.queue + [s.timer.id] else if e.Take? then s.queue[1..] else s.queue
  {
    hide Decided;
    if e.Decide? {
      DecidedQueue(s);
    }
  }

  lemma DecidedQueue(s: State)
    requires Enabled(s, Decide)
    ensures Decided(s).queue == s.queue
  {
  }

  lemma WorkersStay(s: State, e: Step)
    requires Enabled(s, e)
    ensures |Apply(s, e).workers| == |s.workers|
  {
  }

  /** What a step makes of a worker. */
  lemma WorkerStep(s: State, e: Step, v: nat)
    requires Enabled(s, e) && v < |s.workers|
    ensures |Apply(s, e).workers| == |s.workers|
    ensures var x, y := s.workers[v], Apply(s, e).workers[v];
      y == x || y.Idle? || (e == Take(v) && y == Got(s.queue[0])) || (!x.Idle? && y.id == x.id)
  {
  }

  lemma RunnerKnownStep(s: State, e: Step)
    requires TimerKnown(s) && RunnerKnown(s) && Enabled(s, e)
    ensures RunnerKnown(Apply(s, e))
  {
    hide Apply;
    HandlesGrow(s, e);
    QueueStep(s, e);
    WorkersStay(s, e);
    var t := Apply(s, e);
    forall v | 0 <= v < |t.workers|
      ensures WorkerAt(t, v)
    {
      assert WorkerAt(s, v);
      WorkerStep(s, e, v);
    }
  }

  /** What a step makes of the calls of Cancel. */
  lemma CancelCallStep(s: State, e: Step, c: nat)
    requires Enabled(s, e) && c < |Apply(s, e).cancellers|
    ensures var k := Apply(s, e).cancellers[c];
      if c == |s.cancellers| then e.StartCancel? && k == First(e.id) && Known(s, e.id)
      else c < |s.cancellers| && k.id == s.cancellers[c].id && (k == s.cancellers[c] || IsCancelOf(e, c))
  {
  }

  predicate IsCancelOf(e: Step, c: nat) { e == CancelFirst(c) || e == CancelSecond(c) }

  lemma CancellersKnownStep(s: State, e: Step)
    requires CancellersKnown(s) && Enabled(s, e)
    ensures CancellersKnown(Apply(s, e))
  {
    hide Apply, Enabled;
    HandlesGrow(s, e);
    forall c | 0 <= c < |Apply(s, e).cancellers|
      ensures Known(Apply(s, e), Apply(s, e).cancellers[c].id)
    {
      CancelCallStep(s, e, c);
    }
  }

  lemma WellFormedStep(s: State, e: Step)
    requires WellFormed(s) && Enabled(s, e)
    ensures WellFormed(Apply(s, e)) && |Apply(s, e).handles| >= |s.handles|
  {
    hide Apply, Enabled, TimerKnown, RunnerKnown, CancellersKnown;
    HandlesGrow(s, e);
    TimerKnownStep(s, e);
    RunnerKnownStep(s, e);
    CancellersKnownStep(s, e);
  }

  /** Steps that change neither who is active nor a status. */
  ghost predicate Undisturbed(s: State, t: State) {
    && |s.handles| <= |t.handles| && |s.workers| == |t.workers|
    && (forall id, w :: Active(t, w, id) <==> Active(s, w, id))
    && (forall id :: 0 <= id < |s.handles| ==> t.handles[id].status == s.handles[id].status)
    && (forall id :: |s.handles| <= id < |t.handles| ==> t.handles[id].status == Scheduled)
  }

  lemma ExclusiveUndisturbed(s: State, t: State)
    requires WellFormed(s) && Exclusive(s) && Undisturbed(s, t)
    ensures Exclusive(t)
  {
    forall id | 0 <= id < |t.handles| && t.handles[id].status == Running
      ensures exists w :: Active(t, w, id)
    {
      var w :| Active(s, w, id);
      assert Active(t, w, id);
    }
    forall id, w | 0 <= id < |t.handles| && Active(t, w, id)
      ensures t.handles[id].status != Scheduled && t.handles[id].status != Completed
    {
      assert Active(s, w, id) && WorkerAt(s, w);
    }
  }

  lemma QuietStatus(s: State, e: Step)
    requires Enabled(s, e) && !Decisive(e)
    ensures |s.handles| <= |Apply(s, e).handles|
    ensures forall id :: 0 <= id < |s.handles| ==> Apply(s, e).handles[id].status == s.handles[id].status
    ensures forall id :: |s.handles| <= id < |Apply(s, e).handles| ==> Apply(s, e).handles[id].status == Scheduled
  {
    hide Apply, Enabled;
    HandlesGrow(s, e);
    forall id | 0 <= id < |s.handles|
      ensures Apply(s, e).handles[id].status == s.handles[id].status
    {
      QuietProgress(s, e, id);
    }
    if |Apply(s, e).handles| > |s.handles| {
      NewHandle(s, e);
    }
  }

  lemma QuietWorkers(s: State, e: Step)
    requires Enabled(s, e) && !Decisive(e)
    ensures |s.workers| == |Apply(s, e).workers|
    ensures forall id, w :: Active(Apply(s, e), w, id) <==> Active(s, w, id)
  {
    if !e.Take? && !e.EndBody? {
      hide Apply, Enabled;
      SameWorkers(s, e);
    }
  }

  lemma SameWorkers(s: State, e: Step)
    requires Enabled(s, e) && !e.Take? && !e.EndBody? && !e.TrySetRunning? && !e.Finish?
    ensures Apply(s, e).workers == s.workers
  {
  }

  lemma QuietSteps(s: State, e: Step)
    requires Enabled(s, e) && !Decisive(e)
    ensures Undisturbed(s, Apply(s, e))
  {
    hide Apply, Enabled, Active;
    QuietStatus(s, e);
    QuietWorkers(s, e);
  }

  /** A worker takes over from Scheduled, when nobody is active. */
  lemma ExclusiveStart(s: State, w: nat)
    requires WellFormed(s) && Exclusive(s) && Enabled(s, TrySetRunning(w))
    ensures Exclusive(Apply(s, TrySetRunning(w)))
  {
    var t, me := Apply(s, TrySetRunning(w)), s.workers[w].id;
    if s.handles[me].status == Scheduled {
      assert Active(t, w, me);
      forall id, v | Active(t, v, id)
        ensures v == w || (Active(s, v, id) && id != me)
      {
        assert v != w ==> Active(s, v, id);
      }
      forall id | 0 <= id < |t.handles| && t.handles[id].status == Running && id != me
        ensures exists v :: Active(t, v, id)
      {
        var v :| Active(s, v, id);
        assert Active(t, v, id);
      }
    } else {
      assert forall id, v :: Active(t, v, id) <==> Active(s, v, id);
      ExclusiveUndisturbed(s, t);
    }
  }

  /** The active worker of a handle leaves, and nobody is left. */
  lemma ExclusiveFinish(s: State, w: nat)
    requires WellFormed(s) && Exclusive(s) && Enabled(s, Finish(w))
    ensures Exclusive(Apply(s, Finish(w)))
  {
    var t, me := Apply(s, Finish(w)), s.workers[w].id;
    assert Active(s, w, me);
    forall id, v | Active(t, v, id)
      ensures Active(s, v, id) && id != me
    {
      assert v != w && Active(s, v, id);
    }
    forall id | 0 <= id < |t.handles| && t.handles[id].status == Running
      ensures exists v :: Active(t, v, id)
    {
      assert id != me;
      var v :| Active(s, v, id);
      assert Active(t, v, id);
    }
  }

  /** Cancelling changes who is active in no way. */
  lemma ExclusiveCancel(s: State, c: nat, e: Step)
    requires WellFormed(s) && Exclusive(s) && (e == CancelFirst(c) || e == CancelSecond(c)) && Enabled(s, e)
    ensures Exclusive(Apply(s, e))
  {
    var t := Apply(s, e);
    assert forall id, v :: Active(t, v, id) <==> Active(s, v, id);
    forall id | 0 <= id < |t.handles| && t.handles[id].status == Running
      ensures exists v :: Active(t, v, id)
    {
      var v :| Active(s, v, id);
      assert Active(t, v, id);
    }
  }

  lemma ExclusiveStep(s: State, e: Step)
    requires WellFormed(s) && Exclusive(s) && Enabled(s, e)
    ensures Exclusive(Apply(s, e))
  {
    hide Exclusive, WellFormed, Apply, Enabled, Undisturbed;
    match e
    case TrySetRunning(w) => ExclusiveStart(s, w);
    case Finish(w) => ExclusiveFinish(s, w);
    case CancelFirst(c) => ExclusiveCancel(s, c, e);
    case CancelSecond(c) => ExclusiveCancel(s, c, e);
    case _ =>
      QuietSteps(s, e);
      ExclusiveUndisturbed(s, Apply(s, e));
  }

  lemma NewHandle(s: State, e: Step)
    requires Enabled(s, e) && |Apply(s, e).handles| > |s.handles|
    ensures var h := Apply(s, e).handles[|s.handles|];
      |Apply(s, e).handles| == |s.handles| + 1 && h.status == Scheduled && h.starts == 0 && h.log == []
  {
    HandlesGrow(s, e);
  }

  /** How a step may change the status of a one-shot handle, and how often its body was entered. */
  predicate Advances(h: Handle, k: Handle) {
    && k.repeating == h.repeating && k.period == h.period && k.policy == h.policy && k.t0 == h.t0
    && (Terminal(h) ==> k.status == h.status)
    && (!h.repeating && h.status != Scheduled ==> k.status != Scheduled)
    && k.starts == h.starts + (if h.status == Scheduled && k.status == Running then 1 else 0)
  }

  lemma QuietHandles(s: State, e: Step)
    requires Enabled(s, e) && !Decisive(e) && !e.Schedule? && !e.LoadCancelled? && !e.Decide?
    ensures Apply(s, e).handles == s.handles && s.clock <= Apply(s, e).clock
  {
  }

  lemma QuietProgress(s: State, e: Step, id: nat)
    requires Enabled(s, e) && id < |s.handles| && !Decisive(e)
    ensures |s.handles| <= |Apply(s, e).handles|
    ensures var log := Apply(s, e).handles[id].log; Apply(s, e).handles[id] == s.handles[id].(log := log)
  {
    if !e.Schedule? && !e.LoadCancelled? && !e.Decide? {
      hide Apply, Enabled;
      QuietHandles(s, e);
    }
  }

  lemma DecisiveProgress(s: State, e: Step, id: nat)
    requires Enabled(s, e) && id < |s.handles| && Decisive(e)
    ensures |s.handles| == |Apply(s, e).handles| && Advances(s.handles[id], Apply(s, e).handles[id])
    ensures Apply(s, e).handles[id].log == s.handles[id].log
  {
    hide Apply, Enabled, Advances;
    match e
    case TrySetRunning(w) => StartProgress(s, w, id);
    case Finish(w) => FinishProgress(s, w, id);
    case CancelFirst(c) => CancelProgress(s, e, c, id);
    case CancelSecond(c) => CancelProgress(s, e, c, id);
  }

  lemma StartProgress(s: State, w: nat, id: nat)
    requires Enabled(s, TrySetRunning(w)) && id < |s.handles|
    ensures var t := Apply(s, TrySetRunning(w));
      |s.handles| == |t.handles| && Advances(s.handles[id], t.handles[id]) && t.handles[id].log == s.handles[id].log
  {
  }

  lemma FinishProgress(s: State, w: nat, id: nat)
    requires Enabled(s, Finish(w)) && id < |s.handles|
    ensures var t := Apply(s, Finish(w));
      |s.handles| == |t.handles| && Advances(s.handles[id], t.handles[id]) && t.handles[id].log == s.handles[id].log
  {
  }

  lemma CancelProgress(s: State, e: Step, c: nat, id: nat)
    requires Enabled(s, e) && IsCancelOf(e, c) && id < |s.handles|
    ensures var t := Apply(s, e);
      |s.handles| == |t.handles| && Advances(s.handles[id], t.handles[id]) && t.handles[id].log == s.handles[id].log
  {
  }

  lemma Progress(s: State, e: Step, id: nat)
    requires Enabled(s, e) && id < |s.handles|
    ensures |s.handles| <= |Apply(s, e).handles| && Advances(s.handles[id], Apply(s, e).handles[id])
  {
    hide Apply, Enabled;
    if Decisive(e) {
      DecisiveProgress(s, e, id);
    } else {
      QuietProgress(s, e, id);
    }
  }

  /** A call of Cancel goes on: what its compare-exchange leaves. */
  lemma CancelSettles(s: State, e: Step, c: nat)
    requires Enabled(s, e) && IsCancelOf(e, c) && Settled(s.handles[s.cancellers[c].id], s.cancellers[c])
    ensures var t := Apply(s, e);
      c < |t.cancellers| && Known(t, t.cancellers[c].id) && Settled(t.handles[t.cancellers[c].id], t.cancellers[c])
  {
  }

  lemma CancellerStep(s: State, e: Step, c: nat)
    requires WellFormed(s) && OneShots(s) && Enabled(s, e) && c < |Apply(s, e).cancellers|
    ensures var k := Apply(s, e).cancellers[c];
      Known(Apply(s, e), k.id) ==> Settled(Apply(s, e).handles[k.id], k)
  {
    hide Apply, Enabled;
    HandlesGrow(s, e);
    CancelCallStep(s, e, c);
    if c < |s.cancellers| {
      assert Known(s, s.cancellers[c].id);
      if IsCancelOf(e, c) {
        CancelSettles(s, e, c);
      } else {
        Progress(s, e, s.cancellers[c].id);
      }
    }
  }

  lemma OneShotsStep(s: State, e: Step)
    requires WellFormed(s) && OneShots(s) && Enabled(s, e)
    ensures OneShots(Apply(s, e))
  {
    hide Apply, Enabled, Settled, Terminal;
    var t := Apply(s, e);
    forall id | 0 <= id < |t.handles| && !t.handles[id].repeating
      ensures t.handles[id].starts <= if t.handles[id].status == Scheduled then 0 else 1
    {
      if id < |s.handles| {
        Progress(s, e, id);
      } else {
        NewHandle(s, e);
      }
    }
    forall c | 0 <= c < |t.cancellers| && Known(t, t.cancellers[c].id)
      ensures Settled(t.handles[t.cancellers[c].id], t.cancellers[c])
    {
      CancellerStep(s, e, c);
    }
  }

  // ---------------------------------------------------------------- the cadence

  lemma FireTimes(t0: int, period: int, k: nat)
    ensures FireTime(t0, period, 0) == t0
    ensures FireTime(t0, period, k + 1) == FireTime(t0, period, k) + period
  {
  }

  /** A handle that may have gone on, but whose log is the same. */
  predicate SameLog(h: Handle, k: Handle) {
    && k.log == h.log && k.t0 == h.t0 && k.period == h.period && k.policy == h.policy && k.repeating == h.repeating
    && (h.status == Cancelled ==> k.status == Cancelled)
  }

  /** Nothing moves between heap and timer, and no log grows. */
  lemma CadenceKept(s: State, t: State)
    requires Cadence(s) && |t.handles| == |s.handles| && t.heap == s.heap && s.clock <= t.clock
    requires forall id :: 0 <= id < |s.handles| ==> SameLog(s.handles[id], t.handles[id])
    requires forall item :: Pending(t, item) <==> Pending(s, item)
    requires (t.timer.Popped? || t.timer.Checked?) ==> t.timer.item !in t.heap && t.timer.item.time <= t.timer.now
    requires !LockFree(t) ==> t.timer.now <= t.clock
    ensures Cadence(t)
  {
    hide FireTime;
  }

  lemma HandlesStep(s: State, e: Step)
    requires Enabled(s, e) && !e.Schedule? && !e.LoadCancelled? && !e.Decide?
    ensures |Apply(s, e).handles| == |s.handles| && s.clock <= Apply(s, e).clock
    ensures forall id :: 0 <= id < |s.handles| ==> SameLog(s.handles[id], Apply(s, e).handles[id])
  {
    hide Apply, Enabled;
    HandlesGrow(s, e);
    if Decisive(e) {
      forall id | 0 <= id < |s.handles|
        ensures SameLog(s.handles[id], Apply(s, e).handles[id])
      {
        DecisiveProgress(s, e, id);
      }
      DecisiveClock(s, e);
    } else {
      QuietHandles(s, e);
    }
  }

  lemma DecisiveClock(s: State, e: Step)
    requires Enabled(s, e) && Decisive(e)
    ensures Apply(s, e).clock == s.clock
  {
  }

  lemma CadenceElsewhere(s: State, e: Step)
    requires Cadence(s) && Enabled(s, e)
    requires e.Pass? || e.RequestStop? || e.Take? || Decisive(e) || e.EndBody? || e.StartCancel?
    ensures Cadence(Apply(s, e))
  {
    hide Apply, Enabled, Cadence;
    TimerFrame(s, e);
    HandlesStep(s, e);
    CadenceTimer(s);
    CadenceKept(s, Apply(s, e));
  }

  lemma CadenceTimer(s: State)
    requires Cadence(s)
    ensures (s.timer.Popped? || s.timer.Checked?) ==> s.timer.item !in s.heap && s.timer.item.time <= s.timer.now
    ensures !LockFree(s) ==> s.timer.now <= s.clock
  {
  }

  /** The timer takes and gives back the mutex, or hands an invocation over. */
  lemma CadenceIdle(s: State, e: Step)
    requires Cadence(s) && Enabled(s, e) && (e.ExitTimer? || e.Wake? || e.AddTask? || e.EndDrain?)
    ensures Cadence(Apply(s, e))
  {
    hide Cadence;
    CadenceTimer(s);
    CadenceMoved(s, Apply(s, e));
  }

  lemma CadencePop(s: State, item: Item)
    requires Cadence(s) && Enabled(s, Pop(item))
    ensures Cadence(Apply(s, Pop(item)))
  {
    hide Cadence;
    var t := Apply(s, Pop(item));
    CadenceHeap(s, item);
    CadenceTimer(s);
    assert forall other :: other in t.heap <==> other in s.heap && other != item;
    assert forall other :: Pending(t, other) <==> Pending(s, other);
    CadenceMoved(s, t);
  }

  lemma CadenceHeap(s: State, item: Item)
    requires Cadence(s) && item in s.heap
    ensures s.heap[item] == 1
  {
  }

  lemma CadenceMoved(s: State, t: State)
    requires Cadence(s) && t.handles == s.handles && t.clock == s.clock
    requires forall item :: Pending(t, item) <==> Pending(s, item)
    requires forall item :: item in t.heap ==> item in s.heap && t.heap[item] <= s.heap[item]
    requires (t.timer.Popped? || t.timer.Checked?) ==> t.timer.item !in t.heap && t.timer.item.time <= t.timer.now
    requires !LockFree(t) ==> t.timer.now <= t.clock
    ensures Cadence(t)
  {
    hide FireTime;
  }

  /** A new handle comes with its only item. */
  lemma CadenceGrown(s: State, t: State, h: Handle, item: Item)
    requires Cadence(s) && t.handles == s.handles + [h] && h.log == [] && item.id == |s.handles|
    requires item.time == FireTime(h.t0, h.period, 0)
    requires forall other :: Pending(t, other) <==> Pending(s, other) || other == item
    requires forall other :: Pending(s, other) ==> Known(s, other.id)
    requires t.heap == s.heap + multiset{item} && t.clock == s.clock && LockFree(t)
    ensures Cadence(t)
  {
    hide FireTime, Pending, LogOk, MayBePending;
    FreshLog(h);
    assert forall id :: 0 <= id < |s.handles| ==> t.handles[id] == s.handles[id];
    PendingHeap(s);
    PendingHeap(t);
  }

  lemma FreshLog(h: Handle)
    requires h.log == []
    ensures LogOk(h) && MayBePending(h)
  {
  }

  lemma PendingHeap(s: State)
    ensures forall item :: item in s.heap ==> Pending(s, item)
  {
  }

  lemma CadenceSchedule(s: State, e: Step)
    requires TimerKnown(s) && Cadence(s) && e.Schedule? && Enabled(s, e)
    ensures Cadence(Apply(s, e))
  {
    hide FireTime, Cadence;
    var t, item := Apply(s, e), Item(e.t0, |s.handles|);
    FireTimes(e.t0, e.period, 0);
    assert forall other :: Pending(t, other) <==> Pending(s, other) || other == item;
    CadenceGrown(s, t, t.handles[|s.handles|], item);
  }

  /** The handle of the item in the timer's hands, and no other item of it. */
  lemma InHand(s: State)
    requires TimerKnown(s) && Cadence(s) && (s.timer.Popped? || s.timer.Checked?)
    ensures var item := s.timer.item;
      && Known(s, item.id) && item.time <= s.timer.now <= s.clock
      && (forall other :: other in s.heap ==> other.id != item.id)
  {
    hide FireTime;
    assert Pending(s, s.timer.item);
    assert forall other :: other in s.heap ==> Pending(s, other);
  }

  /** The progression goes on by one entry. */
  lemma LogMore(h: Handle, tick: Tick, k: Handle)
    requires LogOk(h) && MayBePending(h) && k == h.(log := h.log + [tick])
    requires tick.time == FireTime(h.t0, h.period, |h.log|) && tick.time <= tick.clock
    requires tick.outcome == Discarded ==> h.status == Cancelled
    requires tick.outcome == Skipped ==> h.repeating && h.policy == Skip
    ensures LogOk(k)
  {
    hide FireTime;
  }

  /** A popped item leaves for good: its handle was cancelled, or was that of a one-shot task. */
  lemma CadenceLeaves(s: State, outcome: Outcome, t: State)
    requires TimerKnown(s) && Cadence(s) && (s.timer.Popped? || s.timer.Checked?)
    requires var h := s.handles[s.timer.item.id];
      if outcome == Discarded then h.status == Cancelled else outcome == Dispatched && !h.repeating
    requires t.handles == Record(s, s.timer.item, outcome).handles && t.heap == s.heap && t.clock == s.clock
    requires !LockFree(t) && t.timer.now == s.timer.now && !t.timer.Popped? && !t.timer.Checked?
    ensures Cadence(t)
  {
    hide FireTime, LogOk, Pending, MayBePending;
    LeavesPending(s, t);
    var item := s.timer.item;
    LogMore(s.handles[item.id], Tick(item.time, outcome, s.clock), t.handles[item.id]);
    PendingHeap(t);
  }

  lemma LeavesPending(s: State, t: State)
    requires TimerKnown(s) && Cadence(s) && (s.timer.Popped? || s.timer.Checked?)
    requires t.heap == s.heap && !t.timer.Popped? && !t.timer.Checked?
    ensures var item := s.timer.item;
      && Known(s, item.id) && item.time <= s.timer.now <= s.clock && Pending(s, item)
      && MayBePending(s.handles[item.id])
      && item.time == FireTime(s.handles[item.id].t0, s.handles[item.id].period, |s.handles[item.id].log|)
      && forall other :: Pending(t, other) <==> Pending(s, other) && other.id != item.id
  {
    hide FireTime, LogOk, MayBePending;
    InHand(s);
    assert Pending(s, s.timer.item);
  }

  /** A popped item of a repeating task is put back one period later. */
  lemma CadenceReturns(s: State, outcome: Outcome, t: State)
    requires TimerKnown(s) && Cadence(s) && (s.timer.Popped? || s.timer.Checked?)
    requires var h := s.handles[s.timer.item.id];
      h.repeating && (outcome == Dispatched || (outcome == Skipped && h.policy == Skip))
    requires t.handles == Record(s, s.timer.item, outcome).handles && t.clock == s.clock
    requires t.heap == s.heap + multiset{Next(s, s.timer.item)}
    requires !LockFree(t) && t.timer.now == s.timer.now && !t.timer.Popped? && !t.timer.Checked?
    ensures Cadence(t)
  {
    hide FireTime, LogOk, Pending, MayBePending;
    ReturnsPending(s, t);
    var item, next := s.timer.item, Next(s, s.timer.item);
    var h := s.handles[item.id];
    LogMore(h, Tick(item.time, outcome, s.clock), t.handles[item.id]);
    MayMore(h, t.handles[item.id]);
    FireTimes(h.t0, h.period, |h.log|);
    PendingHeap(t);
  }

  /** The popped item gives way to the next one. */
  lemma ReturnsPending(s: State, t: State)
    requires TimerKnown(s) && Cadence(s) && (s.timer.Popped? || s.timer.Checked?)
    requires t.heap == s.heap + multiset{Next(s, s.timer.item)}
    requires !t.timer.Popped? && !t.timer.Checked?
    ensures var item, next := s.timer.item, Next(s, s.timer.item);
      && Known(s, item.id) && item.time <= s.timer.now <= s.clock && Pending(s, item)
      && MayBePending(s.handles[item.id])
      && item.time == FireTime(s.handles[item.id].t0, s.handles[item.id].period, |s.handles[item.id].log|)
      && (forall other :: Pending(t, other) <==> (Pending(s, other) && other.id != item.id) || other == next)
      && forall other :: other in t.heap ==> t.heap[other] == 1
  {
    hide FireTime, LogOk, MayBePending;
    InHand(s);
    assert Pending(s, s.timer.item);
  }

  lemma MayMore(h: Handle, k: Handle)
    requires MayBePending(h) && h.repeating && |k.log| == |h.log| + 1 && k.log[..|h.log|] == h.log && k.repeating
    requires k.log[|h.log|].outcome != Discarded
    ensures MayBePending(k)
  {
    forall j | 0 <= j < |k.log|
      ensures k.log[j].outcome != Discarded
    {
      assert j < |h.log| ==> k.log[j] == h.log[j];
    }
  }

  lemma CadenceStep(s: State, e: Step)
    requires TimerKnown(s) && Cadence(s) && Enabled(s, e)
    ensures Cadence(Apply(s, e))
  {
    hide Cadence, TimerKnown;
    if e.Schedule? {
      CadenceSchedule(s, e);
    } else if e.Pop? {
      CadencePop(s, e.item);
    } else if e.LoadCancelled? {
      CadenceLoad(s);
    } else if e.Decide? {
      CadenceDecide(s);
    } else if e.ExitTimer? || e.Wake? || e.AddTask? || e.EndDrain? {
      CadenceIdle(s, e);
    } else {
      CadenceElsewhere(s, e);
    }
  }

  lemma CadenceLoad(s: State)
    requires TimerKnown(s) && Cadence(s) && Enabled(s, LoadCancelled)
    ensures Cadence(Apply(s, LoadCancelled))
  {
    hide Cadence;
    var t := Apply(s, LoadCancelled);
    CadenceTimer(s);
    if s.handles[s.timer.item.id].status == Cancelled {
      CadenceLeaves(s, Discarded, t);
    } else {
      CadenceMoved(s, t);
    }
  }

  lemma CadenceDecide(s: State)
    requires TimerKnown(s) && Cadence(s) && Enabled(s, Decide)
    ensures Cadence(Apply(s, Decide))
  {
    hide Cadence;
    var t := Apply(s, Decide);
    var h := s.handles[s.timer.item.id];
    if !h.repeating {
      CadenceLeaves(s, Dispatched, t);
    } else if h.policy == Skip && h.status == Running {
      CadenceReturns(s, Skipped, t);
    } else {
      CadenceReturns(s, Dispatched, t);
    }
  }

  lemma Preserved(s: State, e: Step)
    requires Inv(s) && Enabled(s, e)
    ensures Inv(Apply(s, e))
  {
    hide Apply, Enabled, Exclusive, OneShots, Cadence, TimerKnown, RunnerKnown, CancellersKnown;
    WellFormedStep(s, e);
    ExclusiveStep(s, e);
    OneShotsStep(s, e);
    CadenceStep(s, e);
  }

  lemma Initially(s: State)
    requires Init(s)
    ensures Inv(s)
  {
  }

  // ---------------------------------------------------------------- whole runs

  ghost predicate Run(ss: seq<State>, es: seq<Step>) {
    && |ss| == |es| + 1 && Init(ss[0])
    && forall i :: 0 <= i < |es| ==> Enabled(ss[i], es[i]) && ss[i + 1] == Apply(ss[i], es[i])
  }

  lemma {:induction false} Reachable(ss: seq<State>, es: seq<Step>, i: nat)
    requires Run(ss, es) && i < |ss|
    ensures Inv(ss[i])
  {
    hide Inv, Apply, Enabled, Init;
    if i == 0 {
      Initially(ss[0]);
    } else {
      Reachable(ss, es, i - 1);
      Preserved(ss[i - 1], es[i - 1]);
    }
  }

  /**
   In every reachable state a body runs on one worker at most; a Running task is on exactly one
   worker, a Scheduled or Completed one on none.
   */
  lemma MutualExclusion(ss: seq<State>, es: seq<Step>, i: nat, id: nat)
    requires Run(ss, es) && i < |ss| && id < |ss[i].handles|
    ensures forall w, v :: OnBody(ss[i], w, id) && OnBody(ss[i], v, id) ==> w == v
    ensures var status := ss[i].handles[id].status;
      && (status == Running ==> exists w :: Active(ss[i], w, id) && forall v :: Active(ss[i], v, id) ==> v == w)
      && (status == Scheduled || status == Completed ==> forall w :: !Active(ss[i], w, id))
  {
    hide Run;
    Reachable(ss, es, i);
    var s := ss[i];
    assert forall w :: OnBody(s, w, id) ==> Active(s, w, id);
    if s.handles[id].status == Running {
      var w :| Active(s, w, id);
      assert forall v :: Active(s, v, id) ==> v == w;
    }
  }

  /** A terminal status is never left, and no body is entered from then on. */
  lemma {:induction false} TerminalIsFinal(ss: seq<State>, es: seq<Step>, i: nat, j: nat, id: nat)
    requires Run(ss, es) && i <= j < |ss| && id < |ss[i].handles| && Terminal(ss[i].handles[id])
    ensures id < |ss[j].handles| && ss[j].handles[id].status == ss[i].handles[id].status
    ensures ss[j].handles[id].starts == ss[i].handles[id].starts
    decreases j
  {
    hide Apply, Enabled, Init;
    if i < j {
      TerminalIsFinal(ss, es, i, j - 1, id);
      Progress(ss[j - 1], es[j - 1], id);
    }
  }

  /** Once a compare-exchange of Cancel succeeds, no body of the task is ever entered again. */
  lemma CancelledNeverStarts(ss: seq<State>, es: seq<Step>, i: nat, j: nat, c: nat, id: nat)
    requires Run(ss, es) && i < j < |ss| && (es[i] == CancelFirst(c) || es[i] == CancelSecond(c))
    requires c < |ss[i].cancellers| && ss[i].cancellers[c].id == id && ss[i + 1].cancellers[c] == Done(id, true)
    ensures id < |ss[j].handles| && ss[j].handles[id].status == Cancelled
    ensures ss[j].handles[id].starts == ss[i].handles[id].starts
    ensures forall k :: i <= k < j && es[k].TrySetRunning? && ss[k].workers[es[k].w].id == id ==>
      ss[k + 1].workers[es[k].w] == Idle
  {
    hide Init;
    assert Enabled(ss[i], es[i]) && ss[i + 1] == Apply(ss[i], es[i]);
    assert ss[i + 1].handles[id].status == Cancelled;
    TerminalIsFinal(ss, es, i + 1, j, id);
    forall k | i <= k < j && es[k].TrySetRunning? && ss[k].workers[es[k].w].id == id
      ensures ss[k + 1].workers[es[k].w] == Idle
    {
      assert k != i;
      TerminalIsFinal(ss, es, i + 1, k, id);
      assert Enabled(ss[k], es[k]) && ss[k + 1] == Apply(ss[k], es[k]);
    }
  }

  /** A one-shot task is entered once at most, and is over when a call of Cancel returns. */
  lemma OneShotCancel(ss: seq<State>, es: seq<Step>, i: nat, id: nat)
    requires Run(ss, es) && i < |ss| && id < |ss[i].handles| && !ss[i].handles[id].repeating
    ensures ss[i].handles[id].starts <= 1 && |ss[i].handles[id].log| <= 1
    ensures forall c :: 0 <= c < |ss[i].cancellers| && ss[i].cancellers[c].Done? && ss[i].cancellers[c].id == id ==>
      Terminal(ss[i].handles[id])
  {
    hide Run;
    Reachable(ss, es, i);
  }

  // ---------------------------------------------------------------- a Cancel that is lost

  lemma OnlyResetReschedules(s: State, e: Step, id: nat)
    requires Enabled(s, e) && id < |s.handles| && s.handles[id].status == Running
    requires id < |Apply(s, e).handles| && Apply(s, e).handles[id].status == Scheduled
    ensures e.Finish? && s.workers[e.w].id == id && s.handles[id].repeating
  {
    if !Decisive(e) {
      QuietProgress(s, e, id);
    }
  }

  ghost predicate ResetsAt(ss: seq<State>, es: seq<Step>, k: nat, id: nat)
    requires k < |es| < |ss|
  {
    && es[k].Finish? && es[k].w < |ss[k].workers| && ss[k].workers[es[k].w] == After(id)
    && id < |ss[k].handles| && ss[k].handles[id].status == Running && ss[k].handles[id].repeating
  }

  ghost predicate StatusAt(ss: seq<State>, m: nat, id: nat, status: Status) {
    m < |ss| && id < |ss[m].handles| && ss[m].handles[id].status == status
  }

  /** In all states after step k up to j. */
  ghost predicate ScheduledSince(ss: seq<State>, k: nat, j: nat, id: nat) {
    forall m: nat :: k < m <= j ==> StatusAt(ss, m, id, Scheduled)
  }

  /** Back from a state in which the task is Scheduled to the reset that made it so. */
  lemma {:induction false} LastReset(ss: seq<State>, es: seq<Step>, i: nat, j: nat, id: nat) returns (k: nat)
    requires Run(ss, es) && i <= j < |ss| && id < |ss[i].handles| && ss[i].handles[id].status != Scheduled
    requires StatusAt(ss, j, id, Scheduled)
    ensures i <= k < j && ResetsAt(ss, es, k, id) && ScheduledSince(ss, k, j, id)
    decreases j
  {
    hide Init, Apply, Enabled;
    HandleStays(ss, es, i, j - 1, id);
    var s, e := ss[j - 1], es[j - 1];
    assert Enabled(s, e) && ss[j] == Apply(s, e);
    if s.handles[id].status == Scheduled {
      k := LastReset(ss, es, i, j - 1, id);
    } else {
      k := j - 1;
      Progress(s, e, id);
      OnlyResetReschedules(s, e, id);
      FinishIsAfter(s, e);
    }
  }

  lemma FinishIsAfter(s: State, e: Step)
    requires Enabled(s, e) && e.Finish?
    ensures e.w < |s.workers| && s.workers[e.w] == After(s.workers[e.w].id)
  {
  }

  lemma {:induction false} HandleStays(ss: seq<State>, es: seq<Step>, i: nat, j: nat, id: nat)
    requires Run(ss, es) && i <= j < |ss| && id < |ss[i].handles|
    ensures id < |ss[j].handles|
    decreases j
  {
    hide Init, Apply, Enabled;
    if i < j {
      HandleStays(ss, es, i, j - 1, id);
      HandlesGrow(ss[j - 1], es[j - 1]);
    }
  }

  lemma FirstExchange(s: State, c: nat, id: nat)
    requires Enabled(s, CancelFirst(c)) && s.cancellers[c] == First(id)
    ensures var t := Apply(s, CancelFirst(c));
      t.cancellers[c] == Second(id) ==> id < |t.handles| && t.handles[id].status != Scheduled
  {
  }

  lemma SecondExchange(s: State, c: nat, id: nat)
    requires Enabled(s, CancelSecond(c)) && s.cancellers[c] == Second(id)
    ensures var t := Apply(s, CancelSecond(c));
      id < |t.handles| && (Terminal(t.handles[id]) <==> s.handles[id].status != Scheduled)
  {
  }

  /**
   A call of Cancel whose compare-exchanges are steps i and j leaves the task alive exactly when a
   ResetToScheduled step lies between them and the task has stayed Scheduled since.
   */
  lemma LostCancel(ss: seq<State>, es: seq<Step>, i: nat, j: nat, c: nat, id: nat)
    requires Run(ss, es) && i < j < |es| && es[i] == CancelFirst(c) && es[j] == CancelSecond(c)
    requires c < |ss[i].cancellers| && ss[i].cancellers[c] == First(id)
    requires c < |ss[j].cancellers| && ss[j].cancellers[c] == Second(id)
    requires c < |ss[i + 1].cancellers| && ss[i + 1].cancellers[c] == Second(id)
    ensures id < |ss[j + 1].handles|
    ensures !Terminal(ss[j + 1].handles[id]) <==>
      exists k :: i < k < j && ResetsAt(ss, es, k, id) && ScheduledSince(ss, k, j, id)
  {
    hide Init, Apply, Enabled;
    assert Enabled(ss[i], es[i]) && ss[i + 1] == Apply(ss[i], es[i]);
    assert Enabled(ss[j], es[j]) && ss[j + 1] == Apply(ss[j], es[j]);
    FirstExchange(ss[i], c, id);
    SecondExchange(ss[j], c, id);
    HandleStays(ss, es, i + 1, j, id);
    if !Terminal(ss[j + 1].handles[id]) {
      var k := LastReset(ss, es, i + 1, j, id);
    }
    forall k | i < k < j && ResetsAt(ss, es, k, id) && ScheduledSince(ss, k, j, id)
      ensures !Terminal(ss[j + 1].handles[id])
    {
      assert StatusAt(ss, j, id, Scheduled);
    }
  }

  // ---------------------------------------------------------------- why an invocation is dropped

  /**
   A worker that has taken an invocation drops it exactly when the task is over or another worker
   is still active for it, whatever the policy; otherwise it enters the body.
   */
  lemma DroppedIff(ss: seq<State>, es: seq<Step>, i: nat, w: nat, id: nat)
    requires Run(ss, es) && i < |es| && es[i] == TrySetRunning(w)
    requires w < |ss[i].workers| && ss[i].workers[w] == Got(id)
    ensures id < |ss[i].handles| <= |ss[i + 1].handles| && w < |ss[i + 1].workers|
    ensures ss[i + 1].workers[w] ==
      if Terminal(ss[i].handles[id]) || exists v :: Active(ss[i], v, id) then Idle else Body(id)
    ensures ss[i + 1].handles[id].drops == ss[i].handles[id].drops + if ss[i + 1].workers[w] == Idle then 1 else 0
  {
    hide Init, Active;
    assert Enabled(ss[i], es[i]) && ss[i + 1] == Apply(ss[i], es[i]);
    MutualExclusion(ss, es, i, id);
  }

  // ---------------------------------------------------------------- why an invocation is skipped

  /** A worker is active for the task, and it is not cancelled: what the timer takes for running. */
  ghost predicate Busy(s: State, id: nat) {
    id < |s.handles| && s.handles[id].status != Cancelled && exists w :: Active(s, w, id)
  }

  /**
   Of an item that was not cancelled the timer hands an invocation to the runner, unless the task
   repeats, its policy is Skip and a worker is active for it. That is recorded, a repeating task
   comes back one period later either way, and nothing else changes.
   */
  lemma SkippedIff(ss: seq<State>, es: seq<Step>, i: nat, item: Item, now: int)
    requires Run(ss, es) && i < |es| && es[i] == Decide && ss[i].timer == Checked(item, now)
    ensures item.id < |ss[i].handles|
    ensures var s, t, h := ss[i], ss[i + 1], ss[i].handles[item.id];
      var skipped := h.repeating && h.policy == Skip && Busy(s, item.id);
      var tick := Tick(item.time, if skipped then Skipped else Dispatched, s.clock);
      && t.timer == (if skipped then Draining(now) else Adding(item.id, now))
      && t.heap == s.heap + (if h.repeating then multiset{Item(item.time + h.period, item.id)} else multiset{})
      && t.handles == s.handles[item.id := h.(log := h.log + [tick])]
      && t == s.(timer := t.timer, heap := t.heap, handles := t.handles)
  {
    hide Init, Active;
    assert Enabled(ss[i], es[i]) && ss[i + 1] == Apply(ss[i], es[i]);
    MutualExclusion(ss, es, i, item.id);
  }

  // ---------------------------------------------------------------- who cancelled a task

  /** A call of Cancel for the task of which a compare-exchange has succeeded. */
  predicate Effective(s: State, c: nat, id: nat) { c < |s.cancellers| && s.cancellers[c] == Done(id, true) }

  ghost predicate CancelledBy(s: State) {
    && (forall id :: 0 <= id < |s.handles| && s.handles[id].status == Cancelled ==> exists c :: Effective(s, c, id))
    && (forall id: nat, c: nat :: Effective(s, c, id) ==> id < |s.handles| && s.handles[id].status == Cancelled)
    && (forall id: nat, c: nat, d: nat :: Effective(s, c, id) && Effective(s, d, id) ==> c == d)
  }

  lemma CancelEffect(s: State, e: Step, c: nat)
    requires Enabled(s, e) && IsCancelOf(e, c)
    ensures var id, t := s.cancellers[c].id, Apply(s, e);
      && !s.cancellers[c].Done? && t.cancellers == s.cancellers[c := t.cancellers[c]]
      && t.handles == s.handles[id := t.handles[id]]
      && (if t.cancellers[c] == Done(id, true) then
            s.handles[id].status != Cancelled && t.handles[id].status == Cancelled
          else t.cancellers[c] != Done(t.cancellers[c].id, true) && t.handles[id] == s.handles[id])
  {
  }

  lemma NoCancel(s: State, e: Step, id: nat)
    requires Enabled(s, e) && !e.CancelFirst? && !e.CancelSecond? && id < |Apply(s, e).handles|
    ensures Apply(s, e).handles[id].status == Cancelled <==> id < |s.handles| && s.handles[id].status == Cancelled
  {
    if e.TrySetRunning? || e.Finish? {
      WorkerCancelsNone(s, e, id);
    } else {
      hide Apply, Enabled;
      HandlesGrow(s, e);
      if id < |s.handles| {
        QuietProgress(s, e, id);
      } else {
        NewHandle(s, e);
      }
    }
  }

  lemma WorkerCancelsNone(s: State, e: Step, id: nat)
    requires Enabled(s, e) && (e.TrySetRunning? || e.Finish?)
    ensures |Apply(s, e).handles| == |s.handles|
    ensures id < |s.handles| ==> (Apply(s, e).handles[id].status == Cancelled <==> s.handles[id].status == Cancelled)
  {
  }

  lemma NoEffect(s: State, e: Step, c: nat, id: nat)
    requires Enabled(s, e) && !e.CancelFirst? && !e.CancelSecond?
    ensures Effective(Apply(s, e), c, id) <==> Effective(s, c, id)
  {
  }

  lemma CancelledElsewhere(s: State, e: Step)
    requires CancelledBy(s) && Enabled(s, e) && !e.CancelFirst? && !e.CancelSecond?
    ensures CancelledBy(Apply(s, e))
  {
    hide Apply, Enabled, Effective;
    var t := Apply(s, e);
    HandlesGrow(s, e);
    forall c: nat, id: nat
      ensures Effective(t, c, id) <==> Effective(s, c, id)
    {
      NoEffect(s, e, c, id);
    }
    forall id | 0 <= id < |t.handles|
      ensures t.handles[id].status == Cancelled <==> id < |s.handles| && s.handles[id].status == Cancelled
    {
      NoCancel(s, e, id);
    }
  }

  lemma CancelledStep(s: State, e: Step)
    requires CancelledBy(s) && Enabled(s, e)
    ensures CancelledBy(Apply(s, e))
  {
    hide Apply, Enabled;
    if e.CancelFirst? || e.CancelSecond? {
      var t := Apply(s, e);
      HandlesGrow(s, e);
      IsACancel(s, e);
      CancelEffect(s, e, e.c);
      var id := s.cancellers[e.c].id;
      forall other | 0 <= other < |t.handles| && t.handles[other].status == Cancelled
        ensures exists c :: Effective(t, c, other)
      {
        if other == id && t.handles[id] != s.handles[id] {
          assert Effective(t, e.c, id);
        } else {
          var c :| Effective(s, c, other);
          assert Effective(t, c, other);
        }
      }
      forall c: nat, other: nat | Effective(t, c, other)
        ensures Effective(s, c, other) || (c == e.c && other == id && s.handles[id].status != Cancelled)
        ensures t.handles[id].status == s.handles[id].status || t.handles[id].status == Cancelled
      {
      }
    } else {
      CancelledElsewhere(s, e);
    }
  }

  lemma IsACancel(s: State, e: Step)
    requires Enabled(s, e) && (e.CancelFirst? || e.CancelSecond?)
    ensures IsCancelOf(e, e.c) && e.c < |s.cancellers| && s.cancellers[e.c].id < |s.handles|
  {
  }

  /** A task is cancelled exactly when a compare-exchange of a call of Cancel has succeeded, and of one only. */
  lemma {:induction false} CancelledIff(ss: seq<State>, es: seq<Step>, i: nat)
    requires Run(ss, es) && i < |ss|
    ensures forall id :: 0 <= id < |ss[i].handles| ==>
      (ss[i].handles[id].status == Cancelled <==> exists c :: Effective(ss[i], c, id))
    ensures forall id: nat, c: nat, d: nat :: Effective(ss[i], c, id) && Effective(ss[i], d, id) ==> c == d
    ensures CancelledBy(ss[i])
  {
    hide Apply, Enabled, Effective;
    if i == 0 {
      NobodyCancelled(ss[0]);
    } else {
      CancelledIff(ss, es, i - 1);
      CancelledStep(ss[i - 1], es[i - 1]);
    }
  }

  lemma NobodyCancelled(s: State)
    requires Init(s)
    ensures CancelledBy(s)
  {
  }

  /** The timer discards a popped item exactly when its task is cancelled; it does not come back. */
  lemma DiscardedIff(ss: seq<State>, es: seq<Step>, i: nat, item: Item, now: int)
    requires Run(ss, es) && i < |es| && es[i] == LoadCancelled && ss[i].timer == Popped(item, now)
    ensures item.id < |ss[i].handles|
    ensures var s, t, h := ss[i], ss[i + 1], ss[i].handles[item.id];
      if exists c :: Effective(s, c, item.id) then
        var tick := Tick(item.time, Discarded, s.clock);
        t == s.(timer := Draining(now), handles := s.handles[item.id := h.(log := h.log + [tick])])
      else t == s.(timer := Checked(item, now))
  {
    hide Init, Effective, CancelledBy;
    assert Enabled(ss[i], es[i]) && ss[i + 1] == Apply(ss[i], es[i]);
    CancelledIff(ss, es, i);
  }

  /**
   When a worker is done with a body, the task is Scheduled again if it repeats and otherwise
   Completed, but a task that was cancelled meanwhile stays so.
   */
  lemma FinishedIff(ss: seq<State>, es: seq<Step>, i: nat, w: nat, id: nat)
    requires Run(ss, es) && i < |es| && es[i] == Finish(w) && w < |ss[i].workers| && ss[i].workers[w] == After(id)
    ensures id < |ss[i].handles|
    ensures var s, t, h := ss[i], ss[i + 1], ss[i].handles[id];
      var status := if exists c :: Effective(s, c, id) then Cancelled else if h.repeating then Scheduled else Completed;
      t == s.(workers := s.workers[w := Idle], handles := s.handles[id := h.(status := status)])
  {
    hide Init, Effective, CancelledBy;
    assert Enabled(ss[i], es[i]) && ss[i + 1] == Apply(ss[i], es[i]);
    CancelledIff(ss, es, i);
    MutualExclusion(ss, es, i, id);
    assert Active(ss[i], w, id);
  }

  // ---------------------------------------------------------------- the order of invocations

  /** The invocations that the timer decided to hand over in the first i steps, in order. */
  ghost function Handed(ss: seq<State>, es: seq<Step>, i: nat): seq<nat>
    requires i <= |es| < |ss|
  {
    if i == 0 then []
    else
      Handed(ss, es, i - 1) + if es[i - 1].Decide? && ss[i].timer.Adding? then [ss[i].timer.id] else []
  }

  /** Those that the workers took. */
  ghost function Taken(ss: seq<State>, es: seq<Step>, i: nat): seq<nat>
    requires i <= |es| < |ss|
  {
    if i == 0 then []
    else
      var e, s := es[i - 1], ss[i];
      Taken(ss, es, i - 1) + if e.Take? && e.w < |s.workers| && s.workers[e.w].Got? then [s.workers[e.w].id] else []
  }

  ghost function InHands(s: State): seq<nat> { s.queue + if s.timer.Adding? then [s.timer.id] else [] }

  /** The workers take the invocations in the order in which the timer handed them over. */
  lemma {:induction false} TakenInOrder(ss: seq<State>, es: seq<Step>, i: nat)
    requires Run(ss, es) && i < |ss|
    ensures Handed(ss, es, i) == Taken(ss, es, i) + InHands(ss[i])
  {
    hide Apply, Enabled, InHands;
    if i == 0 {
      assert InHands(ss[0]) == [] by { NothingInHands(ss[0]); }
    } else {
      TakenInOrder(ss, es, i - 1);
      var s, e, t := ss[i - 1], es[i - 1], ss[i];
      HandsStep(s, e);
      if e.Take? {
        Regrouped(Taken(ss, es, i - 1), [t.workers[e.w].id], InHands(t));
        assert Handed(ss, es, i) == Handed(ss, es, i - 1) + [];
      } else {
        var more := if e.Decide? && t.timer.Adding? then [t.timer.id] else [];
        Regrouped(Taken(ss, es, i - 1), InHands(s), more);
        assert Taken(ss, es, i) == Taken(ss, es, i - 1) + [];
      }
    }
  }

  lemma Regrouped(a: seq<nat>, b: seq<nat>, c: seq<nat>)
    ensures (a + b) + c == a + (b + c) && a + [] == a
  {
  }

  lemma NothingInHands(s: State)
    requires Init(s)
    ensures InHands(s) == []
  {
  }

  lemma HandsStep(s: State, e: Step)
    requires Enabled(s, e)
    ensures var t := Apply(s, e);
      if e.Take? then
        e.w < |t.workers| && t.workers[e.w].Got? && InHands(s) == [t.workers[e.w].id] + InHands(t)
      else InHands(t) == InHands(s) + if e.Decide? && t.timer.Adding? then [t.timer.id] else []
  {
    hide Apply;
    QueueStep(s, e);
    if e.Take? {
      TakesFirst(s, e.w);
    } else if ByTimer(e) {
      AddingStep(s, e);
    } else if !e.Schedule? {
      TimerFrame(s, e);
    } else {
      ElsewhereTimer(s, e);
    }
  }

  lemma TakesFirst(s: State, w: nat)
    requires Enabled(s, Take(w))
    ensures var t := Apply(s, Take(w));
      && w < |t.workers| && s.queue != [] && t.workers[w] == Got(s.queue[0]) && t.timer == s.timer
      && s.queue == [s.queue[0]] + s.queue[1..]
  {
  }

  lemma AddingStep(s: State, e: Step)
    requires Enabled(s, e) && ByTimer(e)
    ensures s.timer.Adding? <==> e.AddTask?
    ensures Apply(s, e).timer.Adding? ==> e.Decide?
  {
  }

  // ---------------------------------------------------------------- nothing due is left behind

  /** The step at which the timer woke up for the drain it is in. */
  ghost predicate WokeAt(ss: seq<State>, es: seq<Step>, k: nat, i: nat) {
    && k < i <= |es| < |ss| && es[k] == Wake
    && forall m :: k < m < i ==> !es[m].Wake?
  }

  lemma NowStays(s: State, e: Step)
    requires Enabled(s, e) && !LockFree(Apply(s, e))
    ensures if e.Wake? then Apply(s, e).timer.now == s.clock
      else !LockFree(s) && Apply(s, e).timer.now == s.timer.now
  {
  }

  lemma {:induction false} Woken(ss: seq<State>, es: seq<Step>, i: nat) returns (k: nat)
    requires Run(ss, es) && i < |ss| && !LockFree(ss[i])
    ensures WokeAt(ss, es, k, i) && ss[i].timer.now == ss[k].clock
  {
    hide Apply, Enabled;
    assert i > 0 by {
      assert Init(ss[0]);
    }
    NowStays(ss[i - 1], es[i - 1]);
    if es[i - 1].Wake? {
      k := i - 1;
    } else {
      k := Woken(ss, es, i - 1);
    }
  }

  /** A drain ends exactly with nothing in the heap that was due when the timer woke up. */
  lemma NoneLeft(ss: seq<State>, es: seq<Step>, i: nat) returns (k: nat)
    requires Run(ss, es) && i < |es| && es[i] == EndDrain
    ensures WokeAt(ss, es, k, i) && forall item :: item in ss[i].heap ==> ss[k].clock < item.time
  {
    hide Apply;
    assert Enabled(ss[i], es[i]);
    k := Woken(ss, es, i);
  }

  // ---------------------------------------------------------------- no drift

  /**
   When the mutex is free: a repeating task that was not cancelled has exactly one item in the
   heap, at t0 + k * period after k pops; any task has one at most. The pops were at t0, t0 + period,
   and so on, each dispatched or skipped, none before its time.
   */
  lemma NoDrift(ss: seq<State>, es: seq<Step>, i: nat, id: nat)
    requires Run(ss, es) && i < |ss| && LockFree(ss[i]) && id < |ss[i].handles|
    ensures var h := ss[i].handles[id];
      && (h.repeating && h.status != Cancelled ==> ss[i].heap[Item(h.t0 + |h.log| * h.period, id)] == 1)
      && (forall item :: item in ss[i].heap && item.id == id ==>
           item.time == h.t0 + |h.log| * h.period && ss[i].heap[item] == 1)
      && (forall k :: 0 <= k < |h.log| ==>
           h.log[k].time == h.t0 + k * h.period && h.log[k].time <= h.log[k].clock)
      && (h.status != Cancelled ==> forall k :: 0 <= k < |h.log| ==>
           h.log[k].outcome == Dispatched || (h.log[k].outcome == Skipped && h.repeating && h.policy == Skip))
  {
    hide Run;
    Reachable(ss, es, i);
    PendingHeap(ss[i]);
    var h := ss[i].handles[id];
    assert LogOk(h);
    if h.repeating && h.status != Cancelled {
      assert Pending(ss[i], Item(FireTime(h.t0, h.period, |h.log|), id));
    }
  }

  // ---------------------------------------------------------------- nothing lost, nothing doubled

  ghost function Dispatches(log: seq<Tick>): nat {
    if log == [] then 0
    else Dispatches(log[..|log| - 1]) + if log[|log| - 1].outcome == Dispatched then 1 else 0
  }

  /** Invocations on their way: in the timer's hands, in the runner's queue, or with a worker. */
  ghost function Outstanding(s: State, id: nat): nat {
    (if s.timer.Adding? && s.timer.id == id then 1 else 0) + multiset(s.queue)[id] + multiset(s.workers)[Got(id)]
  }

  ghost predicate Conserved(s: State) {
    forall id :: 0 <= id < |s.handles| ==>
      var h := s.handles[id]; Dispatches(h.log) == h.starts + h.drops + Outstanding(s, id)
  }

  lemma DispatchesMore(log: seq<Tick>, tick: Tick)
    ensures Dispatches(log + [tick]) == Dispatches(log) + if tick.outcome == Dispatched then 1 else 0
  {
    assert (log + [tick])[..|log|] == log;
  }

  lemma ReplaceWorker(workers: seq<Worker>, w: nat, worker: Worker, id: nat)
    requires w < |workers|
    ensures multiset(workers[w := worker])[Got(id)] + (if workers[w] == Got(id) then 1 else 0)
         == multiset(workers)[Got(id)] + if worker == Got(id) then 1 else 0
  {
    assert multiset(workers[w := worker]) == multiset(workers) - multiset{workers[w]} + multiset{worker};
  }

  /** A new handle has nothing on its way yet. */
  lemma NothingYet(s: State, id: nat)
    requires WellFormed(s) && id >= |s.handles|
    ensures Outstanding(s, id) == 0
  {
    assert id !in s.queue;
    forall w | 0 <= w < |s.workers|
      ensures s.workers[w] != Got(id)
    {
      assert WorkerAt(s, w);
    }
    assert Got(id) !in s.workers;
  }

  /** An invocation goes from the queue to a worker. */
  lemma ConservedTake(s: State, w: nat, id: nat)
    requires Enabled(s, Take(w)) && id < |s.handles|
    ensures Apply(s, Take(w)).handles == s.handles && Outstanding(Apply(s, Take(w)), id) == Outstanding(s, id)
  {
    ReplaceWorker(s.workers, w, Got(s.queue[0]), id);
    assert s.queue == [s.queue[0]] + s.queue[1..];
  }

  /** From there it goes into a body, or nowhere. */
  lemma ConservedTry(s: State, w: nat, id: nat)
    requires Enabled(s, TrySetRunning(w)) && id < |s.handles|
    ensures var t := Apply(s, TrySetRunning(w)); var h, k := s.handles[id], t.handles[id];
      k.log == h.log && k.starts + k.drops + Outstanding(t, id) == h.starts + h.drops + Outstanding(s, id)
  {
    hide Apply, Enabled;
    var t := Apply(s, TrySetRunning(w));
    TryFrame(s, w, id);
    ReplaceWorker(s.workers, w, t.workers[w], id);
  }

  lemma TryFrame(s: State, w: nat, id: nat)
    requires Enabled(s, TrySetRunning(w)) && id < |s.handles|
    ensures var t := Apply(s, TrySetRunning(w));
      && w < |s.workers| == |t.workers| && t.workers == s.workers[w := t.workers[w]]
      && s.workers[w].Got? && !t.workers[w].Got? && t.queue == s.queue && t.timer == s.timer
    ensures var h, k := s.handles[id], Apply(s, TrySetRunning(w)).handles[id];
      && k.log == h.log
      && k.starts + k.drops == h.starts + h.drops + if s.workers[w].id == id then 1 else 0
  {
  }

  lemma ConservedWorker(s: State, e: Step, id: nat)
    requires Enabled(s, e) && id < |s.handles| && (e.EndBody? || e.Finish?)
    ensures var h, k := s.handles[id], Apply(s, e).handles[id];
      k.log == h.log && k.starts == h.starts && k.drops == h.drops && Outstanding(Apply(s, e), id) == Outstanding(s, id)
  {
    var t := Apply(s, e);
    ReplaceWorker(s.workers, e.w, t.workers[e.w], id);
    assert t.workers == s.workers[e.w := t.workers[e.w]] && t.queue == s.queue && t.timer == s.timer;
  }

  /** An entry of a log, with or without a dispatch. */
  lemma RecordedDispatches(s: State, item: Item, outcome: Outcome, id: nat)
    requires Known(s, item.id) && id < |s.handles|
    ensures var h, k := s.handles[id], Record(s, item, outcome).handles[id];
      && k.starts == h.starts && k.drops == h.drops
      && Dispatches(k.log) == Dispatches(h.log) + if item.id == id && outcome == Dispatched then 1 else 0
  {
    hide Dispatches;
    DispatchesMore(s.handles[id].log, Tick(item.time, outcome, s.clock));
  }

  lemma ConservedLoad(s: State, id: nat)
    requires Enabled(s, LoadCancelled) && id < |s.handles|
    ensures var t := Apply(s, LoadCancelled); var h, k := s.handles[id], t.handles[id];
      && k.starts == h.starts && k.drops == h.drops && Outstanding(t, id) == Outstanding(s, id)
      && Dispatches(k.log) == Dispatches(h.log)
  {
    hide Dispatches;
    RecordedDispatches(s, s.timer.item, Discarded, id);
  }

  lemma ConservedDecide(s: State, id: nat)
    requires Enabled(s, Decide) && id < |s.handles|
    ensures var t := Apply(s, Decide); var h, k := s.handles[id], t.handles[id];
      && k.starts == h.starts && k.drops == h.drops
      && Dispatches(k.log) + Outstanding(s, id) == Dispatches(h.log) + Outstanding(t, id)
  {
    hide Dispatches;
    RecordedDispatches(s, s.timer.item, Skipped, id);
    RecordedDispatches(s, s.timer.item, Dispatched, id);
  }

  lemma ConservedTimer(s: State, e: Step, id: nat)
    requires Enabled(s, e) && id < |s.handles| && ByTimer(e)
    ensures var h, k := s.handles[id], Apply(s, e).handles[id];
      && k.starts == h.starts && k.drops == h.drops
      && Dispatches(k.log) + Outstanding(s, id) == Dispatches(h.log) + Outstanding(Apply(s, e), id)
  {
    hide Dispatches;
    if e.LoadCancelled? {
      ConservedLoad(s, id);
    } else if e.Decide? {
      ConservedDecide(s, id);
    } else if e.AddTask? {
      assert multiset(s.queue + [s.timer.id]) == multiset(s.queue) + multiset{s.timer.id};
    }
  }

  predicate Elsewhere(e: Step) {
    e.Pass? || e.Schedule? || e.RequestStop? || e.StartCancel? || e.CancelFirst? || e.CancelSecond?
  }

  lemma ElsewhereTimer(s: State, e: Step)
    requires Enabled(s, e) && Elsewhere(e)
    ensures Apply(s, e).timer == s.timer
  {
  }

  lemma ConservedElsewhere(s: State, e: Step, id: nat)
    requires Enabled(s, e) && id < |s.handles| && Elsewhere(e)
    ensures var h, k := s.handles[id], Apply(s, e).handles[id];
      k.log == h.log && k.starts == h.starts && k.drops == h.drops
    ensures Outstanding(Apply(s, e), id) == Outstanding(s, id)
  {
    ElsewhereTimer(s, e);
    SameWorkers(s, e);
    QueueStep(s, e);
  }

  lemma ConservedStep(s: State, e: Step)
    requires WellFormed(s) && Conserved(s) && Enabled(s, e)
    ensures Conserved(Apply(s, e))
  {
    hide Apply, Enabled, Outstanding, Dispatches;
    HandlesGrow(s, e);
    WellFormedStep(s, e);
    forall id | 0 <= id < |Apply(s, e).handles|
      ensures var h := Apply(s, e).handles[id];
        Dispatches(h.log) == h.starts + h.drops + Outstanding(Apply(s, e), id)
    {
      if id == |s.handles| {
        NewHandle(s, e);
        NothingNew(s, e);
      } else if ByTimer(e) {
        ConservedTimer(s, e, id);
      } else if e.Take? {
        ConservedTake(s, e.w, id);
      } else if e.TrySetRunning? {
        ConservedTry(s, e.w, id);
      } else if e.EndBody? || e.Finish? {
        ConservedWorker(s, e, id);
      } else {
        ConservedElsewhere(s, e, id);
      }
    }
  }

  lemma NothingNew(s: State, e: Step)
    requires WellFormed(s) && Enabled(s, e) && e.Schedule?
    ensures Outstanding(Apply(s, e), |s.handles|) == 0 && Apply(s, e).handles[|s.handles|].drops == 0
    ensures Dispatches([]) == 0
  {
    NothingYet(s, |s.handles|);
  }

  /**
   In every reachable state the dispatched invocations of a task are those whose body was entered,
   those dropped because the task was running or cancelled, and those still on their way.
   */
  lemma {:induction false} NothingLost(ss: seq<State>, es: seq<Step>, i: nat)
    requires Run(ss, es) && i < |ss|
    ensures Conserved(ss[i])
  {
    hide Inv, Apply, Enabled, Init, Conserved;
    if i == 0 {
      NothingAtFirst(ss[0]);
    } else {
      NothingLost(ss, es, i - 1);
      Reachable(ss, es, i - 1);
      assert WellFormed(ss[i - 1]) by { InvParts(ss[i - 1]); }
      ConservedStep(ss[i - 1], es[i - 1]);
    }
  }

  lemma InvParts(s: State)
    requires Inv(s)
    ensures WellFormed(s)
  {
  }

  lemma NothingAtFirst(s: State)
    requires Init(s)
    ensures Conserved(s)
  {
  }

  // ---------------------------------------------------------------- a run in which Cancel is lost

  /** One worker; the handle has the given status and log, the timer waits. */
  function Example(h: Handle, worker: Worker, cancellers: seq<Canceller>): State {
    State([h], multiset{Item(1, 0)}, 0, false, Draining(0), [], [worker], cancellers)
  }

  /** The steps of a task that is scheduled for time 0, until its body runs. */
  function Opening(): seq<Step> {
    [Schedule(true, 0, 1, Skip), Wake, Pop(Item(0, 0)), LoadCancelled, Decide, AddTask, Take(0), TrySetRunning(0)]
  }

  /** Cancel's first exchange meets a running task, the second one a task that was reset in between. */
  function Losing(): seq<Step> {
    [StartCancel(0), CancelFirst(0), EndBody(0), Finish(0), CancelSecond(0)]
  }

  const FRESH := Handle(Scheduled, true, 1, Skip, 0, [], 0, 0)
  const TICKED := Handle(Scheduled, true, 1, Skip, 0, [Tick(0, Dispatched, 0)], 0, 0)
  const STARTED := Handle(Running, true, 1, Skip, 0, [Tick(0, Dispatched, 0)], 1, 0)
  const AGAIN := Handle(Scheduled, true, 1, Skip, 0, [Tick(0, Dispatched, 0)], 1, 0)

  function Opened(): seq<State> {
    var none: multiset<Item> := multiset{};
    [State([], none, 0, false, Waiting, [], [Idle], []),
     State([FRESH], multiset{Item(0, 0)}, 0, false, Waiting, [], [Idle], []),
     State([FRESH], multiset{Item(0, 0)}, 0, false, Draining(0), [], [Idle], []),
     State([FRESH], none, 0, false, Popped(Item(0, 0), 0), [], [Idle], []),
     State([FRESH], none, 0, false, Checked(Item(0, 0), 0), [], [Idle], []),
     State([TICKED], multiset{Item(1, 0)}, 0, false, Adding(0, 0), [], [Idle], []),
     State([TICKED], multiset{Item(1, 0)}, 0, false, Draining(0), [0], [Idle], []),
     Example(TICKED, Got(0), []),
     Example(STARTED, Body(0), [])]
  }

  function Lost(): seq<State> {
    [Example(STARTED, Body(0), []),
     Example(STARTED, Body(0), [First(0)]),
     Example(STARTED, Body(0), [Second(0)]),
     Example(STARTED, After(0), [Second(0)]),
     Example(AGAIN, Idle, [Second(0)]),
     Example(AGAIN, Idle, [Done(0, false)])]
  }

  ghost predicate Links(ss: seq<State>, es: seq<Step>, i: nat) {
    i < |es| && |ss| == |es| + 1 && Enabled(ss[i], es[i]) && ss[i + 1] == Apply(ss[i], es[i])
  }

  ghost predicate Linked(ss: seq<State>, es: seq<Step>) {
    |ss| == |es| + 1 && forall i :: 0 <= i < |es| ==> Links(ss, es, i)
  }

  lemma FirstSteps()
    ensures Links(Opened(), Opening(), 0) && Links(Opened(), Opening(), 1) && Links(Opened(), Opening(), 2)
  {
  }

  lemma MiddleSteps()
    ensures Links(Opened(), Opening(), 3) && Links(Opened(), Opening(), 4) && Links(Opened(), Opening(), 5)
  {
    var s := Opened()[4];
    assert Record(s, Item(0, 0), Dispatched).handles == [TICKED] by {
      assert [] + [Tick(0, Dispatched, 0)] == [Tick(0, Dispatched, 0)];
    }
    assert s.heap + multiset{Next(s, Item(0, 0))} == multiset{Item(1, 0)};
    assert Enabled(s, Decide) && Apply(s, Decide) == Decided(s);
  }

  lemma LastSteps()
    ensures Links(Opened(), Opening(), 6) && Links(Opened(), Opening(), 7)
  {
  }

  lemma OpeningRuns()
    ensures Linked(Opened(), Opening()) && Init(Opened()[0])
  {
    hide Links, Opening, Opened;
    assert |Opening()| == 8 && |Opened()| == 9 && Init(Opened()[0]) by { OpeningSizes(); }
    FirstSteps();
    MiddleSteps();
    LastSteps();
  }

  lemma OpeningSizes()
    ensures |Opening()| == 8 && |Opened()| == 9 && Init(Opened()[0])
  {
  }

  lemma LosingSteps()
    ensures Links(Lost(), Losing(), 0) && Links(Lost(), Losing(), 1) && Links(Lost(), Losing(), 2)
  {
  }

  lemma LostSteps()
    ensures Links(Lost(), Losing(), 3) && Links(Lost(), Losing(), 4)
  {
  }

  lemma LosingRuns()
    ensures Linked(Lost(), Losing())
  {
    hide Links;
    LosingSteps();
    LostSteps();
  }

  /** The documented effect of Cancel can fail: a run after which the task is still scheduled. */
  lemma CancelCanBeLost() returns (ss: seq<State>, es: seq<Step>)
    ensures Run(ss, es)
    ensures var s := ss[|es|];
      s.cancellers == [Done(0, false)] && |s.handles| == 1 && s.handles[0].status == Scheduled
  {
    hide Enabled, Apply, Init;
    OpeningRuns();
    LosingRuns();
    ss, es := Opened() + Lost()[1..], Opening() + Losing();
    assert Opened()[8] == Lost()[0];
    forall i | 0 <= i < |es|
      ensures Enabled(ss[i], es[i]) && ss[i + 1] == Apply(ss[i], es[i])
    {
      if i < 8 {
        assert Links(Opened(), Opening(), i);
        assert ss[i] == Opened()[i] && ss[i + 1] == Opened()[i + 1] && es[i] == Opening()[i];
      } else {
        assert Links(Lost(), Losing(), i - 8);
        assert ss[i] == Lost()[i - 8] && ss[i + 1] == Lost()[i - 7] && es[i] == Losing()[i - 8];
      }
    }
  }

  // ---------------------------------------------------------------- a run in which Queue drops an invocation

  const QUEUE_FRESH := Handle(Scheduled, true, 1, Queue, 0, [], 0, 0)
  const QUEUE_ONCE := QUEUE_FRESH.(log := [Tick(0, Dispatched, 1)])
  const QUEUE_TWICE := QUEUE_FRESH.(log := [Tick(0, Dispatched, 1), Tick(1, Dispatched, 1)])
  const QUEUE_RUNNING := QUEUE_TWICE.(status := Running, starts := 1)
  const QUEUE_DROPPED := QUEUE_RUNNING.(drops := 1)

  /** Time 1, with both of its invocations due; two workers. */
  function Due(h: Handle, heap: multiset<Item>, timer: Timer, queue: seq<nat>, workers: seq<Worker>): State {
    State([h], heap, 1, false, timer, queue, workers, [])
  }

  function Overlapping(): seq<Step> {
    [Pass(1), Schedule(true, 0, 1, Queue), Wake,
     Pop(Item(0, 0)), LoadCancelled, Decide, AddTask,
     Pop(Item(1, 0)), LoadCancelled, Decide, AddTask,
     Take(0), TrySetRunning(0), Take(1), TrySetRunning(1)]
  }

  function Overlap(): seq<State> {
    var none: multiset<Item> := multiset{};
    var two, more := [Idle, Idle], multiset{Item(2, 0)};
    [State([], none, 0, false, Waiting, [], two, []),
     State([], none, 1, false, Waiting, [], two, []),
     Due(QUEUE_FRESH, multiset{Item(0, 0)}, Waiting, [], two),
     Due(QUEUE_FRESH, multiset{Item(0, 0)}, Draining(1), [], two),
     Due(QUEUE_FRESH, none, Popped(Item(0, 0), 1), [], two),
     Due(QUEUE_FRESH, none, Checked(Item(0, 0), 1), [], two),
     Due(QUEUE_ONCE, multiset{Item(1, 0)}, Adding(0, 1), [], two),
     Due(QUEUE_ONCE, multiset{Item(1, 0)}, Draining(1), [0], two),
     Due(QUEUE_ONCE, none, Popped(Item(1, 0), 1), [0], two),
     Due(QUEUE_ONCE, none, Checked(Item(1, 0), 1), [0], two),
     Due(QUEUE_TWICE, more, Adding(0, 1), [0], two),
     Due(QUEUE_TWICE, more, Draining(1), [0, 0], two),
     Due(QUEUE_TWICE, more, Draining(1), [0], [Got(0), Idle]),
     Due(QUEUE_RUNNING, more, Draining(1), [0], [Body(0), Idle]),
     Due(QUEUE_RUNNING, more, Draining(1), [], [Body(0), Got(0)]),
     Due(QUEUE_DROPPED, more, Draining(1), [], [Body(0), Idle])]
  }

  lemma OverlapStarts()
    ensures Links(Overlap(), Overlapping(), 0) && Links(Overlap(), Overlapping(), 2)
  {
  }

  lemma OverlapSchedules()
    ensures Links(Overlap(), Overlapping(), 1)
  {
  }

  lemma OverlapPops()
    ensures Links(Overlap(), Overlapping(), 3)
  {
    assert Overlap()[3].heap - multiset{Item(0, 0)} == multiset{};
  }

  lemma OverlapPopsAgain()
    ensures Links(Overlap(), Overlapping(), 7)
  {
    assert Overlap()[7].heap - multiset{Item(1, 0)} == multiset{};
  }

  lemma OverlapLoads()
    ensures Links(Overlap(), Overlapping(), 4) && Links(Overlap(), Overlapping(), 8)
  {
  }

  lemma OverlapDecides()
    ensures Links(Overlap(), Overlapping(), 5) && Links(Overlap(), Overlapping(), 9)
  {
    var s, t := Overlap()[5], Overlap()[9];
    assert [] + [Tick(0, Dispatched, 1)] == [Tick(0, Dispatched, 1)];
    assert QUEUE_ONCE.log + [Tick(1, Dispatched, 1)] == QUEUE_TWICE.log;
    assert s.heap + multiset{Next(s, Item(0, 0))} == multiset{Item(1, 0)};
    assert t.heap + multiset{Next(t, Item(1, 0))} == multiset{Item(2, 0)};
    assert Apply(s, Decide) == Decided(s) && Apply(t, Decide) == Decided(t);
  }

  lemma OverlapAdds()
    ensures Links(Overlap(), Overlapping(), 6) && Links(Overlap(), Overlapping(), 10)
  {
  }

  lemma OverlapTakes()
    ensures Links(Overlap(), Overlapping(), 11) && Links(Overlap(), Overlapping(), 13)
  {
  }

  lemma OverlapTries()
    ensures Links(Overlap(), Overlapping(), 12) && Links(Overlap(), Overlapping(), 14)
  {
  }

  lemma OverlapSizes()
    ensures |Overlapping()| == 15 && |Overlap()| == 16 && Init(Overlap()[0])
    ensures Overlap()[15].handles == [QUEUE_DROPPED]
  {
  }

  /** Under the Queue policy, too, an invocation can be lost: a run that dispatches two and enters the body once. */
  lemma QueueDrops() returns (ss: seq<State>, es: seq<Step>)
    ensures Run(ss, es) && |ss[|es|].handles| == 1
    ensures var h := ss[|es|].handles[0];
      && h.policy == Queue && h.status == Running && h.starts == 1 && h.drops == 1
      && h.log == [Tick(0, Dispatched, 1), Tick(1, Dispatched, 1)]
  {
    hide Links, Overlapping, Overlap, Init;
    OverlapSizes();
    OverlapStarts();
    OverlapSchedules();
    OverlapPops();
    OverlapPopsAgain();
    OverlapLoads();
    OverlapDecides();
    OverlapAdds();
    OverlapTakes();
    OverlapTries();
    ss, es := Overlap(), Overlapping();
    assert forall i :: 0 <= i < |es| ==> Links(ss, es, i);
    LinkedRuns(ss, es);
  }

  lemma LinkedRuns(ss: seq<State>, es: seq<Step>)
    requires Linked(ss, es) && Init(ss[0])
    ensures Run(ss, es)
  {
    hide Enabled, Apply, Init;
    forall i | 0 <= i < |es|
      ensures Enabled(ss[i], es[i]) && ss[i + 1] == Apply(ss[i], es[i])
    {
      assert Links(ss, es, i);
    }
  }
}
