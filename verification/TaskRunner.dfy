/**
 TaskRunner as a transition system: sections under the mutex, notifications and the running of a
 task are the steps. Any number of workers and submitters; a waiting worker may wake spuriously.
 */
module TaskRunner {

  type Task = nat

  /** Ready: outside the mutex, about to test the wait's condition. */
  datatype Worker = Ready | Waiting | Running(task: Task) | Exited

  /**
   `notifyOne` counts the AddTask calls between their push and their notify_one, `notifyAll` says
   that the destructor is between setting m_stop and its notify_all. The logs record the tasks in
   the order of their submission, of their start, and of their end.
   */
  datatype State = State(
    queue: seq<Task>, stop: bool, notifyOne: nat, notifyAll: bool, workers: seq<Worker>,
    submitted: seq<Task>, started: seq<Task>, done: seq<Task>)

  /** Who calls AddTask: another thread, or the task a worker is running. */
  datatype Caller = Outside | Inside(w: nat)

  datatype Step =
    | Submit(task: Task, caller: Caller) // push
    | NotifyOne(w: nat)              // wakes w if anybody waits
    | SetStop
    | NotifyAll
    | Spurious(w: nat)
    | Test(w: nat)                   // the wait's condition and what follows it under the mutex
    | Finish(w: nat)

  predicate IsWaiting(s: State, w: nat) { w < |s.workers| && s.workers[w].Waiting? }

  ghost predicate SomeWaiting(s: State) { exists w :: IsWaiting(s, w) }

  predicate Awake(s: State, w: nat) { w < |s.workers| && (s.workers[w].Ready? || s.workers[w].Running?) }

  predicate AllExited(s: State) { forall w :: 0 <= w < |s.workers| ==> s.workers[w].Exited? }

  /** Once the destructor has begun only running tasks may still submit. */
  ghost predicate Enabled(s: State, e: Step) {
    match e
    case Submit(_, caller) => if caller.Inside? then caller.w < |s.workers| && s.workers[caller.w].Running? else !s.stop
    case NotifyOne(w) => s.notifyOne > 0 && (SomeWaiting(s) ==> IsWaiting(s, w))
    case SetStop => !s.stop
    case NotifyAll => s.notifyAll
    case Spurious(w) => IsWaiting(s, w)
    case Test(w) => w < |s.workers| && s.workers[w].Ready?
    case Finish(w) => w < |s.workers| && s.workers[w].Running?
  }

  /** A waiting worker is woken. */
  function Woken(x: Worker): Worker { if x.Waiting? then Ready else x }

  function WakeAll(workers: seq<Worker>): (r: seq<Worker>)
    ensures |r| == |workers|
    ensures forall w :: 0 <= w < |workers| ==> r[w] == Woken(workers[w])
  {
    if workers == [] then [] else WakeAll(workers[..|workers| - 1]) + [Woken(workers[|workers| - 1])]
  }

  ghost function Apply(s: State, e: Step): State
    requires Enabled(s, e)
  {
    match e
    case Submit(task, _) =>
      s.(queue := s.queue + [task], notifyOne := s.notifyOne + 1, submitted := s.submitted + [task])
    case NotifyOne(w) =>
      s.(notifyOne := s.notifyOne - 1, workers := if IsWaiting(s, w) then s.workers[w := Ready] else s.workers)
    case SetStop => s.(stop := true, notifyAll := true)
    case NotifyAll => s.(notifyAll := false, workers := WakeAll(s.workers))
    case Spurious(w) => s.(workers := s.workers[w := Ready])
    case Test(w) =>
      if !s.stop && s.queue == [] then s.(workers := s.workers[w := Waiting])
      else if s.stop && s.queue == [] then s.(workers := s.workers[w := Exited])
      else
        s.(workers := s.workers[w := Running(s.queue[0])], queue := s.queue[1..], started := s.started + [s.queue[0]])
    case Finish(w) => s.(workers := s.workers[w := Ready], done := s.done + [s.workers[w].task])
  }

  /** The constructor refuses to start without workers. */
  ghost predicate Init(s: State) {
    && s.queue == s.submitted == s.started == s.done == [] && !s.stop && s.notifyOne == 0 && !s.notifyAll
    && |s.workers| >= 1 && forall w :: 0 <= w < |s.workers| ==> s.workers[w] == Ready
  }

  // ---------------------------------------------------------------- invariants

  /** The tasks the workers are running. */
  function InProgress(workers: seq<Worker>): multiset<Task> {
    if workers == [] then multiset{}
    else
      InProgress(workers[..|workers| - 1]) + Job(workers[|workers| - 1])
  }

  function Job(x: Worker): multiset<Task> { if x.Running? then multiset{x.task} else multiset{} }

  /** Tasks start in the order of their submission; started ones are running or done. */
  ghost predicate Conserved(s: State) {
    && s.submitted == s.started + s.queue
    && multiset(s.started) == InProgress(s.workers) + multiset(s.done)
  }

  /** While tasks are queued or the runner is stopping, nobody sleeps who will not be woken. */
  ghost predicate NoLostWakeup(s: State) {
    && (s.queue != [] && !AllExited(s) ==> s.notifyOne > 0 || s.notifyAll || exists w :: Awake(s, w))
    && (s.stop && SomeWaiting(s) ==> s.notifyAll)
  }

  ghost predicate Orderly(s: State) {
    && |s.workers| >= 1
    && (forall w :: 0 <= w < |s.workers| && s.workers[w].Exited? ==> s.stop)
    && (AllExited(s) ==> s.queue == [])
  }

  ghost predicate Inv(s: State) { Conserved(s) && NoLostWakeup(s) && Orderly(s) }

  lemma {:induction false} InProgressSet(workers: seq<Worker>, w: nat, x: Worker)
    requires w < |workers|
    ensures InProgress(workers[w := x]) + Job(workers[w]) == InProgress(workers) + Job(x)
    ensures Job(workers[w]) == Job(x) ==> InProgress(workers[w := x]) == InProgress(workers)
  {
    hide Job;
    var n := |workers| - 1;
    var after := workers[w := x];
    assert InProgress(after) == InProgress(after[..n]) + Job(after[n]);
    assert InProgress(workers) == InProgress(workers[..n]) + Job(workers[n]);
    if w < n {
      InProgressSet(workers[..n], w, x);
      assert after[..n] == workers[..n][w := x];
      assert InProgress(after) + Job(workers[w]) == (InProgress(after[..n]) + Job(workers[w])) + Job(workers[n]);
    } else {
      assert after[..n] == workers[..n];
    }
  }

  lemma {:induction false} InProgressWoken(workers: seq<Worker>)
    ensures InProgress(WakeAll(workers)) == InProgress(workers)
  {
    if workers != [] {
      InProgressWoken(workers[..|workers| - 1]);
      assert WakeAll(workers)[..|workers| - 1] == WakeAll(workers[..|workers| - 1]);
    }
  }

  /** A worker takes the task in front, or none. */
  lemma ConservedTest(s: State, w: nat)
    requires Conserved(s) && Enabled(s, Test(w))
    ensures Conserved(Apply(s, Test(w)))
  {
    hide InProgress;
    var t := Apply(s, Test(w));
    InProgressSet(s.workers, w, t.workers[w]);
    if s.queue == [] {
      assert Job(t.workers[w]) == Job(Ready);
    } else {
      TakenFromFront(s.started, s.queue);
      assert InProgress(t.workers) == InProgress(s.workers) + multiset{s.queue[0]};
    }
  }

  lemma TakenFromFront(started: seq<Task>, queue: seq<Task>)
    requires queue != []
    ensures started + queue == started + [queue[0]] + queue[1..]
    ensures multiset(started + [queue[0]]) == multiset(started) + multiset{queue[0]}
  {
  }

  lemma ConservedFinish(s: State, w: nat)
    requires Conserved(s) && Enabled(s, Finish(w))
    ensures Conserved(Apply(s, Finish(w)))
  {
    hide InProgress;
    InProgressSet(s.workers, w, Ready);
    var t, task := Apply(s, Finish(w)), s.workers[w].task;
    assert InProgress(s.workers) == InProgress(t.workers) + multiset{task};
    assert multiset(t.done) == multiset(s.done) + multiset{task};
  }

  lemma ConservedStep(s: State, e: Step)
    requires Conserved(s) && Enabled(s, e)
    ensures Conserved(Apply(s, e))
  {
    hide InProgress;
    if e.Submit? {
      assert s.started + (s.queue + [e.task]) == s.started + s.queue + [e.task];
    } else if e.NotifyAll? {
      InProgressWoken(s.workers);
    } else if e.Test? {
      ConservedTest(s, e.w);
    } else if e.Finish? {
      ConservedFinish(s, e.w);
    } else if e.Spurious? || (e.NotifyOne? && IsWaiting(s, e.w)) {
      InProgressSet(s.workers, e.w, Ready);
    }
  }

  lemma WorkersSame(s: State, e: Step)
    requires Enabled(s, e) && (e.Submit? || e.SetStop?)
    ensures Apply(s, e).workers == s.workers
    ensures AllExited(Apply(s, e)) == AllExited(s) && SomeWaiting(Apply(s, e)) == SomeWaiting(s)
    ensures forall w :: Awake(Apply(s, e), w) == Awake(s, w)
  {
    assert forall w :: IsWaiting(Apply(s, e), w) == IsWaiting(s, w);
  }

  lemma NotifyOneWakes(s: State, w: nat)
    requires NoLostWakeup(s) && Enabled(s, NotifyOne(w))
    ensures NoLostWakeup(Apply(s, NotifyOne(w)))
  {
    var t := Apply(s, NotifyOne(w));
    assert forall v :: IsWaiting(t, v) ==> IsWaiting(s, v);
    if SomeWaiting(s) {
      assert Awake(t, w);
    } else if !AllExited(s) {
      var v :| 0 <= v < |s.workers| && !s.workers[v].Exited?;
      assert !IsWaiting(s, v);
      assert Awake(t, v);
    }
  }

  lemma NotifyAllWakes(s: State)
    requires Enabled(s, NotifyAll)
    ensures NoLostWakeup(Apply(s, NotifyAll))
  {
    var t := Apply(s, NotifyAll);
    assert forall v :: !IsWaiting(t, v);
    if !AllExited(t) {
      var v :| 0 <= v < |t.workers| && !t.workers[v].Exited?;
      assert Awake(t, v);
    }
  }

  lemma OneWorkerKeeps(s: State, e: Step)
    requires NoLostWakeup(s) && Enabled(s, e) && (e.Spurious? || e.Finish? || e.Test?)
    ensures NoLostWakeup(Apply(s, e))
  {
    var t := Apply(s, e);
    if e.Test? && s.queue == [] {
      assert s.stop ==> forall v :: IsWaiting(t, v) ==> IsWaiting(s, v);
    } else {
      assert Awake(t, e.w);
      assert forall v :: IsWaiting(t, v) ==> IsWaiting(s, v);
    }
  }

  lemma NoLostWakeupStep(s: State, e: Step)
    requires NoLostWakeup(s) && Orderly(s) && Enabled(s, e)
    ensures NoLostWakeup(Apply(s, e))
  {
    hide SomeWaiting;
    if e.Submit? || e.SetStop? {
      WorkersSame(s, e);
    } else if e.NotifyOne? {
      NotifyOneWakes(s, e.w);
    } else if e.NotifyAll? {
      NotifyAllWakes(s);
    } else {
      OneWorkerKeeps(s, e);
    }
  }

  lemma StoppedWhenExited(s: State)
    requires Orderly(s) && AllExited(s)
    ensures s.stop && forall w :: 0 <= w < |s.workers| ==> !s.workers[w].Running?
  {
    assert s.workers[0].Exited?;
  }

  lemma OrderlyStep(s: State, e: Step)
    requires Orderly(s) && Enabled(s, e)
    ensures Orderly(Apply(s, e))
  {
    var t := Apply(s, e);
    if AllExited(t) {
      if e.Submit? {
        WorkersSame(s, e);
        StoppedWhenExited(s);
        assert false;
      } else if e.NotifyOne? || e.NotifyAll? || e.SetStop? {
        assert forall w :: 0 <= w < |s.workers| && s.workers[w] != t.workers[w] ==> t.workers[w].Ready?;
        assert AllExited(s);
      } else {
        assert t.workers[e.w].Exited?;
      }
    }
  }

  lemma Preserved(s: State, e: Step)
    requires Inv(s) && Enabled(s, e)
    ensures Inv(Apply(s, e))
  {
    hide Conserved, NoLostWakeup, Orderly, Apply, Enabled;
    ConservedStep(s, e);
    NoLostWakeupStep(s, e);
    OrderlyStep(s, e);
  }

  // ---------------------------------------------------------------- whole runs

  ghost predicate Run(ss: seq<State>, es: seq<Step>) {
    && |ss| == |es| + 1 && Init(ss[0])
    && forall i :: 0 <= i < |es| ==> Enabled(ss[i], es[i]) && ss[i + 1] == Apply(ss[i], es[i])
  }

  lemma {:induction false} NobodyStarted(workers: seq<Worker>)
    requires forall w :: 0 <= w < |workers| ==> !workers[w].Running?
    ensures InProgress(workers) == multiset{}
  {
    if workers != [] {
      NobodyStarted(workers[..|workers| - 1]);
    }
  }

  lemma {:induction false} Reachable(ss: seq<State>, es: seq<Step>, i: nat)
    requires Run(ss, es) && i < |ss|
    ensures Inv(ss[i])
  {
    hide Apply, Enabled, Conserved, NoLostWakeup, Orderly;
    if i == 0 {
      Initially(ss[0]);
    } else {
      Reachable(ss, es, i - 1);
      Preserved(ss[i - 1], es[i - 1]);
    }
  }

  lemma Initially(s: State)
    requires Init(s)
    ensures Inv(s)
  {
    NobodyStarted(s.workers);
    assert Awake(s, 0) && s.workers[0] == Ready;
  }

  /** Every submitted task is queued, running or done, and tasks start in the order of submission. */
  lemma FirstInFirstOut(ss: seq<State>, es: seq<Step>, i: nat)
    requires Run(ss, es) && i < |ss|
    ensures ss[i].submitted == ss[i].started + ss[i].queue
    ensures multiset(ss[i].submitted) == multiset(ss[i].queue) + InProgress(ss[i].workers) + multiset(ss[i].done)
  {
    hide Run;
    Reachable(ss, es, i);
  }

  /** If tasks are queued, or the runner is stopping, and all live workers wait, a notification is still due. */
  lemma WakeupDue(ss: seq<State>, es: seq<Step>, i: nat)
    requires Run(ss, es) && i < |ss| && (ss[i].queue != [] || ss[i].stop)
    requires SomeWaiting(ss[i]) && forall w :: !Awake(ss[i], w)
    ensures ss[i].notifyOne > 0 || ss[i].notifyAll
  {
    hide Run;
    Reachable(ss, es, i);
  }

  /** When all workers have exited everything that was ever submitted is done. */
  lemma AllDone(ss: seq<State>, es: seq<Step>, i: nat)
    requires Run(ss, es) && i < |ss| && AllExited(ss[i])
    ensures ss[i].queue == [] && multiset(ss[i].done) == multiset(ss[i].submitted)
  {
    hide Run;
    Reachable(ss, es, i);
    NobodyStarted(ss[i].workers);
  }

  // ---------------------------------------------------------------- the destructor returns

  /** The runner's own steps: no submissions, no spurious wakeups. */
  predicate Internal(e: Step) { e.NotifyOne? || e.NotifyAll? || e.Test? || e.Finish? }

  function Weight(x: Worker): nat { if x.Running? then 2 else if x.Ready? then 1 else 0 }

  function Weights(workers: seq<Worker>): nat {
    if workers == [] then 0 else Weights(workers[..|workers| - 1]) + Weight(workers[|workers| - 1])
  }

  /** What is left to do. */
  function Measure(s: State): nat {
    2 * |s.queue| + Weights(s.workers) + 2 * s.notifyOne + if s.notifyAll then |s.workers| + 1 else 0
  }

  lemma {:induction false} WeightsSet(workers: seq<Worker>, w: nat, x: Worker)
    requires w < |workers|
    ensures Weights(workers[w := x]) + Weight(workers[w]) == Weights(workers) + Weight(x)
  {
    hide Weight;
    var n := |workers| - 1;
    if w < n {
      WeightsSet(workers[..n], w, x);
      assert workers[w := x][..n] == workers[..n][w := x];
    } else {
      assert workers[w := x][..n] == workers[..n];
    }
  }

  lemma {:induction false} WeightsWoken(workers: seq<Worker>)
    ensures Weights(WakeAll(workers)) <= Weights(workers) + |workers|
  {
    if workers != [] {
      WeightsWoken(workers[..|workers| - 1]);
      assert WakeAll(workers)[..|workers| - 1] == WakeAll(workers[..|workers| - 1]);
    }
  }

  /** Every step of the runner itself leaves less to do. */
  lemma InternalStepsEnd(s: State, e: Step)
    requires Enabled(s, e) && Internal(e)
    ensures Measure(Apply(s, e)) < Measure(s)
  {
    hide Weights;
    if e.NotifyAll? {
      WeightsWoken(s.workers);
    } else if !e.NotifyOne? || IsWaiting(s, e.w) {
      WeightsSet(s.workers, e.w, Apply(s, e).workers[e.w]);
    }
  }

  /** A stopping runner with a live worker can always go on by itself. */
  lemma NeverStuck(s: State) returns (e: Step)
    requires Inv(s) && s.stop && !AllExited(s)
    ensures Enabled(s, e) && Internal(e)
  {
    if s.notifyAll {
      e := NotifyAll;
    } else {
      var w :| 0 <= w < |s.workers| && !s.workers[w].Exited?;
      assert !IsWaiting(s, w);
      e := if s.workers[w].Ready? then Test(w) else Finish(w);
    }
  }

  /** The steps lead from s to t, and all are the runner's own. */
  ghost predicate Leads(s: State, es: seq<Step>, t: State)
    decreases |es|
  {
    if es == [] then t == s else Internal(es[0]) && Enabled(s, es[0]) && Leads(Apply(s, es[0]), es[1..], t)
  }

  lemma InternalKeeps(s: State, e: Step)
    requires Enabled(s, e) && Internal(e)
    ensures Apply(s, e).stop == s.stop && Apply(s, e).submitted == s.submitted
  {
  }

  /**
   Left to itself after SetStop the runner ends, whatever the order of its steps; where it can go
   no further every worker has exited and every submitted task is done.
   */
  lemma {:induction false} DestructorReturns(s: State, es: seq<Step>, t: State)
    requires Inv(s) && s.stop && Leads(s, es, t)
    ensures |es| <= Measure(s)
    ensures (forall e :: Internal(e) ==> !Enabled(t, e)) ==>
      AllExited(t) && t.queue == [] && multiset(t.done) == multiset(s.submitted)
    decreases |es|
  {
    hide Apply, Enabled, Measure, Inv;
    if es == [] {
      if AllExited(s) {
        AllDoneAt(s);
      } else {
        var e := NeverStuck(s);
      }
    } else {
      Preserved(s, es[0]);
      InternalKeeps(s, es[0]);
      InternalStepsEnd(s, es[0]);
      DestructorReturns(Apply(s, es[0]), es[1..], t);
    }
  }

  lemma AllDoneAt(s: State)
    requires Inv(s) && AllExited(s)
    ensures s.queue == [] && multiset(s.done) == multiset(s.submitted)
  {
    NobodyStarted(s.workers);
  }
}
