/** The timer's steps in the transition system are the rounds of the loop that drains the array heap. */
module DrainAgrees {
  import opened Scheduler
  import H = TimerHeap

  /** An element of the heap together with the settings of its handle. */
  function Loaded(s: State, item: Item): H.Item
    requires Known(s, item.id)
  {
    var h := s.handles[item.id];
    H.Item(item.time, item.id, h.repeating, h.period, h.policy == Skip)
  }

  function Unloaded(items: seq<H.Item>): multiset<Item> {
    if items == [] then multiset{} else multiset{Item(items[0].time, items[0].id)} + Unloaded(items[1..])
  }

  /** A successful call of Cancel is what the first load sees, an active worker what the second sees. */
  ghost predicate SeenCancelled(s: State, id: nat) { exists c :: Effective(s, c, id) }

  /** Steps l and, unless the task was cancelled, d of the timer are its two loads, with these answers. */
  ghost predicate Loads(ss: seq<State>, es: seq<Step>, item: Item, l: nat, d: nat, j: nat, load: (bool, bool)) {
    && l < j <= |es| < |ss| && es[l] == LoadCancelled && ss[l].timer.Popped? && ss[l].timer.item == item
    && (load.0 <==> SeenCancelled(ss[l], item.id))
    && (!load.0 ==>
         && l < d < j && es[d] == Decide && ss[d].timer.Checked? && ss[d].timer.item == item
         && (load.1 <==> Busy(ss[d], item.id)))
  }

  lemma SettingsStep(s: State, e: Step, item: Item)
    requires Enabled(s, e) && Known(s, item.id)
    ensures Known(Apply(s, e), item.id) && Loaded(Apply(s, e), item) == Loaded(s, item)
  {
    hide Apply, Enabled;
    Progress(s, e, item.id);
  }

  /** While the timer is in a round nobody else touches the heap, the timer or the order of invocations. */
  lemma OthersWait(s: State, e: Step)
    requires Enabled(s, e) && !ByTimer(e) && !LockFree(s)
    ensures Apply(s, e).heap == s.heap && Apply(s, e).timer == s.timer
  {
    TimerFrame(s, e);
  }

  /** How far the round that begins with the pop at step a has come before step j. */
  ghost predicate RoundAt(
      ss: seq<State>, es: seq<Step>, a: nat, j: nat, item: Item, now: int, l: nat, d: nat, load: (bool, bool))
    requires a < j < |ss| == |es| + 1 && Known(ss[a], item.id)
  {
    var x, rest, handed := Loaded(ss[a], item), ss[a].heap - multiset{item}, Handed(ss, es, a);
    var t := ss[j].timer;
    && Known(ss[j], item.id) && Loaded(ss[j], item) == x
    && (t == Popped(item, now) || t == Checked(item, now) || t == Adding(item.id, now) || t == Draining(now))
    && (t.Popped? || t.Checked? ==> ss[j].heap == rest && Handed(ss, es, j) == handed)
    && (t.Checked? ==>
         a < l < j && es[l] == LoadCancelled && ss[l].timer == Popped(item, now) && !SeenCancelled(ss[l], item.id))
    && (t.Adding? || t.Draining? ==>
         && a < l && Loads(ss, es, item, l, d, j, load) && ss[j].heap == rest + Unloaded(H.Recurrence(x, load))
         && Handed(ss, es, j) == handed + (if H.Choice(x, load) == [] then [] else [item.id])
         && (t.Adding? ==> H.Choice(x, load) != []))
  }

  lemma {:induction false} RoundGoes(ss: seq<State>, es: seq<Step>, a: nat, j: nat, item: Item, now: int)
    returns (l: nat, d: nat, load: (bool, bool))
    requires Run(ss, es) && a < j < |ss| && es[a] == Pop(item) && ss[a].timer == Draining(now) && Known(ss[a], item.id)
    requires forall m :: a < m < j ==> !ss[m].timer.Draining?
    ensures RoundAt(ss, es, a, j, item, now, l, d, load)
  {
    hide Apply, Enabled, Init, RoundAt, Loaded;
    if j == a + 1 {
      l, d, load := 0, 0, (false, false);
      RoundBegins(ss, es, a, item, now);
    } else {
      l, d, load := RoundGoes(ss, es, a, j - 1, item, now);
      var s, e := ss[j - 1], es[j - 1];
      assert Enabled(s, e) && ss[j] == Apply(s, e);
      InTheRound(ss, es, a, j - 1, item, now, l, d, load);
      if e.LoadCancelled? {
        l, load := j - 1, (true, false);
        RoundLoads(ss, es, a, j, item, now, l, d);
      } else if e.Decide? {
        var k := d;
        d := j - 1;
        load := RoundDecides(ss, es, a, j, item, now, l, d, k, load);
      } else {
        RoundRests(ss, es, a, j, item, now, l, d, load);
      }
    }
  }

  lemma RoundBegins(ss: seq<State>, es: seq<Step>, a: nat, item: Item, now: int)
    requires Run(ss, es) && a < |es| && es[a] == Pop(item) && ss[a].timer == Draining(now) && Known(ss[a], item.id)
    ensures RoundAt(ss, es, a, a + 1, item, now, 0, 0, (false, false))
  {
    assert Enabled(ss[a], es[a]) && ss[a + 1] == Apply(ss[a], es[a]);
    assert Handed(ss, es, a + 1) == Handed(ss, es, a) + [];
  }

  /** In a round the timer has one step to make next. */
  lemma InTheRound(
      ss: seq<State>, es: seq<Step>, a: nat, j: nat, item: Item, now: int, l: nat, d: nat, load: (bool, bool))
    requires Run(ss, es) && a < j < |es| && Known(ss[a], item.id) && RoundAt(ss, es, a, j, item, now, l, d, load)
    requires !ss[j].timer.Draining?
    ensures !LockFree(ss[j]) && (ByTimer(es[j]) ==> es[j].LoadCancelled? || es[j].Decide? || es[j].AddTask?)
    ensures es[j].LoadCancelled? ==> ss[j].timer == Popped(item, now)
    ensures es[j].Decide? ==> ss[j].timer == Checked(item, now)
  {
    assert Enabled(ss[j], es[j]);
  }

  lemma RoundLoads(ss: seq<State>, es: seq<Step>, a: nat, j: nat, item: Item, now: int, l: nat, d: nat)
    requires Run(ss, es) && a + 1 < j < |ss| && l == j - 1 && Known(ss[a], item.id) && es[l] == LoadCancelled
    requires exists k, d, load :: RoundAt(ss, es, a, l, item, now, k, d, load)
    requires ss[l].timer == Popped(item, now)
    ensures RoundAt(ss, es, a, j, item, now, l, d, (true, false))
  {
    hide Apply, Enabled, Init, Effective, Busy, Loaded;
    DiscardedIff(ss, es, l, item, now);
    assert Enabled(ss[l], es[l]) && ss[j] == Apply(ss[l], es[l]);
    SettingsStep(ss[l], es[l], item);
  }

  ghost predicate LoadedAt(ss: seq<State>, es: seq<Step>, a: nat, l: nat, d: nat, item: Item, now: int) {
    && a < l < d < |ss| == |es| + 1 && es[l] == LoadCancelled && ss[l].timer == Popped(item, now)
    && !SeenCancelled(ss[l], item.id)
  }

  lemma RoundChecked(
      ss: seq<State>, es: seq<Step>, a: nat, item: Item, now: int, l: nat, d: nat, k: nat, none: (bool, bool))
    requires a < d < |ss| == |es| + 1 && Known(ss[a], item.id)
    requires RoundAt(ss, es, a, d, item, now, l, k, none) && ss[d].timer == Checked(item, now)
    ensures LoadedAt(ss, es, a, l, d, item, now) && Known(ss[d], item.id) && Loaded(ss[d], item) == Loaded(ss[a], item)
    ensures ss[d].heap == ss[a].heap - multiset{item} && Handed(ss, es, d) == Handed(ss, es, a)
  {
    hide SeenCancelled, Loaded;
  }

  lemma RoundDecided(
      ss: seq<State>, es: seq<Step>, a: nat, item: Item, now: int, l: nat, d: nat, x: H.Item, load: (bool, bool))
    requires a < d && d + 1 < |ss| == |es| + 1 && LoadedAt(ss, es, a, l, d, item, now)
    requires Known(ss[a], item.id) && Loaded(ss[a], item) == x && load == (false, Busy(ss[d], item.id))
    requires es[d] == Decide && ss[d].timer == Checked(item, now)
    requires Known(ss[d + 1], item.id) && Loaded(ss[d + 1], item) == x
    requires ss[d + 1].heap == ss[a].heap - multiset{item} + Unloaded(H.Recurrence(x, load))
    requires ss[d + 1].timer == if H.Choice(x, load) == [] then Draining(now) else Adding(item.id, now)
    requires Handed(ss, es, d + 1) == Handed(ss, es, a) + if H.Choice(x, load) == [] then [] else [item.id]
    ensures RoundAt(ss, es, a, d + 1, item, now, l, d, load)
  {
    hide SeenCancelled, Loaded, Unloaded, Busy, Handed;
  }

  lemma RoundDecides(
      ss: seq<State>, es: seq<Step>, a: nat, j: nat, item: Item, now: int, l: nat, d: nat, k: nat, none: (bool, bool))
    returns (load: (bool, bool))
    requires Run(ss, es) && a + 1 < j < |ss| && d == j - 1 && Known(ss[a], item.id) && es[d] == Decide
    requires RoundAt(ss, es, a, d, item, now, l, k, none) && ss[d].timer == Checked(item, now)
    ensures RoundAt(ss, es, a, j, item, now, l, d, load)
  {
    hide Apply, Enabled, Init, Busy, Loaded, RoundAt, LoadedAt, Unloaded, Handed;
    load := (false, Busy(ss[d], item.id));
    var x := Loaded(ss[a], item);
    assert Enabled(ss[d], es[d]) && ss[j] == Apply(ss[d], es[d]);
    RoundChecked(ss, es, a, item, now, l, d, k, none);
    SettingsStep(ss[d], es[d], item);
    Decides(ss, es, d, item, now, x, load);
    RoundDecided(ss, es, a, item, now, l, d, x, load);
  }

  /** The step by which the timer decides, in terms of the loop. */
  lemma Decides(ss: seq<State>, es: seq<Step>, d: nat, item: Item, now: int, x: H.Item, load: (bool, bool))
    requires Run(ss, es) && d < |es| && es[d] == Decide && ss[d].timer == Checked(item, now)
    requires Known(ss[d], item.id) && Loaded(ss[d], item) == x && load == (false, Busy(ss[d], item.id))
    ensures ss[d + 1].heap == ss[d].heap + Unloaded(H.Recurrence(x, load))
    ensures ss[d + 1].timer == if H.Choice(x, load) == [] then Draining(now) else Adding(item.id, now)
    ensures Handed(ss, es, d + 1) == Handed(ss, es, d) + if H.Choice(x, load) == [] then [] else [item.id]
  {
    hide Apply, Enabled, Init, Busy, Unloaded;
    SkippedIff(ss, es, d, item, now);
    OneUnloaded(x, load);
  }

  lemma OneUnloaded(x: H.Item, load: (bool, bool))
    ensures Unloaded(H.Recurrence(x, load)) ==
      if load.0 || !x.repeating then multiset{} else multiset{Item(x.time + x.period, x.id)}
  {
  }

  lemma RoundRests(
      ss: seq<State>, es: seq<Step>, a: nat, j: nat, item: Item, now: int, l: nat, d: nat, load: (bool, bool))
    requires Run(ss, es) && a + 1 < j < |ss| && Known(ss[a], item.id)
    requires RoundAt(ss, es, a, j - 1, item, now, l, d, load) && !ss[j - 1].timer.Draining?
    requires !es[j - 1].LoadCancelled? && !es[j - 1].Decide?
    ensures RoundAt(ss, es, a, j, item, now, l, d, load)
  {
    hide Apply, Enabled, Init, Effective, Busy, Loaded, Unloaded, LockFree;
    var s, e := ss[j - 1], es[j - 1];
    InTheRound(ss, es, a, j - 1, item, now, l, d, load);
    assert Enabled(s, e) && ss[j] == Apply(s, e);
    SettingsStep(s, e, item);
    if e.AddTask? {
      AddsTask(s);
    } else {
      OthersWait(s, e);
    }
    assert Handed(ss, es, j) == Handed(ss, es, j - 1) + [];
  }

  lemma AddsTask(s: State)
    requires Enabled(s, AddTask)
    ensures s.timer.Adding? && Apply(s, AddTask).timer == Draining(s.timer.now) && Apply(s, AddTask).heap == s.heap
  {
  }

  /**
   In every run, what the timer does from popping an item to going on with the drain is one round of
   the loop over the array heap: the item was an earliest one and due, it leaves and its recurrence
   comes back, and it is handed over or not, by what the two status loads of the round saw.
   */
  lemma RoundAgrees(ss: seq<State>, es: seq<Step>, a: nat, b: nat, item: Item, now: int)
    returns (l: nat, d: nat, load: (bool, bool))
    requires Run(ss, es) && a < b < |ss| && es[a] == Pop(item) && ss[a].timer == Draining(now)
    requires ss[b].timer.Draining? && forall m :: a < m < b ==> !ss[m].timer.Draining?
    ensures Known(ss[a], item.id) && a < l && Loads(ss, es, item, l, d, b, load)
    ensures item in ss[a].heap && item.time <= now && forall other :: other in ss[a].heap ==> item.time <= other.time
    ensures ss[b].heap + multiset{item} == ss[a].heap + Unloaded(H.Recurrence(Loaded(ss[a], item), load))
    ensures Handed(ss, es, b) ==
      Handed(ss, es, a) + if H.Choice(Loaded(ss[a], item), load) == [] then [] else [item.id]
  {
    hide Apply, Init, Inv, Loads, Unloaded, Loaded;
    assert Enabled(ss[a], es[a]);
    Reachable(ss, es, a);
    KnownItem(ss[a], item);
    l, d, load := RoundGoes(ss, es, a, b, item, now);
  }

  lemma KnownItem(s: State, item: Item)
    requires Inv(s) && item in s.heap
    ensures Known(s, item.id)
  {
  }
}
