/**
 EventDispatcher, and the handler bookkeeping that SubscriberConnection and ResponderConnection share.
 Handlers may register, cancel and send from inside a dispatch: a run is a tree of nested calls.
 */
module Connections {

  /** The predicate of a registration, by the messages it lets through; without one all pass. */
  datatype Filter = All | Only(messages: set<nat>)

  predicate Passes(f: Filter, message: nat) { f.All? || message in f.messages }

  datatype Entry = Entry(id: nat, filter: Filter)

  // ---------------------------------------------------------------- the dispatcher

  /** The entries with ids below n, in the order of the ids. */
  function Ordered(callbacks: map<nat, Filter>, n: nat): (r: seq<Entry>)
    ensures forall i :: 0 <= i < |r| ==> r[i].id < n && r[i].id in callbacks && r[i].filter == callbacks[r[i].id]
    ensures forall i, j :: 0 <= i < j < |r| ==> r[i].id < r[j].id
  {
    if n == 0 then []
    else Ordered(callbacks, n - 1) + if n - 1 in callbacks then [Entry(n - 1, callbacks[n - 1])] else []
  }

  /** Every registered callback is among them. */
  lemma {:induction false} OrderedHas(callbacks: map<nat, Filter>, n: nat, id: nat)
    requires id in callbacks && id < n
    ensures Entry(id, callbacks[id]) in Ordered(callbacks, n)
  {
    if id < n - 1 {
      OrderedHas(callbacks, n - 1, id);
    }
  }

  /** The entries whose predicates let the message through. */
  function Passing(entries: seq<Entry>, message: nat): seq<Entry> {
    if entries == [] then []
    else Passing(entries[..|entries| - 1], message) +
         if Passes(entries[|entries| - 1].filter, message) then [entries[|entries| - 1]] else []
  }

  lemma PassingMore(entries: seq<Entry>, entry: Entry, message: nat)
    ensures Passing(entries + [entry], message) ==
      if Passes(entry.filter, message) then Passing(entries, message) + [entry] else Passing(entries, message)
  {
    assert (entries + [entry])[..|entries|] == entries;
  }

  /** Exactly the callbacks with ids below n that let the message through, each once, by id. */
  ghost predicate AllThatPass(r: seq<Entry>, callbacks: map<nat, Filter>, n: nat, message: nat) {
    && (forall id: nat :: id < n && id in callbacks && Passes(callbacks[id], message) ==> HasId(r, id))
    && (forall i :: 0 <= i < |r| ==>
         r[i].id < n && r[i].id in callbacks && r[i].filter == callbacks[r[i].id] && Passes(r[i].filter, message))
    && forall i, j :: 0 <= i < j < |r| ==> r[i].id < r[j].id
  }

  ghost predicate HasId(r: seq<Entry>, id: nat) {
    exists i :: 0 <= i < |r| && r[i].id == id
  }

  lemma OneMorePasses(r: seq<Entry>, callbacks: map<nat, Filter>, n: nat, message: nat)
    requires AllThatPass(r, callbacks, n, message)
    ensures n in callbacks && Passes(callbacks[n], message) ==>
      AllThatPass(r + [Entry(n, callbacks[n])], callbacks, n + 1, message)
    ensures !(n in callbacks && Passes(callbacks[n], message)) ==> AllThatPass(r, callbacks, n + 1, message)
  {
    hide Passes;
    if n in callbacks {
      var more := r + [Entry(n, callbacks[n])];
      assert more[|r|].id == n && HasId(more, n);
      forall id | HasId(r, id)
        ensures HasId(more, id)
      {
        var i :| 0 <= i < |r| && r[i].id == id;
        assert more[i].id == id;
      }
    }
  }

  /**
   Of the callbacks registered when a dispatch starts, exactly those run whose predicate lets the
   message through, each once, in the order of registration.
   */
  lemma {:induction false} WhoRuns(callbacks: map<nat, Filter>, n: nat, message: nat)
    ensures AllThatPass(Passing(Ordered(callbacks, n), message), callbacks, n, message)
  {
    hide Passes, AllThatPass, Passing, Ordered;
    OrderedStep(callbacks, n);
    if n == 0 {
      NonePass(callbacks, message);
    } else {
      var before := Ordered(callbacks, n - 1);
      WhoRuns(callbacks, n - 1, message);
      OneMorePasses(Passing(before, message), callbacks, n - 1, message);
      if n - 1 in callbacks {
        PassingMore(before, Entry(n - 1, callbacks[n - 1]), message);
      }
    }
  }

  lemma OrderedStep(callbacks: map<nat, Filter>, n: nat)
    ensures n == 0 ==> Ordered(callbacks, n) == []
    ensures n > 0 && n - 1 in callbacks ==>
      Ordered(callbacks, n) == Ordered(callbacks, n - 1) + [Entry(n - 1, callbacks[n - 1])]
    ensures n > 0 && n - 1 !in callbacks ==> Ordered(callbacks, n) == Ordered(callbacks, n - 1)
  {
  }

  lemma NonePass(callbacks: map<nat, Filter>, message: nat)
    ensures Passing([], message) == [] && AllThatPass([], callbacks, 0, message)
  {
  }

  class EventDispatcher {
    var callbacks: map<nat, Filter>
    var nextId: nat

    ghost predicate Valid()
      reads this
    {
      forall id :: id in callbacks ==> id < nextId
    }

    /** The registered callbacks in registration order. */
    ghost function Live(): seq<Entry>
      reads this
    {
      Ordered(callbacks, nextId)
    }

    constructor ()
      ensures Valid() && callbacks == map[] && nextId == 0
    {
      callbacks, nextId := map[], 0;
    }

    /** A new id behind all others. */
    method Register(filter: Filter) returns (id: nat)
      requires Valid()
      modifies this
      ensures Valid() && id == old(nextId) && nextId == id + 1
      ensures callbacks == old(callbacks)[id := filter] && id !in old(callbacks)
      ensures Live() == old(Live()) + [Entry(id, filter)]
    {
      id := nextId;
      nextId := nextId + 1;
      OrderedSame(callbacks, callbacks[id := filter], id);
      callbacks := callbacks[id := filter];
    }

    method Erase(id: nat)
      requires Valid()
      modifies this
      ensures Valid() && nextId == old(nextId) && callbacks == old(callbacks) - {id}
    {
      callbacks := callbacks - {id};
    }

    /** Iterates over the map by increasing id. */
    method Snapshot() returns (entries: seq<Entry>)
      requires Valid()
      ensures entries == Live()
    {
      entries := [];
      for id := 0 to nextId
        invariant entries == Ordered(callbacks, id)
      {
        if id in callbacks {
          entries := entries + [Entry(id, callbacks[id])];
        }
      }
    }
  }

  lemma {:induction false} OrderedSame(a: map<nat, Filter>, b: map<nat, Filter>, n: nat)
    requires forall id :: id < n ==> (id in a <==> id in b) && (id in a ==> a[id] == b[id])
    ensures Ordered(a, n) == Ordered(b, n)
  {
    if n > 0 {
      OrderedSame(a, b, n - 1);
    }
  }

  // ---------------------------------------------------------------- runs as trees

  /** What happens inside one call of a handler, or of the transport's Unregister_Callback. */
  datatype Reaction = Reaction(actions: seq<Action>)

  /** `reactions[k]` is what the k-th callback of the dispatch does if its predicate passes; without one, nothing. */
  datatype Action =
    | Register(filter: Filter)
    | Cancel(handle: nat, reaction: Reaction)
    | Receive(transaction: nat, message: nat, reactions: seq<Reaction>)
    | Respond(response: nat) // by a responder's handler, through its sender

  /** Calls on the transport. */
  datatype Call = RegisterCallback | UnregisterCallback | SendMessage(transaction: nat, response: nat)

  /** The registrations and their ends, without the messages sent. */
  function Toggles(calls: seq<Call>): seq<Call> {
    if calls == [] then []
    else Toggles(calls[..|calls| - 1]) + if calls[|calls| - 1].SendMessage? then [] else [calls[|calls| - 1]]
  }

  /** They strictly alternate, starting with a registration. */
  ghost predicate Alternating(calls: seq<Call>) {
    var t := Toggles(calls);
    forall i :: 0 <= i < |t| ==> t[i] == if i % 2 == 0 then RegisterCallback else UnregisterCallback
  }

  predicate IsActive(calls: seq<Call>) { |Toggles(calls)| % 2 == 1 }

  lemma TogglesMore(calls: seq<Call>, call: Call)
    ensures Toggles(calls + [call]) == Toggles(calls) + if call.SendMessage? then [] else [call]
  {
    assert (calls + [call])[..|calls|] == calls;
  }

  /** One more call on the transport. */
  lemma CallMore(calls: seq<Call>, call: Call)
    requires Alternating(calls)
    requires call.SendMessage? || (call == if IsActive(calls) then UnregisterCallback else RegisterCallback)
    ensures Alternating(calls + [call])
    ensures IsActive(calls + [call]) == if call.SendMessage? then IsActive(calls) else call == RegisterCallback
  {
    hide Toggles;
    TogglesMore(calls, call);
    var t, more := Toggles(calls), Toggles(calls + [call]);
    if !call.SendMessage? {
      assert more[|t|] == call;
    }
  }

  // ---------------------------------------------------------------- what a run does, without counters and maps

  /** A registration by its handle: cancelled, or with its predicate. */
  datatype Place = Gone | Live(filter: Filter)

  /** Whether a handler has a sender, and the transaction of the request it was made for. */
  datatype Sender = Nobody | To(transaction: nat)

  datatype State = State(places: seq<Place>, calls: seq<Call>)

  /** The live registrations in order. */
  ghost function Entries(places: seq<Place>): seq<Entry> {
    if places == [] then []
    else
      var n := |places| - 1;
      Entries(places[..n]) + if places[n].Live? then [Entry(n, places[n].filter)] else []
  }

  ghost predicate NoneLive(places: seq<Place>) { forall i :: 0 <= i < |places| ==> places[i].Gone? }

  /** Actions that are not possible are skipped. */
  ghost function After(s: State, action: Action, sender: Sender): State
    decreases action, 1
  {
    match action
    case Register(filter) =>
      State(s.places + [Live(filter)], s.calls + if NoneLive(s.places) then [RegisterCallback] else [])
    case Cancel(h, inner) =>
      if h >= |s.places| || s.places[h].Gone? then s
      else
        var places := s.places[h := Gone];
        if NoneLive(places) then
          Through(State(places, s.calls + [UnregisterCallback]), inner, Nobody, |inner.actions|)
        else State(places, s.calls)
    case Receive(t, message, reactions) =>
      var entries := Entries(s.places);
      Dispatch(s, entries, t, message, reactions, |entries|)
    case Respond(response) =>
      if sender.Nobody? then s else State(s.places, s.calls + [SendMessage(sender.transaction, response)])
  }

  /** The first n of the callbacks that were live when the dispatch began. */
  ghost function Dispatch(
      s: State, entries: seq<Entry>, t: nat, message: nat, reactions: seq<Reaction>, n: nat): State
    requires n <= |entries|
    decreases reactions, 0, n
  {
    if n == 0 then s
    else
      var v := Dispatch(s, entries, t, message, reactions, n - 1);
      if Passes(entries[n - 1].filter, message) && n - 1 < |reactions| then
        Through(v, reactions[n - 1], To(t), |reactions[n - 1].actions|)
      else v
  }

  /** The first n actions, in order. */
  ghost function Through(s: State, reaction: Reaction, sender: Sender, n: nat): State
    requires n <= |reaction.actions|
    decreases reaction, 0, n
  {
    if n == 0 then s else After(Through(s, reaction, sender, n - 1), reaction.actions[n - 1], sender)
  }

  /** Somewhere in the reaction, a handler that was called for transaction t responds. */
  ghost predicate Answers(reaction: Reaction, sender: Sender, t: nat, response: nat)
    decreases reaction, 0
  {
    exists i :: 0 <= i < |reaction.actions| && AnswersBy(reaction.actions[i], sender, t, response)
  }

  ghost predicate AnswersBy(action: Action, sender: Sender, t: nat, response: nat)
    decreases action, 1
  {
    match action
    case Register(_) => false
    case Cancel(_, inner) => Answers(inner, Nobody, t, response)
    case Receive(own, _, reactions) => exists k :: 0 <= k < |reactions| && Answers(reactions[k], To(own), t, response)
    case Respond(r) => r == response && sender == To(t)
  }

  lemma {:induction false} AnswersOfAction(s: State, action: Action, sender: Sender)
    ensures var v := After(s, action, sender);
      s.calls <= v.calls && forall i :: |s.calls| <= i < |v.calls| && v.calls[i].SendMessage? ==>
        AnswersBy(action, sender, v.calls[i].transaction, v.calls[i].response)
    decreases action, 1
  {
    hide Through, Dispatch, Entries, Answers;
    match action
    case Register(_) =>
    case Cancel(h, inner) =>
      if h < |s.places| && s.places[h].Live? && NoneLive(s.places[h := Gone]) {
        AnswersOfReaction(State(s.places[h := Gone], s.calls + [UnregisterCallback]), inner, Nobody, |inner.actions|);
      }
    case Receive(t, message, reactions) =>
      AnswersOfDispatch(s, Entries(s.places), t, message, reactions, |Entries(s.places)|);
    case Respond(_) =>
  }

  lemma {:induction false} AnswersOfDispatch(
      s: State, entries: seq<Entry>, t: nat, message: nat, reactions: seq<Reaction>, n: nat)
    requires n <= |entries|
    ensures var v := Dispatch(s, entries, t, message, reactions, n);
      s.calls <= v.calls && forall i :: |s.calls| <= i < |v.calls| && v.calls[i].SendMessage? ==>
        exists k :: 0 <= k < |reactions| && Answers(reactions[k], To(t), v.calls[i].transaction, v.calls[i].response)
    decreases reactions, 0, n
  {
    hide Through, Passes, Answers;
    if n > 0 {
      AnswersOfDispatch(s, entries, t, message, reactions, n - 1);
      var v := Dispatch(s, entries, t, message, reactions, n - 1);
      if Passes(entries[n - 1].filter, message) && n - 1 < |reactions| {
        AnswersOfReaction(v, reactions[n - 1], To(t), |reactions[n - 1].actions|);
      }
    }
  }

  /** Every message sent is the response of a handler, under the transaction it was called for. */
  lemma {:induction false} AnswersOfReaction(s: State, reaction: Reaction, sender: Sender, n: nat)
    requires n <= |reaction.actions|
    ensures var v := Through(s, reaction, sender, n);
      s.calls <= v.calls && forall i :: |s.calls| <= i < |v.calls| && v.calls[i].SendMessage? ==>
        Answers(reaction, sender, v.calls[i].transaction, v.calls[i].response)
    decreases reaction, 0, n
  {
    hide After, AnswersBy;
    if n > 0 {
      AnswersOfReaction(s, reaction, sender, n - 1);
      AnswersOfAction(Through(s, reaction, sender, n - 1), reaction.actions[n - 1], sender);
    }
  }

  // ---------------------------------------------------------------- the connection

  function PlaceOf(callbacks: map<nat, Filter>, h: nat): Place {
    if h in callbacks then Live(callbacks[h]) else Gone
  }

  function Places(callbacks: map<nat, Filter>, n: nat): (r: seq<Place>)
    ensures |r| == n && forall h :: 0 <= h < n ==> r[h] == PlaceOf(callbacks, h)
  {
    seq(n, h requires 0 <= h < n => PlaceOf(callbacks, h))
  }

  /** A sender matters to responses only. */
  lemma SenderMatters(s: State, action: Action, sender: Sender)
    ensures !action.Respond? ==> After(s, action, sender) == After(s, action, Nobody)
    ensures action.Respond? && sender.Nobody? ==> After(s, action, sender) == s
    ensures action.Cancel? && action.handle >= |s.places| ==> After(s, action, sender) == s
  {
  }

  lemma {:induction false} OrderedIsEntries(callbacks: map<nat, Filter>, places: seq<Place>)
    requires forall h :: 0 <= h < |places| ==> places[h] == PlaceOf(callbacks, h)
    ensures Ordered(callbacks, |places|) == Entries(places)
  {
    if places != [] {
      OrderedIsEntries(callbacks, places[..|places| - 1]);
    }
  }

  class Connection {
    const dispatcher: EventDispatcher
    var handlerCount: int
    var cancelled: seq<bool>    // of each handle ever returned; its dispatcher id is its place
    var calls: seq<Call>        // made on the transport

    /**
     Handler count, dispatcher entries and uncancelled handles agree, and the transport's
     registration is active exactly when there are any.
     */
    ghost predicate Lockstep()
      reads this, dispatcher
    {
      && dispatcher.Valid() && dispatcher.nextId == |cancelled|
      && handlerCount == |dispatcher.callbacks|
      && (forall h :: 0 <= h < |cancelled| ==> (h in dispatcher.callbacks <==> !cancelled[h]))
      && Alternating(calls) && (IsActive(calls) <==> handlerCount > 0)
    }

    /** The registrations and the calls made, without the counter and the map. */
    ghost function View(): State
      reads this, dispatcher
    {
      State(Places(dispatcher.callbacks, |cancelled|), calls)
    }

    constructor ()
      ensures Lockstep() && View() == State([], []) && fresh(dispatcher)
    {
      dispatcher := new EventDispatcher();
      handlerCount, cancelled, calls := 0, [], [];
    }

    /** The transport does not call back from inside Register_Callback. */
    method RegisterHandler(filter: Filter) returns (handle: nat)
      requires Lockstep()
      modifies this, dispatcher
      ensures Lockstep() && handle == |old(cancelled)| && cancelled == old(cancelled) + [false]
      ensures dispatcher.Live() == old(dispatcher.Live()) + [Entry(handle, filter)]
      ensures View() == After(old(View()), Register(filter), Nobody)
    {
      hide Alternating, IsActive, Ordered;
      NoneLeft(this);
      handle := dispatcher.Register(filter);
      if handlerCount == 0 {
        CallMore(calls, RegisterCallback);
        calls := calls + [RegisterCallback];
      }
      handlerCount := handlerCount + 1;
      cancelled := cancelled + [false];
    }

    /** Cancel of a handle; a second one does nothing. */
    method CancelHandle(handle: nat, reaction: Reaction)
      requires Lockstep() && handle < |cancelled|
      modifies this, dispatcher
      ensures Lockstep() && |cancelled| >= |old(cancelled)| && cancelled[handle]
      ensures forall h :: 0 <= h < |old(cancelled)| && old(cancelled)[h] ==> cancelled[h]
      ensures View() == After(old(View()), Cancel(handle, reaction), Nobody)
      decreases reaction, 2
    {
      hide Alternating, IsActive, Ordered, Through;
      if !cancelled[handle] {
        cancelled := cancelled[handle := true];
        OneLess(dispatcher.callbacks, handle);
        dispatcher.Erase(handle);
        handlerCount := handlerCount - 1;
        NoneLeft(this);
        assert View().places == old(View()).places[handle := Gone];
        if handlerCount == 0 {
          CallMore(calls, UnregisterCallback);
          calls := calls + [UnregisterCallback];
          Perform(reaction, Nobody);
        }
      }
    }

    /** Callback_Handler: one dispatch, through a sender for this transaction; `ran` are the handlers that ran. */
    method CallbackHandler(transaction: nat, message: nat, reactions: seq<Reaction>) returns (ran: seq<Entry>)
      requires Lockstep()
      modifies this, dispatcher
      ensures Lockstep() && ran == Passing(old(dispatcher.Live()), message)
      ensures |cancelled| >= |old(cancelled)|
      ensures forall h :: 0 <= h < |old(cancelled)| && old(cancelled)[h] ==> cancelled[h]
      ensures View() == After(old(View()), Receive(transaction, message, reactions), Nobody)
      decreases reactions, 2
    {
      hide Alternating, IsActive, Ordered, Passing, Entries, Through;
      var snapshot := dispatcher.Snapshot();
      LiveIsView(this);
      ran := [];
      NonePass(map[], message);
      for k := 0 to |snapshot|
        invariant Lockstep() && ran == Passing(snapshot[..k], message) && |cancelled| >= |old(cancelled)|
        invariant View() == Dispatch(old(View()), snapshot, transaction, message, reactions, k)
        invariant forall h :: 0 <= h < |old(cancelled)| && old(cancelled)[h] ==> cancelled[h]
      {
        assert snapshot[..k + 1] == snapshot[..k] + [snapshot[k]];
        PassingMore(snapshot[..k], snapshot[k], message);
        if Passes(snapshot[k].filter, message) {
          ran := ran + [snapshot[k]];
          if k < |reactions| {
            Perform(reactions[k], To(transaction));
          }
        }
      }
      assert snapshot[..|snapshot|] == snapshot;
    }

    /** The actions of one reaction, in order; actions that are not possible are skipped. */
    method Perform(reaction: Reaction, sender: Sender)
      requires Lockstep()
      modifies this, dispatcher
      ensures Lockstep() && |cancelled| >= |old(cancelled)|
      ensures forall h :: 0 <= h < |old(cancelled)| && old(cancelled)[h] ==> cancelled[h]
      ensures View() == Through(old(View()), reaction, sender, |reaction.actions|)
      decreases reaction, 1
    {
      hide Alternating, IsActive, Ordered, After;
      for i := 0 to |reaction.actions|
        invariant Lockstep() && |cancelled| >= |old(cancelled)|
        invariant forall h :: 0 <= h < |old(cancelled)| && old(cancelled)[h] ==> cancelled[h]
        invariant View() == Through(old(View()), reaction, sender, i)
      {
        SenderMatters(View(), reaction.actions[i], sender);
        match reaction.actions[i]
        case Register(filter) =>
          var _ := RegisterHandler(filter);
        case Cancel(handle, inner) =>
          if handle < |cancelled| {
            CancelHandle(handle, inner);
          }
        case Receive(t, message, reactions) =>
          var _ := CallbackHandler(t, message, reactions);
        case Respond(response) =>
          if sender.To? {
            SendResponse(sender.transaction, response);
          }
      }
    }

    /** The sender's transaction is that of the request it was made for. */
    method SendResponse(transaction: nat, response: nat)
      requires Lockstep()
      modifies this`calls
      ensures Lockstep() && View() == After(old(View()), Respond(response), To(transaction))
    {
      CallMore(calls, SendMessage(transaction, response));
      calls := calls + [SendMessage(transaction, response)];
    }

    /** The destructor. */
    method Destroy()
      requires Lockstep()
      modifies this`calls
      ensures Alternating(calls) && !IsActive(calls)
      ensures calls == old(calls) + if handlerCount > 0 then [UnregisterCallback] else []
    {
      if handlerCount > 0 {
        CallMore(calls, UnregisterCallback);
        calls := calls + [UnregisterCallback];
      }
    }
  }

  /** The dispatcher's callbacks are the live registrations. */
  lemma LiveIsView(c: Connection)
    requires c.Lockstep()
    ensures c.dispatcher.Live() == Entries(c.View().places)
  {
    OrderedIsEntries(c.dispatcher.callbacks, c.View().places);
  }

  /** The counter is zero exactly when no registration is live. */
  lemma NoneLeft(c: Connection)
    requires c.dispatcher.Valid() && c.dispatcher.nextId == |c.cancelled| && c.handlerCount == |c.dispatcher.callbacks|
    ensures c.handlerCount == 0 <==> NoneLive(c.View().places)
  {
    var m, places := c.dispatcher.callbacks, c.View().places;
    if c.handlerCount == 0 {
      assert m.Keys == {};
    } else {
      assert m.Keys != {};
      var id :| id in m;
      assert places[id] == Live(m[id]);
    }
  }

  lemma OneLess(m: map<nat, Filter>, id: nat)
    requires id in m
    ensures |m| == |m - {id}| + 1
  {
    assert m.Keys == (m - {id}).Keys + {id};
  }

  /** Any run, however nested, and the destructor after it: registrations and their ends alternate. */
  method WholeLife(run: Reaction) returns (calls: seq<Call>)
    ensures Alternating(calls) && !IsActive(calls)
    ensures forall i :: 0 <= i < |calls| && calls[i].SendMessage? ==>
      Answers(run, Nobody, calls[i].transaction, calls[i].response)
  {
    var connection := new Connection();
    connection.Perform(run, Nobody);
    AnswersOfReaction(State([], []), run, Nobody, |run.actions|);
    connection.Destroy();
    calls := connection.calls;
  }
}
