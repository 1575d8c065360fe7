/**
 RequesterConnection: adapters for responses that are still due, by transaction id. Responses may
 arrive inside Send_Message_Async, and handlers may send again: a run is a tree of nested calls.
 */
module Requester {

  /**
   Send: `during` is what happens inside Send_Message_Async, which then accepts the request under a
   transaction id or refuses it. Answer: the transport delivers the response to an adapter, whose
   handler then does `reaction`. Adapters are numbered in the order of their creation.
   */
  datatype Event =
    | Send(during: Events, accepted: bool, transaction: nat)
    | Answer(adapter: nat, reaction: Events)

  datatype Events = Events(list: seq<Event>)

  // ---------------------------------------------------------------- what happens, whatever the connection keeps

  /**
   The transport and the call stack: adapters created, adapters in calls of send that have not
   returned, adapters whose handler is running, ids of the accepted requests by adapter, requests
   whose handler has returned, and the adapters in the order in which their handlers were called.
   */
  datatype World = World(
    sent: nat, frames: set<nat>, running: set<nat>, accepted: map<nat, nat>, answered: set<nat>, handled: seq<nat>) {

    /** The transport may still call the adapter. */
    predicate Due(a: nat) { a < sent && a !in answered && (a in frames || a in accepted) }

    /** Accepted, and no response has been handled. */
    predicate Open(a: nat) { a in accepted && a !in answered }

    /** The transport gives no id that an open request has. */
    predicate Unused(t: nat) { forall a :: a in accepted && Open(a) ==> accepted[a] != t }

    function Calling(): World { this.(sent := sent + 1, frames := frames + {sent}) }

    function Replied(a: nat, ok: bool, t: nat): World {
      this.(frames := frames - {a}, accepted := if ok then accepted[a := t] else accepted)
    }

    function Handling(a: nat): World { this.(running := running + {a}, handled := handled + [a]) }

    function Handled(a: nat): World { this.(running := running - {a}, answered := answered + {a}) }

    ghost predicate Ok() {
      && (forall a :: a in accepted ==> a < sent && a !in frames)
      && (forall a :: a in frames ==> a < sent)
      && (forall a :: a in running ==> Due(a))
      && (forall a :: a in answered ==> a < sent)
    }
  }

  const START: World := World(0, {}, {}, map[], {}, [])

  /** Responses that are not possible are skipped. */
  function After(w: World, e: Event): World
    decreases e, 1
  {
    match e
    case Send(during, ok, t) =>
      var v := Through(w.Calling(), during, |during.list|);
      v.Replied(w.sent, ok && v.Unused(t), t)
    case Answer(a, reaction) =>
      if !w.Due(a) || a in w.running then w
      else Through(w.Handling(a), reaction, |reaction.list|).Handled(a)
  }

  /** The first n events, in order. */
  function Through(w: World, events: Events, n: nat): World
    requires n <= |events.list|
    decreases events, 0, n
  {
    if n == 0 then w else After(Through(w, events, n - 1), events.list[n - 1])
  }

  /** What a step of the world leaves as it was. */
  ghost predicate Nests(w: World, v: World) {
    && v.Ok() && v.frames == w.frames && v.running == w.running && w.sent <= v.sent && w.handled <= v.handled
    && w.answered <= v.answered && w.accepted.Keys <= v.accepted.Keys
    && forall a :: a in w.accepted ==> v.accepted[a] == w.accepted[a]
  }

  /** Handlers that have been called are running or have returned, and were called once. */
  ghost predicate OneShot(w: World) {
    && (forall i :: 0 <= i < |w.handled| ==> w.handled[i] in w.running + w.answered)
    && (forall i, j :: 0 <= i < j < |w.handled| ==> w.handled[i] != w.handled[j])
    && (forall a :: a in w.running + w.answered ==> a in w.handled)
  }

  lemma {:induction false} AfterNests(w: World, e: Event)
    requires w.Ok() && OneShot(w)
    ensures Nests(w, After(w, e)) && OneShot(After(w, e))
    decreases e, 1
  {
    hide Through, OneShot, Nests;
    match e
    case Send(during, ok, t) =>
      CallingIsOk(w);
      ThroughNests(w.Calling(), during, |during.list|);
      ReplyNests(w, Through(w.Calling(), during, |during.list|), ok, t);
    case Answer(a, reaction) =>
      if w.Due(a) && a !in w.running {
        HandlingIsOneShot(w, a);
        ThroughNests(w.Handling(a), reaction, |reaction.list|);
        HandledNests(w, a, Through(w.Handling(a), reaction, |reaction.list|));
      } else {
        NestsItself(w);
      }
  }

  lemma NestsItself(w: World)
    requires w.Ok()
    ensures Nests(w, w)
  {
  }

  lemma CallingIsOk(w: World)
    requires w.Ok() && OneShot(w)
    ensures w.Calling().Ok() && OneShot(w.Calling())
  {
  }

  lemma ReplyNests(w: World, v: World, ok: bool, t: nat)
    requires w.Ok() && Nests(w.Calling(), v) && OneShot(v)
    ensures var r := v.Replied(w.sent, ok && v.Unused(t), t); Nests(w, r) && OneShot(r)
  {
  }

  lemma HandledNests(w: World, a: nat, v: World)
    requires w.Ok() && w.Due(a) && a !in w.running && Nests(w.Handling(a), v) && OneShot(v)
    ensures Nests(w, v.Handled(a)) && OneShot(v.Handled(a))
  {
  }

  lemma HandlingIsOneShot(w: World, a: nat)
    requires w.Ok() && OneShot(w) && w.Due(a) && a !in w.running
    ensures w.Handling(a).Ok() && OneShot(w.Handling(a))
  {
  }

  lemma {:induction false} ThroughNests(w: World, events: Events, n: nat)
    requires w.Ok() && OneShot(w) && n <= |events.list|
    ensures Nests(w, Through(w, events, n)) && OneShot(Through(w, events, n))
    decreases events, 0, n
  {
    hide After, OneShot;
    if n > 0 {
      ThroughNests(w, events, n - 1);
      AfterNests(Through(w, events, n - 1), events.list[n - 1]);
    }
  }

  /** In any run each handler is called once at most, and it has been exactly when its request is answered. */
  lemma HandledOnce(run: Events)
    ensures var w := Through(START, run, |run.list|);
      && w.frames == {} && w.running == {}
      && (forall i, j :: 0 <= i < j < |w.handled| ==> w.handled[i] != w.handled[j])
      && forall a :: a in w.answered <==> a in w.handled
  {
    hide Through;
    ThroughNests(START, run, |run.list|);
  }

  // ---------------------------------------------------------------- the connection

  class Connection {
    var pending: map<nat, nat>  // m_pendingCallbacks: adapters by transaction id
    var complete: seq<bool>     // m_complete of every adapter ever created
    var world: World            // what has happened; not the connection's to change

    /** Somebody holds the adapter: the map, or a call of send. */
    ghost predicate Alive(a: nat)
      reads this
    {
      a in world.frames || a in pending.Values
    }

    ghost predicate Valid()
      reads this
    {
      && world.Ok() && |complete| == world.sent
      && (forall t :: t in pending ==> pending[t] in world.accepted && world.accepted[pending[t]] == t)
      && (forall a :: a in world.accepted && !complete[a] ==>
           world.accepted[a] in pending && pending[world.accepted[a]] == a)
      && (forall a :: 0 <= a < |complete| ==> (complete[a] <==> a in world.answered))
    }

    /** Every adapter the transport may call is alive, those with a running handler among them. */
    lemma DueIsAlive(a: nat)
      requires Valid() && world.Due(a)
      ensures Alive(a) && !complete[a]
    {
      if a !in world.frames {
        assert pending[world.accepted[a]] in pending.Values;
      }
    }

    /** The incomplete entries of the map are exactly the accepted requests without an answer. */
    ghost predicate InStep()
      reads this
    {
      && (forall t :: t in pending && !IsComplete(pending[t]) ==>
           world.Open(pending[t]) && world.accepted[pending[t]] == t)
      && (forall a :: a in world.accepted && a !in world.answered ==>
           world.accepted[a] in pending && pending[world.accepted[a]] == a && !IsComplete(a))
    }

    ghost predicate IsComplete(a: nat)
      reads this
    {
      a < |complete| && complete[a]
    }

    /**
     The request is accepted exactly when the transport has accepted it, under an id that no other open
     request has; then the map has its adapter under that id, and otherwise nobody holds it any more.
     */
    ghost predicate Sent(mine: nat, ok: bool, transaction: nat)
      reads this
    {
      && (mine in world.accepted <==>
           ok && forall a :: a in world.accepted && world.Open(a) && a != mine ==> world.accepted[a] != transaction)
      && (mine in world.accepted ==>
           world.accepted[mine] == transaction &&
           (mine in world.answered || (transaction in pending && pending[transaction] == mine)))
      && (mine !in world.accepted ==> !Alive(mine))
    }

    constructor ()
      ensures Valid() && pending == map[] && complete == [] && world == START
    {
      pending, complete, world := map[], [], START;
    }

    /** Removes the adapters that are complete, and no others. */
    method CleanupCompleted()
      requires Valid()
      modifies this`pending
      ensures Valid()
      ensures pending == map t | t in old(pending) && !complete[old(pending)[t]] :: old(pending)[t]
    {
      var left := pending.Keys;
      while left != {}
        invariant left <= pending.Keys <= old(pending).Keys
        invariant forall t :: t in pending ==> pending[t] == old(pending)[t] && (t !in left ==> !complete[pending[t]])
        invariant forall t :: t in old(pending) && t !in pending ==> complete[old(pending)[t]]
        decreases |left|
      {
        var t :| t in left;
        left := left - {t};
        if complete[pending[t]] {
          pending := pending - {t};
        }
      }
    }

    /** After any run the map holds what is still due, and the world is as the events made it. */
    method Perform(events: Events)
      requires Valid()
      modifies this
      ensures Valid() && InStep() && world == Through(old(world), events, |events.list|)
      ensures world.frames == old(world).frames && world.running == old(world).running
      decreases events, 0
    {
      hide After;
      for i := 0 to |events.list|
        invariant Valid() && world == Through(old(world), events, i)
        invariant world.frames == old(world).frames && world.running == old(world).running
      {
        match events.list[i]
        case Send(during, ok, transaction) => SendRequest(during, ok, transaction);
        case Answer(adapter, reaction) =>
          if world.Due(adapter) && adapter !in world.running {
            CallbackHandler(adapter, reaction);
          } else {
            Skips(world, adapter, reaction);
          }
      }
    }

    /** send: the transport is called with a new adapter, which is stored after that call has returned. */
    method SendRequest(during: Events, ok: bool, transaction: nat)
      requires Valid()
      modifies this
      ensures Valid() && world == After(old(world), Send(during, ok, transaction))
      ensures world.frames == old(world).frames && world.running == old(world).running
      ensures forall a :: a in old(world).running ==> Alive(a)
      ensures Sent(|old(complete)|, ok, transaction)
      decreases during, 2
    {
      hide InStep, Sent;
      CleanupCompleted();
      var adapter := |complete|;
      complete := complete + [false];
      world := world.Calling();
      Perform(during);
      Returns(adapter, ok, transaction);
      forall a | a in old(world).running
        ensures Alive(a)
      {
        DueIsAlive(a);
      }
    }

    /** The transport's call returns, and the adapter is stored or dropped. */
    method Returns(adapter: nat, ok: bool, transaction: nat)
      requires Valid() && adapter in world.frames && adapter !in world.running
      modifies this`pending, this`world
      ensures Valid() && world == old(world).Replied(adapter, ok && old(world).Unused(transaction), transaction)
      ensures Sent(adapter, ok, transaction)
    {
      var accepted := ok && world.Unused(transaction);
      world := world.Replied(adapter, accepted, transaction);
      Store(adapter, accepted, transaction);
    }

    /** What follows the transport's call. */
    method Store(adapter: nat, accepted: bool, transaction: nat)
      modifies this`pending
      ensures pending == if accepted then old(pending)[transaction := adapter] else old(pending)
    {
      if accepted {
        pending := pending[transaction := adapter];
      }
    }

    /**
     Storing under any id at all: a request that is still unanswered keeps its adapter exactly when
     the new id is not its own.
     */
    method StoreAnyway(adapter: nat, transaction: nat)
      requires Valid() && adapter in world.frames
      modifies this`pending
      ensures pending == old(pending)[transaction := adapter]
      ensures forall a :: a in world.accepted && world.Open(a) ==> (Alive(a) <==> world.accepted[a] != transaction)
    {
      Store(adapter, true, transaction);
      forall a | a in world.accepted && world.Open(a)
        ensures Alive(a) <==> world.accepted[a] != transaction
      {
        if world.accepted[a] != transaction {
          assert pending[world.accepted[a]] == a;
        } else {
          assert forall t :: t in pending ==> pending[t] != a;
        }
      }
    }

    /** The handler of a response does all of its reaction; when it returns somebody still holds the adapter. */
    method RunHandler(adapter: nat, reaction: Events)
      requires Valid() && adapter in world.running
      modifies this
      ensures Valid() && world == Through(old(world), reaction, |reaction.list|)
      ensures world.frames == old(world).frames && world.running == old(world).running
      ensures world.Due(adapter) && Alive(adapter) && !complete[adapter]
      decreases reaction, 2
    {
      Perform(reaction);
      DueIsAlive(adapter);
    }

    /** AsyncCallbackAdapter::Callback_Handler: the adapter is complete only after its handler has returned. */
    method CallbackHandler(adapter: nat, reaction: Events)
      requires Valid() && world.Due(adapter) && adapter !in world.running
      modifies this
      ensures Valid() && world == After(old(world), Answer(adapter, reaction))
      ensures world.frames == old(world).frames && world.running == old(world).running
      ensures adapter in world.answered && complete[adapter]
      decreases reaction, 3
    {
      world := world.Handling(adapter);
      RunHandler(adapter, reaction);
      complete := complete[adapter := true];
      world := world.Handled(adapter);
    }
  }

  lemma Skips(w: World, a: nat, reaction: Events)
    requires !w.Due(a) || a in w.running
    ensures After(w, Answer(a, reaction)) == w
  {
  }
}
