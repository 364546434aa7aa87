// The typed event bus (src/EventBus/EventBus.h). Handlers are opaque ids
// standing for `EventCallBack` objects (an owner and a member function);
// calling one is recorded as an `Invocation` in the trace `EmitEvent`
// returns, in the order the handlers run.

module EventBuses {

  /** The value of `m_subscribers[type]`: a null pointer, which `operator[]`
      leaves behind for a type never subscribed to, or a handler list. */
  datatype HandlerList<H> = Null | List(handlers: seq<H>)

  /** One handler called with one event object. */
  datatype Invocation<H, E> = Invocation(handler: H, event: E)

  /** The handlers an `EmitEvent` of type `t` would call, in order. */
  function Handlers<T, H>(subs: map<T, HandlerList<H>>, t: T): seq<H>
  {
    if t in subs && subs[t].List? then subs[t].handlers else []
  }

  /** The map after `SubscribeToEvent<t>(h)`: `operator[]` creates the entry,
      a null entry gets an empty list, and `h` goes to the back. */
  function Subscribed<T(!new), H>(subs: map<T, HandlerList<H>>, t: T, h: H): (r: map<T, HandlerList<H>>)
    ensures Handlers(r, t) == Handlers(subs, t) + [h]
    ensures forall u :: u != t ==> Handlers(r, u) == Handlers(subs, u)
    ensures r.Keys == subs.Keys + {t}
  {
    subs[t := List(Handlers(subs, t) + [h])]
  }

  /** The map after `EmitEvent<t>`: `operator[]` inserts a null entry for a
      type nobody subscribed to; no handler list changes. */
  function Touched<T(!new), H>(subs: map<T, HandlerList<H>>, t: T): (r: map<T, HandlerList<H>>)
    ensures forall u :: Handlers(r, u) == Handlers(subs, u)
    ensures t in r && r.Keys == subs.Keys + {t}
  {
    if t in subs then subs else subs[t := Null]
  }

  /** The calls `EmitEvent` makes: each handler in turn, each with an event
      built afresh from the same arguments, here the value `e`. */
  function Trace<H, E>(hs: seq<H>, e: E): seq<Invocation<H, E>>
  {
    if hs == [] then [] else Trace(hs[..|hs| - 1], e) + [Invocation(hs[|hs| - 1], e)]
  }

  /** The handlers of a trace, in call order. */
  function Called<H, E>(trace: seq<Invocation<H, E>>): seq<H>
  {
    if trace == [] then [] else Called(trace[..|trace| - 1]) + [trace[|trace| - 1].handler]
  }

  /** `EmitEvent` calls exactly the subscribed handlers, in subscription
      order, a handler subscribed twice twice. */
  lemma {:induction false} TraceCallsHandlers<H, E>(hs: seq<H>, e: E)
    ensures Called(Trace(hs, e)) == hs
    decreases |hs|
  {
    if hs != [] {
      var init := Trace(hs[..|hs| - 1], e);
      var last := Invocation(hs[|hs| - 1], e);
      assert (init + [last])[..|init + [last]| - 1] == init;
      TraceCallsHandlers(hs[..|hs| - 1], e);
      assert hs == hs[..|hs| - 1] + [hs[|hs| - 1]];
    }
  }

  /** Every handler receives its own event built from the emitted arguments,
      whatever the handlers before it did with theirs. */
  lemma {:induction false} TraceEvents<H, E>(hs: seq<H>, e: E)
    ensures |Trace(hs, e)| == |hs|
    ensures forall i :: 0 <= i < |hs| ==> Trace(hs, e)[i] == Invocation(hs[i], e)
    decreases |hs|
  {
    if hs != [] {
      TraceEvents(hs[..|hs| - 1], e);
    }
  }

  /** Emitting a type no one subscribed to calls nothing, and the null entry
      it leaves makes no difference to any later subscription. */
  lemma NullEntryHarmless<T(!new), H>(subs: map<T, HandlerList<H>>, t: T, u: T, h: H)
    requires t !in subs
    ensures Handlers(Touched(subs, t), t) == []
    ensures forall v :: Handlers(Subscribed(Touched(subs, t), u, h), v) == Handlers(Subscribed(subs, u, h), v)
  {
    forall v
      ensures Handlers(Subscribed(Touched(subs, t), u, h), v) == Handlers(Subscribed(subs, u, h), v)
    {
      if v != u {
        assert Handlers(Touched(subs, t), v) == Handlers(subs, v);
      }
    }
  }

  /** `class EventBus`. */
  class EventBus<T(==, !new), H> {
    /** `m_subscribers`. */
    var subscribers: map<T, HandlerList<H>>

    constructor ()
      ensures subscribers == map[]
    {
      subscribers := map[];
    }

    /** `EventBus::ClearSubscribers`: afterwards every emit calls nothing. */
    method ClearSubscribers()
      modifies this
      ensures subscribers == map[]
      ensures forall t :: Handlers(subscribers, t) == []
    {
      subscribers := map[];
    }

    /** `EventBus::SubscribeToEvent<t>(h)`. */
    method SubscribeToEvent(t: T, h: H)
      modifies this
      ensures subscribers == Subscribed(old(subscribers), t, h)
    {
      if t !in subscribers || subscribers[t].Null? {
        subscribers := subscribers[t := List([])];
      }
      subscribers := subscribers[t := List(subscribers[t].handlers + [h])];
    }

    /** `EventBus::EmitEvent<t>(args)`, with `e` the event the arguments
        build: the handlers of `t` are called in order, none changes. */
    method EmitEvent<E>(t: T, e: E) returns (trace: seq<Invocation<H, E>>)
      modifies this
      ensures subscribers == Touched(old(subscribers), t)
      ensures trace == Trace(Handlers(old(subscribers), t), e)
    {
      if t !in subscribers {
        subscribers := subscribers[t := Null];
      }
      var handlers := subscribers[t];
      trace := [];
      if handlers.List? {
        var hs := handlers.handlers;
        var i := 0;
        while i < |hs|
          invariant 0 <= i <= |hs|
          invariant trace == Trace(hs[..i], e)
        {
          assert hs[..i + 1][..i] == hs[..i];
          trace := trace + [Invocation(hs[i], e)];
          i := i + 1;
        }
        assert hs[..i] == hs;
      }
    }
  }
}
