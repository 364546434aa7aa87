// The per-frame subscriptions of `Game::Update` (src/Game/Game.cpp): the
// bus is cleared and each of the three event-driven systems subscribes its
// handler again, so every frame starts with exactly one handler per event
// type, whatever the previous frame left behind.

module GameFrame {
  import opened EventBuses
  import opened Events

  /** The member functions the systems subscribe. */
  datatype Handler = DamageOnCollision | KeyboardOnKeyPressed | EmitterOnShoot

  /** The handler subscribed to each event type. */
  function HandlerFor(t: EventType): Handler
  {
    match t
    case Collision => DamageOnCollision
    case KeyPressed => KeyboardOnKeyPressed
    case ShootProjectile => EmitterOnShoot
  }

  /** The subscriber map after the three subscriptions on an empty bus. */
  function FrameSubscribers(): map<EventType, HandlerList<Handler>>
  {
    Subscribed(Subscribed(Subscribed(map[], Collision, DamageOnCollision),
                          KeyPressed, KeyboardOnKeyPressed), ShootProjectile, EmitterOnShoot)
  }

  /** After the frame's subscriptions each event type has its one handler. */
  lemma FrameHandlers()
    ensures forall t :: Handlers(FrameSubscribers(), t) == [HandlerFor(t)]
  {
    var s1 := Subscribed(map[], Collision, DamageOnCollision);
    var s2 := Subscribed(s1, KeyPressed, KeyboardOnKeyPressed);
    assert forall t :: Handlers(s2, t) == (if t == ShootProjectile then [] else [HandlerFor(t)]);
  }

  /** An event emitted during a frame reaches exactly the handler of its
      type, once, with the event as built. */
  lemma FrameDispatch(e: Event)
    ensures Trace(Handlers(FrameSubscribers(), TypeOf(e)), e) == [Invocation(HandlerFor(TypeOf(e)), e)]
  {
    FrameHandlers();
    TraceEvents(Handlers(FrameSubscribers(), TypeOf(e)), e);
  }

  /** The start of `Game::Update`: `ClearSubscribers` and the three
      `SubscribeTo...` calls, on a bus in any state. */
  method SubscribeFrame(bus: EventBus<EventType, Handler>)
    modifies bus
    ensures bus.subscribers == FrameSubscribers()
    ensures forall t :: Handlers(bus.subscribers, t) == [HandlerFor(t)]
  {
    bus.ClearSubscribers();
    bus.SubscribeToEvent(Collision, DamageOnCollision);
    bus.SubscribeToEvent(KeyPressed, KeyboardOnKeyPressed);
    bus.SubscribeToEvent(ShootProjectile, EmitterOnShoot);
    FrameHandlers();
  }
}
