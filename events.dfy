// The game's events (CollisionEvent, KeyPressedEvent and
// src/Events/ShootProjectileEvent.h). The bus keys its handler lists by the
// event's C++ type; here that type is the tag `EventType`.

module Events {
  import opened Entities

  datatype EventType = Collision | KeyPressed | ShootProjectile

  /** An event as built from `EmitEvent`'s arguments. A `ShootProjectileEvent`
      only carries a reference to the registry, which its handler already has
      in this model. */
  datatype Event =
    | CollisionEvent(a: Entity, b: Entity)
    | KeyPressedEvent(symbol: int)
    | ShootProjectileEvent

  /** The tag an event is emitted under. */
  function TypeOf(e: Event): EventType
  {
    match e
    case CollisionEvent(_, _) => Collision
    case KeyPressedEvent(_) => KeyPressed
    case ShootProjectileEvent => ShootProjectile
  }
}
