// The component records the systems read and write
// (src/Components/*.h), and the C++ arithmetic the systems rely on: SDL's
// Uint32 millisecond ticks stored in `int` fields, truncating integer
// division and float-to-int conversion. `glm::vec2` coordinates are reals:
// float rounding is not modelled.

module GameComponents {

  datatype Vec2 = Vec2(x: real, y: real)

  function Add(a: Vec2, b: Vec2): Vec2
  {
    Vec2(a.x + b.x, a.y + b.y)
  }

  /** TransformComponent (its header is not part of this model; the fields
      are the ones the systems use). */
  datatype Transform = Transform(position: Vec2, scale: Vec2, rotation: real)

  datatype RigidBody = RigidBody(velocity: Vec2)

  /** SDL_Rect. */
  datatype Rect = Rect(x: int, y: int, w: int, h: int)

  datatype Sprite = Sprite(assetId: string, width: int, height: int, srcRect: Rect, zIndex: int, isFixed: bool)

  /** `SpriteComponent(assetId, width, height, srcRectX, srcRectY, zIndex,
      isFixed)`: the source rectangle is as large as the sprite. */
  function NewSprite(assetId: string, width: int, height: int, srcRectX: int, srcRectY: int,
                     zIndex: int, isFixed: bool): Sprite
  {
    Sprite(assetId, width, height, Rect(srcRectX, srcRectY, width, height), zIndex, isFixed)
  }

  datatype BoxCollider = BoxCollider(width: int, height: int, offset: Vec2, isColliding: bool)

  /** `BoxColliderComponent(width, height, offset)`: not colliding yet. */
  function NewBoxCollider(width: int, height: int, offset: Vec2): BoxCollider
  {
    BoxCollider(width, height, offset, false)
  }

  datatype Health = Health(healthPercentage: int)

  datatype ProjectileEmitter = ProjectileEmitter(
    projectileVelocity: Vec2,
    projectileRateOfFire: int,
    projectileDuration: int,
    isFriendly: bool,
    hitPercentDamage: int,
    lastEmissionTime: int)

  /** `ProjectileEmitterComponent(velocity, rateOfFire, duration, damage,
      isFriendly)` built at tick `now`: it counts as having just fired. */
  function NewProjectileEmitter(projectileVelocity: Vec2, projectileRateOfFire: int, projectileDuration: int,
                                hitPercentDamage: int, isFriendly: bool, now: Uint32): ProjectileEmitter
  {
    ProjectileEmitter(projectileVelocity, projectileRateOfFire, projectileDuration, isFriendly,
                      hitPercentDamage, ToInt32(now))
  }

  /** ProjectileComponent (its header is not part of this model): built from
      the emitter's `isFriendly`, `hitPercentDamage` and duration, and
      stamped with the tick it was created at. */
  datatype Projectile = Projectile(isFriendly: bool, hitPercentDamage: int, duration: int, startTime: int)

  function NewProjectile(isFriendly: bool, hitPercentDamage: int, duration: int, now: Uint32): Projectile
  {
    Projectile(isFriendly, hitPercentDamage, duration, ToInt32(now))
  }

  /** KeyboardControlledComponent (its header is not part of this model):
      the velocity for each of the four directions. */
  datatype KeyboardControlled = KeyboardControlled(upVelocity: Vec2, rightVelocity: Vec2,
                                                   downVelocity: Vec2, leftVelocity: Vec2)

  const TwoTo32: int := 0x1_0000_0000
  const TwoTo31: int := 0x8000_0000

  /** A value of `SDL_GetTicks()`. */
  type Uint32 = n: int | 0 <= n < TwoTo32

  /** An `int` converted to `Uint32` (reduction modulo 2^32). */
  function ToUint32(n: int): (r: Uint32)
    ensures (r - n) % TwoTo32 == 0
  {
    n % TwoTo32
  }

  /** A `Uint32` converted to a 32-bit `int` (two's complement). */
  function ToInt32(u: Uint32): (r: int)
    ensures -TwoTo31 <= r < TwoTo31
    ensures (r - u) % TwoTo32 == 0
  {
    if u < TwoTo31 then u else u - TwoTo32
  }

  /** `(int)(SDL_GetTicks() - since)` for an `int` field `since`: the
      subtraction is done on Uint32 and wraps, the cast reinterprets. */
  function Elapsed(now: Uint32, since: int): int
  {
    ToInt32(ToUint32(now - since))
  }

  /** Without wrap-around the elapsed time is the plain difference. */
  lemma ElapsedExact(now: Uint32, since: int)
    requires 0 <= since <= now < TwoTo31
    ensures Elapsed(now, since) == now - since
  {
  }

  /** A stamp taken at `now` is zero milliseconds old at `now`, whatever the
      wrap-around. */
  lemma ElapsedSinceNow(now: Uint32)
    ensures Elapsed(now, ToInt32(now)) == 0
  {
    var s := ToInt32(now);
    assert now - s == 0 || now - s == TwoTo32;
  }

  /** C's `/` on `int`, which truncates toward zero. */
  function CDiv(a: int, b: int): (r: int)
    requires b > 0
    ensures a >= 0 ==> 0 <= a - r * b < b
    ensures a < 0 ==> -b < a - r * b <= 0
  {
    if a >= 0 then a / b else -((-a) / b)
  }

  /** A float converted to `int`: truncation toward zero (out-of-range values
      are undefined behaviour in C++ and are not modelled). */
  function Trunc(x: real): (r: int)
    ensures x >= 0.0 ==> r as real <= x < r as real + 1.0
    ensures x < 0.0 ==> r as real - 1.0 < x <= r as real
  {
    if x >= 0.0 then x.Floor else -((-x).Floor)
  }
}
