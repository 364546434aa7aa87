// ProjectileEmitSystem (src/Systems/ProjectileEmitSystem.h): emitters fire
// a projectile when their rate of fire allows it, hostile ones on every
// frame and the player's when the space bar is pressed. The projectile the
// source creates through the registry is returned as a `Spawn`, the list of
// components it is given; the "player" tag is given as a set of ids.

module ProjectileEmitSystem {
  import opened Entities
  import opened GameComponents

  datatype Option<T> = None | Some(value: T)

  /** A projectile entity to create: its group and its components. */
  datatype Spawn = Spawn(group: string, transform: Transform, body: RigidBody, sprite: Sprite,
                         collider: BoxCollider, projectile: Projectile)

  /** The components the emitter reads besides its own; `sprites` holds the
      entities that have a SpriteComponent. */
  datatype Scene = Scene(transforms: map<nat, Transform>, bodies: map<nat, RigidBody>, sprites: map<nat, Sprite>)

  /** The entity and components `ShootProjectile` creates. */
  function ProjectileSpawn(emitter: ProjectileEmitter, position: Vec2, velocity: Vec2, now: Uint32): Spawn
  {
    Spawn("projectiles", Transform(position, Vec2(1.0, 1.0), 0.0), RigidBody(velocity),
          NewSprite("bullet-texture", 4, 4, 0, 0, 4, false), NewBoxCollider(4, 4, Vec2(0.0, 0.0)),
          NewProjectile(emitter.isFriendly, emitter.hitPercentDamage, emitter.projectileDuration, now))
  }

  /** The fire-rate gate: more milliseconds since the last shot than the
      rate of fire, both compared as 32-bit `int`s. */
  predicate ReadyToFire(now: Uint32, emitter: ProjectileEmitter)
  {
    Elapsed(now, emitter.lastEmissionTime) > emitter.projectileRateOfFire
  }

  /** `ShootProjectile`: the emitter as updated and the projectile created,
      if any. */
  function Shoot(now: Uint32, emitter: ProjectileEmitter, position: Vec2, velocity: Vec2)
    : (r: (ProjectileEmitter, Option<Spawn>))
    ensures r.1.Some? <==> ReadyToFire(now, emitter)
    ensures !ReadyToFire(now, emitter) ==> r.0 == emitter
    ensures ReadyToFire(now, emitter) ==>
      && r.0 == emitter.(lastEmissionTime := ToInt32(now))
      && r.1.value.group == "projectiles"
      && r.1.value.transform.position == position
      && r.1.value.body.velocity == velocity
      && r.1.value.projectile.isFriendly == emitter.isFriendly
      && r.1.value.projectile.hitPercentDamage == emitter.hitPercentDamage
      && r.1.value.projectile.duration == emitter.projectileDuration
  {
    if ReadyToFire(now, emitter)
    then (emitter.(lastEmissionTime := ToInt32(now)), Some(ProjectileSpawn(emitter, position, velocity, now)))
    else (emitter, None)
  }

  /** Having fired at `now`, an emitter with a non-negative rate of fire does
      not fire again at the same tick. */
  lemma NoSecondShot(now: Uint32, emitter: ProjectileEmitter, position: Vec2, velocity: Vec2,
                     position': Vec2, velocity': Vec2)
    requires emitter.projectileRateOfFire >= 0
    ensures Shoot(now, Shoot(now, emitter, position, velocity).0, position', velocity').1 == None
  {
    ElapsedSinceNow(now);
  }

  /** With ticks below 2^31 the gate is the plain comparison of the time
      since the last shot with the rate of fire. */
  lemma ReadyToFireExact(now: Uint32, emitter: ProjectileEmitter)
    requires 0 <= emitter.lastEmissionTime <= now < TwoTo31
    ensures ReadyToFire(now, emitter) <==> now - emitter.lastEmissionTime > emitter.projectileRateOfFire
  {
    ElapsedExact(now, emitter.lastEmissionTime);
  }

  /** `CenterProjectile`: the entity's position, moved by half its scaled
      sprite size when it has a sprite. */
  function CenterProjectile(transform: Transform, sprite: Option<Sprite>): (r: Vec2)
    ensures sprite.None? ==> r == transform.position
    ensures sprite.Some? ==> 2.0 * r.x == 2.0 * transform.position.x + transform.scale.x * sprite.value.width as real
    ensures sprite.Some? ==> 2.0 * r.y == 2.0 * transform.position.y + transform.scale.y * sprite.value.height as real
    ensures sprite.Some? && transform.scale.x >= 0.0 && sprite.value.width >= 0 ==> r.x >= transform.position.x
    ensures sprite.Some? && transform.scale.y >= 0.0 && sprite.value.height >= 0 ==> r.y >= transform.position.y
  {
    match sprite
    case None => transform.position
    case Some(s) =>
      Vec2(transform.position.x + (transform.scale.x * s.width as real) / 2.0,
           transform.position.y + (transform.scale.y * s.height as real) / 2.0)
  }

  function SpriteOf(scene: Scene, id: nat): Option<Sprite>
  {
    if id in scene.sprites then Some(scene.sprites[id]) else None
  }

  /** The direction `OnShoot` takes on one axis: the sign of the velocity. */
  function Sign(v: real): (r: int)
    ensures r in {-1, 0, 1}
    ensures r == 1 <==> v > 0.0
    ensures r == -1 <==> v < 0.0
  {
    if v > 0.0 then 1 else if v < 0.0 then -1 else 0
  }

  /** The player's projectile velocity: the emitter's speed in the direction
      the player moves, plus the player's own velocity. */
  function Aim(emitter: ProjectileEmitter, body: RigidBody): (r: Vec2)
    ensures body.velocity.x == 0.0 ==> r.x == 0.0
    ensures body.velocity.y == 0.0 ==> r.y == 0.0
    ensures body.velocity.x > 0.0 ==> r.x == body.velocity.x + emitter.projectileVelocity.x
    ensures body.velocity.x < 0.0 ==> r.x == body.velocity.x - emitter.projectileVelocity.x
    ensures body.velocity.y > 0.0 ==> r.y == body.velocity.y + emitter.projectileVelocity.y
    ensures body.velocity.y < 0.0 ==> r.y == body.velocity.y - emitter.projectileVelocity.y
  {
    Vec2(emitter.projectileVelocity.x * Sign(body.velocity.x) as real + body.velocity.x,
         emitter.projectileVelocity.y * Sign(body.velocity.y) as real + body.velocity.y)
  }

  /** Emitters, written through references, and projectiles created so far. */
  datatype Volley = Volley(emitters: map<nat, ProjectileEmitter>, spawns: seq<Spawn>)

  /** One `ShootProjectile` call for entity `id`. */
  function Fire(now: Uint32, id: nat, position: Vec2, velocity: Vec2, v: Volley): (r: Volley)
    requires id in v.emitters
    ensures r.emitters.Keys == v.emitters.Keys
    ensures forall k :: k in v.emitters && k != id ==> r.emitters[k] == v.emitters[k]
    ensures r.emitters[id].isFriendly == v.emitters[id].isFriendly
    ensures |v.spawns| <= |r.spawns| <= |v.spawns| + 1 && r.spawns[..|v.spawns|] == v.spawns
    ensures |r.spawns| == |v.spawns| + 1 ==> r.spawns[|v.spawns|].projectile.isFriendly == v.emitters[id].isFriendly
  {
    var shot := Shoot(now, v.emitters[id], position, velocity);
    Volley(v.emitters[id := shot.0], v.spawns + (if shot.1.Some? then [shot.1.value] else []))
  }

  predicate Present(entities: seq<Entity>, scene: Scene, emitters: map<nat, ProjectileEmitter>)
  {
    forall e :: e in entities ==> e.id in emitters && e.id in scene.transforms && e.id in scene.bodies
  }

  /** The volley of `Update` over `entities`: every hostile emitter shoots
      from its centre with its own velocity plus its body's. */
  function Barrage(now: Uint32, entities: seq<Entity>, scene: Scene, v: Volley): (r: Volley)
    requires Present(entities, scene, v.emitters)
    ensures r.emitters.Keys == v.emitters.Keys
  {
    if entities == [] then v
    else
      var e := entities[|entities| - 1];
      assert e in entities;
      assert forall x :: x in entities[..|entities| - 1] ==> x in entities;
      var before := Barrage(now, entities[..|entities| - 1], scene, v);
      var emitter := before.emitters[e.id];
      if !emitter.isFriendly then
        Fire(now, e.id, CenterProjectile(scene.transforms[e.id], SpriteOf(scene, e.id)),
             Add(emitter.projectileVelocity, scene.bodies[e.id].velocity), before)
      else before
  }

  /** `Update` never fires a friendly emitter: friendly emitters are left as
      they were and every projectile created is hostile. */
  lemma {:induction false} BarrageHostileOnly(now: Uint32, entities: seq<Entity>, scene: Scene, v: Volley)
    requires Present(entities, scene, v.emitters)
    ensures var r := Barrage(now, entities, scene, v);
      && (forall id :: id in v.emitters && v.emitters[id].isFriendly ==> r.emitters[id] == v.emitters[id])
      && (forall id :: id in v.emitters ==> r.emitters[id].isFriendly == v.emitters[id].isFriendly)
      && |v.spawns| <= |r.spawns| && r.spawns[..|v.spawns|] == v.spawns
      && (forall i :: |v.spawns| <= i < |r.spawns| ==> !r.spawns[i].projectile.isFriendly)
    decreases |entities|
  {
    if entities != [] {
      var init := entities[..|entities| - 1];
      assert forall x :: x in init ==> x in entities;
      BarrageHostileOnly(now, init, scene, v);
      var before := Barrage(now, init, scene, v);
      var r := Barrage(now, entities, scene, v);
      assert r.spawns[..|before.spawns|] == before.spawns;
      assert r.spawns[..|v.spawns|] == before.spawns[..|v.spawns|];
    }
  }

  /** The volley of `OnShoot` over `entities`: every entity tagged "player"
      shoots from its centre in the direction it moves. */
  function Volleys(now: Uint32, entities: seq<Entity>, players: set<nat>, scene: Scene, v: Volley): (r: Volley)
    requires Present(entities, scene, v.emitters)
    ensures r.emitters.Keys == v.emitters.Keys
  {
    if entities == [] then v
    else
      var e := entities[|entities| - 1];
      assert e in entities;
      assert forall x :: x in entities[..|entities| - 1] ==> x in entities;
      var before := Volleys(now, entities[..|entities| - 1], players, scene, v);
      if e.id in players then
        Fire(now, e.id, CenterProjectile(scene.transforms[e.id], SpriteOf(scene, e.id)),
             Aim(before.emitters[e.id], scene.bodies[e.id]), before)
      else before
  }

  /** `OnShoot` only fires for the player: other emitters are left as they
      were, and without a player in the list nothing is created. */
  lemma {:induction false} VolleysPlayersOnly(now: Uint32, entities: seq<Entity>, players: set<nat>, scene: Scene, v: Volley)
    requires Present(entities, scene, v.emitters)
    ensures var r := Volleys(now, entities, players, scene, v);
      && (forall id :: id in v.emitters && id !in players ==> r.emitters[id] == v.emitters[id])
      && ((forall e :: e in entities ==> e.id !in players) ==> r.spawns == v.spawns)
    decreases |entities|
  {
    if entities != [] {
      var init := entities[..|entities| - 1];
      assert forall x :: x in init ==> x in entities;
      VolleysPlayersOnly(now, init, players, scene, v);
    }
  }

  /** `ShootProjectile(entity, registry, position, velocity)` at tick `now`
      on the emitter of the entity. */
  method ShootProjectile(now: Uint32, emitter: ProjectileEmitter, position: Vec2, velocity: Vec2)
    returns (emitter': ProjectileEmitter, spawn: Option<Spawn>)
    ensures (emitter', spawn) == Shoot(now, emitter, position, velocity)
  {
    emitter' := emitter;
    spawn := None;
    if Elapsed(now, emitter.lastEmissionTime) > emitter.projectileRateOfFire {
      spawn := Some(ProjectileSpawn(emitter, position, velocity, now));
      emitter' := emitter'.(lastEmissionTime := ToInt32(now));
    }
  }

  /** The loop body of `Update` for a hostile emitter. */
  method HostileShot(now: Uint32, id: nat, scene: Scene, v: Volley) returns (v': Volley)
    requires id in v.emitters && id in scene.transforms && id in scene.bodies
    ensures v' == Fire(now, id, CenterProjectile(scene.transforms[id], SpriteOf(scene, id)),
                       Add(v.emitters[id].projectileVelocity, scene.bodies[id].velocity), v)
  {
    var body := scene.bodies[id];
    var emitter := v.emitters[id];
    var position := CenterProjectile(scene.transforms[id], SpriteOf(scene, id));
    var emitter', spawn := ShootProjectile(now, emitter, position, Add(emitter.projectileVelocity, body.velocity));
    v' := Volley(v.emitters[id := emitter'], v.spawns + (if spawn.Some? then [spawn.value] else []));
  }

  /** `ProjectileEmitSystem::Update(registry)` at tick `now`. */
  method Update(now: Uint32, entities: seq<Entity>, scene: Scene, emitters: map<nat, ProjectileEmitter>)
    returns (v: Volley)
    requires Present(entities, scene, emitters)
    ensures v == Barrage(now, entities, scene, Volley(emitters, []))
    ensures forall id :: id in emitters && emitters[id].isFriendly ==> v.emitters[id] == emitters[id]
    ensures forall s :: s in v.spawns ==> !s.projectile.isFriendly && s.group == "projectiles"
  {
    v := Volley(emitters, []);
    var i := 0;
    while i < |entities|
      invariant 0 <= i <= |entities|
      invariant Present(entities[..i], scene, emitters)
      invariant v == Barrage(now, entities[..i], scene, Volley(emitters, []))
      invariant forall s :: s in v.spawns ==> s.group == "projectiles"
    {
      var e := entities[i];
      assert entities[..i + 1][..i] == entities[..i];
      assert e in entities;
      if !v.emitters[e.id].isFriendly {
        v := HostileShot(now, e.id, scene, v);
      }
      i := i + 1;
    }
    assert entities[..i] == entities;
    BarrageHostileOnly(now, entities, scene, Volley(emitters, []));
  }

  /** The loop body of `OnShoot` for the player: the direction is the sign
      of the body's velocity on each axis. */
  method PlayerShot(now: Uint32, id: nat, scene: Scene, v: Volley) returns (v': Volley)
    requires id in v.emitters && id in scene.transforms && id in scene.bodies
    ensures v' == Fire(now, id, CenterProjectile(scene.transforms[id], SpriteOf(scene, id)),
                       Aim(v.emitters[id], scene.bodies[id]), v)
  {
    var body := scene.bodies[id];
    var emitter := v.emitters[id];
    var position := CenterProjectile(scene.transforms[id], SpriteOf(scene, id));
    var directionX := 0;
    var directionY := 0;
    if body.velocity.x > 0.0 { directionX := 1; }
    if body.velocity.x < 0.0 { directionX := -1; }
    if body.velocity.y > 0.0 { directionY := 1; }
    if body.velocity.y < 0.0 { directionY := -1; }
    var velocity := Vec2(emitter.projectileVelocity.x * directionX as real + body.velocity.x,
                         emitter.projectileVelocity.y * directionY as real + body.velocity.y);
    assert velocity == Aim(emitter, body);
    var emitter', spawn := ShootProjectile(now, emitter, position, velocity);
    v' := Volley(v.emitters[id := emitter'], v.spawns + (if spawn.Some? then [spawn.value] else []));
  }

  /** `ProjectileEmitSystem::OnShoot(event)` at tick `now`. */
  method OnShoot(now: Uint32, entities: seq<Entity>, players: set<nat>, scene: Scene,
                 emitters: map<nat, ProjectileEmitter>)
    returns (v: Volley)
    requires Present(entities, scene, emitters)
    ensures v == Volleys(now, entities, players, scene, Volley(emitters, []))
    ensures forall id :: id in emitters && id !in players ==> v.emitters[id] == emitters[id]
    ensures (forall e :: e in entities ==> e.id !in players) ==> v.spawns == []
  {
    v := Volley(emitters, []);
    var i := 0;
    while i < |entities|
      invariant 0 <= i <= |entities|
      invariant Present(entities[..i], scene, emitters)
      invariant v == Volleys(now, entities[..i], players, scene, Volley(emitters, []))
    {
      var e := entities[i];
      assert entities[..i + 1][..i] == entities[..i];
      assert e in entities;
      if e.id in players {
        v := PlayerShot(now, e.id, scene, v);
      }
      i := i + 1;
    }
    assert entities[..i] == entities;
    VolleysPlayersOnly(now, entities, players, scene, Volley(emitters, []));
  }
}
