// ProjectileLifeCycleSystem (src/Systems/ProjectileLifeCycleSystem.h):
// projectiles older than their duration are queued for killing.

module ProjectileLifeCycleSystem {
  import opened Entities
  import opened GameComponents

  /** `(int)(SDL_GetTicks() - startTime) > (int)duration`. */
  predicate Expired(now: Uint32, p: Projectile)
  {
    Elapsed(now, p.startTime) > p.duration
  }

  /** With ticks below 2^31 the test is the plain age comparison. */
  lemma ExpiredExact(now: Uint32, p: Projectile)
    requires 0 <= p.startTime <= now < TwoTo31
    ensures Expired(now, p) <==> now - p.startTime > p.duration
  {
    ElapsedExact(now, p.startTime);
  }

  /** A projectile is never expired at the tick it was stamped with, unless
      its duration is negative. */
  lemma FreshNotExpired(now: Uint32, p: Projectile)
    requires p.startTime == ToInt32(now) && p.duration >= 0
    ensures !Expired(now, p)
  {
    ElapsedSinceNow(now);
  }

  /** The ids `Update` queues for killing: those of the expired entities. */
  ghost function ExpiredIds(now: Uint32, entities: seq<Entity>, projectiles: map<nat, Projectile>): set<nat>
    requires forall e :: e in entities ==> e.id in projectiles
  {
    set e | e in entities && Expired(now, projectiles[e.id]) :: e.id
  }

  /** `ProjectileLifeCycleSystem::Update()` at tick `now`: returns the ids
      passed to `Kill`, which only queues them with the registry; the
      projectile components are read by copy and left unchanged. */
  method Update(now: Uint32, entities: seq<Entity>, projectiles: map<nat, Projectile>) returns (kills: set<nat>)
    requires forall e :: e in entities ==> e.id in projectiles
    ensures kills == ExpiredIds(now, entities, projectiles)
    ensures forall id :: id in kills <==> exists e :: e in entities && e.id == id && Expired(now, projectiles[id])
  {
    kills := {};
    var i := 0;
    while i < |entities|
      invariant 0 <= i <= |entities|
      invariant forall e :: e in entities[..i] ==> e in entities
      invariant kills == ExpiredIds(now, entities[..i], projectiles)
    {
      var e := entities[i];
      assert entities[..i + 1] == entities[..i] + [e];
      var projectile := projectiles[e.id];
      if Elapsed(now, projectile.startTime) > projectile.duration {
        kills := kills + {e.id};
      }
      i := i + 1;
    }
    assert entities[..i] == entities;
  }
}
