// DamageSystem (src/Systems/DamageSystem.h): a hostile projectile that
// collides with the player takes `hitPercentDamage` off the player's health;
// both are queued for killing as the source says. Group and tag membership
// ("projectiles", "player") are given as sets of ids.

module DamageSystem {
  import opened Entities
  import opened GameComponents

  /** Health components, written through references, and the ids passed to
      `Kill` so far. */
  datatype Outcome = Outcome(healths: map<nat, Health>, kills: set<nat>)

  /** `DamageSystem::OnProjectileHitsPlayer(projectile, player)` applied to
      `o`. */
  function Hit(p: Projectile, projectileId: nat, playerId: nat, o: Outcome): (r: Outcome)
    requires playerId in o.healths
    ensures p.isFriendly ==> r == o
    ensures !p.isFriendly ==>
      && r.healths.Keys == o.healths.Keys
      && r.healths[playerId].healthPercentage == o.healths[playerId].healthPercentage - p.hitPercentDamage
      && (forall id :: id in o.healths && id != playerId ==> r.healths[id] == o.healths[id])
      && projectileId in r.kills
      && (playerId != projectileId ==>
            (playerId in r.kills <==> playerId in o.kills || r.healths[playerId].healthPercentage <= 0))
      && o.kills <= r.kills
      && r.kills - o.kills <= {playerId, projectileId}
  {
    if p.isFriendly then o
    else
      var health := Health(o.healths[playerId].healthPercentage - p.hitPercentDamage);
      var kills := if health.healthPercentage <= 0 then o.kills + {playerId} else o.kills;
      Outcome(o.healths[playerId := health], kills + {projectileId})
  }

  /** The ids in the two groups the handler tests, and the projectile
      components. */
  datatype Groups = Groups(projectiles: set<nat>, players: set<nat>)

  predicate Hits(g: Groups, projectile: Entity, player: Entity)
  {
    projectile.id in g.projectiles && player.id in g.players
  }

  /** What the handler needs to read: the projectile component of an entity
      that hits the player and the player's health. */
  predicate Readable(g: Groups, a: Entity, b: Entity, projectiles: map<nat, Projectile>, healths: map<nat, Health>)
  {
    && (Hits(g, a, b) ==> a.id in projectiles && b.id in healths)
    && (Hits(g, b, a) ==> b.id in projectiles && a.id in healths)
  }

  /** `DamageSystem::onCollision(CollisionEvent(a, b))`: `a` hitting `b`, then
      `b` hitting `a`; projectile-enemy collisions do nothing. */
  function Collide(g: Groups, a: Entity, b: Entity, projectiles: map<nat, Projectile>, o: Outcome): Outcome
    requires Readable(g, a, b, projectiles, o.healths)
  {
    var first := if Hits(g, a, b) then Hit(projectiles[a.id], a.id, b.id, o) else o;
    if Hits(g, b, a) then Hit(projectiles[b.id], b.id, a.id, first) else first
  }

  /** The entity order within the event does not matter for two different
      entities. */
  lemma CollideSymmetric(g: Groups, a: Entity, b: Entity, projectiles: map<nat, Projectile>, o: Outcome)
    requires Readable(g, a, b, projectiles, o.healths) && a.id != b.id
    ensures Readable(g, b, a, projectiles, o.healths)
    ensures Collide(g, a, b, projectiles, o) == Collide(g, b, a, projectiles, o)
  {
    if Hits(g, a, b) && Hits(g, b, a) {
      var pa, pb := projectiles[a.id], projectiles[b.id];
      var ab := Hit(pa, a.id, b.id, o);
      var ba := Hit(pb, b.id, a.id, o);
      assert Hit(pb, b.id, a.id, ab).healths == Hit(pa, a.id, b.id, ba).healths;
    }
  }

  /** A collision in which no projectile meets the player changes nothing. */
  lemma CollideWithoutPlayerHit(g: Groups, a: Entity, b: Entity, projectiles: map<nat, Projectile>, o: Outcome)
    requires !Hits(g, a, b) && !Hits(g, b, a)
    ensures Collide(g, a, b, projectiles, o) == o
  {
  }

  /** `DamageSystem::OnProjectileHitsPlayer`, with the player's health
      component updated in place. */
  method OnProjectileHitsPlayer(p: Projectile, projectileId: nat, playerId: nat, o: Outcome) returns (r: Outcome)
    requires playerId in o.healths
    ensures r == Hit(p, projectileId, playerId, o)
  {
    r := o;
    if !p.isFriendly {
      var health := r.healths[playerId];
      health := health.(healthPercentage := health.healthPercentage - p.hitPercentDamage);
      r := r.(healths := r.healths[playerId := health]);
      if health.healthPercentage <= 0 {
        r := r.(kills := r.kills + {playerId});
      }
      r := r.(kills := r.kills + {projectileId});
    }
  }

  /** `DamageSystem::onCollision`. */
  method OnCollision(g: Groups, a: Entity, b: Entity, projectiles: map<nat, Projectile>, o: Outcome)
    returns (r: Outcome)
    requires Readable(g, a, b, projectiles, o.healths)
    ensures r == Collide(g, a, b, projectiles, o)
  {
    r := o;
    if a.id in g.projectiles && b.id in g.players {
      r := OnProjectileHitsPlayer(projectiles[a.id], a.id, b.id, r);
    }
    if b.id in g.projectiles && a.id in g.players {
      r := OnProjectileHitsPlayer(projectiles[b.id], b.id, a.id, r);
    }
  }
}
