# A verified model of a small 2D game engine's entity-component-system core

The engine keeps its game objects in a **registry**. An *entity* is an integer
id. A *component* is plain data (a transform, a rigid body, a sprite, a box
collider, a health value, a projectile emitter and so on) stored in a per-type
**pool** indexed by entity id. Each entity has a **signature**: a 32-bit set
recording which component types it has. A **system** declares the component
types it requires. It holds the entities whose signature includes all of them,
and it runs game logic over those entities each frame.

Entity creation and destruction are buffered. `CreateEntity` and `KillEntity`
only queue the id. `Registry::Update` at the end of the frame then does two
things:

- It offers each queued-for-creation entity, in ascending id order, to every
  system.
- It removes each queued-for-destruction entity from every system, clears its
  signature, and appends its id to a free list. `CreateEntity` reuses ids from
  that list first.

An **event bus** maps an event type to a list of handlers. Emitting an event
calls them in subscription order. Every frame the bus is cleared and the three
event-driven systems subscribe again.

The model covers the registry, pools, systems, component type ids and the event
bus. It also covers the decision rules of six game systems:

- collision detection (axis-aligned boxes over every unordered pair);
- damage on collision;
- keyboard steering;
- the camera following the player, clamped to the map;
- projectile emission, on a timer and on the space bar;
- projectile expiry.

The modules are:

| file | module | what it holds |
|---|---|---|
| entity.dfy | `Entities` | entity handles, their ordering, `std::set` iteration order (`Ascending`) |
| signature.dfy | `Signatures` | 32-bit signatures and the "system is interested" test |
| component_types.dfy | `ComponentTypes` | the process-wide counter that gives each component type its id (a class) |
| pool.dfy | `Pools` | a component pool as a sequence indexed by entity id |
| system.dfy | `SystemBase` | a system's signature and entity list |
| registry.dfy | `Registries` | the `Registry` class and the specification functions its `Update` is proved against |
| events.dfy | `Events` | the three event types |
| event_bus.dfy | `EventBuses` | the `EventBus` class and its dispatch trace |
| game.dfy | `GameFrame` | the per-frame re-subscription of handlers |
| game_components.dfy | `GameComponents` | component records, `Uint32` ticks and the C conversions the systems use |
| collision_system.dfy … projectile_lifecycle_system.dfy | one module per system | that system's frame update or event handler |

Game systems take the component pools they read as maps from entity id to
component. They return what they change: updated maps, the set of ids they
ask the registry to kill, or the projectiles to spawn. The registry and the
event bus are classes whose methods update their fields in place, as the
engine's do.

Positions, velocities and offsets are `glm::vec2` floats in the engine. Here
they are `real`, so every comparison is exact. Ticks are `Uint32`, because
`SDL_GetTicks` returns that type. The casts the systems apply to ticks are
spelt out: a `Uint32` subtraction that wraps modulo 2^32, then a cast to a
32-bit `int`. C's integer division and float-to-int truncation, both of which
round toward zero, are written out too.

## Model

| member | source | states |
|---|---|---|
| Entities.EntityOrder | src/ECS/ECS.h:41-44 | entity `==`, `<` and `>` compare ids: a strict total order whose equal handles are the same handle |
| Entities.AscendingMembers | src/ECS/ECS.h:162-163 | the iteration sequence of a `std::set<Entity>` holds exactly the set's ids, each once |
| Entities.AscendingSorted | src/ECS/ECS.h:162-163 | that iteration sequence is strictly ascending |
| Signatures.Interested | src/ECS/ECS.cpp:85 | `(entity & system) == system` holds iff every bit the system requires is set in the entity's signature |
| ComponentTypes.ComponentIds.constructor | src/ECS/ECS.cpp:6 | the type-id counter starts at 0 with no type numbered |
| ComponentTypes.ComponentIds.GetId | src/ECS/ECS.h:72-75 | a type's first call takes the counter's value and advances it by one; later calls return the same id and change nothing; ids stay below 32 |
| ComponentTypes.IdsAfterGrows | src/ECS/ECS.h:72-75 | after any sequence of first uses, earlier ids are kept, every type used is numbered, and new ids lie between the old and new counter values |
| ComponentTypes.IdsAfterSnoc | src/ECS/ECS.h:72-75 | one more `GetId` call extends the numbering exactly as a single call does |
| ComponentTypes.IdsAfterPrefix | src/ECS/ECS.h:72-75 | the counter never decreases along a sequence of calls |
| Pools.NewPool | src/ECS/ECS.h:120-122 | a new pool holds 100 default-constructed values |
| Pools.Resize | src/ECS/ECS.h:130 | `resize(n)` keeps the first `min(n, size)` values and pads with defaults up to length n |
| Pools.Store | src/ECS/ECS.h:274-283 | after `AddComponent` the slot of the entity holds the new value; a pool too short for the id is first resized to the entity count; no other slot changes |
| Pools.StoreOverwrites | src/ECS/ECS.h:283 | adding the same component type twice keeps only the second value |
| SystemBase.AddEntityToSystem | src/ECS/ECS.cpp:19-21 | the entity is appended at the end of the system's list; the signature is unchanged |
| SystemBase.WithoutMembers | src/ECS/ECS.cpp:23-27 | the erase–remove_if result holds exactly the entities whose id is not removed, and is no longer than before |
| SystemBase.WithoutAppend | src/ECS/ECS.cpp:23-27 | removal distributes over concatenation, so the survivors keep their order |
| SystemBase.WithoutTwice | src/ECS/ECS.cpp:23-27 | removing one id after removing a set of ids is removing the union |
| SystemBase.WithoutNothing | src/ECS/ECS.cpp:23-27 | removing an id the list does not hold leaves the list unchanged |
| SystemBase.RemoveEntityFromSystem | src/ECS/ECS.cpp:23-27 | the loop's result is every listed entity other than the removed one, in order; the signature is unchanged |
| SystemBase.RequireComponent | src/ECS/ECS.h:337-341 | the component type's id (numbered on first use) is added to the system's signature; the entity list is unchanged |
| SystemBase.BitsMembers | src/ECS/ECS.h:337-341 | the signature built from a list of required types has exactly those types' ids as bits |
| SystemBase.BitsAgree | src/ECS/ECS.h:72-75 | numbering further types does not change the bits of types already numbered |
| SystemBase.RequireStep | src/ECS/ECS.h:337-341 | one more `RequireComponent` call adds exactly that type's id to the signature |
| SystemBase.NewSystem | src/ECS/ECS.h:337-341 | a system constructor's `RequireComponent` calls give a signature of exactly the required types' ids, all below 32, and an empty entity list |
| Registries.MatchingMembers | src/ECS/ECS.cpp:74-91 | the entities that one pass over the queued ids offers to a system are exactly the queued ids whose signature interests it |
| Registries.MatchingAppend | src/ECS/ECS.cpp:102-104 | offering a concatenation of ids is offering each part in turn |
| Registries.MatchingSnoc | src/ECS/ECS.cpp:86-89 | one more queued id is appended to the system iff it is interested |
| Registries.MatchingAscending | src/ECS/ECS.cpp:102-104 | the entities added to a system in one update are in ascending id order |
| Registries.Flushed | src/ECS/ECS.cpp:100-117 | after an update a system holds an entity iff it held it or the entity was queued for creation and matches, and the entity was not queued for destruction |
| Registries.CreatedAndKilledJoinsNothing | src/ECS/ECS.cpp:100-117 | an entity created and killed in the same frame never appears in any system |
| Registries.Offer | src/ECS/ECS.cpp:81-90 | a system receives the entity at the end of its list iff its signature is contained in the entity's |
| Registries.WithMatchesStep | src/ECS/ECS.cpp:102-104 | one iteration of the creation loop offers that entity to every system |
| Registries.WithMatchesNothing | src/ECS/ECS.cpp:102-104 | with nothing queued for creation, the systems are unchanged |
| Registries.WithoutIdsStep | src/ECS/ECS.cpp:107-110 | one iteration of the destruction loop removes that entity from every system |
| Registries.WithoutIdsNothing | src/ECS/ECS.cpp:107-110 | with nothing queued for destruction, the systems are unchanged |
| Registries.Reset | src/ECS/ECS.cpp:112 | after the destruction loop a killed entity's signature is empty and every other signature is unchanged |
| Registries.ResetStep | src/ECS/ECS.cpp:112 | one iteration clears exactly that entity's signature |
| Registries.FlushedSystems | src/ECS/ECS.cpp:100-117 | the creation loop followed by the destruction loop yields, system by system, the lists that `Flushed` describes |
| Registries.MoreTypesConsistent | src/ECS/ECS.h:72-75 | numbering new component types keeps the registry invariant |
| Registries.UpdateConsistent | src/ECS/ECS.cpp:100-117 | `Update` keeps the registry invariant: queues empty, killed signatures cleared, free ids distinct, with empty signatures and out of every system, system entities live, signature bits below the type counter |
| Registries.FreeListAfterUpdate | src/ECS/ECS.cpp:114 | the free list stays free of duplicates, and every id on it has an empty signature |
| Registries.Registry.constructor | src/ECS/ECS.h:156-179 | a new registry has no entities, queues, pools, signatures, systems or free ids |
| Registries.Registry.CreateEntity | src/ECS/ECS.cpp:38-68 | with no free ids, a fresh id equal to the entity count is returned and gets an empty signature; otherwise the front free id is popped and reused; either way the id is queued for creation and nothing else changes |
| Registries.Registry.KillEntity | src/ECS/ECS.cpp:70-72 | the entity is queued for destruction; nothing else changes |
| Registries.Registry.AddComponent | src/ECS/ECS.h:251-289 | the type is numbered on first use (other types keep their ids), its pool is created on first use and resized when too short, the value is stored at the entity's slot and the type's bit is set; afterwards the entity has the component and reading it gives the value; nothing else changes |
| Registries.Registry.RemoveComponent | src/ECS/ECS.h:291-298 | only the type's bit in the entity's signature is cleared; the type is numbered on first use and every other type keeps its id; the pool keeps the value |
| Registries.Registry.HasComponent | src/ECS/ECS.h:300-306 | the result is whether the type's bit is set in the entity's signature; the only change is numbering the type on first use, other types keep their ids |
| Registries.OtherComponentsKept | src/ECS/ECS.h:251-306 | adding, testing and removing one component type on an entity keeps every other component it has, with the same value |
| Registries.Registry.AddSystem | src/ECS/ECS.h:228-232 | a system type not yet present is inserted with the required types' signature and no entities; a type already present is left as it was (`unordered_map::insert` does not overwrite) |
| Registries.Registry.RemoveSystem | src/ECS/ECS.h:234-238 | the system type is erased and no other system changes |
| Registries.Registry.AddEntityToSystems | src/ECS/ECS.cpp:74-91 | every system whose signature is contained in the entity's gets the entity appended; the others are unchanged |
| Registries.Registry.RemoveEntityFromSystems | src/ECS/ECS.cpp:93-98 | the entity is removed from every system; the order of the rest is kept |
| Registries.Registry.FlushAdds | src/ECS/ECS.cpp:102-105 | the creation loop, in ascending id order, offers each queued entity to every system, then empties the queue |
| Registries.Registry.Retire | src/ECS/ECS.cpp:109-114 | one destruction step removes the entity from every system, clears its signature and appends its id to the free list |
| Registries.Registry.FlushKills | src/ECS/ECS.cpp:107-116 | the destruction loop retires every queued entity in ascending id order, then empties the queue |
| Registries.Registry.Update | src/ECS/ECS.cpp:100-117 | each system ends with the lists of `Flushed`; killed signatures are cleared; killed ids are appended to the free list in ascending order; both queues are empty; pools and the entity count are unchanged; the registry invariant is kept |
| EventBuses.Subscribed | src/EventBus/EventBus.h:73-81 | subscribing appends the handler to its event type's list, creating the list if needed; other types' lists are unchanged |
| EventBuses.Touched | src/EventBus/EventBus.h:87-89 | emitting an event with no subscribers creates an empty entry for its type, and no type's handlers change |
| EventBuses.TraceCallsHandlers | src/EventBus/EventBus.h:87-97 | emitting calls exactly the subscribed handlers, in subscription order |
| EventBuses.TraceEvents | src/EventBus/EventBus.h:87-97 | the i-th call goes to the i-th handler with the event built from the emit arguments |
| EventBuses.NullEntryHarmless | src/EventBus/EventBus.h:76-78 | the empty entry left by an emit to an unsubscribed type does not change any later subscription |
| EventBuses.EventBus.constructor | src/EventBus/EventBus.h:55-57 | a new bus has no subscribers |
| EventBuses.EventBus.ClearSubscribers | src/EventBus/EventBus.h:64-66 | afterwards no event type has a handler |
| EventBuses.EventBus.SubscribeToEvent | src/EventBus/EventBus.h:73-81 | the subscriber map becomes `Subscribed` of the old map |
| EventBuses.EventBus.EmitEvent | src/EventBus/EventBus.h:87-97 | the calls made are the trace of the type's handlers with the event; the map only gains an empty entry for the type |
| GameFrame.FrameHandlers | src/Game/Game.cpp:238-244 | after the frame's subscriptions each event type has exactly its one handler: collision to damage, key press to keyboard control, shoot to the emitter |
| GameFrame.FrameDispatch | src/Game/Game.cpp:242-244 | an event emitted during a frame invokes its type's handler once, with that event |
| GameFrame.SubscribeFrame | src/Game/Game.cpp:238-244 | from any prior bus state, the clear and the three subscriptions leave one handler per event type |
| GameComponents.ToUint32 | src/Systems/ProjectileLifeCycleSystem.h:30 | the conversion of an `int` to `Uint32` is congruent to it modulo 2^32 |
| GameComponents.ToInt32 | src/Systems/ProjectileLifeCycleSystem.h:30 | the `(int)` cast of a `Uint32` is the congruent value in the 32-bit signed range |
| GameComponents.ElapsedExact | src/Systems/ProjectileEmitSystem.h:101 | when both tick values are non-negative and below 2^31, the wrapped-and-cast difference is the plain difference |
| GameComponents.ElapsedSinceNow | src/Systems/ProjectileEmitSystem.h:112 | the time elapsed since a stamp taken at the current tick is 0 |
| GameComponents.CDiv | src/Systems/CameraMovementSystem.h:22 | C's integer division rounds toward zero: the remainder takes the sign of the dividend |
| GameComponents.Trunc | src/Systems/CameraMovementSystem.h:23 | the float-to-int conversion rounds toward zero |
| CollisionSystem.AABBSymmetric | src/Systems/CollisionSystem.h:87-94 | the box test does not depend on argument order |
| CollisionSystem.TouchingIsNotColliding | src/Systems/CollisionSystem.h:87-94 | boxes that only share an edge do not collide (the comparisons are strict) |
| CollisionSystem.AABBMeansCommonPoint | src/Systems/CollisionSystem.h:87-94 | for boxes of positive size, the test holds iff some point lies strictly inside both boxes |
| CollisionSystem.RowIndex | src/Systems/CollisionSystem.h:33 | the inner loop visits j = lo, lo+1, … in order |
| CollisionSystem.RowMembers | src/Systems/CollisionSystem.h:33 | the inner loop of row i visits exactly the pairs (i, j) with lo ≤ j < hi |
| CollisionSystem.PairsMembers | src/Systems/CollisionSystem.h:27-33 | the nested loops visit exactly the index pairs (i, j) with i ≤ j, including each entity with itself |
| CollisionSystem.PairsOrdered | src/Systems/CollisionSystem.h:27-33 | the pairs are visited in strictly increasing lexicographic order, so none is visited twice |
| CollisionSystem.SetFlag | src/Systems/CollisionSystem.h:70-80 | setting a collider's flag keeps the set of colliders |
| CollisionSystem.Sweep | src/Systems/CollisionSystem.h:27-84 | the sweep keeps the set of colliders |
| CollisionSystem.SetFlagShapes | src/Systems/CollisionSystem.h:70-80 | setting a flag changes no collider's size or offset |
| CollisionSystem.ShapeBox | src/Systems/CollisionSystem.h:47-56 | a collider's box does not depend on its flag, so flags set earlier in the sweep do not change later tests |
| CollisionSystem.SweepShapes | src/Systems/CollisionSystem.h:27-84 | the sweep changes only `isColliding` flags |
| CollisionSystem.CheckEvents | src/Systems/CollisionSystem.h:68-74 | one pair's step emits `CollisionEvent(a, b)` iff the boxes overlap and a and b are different entities |
| CollisionSystem.SweepHitEvents | src/Systems/CollisionSystem.h:27-84 | the events of a sweep are the hitting pairs' events, in visiting order |
| CollisionSystem.HitEventsMembers | src/Systems/CollisionSystem.h:68-74 | an event is emitted iff some visited pair of different entities has overlapping boxes |
| CollisionSystem.SweepEvents | src/Systems/CollisionSystem.h:27-84 | the sweep emits an event exactly for each visited pair that hits |
| CollisionSystem.SweepUntouched | src/Systems/CollisionSystem.h:70-80 | a collider in no visited pair keeps its flag |
| CollisionSystem.SweepFlag | src/Systems/CollisionSystem.h:70-80 | a collider's final flag is the result of the last visited pair containing it, so a later miss overwrites an earlier hit |
| CollisionSystem.CheckFlag | src/Systems/CollisionSystem.h:37-80 | one pair's step sets both entities' flags to the test result and leaves every other collider alone; the `a == b` skip sets nothing |
| CollisionSystem.EventSound | src/Systems/CollisionSystem.h:21-85 | every event of an update comes from a pair i < j of different entities whose boxes overlap |
| CollisionSystem.EventComplete | src/Systems/CollisionSystem.h:21-85 | every pair i < j of different entities whose boxes overlap produces its event |
| CollisionSystem.UpdateEvents | src/Systems/CollisionSystem.h:21-85 | `CollisionEvent(a, b)` is emitted iff a comes before b in the system's list and their boxes overlap (both directions) |
| CollisionSystem.SweepSnoc | src/Systems/CollisionSystem.h:33-83 | visiting one more pair is one more step on the result so far |
| CollisionSystem.CheckPair | src/Systems/CollisionSystem.h:35-82 | the inner loop body: skip identical entities; otherwise test the boxes, set both flags and emit on a hit |
| CollisionSystem.RowStep | src/Systems/CollisionSystem.h:33 | after the pair (i, j), the sweep so far equals the step applied to the previous result |
| CollisionSystem.RowDone | src/Systems/CollisionSystem.h:33 | after its last j, row i completes the sweep over rows 0..i |
| CollisionSystem.SweepRow | src/Systems/CollisionSystem.h:33-83 | the inner loop extends the sweep over rows 0..i-1 to rows 0..i |
| CollisionSystem.Update | src/Systems/CollisionSystem.h:21-85 | the nested loops compute the sweep over all visited pairs, change only flags, and emit an event iff two different listed entities overlap |
| DamageSystem.Hit | src/Systems/DamageSystem.h:46-60 | a friendly projectile changes nothing; a hostile one lowers the player's health by its damage and kills the projectile; the player is also killed iff its health is now ≤ 0 (or it was already queued); earlier kills are kept and no other id is killed; no other health changes |
| DamageSystem.CollideSymmetric | src/Systems/DamageSystem.h:22-44 | for different entities, swapping the two entities of a collision event gives the same outcome |
| DamageSystem.CollideWithoutPlayerHit | src/Systems/DamageSystem.h:22-44 | a collision that is not between a projectile and the player changes nothing (projectile-on-enemy is a no-op) |
| DamageSystem.OnProjectileHitsPlayer | src/Systems/DamageSystem.h:46-60 | computes `Hit` |
| DamageSystem.OnCollision | src/Systems/DamageSystem.h:22-44 | applies the projectile–player rule in both orientations, in the source's order |
| KeyboardControlSystem.SteerBody | src/Systems/KeyboardControlSystem.h:34-51 | W, D, S and A set the velocity to up, right, down and left; any other key leaves the body unchanged |
| KeyboardControlSystem.SteerSprite | src/Systems/KeyboardControlSystem.h:34-51 | W, D, S and A select the sprite row 0, 1, 2 and 3 sprite heights down; only `srcRect.y` changes; any other key changes nothing |
| KeyboardControlSystem.SteerTwice | src/Systems/KeyboardControlSystem.h:27-53 | handling the same key twice is the same as handling it once |
| KeyboardControlSystem.OnKeyPressed | src/Systems/KeyboardControlSystem.h:27-53 | every entity of the system is steered and only those |
| CameraMovementSystem.Clamp | src/Systems/CameraMovementSystem.h:31-34 | the camera coordinate is clamped to [0, limit]; values already inside are kept |
| CameraMovementSystem.Follow | src/Systems/CameraMovementSystem.h:22-34 | the camera keeps its size, lands inside [0, w] × [0, h], and takes the centred target wherever that target is already in range |
| CameraMovementSystem.FollowAllBounds | src/Systems/CameraMovementSystem.h:17-36 | with no followed entity the camera is unchanged; otherwise it ends inside the clamp range and keeps its size |
| CameraMovementSystem.Update | src/Systems/CameraMovementSystem.h:17-36 | the loop computes the fold of `Follow` over the system's entities, with those bounds |
| ProjectileLifeCycleSystem.ExpiredExact | src/Systems/ProjectileLifeCycleSystem.h:30-31 | for tick values below 2^31, a projectile expires iff more than its duration has passed since it started |
| ProjectileLifeCycleSystem.FreshNotExpired | src/Systems/ProjectileLifeCycleSystem.h:30-31 | a projectile started at the current tick with a non-negative duration does not expire |
| ProjectileLifeCycleSystem.Update | src/Systems/ProjectileLifeCycleSystem.h:25-34 | an entity is killed iff it is in the system and its projectile has expired |
| ProjectileEmitSystem.Shoot | src/Systems/ProjectileEmitSystem.h:97-114 | a projectile is spawned iff the elapsed time exceeds the rate of fire; then the emission time becomes now and the projectile carries the given position and velocity and the emitter's friendliness, damage and duration, in group "projectiles"; otherwise nothing changes |
| ProjectileEmitSystem.NoSecondShot | src/Systems/ProjectileEmitSystem.h:101-112 | with a non-negative rate, an emitter that has just fired cannot fire again at the same tick |
| ProjectileEmitSystem.ReadyToFireExact | src/Systems/ProjectileEmitSystem.h:101 | for tick values below 2^31, the gate is "now minus last emission exceeds the rate" |
| ProjectileEmitSystem.CenterProjectile | src/Systems/ProjectileEmitSystem.h:86-95 | without a sprite the projectile starts at the entity's position; with one it starts at the centre of the scaled sprite, half the scaled width and height from the position (so never before the position when scale and size are non-negative) |
| ProjectileEmitSystem.Sign | src/Systems/ProjectileEmitSystem.h:49-54 | the direction is +1, -1 or 0 as the velocity component is positive, negative or zero |
| ProjectileEmitSystem.Aim | src/Systems/ProjectileEmitSystem.h:49-57 | along each axis: standing still gives zero projectile speed; moving forward or backward gives the player's velocity plus or minus the emitter's speed |
| ProjectileEmitSystem.Fire | src/Systems/ProjectileEmitSystem.h:97-114 | one shot changes only the shooter's emitter, keeps its friendliness, and appends at most one spawn, which has the emitter's friendliness |
| ProjectileEmitSystem.Barrage | src/Systems/ProjectileEmitSystem.h:67-81 | the timer pass keeps the set of emitters |
| ProjectileEmitSystem.BarrageHostileOnly | src/Systems/ProjectileEmitSystem.h:67-81 | friendly emitters never fire on the timer; every projectile it spawns is hostile; friendliness is kept |
| ProjectileEmitSystem.Volleys | src/Systems/ProjectileEmitSystem.h:34-64 | the space-bar pass keeps the set of emitters |
| ProjectileEmitSystem.VolleysPlayersOnly | src/Systems/ProjectileEmitSystem.h:34-64 | only entities tagged "player" fire on the space bar; with no player nothing is spawned |
| ProjectileEmitSystem.ShootProjectile | src/Systems/ProjectileEmitSystem.h:97-114 | computes `Shoot` |
| ProjectileEmitSystem.HostileShot | src/Systems/ProjectileEmitSystem.h:73-78 | a hostile emitter shoots from its centre with its projectile velocity plus the entity's velocity |
| ProjectileEmitSystem.PlayerShot | src/Systems/ProjectileEmitSystem.h:39-60 | the player shoots from its centre with velocity `Aim`: the emitter's speed in the direction of its movement, plus its own velocity |
| ProjectileEmitSystem.Update | src/Systems/ProjectileEmitSystem.h:67-81 | the loop computes `Barrage`; friendly emitters are unchanged; every spawn is a hostile projectile in group "projectiles" |
| ProjectileEmitSystem.OnShoot | src/Systems/ProjectileEmitSystem.h:34-64 | the loop computes `Volleys`; emitters of non-players are unchanged; with no player in the system nothing is spawned |

## Left out

- Floating point: positions, velocities, offsets and scales are exact reals, so `float` rounding in the box test, the camera and the projectile arithmetic is not modelled.
- The SDL branch of the collision update (`SDL_HasIntersection` on integer rectangles) is left out. The game calls the update with that branch off.
- Rendering, the asset store, the Logger, the Lua scripting system, the level loader, the map editor, and the movement and animation systems are not part of this model.
- `TransformComponent.h`, `ProjectileComponent.h`, `KeyboardControlledComponent.h`, `CameraFollowComponent.h`, `CollisionEvent.h` and `KeyPressedEvent.h` are not part of this model. Their fields are taken from how the systems use them.
- Tags and groups (`HasTag`, `BelongsToGroup`) are inputs: the set of player ids and the projectile and enemy groups.
- `SDL_GetTicks()` is the parameter `now`; the window, map and camera sizes are parameters.
- Event dispatch during the collision sweep: the engine calls the damage handler synchronously inside the sweep. The model returns the events in emission order and leaves applying them to the caller. This is sound because the damage handler only touches health values and the kill queue, never colliders or transforms.
- Spawning projectiles: `ShootProjectile` returns a `Spawn` record (group and components) instead of calling `CreateEntity` and `AddComponent`. Those calls are modelled separately on the registry.
- Handlers are tags (`GameFrame.Handler`) rather than member-function pointers. The `ShootProjectileEvent` carries no registry reference, because there is only one registry.
- The per-frame order of the system updates in `Game::Update` is not composed into one frame function. Each update and the subscriptions are modelled on their own.
- `Entity::m_registry`, the back-pointer every handle carries, is left out; there is one registry. The `Entity` forwarding members (`Kill`, `AddComponent` and the rest) are the registry's members.
- `Pool::Add`, `Clear`, `IsEmpty` and `operator[]` are never called by the core and are not modelled.
- `Registry::GetComponent` and `GetSystem` are plain reads with no contract of their own. `AddComponent`'s ensures states what `GetComponent` returns.
- Registries.Registry.KillEntity: requires a live id (below the entity count and not on the free list). The engine accepts any handle. Killing an id that is already free would queue it on the free list a second time, so two later `CreateEntity` calls could return the same id. The registry invariant (free ids distinct) is kept only for live kills; every kill issued by a system is live.
- Registries.Registry.AddComponent: requires the entity not to be on the free list, so that free ids keep empty signatures.
- Registries.UpdateConsistent: the registry invariant does not say that a system's entities match its signature. `RemoveComponent` clears a bit without touching the systems, so the engine does not keep that either.
- Registries.Registry.AddComponent, RemoveComponent, HasComponent: require the component type's id to fit in the 32-bit signature. The engine's `std::bitset::set` would throw `std::out_of_range` for a 33rd type.
- Registries.Registry.RemoveSystem: requires the system to be present. The engine erases `find`'s result, which is undefined behaviour for a missing type.
- DamageSystem.Hit: health is an unbounded integer, so the `int` overflow of a very large damage value is not modelled.
