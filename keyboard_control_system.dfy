// KeyboardControlSystem (src/Systems/KeyboardControlSystem.h): on a key
// press every keyboard-controlled entity takes the velocity of the key's
// direction and shows the matching row of its sprite sheet.

module KeyboardControlSystem {
  import opened Entities
  import opened GameComponents

  /** SDL key codes of the four keys handled (`SDLK_w` and so on are the
      ASCII codes of the letters). */
  const KeyW: int := 119
  const KeyD: int := 100
  const KeyS: int := 115
  const KeyA: int := 97

  /** The `rigidbody.velocity` assignment of the `switch`. */
  function SteerBody(key: int, control: KeyboardControlled, body: RigidBody): (r: RigidBody)
    ensures key == KeyW ==> r.velocity == control.upVelocity
    ensures key == KeyD ==> r.velocity == control.rightVelocity
    ensures key == KeyS ==> r.velocity == control.downVelocity
    ensures key == KeyA ==> r.velocity == control.leftVelocity
    ensures key !in {KeyW, KeyD, KeyS, KeyA} ==> r == body
  {
    if key == KeyW then RigidBody(control.upVelocity)
    else if key == KeyD then RigidBody(control.rightVelocity)
    else if key == KeyS then RigidBody(control.downVelocity)
    else if key == KeyA then RigidBody(control.leftVelocity)
    else body
  }

  /** The `sprite.srcRect.y` assignment of the `switch`: rows 0 to 3 of the
      sheet for up, right, down and left; nothing else of the sprite moves. */
  function SteerSprite(key: int, sprite: Sprite): (r: Sprite)
    ensures key == KeyW ==> r.srcRect.y == 0
    ensures key == KeyD ==> r.srcRect.y == sprite.height
    ensures key == KeyS ==> r.srcRect.y == sprite.height * 2
    ensures key == KeyA ==> r.srcRect.y == sprite.height * 3
    ensures key !in {KeyW, KeyD, KeyS, KeyA} ==> r == sprite
    ensures r == sprite.(srcRect := sprite.srcRect.(y := r.srcRect.y))
  {
    var row := if key == KeyW then 0 else if key == KeyD then 1 else if key == KeyS then 2 else 3;
    if key in {KeyW, KeyD, KeyS, KeyA} then sprite.(srcRect := sprite.srcRect.(y := sprite.height * row))
    else sprite
  }

  /** Steering twice is steering once, so an entity listed twice in the
      system ends up as if listed once. */
  lemma SteerTwice(key: int, control: KeyboardControlled, body: RigidBody, sprite: Sprite)
    ensures SteerBody(key, control, SteerBody(key, control, body)) == SteerBody(key, control, body)
    ensures SteerSprite(key, SteerSprite(key, sprite)) == SteerSprite(key, sprite)
  {
  }

  function EntityIds(entities: seq<Entity>): set<nat>
  {
    set e | e in entities :: e.id
  }

  /** The rigid bodies after the key press: those of the system's entities
      steered, all others as they were. */
  function SteeredBodies(key: int, ids: set<nat>, controls: map<nat, KeyboardControlled>,
                         bodies: map<nat, RigidBody>): map<nat, RigidBody>
    requires forall id :: id in ids ==> id in controls
  {
    map id | id in bodies :: if id in ids then SteerBody(key, controls[id], bodies[id]) else bodies[id]
  }

  /** The sprites after the key press. */
  function SteeredSprites(key: int, ids: set<nat>, sprites: map<nat, Sprite>): map<nat, Sprite>
  {
    map id | id in sprites :: if id in ids then SteerSprite(key, sprites[id]) else sprites[id]
  }

  /** `KeyboardControlSystem::onKeyPressed(event)` for `event.symbol == key`:
      rigid bodies and sprites are written through references, so the
      updated maps are returned; the keyboard components are only read. */
  method OnKeyPressed(key: int, entities: seq<Entity>, controls: map<nat, KeyboardControlled>,
                      bodies: map<nat, RigidBody>, sprites: map<nat, Sprite>)
    returns (bodies': map<nat, RigidBody>, sprites': map<nat, Sprite>)
    requires forall e :: e in entities ==> e.id in controls && e.id in bodies && e.id in sprites
    ensures bodies' == SteeredBodies(key, EntityIds(entities), controls, bodies)
    ensures sprites' == SteeredSprites(key, EntityIds(entities), sprites)
  {
    bodies', sprites' := bodies, sprites;
    var i := 0;
    while i < |entities|
      invariant 0 <= i <= |entities|
      invariant forall id :: id in EntityIds(entities[..i]) ==> id in controls
      invariant bodies' == SteeredBodies(key, EntityIds(entities[..i]), controls, bodies)
      invariant sprites' == SteeredSprites(key, EntityIds(entities[..i]), sprites)
    {
      var e := entities[i];
      assert e in entities;
      assert EntityIds(entities[..i + 1]) == EntityIds(entities[..i]) + {e.id} by {
        assert entities[..i + 1] == entities[..i] + [e];
      }
      var control := controls[e.id];
      SteerTwice(key, control, bodies[e.id], sprites[e.id]);
      bodies' := bodies'[e.id := SteerBody(key, control, bodies'[e.id])];
      sprites' := sprites'[e.id := SteerSprite(key, sprites'[e.id])];
      i := i + 1;
    }
    assert entities[..i] == entities;
  }
}
