// CameraMovementSystem (src/Systems/CameraMovementSystem.h): the camera
// follows each entity that has a CameraFollowComponent, then is clamped.

module CameraMovementSystem {
  import opened Entities
  import opened GameComponents

  /** The `Game` statics the system reads: window and map sizes. */
  datatype Screen = Screen(windowWidth: int, windowHeight: int, mapWidth: int, mapHeight: int)

  /** `camera.x` before clamping: the entity's x minus half the window width
      when the entity plus half the camera width is left of the map's edge,
      else the old `camera.x`. The int-to-float and float-to-int conversions
      are written out. */
  function TargetX(camera: Rect, position: Vec2, screen: Screen): int
  {
    if position.x + CDiv(camera.w, 2) as real < screen.mapWidth as real
    then Trunc(position.x - CDiv(screen.windowWidth, 2) as real)
    else camera.x
  }

  /** The same rule for `camera.y` with heights. */
  function TargetY(camera: Rect, position: Vec2, screen: Screen): int
  {
    if position.y + CDiv(camera.h, 2) as real < screen.mapHeight as real
    then Trunc(position.y - CDiv(screen.windowHeight, 2) as real)
    else camera.y
  }

  /** The two clamps in a row: first up to 0, then down to `limit`. */
  function Clamp(v: int, limit: int): (r: int)
    ensures limit >= 0 ==> 0 <= r <= limit
    ensures 0 <= v <= limit ==> r == v
    ensures limit >= 0 && v < 0 ==> r == 0
    ensures v > limit ==> r == limit
  {
    var up := if v < 0 then 0 else v;
    if up > limit then limit else up
  }

  /** The loop body for one entity at `position`. */
  function Follow(camera: Rect, position: Vec2, screen: Screen): (r: Rect)
    ensures r.w == camera.w && r.h == camera.h
    ensures camera.w >= 0 ==> 0 <= r.x <= r.w
    ensures camera.h >= 0 ==> 0 <= r.y <= r.h
    ensures 0 <= TargetX(camera, position, screen) <= camera.w ==> r.x == TargetX(camera, position, screen)
    ensures 0 <= TargetY(camera, position, screen) <= camera.h ==> r.y == TargetY(camera, position, screen)
  {
    Rect(Clamp(TargetX(camera, position, screen), camera.w),
         Clamp(TargetY(camera, position, screen), camera.h), camera.w, camera.h)
  }

  /** The camera after following `entities` in order. */
  function FollowAll(camera: Rect, entities: seq<Entity>, transforms: map<nat, Transform>, screen: Screen): Rect
    requires forall e :: e in entities ==> e.id in transforms
  {
    if entities == [] then camera
    else
      var last := entities[|entities| - 1];
      assert last in entities;
      assert forall e :: e in entities[..|entities| - 1] ==> e in entities;
      Follow(FollowAll(camera, entities[..|entities| - 1], transforms, screen), transforms[last.id].position, screen)
  }

  /** The size of the camera never changes, and once one entity has been
      followed the position lies within `[0, w] x [0, h]` when the size is
      non-negative; with no entity the camera stays as it is. */
  lemma {:induction false} FollowAllBounds(camera: Rect, entities: seq<Entity>, transforms: map<nat, Transform>, screen: Screen)
    requires forall e :: e in entities ==> e.id in transforms
    ensures var r := FollowAll(camera, entities, transforms, screen);
      && r.w == camera.w && r.h == camera.h
      && (entities == [] ==> r == camera)
      && (entities != [] && camera.w >= 0 ==> 0 <= r.x <= camera.w)
      && (entities != [] && camera.h >= 0 ==> 0 <= r.y <= camera.h)
    decreases |entities|
  {
    if entities != [] {
      assert forall e :: e in entities[..|entities| - 1] ==> e in entities;
      FollowAllBounds(camera, entities[..|entities| - 1], transforms, screen);
    }
  }

  /** `CameraMovementSystem::Update(camera)`: `camera` is passed by reference
      and is returned updated. */
  method Update(entities: seq<Entity>, transforms: map<nat, Transform>, camera: Rect, screen: Screen)
    returns (r: Rect)
    requires forall e :: e in entities ==> e.id in transforms
    ensures r == FollowAll(camera, entities, transforms, screen)
    ensures r.w == camera.w && r.h == camera.h
    ensures entities == [] ==> r == camera
    ensures entities != [] && camera.w >= 0 ==> 0 <= r.x <= r.w
    ensures entities != [] && camera.h >= 0 ==> 0 <= r.y <= r.h
  {
    r := camera;
    var i := 0;
    while i < |entities|
      invariant 0 <= i <= |entities|
      invariant forall e :: e in entities[..i] ==> e in entities
      invariant r == FollowAll(camera, entities[..i], transforms, screen)
    {
      var transform := transforms[entities[i].id];
      assert entities[..i + 1][..i] == entities[..i];
      r := Follow(r, transform.position, screen);
      i := i + 1;
    }
    assert entities[..i] == entities;
    FollowAllBounds(camera, entities, transforms, screen);
  }
}
