// CollisionSystem (src/Systems/CollisionSystem.h): every pair of the
// system's entities, each entity against itself and those after it, is
// tested with an axis-aligned bounding-box check; both colliders' flags are
// set to the result and a CollisionEvent is emitted for each hit. Colliders
// are written through references, so the updated map is returned, together
// with the events in emission order.

module CollisionSystem {
  import opened Entities
  import opened GameComponents
  import opened Events

  /** A box as `CheckAABBCollision` receives it: origin, width, height. */
  datatype Box = Box(x: real, y: real, w: real, h: real)

  /** The box of an entity: its position moved by the collider's offset, with
      the collider's size. */
  function BoxOf(t: Transform, c: BoxCollider): Box
  {
    Box(t.position.x + c.offset.x, t.position.y + c.offset.y, c.width as real, c.height as real)
  }

  /** `CheckAABBCollision`: the boxes overlap on both axes, strictly. */
  predicate CheckAABBCollision(a: Box, b: Box)
  {
    a.x < b.x + b.w && a.x + a.w > b.x && a.y < b.y + b.h && a.y + a.h > b.y
  }

  /** The test does not depend on the order of the boxes. */
  lemma AABBSymmetric(a: Box, b: Box)
    ensures CheckAABBCollision(a, b) == CheckAABBCollision(b, a)
  {
  }

  /** Boxes that only touch along an edge do not collide. */
  lemma TouchingIsNotColliding(a: Box, b: Box)
    requires b.x == a.x + a.w || b.y == a.y + a.h
    ensures !CheckAABBCollision(a, b)
  {
  }

  /** `p` lies strictly inside `b`. */
  predicate Inside(px: real, py: real, b: Box)
  {
    b.x < px < b.x + b.w && b.y < py < b.y + b.h
  }

  /** For boxes of positive size the test holds exactly when some point lies
      strictly inside both. */
  lemma AABBMeansCommonPoint(a: Box, b: Box)
    requires a.w > 0.0 && a.h > 0.0 && b.w > 0.0 && b.h > 0.0
    ensures CheckAABBCollision(a, b) <==> exists px, py :: Inside(px, py, a) && Inside(px, py, b)
  {
    if CheckAABBCollision(a, b) {
      var left := if a.x < b.x then b.x else a.x;
      var right := if a.x + a.w < b.x + b.w then a.x + a.w else b.x + b.w;
      var bottom := if a.y < b.y then b.y else a.y;
      var top := if a.y + a.h < b.y + b.h then a.y + a.h else b.y + b.h;
      var px, py := (left + right) / 2.0, (bottom + top) / 2.0;
      assert Inside(px, py, a) && Inside(px, py, b);
    }
  }

  // The order of the two `for` loops: for `i` from 0, the pairs (i, j) for
  // j from i to n - 1.

  /** The pairs (i, lo), ..., (i, hi - 1). */
  function RowPrefix(i: nat, lo: nat, hi: nat): seq<(nat, nat)>
    decreases hi
  {
    if hi <= lo then [] else RowPrefix(i, lo, hi - 1) + [(i, hi - 1)]
  }

  /** The pairs the outer loop has visited after `k` rounds over `n` entities. */
  function PairsUpTo(k: nat, n: nat): seq<(nat, nat)>
  {
    if k == 0 then [] else PairsUpTo(k - 1, n) + RowPrefix(k - 1, k - 1, n)
  }

  function Pairs(n: nat): seq<(nat, nat)>
  {
    PairsUpTo(n, n)
  }

  lemma {:induction false} RowIndex(i: nat, lo: nat, hi: nat)
    requires lo <= hi
    ensures |RowPrefix(i, lo, hi)| == hi - lo
    ensures forall k :: 0 <= k < hi - lo ==> RowPrefix(i, lo, hi)[k] == (i, lo + k)
    decreases hi
  {
    if hi > lo {
      RowIndex(i, lo, hi - 1);
    }
  }

  predicate LexLess(p: (nat, nat), q: (nat, nat))
  {
    p.0 < q.0 || (p.0 == q.0 && p.1 < q.1)
  }

  /** The pairs of row `i` from `lo` on: exactly (i, j) for lo <= j < hi. */
  lemma RowMembers(i: nat, lo: nat, hi: nat)
    ensures forall p :: p in RowPrefix(i, lo, hi) <==> p.0 == i && lo <= p.1 < hi
  {
    if lo <= hi {
      RowIndex(i, lo, hi);
      forall p | p in RowPrefix(i, lo, hi)
        ensures p.0 == i && lo <= p.1 < hi
      {
        var m :| 0 <= m < |RowPrefix(i, lo, hi)| && RowPrefix(i, lo, hi)[m] == p;
      }
      forall p: (nat, nat) | p.0 == i && lo <= p.1 < hi
        ensures p in RowPrefix(i, lo, hi)
      {
        assert RowPrefix(i, lo, hi)[p.1 - lo] == p;
      }
    } else {
      assert RowPrefix(i, lo, hi) == [];
    }
  }

  /** The inner loop's pairs after `k` outer rounds: exactly those (i, j) with
      i < k and i <= j < n. */
  lemma {:induction false} PairsMembers(k: nat, n: nat)
    ensures forall p :: p in PairsUpTo(k, n) <==> p.0 < k && p.0 <= p.1 < n
  {
    if k > 0 {
      PairsMembers(k - 1, n);
      RowMembers(k - 1, k - 1, n);
      assert PairsUpTo(k, n) == PairsUpTo(k - 1, n) + RowPrefix(k - 1, k - 1, n);
    }
  }

  /** The pairs are visited in strictly increasing order, so no pair is
      visited twice. */
  lemma {:induction false} PairsOrdered(k: nat, n: nat, a: nat, b: nat)
    requires a < b < |PairsUpTo(k, n)|
    ensures LexLess(PairsUpTo(k, n)[a], PairsUpTo(k, n)[b])
  {
    assert k > 0;
    var front, row := PairsUpTo(k - 1, n), RowPrefix(k - 1, k - 1, n);
    var ps := PairsUpTo(k, n);
    assert ps == front + row;
    if b < |front| {
      PairsOrdered(k - 1, n, a, b);
    } else {
      RowMembers(k - 1, k - 1, n);
      assert ps[b] == row[b - |front|] && ps[b] in row;
      if a < |front| {
        PairsMembers(k - 1, n);
        assert ps[a] == front[a] && ps[a] in front;
      } else {
        RowIndex(k - 1, k - 1, n);
        assert ps[a] == row[a - |front|];
      }
    }
  }

  /** The pairs visited after `i` rounds and `j - i` steps of the inner loop. */
  function Visited(i: nat, j: nat, n: nat): seq<(nat, nat)>
  {
    PairsUpTo(i, n) + RowPrefix(i, i, j)
  }

  /** One more step of the inner loop visits one more pair, and all visited
      pairs index `n` entities. */
  lemma VisitedSnoc(i: nat, j: nat, n: nat)
    requires i <= j < n
    ensures Visited(i, j + 1, n) == Visited(i, j, n) + [(i, j)]
    ensures InRange(Visited(i, j + 1, n), n)
  {
    PairsInRange(i, j + 1, n);
  }

  /** The pairs after `i` rounds and `j - i` steps of the inner loop index
      `n` entities. */
  lemma PairsInRange(i: nat, j: nat, n: nat)
    requires i <= j <= n
    ensures InRange(PairsUpTo(i, n) + RowPrefix(i, i, j), n)
  {
    PairsMembers(i, n);
    RowMembers(i, i, j);
  }

  /** The components the sweep reads and writes: every entity has both. */
  predicate Present(entities: seq<Entity>, transforms: map<nat, Transform>, colliders: map<nat, BoxCollider>)
  {
    forall e :: e in entities ==> e.id in transforms && e.id in colliders
  }

  predicate InRange(ps: seq<(nat, nat)>, n: nat)
  {
    forall p :: p in ps ==> p.0 < n && p.1 < n
  }

  /** The colliders as written so far and the events emitted so far. */
  datatype Pass = Pass(colliders: map<nat, BoxCollider>, events: seq<Event>)

  /** Whether the pair `p` of entities collides. Only the `isColliding` flags
      change during the sweep, so the boxes are those of the colliders the
      sweep starts from. */
  predicate Collides(entities: seq<Entity>, transforms: map<nat, Transform>, colliders: map<nat, BoxCollider>,
                     p: (nat, nat))
    requires Present(entities, transforms, colliders) && p.0 < |entities| && p.1 < |entities|
  {
    var a, b := entities[p.0], entities[p.1];
    assert a in entities && b in entities;
    CheckAABBCollision(BoxOf(transforms[a.id], colliders[a.id]), BoxOf(transforms[b.id], colliders[b.id]))
  }

  /** The collider with its flag cleared: what the sweep never changes. */
  function Shape(c: BoxCollider): BoxCollider
  {
    c.(isColliding := false)
  }

  predicate SameShapes(now: map<nat, BoxCollider>, start: map<nat, BoxCollider>)
  {
    now.Keys == start.Keys && forall id :: id in start ==> Shape(now[id]) == Shape(start[id])
  }

  /** `collider.isColliding = hit` for the collider of `id`. */
  function SetFlag(colliders: map<nat, BoxCollider>, id: nat, hit: bool): (r: map<nat, BoxCollider>)
    requires id in colliders
    ensures r.Keys == colliders.Keys
  {
    colliders[id := colliders[id].(isColliding := hit)]
  }

  /** Setting a flag keeps every collider's shape. */
  lemma SetFlagShapes(now: map<nat, BoxCollider>, start: map<nat, BoxCollider>, id: nat, hit: bool)
    requires SameShapes(now, start) && id in now
    ensures SameShapes(SetFlag(now, id, hit), start)
  {
  }

  /** Colliders of the same shape give the same box. */
  lemma ShapeBox(t: Transform, c: BoxCollider, d: BoxCollider)
    requires Shape(c) == Shape(d)
    ensures BoxOf(t, c) == BoxOf(t, d)
  {
    assert c.width == Shape(c).width && d.width == Shape(d).width;
    assert c.height == Shape(c).height && d.height == Shape(d).height;
    assert c.offset == Shape(c).offset && d.offset == Shape(d).offset;
  }

  /** The inner loop's body for the pair `p`: skip an entity against itself,
      else set both flags to the test's result and emit on a hit. */
  function Check(entities: seq<Entity>, transforms: map<nat, Transform>, start: map<nat, BoxCollider>,
                 p: (nat, nat), s: Pass): Pass
    requires Present(entities, transforms, start) && p.0 < |entities| && p.1 < |entities|
    requires s.colliders.Keys == start.Keys
  {
    var a, b := entities[p.0], entities[p.1];
    assert a in entities && b in entities;
    if a == b then s
    else
      var hit := Collides(entities, transforms, start, p);
      Pass(SetFlag(SetFlag(s.colliders, a.id, hit), b.id, hit),
           s.events + if hit then [CollisionEvent(a, b)] else [])
  }

  /** The state after visiting the pairs `ps` in order. */
  function Sweep(entities: seq<Entity>, transforms: map<nat, Transform>, start: map<nat, BoxCollider>,
                 ps: seq<(nat, nat)>): (r: Pass)
    requires Present(entities, transforms, start) && InRange(ps, |entities|)
    ensures r.colliders.Keys == start.Keys
  {
    if ps == [] then Pass(start, [])
    else
      assert ps[|ps| - 1] in ps;
      assert forall p :: p in ps[..|ps| - 1] ==> p in ps;
      Check(entities, transforms, start, ps[|ps| - 1], Sweep(entities, transforms, start, ps[..|ps| - 1]))
  }

  /** The sweep changes no collider's size or offset and adds or removes
      no collider. */
  lemma {:induction false} SweepShapes(entities: seq<Entity>, transforms: map<nat, Transform>,
                                       start: map<nat, BoxCollider>, ps: seq<(nat, nat)>)
    requires Present(entities, transforms, start) && InRange(ps, |entities|)
    ensures SameShapes(Sweep(entities, transforms, start, ps).colliders, start)
  {
    if ps != [] {
      assert forall p :: p in ps[..|ps| - 1] ==> p in ps;
      SweepShapes(entities, transforms, start, ps[..|ps| - 1]);
    }
  }

  /** The pair `p` yields an event: two different entities that collide. */
  predicate Hit(entities: seq<Entity>, transforms: map<nat, Transform>, start: map<nat, BoxCollider>, p: (nat, nat))
    requires Present(entities, transforms, start) && p.0 < |entities| && p.1 < |entities|
  {
    entities[p.0] != entities[p.1] && Collides(entities, transforms, start, p)
  }

  /** The events of the pairs `ps` on their own: one per hit pair, in the
      order of `ps`. */
  function HitEvents(entities: seq<Entity>, transforms: map<nat, Transform>, start: map<nat, BoxCollider>,
                     ps: seq<(nat, nat)>): seq<Event>
    requires Present(entities, transforms, start) && InRange(ps, |entities|)
  {
    if ps == [] then []
    else
      var p := ps[|ps| - 1];
      assert p in ps;
      assert forall q :: q in ps[..|ps| - 1] ==> q in ps;
      HitEvents(entities, transforms, start, ps[..|ps| - 1])
        + if Hit(entities, transforms, start, p) then [CollisionEvent(entities[p.0], entities[p.1])] else []
  }

  /** One pair emits one event exactly when it is a hit. */
  lemma CheckEvents(entities: seq<Entity>, transforms: map<nat, Transform>, start: map<nat, BoxCollider>,
                    p: (nat, nat), s: Pass)
    requires Present(entities, transforms, start) && p.0 < |entities| && p.1 < |entities|
    requires s.colliders.Keys == start.Keys
    ensures Check(entities, transforms, start, p, s).events
         == s.events + if Hit(entities, transforms, start, p) then [CollisionEvent(entities[p.0], entities[p.1])] else []
  {
  }

  /** The sweep emits exactly the events of its hit pairs, in order. */
  lemma {:induction false} SweepHitEvents(entities: seq<Entity>, transforms: map<nat, Transform>,
                                          start: map<nat, BoxCollider>, ps: seq<(nat, nat)>)
    requires Present(entities, transforms, start) && InRange(ps, |entities|)
    ensures Sweep(entities, transforms, start, ps).events == HitEvents(entities, transforms, start, ps)
  {
    if ps != [] {
      var init := ps[..|ps| - 1];
      assert ps[|ps| - 1] in ps;
      assert forall q :: q in init ==> q in ps;
      SweepHitEvents(entities, transforms, start, init);
      CheckEvents(entities, transforms, start, ps[|ps| - 1], Sweep(entities, transforms, start, init));
    }
  }

  /** An event is among those of the hit pairs of `ps` exactly when some hit
      pair of `ps` names its two entities. */
  lemma {:induction false} HitEventsMembers(entities: seq<Entity>, transforms: map<nat, Transform>,
                                            start: map<nat, BoxCollider>, ps: seq<(nat, nat)>)
    requires Present(entities, transforms, start) && InRange(ps, |entities|)
    ensures forall ev :: ev in HitEvents(entities, transforms, start, ps) <==>
      exists k :: 0 <= k < |ps| && Hit(entities, transforms, start, ps[k])
                  && ev == CollisionEvent(entities[ps[k].0], entities[ps[k].1])
  {
    if ps != [] {
      var init := ps[..|ps| - 1];
      var last := ps[|ps| - 1];
      assert last in ps;
      assert forall q :: q in init ==> q in ps;
      HitEventsMembers(entities, transforms, start, init);
      assert forall k :: 0 <= k < |init| ==> init[k] == ps[k];
      forall ev | ev in HitEvents(entities, transforms, start, ps)
        ensures exists k :: 0 <= k < |ps| && Hit(entities, transforms, start, ps[k])
                            && ev == CollisionEvent(entities[ps[k].0], entities[ps[k].1])
      {
        if ev !in HitEvents(entities, transforms, start, init) {
          assert Hit(entities, transforms, start, ps[|ps| - 1]);
        }
      }
      forall k | 0 <= k < |ps| && Hit(entities, transforms, start, ps[k])
        ensures CollisionEvent(entities[ps[k].0], entities[ps[k].1]) in HitEvents(entities, transforms, start, ps)
      {
        if k < |init| {
          assert CollisionEvent(entities[init[k].0], entities[init[k].1]) in HitEvents(entities, transforms, start, init);
        }
      }
    }
  }

  /** Every event names a hit pair of `ps`, and every hit pair of `ps` is
      emitted. */
  lemma SweepEvents(entities: seq<Entity>, transforms: map<nat, Transform>,
                    start: map<nat, BoxCollider>, ps: seq<(nat, nat)>)
    requires Present(entities, transforms, start) && InRange(ps, |entities|)
    ensures forall ev :: ev in Sweep(entities, transforms, start, ps).events <==>
      exists k :: 0 <= k < |ps| && Hit(entities, transforms, start, ps[k])
                  && ev == CollisionEvent(entities[ps[k].0], entities[ps[k].1])
  {
    SweepHitEvents(entities, transforms, start, ps);
    HitEventsMembers(entities, transforms, start, ps);
  }

  /** The pair `p` writes the flag of entity `id`. */
  predicate Touches(entities: seq<Entity>, p: (nat, nat), id: nat)
    requires p.0 < |entities| && p.1 < |entities|
  {
    entities[p.0] != entities[p.1] && (entities[p.0].id == id || entities[p.1].id == id)
  }

  /** A collider no pair involved keeps its flag. */
  lemma {:induction false} SweepUntouched(entities: seq<Entity>, transforms: map<nat, Transform>,
                                          start: map<nat, BoxCollider>, ps: seq<(nat, nat)>, id: nat)
    requires Present(entities, transforms, start) && InRange(ps, |entities|) && id in start
    requires forall k :: 0 <= k < |ps| ==> !Touches(entities, ps[k], id)
    ensures Sweep(entities, transforms, start, ps).colliders[id] == start[id]
  {
    if ps != [] {
      var init := ps[..|ps| - 1];
      assert ps[|ps| - 1] in ps;
      assert forall q :: q in init ==> q in ps;
      assert forall k :: 0 <= k < |init| ==> init[k] == ps[k];
      SweepUntouched(entities, transforms, start, init, id);
      CheckFlag(entities, transforms, start, ps[|ps| - 1], Sweep(entities, transforms, start, init), id);
    }
  }

  /** A collider's flag is the result of the last pair that involved it: an
      earlier hit is overwritten by a later miss. */
  lemma {:induction false} SweepFlag(entities: seq<Entity>, transforms: map<nat, Transform>,
                                     start: map<nat, BoxCollider>, ps: seq<(nat, nat)>, id: nat, k: nat)
    requires Present(entities, transforms, start) && InRange(ps, |entities|) && id in start
    requires k < |ps| && Touches(entities, ps[k], id)
    requires forall l :: k < l < |ps| ==> !Touches(entities, ps[l], id)
    ensures Sweep(entities, transforms, start, ps).colliders[id].isColliding == Collides(entities, transforms, start, ps[k])
  {
    var init := ps[..|ps| - 1];
    assert ps[|ps| - 1] in ps;
    assert forall q :: q in init ==> q in ps;
    CheckFlag(entities, transforms, start, ps[|ps| - 1], Sweep(entities, transforms, start, init), id);
    if k < |ps| - 1 {
      assert forall l :: 0 <= l < |init| ==> init[l] == ps[l];
      SweepFlag(entities, transforms, start, init, id, k);
    }
  }

  /** One pair: a pair that does not involve `id` leaves its collider alone,
      one that does sets its flag to the test's result. */
  lemma CheckFlag(entities: seq<Entity>, transforms: map<nat, Transform>, start: map<nat, BoxCollider>,
                  p: (nat, nat), s: Pass, id: nat)
    requires Present(entities, transforms, start) && p.0 < |entities| && p.1 < |entities|
    requires s.colliders.Keys == start.Keys && id in start
    ensures !Touches(entities, p, id) ==> Check(entities, transforms, start, p, s).colliders[id] == s.colliders[id]
    ensures Touches(entities, p, id) ==>
      Check(entities, transforms, start, p, s).colliders[id].isColliding == Collides(entities, transforms, start, p)
  {
  }

  /** Every event of a whole `Update` names two entities at positions i < j
      whose boxes collide. */
  lemma EventSound(entities: seq<Entity>, transforms: map<nat, Transform>, start: map<nat, BoxCollider>,
                   a: Entity, b: Entity)
    requires Present(entities, transforms, start) && InRange(Pairs(|entities|), |entities|)
    requires CollisionEvent(a, b) in Sweep(entities, transforms, start, Pairs(|entities|)).events
    ensures exists i, j :: 0 <= i < j < |entities| && Hit(entities, transforms, start, (i, j))
                           && a == entities[i] && b == entities[j]
  {
    var ps := Pairs(|entities|);
    PairsMembers(|entities|, |entities|);
    SweepEvents(entities, transforms, start, ps);
    var k :| 0 <= k < |ps| && Hit(entities, transforms, start, ps[k])
             && CollisionEvent(a, b) == CollisionEvent(entities[ps[k].0], entities[ps[k].1]);
    assert ps[k] in ps;
    var i, j := ps[k].0, ps[k].1;
    assert ps[k] == (i, j);
  }

  /** Every colliding pair of different entities at positions i < j is
      emitted by a whole `Update`. */
  lemma EventComplete(entities: seq<Entity>, transforms: map<nat, Transform>, start: map<nat, BoxCollider>,
                      i: nat, j: nat)
    requires Present(entities, transforms, start) && InRange(Pairs(|entities|), |entities|)
    requires i < j < |entities| && Hit(entities, transforms, start, (i, j))
    ensures CollisionEvent(entities[i], entities[j]) in Sweep(entities, transforms, start, Pairs(|entities|)).events
  {
    var ps := Pairs(|entities|);
    PairsMembers(|entities|, |entities|);
    SweepEvents(entities, transforms, start, ps);
    assert (i, j) in ps;
    var k :| 0 <= k < |ps| && ps[k] == (i, j);
  }

  /** The events of a whole `Update`: one per pair of positions i < j whose
      entities differ and whose boxes collide. */
  lemma UpdateEvents(entities: seq<Entity>, transforms: map<nat, Transform>, start: map<nat, BoxCollider>)
    requires Present(entities, transforms, start)
    ensures InRange(Pairs(|entities|), |entities|)
    ensures forall a, b :: CollisionEvent(a, b) in Sweep(entities, transforms, start, Pairs(|entities|)).events <==>
      exists i, j :: 0 <= i < j < |entities| && Hit(entities, transforms, start, (i, j))
                     && a == entities[i] && b == entities[j]
  {
    PairsInRange(|entities|, |entities|, |entities|);
    assert Pairs(|entities|) == PairsUpTo(|entities|, |entities|) + RowPrefix(|entities|, |entities|, |entities|);
    forall a, b
      ensures CollisionEvent(a, b) in Sweep(entities, transforms, start, Pairs(|entities|)).events <==>
        exists i, j :: 0 <= i < j < |entities| && Hit(entities, transforms, start, (i, j))
                       && a == entities[i] && b == entities[j]
    {
      if CollisionEvent(a, b) in Sweep(entities, transforms, start, Pairs(|entities|)).events {
        EventSound(entities, transforms, start, a, b);
      }
      if exists i, j :: 0 <= i < j < |entities| && Hit(entities, transforms, start, (i, j))
                        && a == entities[i] && b == entities[j] {
        var i, j :| 0 <= i < j < |entities| && Hit(entities, transforms, start, (i, j))
                    && a == entities[i] && b == entities[j];
        EventComplete(entities, transforms, start, i, j);
      }
    }
  }

  /** Extending the visited pairs by one is one more `Check`. */
  lemma SweepSnoc(entities: seq<Entity>, transforms: map<nat, Transform>, start: map<nat, BoxCollider>,
                  ps: seq<(nat, nat)>, p: (nat, nat))
    requires Present(entities, transforms, start) && InRange(ps + [p], |entities|)
    ensures InRange(ps, |entities|)
    ensures Sweep(entities, transforms, start, ps + [p])
         == Check(entities, transforms, start, p, Sweep(entities, transforms, start, ps))
  {
    assert (ps + [p])[..|ps|] == ps;
    assert forall q :: q in ps ==> q in ps + [p];
  }

  /** The inner loop's body for the entities at positions `i` and `j`: the
      colliders are read and written through references. */
  method CheckPair(entities: seq<Entity>, transforms: map<nat, Transform>, colliders: map<nat, BoxCollider>,
                   i: nat, j: nat, r: Pass) returns (r': Pass)
    requires Present(entities, transforms, colliders) && i < |entities| && j < |entities|
    requires SameShapes(r.colliders, colliders)
    ensures r' == Check(entities, transforms, colliders, (i, j), r)
    ensures SameShapes(r'.colliders, colliders)
  {
    r' := r;
    var a, b := entities[i], entities[j];
    assert a in entities && b in entities;
    if a != b {
      var aTransform, bTransform := transforms[a.id], transforms[b.id];
      var aCollider, bCollider := r.colliders[a.id], r.colliders[b.id];
      ShapeBox(aTransform, aCollider, colliders[a.id]);
      ShapeBox(bTransform, bCollider, colliders[b.id]);
      var collided := CheckAABBCollision(
        Box(aTransform.position.x + aCollider.offset.x, aTransform.position.y + aCollider.offset.y,
            aCollider.width as real, aCollider.height as real),
        Box(bTransform.position.x + bCollider.offset.x, bTransform.position.y + bCollider.offset.y,
            bCollider.width as real, bCollider.height as real));
      assert collided == Collides(entities, transforms, colliders, (i, j));
      if collided {
        r' := r'.(colliders := SetFlag(r'.colliders, a.id, true));
        r' := r'.(colliders := SetFlag(r'.colliders, b.id, true));
        r' := r'.(events := r'.events + [CollisionEvent(a, b)]);
      } else {
        r' := r'.(colliders := SetFlag(r'.colliders, a.id, false));
        r' := r'.(colliders := SetFlag(r'.colliders, b.id, false));
      }
      SetFlagShapes(r.colliders, colliders, a.id, collided);
      SetFlagShapes(SetFlag(r.colliders, a.id, collided), colliders, b.id, collided);
    }
  }

  /** The state after one more step of the inner loop is one more `Check`. */
  lemma RowStep(entities: seq<Entity>, transforms: map<nat, Transform>, colliders: map<nat, BoxCollider>,
                i: nat, j: nat, s: Pass)
    requires Present(entities, transforms, colliders) && i <= j < |entities|
    requires InRange(Visited(i, j, |entities|), |entities|)
    requires s == Sweep(entities, transforms, colliders, Visited(i, j, |entities|))
    ensures InRange(Visited(i, j + 1, |entities|), |entities|)
    ensures s.colliders.Keys == colliders.Keys
    ensures Sweep(entities, transforms, colliders, Visited(i, j + 1, |entities|))
         == Check(entities, transforms, colliders, (i, j), s)
  {
    VisitedSnoc(i, j, |entities|);
    SweepSnoc(entities, transforms, colliders, Visited(i, j, |entities|), (i, j));
  }

  /** A finished inner loop has visited the pairs of one more round. */
  lemma RowDone(entities: seq<Entity>, transforms: map<nat, Transform>, colliders: map<nat, BoxCollider>,
                i: nat, j: nat, s: Pass)
    requires Present(entities, transforms, colliders) && j == |entities|
    requires InRange(Visited(i, j, |entities|), |entities|)
    requires s == Sweep(entities, transforms, colliders, Visited(i, j, |entities|))
    ensures InRange(PairsUpTo(i + 1, |entities|), |entities|)
    ensures s == Sweep(entities, transforms, colliders, PairsUpTo(i + 1, |entities|))
  {
    assert PairsUpTo(i + 1, |entities|) == Visited(i, j, |entities|);
  }

  /** The inner loop: entity `i` against itself and every entity after it. */
  method SweepRow(entities: seq<Entity>, transforms: map<nat, Transform>, colliders: map<nat, BoxCollider>,
                  i: nat, r: Pass) returns (r': Pass)
    requires Present(entities, transforms, colliders) && i < |entities|
    requires InRange(PairsUpTo(i, |entities|), |entities|)
    requires r == Sweep(entities, transforms, colliders, PairsUpTo(i, |entities|))
    requires SameShapes(r.colliders, colliders)
    ensures InRange(PairsUpTo(i + 1, |entities|), |entities|)
    ensures r' == Sweep(entities, transforms, colliders, PairsUpTo(i + 1, |entities|))
    ensures SameShapes(r'.colliders, colliders)
  {
    var n := |entities|;
    r' := r;
    var j := i;
    assert Visited(i, j, n) == PairsUpTo(i, n);
    while j < n
      invariant i <= j <= n
      invariant InRange(Visited(i, j, n), n)
      invariant r' == Sweep(entities, transforms, colliders, Visited(i, j, n))
      invariant SameShapes(r'.colliders, colliders)
    {
      RowStep(entities, transforms, colliders, i, j, r');
      r' := CheckPair(entities, transforms, colliders, i, j, r');
      j := j + 1;
    }
    RowDone(entities, transforms, colliders, i, j, r');
  }

  /** `CollisionSystem::Update(false, eventBus)`: the colliders after the
      sweep and the CollisionEvents emitted, in order. */
  method Update(entities: seq<Entity>, transforms: map<nat, Transform>, colliders: map<nat, BoxCollider>)
    returns (r: Pass)
    requires Present(entities, transforms, colliders)
    ensures InRange(Pairs(|entities|), |entities|)
    ensures r == Sweep(entities, transforms, colliders, Pairs(|entities|))
    ensures SameShapes(r.colliders, colliders)
    ensures forall a, b :: CollisionEvent(a, b) in r.events <==>
      exists i, j :: 0 <= i < j < |entities| && Hit(entities, transforms, colliders, (i, j))
                     && a == entities[i] && b == entities[j]
  {
    var n := |entities|;
    UpdateEvents(entities, transforms, colliders);
    r := Pass(colliders, []);
    var i := 0;
    while i < n
      invariant 0 <= i <= n
      invariant InRange(PairsUpTo(i, n), n)
      invariant r == Sweep(entities, transforms, colliders, PairsUpTo(i, n))
      invariant SameShapes(r.colliders, colliders)
    {
      r := SweepRow(entities, transforms, colliders, i, r);
      i := i + 1;
    }
  }
}
