// The registry (src/ECS/ECS.h, class Registry and its template members;
// src/ECS/ECS.cpp, CreateEntity, KillEntity, AddEntityToSystems,
// RemoveEntityFromSystems and Update).

module Registries {
  import opened Entities
  import opened Signatures
  import opened ComponentTypes
  import opened Pools
  import opened SystemBase

  /** The entities, in the order of `ids`, whose signature in `sigs` meets `sig`:
      what a run of `AddEntityToSystems` calls appends to a system. */
  function Matching(ids: seq<nat>, sigs: seq<Signature>, sig: Signature): seq<Entity>
    requires forall id :: id in ids ==> id < |sigs|
  {
    if ids == [] then []
    else
      var init, last := ids[..|ids| - 1], ids[|ids| - 1];
      assert forall id :: id in init ==> id in ids;
      assert last in ids;
      Matching(init, sigs, sig) + (if Interested(sigs[last], sig) then [Entity(last)] else [])
  }

  /** The matches are exactly the entities of the run whose signature meets
      `sig`, at most one per id of the run. */
  lemma {:induction false} MatchingMembers(ids: seq<nat>, sigs: seq<Signature>, sig: Signature)
    requires forall id :: id in ids ==> id < |sigs|
    ensures |Matching(ids, sigs, sig)| <= |ids|
    ensures forall x :: x in Matching(ids, sigs, sig) <==> x.id in ids && Interested(sigs[x.id], sig)
    decreases |ids|
  {
    if ids != [] {
      var init, last := ids[..|ids| - 1], ids[|ids| - 1];
      assert ids == init + [last];
      assert forall id :: id in init ==> id in ids;
      MatchingMembers(init, sigs, sig);
    }
  }

  /** Matching distributes over concatenation of runs. */
  lemma {:induction false} MatchingAppend(xs: seq<nat>, ys: seq<nat>, sigs: seq<Signature>, sig: Signature)
    requires forall id :: id in xs + ys ==> id < |sigs|
    ensures forall id :: id in xs ==> id < |sigs|
    ensures forall id :: id in ys ==> id < |sigs|
    ensures Matching(xs + ys, sigs, sig) == Matching(xs, sigs, sig) + Matching(ys, sigs, sig)
    decreases |ys|
  {
    assert forall id :: id in xs ==> id in xs + ys;
    assert forall id :: id in ys ==> id in xs + ys;
    if ys == [] {
      assert xs + ys == xs;
    } else {
      var init := ys[..|ys| - 1];
      assert (xs + ys)[..|xs + ys| - 1] == xs + init;
      assert forall id :: id in xs + init ==> id in xs + ys;
      MatchingAppend(xs, init, sigs, sig);
    }
  }

  /** One more entity in the run: it is appended when the system is interested. */
  lemma MatchingSnoc(es: seq<Entity>, done: seq<nat>, id: nat, sigs: seq<Signature>, sig: Signature)
    requires id < |sigs| && forall x :: x in done ==> x < |sigs|
    ensures forall x :: x in done + [id] ==> x < |sigs|
    ensures es + Matching(done + [id], sigs, sig)
         == if Interested(sigs[id], sig) then (es + Matching(done, sigs, sig)) + [Entity(id)]
            else es + Matching(done, sigs, sig)
  {
    assert (done + [id])[..|done|] == done;
    assert es + (Matching(done, sigs, sig) + [Entity(id)]) == (es + Matching(done, sigs, sig)) + [Entity(id)];
  }

  /** A run in ascending id order yields matches in ascending id order, so
      each system receives its new entities sorted by id, each once. */
  lemma {:induction false} MatchingAscending(ids: seq<nat>, sigs: seq<Signature>, sig: Signature)
    requires forall id :: id in ids ==> id < |sigs|
    requires forall i, j :: 0 <= i < j < |ids| ==> ids[i] < ids[j]
    ensures forall i, j :: 0 <= i < j < |Matching(ids, sigs, sig)| ==>
      Matching(ids, sigs, sig)[i].id < Matching(ids, sigs, sig)[j].id
    decreases |ids|
  {
    if ids != [] {
      var init := ids[..|ids| - 1];
      var last := ids[|ids| - 1];
      assert forall id :: id in init ==> id in ids;
      MatchingAscending(init, sigs, sig);
      MatchingMembers(init, sigs, sig);
      var m := Matching(init, sigs, sig);
      forall x | x in m ensures x.id < last {
        var k :| 0 <= k < |init| && init[k] == x.id;
      }
    }
  }

  /** The list a system holds after `Registry::Update`: its old list plus the
      pending adds it is interested in, ascending, minus every pending kill. */
  ghost function Flushed(entities: seq<Entity>, toAdd: set<nat>, toKill: set<nat>,
                   sigs: seq<Signature>, sig: Signature): (r: seq<Entity>)
    requires forall id :: id in toAdd ==> id < |sigs|
    ensures forall x :: x in r <==>
      (x in entities || (x.id in toAdd && Interested(sigs[x.id], sig))) && x.id !in toKill
  {
    AscendingMembers(toAdd);
    MatchingMembers(Ascending(toAdd), sigs, sig);
    WithoutMembers(entities + Matching(Ascending(toAdd), sigs, sig), toKill);
    Without(entities + Matching(Ascending(toAdd), sigs, sig), toKill)
  }

  /** An entity created and killed in the same frame joins no system. */
  lemma CreatedAndKilledJoinsNothing(entities: seq<Entity>, toAdd: set<nat>, toKill: set<nat>,
                                     sigs: seq<Signature>, sig: Signature, id: nat)
    requires forall id :: id in toAdd ==> id < |sigs|
    requires id in toAdd && id in toKill
    ensures Entity(id) !in Flushed(entities, toAdd, toKill, sigs, sig)
  {
  }

  /** `System::AddEntityToSystem` when the system is interested in `sig`. */
  function Offer(s: System, e: Entity, sig: Signature): (r: System)
    ensures r.signature == s.signature
    ensures r.entities == if Interested(sig, s.signature) then s.entities + [e] else s.entities
  {
    if Interested(sig, s.signature) then AddEntityToSystem(s, e) else s
  }

  /** Every system of `systems` with the entities of the run `done` that it
      is interested in appended. */
  ghost function WithMatches<S>(systems: map<S, System>, done: seq<nat>, sigs: seq<Signature>): map<S, System>
    requires forall id :: id in done ==> id < |sigs|
  {
    map t | t in systems :: System(systems[t].signature, systems[t].entities + Matching(done, sigs, systems[t].signature))
  }

  /** Every system of `systems` with the ids of `killed` filtered out. */
  ghost function WithoutIds<S>(systems: map<S, System>, killed: set<nat>): map<S, System>
  {
    map t | t in systems :: System(systems[t].signature, Without(systems[t].entities, killed))
  }

  lemma WithMatchesStep<S>(systems: map<S, System>, done: seq<nat>, id: nat, sigs: seq<Signature>)
    requires id < |sigs| && forall x :: x in done ==> x < |sigs|
    ensures forall x :: x in done + [id] ==> x < |sigs|
    ensures WithMatches(systems, done + [id], sigs)
         == map t | t in WithMatches(systems, done, sigs) :: Offer(WithMatches(systems, done, sigs)[t], Entity(id), sigs[id])
  {
    forall t | t in systems
      ensures systems[t].entities + Matching(done + [id], sigs, systems[t].signature)
           == Offer(WithMatches(systems, done, sigs)[t], Entity(id), sigs[id]).entities
    {
      MatchingSnoc(systems[t].entities, done, id, sigs, systems[t].signature);
    }
  }

  lemma WithMatchesNothing<S>(systems: map<S, System>, sigs: seq<Signature>)
    ensures WithMatches(systems, [], sigs) == systems
  {
    forall t | t in systems
      ensures systems[t].entities + Matching([], sigs, systems[t].signature) == systems[t].entities
    {
      assert systems[t].entities + [] == systems[t].entities;
    }
  }

  lemma WithoutIdsStep<S>(systems: map<S, System>, killed: set<nat>, id: nat)
    ensures WithoutIds(systems, killed + {id})
         == map t | t in WithoutIds(systems, killed) ::
              System(WithoutIds(systems, killed)[t].signature, Without(WithoutIds(systems, killed)[t].entities, {id}))
  {
    forall t | t in systems
      ensures Without(Without(systems[t].entities, killed), {id}) == Without(systems[t].entities, killed + {id})
    {
      WithoutTwice(systems[t].entities, killed, id);
    }
  }

  lemma WithoutIdsNothing<S>(systems: map<S, System>)
    ensures WithoutIds(systems, {}) == systems
  {
    forall t | t in systems
      ensures Without(systems[t].entities, {}) == systems[t].entities
    {
      WithoutNothing(systems[t].entities, {});
    }
  }

  /** The signatures with those of `killed` reset. */
  function Reset(sigs: seq<Signature>, killed: set<nat>): (r: seq<Signature>)
    ensures |r| == |sigs|
    ensures forall i :: 0 <= i < |r| ==> r[i] == if i in killed then {} else sigs[i]
  {
    seq(|sigs|, i requires 0 <= i < |sigs| => if i in killed then {} else sigs[i])
  }

  lemma ResetStep(sigs: seq<Signature>, killed: set<nat>, id: nat)
    requires id < |sigs|
    ensures Reset(sigs, killed)[id := {}] == Reset(sigs, killed + {id})
  {
  }

  /** The two loops of `Registry::Update` together give each system its
      `Flushed` list. */
  lemma FlushedSystems<S>(systems: map<S, System>, toAdd: set<nat>, toKill: set<nat>, sigs: seq<Signature>)
    requires forall id :: id in toAdd ==> id < |sigs|
    requires forall id :: id in Ascending(toAdd) ==> id < |sigs|
    ensures WithoutIds(WithMatches(systems, Ascending(toAdd), sigs), toKill)
         == map t | t in systems :: System(systems[t].signature, Flushed(systems[t].entities, toAdd, toKill, sigs, systems[t].signature))
  {
  }

  /** The registry's invariant over its fields, for `next` component ids
      assigned and `n` entity ids handed out: signatures exist for every id
      handed out and use only assigned type ids; pending ids are handed out
      and not free; free ids are distinct, handed out and have empty
      signatures; every system uses assigned type ids and holds only live
      entities. */
  ghost predicate Consistent<S>(next: nat, n: nat, toAdd: set<nat>, toKill: set<nat>, sigs: seq<Signature>,
                                systems: map<S, System>, freeIds: seq<nat>)
  {
    && |sigs| == n
    && (forall i :: 0 <= i < |sigs| ==> forall b :: b in sigs[i] ==> b < next)
    && (forall id :: id in toAdd ==> id < n && id !in freeIds)
    && (forall id :: id in toKill ==> id < n && id !in freeIds)
    && (forall i :: 0 <= i < |freeIds| ==> freeIds[i] < n && sigs[freeIds[i]] == {})
    && (forall i, j :: 0 <= i < j < |freeIds| ==> freeIds[i] != freeIds[j])
    && (forall t :: t in systems ==> forall b :: b in systems[t].signature ==> b < next)
    && (forall t :: t in systems ==>
          forall x :: x in systems[t].entities ==> x.id < n && x.id !in freeIds)
  }

  /** Assigning more component type ids keeps the invariant. */
  lemma MoreTypesConsistent<S>(next: nat, next': nat, n: nat, toAdd: set<nat>, toKill: set<nat>,
                               sigs: seq<Signature>, systems: map<S, System>, freeIds: seq<nat>)
    requires Consistent(next, n, toAdd, toKill, sigs, systems, freeIds) && next <= next'
    ensures Consistent(next', n, toAdd, toKill, sigs, systems, freeIds)
  {
  }

  /** `Registry::Update` keeps the invariant: the systems get their `Flushed`
      lists, the killed ids get empty signatures and join the free list. */
  lemma UpdateConsistent<S>(next: nat, n: nat, toAdd: set<nat>, toKill: set<nat>, sigs: seq<Signature>,
                            systems: map<S, System>, freeIds: seq<nat>)
    requires Consistent(next, n, toAdd, toKill, sigs, systems, freeIds)
    ensures forall id :: id in toAdd ==> id < |sigs|
    ensures Consistent(next, n, {}, {}, Reset(sigs, toKill),
                       map t | t in systems ::
                         System(systems[t].signature,
                                Flushed(systems[t].entities, toAdd, toKill, sigs, systems[t].signature)),
                       freeIds + Ascending(toKill))
  {
    FreeListAfterUpdate(freeIds, toKill, sigs, Reset(sigs, toKill));
    AscendingMembers(toKill);
  }

  /** The registry. `K` tags component types, `S` tags system types and `V`
      is the type of component values; `types` is the id table behind
      `Component<T>::GetId`, shared with the systems' constructors, and
      `blank(k)` is a default-constructed component of type `k`, the value of
      the slots a pool is created or grown with. */
  class Registry<K(==, !new), S(==), V> {
    const types: ComponentIds<K>
    const blank: K -> V
    /** `m_numEntities`: ids handed out so far. */
    var numEntities: nat
    /** `m_entitiesTobeAdded` and `m_entitiesToBeKilled`, by id. */
    var toAdd: set<nat>
    var toKill: set<nat>
    /** `m_componentTypePools`: the pool of each component id that has one. */
    var pools: map<nat, seq<V>>
    /** `m_entityComponentSignatures`, indexed by entity id. */
    var sigs: seq<Signature>
    /** `m_systems`. */
    var systems: map<S, System>
    /** `m_freeIds`, front first. */
    var freeIds: seq<nat>

    /** The id table is valid and the registry's fields are `Consistent`. */
    ghost predicate Valid()
      reads this, types
    {
      types.Valid() && Consistent(types.next, numEntities, toAdd, toKill, sigs, systems, freeIds)
    }

    constructor (types: ComponentIds<K>, blank: K -> V)
      requires types.Valid()
      ensures Valid()
      ensures this.types == types && this.blank == blank
      ensures numEntities == 0 && toAdd == {} && toKill == {} && pools == map[]
      ensures sigs == [] && systems == map[] && freeIds == []
    {
      this.types := types;
      this.blank := blank;
      numEntities := 0;
      toAdd := {};
      toKill := {};
      pools := map[];
      sigs := [];
      systems := map[];
      freeIds := [];
    }

    /** `Registry::CreateEntity`: reuse the oldest free id, or hand out the
        next one and give it an empty signature; either way flag it for adding. */
    method CreateEntity() returns (e: Entity)
      requires Valid()
      modifies this
      ensures Valid()
      ensures old(freeIds) == [] ==>
        && e.id == old(numEntities) && numEntities == old(numEntities) + 1
        && freeIds == [] && sigs == old(sigs) + [{}]
      ensures old(freeIds) != [] ==>
        && e.id == old(freeIds)[0] && numEntities == old(numEntities)
        && freeIds == old(freeIds)[1..] && sigs == old(sigs)
      ensures e.id < numEntities && sigs[e.id] == {} && e.id !in freeIds
      ensures toAdd == old(toAdd) + {e.id}
      ensures toKill == old(toKill) && pools == old(pools) && systems == old(systems)
    {
      var id: nat;
      if freeIds == [] {
        id := numEntities;
        numEntities := numEntities + 1;
        sigs := sigs + [{}];
      } else {
        id := freeIds[0];
        freeIds := freeIds[1..];
        assert forall i :: 0 <= i < |freeIds| ==> freeIds[i] == old(freeIds)[i + 1];
      }
      e := Entity(id);
      toAdd := toAdd + {id};
    }

    /** `Registry::KillEntity`: flag a live entity for killing. */
    method KillEntity(e: Entity)
      requires Valid()
      requires e.id < numEntities && e.id !in freeIds
      modifies this`toKill
      ensures Valid()
      ensures toKill == old(toKill) + {e.id}
    {
      toKill := toKill + {e.id};
    }

    /** `HasComponent<K>` on the current state, without registering `k`. */
    ghost predicate Has(e: Entity, k: K)
      reads this, types
      requires e.id < |sigs|
    {
      k in types.ids && types.ids[k] in sigs[e.id]
    }

    /** `Registry::AddComponent<K>`: store `v` in slot `e.id` of `k`'s pool
        (creating the pool with 100 blank slots, growing it to `numEntities`
        slots when `e.id` has none) and turn on `k`'s bit for `e`. */
    method AddComponent(e: Entity, k: K, v: V)
      requires Valid()
      requires e.id < numEntities && e.id !in freeIds
      requires types.Peek(k) < MaxComponents
      modifies this, types
      ensures Valid()
      ensures k in types.ids && types.ids[k] == old(types.Peek(k))
      ensures k in old(types.ids) ==> types.ids == old(types.ids) && types.next == old(types.next)
      ensures k !in old(types.ids) ==> types.ids == old(types.ids)[k := old(types.next)] && types.next == old(types.next) + 1
      ensures var c := types.ids[k];
        && pools == old(pools)[c := Store(if c in old(pools) then old(pools)[c] else NewPool(blank(k)),
                                          e.id, old(numEntities), blank(k), v)]
        && sigs == old(sigs)[e.id := old(sigs)[e.id] + {c}]
      ensures Has(e, k) && GetComponent(e, k) == v
      ensures numEntities == old(numEntities) && freeIds == old(freeIds)
      ensures toAdd == old(toAdd) && toKill == old(toKill) && systems == old(systems)
    {
      var c := types.GetId(k);
      var pool := if c in pools then pools[c] else NewPool(blank(k));
      pools := pools[c := Store(pool, e.id, numEntities, blank(k), v)];
      sigs := sigs[e.id := sigs[e.id] + {c}];
    }

    /** `Registry::RemoveComponent<K>`: turn off `k`'s bit for `e`; the pool
        keeps the stale value. */
    method RemoveComponent(e: Entity, k: K)
      requires Valid()
      requires e.id < numEntities
      requires types.Peek(k) < MaxComponents
      modifies this`sigs, types
      ensures Valid()
      ensures k in types.ids && types.ids[k] == old(types.Peek(k))
      ensures k in old(types.ids) ==> types.ids == old(types.ids) && types.next == old(types.next)
      ensures k !in old(types.ids) ==> types.ids == old(types.ids)[k := old(types.next)] && types.next == old(types.next) + 1
      ensures sigs == old(sigs)[e.id := old(sigs)[e.id] - {types.ids[k]}]
      ensures !Has(e, k)
    {
      var c := types.GetId(k);
      sigs := sigs[e.id := sigs[e.id] - {c}];
    }

    /** `Registry::HasComponent<K>`: the test of `k`'s bit, which registers
        `k` when it had no id yet; a type without an id is on in no signature,
        so the answer is `Has` on the state before the call. */
    method HasComponent(e: Entity, k: K) returns (r: bool)
      requires Valid()
      requires e.id < numEntities
      requires types.Peek(k) < MaxComponents
      modifies types
      ensures Valid()
      ensures r == old(Has(e, k)) && r == Has(e, k)
      ensures k in types.ids && types.ids[k] == old(types.Peek(k))
      ensures k in old(types.ids) ==> types.ids == old(types.ids) && types.next == old(types.next)
      ensures k !in old(types.ids) ==> types.ids == old(types.ids)[k := old(types.next)] && types.next == old(types.next) + 1
    {
      var c := types.GetId(k);
      r := c in sigs[e.id];
    }

    /** `Registry::GetComponent<K>`: slot `e.id` of `k`'s pool, which must
        exist and hold that slot. */
    function GetComponent(e: Entity, k: K): V
      reads this, types
      requires k in types.ids && types.ids[k] in pools && e.id < |pools[types.ids[k]]|
    {
      pools[types.ids[k]][e.id]
    }

    /** `Registry::AddSystem<T>`: the new system's constructor always runs
        (registering its component types), but `insert` keeps a system
        already registered under `t`. */
    method AddSystem(t: S, required: seq<K>)
      requires Valid()
      requires IdsAfter(types.ids, types.next, required).1 <= MaxComponents
      modifies this`systems, types
      ensures Valid()
      ensures types.ids == IdsAfter(old(types.ids), old(types.next), required).0
      ensures types.next == IdsAfter(old(types.ids), old(types.next), required).1
      ensures forall k :: k in required ==> k in types.ids
      ensures t in old(systems) ==> systems == old(systems)
      ensures t !in old(systems) ==> systems == old(systems)[t := System(Bits(types.ids, required), [])]
      ensures HasSystem(t)
    {
      ghost var ids0, next0 := types.ids, types.next;
      var s := NewSystem(types, required);
      IdsAfterGrows(ids0, next0, required);
      MoreTypesConsistent(next0, types.next, numEntities, toAdd, toKill, sigs, systems, freeIds);
      if t !in systems {
        systems := systems[t := s];
      }
    }

    /** `Registry::RemoveSystem<T>`; erasing an absent system is undefined. */
    method RemoveSystem(t: S)
      requires Valid() && t in systems
      modifies this`systems
      ensures Valid()
      ensures systems == old(systems) - {t}
      ensures !HasSystem(t)
    {
      systems := systems - {t};
    }

    /** `Registry::HasSystem<T>`. */
    predicate HasSystem(t: S)
      reads this
    {
      t in systems
    }

    /** `Registry::GetSystem<T>`; an absent system is undefined. */
    function GetSystem(t: S): System
      reads this
      requires t in systems
    {
      systems[t]
    }

    /** `Registry::AddEntityToSystems`: append `e` to every system whose
        signature its signature covers. */
    method AddEntityToSystems(e: Entity)
      requires e.id < |sigs|
      modifies this`systems
      ensures systems == map t | t in old(systems) :: Offer(old(systems)[t], e, sigs[e.id])
    {
      var sig := sigs[e.id];
      var keys := systems.Keys;
      ghost var before := systems;
      while keys != {}
        invariant keys <= before.Keys && systems.Keys == before.Keys
        invariant forall t :: t in systems ==>
          systems[t] == if t in keys then before[t] else Offer(before[t], e, sig)
        decreases |keys|
      {
        var t :| t in keys;
        var s := systems[t];
        if Interested(sig, s.signature) {
          systems := systems[t := AddEntityToSystem(s, e)];
        }
        keys := keys - {t};
      }
    }

    /** `Registry::RemoveEntityFromSystems`: erase `e` from every system. */
    method RemoveEntityFromSystems(e: Entity)
      modifies this`systems
      ensures systems == map t | t in old(systems) ::
        System(old(systems)[t].signature, Without(old(systems)[t].entities, {e.id}))
    {
      var keys := systems.Keys;
      ghost var before := systems;
      while keys != {}
        invariant keys <= before.Keys && systems.Keys == before.Keys
        invariant forall t :: t in systems ==>
          systems[t] == if t in keys then before[t]
                        else System(before[t].signature, Without(before[t].entities, {e.id}))
        decreases |keys|
      {
        var t :| t in keys;
        var s := RemoveEntityFromSystem(systems[t], e);
        systems := systems[t := s];
        keys := keys - {t};
      }
    }

    /** The first loop of `Registry::Update`: every pending add, in
        ascending id order, goes through `AddEntityToSystems`. */
    method FlushAdds()
      requires forall id :: id in toAdd ==> id < |sigs|
      requires forall id :: id in Ascending(toAdd) ==> id < |sigs|
      modifies this`systems, this`toAdd
      ensures toAdd == {}
      ensures systems == WithMatches(old(systems), Ascending(old(toAdd)), sigs)
    {
      ghost var sys0, sg, all := systems, sigs, toAdd;
      var pending := toAdd;
      ghost var done: seq<nat> := [];
      WithMatchesNothing(sys0, sg);
      while pending != {}
        invariant sigs == sg
        invariant pending <= all && (forall id :: id in done ==> id in all)
        invariant Ascending(all) == done + Ascending(pending)
        invariant systems == WithMatches(sys0, done, sg)
        decreases |pending|
      {
        MinExists(pending);
        var id: nat :| id in pending && forall x :: x in pending ==> id <= x;
        AscendingStep(all, done, pending, id);
        WithMatchesStep(sys0, done, id, sg);
        AddEntityToSystems(Entity(id));
        done := done + [id];
        pending := pending - {id};
      }
      assert done == Ascending(all);
      toAdd := {};
    }

    /** The body of the second loop of `Registry::Update`: `e` leaves every
        system, its signature is reset and its id goes to the back of the
        free list. */
    method Retire(e: Entity)
      requires e.id < |sigs|
      modifies this`systems, this`sigs, this`freeIds
      ensures systems == map t | t in old(systems) ::
        System(old(systems)[t].signature, Without(old(systems)[t].entities, {e.id}))
      ensures sigs == old(sigs)[e.id := {}]
      ensures freeIds == old(freeIds) + [e.id]
    {
      RemoveEntityFromSystems(e);
      sigs := sigs[e.id := {}];
      freeIds := freeIds + [e.id];
    }

    /** The second loop of `Registry::Update`: every pending kill, in
        ascending id order, leaves every system, gets an empty signature and
        goes to the back of the free list. */
    method FlushKills()
      requires forall id :: id in toKill ==> id < |sigs|
      modifies this`systems, this`toKill, this`sigs, this`freeIds
      ensures toKill == {}
      ensures systems == WithoutIds(old(systems), old(toKill))
      ensures sigs == Reset(old(sigs), old(toKill))
      ensures freeIds == old(freeIds) + Ascending(old(toKill))
    {
      ghost var sys0, sg, free0, all := systems, sigs, freeIds, toKill;
      var pending := toKill;
      ghost var done: seq<nat> := [];
      ghost var killed: set<nat> := {};
      WithoutIdsNothing(sys0);
      assert Reset(sg, killed) == sg;
      while pending != {}
        invariant pending <= all && killed == all - pending
        invariant Ascending(all) == done + Ascending(pending)
        invariant systems == WithoutIds(sys0, killed)
        invariant sigs == Reset(sg, killed)
        invariant freeIds == free0 + done
        decreases |pending|
      {
        MinExists(pending);
        var id: nat :| id in pending && forall x :: x in pending ==> id <= x;
        AscendingStep(all, done, pending, id);
        WithoutIdsStep(sys0, killed, id);
        ResetStep(sg, killed, id);
        SeqAssoc(free0, done, [id]);
        Retire(Entity(id));
        done := done + [id];
        killed := killed + {id};
        pending := pending - {id};
      }
      assert killed == all && done == Ascending(all);
      toKill := {};
    }

    /** `Registry::Update`: pending adds join the systems, then pending kills
        leave them, both in ascending id order; killed ids get an empty
        signature and go to the back of the free list. */
    method Update()
      requires Valid()
      modifies this
      ensures Valid()
      ensures forall id :: id in old(toAdd) ==> id < |old(sigs)|
      ensures systems == map t | t in old(systems) ::
        System(old(systems)[t].signature,
               Flushed(old(systems)[t].entities, old(toAdd), old(toKill), old(sigs), old(systems)[t].signature))
      ensures sigs == Reset(old(sigs), old(toKill))
      ensures freeIds == old(freeIds) + Ascending(old(toKill))
      ensures toAdd == {} && toKill == {}
      ensures numEntities == old(numEntities) && pools == old(pools)
    {
      UpdateConsistent(types.next, numEntities, toAdd, toKill, sigs, systems, freeIds);
      AscendingMembers(toAdd);
      FlushedSystems(systems, toAdd, toKill, sigs);
      FlushAdds();
      FlushKills();
    }
  }

  /** The free list after `Update` stays duplicate-free when no killed id was
      already free, and every id on it has an empty signature once the killed
      ids' signatures are cleared. */
  lemma FreeListAfterUpdate(free: seq<nat>, kills: set<nat>, sigs0: seq<Signature>, sigs1: seq<Signature>)
    requires forall i, j :: 0 <= i < j < |free| ==> free[i] != free[j]
    requires forall i :: 0 <= i < |free| ==> free[i] < |sigs0| && sigs0[free[i]] == {}
    requires forall id :: id in kills ==> id < |sigs0| && id !in free
    requires |sigs1| == |sigs0|
    requires forall i :: 0 <= i < |sigs1| ==> sigs1[i] == if i in kills then {} else sigs0[i]
    ensures var r := free + Ascending(kills);
      && (forall i, j :: 0 <= i < j < |r| ==> r[i] != r[j])
      && (forall i :: 0 <= i < |r| ==> r[i] < |sigs1| && sigs1[r[i]] == {})
  {
    var a := Ascending(kills);
    AscendingSorted(kills);
    AscendingMembers(kills);
    var r := free + a;
    forall i, j | 0 <= i < j < |r|
      ensures r[i] != r[j]
    {
      if j >= |free| && i < |free| {
        assert r[j] == a[j - |free|] && r[j] in kills;
      } else if i >= |free| {
        assert a[i - |free|] < a[j - |free|];
      }
    }
    forall i | 0 <= i < |r|
      ensures r[i] < |sigs1| && sigs1[r[i]] == {}
    {
      if i < |free| {
        assert r[i] == free[i];
      } else {
        assert r[i] == a[i - |free|] && r[i] in kills;
      }
    }
  }

  /** Component types are independent: adding, removing or testing type `j`
      on an entity keeps every other type `k` it has, with its value. */
  method OtherComponentsKept<K(==, !new), S(==), V>(r: Registry<K, S, V>, e: Entity, k: K, j: K, v: V)
    requires r.Valid() && e.id < r.numEntities && e.id !in r.freeIds && e.id < |r.sigs|
    requires r.types.Peek(j) < MaxComponents && k != j
    requires r.Has(e, k) && r.types.ids[k] in r.pools && e.id < |r.pools[r.types.ids[k]]|
    modifies r, r.types
    ensures e.id < |r.sigs| && r.Has(e, k) && !r.Has(e, j)
    ensures r.types.ids[k] in r.pools && e.id < |r.pools[r.types.ids[k]]|
    ensures r.GetComponent(e, k) == old(r.GetComponent(e, k))
  {
    r.AddComponent(e, j, v);
    var had := r.HasComponent(e, j);
    assert had;
    r.RemoveComponent(e, j);
  }
}
