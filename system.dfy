// The System base class (src/ECS/ECS.h, class System; src/ECS/ECS.cpp,
// System::AddEntityToSystem, RemoveEntityFromSystem, GetSystemEntities).
// A system is held by the registry as a value: its required signature and its
// list of entities, which only the registry changes once the system exists.

module SystemBase {
  import opened Entities
  import opened Signatures
  import opened ComponentTypes

  datatype System = System(signature: Signature, entities: seq<Entity>)

  /** `System::GetSystemEntities`: a copy of the entity list. */
  function GetSystemEntities(s: System): seq<Entity>
  {
    s.entities
  }

  /** `System::AddEntityToSystem`: `push_back`. */
  function AddEntityToSystem(s: System, e: Entity): (r: System)
    ensures r.signature == s.signature
    ensures |r.entities| == |s.entities| + 1 && r.entities[..|s.entities|] == s.entities
    ensures r.entities[|s.entities|] == e
  {
    System(s.signature, s.entities + [e])
  }

  /** The entities of `es`, in order, whose id is not in `ids`. */
  function Without(es: seq<Entity>, ids: set<nat>): seq<Entity>
  {
    if es == [] then []
    else Without(es[..|es| - 1], ids) + (if es[|es| - 1].id in ids then [] else [es[|es| - 1]])
  }

  /** Filtering keeps exactly the entities whose id is not in `ids`, and
      never lengthens the list. */
  lemma {:induction false} WithoutMembers(es: seq<Entity>, ids: set<nat>)
    ensures |Without(es, ids)| <= |es|
    ensures forall x :: x in Without(es, ids) <==> x in es && x.id !in ids
    decreases |es|
  {
    if es != [] {
      var init, last := es[..|es| - 1], es[|es| - 1];
      assert es == init + [last];
      WithoutMembers(init, ids);
    }
  }

  /** Filtering keeps relative order: it distributes over concatenation. */
  lemma {:induction false} WithoutAppend(xs: seq<Entity>, ys: seq<Entity>, ids: set<nat>)
    ensures Without(xs + ys, ids) == Without(xs, ids) + Without(ys, ids)
    decreases |ys|
  {
    if ys == [] {
      assert xs + ys == xs;
    } else {
      var last := ys[|ys| - 1];
      assert (xs + ys)[..|xs + ys| - 1] == xs + ys[..|ys| - 1];
      WithoutAppend(xs, ys[..|ys| - 1], ids);
    }
  }

  /** Filtering out one id after a set of ids is filtering out both. */
  lemma {:induction false} WithoutTwice(es: seq<Entity>, ids: set<nat>, id: nat)
    ensures Without(Without(es, ids), {id}) == Without(es, ids + {id})
    decreases |es|
  {
    if es != [] {
      var init := es[..|es| - 1];
      var last := es[|es| - 1];
      WithoutTwice(init, ids, id);
      WithoutAppend(Without(init, ids), if last.id in ids then [] else [last], {id});
    }
  }

  /** An entity list holding none of `ids` is left as it is. */
  lemma {:induction false} WithoutNothing(es: seq<Entity>, ids: set<nat>)
    requires forall x :: x in es ==> x.id !in ids
    ensures Without(es, ids) == es
    decreases |es|
  {
    if es != [] {
      var init, last := es[..|es| - 1], es[|es| - 1];
      assert es == init + [last];
      assert last in es;
      assert forall x :: x in init ==> x in es;
      WithoutNothing(init, ids);
    }
  }

  /** `System::RemoveEntityFromSystem`: the erase/`remove_if` idiom, which
      deletes every handle equal to `e` and keeps the others in order. */
  method RemoveEntityFromSystem(s: System, e: Entity) returns (r: System)
    ensures r.signature == s.signature
    ensures r.entities == Without(s.entities, {e.id})
    ensures forall x :: x in r.entities <==> x in s.entities && x != e
  {
    var kept: seq<Entity> := [];
    var i := 0;
    while i < |s.entities|
      invariant 0 <= i <= |s.entities|
      invariant kept == Without(s.entities[..i], {e.id})
    {
      assert s.entities[..i + 1][..i] == s.entities[..i];
      if s.entities[i] != e {
        kept := kept + [s.entities[i]];
      }
      i := i + 1;
    }
    assert s.entities[..i] == s.entities;
    WithoutMembers(s.entities, {e.id});
    r := System(s.signature, kept);
  }

  /** `System::RequireComponent<K>()`: turn on the bit of `K`'s id. */
  method RequireComponent<K(==, !new)>(types: ComponentIds<K>, s: System, k: K) returns (r: System)
    requires types.Valid() && types.Peek(k) < MaxComponents
    modifies types
    ensures types.Valid()
    ensures k in old(types.ids) ==> types.ids == old(types.ids) && types.next == old(types.next)
    ensures k !in old(types.ids) ==>
      types.ids == old(types.ids)[k := old(types.next)] && types.next == old(types.next) + 1
    ensures r == System(s.signature + {types.ids[k]}, s.entities)
  {
    var id := types.GetId(k);
    r := System(s.signature + {id}, s.entities);
  }

  /** The signature bits of the types `ks`, as looked up in `ids`. */
  ghost function Bits<K(!new)>(ids: map<K, nat>, ks: seq<K>): Signature
    requires forall k :: k in ks ==> k in ids
  {
    if ks == [] then {}
    else
      var k := ks[|ks| - 1];
      assert forall j :: j in ks[..|ks| - 1] ==> j in ks;
      Bits(ids, ks[..|ks| - 1]) + {ids[k]}
  }

  /** The bits are exactly the ids of the types asked about. */
  lemma {:induction false} BitsMembers<K(!new)>(ids: map<K, nat>, ks: seq<K>)
    requires forall k :: k in ks ==> k in ids
    ensures forall b :: b in Bits(ids, ks) <==> exists k :: k in ks && ids[k] == b
    decreases |ks|
  {
    if ks != [] {
      var k := ks[|ks| - 1];
      assert forall j :: j in ks <==> j in ks[..|ks| - 1] || j == k;
      BitsMembers(ids, ks[..|ks| - 1]);
    }
  }

  /** Bits only depend on the ids of the types asked about. */
  lemma {:induction false} BitsAgree<K(!new)>(before: map<K, nat>, after: map<K, nat>, ks: seq<K>)
    requires forall k :: k in ks ==> k in before && k in after && after[k] == before[k]
    ensures Bits(after, ks) == Bits(before, ks)
    decreases |ks|
  {
    if ks != [] {
      assert forall j :: j in ks[..|ks| - 1] ==> j in ks;
      BitsAgree(before, after, ks[..|ks| - 1]);
    }
  }

  /** One `RequireComponent` step of `NewSystem`: the table follows
      `IdsAfter` one type further and the signature gains that type's bit. */
  lemma RequireStep<K(!new)>(ids0: map<K, nat>, next0: nat, done: seq<K>, k: K,
                             before: map<K, nat>, beforeNext: nat, after: map<K, nat>, afterNext: nat)
    requires before == IdsAfter(ids0, next0, done).0 && beforeNext == IdsAfter(ids0, next0, done).1
    requires k in before ==> after == before && afterNext == beforeNext
    requires k !in before ==> after == before[k := beforeNext] && afterNext == beforeNext + 1
    requires forall j :: j in done ==> j in before
    ensures after == IdsAfter(ids0, next0, done + [k]).0 && afterNext == IdsAfter(ids0, next0, done + [k]).1
    ensures forall j :: j in done + [k] ==> j in after
    ensures Bits(after, done + [k]) == Bits(before, done) + {after[k]}
  {
    IdsAfterSnoc(ids0, next0, done, k);
    assert (done + [k])[..|done|] == done;
    BitsAgree(before, after, done);
  }

  /** Growing a prefix by one element; called inside the larger loop proof
      of `NewSystem`. */
  lemma PrefixSnoc<T>(xs: seq<T>, i: nat)
    requires i < |xs|
    ensures xs[..i + 1] == xs[..i] + [xs[i]]
  {
  }

  /** While asking for the ids of `ks` in turn, a type without an id yet
      gets one below `MaxComponents` when all of `ks` fit. */
  lemma NextFits<K(!new)>(ids0: map<K, nat>, next0: nat, ks: seq<K>, i: nat)
    requires i < |ks| && IdsAfter(ids0, next0, ks).1 <= MaxComponents
    ensures ks[i] !in IdsAfter(ids0, next0, ks[..i]).0 ==> IdsAfter(ids0, next0, ks[..i]).1 < MaxComponents
  {
    PrefixSnoc(ks, i);
    IdsAfterPrefix(ids0, next0, ks, i + 1);
    IdsAfterSnoc(ids0, next0, ks[..i], ks[i]);
  }

  /** A concrete system's constructor: a system with no entities that calls
      `RequireComponent` for each of its component types in turn. */
  method NewSystem<K(==, !new)>(types: ComponentIds<K>, required: seq<K>) returns (s: System)
    requires types.Valid()
    requires IdsAfter(types.ids, types.next, required).1 <= MaxComponents
    modifies types
    ensures types.Valid()
    ensures types.ids == IdsAfter(old(types.ids), old(types.next), required).0
    ensures types.next == IdsAfter(old(types.ids), old(types.next), required).1
    ensures forall k :: k in required ==> k in types.ids
    ensures s == System(Bits(types.ids, required), [])
    ensures forall b :: b in s.signature ==> b < types.next
    ensures IsSignature(s.signature)
  {
    ghost var ids0, next0 := types.ids, types.next;
    ghost var done: seq<K> := [];
    s := System({}, []);
    var i := 0;
    while i < |required|
      invariant 0 <= i <= |required| && done == required[..i]
      invariant types.Valid()
      invariant (types.ids, types.next) == IdsAfter(ids0, next0, done)
      invariant forall k :: k in done ==> k in types.ids
      invariant s == System(Bits(types.ids, done), [])
    {
      var k := required[i];
      NextFits(ids0, next0, required, i);
      ghost var before, beforeNext := types.ids, types.next;
      s := RequireComponent(types, s, k);
      RequireStep(ids0, next0, done, k, before, beforeNext, types.ids, types.next);
      PrefixSnoc(required, i);
      done := done + [k];
      i := i + 1;
    }
    assert done == required;
    BitsMembers(types.ids, required);
  }
}
