// Component type ids (src/ECS/ECS.h, `IComponent::m_nextId` and
// `Component<T>::GetId`; src/ECS/ECS.cpp, where the counter starts at 0).

module ComponentTypes {
  import opened Signatures

  /** The table `Component<T>::GetId` builds: each type tag `K` gets the value
      of the shared counter the first time it is asked for, and keeps it. */
  class ComponentIds<K(==, !new)> {
    var ids: map<K, nat>
    var next: nat

    /** Ids are distinct and below the counter, the counter counts the types
        seen so far, and no type got an id past the last signature bit. */
    ghost predicate Valid()
      reads this
    {
      && next <= MaxComponents
      && |ids| == next
      && (forall k :: k in ids ==> ids[k] < next)
      && (forall k1, k2 :: k1 in ids && k2 in ids && ids[k1] == ids[k2] ==> k1 == k2)
    }

    constructor ()
      ensures Valid() && ids == map[] && next == 0
    {
      ids := map[];
      next := 0;
    }

    /** The id `GetId` returns for `k` when called now. */
    function Peek(k: K): nat
      reads this
    {
      if k in ids then ids[k] else next
    }

    /** `Component<K>::GetId()`. An id past the last signature bit would make
        the caller's `bitset::set` throw, so callers ask only for ids that fit. */
    method GetId(k: K) returns (id: nat)
      requires Valid() && Peek(k) < MaxComponents
      modifies this
      ensures Valid()
      ensures id == old(Peek(k)) && id < MaxComponents
      ensures k in old(ids) ==> ids == old(ids) && next == old(next)
      ensures k !in old(ids) ==> ids == old(ids)[k := id] && next == old(next) + 1
    {
      if k !in ids {
        ids := ids[k := next];
        next := next + 1;
      }
      id := ids[k];
    }
  }

  /** The table and counter after asking for the ids of `ks`, left to right. */
  function IdsAfter<K(!new)>(ids: map<K, nat>, next: nat, ks: seq<K>): (map<K, nat>, nat)
  {
    if ks == [] then (ids, next)
    else
      var before := IdsAfter(ids, next, ks[..|ks| - 1]);
      var k := ks[|ks| - 1];
      if k in before.0 then before else (before.0[k := before.1], before.1 + 1)
  }

  /** Asking for ids keeps the ids already assigned, assigns every type asked
      for, and gives new types ids from the counter on, which only grows. */
  lemma {:induction false} IdsAfterGrows<K(!new)>(ids: map<K, nat>, next: nat, ks: seq<K>)
    ensures var r := IdsAfter(ids, next, ks);
      && r.1 >= next
      && (forall k :: k in r.0 <==> k in ids || k in ks)
      && (forall k :: k in ids ==> r.0[k] == ids[k])
      && (forall k :: k in r.0 && k !in ids ==> next <= r.0[k] < r.1)
    decreases |ks|
  {
    if ks != [] {
      var init := ks[..|ks| - 1];
      assert ks == init + [ks[|ks| - 1]];
      IdsAfterGrows(ids, next, init);
    }
  }

  /** One more type asked for: `IdsAfter` unfolded once at the end of `ks`. */
  lemma IdsAfterSnoc<K(!new)>(ids: map<K, nat>, next: nat, ks: seq<K>, k: K)
    ensures var b := IdsAfter(ids, next, ks);
            IdsAfter(ids, next, ks + [k]) == if k in b.0 then b else (b.0[k := b.1], b.1 + 1)
  {
    assert (ks + [k])[..|ks|] == ks;
  }

  /** Asking for a prefix of the types never moves the counter further than
      asking for all of them. */
  lemma {:induction false} IdsAfterPrefix<K(!new)>(ids: map<K, nat>, next: nat, ks: seq<K>, n: nat)
    requires n <= |ks|
    ensures IdsAfter(ids, next, ks[..n]).1 <= IdsAfter(ids, next, ks).1
    decreases |ks|
  {
    if n < |ks| {
      assert ks[..|ks| - 1][..n] == ks[..n];
      IdsAfterPrefix(ids, next, ks[..|ks| - 1], n);
    } else {
      assert ks[..n] == ks;
    }
  }
}
