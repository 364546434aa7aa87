// Entity handles and the order in which a std::set<Entity> visits them
// (src/ECS/ECS.h, class Entity).

module Entities {

  /** An entity is its integer id. The C++ handle also carries a pointer to
      its owning registry; every handle here belongs to the one registry. */
  datatype Entity = Entity(id: nat)

  /** `operator==`: handles are equal when their ids are. */
  predicate Same(a: Entity, b: Entity) { a.id == b.id }

  /** `operator<`, the order `std::set<Entity>` keeps its members in. */
  predicate Less(a: Entity, b: Entity) { a.id < b.id }

  /** `operator>`. */
  predicate Greater(a: Entity, b: Entity) { a.id > b.id }

  /** The comparisons look at the id only: `Less` is a strict total order whose
      incomparable pairs are exactly the equal handles, and handles with the
      same id are the same handle. */
  lemma EntityOrder(a: Entity, b: Entity, c: Entity)
    ensures Same(a, b) <==> a == b
    ensures !Less(a, a)
    ensures Less(a, b) && Less(b, c) ==> Less(a, c)
    ensures Less(a, b) || Less(b, a) || Same(a, b)
    ensures Greater(a, b) <==> Less(b, a)
  {
  }

  /** The least element of a non-empty set of ids. */
  ghost function Min(s: set<nat>): (m: nat)
    requires s != {}
    ensures m in s && forall x :: x in s ==> m <= x
  {
    MinExists(s);
    var m :| m in s && forall x :: x in s ==> m <= x;
    m
  }

  lemma MinExists(s: set<nat>)
    requires s != {}
    ensures exists m :: m in s && forall x :: x in s ==> m <= x
  {
    var m := LeastOf(s);
  }

  /** Finds the least element by removing one element at a time. */
  lemma {:induction false} LeastOf(s: set<nat>) returns (least: nat)
    requires s != {}
    ensures least in s && forall x :: x in s ==> least <= x
    decreases s
  {
    var y :| y in s;
    var rest := s - {y};
    if rest == {} {
      least := y;
    } else {
      var m := LeastOf(rest);
      least := if y < m then y else m;
    }
    forall x | x in s
      ensures least <= x
    {
      if x != y { assert x in rest; }
    }
  }

  /** The ids of a `std::set<Entity>` in the order a range-for visits them:
      ascending, each once. */
  ghost function Ascending(s: set<nat>): seq<nat>
    decreases |s|
  {
    if s == {} then []
    else
      var m := Min(s);
      [m] + Ascending(s - {m})
  }

  /** The visit order holds each id of the set once and nothing else. */
  lemma {:induction false} AscendingMembers(s: set<nat>)
    ensures |Ascending(s)| == |s|
    ensures forall x :: x in Ascending(s) <==> x in s
    decreases |s|
  {
    if s != {} {
      var m := Min(s);
      AscendingMembers(s - {m});
    }
  }

  /** The visit order is strictly increasing, so each id is visited once. */
  lemma {:induction false} AscendingSorted(s: set<nat>)
    ensures forall i, j :: 0 <= i < j < |Ascending(s)| ==> Ascending(s)[i] < Ascending(s)[j]
    decreases |s|
  {
    if s != {} {
      var m := Min(s);
      AscendingSorted(s - {m});
      AscendingMembers(s - {m});
      var rest := Ascending(s - {m});
      assert Ascending(s) == [m] + rest;
      forall i, j | 0 <= i < j < |Ascending(s)|
        ensures Ascending(s)[i] < Ascending(s)[j]
      {
        if i == 0 {
          assert rest[j - 1] in s - {m};
        } else {
          assert Ascending(s)[i] == rest[i - 1] && Ascending(s)[j] == rest[j - 1];
        }
      }
    }
  }

  /** A range-for over a set visits its least id first, then the rest in order. */
  lemma AscendingFirst(s: set<nat>, m: nat)
    requires m in s && forall x :: x in s ==> m <= x
    ensures Ascending(s) == [m] + Ascending(s - {m})
  {
    assert Min(s) == m;
  }

  /** One step of a range-for over `all`: having visited `done`, with
      `pending` left, visiting the least pending id extends `done` by it. */
  lemma AscendingStep(all: set<nat>, done: seq<nat>, pending: set<nat>, m: nat)
    requires Ascending(all) == done + Ascending(pending)
    requires m in pending && forall x :: x in pending ==> m <= x
    ensures Ascending(all) == (done + [m]) + Ascending(pending - {m})
  {
    AscendingFirst(pending, m);
    assert done + ([m] + Ascending(pending - {m})) == (done + [m]) + Ascending(pending - {m});
  }

  /** Concatenation regroups; called where a sequence grows by one element
      in a proof that is otherwise large. */
  lemma SeqAssoc<T>(a: seq<T>, b: seq<T>, c: seq<T>)
    ensures a + (b + c) == (a + b) + c
  {
  }
}
