// Signatures: which component types an entity has, or a system requires
// (src/ECS/ECS.h, `MAX_COMPONENTS` and `typedef std::bitset<MAX_COMPONENTS> Signature`).

module Signatures {

  /** Width of the signature bitset, hence the number of component types. */
  const MaxComponents: nat := 32

  /** A signature is the set of its bit positions that are on. */
  type Signature = set<nat>

  predicate IsSignature(s: Signature) {
    forall i :: i in s ==> i < MaxComponents
  }

  /** The interest test of `Registry::AddEntityToSystems`,
      `(entitySignature & systemSignature) == systemSignature`: it holds
      exactly when every bit the system requires is on for the entity. */
  function Interested(entitySignature: Signature, systemSignature: Signature): (r: bool)
    ensures r <==> systemSignature <= entitySignature
  {
    entitySignature * systemSignature == systemSignature
  }
}
