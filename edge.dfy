/** The edge key used by closedness detection and subdivision: an ordered pair
    of vertex indices, its field-wise equality and its XOR hash. */
module Edges {

  /** The largest value a `std::size_t` holds, plus one. */
  const Word: nat := 0x1_0000_0000_0000_0000

  datatype Edge = Edge(v1: nat, v2: nat)

  /** `operator==`: both ends match, in order. */
  predicate Equal(e: Edge, o: Edge)
    ensures Equal(e, o) <==> e == o
  {
    e.v1 == o.v1 && e.v2 == o.v2
  }

  /** `operator!=`. */
  predicate NotEqual(e: Edge, o: Edge)
    ensures NotEqual(e, o) <==> e.v1 != o.v1 || e.v2 != o.v2
  {
    !Equal(e, o)
  }

  /** The key callers build: `{std::min(a, b), std::max(a, b)}`. */
  function Canonical(a: nat, b: nat): (e: Edge)
    ensures e.v1 <= e.v2
    ensures (e.v1 == a && e.v2 == b) || (e.v1 == b && e.v2 == a)
  {
    if a <= b then Edge(a, b) else Edge(b, a)
  }

  /** Both orientations of a pair give the same key. */
  lemma CanonicalSymmetric(a: nat, b: nat)
    ensures Equal(Canonical(a, b), Canonical(b, a))
  {
  }

  /** Equality is not symmetric under swapping the ends: two distinct indices
      make two different edges, which is why callers canonicalise. */
  lemma EqualityIsOrdered(a: nat, b: nat)
    requires a != b
    ensures NotEqual(Edge(a, b), Edge(b, a))
  {
  }

  /** `std::hash<std::size_t>`, which is the identity on the index's 64 bits. */
  function IndexHash(i: nat): bv64
  {
    (i % Word) as bv64
  }

  /** `std::hash<edge>`: the XOR of the hashes of the two ends. */
  function Hash(e: Edge): bv64
  {
    IndexHash(e.v1) ^ IndexHash(e.v2)
  }

  /** Swapping the ends does not change the hash, because XOR commutes. */
  lemma HashSymmetric(a: nat, b: nat)
    ensures Hash(Edge(a, b)) == Hash(Edge(b, a))
  {
  }

  /** The hash agrees with equality, as an unordered-map key requires. */
  lemma HashRespectsEquality(e: Edge, o: Edge)
    ensures Equal(e, o) ==> Hash(e) == Hash(o)
  {
  }

  /** A loop edge hashes to zero whatever its index: XOR cancels. */
  lemma HashOfLoop(a: nat)
    ensures Hash(Edge(a, a)) == 0
  {
  }
}
