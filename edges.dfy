/** Undirected mesh edges and the equality the split uses to find an edge
    it has already cut. */
module Edges {

  /** An edge between two vertex indices, in either direction. */
  datatype Edge = Edge(a: int, b: int)

  /** Two edges are equal when they join the same two vertices, whichever
      way round they are written. */
  predicate EdgeEquals(e1: Edge, e2: Edge) {
    (e1.a == e2.a && e1.b == e2.b) || (e1.a == e2.b && e1.b == e2.a)
  }

  /** The hash of an edge: the sum of its two indices. The source adds two
      32-bit integers; wrap-around changes the value but not the fact that
      equal edges hash alike, which is all the dictionary needs. */
  function EdgeHash(e: Edge): int {
    e.a + e.b
  }

  /** The edge written with its smaller index first: the representative of
      its class under `EdgeEquals`, used as the key of the edge map. */
  function Key(e: Edge): (k: Edge)
    ensures k.a <= k.b && EdgeEquals(k, e)
    ensures (k.a == e.a && k.b == e.b) || (k.a == e.b && k.b == e.a)
  {
    if e.a <= e.b then e else Edge(e.b, e.a)
  }

  /** `EdgeEquals` is an equivalence relation. */
  lemma EdgeEqualsEquivalence(e1: Edge, e2: Edge, e3: Edge)
    ensures EdgeEquals(e1, e1)
    ensures EdgeEquals(e1, e2) ==> EdgeEquals(e2, e1)
    ensures EdgeEquals(e1, e2) && EdgeEquals(e2, e3) ==> EdgeEquals(e1, e3)
  {
  }

  /** The hash agrees with the equality. */
  lemma EdgeHashAgrees(e1: Edge, e2: Edge)
    requires EdgeEquals(e1, e2)
    ensures EdgeHash(e1) == EdgeHash(e2)
  {
  }

  /** A dictionary with this comparer behaves as a map keyed by `Key`: two
      edges are equal exactly when they have the same key. */
  lemma KeyCharacterises(e1: Edge, e2: Edge)
    ensures EdgeEquals(e1, e2) <==> Key(e1) == Key(e2)
  {
  }
}
