/** Mesh fragments and the failures the kernel can run into. A fragment is a
    vertex list and a flat list of index triples into it; positions are of
    an abstract type `V` because only index bookkeeping is modelled. */
module Meshes {

  /** One side of a cut, or one fragment of a fracture. */
  datatype SplitResult<V> = SplitResult(vertices: seq<V>, triangles: seq<int>)

  /** The runtime errors of the collections the kernel uses, which the
      source never catches: a duplicate `Dictionary.Add`, a missing key, a
      list index out of range; plus two situations the model does not
      follow: a loop that a stitch closed into a cycle and that the repeat
      pass leaves closed (its first vertex does not compare equal to
      itself), and an ear clipping that does not finish. */
  datatype Error =
    | DuplicateKey
    | KeyNotFound
    | IndexOutOfRange
    | UnopenedCycle
    | Stalled

  datatype Result<T> = Success(value: T) | Failure(error: Error)

  /** Every entry of `ts` indexes a list of length `n`. */
  ghost predicate IndicesIn(ts: seq<int>, n: int) {
    forall i :: 0 <= i < |ts| ==> 0 <= ts[i] < n
  }

  /** Whole triples, each naming vertices of the fragment. */
  ghost predicate WellFormed<V>(r: SplitResult<V>) {
    |r.triangles| % 3 == 0 && IndicesIn(r.triangles, |r.vertices|)
  }

  /** Appending well-formed triples to a well-formed fragment keeps it
      well-formed, also after the vertex list has grown. */
  lemma IndicesGrow(ts: seq<int>, extra: seq<int>, n: int, m: int)
    requires IndicesIn(ts, n) && IndicesIn(extra, m) && n <= m
    ensures IndicesIn(ts + extra, m)
  {
  }
}
