/** Rewrites of index lists: flipping the winding of every triple, and
    dropping the vertices no triangle uses. */
module Triangles {
  import opened Meshes

  // ---------------------------------------------------------------------
  // Winding reversal
  // ---------------------------------------------------------------------

  /** The list with the first two entries of every triple swapped. A
      trailing pair is swapped too; a trailing single entry has no partner
      and the source fails on it, hence the precondition. */
  function Reverted(ts: seq<int>): (r: seq<int>)
    requires |ts| % 3 != 1
  {
    seq(|ts|, j requires 0 <= j < |ts| =>
      if j % 3 == 0 then ts[j + 1] else if j % 3 == 1 then ts[j - 1] else ts[j])
  }

  /** Reversal keeps the length and the third entry of every triple, and
      exchanges the first two. */
  lemma RevertedShape(ts: seq<int>)
    requires |ts| % 3 != 1
    ensures |Reverted(ts)| == |ts|
    ensures forall j :: 0 <= j < |ts| && j % 3 == 2 ==> Reverted(ts)[j] == ts[j]
    ensures forall j :: 0 <= j < |ts| && j % 3 == 0 ==> Reverted(ts)[j] == ts[j + 1] && Reverted(ts)[j + 1] == ts[j]
  {
    var r := Reverted(ts);
    forall j | 0 <= j < |ts| && j % 3 == 0
      ensures j + 1 < |ts| && r[j] == ts[j + 1] && r[j + 1] == ts[j]
    {
      assert (j + 1) % 3 == 1;
      assert j + 1 != |ts|;
    }
  }

  /** Reversing twice gives the list back. */
  lemma RevertedInvolution(ts: seq<int>)
    requires |ts| % 3 != 1
    ensures |Reverted(ts)| % 3 != 1 && Reverted(Reverted(ts)) == ts
  {
  }

  /** Reversal uses the same vertices, so it keeps a fragment well-formed. */
  lemma RevertedIndices(ts: seq<int>, n: int)
    requires |ts| % 3 != 1 && IndicesIn(ts, n)
    ensures IndicesIn(Reverted(ts), n)
  {
  }

  /** Swaps, in place, the first two entries of every triple. */
  method RevertTriangles(triangles: array<int>)
    requires triangles.Length % 3 != 1
    modifies triangles
    ensures triangles[..] == Reverted(old(triangles[..]))
  {
    ghost var ts := triangles[..];
    var i := 0;
    while i < triangles.Length
      invariant 0 <= i <= triangles.Length + 2 && i % 3 == 0
      invariant forall j :: 0 <= j < triangles.Length ==>
        triangles[j] == if j < i then Reverted(ts)[j] else ts[j]
    {
      triangles[i], triangles[i + 1] := triangles[i + 1], triangles[i];
      i := i + 3;
    }
  }

  // ---------------------------------------------------------------------
  // Removing unused vertices
  // ---------------------------------------------------------------------

  /** The vertices any triangle refers to. */
  ghost function Used(ts: seq<int>): set<int> {
    set k | 0 <= k < |ts| :: ts[k]
  }

  /** The used vertices among the first `n`, in their original order. */
  ghost function Kept<V>(vs: seq<V>, used: set<int>, n: nat): (r: seq<V>)
    requires n <= |vs|
    ensures |r| <= n
  {
    if n == 0 then []
    else Kept(vs, used, n - 1) + (if n - 1 in used then [vs[n - 1]] else [])
  }

  /** A used vertex `j` sits in the kept list at position `|Kept(vs, used, j)|`:
      the number of used vertices before it. */
  lemma {:induction false} KeptAt<V>(vs: seq<V>, used: set<int>, j: nat, n: nat)
    requires j < n <= |vs| && j in used
    ensures |Kept(vs, used, j)| < |Kept(vs, used, n)|
    ensures Kept(vs, used, n)[|Kept(vs, used, j)|] == vs[j]
  {
    if j < n - 1 {
      KeptAt(vs, used, j, n - 1);
    }
  }

  /** Every kept vertex is a used one: nothing else survives. */
  lemma {:induction false} KeptOnlyUsed<V>(vs: seq<V>, used: set<int>, n: nat, p: nat)
    requires n <= |vs| && p < |Kept(vs, used, n)|
    ensures exists j :: 0 <= j < n && j in used && Kept(vs, used, n)[p] == vs[j]
  {
    if p < |Kept(vs, used, n - 1)| {
      KeptOnlyUsed(vs, used, n - 1, p);
      var j :| 0 <= j < n - 1 && j in used && Kept(vs, used, n - 1)[p] == vs[j];
      assert Kept(vs, used, n)[p] == vs[j];
    } else {
      assert Kept(vs, used, n)[p] == vs[n - 1];
    }
  }

  /** Keeping every vertex that is used changes nothing when all are used. */
  lemma {:induction false} KeptAll<V>(vs: seq<V>, used: set<int>, n: nat)
    requires n <= |vs| && forall j :: 0 <= j < n ==> j in used
    ensures Kept(vs, used, n) == vs[..n]
  {
    if n > 0 {
      KeptAll(vs, used, n - 1);
      assert vs[..n] == vs[..n - 1] + [vs[n - 1]];
    }
  }

  /** The first loop of the removal: the used vertices in order, and for
      every used vertex its position among them. */
  method KeepUsed<V>(vertices: seq<V>, used: set<int>) returns (newVertices: seq<V>, positions: array<int>)
    ensures fresh(positions) && positions.Length == |vertices|
    ensures newVertices == Kept(vertices, used, |vertices|)
    ensures forall j :: 0 <= j < |vertices| && j in used ==> positions[j] == |Kept(vertices, used, j)|
  {
    positions := new int[|vertices|](_ => 0);
    newVertices := [];
    var i := 0;
    while i < |vertices|
      invariant 0 <= i <= |vertices|
      invariant newVertices == Kept(vertices, used, i)
      invariant forall j :: 0 <= j < i && j in used ==> positions[j] == |Kept(vertices, used, j)|
    {
      if i in used {
        positions[i] := |newVertices|;
        newVertices := newVertices + [vertices[i]];
      }
      i := i + 1;
    }
  }

  /** Drops the vertices no triangle refers to and renumbers the triangles
      in place. The kept vertices stay in their order, and every triangle
      entry still names the same vertex. */
  method RemoveLooseVertices<V>(vertices: seq<V>, triangles: array<int>) returns (newVertices: seq<V>)
    requires IndicesIn(triangles[..], |vertices|)
    modifies triangles
    ensures newVertices == Kept(vertices, Used(old(triangles[..])), |vertices|)
    ensures IndicesIn(triangles[..], |newVertices|)
    ensures forall k :: 0 <= k < triangles.Length ==> newVertices[triangles[k]] == vertices[old(triangles[k])]
  {
    ghost var ts := triangles[..];
    var used := set k | 0 <= k < triangles.Length :: triangles[k];
    assert used == Used(ts);
    var positions;
    newVertices, positions := KeepUsed(vertices, used);
    var i := 0;
    while i < triangles.Length
      invariant 0 <= i <= triangles.Length
      invariant forall k :: 0 <= k < triangles.Length ==>
        triangles[k] == if k < i then positions[ts[k]] else ts[k]
      invariant forall j :: 0 <= j < |vertices| && j in used ==> positions[j] == |Kept(vertices, used, j)|
    {
      triangles[i] := positions[triangles[i]];
      i := i + 1;
    }
    forall k | 0 <= k < triangles.Length
      ensures 0 <= triangles[k] < |newVertices| && newVertices[triangles[k]] == vertices[ts[k]]
    {
      assert ts[k] in used;
      KeptAt(vertices, used, ts[k], |vertices|);
    }
  }

  /** `cleaned` is `fragment` with its unused vertices dropped: the kept
      vertices in order, and every triangle entry naming the same vertex. */
  ghost predicate CleanedFrom<V>(fragment: SplitResult<V>, cleaned: SplitResult<V>)
    requires IndicesIn(fragment.triangles, |fragment.vertices|)
  {
    && cleaned.vertices == Kept(fragment.vertices, Used(fragment.triangles), |fragment.vertices|)
    && |cleaned.triangles| == |fragment.triangles|
    && IndicesIn(cleaned.triangles, |cleaned.vertices|)
    && forall k :: 0 <= k < |fragment.triangles| ==>
         cleaned.vertices[cleaned.triangles[k]] == fragment.vertices[fragment.triangles[k]]
  }

  /** `RemoveLooseVertices` on each fragment of a list. */
  method RemoveLooseVerticesAll<V>(fragments: seq<SplitResult<V>>) returns (cleaned: seq<SplitResult<V>>)
    requires forall f :: 0 <= f < |fragments| ==> IndicesIn(fragments[f].triangles, |fragments[f].vertices|)
    ensures |cleaned| == |fragments|
    ensures forall f :: 0 <= f < |fragments| ==> CleanedFrom(fragments[f], cleaned[f])
  {
    cleaned := [];
    var f := 0;
    while f < |fragments|
      invariant 0 <= f <= |fragments| && |cleaned| == f
      invariant forall g :: 0 <= g < f ==> CleanedFrom(fragments[g], cleaned[g])
    {
      var ts := fragments[f].triangles;
      var arr := new int[|ts|](k requires 0 <= k < |ts| => ts[k]);
      assert arr[..] == ts;
      var vs := RemoveLooseVertices(fragments[f].vertices, arr);
      cleaned := cleaned + [SplitResult(vs, arr[..])];
      f := f + 1;
    }
  }
}
