/** Ear-clipping triangulation of one cap polygon. The polygon is a `Loop`
    over vertex indices whose projected 2D positions are `vertices`; the
    triangulator consumes the loop as it goes. */
module EarClipping {
  import opened Loops
  import opened Planar

  /** The threshold below which a non-positive corner is kept rather than
      dropped as degenerate (the literal -1e8). */
  const Tolerance: real := -100000000.0

  /** Every node of the polygon has a projected position. */
  ghost predicate InRange(vertices: seq<Vec2>, nodes: seq<int>) {
    forall i :: 0 <= i < |nodes| ==> 0 <= nodes[i] < |vertices|
  }

  lemma InRangeErase(vertices: seq<Vec2>, nodes: seq<int>, k: nat)
    requires InRange(vertices, nodes) && k < |nodes|
    ensures InRange(vertices, Erase(nodes, k))
  {
  }

  /** The position `d` steps after `k` on a cycle of `n` positions. */
  function Offset(k: nat, d: nat, n: nat): (q: nat)
    requires k < n && d < n
    ensures q < n
  {
    if k + d < n then k + d else k + d - n
  }

  /** The turn at position `k` of the polygon `nodes`. */
  ghost function Corner(g: Geometry, vertices: seq<Vec2>, nodes: seq<int>, k: nat): real
    requires InRange(vertices, nodes) && k < |nodes|
  {
    var n := |nodes|;
    g.cross(vertices[nodes[k]], vertices[nodes[PrevPos(k, n)]], vertices[nodes[NextPos(k, n)]])
  }

  /** No node at the positions 2 .. d-1 after `k` lies in the triangle
      (next, index, prev) of the corner at `k`: what the scan from the node
      after `next` has established when it reaches position `d`. */
  ghost predicate ClearUpTo(g: Geometry, vertices: seq<Vec2>, nodes: seq<int>, k: nat, d: nat)
    requires InRange(vertices, nodes) && 3 <= |nodes| && k < |nodes| && 2 <= d < |nodes|
    decreases d
  {
    d == 2 || (ClearUpTo(g, vertices, nodes, k, d - 1) && Outside(g, vertices, nodes, k, d - 1))
  }

  /** The node `d` positions after `k` is not inside the triangle
      (next, index, prev) of the corner at `k`. */
  ghost predicate Outside(g: Geometry, vertices: seq<Vec2>, nodes: seq<int>, k: nat, d: nat)
    requires InRange(vertices, nodes) && 3 <= |nodes| && k < |nodes| && d < |nodes|
  {
    var n := |nodes|;
    !g.inside(vertices[nodes[Offset(k, d, n)]], vertices[nodes[NextPos(k, n)]], vertices[nodes[k]], vertices[nodes[PrevPos(k, n)]])
  }

  /** The corner at position `k` is an ear: the scan over every other node
      of the polygon finds none inside its triangle. */
  ghost predicate IsEar(g: Geometry, vertices: seq<Vec2>, nodes: seq<int>, k: nat)
    requires InRange(vertices, nodes) && 3 <= |nodes| && k < |nodes|
  {
    ClearUpTo(g, vertices, nodes, k, |nodes| - 1)
  }

  lemma {:induction false} ClearUpToMeans(g: Geometry, vertices: seq<Vec2>, nodes: seq<int>, k: nat, d: nat)
    requires InRange(vertices, nodes) && 3 <= |nodes| && k < |nodes| && 2 <= d < |nodes|
    ensures var n := |nodes|;
      ClearUpTo(g, vertices, nodes, k, d) <==> forall e :: 2 <= e < d ==> Outside(g, vertices, nodes, k, e)
    decreases d
  {
    if d > 2 {
      ClearUpToMeans(g, vertices, nodes, k, d - 1);
    }
  }

  /** An ear is a corner whose triangle (next, index, prev) holds no node of
      the polygon other than its own three corners. */
  lemma IsEarMeans(g: Geometry, vertices: seq<Vec2>, nodes: seq<int>, k: nat)
    requires InRange(vertices, nodes) && 3 <= |nodes| && k < |nodes|
    ensures var n := |nodes|;
      IsEar(g, vertices, nodes, k) <==>
      forall q :: 0 <= q < n && q != k && q != NextPos(k, n) && q != PrevPos(k, n) ==>
        !g.inside(vertices[nodes[q]], vertices[nodes[NextPos(k, n)]], vertices[nodes[k]], vertices[nodes[PrevPos(k, n)]])
  {
    var n := |nodes|;
    ClearUpToMeans(g, vertices, nodes, k, n - 1);
    if IsEar(g, vertices, nodes, k) {
      forall q | 0 <= q < n && q != k && q != NextPos(k, n) && q != PrevPos(k, n)
        ensures !g.inside(vertices[nodes[q]], vertices[nodes[NextPos(k, n)]], vertices[nodes[k]], vertices[nodes[PrevPos(k, n)]])
      {
        var e := if q >= k then q - k else q + n - k;
        assert Offset(k, e, n) == q;
        assert Outside(g, vertices, nodes, k, e);
      }
    }
  }

  /** One step of ear clipping at position `k`: the index triple emitted
      (if any), the nodes left, and the position of the next candidate,
      which is always the successor of the current one. A convex ear is
      emitted as (index, next, prev) and removed; a convex corner that is
      blocked is skipped; a flat or slightly reflex corner (cross product in
      (-1e8, 0]) is removed without a triangle; a sharply reflex corner is
      skipped. */
  datatype Step = Step(emitted: seq<int>, nodes: seq<int>, k: nat)

  ghost function ClipStep(g: Geometry, vertices: seq<Vec2>, nodes: seq<int>, k: nat): (s: Step)
    requires InRange(vertices, nodes) && 3 <= |nodes| && k < |nodes|
    ensures InRange(vertices, s.nodes) && s.k < |s.nodes|
    ensures |s.nodes| == |nodes| - 1 || s.nodes == nodes
  {
    var n := |nodes|;
    var after := if k == n - 1 then 0 else k;
    var c := Corner(g, vertices, nodes, k);
    InRangeErase(vertices, nodes, k);
    if c > 0.0 && IsEar(g, vertices, nodes, k) then
      Step([nodes[k], nodes[NextPos(k, n)], nodes[PrevPos(k, n)]], Erase(nodes, k), after)
    else if c > 0.0 then Step([], nodes, NextPos(k, n))
    else if c > Tolerance then Step([], Erase(nodes, k), after)
    else Step([], nodes, NextPos(k, n))
  }

  /** Every index triple of `tris` is a counter-clockwise (strictly convex)
      corner: the emitted triangle (index, next, prev) has prev -> index ->
      next turning left. */
  ghost predicate AllConvex(g: Geometry, vertices: seq<Vec2>, tris: seq<int>) {
    tris == [] ||
    (&& |tris| >= 3
     && (forall j :: 0 <= j < 3 ==> 0 <= tris[j] < |vertices|)
     && g.cross(vertices[tris[0]], vertices[tris[2]], vertices[tris[1]]) > 0.0
     && AllConvex(g, vertices, tris[3..]))
  }

  /** Convex triples are whole triples of indices into `vertices`: the
      triangulation's output has a length that is a multiple of 3 and
      indexes the projected points. */
  lemma {:induction false} AllConvexWhole(g: Geometry, vertices: seq<Vec2>, tris: seq<int>)
    requires AllConvex(g, vertices, tris)
    ensures |tris| % 3 == 0
    ensures forall i :: 0 <= i < |tris| ==> 0 <= tris[i] < |vertices|
    decreases |tris|
  {
    if tris != [] {
      AllConvexWhole(g, vertices, tris[3..]);
      forall i | 3 <= i < |tris| ensures 0 <= tris[i] < |vertices| {
        assert tris[i] == tris[3..][i - 3];
      }
    }
  }

  /** With the exact tests, every emitted triangle (a, b, c) has a negative
      oriented area: the cap triangles are all wound clockwise in the
      plane's 2D coordinates. */
  lemma {:induction false} ExactClockwise(vertices: seq<Vec2>, tris: seq<int>)
    requires AllConvex(Exact, vertices, tris)
    ensures forall j :: 0 <= j < |tris| && j % 3 == 0 ==> ClockwiseAt(vertices, tris, j)
    decreases |tris|
  {
    if tris != [] {
      var rest := tris[3..];
      ExactClockwise(vertices, rest);
      ExactCorner(vertices[tris[0]], vertices[tris[1]], vertices[tris[2]]);
      forall j | 3 <= j < |tris| && j % 3 == 0
        ensures ClockwiseAt(vertices, tris, j)
      {
        assert (j - 3) % 3 == 0 && ClockwiseAt(vertices, rest, j - 3);
        assert rest[j - 3] == tris[j] && rest[j - 2] == tris[j + 1] && rest[j - 1] == tris[j + 2];
      }
    }
  }

  /** The triple at entry `j` of `tris` indexes `vertices` and is wound
      clockwise there. */
  ghost predicate ClockwiseAt(vertices: seq<Vec2>, tris: seq<int>, j: int) {
    && 0 <= j && j + 2 < |tris|
    && 0 <= tris[j] < |vertices| && 0 <= tris[j + 1] < |vertices| && 0 <= tris[j + 2] < |vertices|
    && Sign(vertices[tris[j]], vertices[tris[j + 1]], vertices[tris[j + 2]]) < 0.0
  }

  /** A convex corner under the exact tests is a clockwise triangle. */
  lemma ExactCorner(a: Vec2, b: Vec2, c: Vec2)
    requires Exact.cross(a, c, b) > 0.0
    ensures Sign(a, b, c) < 0.0
  {
    CrossZIsSign(a, c, b);
    SignSymmetry(a, b, c);
    SignSymmetry(b, c, a);
  }

  /** A step emits a triangle exactly when it removes a node with a convex
      corner: either nothing or one convex triple of polygon nodes, and it
      keeps or drops exactly the candidate node. */
  lemma StepShape(g: Geometry, vertices: seq<Vec2>, nodes: seq<int>, k: nat)
    requires Distinct(nodes) && InRange(vertices, nodes) && 3 <= |nodes| && k < |nodes|
    ensures var s := ClipStep(g, vertices, nodes, k);
      && (s.emitted == [] || |s.emitted| == 3)
      && (|s.emitted| == 3 ==> s.nodes == Erase(nodes, k) && Corner(g, vertices, nodes, k) > 0.0)
      && (s.nodes == nodes || s.nodes == Erase(nodes, k))
      && (forall x :: x in s.emitted ==> x in nodes)
      && AllConvex(g, vertices, s.emitted)
  {
    var n := |nodes|;
    var s := ClipStep(g, vertices, nodes, k);
    if s.emitted != [] {
      assert s.emitted == [nodes[k], nodes[NextPos(k, n)], nodes[PrevPos(k, n)]];
      assert s.emitted[3..] == [];
      assert nodes[NextPos(k, n)] in nodes && nodes[PrevPos(k, n)] in nodes;
    }
  }

  /** Appending convex triples keeps all triples convex. */
  lemma {:induction false} AllConvexAppend(g: Geometry, vertices: seq<Vec2>, a: seq<int>, b: seq<int>)
    requires AllConvex(g, vertices, a) && AllConvex(g, vertices, b)
    ensures AllConvex(g, vertices, a + b)
    decreases |a|
  {
    if |a| >= 3 {
      AllConvexAppend(g, vertices, a[3..], b);
      assert (a + b)[0] == a[0] && (a + b)[1] == a[1] && (a + b)[2] == a[2];
      assert (a + b)[3..] == a[3..] + b;
    } else {
      assert a + b == b;
    }
  }

  /** Every element of `xs` is a node of `nodes`. */
  ghost predicate Within(xs: seq<int>, nodes: seq<int>) {
    forall x :: x in xs ==> x in nodes
  }

  /** One step keeps what the triangulation loop maintains: the output so
      far is convex triples of original nodes, the polygon left is a part of
      the original one with at least two nodes, and three output indices at
      most are paid for by each node removed. */
  lemma StepKeeps(g: Geometry, vertices: seq<Vec2>, nodes0: seq<int>, nodes: seq<int>, k: nat, done: seq<int>)
    requires Distinct(nodes) && InRange(vertices, nodes) && 3 <= |nodes| && k < |nodes|
    requires AllConvex(g, vertices, done) && Within(done, nodes0) && Within(nodes, nodes0)
    requires |done| + 3 * |nodes| <= 3 * |nodes0|
    ensures var s := ClipStep(g, vertices, nodes, k);
      && AllConvex(g, vertices, done + s.emitted)
      && Within(done + s.emitted, nodes0) && Within(s.nodes, nodes0)
      && |done + s.emitted| + 3 * |s.nodes| <= 3 * |nodes0| && 2 <= |s.nodes|
  {
    var s := ClipStep(g, vertices, nodes, k);
    StepShape(g, vertices, nodes, k);
    EraseDistinct(nodes, k);
    AllConvexAppend(g, vertices, done, s.emitted);
  }

  lemma OffsetNext(k: nat, d: nat, n: nat)
    requires k < n && d + 1 < n
    ensures NextPos(Offset(k, d, n), n) == Offset(k, d + 1, n)
  {
  }

  /** A node inside the triangle at a scanned position blocks the ear. */
  lemma BlockedAt(g: Geometry, vertices: seq<Vec2>, nodes: seq<int>, k: nat, d: nat)
    requires InRange(vertices, nodes) && 3 <= |nodes| && k < |nodes| && 2 <= d < |nodes| - 1
    requires !Outside(g, vertices, nodes, k, d)
    ensures !IsEar(g, vertices, nodes, k)
  {
    ClearUpToMeans(g, vertices, nodes, k, |nodes| - 1);
  }

  lemma DistinctAt(s: seq<int>, i: nat, j: nat)
    requires Distinct(s) && i < |s| && j < |s| && s[i] == s[j]
    ensures i == j
  {
  }

  /** The node at a given position of a valid loop: its successor and
      predecessor are the nodes at the neighbouring positions. */
  lemma NeighboursAt(loop: Loop, k: nat)
    requires loop.Valid() && k < |loop.Nodes|
    ensures loop.Nodes[k] in loop.Nodes
    ensures loop.Next(loop.Nodes[k]) == loop.Nodes[NextPos(k, |loop.Nodes|)]
    ensures loop.Prev(loop.Nodes[k]) == loop.Nodes[PrevPos(k, |loop.Nodes|)]
  {
    IndexOfDistinct(loop.Nodes, k);
  }

  /** The successor of the node `d` positions after `k` is the node
      `d + 1` positions after it. */
  lemma NextAt(loop: Loop, k: nat, d: nat)
    requires loop.Valid() && k < |loop.Nodes| && d + 1 < |loop.Nodes|
    ensures var n := |loop.Nodes|;
      && loop.Nodes[Offset(k, d, n)] in loop.Nodes
      && loop.Next(loop.Nodes[Offset(k, d, n)]) == loop.Nodes[Offset(k, d + 1, n)]
  {
    var n := |loop.Nodes|;
    IndexOfDistinct(loop.Nodes, Offset(k, d, n));
    OffsetNext(k, d, n);
  }

  /** Scans the loop from the node after `next` up to `prev` for a node
      inside the triangle (next, index, prev); true when there is none. */
  method ScanEar(g: Geometry, vertices: seq<Vec2>, loop: Loop, index: int, next: int, prev: int, ghost k: nat)
    returns (isValid: bool)
    requires loop.Valid() && InRange(vertices, loop.Nodes) && |loop.Nodes| >= 3 && k < |loop.Nodes|
    requires var n := |loop.Nodes|;
      index == loop.Nodes[k] && next == loop.Nodes[NextPos(k, n)] && prev == loop.Nodes[PrevPos(k, n)]
    ensures isValid == IsEar(g, vertices, loop.Nodes, k)
  {
    ghost var nodes, n := loop.Nodes, |loop.Nodes|;
    NextAt(loop, k, 1);
    assert next == nodes[Offset(k, 1, n)] && prev == nodes[Offset(k, n - 1, n)];
    isValid := true;
    var it := loop.Next(next);
    ghost var d := 2;
    while it != prev
      invariant 2 <= d <= n - 1 && it == nodes[Offset(k, d, n)]
      invariant ClearUpTo(g, vertices, nodes, k, d)
      decreases n - 1 - d
    {
      if g.inside(vertices[it], vertices[next], vertices[index], vertices[prev]) {
        isValid := false;
        assert d != n - 1;
        assert !Outside(g, vertices, nodes, k, d);
        BlockedAt(g, vertices, nodes, k, d);
        return;
      }
      assert Outside(g, vertices, nodes, k, d);
      NextAt(loop, k, d);
      it := loop.Next(it);
      d := d + 1;
    }
    DistinctAt(nodes, Offset(k, d, n), Offset(k, n - 1, n));
    assert d == n - 1;
  }

  /** One pass of the triangulation loop at the candidate `index`, at
      position `k`: emits the triangle (index, next, prev) and removes the
      candidate if it is a convex unblocked ear, removes it silently if its
      corner is flat within the tolerance, and returns its successor as the
      next candidate. */
  method ClipAt(g: Geometry, vertices: seq<Vec2>, loop: Loop, index: int, ghost k: nat)
    returns (emitted: seq<int>, next: int, ghost k': nat)
    requires loop.Valid() && InRange(vertices, loop.Nodes) && 3 <= |loop.Nodes|
    requires k < |loop.Nodes| && loop.Nodes[k] == index
    modifies loop
    ensures var s := ClipStep(g, vertices, old(loop.Nodes), k);
      emitted == s.emitted && loop.Nodes == s.nodes && k' == s.k
    ensures loop.Valid() && k' < |loop.Nodes| && loop.Nodes[k'] == next
    ensures |loop.forwardLinks| == |loop.Nodes| - 1
  {
    ghost var nodes, n := loop.Nodes, |loop.Nodes|;
    NeighboursAt(loop, k);
    IndexOfDistinct(nodes, k);
    EraseDistinct(nodes, k);
    next := loop.Next(index);
    var prev := loop.Prev(index);
    var crossZ := g.cross(vertices[index], vertices[prev], vertices[next]);
    assert crossZ == Corner(g, vertices, nodes, k);
    emitted := [];
    if crossZ > 0.0 {
      var isValid := ScanEar(g, vertices, loop, index, next, prev, k);
      if isValid {
        emitted := [index, next, prev];
        loop.RemoveLink(index);
        k' := if k == n - 1 then 0 else k;
      } else {
        k' := NextPos(k, n);
      }
    } else if crossZ > Tolerance {
      loop.RemoveLink(index);
      k' := if k == n - 1 then 0 else k;
    } else {
      k' := NextPos(k, n);
    }
    LinkCount(loop.forwardLinks, loop.backwardLinks, loop.first, loop.last, loop.Nodes);
  }

  /** The triangulation loop: while the loop has more than one forward link
      (and the step budget lasts), clip at the current candidate and move on
      to its successor. */
  method EarClippingTriangulation(g: Geometry, vertices: seq<Vec2>, loop: Loop, fuel: nat) returns (result: seq<int>, finished: bool)
    requires loop.Valid() && InRange(vertices, loop.Nodes)
    modifies loop
    ensures loop.Valid()
    ensures AllConvex(g, vertices, result)
    ensures Within(result, old(loop.Nodes)) && Within(loop.Nodes, old(loop.Nodes))
    ensures |result| + 3 * |loop.Nodes| <= 3 * |old(loop.Nodes)|
    ensures |old(loop.Nodes)| >= 2 ==> |loop.Nodes| >= 2
    ensures finished <==> |loop.Nodes| <= 2
  {
    ghost var nodes0 := loop.Nodes;
    result := [];
    var index := loop.first;
    var steps := 0;
    ghost var k: nat := 0;
    LinkCount(loop.forwardLinks, loop.backwardLinks, loop.first, loop.last, loop.Nodes);
    while |loop.forwardLinks| > 1 && steps < fuel
      invariant loop.Valid() && InRange(vertices, loop.Nodes)
      invariant |loop.forwardLinks| == if loop.Nodes == [] then 0 else |loop.Nodes| - 1
      invariant loop.Nodes != [] ==> k < |loop.Nodes| && loop.Nodes[k] == index
      invariant AllConvex(g, vertices, result) && Within(result, nodes0) && Within(loop.Nodes, nodes0)
      invariant |result| + 3 * |loop.Nodes| <= 3 * |nodes0|
      invariant |nodes0| >= 2 ==> |loop.Nodes| >= 2
      decreases fuel - steps
    {
      ghost var nodes, k0 := loop.Nodes, k;
      StepKeeps(g, vertices, nodes0, nodes, k0, result);
      var emitted;
      emitted, index, k := ClipAt(g, vertices, loop, index, k);
      result := result + emitted;
      steps := steps + 1;
    }
    finished := |loop.forwardLinks| <= 1;
  }
}
