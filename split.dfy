/** Cutting a triangle mesh along a plane (`SplitMeshAlongPlane`). Every
    triangle is classified by the sides of its three corners; a triangle
    on one side is copied to that side, a straddling one is cut into one
    triangle on the side of its lone corner and two on the other. The new
    cut points are shared per undirected edge, and the cut outline of the
    upper side is turned into loops and capped on both sides. */
module Split {
  import opened Meshes
  import opened Edges
  import opened Loops
  import opened Planar
  import opened EdgeLoops
  import opened EarClipping
  import opened Triangles

  /** The cutting plane, as the three evaluations the split needs: the side
      of a point (true: above), the point where the segment between two
      points crosses the plane, and the 2D coordinates of a point in the
      plane. */
  datatype Plane<!V> = Plane(above: V -> bool, cut: (V, V) -> V, project: V -> Vec2)

  /** The evaluations that do not depend on the plane: equality of
      positions and the 2D tests of the ear clipper. */
  datatype Space<!V> = Space(same: (V, V) -> bool, flat: Geometry)

  // ---------------------------------------------------------------------
  // Classification
  // ---------------------------------------------------------------------

  /** The value of bit `j` (0, 1 or 2) of `code`. */
  function Bit(code: nat, j: nat): bool
    requires j < 3
  {
    if j == 0 then code % 2 == 1 else if j == 1 then (code / 2) % 2 == 1 else (code / 4) % 2 == 1
  }

  /** The 3-bit side code of a triangle: bit `j` is set when corner `j` is
      above the plane. 0 is all below, 7 all above. */
  function SideCode(s0: bool, s1: bool, s2: bool): (code: nat)
    ensures code < 8
    ensures Bit(code, 0) == s0 && Bit(code, 1) == s1 && Bit(code, 2) == s2
  {
    (if s0 then 1 else 0) + (if s1 then 2 else 0) + (if s2 then 4 else 0)
  }

  /** A code is 0 exactly when no corner is above and 7 exactly when all
      are. */
  lemma SideCodeExtremes(s0: bool, s1: bool, s2: bool)
    ensures SideCode(s0, s1, s2) == 0 <==> !s0 && !s1 && !s2
    ensures SideCode(s0, s1, s2) == 7 <==> s0 && s1 && s2
  {
  }

  /** The corner of a straddling triangle that is alone on its side. */
  function LoneCorner(code: nat): (loneV: nat)
    requires 0 < code < 7
    ensures loneV < 3
  {
    var l := code - 1;
    if l > 2 then 5 - l else l
  }

  /** For every straddling code, the lone corner is on one side and the two
      other corners are on the other; its bit tells the side. */
  lemma LoneCornerIsAlone(s0: bool, s1: bool, s2: bool)
    requires 0 < SideCode(s0, s1, s2) < 7
    ensures var s, l := [s0, s1, s2], LoneCorner(SideCode(s0, s1, s2));
      && s[(l + 1) % 3] == s[(l + 2) % 3] && s[l] != s[(l + 1) % 3]
      && Bit(SideCode(s0, s1, s2), l) == s[l]
  {
  }

  // ---------------------------------------------------------------------
  // The state of the triangle pass
  // ---------------------------------------------------------------------

  /** The two halves being built, the cut links of each side (cut point to
      the next cut point along the outline), and the cut points recorded
      per edge. An edge is recorded under its `Key`, which is what the
      dictionary with `EdgeComparer` amounts to. */
  datatype Halves<V> = Halves(
    up: SplitResult<V>, down: SplitResult<V>,
    upLinks: map<int, int>, downLinks: map<int, int>,
    splitEdges: map<Edge, (int, int)>)

  /** Both halves start as copies of the mesh's vertex list with no
      triangles. */
  function Initial<V>(vertices: seq<V>): Halves<V> {
    Halves(SplitResult(vertices, []), SplitResult(vertices, []), map[], map[], map[])
  }

  /** Every link of `m` joins two cut points: new vertices in `[lo, hi)`. */
  ghost predicate CutLinks(m: map<int, int>, lo: int, hi: int) {
    forall x :: x in m ==> lo <= x < hi && lo <= m[x] < hi
  }

  /** What the triangle pass maintains: the two vertex lists grow in
      lockstep from the original one (so a cut point has one index on both
      sides), both halves are whole triples of valid indices, every
      recorded edge maps to a pair of equal indices of a cut point, and the
      links join cut points. */
  ghost predicate Inv<V>(vertices: seq<V>, h: Halves<V>) {
    && h.up.vertices == h.down.vertices
    && |vertices| <= |h.up.vertices| && h.up.vertices[..|vertices|] == vertices
    && WellFormed(h.up) && WellFormed(h.down)
    && (forall e :: e in h.splitEdges ==>
          h.splitEdges[e].0 == h.splitEdges[e].1 && |vertices| <= h.splitEdges[e].0 < |h.up.vertices|)
    && CutLinks(h.upLinks, |vertices|, |h.up.vertices|)
    && CutLinks(h.downLinks, |vertices|, |h.up.vertices|)
  }

  lemma InitialInv<V>(vertices: seq<V>)
    ensures Inv(vertices, Initial(vertices))
  {
  }

  // ---------------------------------------------------------------------
  // One triangle
  // ---------------------------------------------------------------------

  /** The cut point of the edge from the lone corner `lone` to `other`: the
      recorded one if the edge, in either direction, was cut before;
      otherwise `point` is appended to both vertex lists and recorded. */
  function CutEdge<V>(vertices: seq<V>, h: Halves<V>, lone: int, other: int, point: V): (r: (Halves<V>, (int, int)))
    requires Inv(vertices, h)
    ensures Inv(vertices, r.0)
    ensures r.1.0 == r.1.1 && |vertices| <= r.1.0 < |r.0.up.vertices|
    ensures Key(Edge(lone, other)) in r.0.splitEdges && r.0.splitEdges[Key(Edge(lone, other))] == r.1
    ensures r.0.upLinks == h.upLinks && r.0.downLinks == h.downLinks
    ensures r.0.up.triangles == h.up.triangles && r.0.down.triangles == h.down.triangles
    ensures Key(Edge(lone, other)) in h.splitEdges ==> r.0 == h
    ensures Key(Edge(lone, other)) !in h.splitEdges ==>
      r.0.up.vertices == h.up.vertices + [point] && r.1.0 == |h.up.vertices|
    ensures h.up.vertices <= r.0.up.vertices
  {
    var key := Key(Edge(lone, other));
    if key in h.splitEdges then (h, h.splitEdges[key])
    else
      var up := SplitResult(h.up.vertices + [point], h.up.triangles);
      var down := SplitResult(h.down.vertices + [point], h.down.triangles);
      var split := (|up.vertices| - 1, |down.vertices| - 1);
      var r := Halves(up, down, h.upLinks, h.downLinks, h.splitEdges[key := split]);
      assert up.vertices[..|vertices|] == h.up.vertices[..|vertices|];
      IndicesGrow(h.up.triangles, [], |h.up.vertices|, |up.vertices|);
      IndicesGrow(h.down.triangles, [], |h.down.vertices|, |down.vertices|);
      assert h.up.triangles + [] == h.up.triangles && h.down.triangles + [] == h.down.triangles;
      (r, split)
  }

  /** A second crossing of the same undirected edge, from either end,
      reuses the recorded cut point and appends nothing. */
  lemma CutEdgeReuse<V>(vertices: seq<V>, h: Halves<V>, a: int, b: int, p: V, q: V)
    requires Inv(vertices, h)
    ensures var (h1, s) := CutEdge(vertices, h, a, b, p);
      CutEdge(vertices, h1, b, a, q) == (h1, s) && CutEdge(vertices, h1, a, b, q) == (h1, s)
  {
    KeyCharacterises(Edge(a, b), Edge(b, a));
  }

  /** The corners of a straddling triangle rotated so that the lone corner
      comes first: (lone, next, previous). */
  function Rotated(a: int, b: int, c: int, loneV: nat): (t: seq<int>)
    requires loneV < 3
    ensures |t| == 3
    ensures var tri := [a, b, c]; t[0] == tri[loneV] && t[1] == tri[(loneV + 1) % 3] && t[2] == tri[(loneV + 2) % 3]
  {
    var tri := [a, b, c];
    [tri[loneV], tri[(loneV + 1) % 3], tri[(loneV + 2) % 3]]
  }

  /** The halves with `lone` appended to one side's triangles and `pair` to
      the other's, and one link added on each side. */
  function Emit<V>(h: Halves<V>, loneIsAbove: bool, lone: seq<int>, pair: seq<int>,
                   upLink: (int, int), downLink: (int, int)): Halves<V>
  {
    Halves(
      SplitResult(h.up.vertices, h.up.triangles + if loneIsAbove then lone else pair),
      SplitResult(h.down.vertices, h.down.triangles + if loneIsAbove then pair else lone),
      h.upLinks[upLink.0 := upLink.1], h.downLinks[downLink.0 := downLink.1], h.splitEdges)
  }

  /** Emitting whole triples of valid indices and links between cut points
      keeps the pass invariant. */
  lemma EmitKeeps<V>(vertices: seq<V>, h: Halves<V>, loneIsAbove: bool, lone: seq<int>, pair: seq<int>,
                     upLink: (int, int), downLink: (int, int))
    requires Inv(vertices, h) && |lone| == 3 && |pair| == 6
    requires IndicesIn(lone, |h.up.vertices|) && IndicesIn(pair, |h.up.vertices|)
    requires |vertices| <= upLink.0 < |h.up.vertices| && |vertices| <= upLink.1 < |h.up.vertices|
    requires |vertices| <= downLink.0 < |h.up.vertices| && |vertices| <= downLink.1 < |h.up.vertices|
    ensures Inv(vertices, Emit(h, loneIsAbove, lone, pair, upLink, downLink))
  {
    var n := |h.up.vertices|;
    IndicesGrow(h.up.triangles, if loneIsAbove then lone else pair, n, n);
    IndicesGrow(h.down.triangles, if loneIsAbove then pair else lone, n, n);
  }

  /** The half on the given side of the plane. */
  function Side<V>(h: Halves<V>, above: bool): SplitResult<V> {
    if above then h.up else h.down
  }

  /** What cutting a straddling triangle with corners `t` = (lone, next,
      previous) did to the halves `h`, giving `r`: its cut points are the
      ones recorded for the edges t0-t2 (c02) and t0-t1 (c01), both new
      vertices; the lone corner's side gained (t0, c01, c02) and the other
      side (t1, c02, c01) and (t2, c02, t1); and the outline gained
      c02 -> c01 on the upper side and c01 -> c02 on the lower side when
      the lone corner is above, the reverse when it is below, so that the
      two sides see the outline in opposite directions. */
  ghost predicate Straddled<V>(vertices: seq<V>, h: Halves<V>, r: Halves<V>, t: seq<int>, loneIsAbove: bool)
    requires |t| == 3
  {
    && Key(Edge(t[0], t[2])) in r.splitEdges && Key(Edge(t[0], t[1])) in r.splitEdges
    && var c02, c01 := r.splitEdges[Key(Edge(t[0], t[2]))].0, r.splitEdges[Key(Edge(t[0], t[1]))].0;
    && |vertices| <= c02 && |vertices| <= c01
    && Side(r, loneIsAbove).triangles == Side(h, loneIsAbove).triangles + [t[0], c01, c02]
    && Side(r, !loneIsAbove).triangles == Side(h, !loneIsAbove).triangles + [t[1], c02, c01, t[2], c02, t[1]]
    && r.upLinks == (if loneIsAbove then h.upLinks[c02 := c01] else h.upLinks[c01 := c02])
    && r.downLinks == (if loneIsAbove then h.downLinks[c01 := c02] else h.downLinks[c02 := c01])
  }

  /** The cut points of the two edges of a straddling triangle that leave
      its lone corner `t[0]`: c02 on the edge to `t[2]`, then c01 on the
      edge to `t[1]`, each found or made by `CutEdge`. Afterwards both are
      recorded, and nothing but vertices and records changed. */
  method CutEdges<V>(plane: Plane<V>, vertices: seq<V>, h: Halves<V>, t: seq<int>)
    returns (h2: Halves<V>, s02: (int, int), s01: (int, int))
    requires Inv(vertices, h) && |t| == 3 && forall j :: 0 <= j < 3 ==> 0 <= t[j] < |vertices|
    ensures Inv(vertices, h2) && h.up.vertices <= h2.up.vertices
    ensures s02.0 == s02.1 && |vertices| <= s02.0 < |h2.up.vertices|
    ensures s01.0 == s01.1 && |vertices| <= s01.0 < |h2.up.vertices|
    ensures Key(Edge(t[0], t[2])) in h2.splitEdges && h2.splitEdges[Key(Edge(t[0], t[2]))] == s02
    ensures Key(Edge(t[0], t[1])) in h2.splitEdges && h2.splitEdges[Key(Edge(t[0], t[1]))] == s01
    ensures h2.up.triangles == h.up.triangles && h2.down.triangles == h.down.triangles
    ensures h2.upLinks == h.upLinks && h2.downLinks == h.downLinks
  {
    var (h1, split02) := CutEdge(vertices, h, t[0], t[2], plane.cut(vertices[t[0]], vertices[t[2]]));
    var (h2', split01) := CutEdge(vertices, h1, t[0], t[1], plane.cut(vertices[t[0]], vertices[t[1]]));
    h2, s02, s01 := h2', split02, split01;
    if Key(Edge(t[0], t[2])) == Key(Edge(t[0], t[1])) {
      KeyCharacterises(Edge(t[0], t[2]), Edge(t[0], t[1]));
    }
  }

  /** A straddling triangle with corners `t` = (lone, next, previous): the
      cut points c02 (edge t0-t2) and c01 (edge t0-t1) are found or made,
      the lone side gets (t0, c01, c02), the other side (t1, c02, c01) and
      (t2, c02, t1), and the outline gets one link on each side, as
      `Straddled` describes. A link that starts where one already starts
      is a duplicate dictionary key and fails. */
  method CutStraddling<V>(plane: Plane<V>, vertices: seq<V>, h: Halves<V>, t: seq<int>, loneIsAbove: bool)
    returns (r: Result<Halves<V>>)
    requires Inv(vertices, h) && |t| == 3 && forall j :: 0 <= j < 3 ==> 0 <= t[j] < |vertices|
    ensures r.Success? ==> Inv(vertices, r.value) && h.up.vertices <= r.value.up.vertices
    ensures r.Success? ==> Straddled(vertices, h, r.value, t, loneIsAbove)
    ensures r.Failure? ==> r.error == DuplicateKey
  {
    var h2, s02, s01 := CutEdges(plane, vertices, h, t);
    var newV := [s02.0, s02.1, s01.0, s01.1];
    var lone := [t[0], newV[2], newV[0]];
    var pair := [t[1], newV[1], newV[3], t[2], newV[1], t[1]];
    var upLink := if loneIsAbove then (newV[0], newV[2]) else (newV[3], newV[1]);
    var downLink := if loneIsAbove then (newV[3], newV[1]) else (newV[0], newV[2]);
    if upLink.0 in h2.upLinks || downLink.0 in h2.downLinks {
      return Failure(DuplicateKey);
    }
    EmitKeeps(vertices, h2, loneIsAbove, lone, pair, upLink, downLink);
    EmitStraddled(vertices, h, h2, t, loneIsAbove, s02.0, s01.0);
    r := Success(Emit(h2, loneIsAbove, lone, pair, upLink, downLink));
  }

  /** Emitting the pieces of a straddling triangle, once its two cut points
      are recorded and nothing else changed, is what `Straddled` says. */
  lemma EmitStraddled<V>(vertices: seq<V>, h: Halves<V>, h2: Halves<V>, t: seq<int>, loneIsAbove: bool, c02: int, c01: int)
    requires |t| == 3 && |vertices| <= c02 && |vertices| <= c01
    requires Key(Edge(t[0], t[2])) in h2.splitEdges && h2.splitEdges[Key(Edge(t[0], t[2]))].0 == c02
    requires Key(Edge(t[0], t[1])) in h2.splitEdges && h2.splitEdges[Key(Edge(t[0], t[1]))].0 == c01
    requires h2.up.triangles == h.up.triangles && h2.down.triangles == h.down.triangles
    requires h2.upLinks == h.upLinks && h2.downLinks == h.downLinks
    ensures Straddled(vertices, h, Emit(h2, loneIsAbove, [t[0], c01, c02], [t[1], c02, c01, t[2], c02, t[1]],
                                        if loneIsAbove then (c02, c01) else (c01, c02),
                                        if loneIsAbove then (c01, c02) else (c02, c01)), t, loneIsAbove)
  {
  }

  /** The rotation of a straddling triangle puts its lone corner first: the
      corners are the triangle's own, the first is on one side and the
      other two on the other, and the bit of the code the cut reads for
      the lone side is the lone corner's side. */
  lemma RotatedLone(s0: bool, s1: bool, s2: bool, a: int, b: int, c: int)
    requires !(s0 == s1 == s2)
    ensures var code := SideCode(s0, s1, s2);
      && 0 < code < 7
      && var l := LoneCorner(code);
      && var t, s := Rotated(a, b, c, l), [s0, s1, s2];
      && (t == [a, b, c] || t == [b, c, a] || t == [c, a, b])
      && s[(l + 1) % 3] == s[(l + 2) % 3] != s[l]
      && Bit(code, l) == s[l]
  {
    SideCodeExtremes(s0, s1, s2);
    LoneCornerIsAlone(s0, s1, s2);
    var l := LoneCorner(SideCode(s0, s1, s2));
    if l == 0 {
      assert Rotated(a, b, c, l) == [a, b, c];
    } else if l == 1 {
      assert Rotated(a, b, c, l) == [b, c, a];
    } else {
      assert Rotated(a, b, c, l) == [c, a, b];
    }
  }

  /** One triangle (a, b, c) of the pass, with `sides` the side bit of
      every vertex. A triangle wholly below the plane is appended verbatim
      to the lower half and one wholly above to the upper half, and nothing
      else changes. A straddling one is rotated to (lone, next, previous),
      a rotation of its own corners with the lone corner alone on its
      side, and cut around that corner. */
  method CutTriangle<V>(plane: Plane<V>, vertices: seq<V>, sides: seq<bool>, h: Halves<V>, a: int, b: int, c: int)
    returns (r: Result<Halves<V>>)
    requires |sides| == |vertices| && Inv(vertices, h)
    requires 0 <= a < |vertices| && 0 <= b < |vertices| && 0 <= c < |vertices|
    ensures r.Success? ==> Inv(vertices, r.value) && h.up.vertices <= r.value.up.vertices
    ensures r.Failure? ==> r.error == DuplicateKey
    ensures sides[a] == sides[b] == sides[c] ==>
      && r.Success?
      && Side(r.value, sides[a]) == SplitResult(Side(h, sides[a]).vertices, Side(h, sides[a]).triangles + [a, b, c])
      && Side(r.value, !sides[a]) == Side(h, !sides[a])
      && r.value.upLinks == h.upLinks && r.value.downLinks == h.downLinks && r.value.splitEdges == h.splitEdges
    ensures !(sides[a] == sides[b] == sides[c]) ==>
      var code := SideCode(sides[a], sides[b], sides[c]);
      && 0 < code < 7
      && var t := Rotated(a, b, c, LoneCorner(code));
      && (t == [a, b, c] || t == [b, c, a] || t == [c, a, b])
      && sides[t[1]] == sides[t[2]] != sides[t[0]]
      && (r.Success? ==> Straddled(vertices, h, r.value, t, sides[t[0]]))
  {
    var code := SideCode(sides[a], sides[b], sides[c]);
    SideCodeExtremes(sides[a], sides[b], sides[c]);
    if code == 0 {
      IndicesGrow(h.down.triangles, [a, b, c], |h.down.vertices|, |h.down.vertices|);
      r := Success(h.(down := SplitResult(h.down.vertices, h.down.triangles + [a, b, c])));
    } else if code == 7 {
      IndicesGrow(h.up.triangles, [a, b, c], |h.up.vertices|, |h.up.vertices|);
      r := Success(h.(up := SplitResult(h.up.vertices, h.up.triangles + [a, b, c])));
    } else {
      var loneV := LoneCorner(code);
      var t := Rotated(a, b, c, loneV);
      RotatedLone(sides[a], sides[b], sides[c], a, b, c);
      assert sides[t[0]] == [sides[a], sides[b], sides[c]][loneV];
      assert sides[t[1]] == [sides[a], sides[b], sides[c]][(loneV + 1) % 3];
      assert sides[t[2]] == [sides[a], sides[b], sides[c]][(loneV + 2) % 3];
      r := CutStraddling(plane, vertices, h, t, Bit(code, loneV));
    }
  }

  // ---------------------------------------------------------------------
  // The triangle pass
  // ---------------------------------------------------------------------

  /** What `CutTriangle` does to the halves `h`, giving `h2`, for the
      triangle whose corners are entries `i` to `i + 2` of `triangles`: the
      corners are vertex indices; a triangle on one side is appended to
      that side and nothing else changes; a straddling one is cut around
      its lone corner as `Straddled` describes. */
  ghost predicate TriangleCut<V>(vertices: seq<V>, sides: seq<bool>, h: Halves<V>, h2: Halves<V>, triangles: seq<int>, i: int)
  {
    && |sides| == |vertices| && 0 <= i && i + 2 < |triangles|
    && var a, b, c := triangles[i], triangles[i + 1], triangles[i + 2];
    && 0 <= a < |vertices| && 0 <= b < |vertices| && 0 <= c < |vertices|
    && Inv(vertices, h2) && h.up.vertices <= h2.up.vertices
    && (sides[a] == sides[b] == sides[c] ==>
         && Side(h2, sides[a]) == SplitResult(Side(h, sides[a]).vertices, Side(h, sides[a]).triangles + [a, b, c])
         && Side(h2, !sides[a]) == Side(h, !sides[a])
         && h2.upLinks == h.upLinks && h2.downLinks == h.downLinks && h2.splitEdges == h.splitEdges)
    && (!(sides[a] == sides[b] == sides[c]) ==>
         && 0 < SideCode(sides[a], sides[b], sides[c]) < 7
         && var t := Rotated(a, b, c, LoneCorner(SideCode(sides[a], sides[b], sides[c])));
         && Straddled(vertices, h, h2, t, sides[t[0]]))
  }


  /** The side bit of every vertex. */
  function Sides<V>(plane: Plane<V>, vertices: seq<V>): (sides: seq<bool>)
    ensures |sides| == |vertices|
    ensures forall i :: 0 <= i < |vertices| ==> sides[i] == plane.above(vertices[i])
  {
    seq(|vertices|, i requires 0 <= i < |vertices| => plane.above(vertices[i]))
  }

  /** Every step of `trace` is the cut of the next triangle of `triangles`:
      step `k` cuts the triangle at entries `3 * k` to `3 * k + 2`. */
  ghost predicate CutTrace<V>(vertices: seq<V>, sides: seq<bool>, triangles: seq<int>, trace: seq<Halves<V>>) {
    forall k :: 0 <= k < |trace| - 1 ==> TriangleCut(vertices, sides, trace[k], trace[k + 1], triangles, 3 * k)
  }

  /** One turn of the triangle pass: the triangle whose corners are entries
      `i` to `i + 2`, cut as `CutTriangle` does. Entries that are missing
      or are not vertex indices are an index out of range. Every cut adds
      at least one triple to the halves. */
  method CutAt<V>(plane: Plane<V>, vertices: seq<V>, sides: seq<bool>, h: Halves<V>, triangles: seq<int>, i: nat)
    returns (r: Result<Halves<V>>)
    requires |sides| == |vertices| && Inv(vertices, h) && i < |triangles|
    ensures r.Success? ==> TriangleCut(vertices, sides, h, r.value, triangles, i)
    ensures r.Success? ==> |r.value.up.triangles| + |r.value.down.triangles| >= |h.up.triangles| + |h.down.triangles| + 3
    ensures r.Failure? ==> r.error in {DuplicateKey, IndexOutOfRange}
    ensures r.Failure? && r.error == IndexOutOfRange <==>
      !(i + 2 < |triangles| && 0 <= triangles[i] < |vertices| && 0 <= triangles[i + 1] < |vertices| && 0 <= triangles[i + 2] < |vertices|)
  {
    if i + 2 >= |triangles| || !(0 <= triangles[i] < |vertices|)
      || !(0 <= triangles[i + 1] < |vertices|) || !(0 <= triangles[i + 2] < |vertices|) {
      return Failure(IndexOutOfRange);
    }
    r := CutTriangle(plane, vertices, sides, h, triangles[i], triangles[i + 1], triangles[i + 2]);
  }

  /** A trace of cut steps over the first `i` entries, followed by the cut
      of the triangle at entry `i`, is a trace over the first `i + 3`. */
  lemma TraceGrows<V>(vertices: seq<V>, sides: seq<bool>, trace: seq<Halves<V>>, h2: Halves<V>, triangles: seq<int>, i: int)
    requires 0 <= i && i % 3 == 0 && |trace| == i / 3 + 1
    requires CutTrace(vertices, sides, triangles, trace)
    requires TriangleCut(vertices, sides, trace[|trace| - 1], h2, triangles, i)
    ensures var t := trace + [h2];
      && |t| == (i + 3) / 3 + 1 && t[0] == trace[0] && t[|t| - 1] == h2
      && CutTrace(vertices, sides, triangles, t)
  {
    var t := trace + [h2];
    forall k | 0 <= k < |t| - 1
      ensures TriangleCut(vertices, sides, t[k], t[k + 1], triangles, 3 * k)
    {
      if k < |trace| - 1 {
        assert t[k] == trace[k] && t[k + 1] == trace[k + 1];
      } else {
        assert 3 * k == i && t[k] == trace[|trace| - 1];
      }
    }
  }

  /** The loop over the triangles, three entries at a time. It succeeds
      only on whole triples of valid indices, and then every triangle has
      put at least one triple into the halves. A triangle that cannot be
      read is an index out of range. */
  method SplitTriangles<V>(plane: Plane<V>, vertices: seq<V>, sides: seq<bool>, triangles: seq<int>)
    returns (r: Result<Halves<V>>, ghost trace: seq<Halves<V>>)
    requires |sides| == |vertices|
    ensures r.Success? ==> Inv(vertices, r.value) && WellFormed(SplitResult(vertices, triangles))
    ensures r.Success? ==> |r.value.up.triangles| + |r.value.down.triangles| >= |triangles|
    ensures r.Success? ==>
      && |trace| == |triangles| / 3 + 1 && trace[0] == Initial(vertices) && trace[|trace| - 1] == r.value
      && CutTrace(vertices, sides, triangles, trace)
    ensures r.Failure? ==> r.error in {DuplicateKey, IndexOutOfRange}
  {
    InitialInv(vertices);
    var h := Initial(vertices);
    trace := [h];
    var i := 0;
    while i < |triangles|
      invariant 0 <= i <= |triangles| && i % 3 == 0
      invariant Inv(vertices, h) && |h.up.triangles| + |h.down.triangles| >= i
      invariant IndicesIn(triangles[..i], |vertices|)
      invariant |trace| == i / 3 + 1 && trace[0] == Initial(vertices) && trace[|trace| - 1] == h
      invariant CutTrace(vertices, sides, triangles, trace)
    {
      var next := CutAt(plane, vertices, sides, h, triangles, i);
      if next.Failure? {
        return Failure(next.error), trace;
      }
      assert triangles[..i + 3] == triangles[..i] + [triangles[i], triangles[i + 1], triangles[i + 2]];
      TraceGrows(vertices, sides, trace, next.value, triangles, i);
      trace := trace + [next.value];
      h := next.value;
      i := i + 3;
    }
    assert triangles[..i] == triangles;
    r := Success(h);
  }

  // ---------------------------------------------------------------------
  // Capping the cut
  // ---------------------------------------------------------------------

  /** The 2D positions of all vertices in the cutting plane. */
  function Projected<V>(plane: Plane<V>, vertices: seq<V>): (flat: seq<Vec2>)
    ensures |flat| == |vertices|
    ensures forall i :: 0 <= i < |vertices| ==> flat[i] == plane.project(vertices[i])
  {
    seq(|vertices|, i requires 0 <= i < |vertices| => plane.project(vertices[i]))
  }

  /** `side` with one copy of the vertex each filler entry names appended,
      and one triangle entry naming that copy: the cap gets vertices of its
      own (so that it can be shaded apart from the surface it closes). */
  function Capped<V>(side: SplitResult<V>, filler: seq<int>): SplitResult<V>
    requires IndicesIn(filler, |side.vertices|)
  {
    SplitResult(
      side.vertices + seq(|filler|, k requires 0 <= k < |filler| => side.vertices[filler[k]]),
      side.triangles + seq(|filler|, k => |side.vertices| + k))
  }

  /** Capping only appends, keeps the fragment well-formed, and the new
      triangles show at every corner the position the filler entry names. */
  lemma CappedMeans<V>(side: SplitResult<V>, filler: seq<int>)
    requires WellFormed(side) && |filler| % 3 == 0 && IndicesIn(filler, |side.vertices|)
    ensures var r := Capped(side, filler);
      && WellFormed(r)
      && |r.vertices| == |side.vertices| + |filler| && side.vertices <= r.vertices
      && |r.triangles| == |side.triangles| + |filler| && side.triangles <= r.triangles
      && forall k :: 0 <= k < |filler| ==> r.vertices[r.triangles[|side.triangles| + k]] == side.vertices[filler[k]]
  {
    var r := Capped(side, filler);
    forall k | 0 <= k < |filler|
      ensures r.vertices[r.triangles[|side.triangles| + k]] == side.vertices[filler[k]]
    {
      assert r.triangles[|side.triangles| + k] == |side.vertices| + k;
    }
    IndicesGrow(side.triangles, seq(|filler|, k => |side.vertices| + k), |side.vertices|, |r.vertices|);
  }

  /** The two loops over the filler that append the copies. */
  method AppendCap<V>(side: SplitResult<V>, filler: seq<int>) returns (r: SplitResult<V>)
    requires IndicesIn(filler, |side.vertices|)
    ensures r == Capped(side, filler)
  {
    var vertices := side.vertices;
    var triangles := side.triangles;
    var k := 0;
    while k < |filler|
      invariant 0 <= k <= |filler|
      invariant vertices == side.vertices + seq(k, j requires 0 <= j < k => side.vertices[filler[j]])
      invariant triangles == side.triangles + seq(k, j => |side.vertices| + j)
    {
      vertices := vertices + [vertices[filler[k]]];
      triangles := triangles + [|vertices| - 1];
      k := k + 1;
    }
    r := SplitResult(vertices, triangles);
  }

  /** One loop of the cut outline: its ear-clipped filler, in the plane's
      coordinates, caps the upper side, and the filler with its winding
      reversed caps the lower side. A triangulation that does not finish
      within `fuel` steps fails as stalled. */
  method CapOne<V>(space: Space<V>, plane: Plane<V>, up: SplitResult<V>, down: SplitResult<V>, loop: Loop, fuel: nat)
    returns (r: Result<(SplitResult<V>, SplitResult<V>)>, filler: seq<int>)
    requires loop.Valid() && NodesIn(loop.Nodes, |up.vertices|) && |up.vertices| == |down.vertices|
    modifies loop
    ensures r.Success? ==>
      && |filler| % 3 == 0 && IndicesIn(filler, |up.vertices|)
      && AllConvex(space.flat, Projected(plane, up.vertices), filler)
      && Within(filler, old(loop.Nodes))
      && r.value == (Capped(up, filler), Capped(down, Reverted(filler)))
    ensures r.Failure? ==> r.error == Stalled
  {
    var flat := Projected(plane, up.vertices);
    var finished;
    filler, finished := EarClippingTriangulation(space.flat, flat, loop, fuel);
    if !finished {
      return Failure(Stalled), filler;
    }
    AllConvexWhole(space.flat, flat, filler);
    var upCapped := AppendCap(up, filler);
    var reverted := new int[|filler|](k requires 0 <= k < |filler| => filler[k]);
    assert reverted[..] == filler;
    RevertTriangles(reverted);
    RevertedIndices(filler, |down.vertices|);
    var downCapped := AppendCap(down, reverted[..]);
    r := Success((upCapped, downCapped));
  }

  /** What `CapOne` does with a loop whose nodes are `nodes`: `filler` is
      whole triangles over the loop's own nodes, each convex in the plane,
      and the sides `s` become `s2` by capping the upper side with `filler`
      and the lower side with its reversal. */
  ghost predicate LoopCapped<V>(space: Space<V>, plane: Plane<V>, s: (SplitResult<V>, SplitResult<V>),
                                s2: (SplitResult<V>, SplitResult<V>), filler: seq<int>, nodes: seq<int>)
  {
    && |filler| % 3 == 0 && IndicesIn(filler, |s.0.vertices|) && IndicesIn(Reverted(filler), |s.1.vertices|)
    && AllConvex(space.flat, Projected(plane, s.0.vertices), filler)
    && Within(filler, nodes)
    && s2 == (Capped(s.0, filler), Capped(s.1, Reverted(filler)))
  }

  /** Caps every loop in turn: `stages` are the sides before each loop and
      after the last, `fillers` the cap of each loop, and stage `a + 1` is
      stage `a` capped with the filler of loop `a`, as `CapOne` does it.
      Each cap only appends to both sides. */
  method CapAll<V>(space: Space<V>, plane: Plane<V>, up: SplitResult<V>, down: SplitResult<V>, loops: seq<Loop>, fuel: nat)
    returns (r: Result<(SplitResult<V>, SplitResult<V>)>,
             ghost stages: seq<(SplitResult<V>, SplitResult<V>)>, ghost fillers: seq<seq<int>>)
    requires Family(loops, |up.vertices|) && |up.vertices| == |down.vertices|
    requires WellFormed(up) && WellFormed(down)
    modifies set a | 0 <= a < |loops| :: loops[a]
    ensures r.Success? ==>
      && WellFormed(r.value.0) && WellFormed(r.value.1)
      && |r.value.0.vertices| == |r.value.1.vertices|
      && up.vertices <= r.value.0.vertices && down.vertices <= r.value.1.vertices
      && up.triangles <= r.value.0.triangles && down.triangles <= r.value.1.triangles
    ensures r.Success? ==>
      && |stages| == |loops| + 1 && |fillers| == |loops|
      && stages[0] == (up, down) && stages[|loops|] == r.value
      && forall a :: 0 <= a < |loops| ==> LoopCapped(space, plane, stages[a], stages[a + 1], fillers[a], old(loops[a].Nodes))
    ensures r.Failure? ==> r.error == Stalled
  {
    var n := |up.vertices|;
    ghost var nodes := NodesOf(loops);
    var u, d := up, down;
    stages, fillers := [(up, down)], [];
    var li := 0;
    while li < |loops|
      invariant 0 <= li <= |loops|
      invariant forall a {:trigger ValidOver(loops[a], n)} :: li <= a < |loops| ==> ValidOver(loops[a], n)
      invariant forall a :: li <= a < |loops| ==> loops[a].Nodes == nodes[a]
      invariant WellFormed(u) && WellFormed(d) && |u.vertices| == |d.vertices|
      invariant up.vertices <= u.vertices && down.vertices <= d.vertices
      invariant up.triangles <= u.triangles && down.triangles <= d.triangles
      invariant |stages| == li + 1 && |fillers| == li && stages[0] == (up, down) && stages[li] == (u, d)
      invariant forall a :: 0 <= a < li ==> LoopCapped(space, plane, stages[a], stages[a + 1], fillers[a], nodes[a])
    {
      assert ValidOver(loops[li], n);
      assert NodesIn(loops[li].Nodes, |u.vertices|);
      var capped, filler := CapOne(space, plane, u, d, loops[li], fuel);
      if capped.Failure? {
        return Failure(capped.error), stages, fillers;
      }
      CappedMeans(u, filler);
      RevertedShape(filler);
      RevertedIndices(filler, |d.vertices|);
      CappedMeans(d, Reverted(filler));
      assert LoopCapped(space, plane, (u, d), capped.value, filler, nodes[li]);
      stages, fillers := stages + [capped.value], fillers + [filler];
      u, d := capped.value.0, capped.value.1;
      li := li + 1;
    }
    r := Success((u, d));
  }

  // ---------------------------------------------------------------------
  // The whole cut
  // ---------------------------------------------------------------------

  /** What a cut went through: the halves after each triangle (`trace`),
      the outline of the cut on the upper side (`outline`, which gives the
      loops' `chains`), and the sides before each loop's cap and after the
      last (`stages`) with the caps (`fillers`). */
  datatype CutRecord<V> = CutRecord(trace: seq<Halves<V>>, outline: Outline, chains: seq<seq<int>>,
                                    stages: seq<(SplitResult<V>, SplitResult<V>)>, fillers: seq<seq<int>>)

  /** `cut` is the cut of the mesh (`vertices`, `triangles`) along `plane`
      that `rec` records: every triangle is cut in turn from the initial
      halves, the loops are the `OutlineOf` the cut links of the upper
      side, and each loop in turn caps both sides. */
  ghost predicate CutBy<V>(space: Space<V>, plane: Plane<V>, vertices: seq<V>, triangles: seq<int>,
                           rec: CutRecord<V>, cut: (SplitResult<V>, SplitResult<V>))
  {
    && |rec.trace| == |triangles| / 3 + 1 && rec.trace[0] == Initial(vertices)
    && CutTrace(vertices, Sides(plane, vertices), triangles, rec.trace)
    && var h := rec.trace[|rec.trace| - 1];
       && OutlineOf(h.up.vertices, space.same, h.upLinks, rec.outline, rec.chains)
       && |rec.stages| == |rec.chains| + 1 && |rec.fillers| == |rec.chains|
       && rec.stages[0] == (h.up, h.down) && rec.stages[|rec.chains|] == cut
       && forall a :: 0 <= a < |rec.chains| ==>
            LoopCapped(space, plane, rec.stages[a], rec.stages[a + 1], rec.fillers[a], rec.chains[a])
  }

  /** Cuts the mesh (`vertices`, `triangles`) along `plane` into its upper
      and lower halves: the triangle pass, the outline of the upper side
      turned into loops, and every loop capped on both sides, as `CutBy`
      says with the record `rec`. Each half extends the input vertex list
      and is well-formed, and together they hold at least as many triangle
      entries as the mesh. A mesh whose triangles cannot all be read fails
      with an index out of range. */
  method SplitMeshAlongPlane<V>(space: Space<V>, plane: Plane<V>, vertices: seq<V>, triangles: seq<int>, fuel: nat)
    returns (r: Result<(SplitResult<V>, SplitResult<V>)>, ghost rec: CutRecord<V>)
    ensures r.Success? ==> WellFormed(SplitResult(vertices, triangles))
    ensures r.Success? ==> |r.value.0.triangles| + |r.value.1.triangles| >= |triangles|
    ensures r.Success? ==>
      && WellFormed(r.value.0) && WellFormed(r.value.1)
      && vertices <= r.value.0.vertices && vertices <= r.value.1.vertices
    ensures r.Success? ==> CutBy(space, plane, vertices, triangles, rec, r.value)
    ensures r.Failure? ==> r.error in {DuplicateKey, IndexOutOfRange, UnopenedCycle, KeyNotFound, Stalled}
  {
    var sides := Sides(plane, vertices);
    var pass;
    ghost var trace;
    pass, trace := SplitTriangles(plane, vertices, sides, triangles);
    rec := CutRecord(trace, Outline([], map[], [], [], []), [], [], []);
    if pass.Failure? {
      return Failure(pass.error), rec;
    }
    var h := pass.value;
    var loops, _, outline := EdgesToLoops(h.up.vertices, space.same, h.upLinks);
    if loops.Failure? {
      return Failure(loops.error), rec;
    }
    ghost var chains := NodesOf(loops.value);
    var capped, stages, fillers := CapAll(space, plane, h.up, h.down, loops.value, fuel);
    r := capped;
    rec := CutRecord(trace, outline, chains, stages, fillers);
  }
}
