/** Fracturing a mesh: cutting every fragment by one plane after the
    other and keeping the halves that still hold triangles. The planes are
    chosen at random by the host; here they are given. */
module Fracturing {
  import opened Meshes
  import opened Split

  /** `2^n`, the most fragments `n` planes can make of one mesh. */
  function Pow2(n: nat): (p: nat)
    ensures p >= 1
  {
    if n == 0 then 1 else 2 * Pow2(n - 1)
  }

  /** A fragment worth keeping: it holds at least one triangle entry. */
  predicate HasTriangles<V>(f: SplitResult<V>) {
    f.triangles != []
  }

  /** The halves of one cut that hold a triangle, upper half first. */
  function WithTriangles<V>(cut: (SplitResult<V>, SplitResult<V>)): (kept: seq<SplitResult<V>>)
    ensures |kept| == (if HasTriangles(cut.0) then 1 else 0) + (if HasTriangles(cut.1) then 1 else 0)
    ensures forall f :: f in kept ==> HasTriangles(f) && (f == cut.0 || f == cut.1)
    ensures HasTriangles(cut.0) ==> kept[0] == cut.0
    ensures HasTriangles(cut.1) ==> kept[|kept| - 1] == cut.1
  {
    (if HasTriangles(cut.0) then [cut.0] else []) + (if HasTriangles(cut.1) then [cut.1] else [])
  }

  /** `cut` is what cutting `fragment` by `plane` gives: the cut `CutBy`
      describes with the record `rec`, two well-formed halves, each
      extending the fragment's vertex list, together holding at least its
      triangle entries. */
  ghost predicate CutFrom<V>(space: Space<V>, plane: Plane<V>, fragment: SplitResult<V>, rec: CutRecord<V>,
                             cut: (SplitResult<V>, SplitResult<V>)) {
    && WellFormed(fragment) && WellFormed(cut.0) && WellFormed(cut.1)
    && fragment.vertices <= cut.0.vertices && fragment.vertices <= cut.1.vertices
    && |cut.0.triangles| + |cut.1.triangles| >= |fragment.triangles|
    && CutBy(space, plane, fragment.vertices, fragment.triangles, rec, cut)
  }

  /** `cuts[g]` is the cut of `fragments[g]` by `plane`, recorded in
      `recs[g]`, for every fragment. */
  ghost predicate FragmentsCut<V>(space: Space<V>, plane: Plane<V>, fragments: seq<SplitResult<V>>,
                                  recs: seq<CutRecord<V>>, cuts: seq<(SplitResult<V>, SplitResult<V>)>) {
    |cuts| == |fragments| && |recs| == |cuts| &&
    forall g :: 0 <= g < |cuts| ==> CutFrom(space, plane, fragments[g], recs[g], cuts[g])
  }

  /** The kept halves of every cut, in the order of the cuts: the list one
      plane makes. */
  function AllKept<V>(cuts: seq<(SplitResult<V>, SplitResult<V>)>): (kept: seq<SplitResult<V>>)
    ensures |kept| <= 2 * |cuts|
    ensures forall f :: 0 <= f < |kept| ==> HasTriangles(kept[f])
  {
    if cuts == [] then [] else AllKept(cuts[..|cuts| - 1]) + WithTriangles(cuts[|cuts| - 1])
  }

  /** `f` is a half of `cut` that holds a triangle: one `WithTriangles`
      keeps. */
  ghost predicate KeptHalf<V>(cut: (SplitResult<V>, SplitResult<V>), f: SplitResult<V>) {
    HasTriangles(f) && (f == cut.0 || f == cut.1)
  }

  /** Where each entry of a list of kept halves comes from: entry `f` is a
      kept half of cut `origin[f]`, and the origins never go back, so the
      list keeps the order of the cuts. */
  ghost predicate Origins<V>(cuts: seq<(SplitResult<V>, SplitResult<V>)>, kept: seq<SplitResult<V>>, origin: seq<int>) {
    && |origin| == |kept|
    && (forall f :: 0 <= f < |kept| ==> 0 <= origin[f] < |cuts| && KeptHalf(cuts[origin[f]], kept[f]))
    && (forall f :: 0 < f < |kept| ==> origin[f - 1] <= origin[f])
  }

  /** Every half `AllKept` lists is a kept half of one of the cuts, in the
      order of the cuts. */
  lemma {:induction false} AllKeptOrigins<V>(cuts: seq<(SplitResult<V>, SplitResult<V>)>) returns (origin: seq<int>)
    ensures Origins(cuts, AllKept(cuts), origin)
  {
    if cuts == [] {
      origin := [];
    } else {
      var front, cut := cuts[..|cuts| - 1], cuts[|cuts| - 1];
      var earlier := AllKeptOrigins(front);
      assert cuts == front + [cut];
      origin := OriginsJoin(front, cut, AllKept(front), earlier);
    }
  }

  /** The origins of a list of kept halves, followed by the kept halves of
      one more cut, all of which come from that cut. */
  lemma OriginsJoin<V>(front: seq<(SplitResult<V>, SplitResult<V>)>, cut: (SplitResult<V>, SplitResult<V>),
                       kept: seq<SplitResult<V>>, earlier: seq<int>) returns (origin: seq<int>)
    requires Origins(front, kept, earlier)
    ensures Origins(front + [cut], kept + WithTriangles(cut), origin)
  {
    var cuts, last, all := front + [cut], WithTriangles(cut), kept + WithTriangles(cut);
    origin := earlier + seq(|last|, _ => |front|);
    forall f | 0 <= f < |all|
      ensures 0 <= origin[f] < |cuts| && KeptHalf(cuts[origin[f]], all[f])
    {
      if f < |earlier| {
        assert all[f] == kept[f] && cuts[origin[f]] == front[origin[f]];
      } else {
        assert all[f] == last[f - |earlier|] && origin[f] == |front|;
      }
    }
    forall f | 0 < f < |all|
      ensures origin[f - 1] <= origin[f]
    {
      if f < |earlier| {
        assert origin[f - 1] == earlier[f - 1] && origin[f] == earlier[f];
      } else {
        assert origin[f] == |front|;
      }
    }
  }

  /** One fragment: it is cut by the plane, and the halves that hold a
      triangle are kept, upper half first. `cut` is the pair of halves the
      cut gave. */
  method KeptHalves<V>(space: Space<V>, plane: Plane<V>, fragment: SplitResult<V>, fuel: nat)
    returns (r: Result<seq<SplitResult<V>>>, ghost rec: CutRecord<V>, ghost cut: (SplitResult<V>, SplitResult<V>))
    ensures r.Success? ==> CutFrom(space, plane, fragment, rec, cut) && r.value == WithTriangles(cut)
    ensures r.Failure? ==> r.error in {DuplicateKey, IndexOutOfRange, UnopenedCycle, KeyNotFound, Stalled}
  {
    var halves;
    halves, rec := SplitMeshAlongPlane(space, plane, fragment.vertices, fragment.triangles, fuel);
    if halves.Failure? {
      return Failure(halves.error), rec, (fragment, fragment);
    }
    var (up, down) := halves.value;
    cut := (up, down);
    var kept := [];
    if up.triangles != [] {
      kept := kept + [up];
    }
    if down.triangles != [] {
      kept := kept + [down];
    }
    r := Success(kept);
  }

  /** One plane: every fragment is cut in turn and its kept halves are
      appended, so the result is `AllKept` of the cuts. Every new fragment
      holds a triangle, is well-formed, and extends the vertex list of the
      fragment `origin` names. */
  method FractureStep<V>(space: Space<V>, plane: Plane<V>, fragments: seq<SplitResult<V>>, fuel: nat)
    returns (r: Result<seq<SplitResult<V>>>, ghost recs: seq<CutRecord<V>>,
             ghost cuts: seq<(SplitResult<V>, SplitResult<V>)>, ghost origin: seq<int>)
    ensures r.Success? ==> FragmentsCut(space, plane, fragments, recs, cuts) && r.value == AllKept(cuts)
    ensures r.Success? ==> |r.value| <= 2 * |fragments|
    ensures r.Success? ==> forall f :: 0 <= f < |r.value| ==> HasTriangles(r.value[f]) && WellFormed(r.value[f])
    ensures r.Success? ==> Origins(cuts, r.value, origin)
    ensures r.Success? ==> forall f :: 0 <= f < |r.value| ==> fragments[origin[f]].vertices <= r.value[f].vertices
    ensures r.Failure? ==> r.error in {DuplicateKey, IndexOutOfRange, UnopenedCycle, KeyNotFound, Stalled}
  {
    var result: seq<SplitResult<V>> := [];
    recs, cuts, origin := [], [], [];
    var g := 0;
    while g < |fragments|
      invariant 0 <= g <= |fragments|
      invariant FragmentsCut(space, plane, fragments[..g], recs, cuts)
      invariant result == AllKept(cuts)
    {
      var kept, rec, cut := KeptHalves(space, plane, fragments[g], fuel);
      if kept.Failure? {
        return Failure(kept.error), recs, cuts, origin;
      }
      CutsGrow(space, plane, fragments, recs, cuts, rec, cut, g);
      assert (cuts + [cut])[..g] == cuts;
      result := result + kept.value;
      recs, cuts := recs + [rec], cuts + [cut];
      g := g + 1;
    }
    assert fragments[..g] == fragments;
    origin := AllKeptOrigins(cuts);
    KeptFromFragments(space, plane, fragments, recs, cuts, result, origin);
    r := Success(result);
  }

  /** The cut of one more fragment extends the cuts of those before it. */
  lemma CutsGrow<V>(space: Space<V>, plane: Plane<V>, fragments: seq<SplitResult<V>>, recs: seq<CutRecord<V>>,
                    cuts: seq<(SplitResult<V>, SplitResult<V>)>, rec: CutRecord<V>, cut: (SplitResult<V>, SplitResult<V>), g: nat)
    requires g < |fragments| && FragmentsCut(space, plane, fragments[..g], recs, cuts)
    requires CutFrom(space, plane, fragments[g], rec, cut)
    ensures FragmentsCut(space, plane, fragments[..g + 1], recs + [rec], cuts + [cut])
  {
    forall e | 0 <= e < g + 1
      ensures CutFrom(space, plane, fragments[..g + 1][e], (recs + [rec])[e], (cuts + [cut])[e])
    {
      if e < g {
        assert fragments[..g + 1][e] == fragments[..g][e];
        assert (cuts + [cut])[e] == cuts[e] && (recs + [rec])[e] == recs[e];
      }
    }
  }

  /** Every kept half is well-formed and extends the vertex list of the
      fragment it was cut from. */
  lemma KeptFromFragments<V>(space: Space<V>, plane: Plane<V>, fragments: seq<SplitResult<V>>, recs: seq<CutRecord<V>>,
                             cuts: seq<(SplitResult<V>, SplitResult<V>)>, kept: seq<SplitResult<V>>, origin: seq<int>)
    requires FragmentsCut(space, plane, fragments, recs, cuts) && Origins(cuts, kept, origin)
    ensures forall f :: 0 <= f < |kept| ==> WellFormed(kept[f]) && fragments[origin[f]].vertices <= kept[f].vertices
  {
    forall f | 0 <= f < |kept|
      ensures WellFormed(kept[f]) && fragments[origin[f]].vertices <= kept[f].vertices
    {
      assert CutFrom(space, plane, fragments[origin[f]], recs[origin[f]], cuts[origin[f]]);
      assert KeptHalf(cuts[origin[f]], kept[f]);
    }
  }

  /** Each stage after the first is `AllKept` of the cuts of the fragments
      of the stage before it by the plane of that step. */
  ghost predicate Staged<V>(space: Space<V>, planes: seq<Plane<V>>, stages: seq<seq<SplitResult<V>>>,
                            recs: seq<seq<CutRecord<V>>>, cuts: seq<seq<(SplitResult<V>, SplitResult<V>)>>) {
    && |stages| == |cuts| + 1 && |cuts| <= |planes| && |recs| == |cuts|
    && forall p :: 0 <= p < |cuts| ==>
         FragmentsCut(space, planes[p], stages[p], recs[p], cuts[p]) && stages[p + 1] == AllKept(cuts[p])
  }

  /** One more plane's cuts, and the stage they give, extend the stages. */
  lemma StagedGrows<V>(space: Space<V>, planes: seq<Plane<V>>, stages: seq<seq<SplitResult<V>>>,
                       recs: seq<seq<CutRecord<V>>>, cuts: seq<seq<(SplitResult<V>, SplitResult<V>)>>,
                       stepRecs: seq<CutRecord<V>>, step: seq<(SplitResult<V>, SplitResult<V>)>, next: seq<SplitResult<V>>)
    requires Staged(space, planes, stages, recs, cuts) && |cuts| < |planes|
    requires FragmentsCut(space, planes[|cuts|], stages[|stages| - 1], stepRecs, step) && next == AllKept(step)
    ensures Staged(space, planes, stages + [next], recs + [stepRecs], cuts + [step])
  {
    var s, rs, c := stages + [next], recs + [stepRecs], cuts + [step];
    forall p | 0 <= p < |c|
      ensures FragmentsCut(space, planes[p], s[p], rs[p], c[p]) && s[p + 1] == AllKept(c[p])
    {
      if p < |cuts| {
        assert s[p] == stages[p] && s[p + 1] == stages[p + 1] && c[p] == cuts[p] && rs[p] == recs[p];
      }
    }
  }

  /** A vertex list every fragment starts with is one every fragment cut
      from them starts with. */
  lemma PrefixKept<V>(vertices: seq<V>, fragments: seq<SplitResult<V>>, cuts: seq<(SplitResult<V>, SplitResult<V>)>,
                      kept: seq<SplitResult<V>>, origin: seq<int>)
    requires forall f :: 0 <= f < |fragments| ==> vertices <= fragments[f].vertices
    requires |cuts| == |fragments| && Origins(cuts, kept, origin)
    requires forall f :: 0 <= f < |kept| ==> fragments[origin[f]].vertices <= kept[f].vertices
    ensures forall f :: 0 <= f < |kept| ==> vertices <= kept[f].vertices
  {
    forall f | 0 <= f < |kept| ensures vertices <= kept[f].vertices {
      assert fragments[origin[f]].vertices <= kept[f].vertices;
    }
  }

  /** The fracture of a mesh by the given planes, in order. `stages[p]` is
      the list of fragments before plane `p`: the first is the mesh alone,
      the last is the result, and each next stage is `AllKept` of cuts of
      the fragments of the one before. With no plane the mesh itself is the
      only fragment, unchecked; otherwise every fragment holds a triangle
      and is well-formed. Every fragment's vertex list starts with the
      mesh's own, and each plane at most doubles the number of fragments. */
  method Fracture<V>(space: Space<V>, vertices: seq<V>, triangles: seq<int>, planes: seq<Plane<V>>, fuel: nat)
    returns (r: Result<seq<SplitResult<V>>>, ghost stages: seq<seq<SplitResult<V>>>,
             ghost recs: seq<seq<CutRecord<V>>>, ghost cuts: seq<seq<(SplitResult<V>, SplitResult<V>)>>)
    ensures planes == [] ==> r == Success([SplitResult(vertices, triangles)])
    ensures r.Success? ==>
      && |stages| == |planes| + 1 && |cuts| == |planes|
      && stages[0] == [SplitResult(vertices, triangles)] && stages[|planes|] == r.value
      && Staged(space, planes, stages, recs, cuts)
    ensures r.Success? ==> |r.value| <= Pow2(|planes|)
    ensures r.Success? && planes != [] ==> forall f :: 0 <= f < |r.value| ==> HasTriangles(r.value[f]) && WellFormed(r.value[f])
    ensures r.Success? ==> forall f :: 0 <= f < |r.value| ==> vertices <= r.value[f].vertices
    ensures r.Failure? ==> r.error in {DuplicateKey, IndexOutOfRange, UnopenedCycle, KeyNotFound, Stalled}
  {
    var result := [SplitResult(vertices, triangles)];
    stages, recs, cuts := [result], [], [];
    var p := 0;
    while p < |planes|
      invariant 0 <= p <= |planes| && |result| <= Pow2(p)
      invariant p == 0 ==> result == [SplitResult(vertices, triangles)]
      invariant p > 0 ==> forall f :: 0 <= f < |result| ==> HasTriangles(result[f]) && WellFormed(result[f])
      invariant forall f :: 0 <= f < |result| ==> vertices <= result[f].vertices
      invariant |stages| == p + 1 && |cuts| == p && stages[0] == [SplitResult(vertices, triangles)] && stages[p] == result
      invariant Staged(space, planes, stages, recs, cuts)
    {
      var next, stepRecs, stepCuts, origin := FractureStep(space, planes[p], result, fuel);
      if next.Failure? {
        return Failure(next.error), stages, recs, cuts;
      }
      PrefixKept(vertices, result, stepCuts, next.value, origin);
      StagedGrows(space, planes, stages, recs, cuts, stepRecs, stepCuts, next.value);
      result := next.value;
      stages, recs, cuts := stages + [result], recs + [stepRecs], cuts + [stepCuts];
      p := p + 1;
    }
    r := Success(result);
  }
}
