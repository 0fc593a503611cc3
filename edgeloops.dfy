/** Turning the cut edges of one side of a split into closed outlines
    (`EdgesToLoops`). The adjacency maps each cut point to the next one
    along the cut; positions are compared with a caller-supplied `same`
    because the mesh may hold several vertices at one position. */
module EdgeLoops {
  import opened Loops
  import opened Meshes

  /** Every key and value of the adjacency is a vertex index. */
  ghost predicate Indices(adjacency: map<int, int>, n: int) {
    forall x :: x in adjacency ==> 0 <= x < n && 0 <= adjacency[x] < n
  }

  /** Every node of the chain is a vertex index. */
  ghost predicate NodesIn(nodes: seq<int>, n: int) {
    forall i :: 0 <= i < |nodes| ==> 0 <= nodes[i] < n
  }

  /** A valid loop over vertex indices. */
  ghost predicate ValidOver(loop: Loop, n: int)
    reads loop
  {
    loop.Valid() && NodesIn(loop.Nodes, n)
  }

  /** Distinct loop objects, each valid and over vertex indices. The second
      quantifier fires only on an explicit `ValidOver` term, so that the
      chain invariant of every loop is not unfolded wherever the list is
      mentioned. */
  ghost predicate Family(loops: seq<Loop>, n: int)
    reads loops
  {
    && (forall a, b :: 0 <= a < b < |loops| ==> loops[a] != loops[b])
    && (forall a {:trigger ValidOver(loops[a], n)} :: 0 <= a < |loops| ==> ValidOver(loops[a], n))
  }

  /** What one walk produced: a chain, or the degenerate loop a self-link
      `k -> k` leaves behind (both maps filled, both ends still -1). */
  datatype Walked = Chain(loop: Loop) | SelfLink

  /** `rest` is `adjacency` without the links out of the vertices of `used`. */
  ghost predicate Without(adjacency: map<int, int>, rest: map<int, int>, used: seq<int>) {
    && (forall k :: k in rest <==> k in adjacency && k !in used)
    && (forall k :: k in rest ==> rest[k] == adjacency[k])
  }

  /** From position `from` on, every step of `path` is a link of
      `adjacency`. (The trigger keeps one step from setting off the next.) */
  ghost predicate Follows(adjacency: map<int, int>, path: seq<int>, from: nat) {
    forall j {:trigger adjacency[path[j]]} :: from <= j < |path| - 1 ==> path[j] in adjacency && adjacency[path[j]] == path[j + 1]
  }

  /** The chain a walk along the vertices `path` builds: each further
      vertex is appended, or replaces the current end (never the start)
      when the two lie at the same position. */
  ghost function Traced<V>(vertices: seq<V>, same: (V, V) -> bool, path: seq<int>): (nodes: seq<int>)
    requires |path| >= 2 && NodesIn(path, |vertices|)
    ensures |nodes| >= 2 && nodes[0] == path[0] && nodes[|nodes| - 1] == path[|path| - 1]
  {
    TracedTo(vertices, same, path, |path|)
  }

  /** The chain traced from the first `n` positions of `path`. */
  ghost function TracedTo<V>(vertices: seq<V>, same: (V, V) -> bool, path: seq<int>, n: int): (nodes: seq<int>)
    requires 2 <= n <= |path| && NodesIn(path, |vertices|)
    ensures |nodes| >= 2 && nodes[0] == path[0] && nodes[|nodes| - 1] == path[n - 1]
    decreases n
  {
    if n == 2 then [path[0], path[1]]
    else Grow(vertices, same, TracedTo(vertices, same, path, n - 1), path[n - 2], path[n - 1])
  }

  /** One step of `Traced`: the link `from -> w` out of the end of `prior`. */
  ghost function Grow<V>(vertices: seq<V>, same: (V, V) -> bool, prior: seq<int>, from: int, w: int): (nodes: seq<int>)
    requires |prior| >= 2 && 0 <= from < |vertices| && 0 <= w < |vertices|
    ensures |nodes| >= 2 && nodes[0] == prior[0] && nodes[|nodes| - 1] == w
  {
    (if same(vertices[from], vertices[w]) then prior[..|prior| - 1] else prior) + [w]
  }

  /** The chain holds only vertices of the walk. */
  lemma TracedWithin<V>(vertices: seq<V>, same: (V, V) -> bool, path: seq<int>)
    requires |path| >= 2 && NodesIn(path, |vertices|)
    ensures forall x :: x in Traced(vertices, same, path) ==> x in path
  {
    TracedToWithin(vertices, same, path, |path|);
  }

  lemma {:induction false} TracedToWithin<V>(vertices: seq<V>, same: (V, V) -> bool, path: seq<int>, n: int)
    requires 2 <= n <= |path| && NodesIn(path, |vertices|)
    ensures forall x :: x in TracedTo(vertices, same, path, n) ==> x in path
    decreases n
  {
    if n > 2 {
      TracedToWithin(vertices, same, path, n - 1);
      var prior := TracedTo(vertices, same, path, n - 1);
      forall x | x in TracedTo(vertices, same, path, n) ensures x in path {
        if x != path[n - 1] {
          assert x in prior by {
            if same(vertices[path[n - 2]], vertices[path[n - 1]]) {
              assert prior == prior[..|prior| - 1] + [prior[|prior| - 1]];
            }
          }
        }
      }
    }
  }

  /** `TracedTo` reads only the first `n` positions of the path. */
  lemma {:induction false} TracedToAgree<V>(vertices: seq<V>, same: (V, V) -> bool, p: seq<int>, q: seq<int>, n: int)
    requires 2 <= n <= |p| && n <= |q| && NodesIn(p, |vertices|) && NodesIn(q, |vertices|)
    requires forall i :: 0 <= i < n ==> p[i] == q[i]
    ensures TracedTo(vertices, same, p, n) == TracedTo(vertices, same, q, n)
    decreases n
  {
    if n > 2 {
      TracedToAgree(vertices, same, p, q, n - 1);
      assert p[n - 2] == q[n - 2] && p[n - 1] == q[n - 1];
    } else {
      assert p[0] == q[0] && p[1] == q[1];
    }
  }

  /** One step of a walk. */
  lemma FollowsAt(adjacency: map<int, int>, path: seq<int>, from: nat, j: int)
    requires Follows(adjacency, path, from) && from <= j < |path| - 1
    ensures path[j] in adjacency && adjacency[path[j]] == path[j + 1]
  {
  }

  /** A vertex a walk can reach: the start of a link or its end. */
  ghost predicate Drawn(adjacency: map<int, int>, x: int) {
    x in adjacency || x in adjacency.Values
  }

  /** A walk that starts at a key and follows links visits only drawn
      vertices. */
  lemma WalkDrawn(adjacency: map<int, int>, walk: seq<int>)
    requires |walk| >= 1 && walk[0] in adjacency && Follows(adjacency, walk, 0)
    ensures forall x :: x in walk ==> Drawn(adjacency, x)
  {
    forall x | x in walk ensures Drawn(adjacency, x) {
      var j :| 0 <= j < |walk| && walk[j] == x;
      if j > 0 {
        FollowsAt(adjacency, walk, 0, j - 1);
      }
    }
  }

  /** One walk: take some link `k -> v` out of the adjacency and follow the
      links from the end of the chain until none is left or the next one
      leads back to the start. A link to a vertex at the same position as
      the current end replaces that end instead of extending the chain.
      The closing link, if any, is removed too. Fails when the chain would
      run into one of its own inner nodes (a duplicate key in the
      backward map). The ghost `walk` is the sequence of vertices visited:
      it follows links of the adjacency, exactly its links are consumed,
      and the chain is `Traced` from it. */
  method WalkChain<V>(vertices: seq<V>, same: (V, V) -> bool, adjacency: map<int, int>)
    returns (r: Result<Walked>, rest: map<int, int>, ghost walk: seq<int>)
    requires adjacency != map[] && Indices(adjacency, |vertices|)
    ensures rest.Keys < adjacency.Keys && |rest| < |adjacency| && Indices(rest, |vertices|)
    ensures |walk| >= 2 && NodesIn(walk, |vertices|) && walk[0] in adjacency && Follows(adjacency, walk, 0)
    ensures r.Success? ==> Without(adjacency, rest, walk)
    ensures r.Success? && r.value.SelfLink? ==> walk == [walk[0], walk[0]]
    ensures r.Success? && r.value.Chain? ==> fresh(r.value.loop)
    ensures r.Success? && r.value.Chain? ==>
      var loop := r.value.loop;
      loop.Valid() && loop.Nodes == Traced(vertices, same, walk) && NodesIn(loop.Nodes, |vertices|)
    ensures r.Failure? ==> r.error == DuplicateKey
  {
    assert (forall k :: k !in adjacency) ==> adjacency == map[];
    var k0 :| k0 in adjacency;
    var v0 := adjacency[k0];
    rest := adjacency - {k0};
    walk := [k0, v0];
    if k0 == v0 {
      return Success(SelfLink), rest, walk;
    }
    var loop := new Loop();
    loop.AddLink(k0, v0);
    var ok;
    ghost var trail;
    ghost var rest0 := rest;
    ok, rest, trail := Follow(vertices, same, loop, rest, walk);
    ghost var front := walk[..|walk| - 1];
    assert NodesIn(front + trail, |vertices|) && front == [k0];
    walk := front + trail;
    FollowsCons(adjacency, rest0, k0, trail);
    if ok {
      WithoutCons(adjacency, rest0, rest, k0, trail);
    }
    r := if ok then Success(Chain(loop)) else Failure(DuplicateKey);
  }

  /** A link `k -> trail[0]` in front of a walk along `rest`, which is
      `adjacency` less `k`, is a walk along `adjacency`. */
  lemma FollowsCons(adjacency: map<int, int>, rest: map<int, int>, k: int, trail: seq<int>)
    requires k in adjacency && |trail| >= 1 && adjacency[k] == trail[0]
    requires forall x :: x in rest ==> x in adjacency && rest[x] == adjacency[x]
    requires Follows(rest, trail, 0)
    ensures Follows(adjacency, [k] + trail, 0)
  {
    var walk := [k] + trail;
    forall j | 0 <= j < |walk| - 1 ensures walk[j] in adjacency && adjacency[walk[j]] == walk[j + 1] {
      if j > 0 {
        assert walk[j] == trail[j - 1] && walk[j + 1] == trail[j];
        FollowsAt(rest, trail, 0, j - 1);
      }
    }
  }

  /** Consuming `k` and then the links of `trail` consumes the links of
      `[k] + trail`. */
  lemma WithoutCons(adjacency: map<int, int>, rest0: map<int, int>, rest: map<int, int>, k: int, trail: seq<int>)
    requires rest0 == adjacency - {k} && Without(rest0, rest, trail)
    ensures Without(adjacency, rest, [k] + trail)
  {
  }

  /** The inner loop of a walk, on a chain already started along `path`:
      follows the links out of `last` while there is one that does not
      lead back to `first`, then drops the closing link if there is one.
      `trail` is the walk from the end of `path` on: it follows links of
      the adjacency, exactly its links are consumed, and the chain is
      `Traced` from `path` continued by it. */
  method Follow<V>(vertices: seq<V>, same: (V, V) -> bool, loop: Loop, adjacency: map<int, int>, ghost path: seq<int>)
    returns (ok: bool, rest: map<int, int>, ghost trail: seq<int>)
    requires loop.Valid() && NodesIn(loop.Nodes, |vertices|)
    requires Indices(adjacency, |vertices|)
    requires |path| >= 2 && NodesIn(path, |vertices|) && loop.Nodes == Traced(vertices, same, path)
    modifies loop
    ensures rest.Keys <= adjacency.Keys && |rest| <= |adjacency| && Indices(rest, |vertices|)
    ensures |trail| >= 1 && trail[0] == path[|path| - 1] && NodesIn(path[..|path| - 1] + trail, |vertices|)
    ensures Follows(adjacency, trail, 0)
    ensures ok ==> Without(adjacency, rest, trail)
    ensures ok ==> loop.Valid() && loop.Nodes == Traced(vertices, same, path[..|path| - 1] + trail) && NodesIn(loop.Nodes, |vertices|)
  {
    rest := adjacency;
    trail := [path[|path| - 1]];
    ghost var used: seq<int> := [];
    ghost var front := path[..|path| - 1];
    ghost var walk := path;
    assert front + trail == path;
    while loop.last in rest && rest[loop.last] != loop.first
      invariant Stepping(vertices, same, loop, adjacency, rest, walk, used, trail)
      invariant |trail| >= 1 && trail[0] == path[|path| - 1] && walk == front + trail
      decreases |rest|
    {
      var previousLast := loop.last;
      var w := rest[previousLast];
      if w in loop.backwardLinks {
        return false, rest, trail;
      }
      ghost var trail0 := trail;
      rest, walk, used, trail := Advance(vertices, same, loop, adjacency, rest, walk, used, trail);
      AppendOne(front, trail0, walk[|walk| - 1]);
    }
    WithoutEnd(adjacency, rest, used, loop.last);
    if loop.last in rest {
      rest := rest - {loop.last};
    }
    ok := true;
  }

  /** What holds between the steps of `Follow`: the chain is `Traced` from
      `walk`, whose part from the end of the start path on is `trail`; the
      links out of `used`, the trail but its end, have been consumed. */
  ghost predicate Stepping<V>(vertices: seq<V>, same: (V, V) -> bool, loop: Loop, adjacency: map<int, int>,
                              rest: map<int, int>, walk: seq<int>, used: seq<int>, trail: seq<int>)
    reads loop
  {
    loop.Valid() && Steps(vertices, same, loop.Nodes, loop.last, adjacency, rest, walk, used, trail)
  }

  /** `Stepping` on the chain `nodes`, which ends at `last`. */
  ghost predicate Steps<V>(vertices: seq<V>, same: (V, V) -> bool, nodes: seq<int>, last: int, adjacency: map<int, int>,
                           rest: map<int, int>, walk: seq<int>, used: seq<int>, trail: seq<int>)
  {
    && NodesIn(nodes, |vertices|)
    && |walk| >= 2 && NodesIn(walk, |vertices|) && nodes == Traced(vertices, same, walk)
    && trail == used + [last] && Follows(adjacency, trail, 0) && Without(adjacency, rest, used)
    && rest.Keys <= adjacency.Keys && |rest| <= |adjacency| && Indices(rest, |vertices|)
  }

  /** Following the link out of `last` keeps `Steps`. */
  lemma StepsNext<V>(vertices: seq<V>, same: (V, V) -> bool, nodes: seq<int>, last: int, adjacency: map<int, int>,
                     rest: map<int, int>, walk: seq<int>, used: seq<int>, trail: seq<int>)
    requires Steps(vertices, same, nodes, last, adjacency, rest, walk, used, trail)
    requires last in rest && |nodes| >= 1 && last == nodes[|nodes| - 1]
    ensures 0 <= last < |vertices| && 0 <= rest[last] < |vertices|
    ensures Steps(vertices, same, Grow(vertices, same, nodes, last, rest[last]), rest[last], adjacency,
                  rest - {last}, walk + [rest[last]], used + [last], trail + [rest[last]])
  {
    var w := rest[last];
    assert walk[|walk| - 1] == last;
    var grown := Grow(vertices, same, nodes, last, w);
    assert NodesIn(grown, |vertices|) by {
      forall j | 0 <= j < |grown| ensures 0 <= grown[j] < |vertices| {
        if j < |grown| - 1 {
          assert grown[j] == nodes[j];
        }
      }
    }
    TracedStep(vertices, same, walk, w);
    FollowsStep(adjacency, trail, w);
    WithoutStep(adjacency, rest, used, last);
  }

  /** One step of `Follow`: take the link out of `last` and extend the
      chain along it. */
  method Advance<V>(vertices: seq<V>, same: (V, V) -> bool, loop: Loop, adjacency: map<int, int>,
                    rest: map<int, int>, ghost walk: seq<int>, ghost used: seq<int>, ghost trail: seq<int>)
    returns (rest': map<int, int>, ghost walk': seq<int>, ghost used': seq<int>, ghost trail': seq<int>)
    requires Stepping(vertices, same, loop, adjacency, rest, walk, used, trail)
    requires loop.last in rest && rest[loop.last] != loop.first && rest[loop.last] !in loop.backwardLinks
    modifies loop
    ensures Stepping(vertices, same, loop, adjacency, rest', walk', used', trail')
    ensures |rest'| < |rest| && walk' == walk + [walk'[|walk'| - 1]] && trail' == trail + [walk'[|walk'| - 1]]
  {
    var previousLast := loop.last;
    var w := rest[previousLast];
    ghost var nodes := loop.Nodes;
    StepsNext(vertices, same, nodes, previousLast, adjacency, rest, walk, used, trail);
    Extend(loop, w, same(vertices[previousLast], vertices[w]));
    assert loop.Nodes == Grow(vertices, same, nodes, previousLast, w);
    rest' := rest - {previousLast};
    walk' := walk + [w];
    used' := used + [previousLast];
    trail' := trail + [w];
  }

  lemma AppendOne(front: seq<int>, trail: seq<int>, w: int)
    ensures (front + trail) + [w] == front + (trail + [w])
  {
  }

  lemma TracedStep<V>(vertices: seq<V>, same: (V, V) -> bool, walk: seq<int>, w: int)
    requires |walk| >= 2 && NodesIn(walk, |vertices|) && 0 <= w < |vertices|
    ensures NodesIn(walk + [w], |vertices|)
    ensures Traced(vertices, same, walk + [w]) == Grow(vertices, same, Traced(vertices, same, walk), walk[|walk| - 1], w)
  {
    NodesInStep(walk, w, |vertices|);
    var p := walk + [w];
    TracedToAgree(vertices, same, p, walk, |walk|);
    assert p[|p| - 2] == walk[|walk| - 1];
  }

  lemma NodesInStep(walk: seq<int>, w: int, n: int)
    requires NodesIn(walk, n) && 0 <= w < n
    ensures NodesIn(walk + [w], n)
  {
  }

  lemma FollowsStep(adjacency: map<int, int>, walk: seq<int>, w: int)
    requires Follows(adjacency, walk, 0) && |walk| >= 1
    requires walk[|walk| - 1] in adjacency && adjacency[walk[|walk| - 1]] == w
    ensures Follows(adjacency, walk + [w], 0)
  {
    var p := walk + [w];
    forall j | 0 <= j < |p| - 1 ensures p[j] in adjacency && adjacency[p[j]] == p[j + 1] {
      if j + 1 < |walk| {
        assert p[j] == walk[j] && p[j + 1] == walk[j + 1];
        FollowsAt(adjacency, walk, 0, j);
      }
    }
  }

  lemma WithoutStep(adjacency: map<int, int>, rest: map<int, int>, used: seq<int>, k: int)
    requires Without(adjacency, rest, used) && k in rest
    ensures Without(adjacency, rest - {k}, used + [k])
  {
  }

  lemma WithoutEnd(adjacency: map<int, int>, rest: map<int, int>, used: seq<int>, k: int)
    requires Without(adjacency, rest, used)
    ensures Without(adjacency, if k in rest then rest - {k} else rest, used + [k])
  {
  }

  /** One step of a walk: the link `last -> w` either replaces `last` by
      `w` (the two lie at the same position) or extends the chain to `w`. */
  method Extend(loop: Loop, w: int, replace: bool)
    requires loop.Valid() && |loop.Nodes| >= 2
    requires 0 <= w && w != loop.first && w !in loop.backwardLinks
    modifies loop
    ensures loop.Valid() && loop.first == old(loop.first) && loop.last == w
    ensures loop.Nodes == (if replace then old(loop.Nodes[..|loop.Nodes| - 1]) else old(loop.Nodes)) + [w]
  {
    assert w !in loop.Nodes && loop.last !in loop.forwardLinks by {
      assert loop.Nodes[0] == loop.first && loop.Nodes[|loop.Nodes| - 1] in loop.Nodes;
    }
    if replace {
      loop.SetLast(w);
    } else {
      loop.AddLink(loop.last, w);
    }
  }

  /** Which walk consumed each key: every key of `adjacency` is either
      still in `rest` or owned by exactly one walk, which visits it, and
      every link a walk follows is one it owns. */
  ghost predicate Owned(adjacency: map<int, int>, rest: map<int, int>, walks: seq<seq<int>>, owner: map<int, nat>) {
    && (forall k :: k in adjacency <==> k in rest || k in owner)
    && (forall k :: k in owner ==> k !in rest)
    && (forall k :: k in owner ==> owner[k] < |walks| && k in walks[owner[k]])
    && (forall a, j :: 0 <= a < |walks| && 0 <= j < |walks[a]| - 1 ==> walks[a][j] in owner && owner[walks[a][j]] == a)
  }

  /** A further walk takes ownership of the keys it consumed. */
  lemma OwnedStep(adjacency: map<int, int>, rest: map<int, int>, rest': map<int, int>,
                  walks: seq<seq<int>>, owner: map<int, nat>, walk: seq<int>)
    returns (owner': map<int, nat>)
    requires Owned(adjacency, rest, walks, owner)
    requires Without(rest, rest', walk) && Follows(rest, walk, 0)
    ensures Owned(adjacency, rest', walks + [walk], owner')
  {
    owner' := owner + map k | k in rest && k in walk :: |walks|;
    var walks' := walks + [walk];
    forall a, j | 0 <= a < |walks'| && 0 <= j < |walks'[a]| - 1
      ensures walks'[a][j] in owner' && owner'[walks'[a][j]] == a
    {
      if a < |walks| {
        assert walks'[a] == walks[a];
        var k := walks[a][j];
        assert k in owner && owner[k] == a;
        assert k !in rest;
      } else {
        FollowsAt(rest, walk, 0, j);
        assert walk[j] in rest && walk[j] in walk;
      }
    }
    forall k | k in owner' ensures k !in rest' && owner'[k] < |walks'| && k in walks'[owner'[k]] {
      if k in rest && k in walk {
        assert walks'[|walks|] == walk;
      } else {
        assert walks'[owner[k]] == walks[owner[k]];
      }
    }
  }

  /** Each loop is the chain `Traced` from its walk, which starts at a key
      of the adjacency and follows its links. */
  ghost predicate WalkedFrom<V>(vertices: seq<V>, same: (V, V) -> bool, adjacency: map<int, int>,
                                loops: seq<Loop>, walks: seq<seq<int>>)
    reads loops
  {
    && |walks| == |loops|
    && forall a :: 0 <= a < |loops| ==>
         && |walks[a]| >= 2 && NodesIn(walks[a], |vertices|)
         && walks[a][0] in adjacency && Follows(adjacency, walks[a], 0)
         && loops[a].Nodes == Traced(vertices, same, walks[a])
  }

  /** A walk along a part of the adjacency is a walk along all of it. */
  lemma FollowsWithin(rest: map<int, int>, adjacency: map<int, int>, walk: seq<int>)
    requires forall k :: k in rest ==> k in adjacency && rest[k] == adjacency[k]
    requires Follows(rest, walk, 0)
    ensures Follows(adjacency, walk, 0)
  {
    forall j | 0 <= j < |walk| - 1 ensures walk[j] in adjacency && adjacency[walk[j]] == walk[j + 1] {
      FollowsAt(rest, walk, 0, j);
      var k := walk[j];
      assert k in rest;
      assert rest[k] == adjacency[k];
    }
  }

  /** What holds between the walks of `WalkAll`: `rest` is what is left of
      the adjacency, the chains so far are `WalkedFrom` their walks, and,
      unless a self-link was met, the consumed keys are `Owned` by them. */
  ghost predicate Walking<V>(vertices: seq<V>, same: (V, V) -> bool, adjacency: map<int, int>, rest: map<int, int>,
                             loops: seq<Loop>, walks: seq<seq<int>>, owner: map<int, nat>, selfLink: bool)
    reads loops
  {
    && Indices(rest, |vertices|) && Family(loops, |vertices|)
    && (forall k :: k in rest ==> k in adjacency && rest[k] == adjacency[k])
    && WalkedFrom(vertices, same, adjacency, loops, walks)
    && (!selfLink ==> Owned(adjacency, rest, walks, owner))
  }

  /** A walk that ends in a chain adds the chain, its walk and the keys it
      consumed. */
  lemma WalkingChain<V>(vertices: seq<V>, same: (V, V) -> bool, adjacency: map<int, int>, before: map<int, int>,
                        rest: map<int, int>, loops: seq<Loop>, walks: seq<seq<int>>, owner: map<int, nat>,
                        selfLink: bool, loop: Loop, walk: seq<int>)
    returns (owner': map<int, nat>)
    requires Walking(vertices, same, adjacency, before, loops, walks, owner, selfLink)
    requires Indices(rest, |vertices|) && Without(before, rest, walk)
    requires |walk| >= 2 && NodesIn(walk, |vertices|) && walk[0] in before && Follows(before, walk, 0)
    requires loop.Valid() && NodesIn(loop.Nodes, |vertices|) && loop.Nodes == Traced(vertices, same, walk)
    requires loop !in loops
    ensures Walking(vertices, same, adjacency, rest, loops + [loop], walks + [walk], owner', selfLink)
  {
    owner' := owner;
    if !selfLink {
      owner' := OwnedStep(adjacency, before, rest, walks, owner, walk);
    }
    FollowsWithin(before, adjacency, walk);
    AddWalked(vertices, same, adjacency, loops, walks, loop, walk);
    var loops' := loops + [loop];
    assert ValidOver(loop, |vertices|);
    forall a | 0 <= a < |loops'| ensures ValidOver(loops'[a], |vertices|) {
      if a < |loops| {
        assert loops'[a] == loops[a] && ValidOver(loops[a], |vertices|);
      }
    }
  }

  /** A self-link consumes its key and records that the result will fail. */
  lemma WalkingSelf<V>(vertices: seq<V>, same: (V, V) -> bool, adjacency: map<int, int>, before: map<int, int>,
                       rest: map<int, int>, loops: seq<Loop>, walks: seq<seq<int>>, owner: map<int, nat>,
                       selfLink: bool, walk: seq<int>)
    requires Walking(vertices, same, adjacency, before, loops, walks, owner, selfLink)
    requires Indices(rest, |vertices|) && Without(before, rest, walk)
    ensures Walking(vertices, same, adjacency, rest, loops, walks, owner, true)
  {
  }

  /** The walking phase: walk chains until the adjacency is used up. A
      self-link leaves a loop whose ends are still -1; the next phase reads
      the position of vertex -1 and fails, which is reported here. On
      success every chain is `Traced` from a walk along links of the
      adjacency, and the keys of the adjacency are shared out among the
      walks as `Owned` says. */
  method WalkAll<V>(vertices: seq<V>, same: (V, V) -> bool, adjacency: map<int, int>)
    returns (r: Result<seq<Loop>>, rest: map<int, int>, ghost walks: seq<seq<int>>, ghost owner: map<int, nat>)
    requires Indices(adjacency, |vertices|)
    ensures r.Success? ==> rest == map[] && Owned(adjacency, rest, walks, owner)
    ensures r.Success? ==> Family(r.value, |vertices|) && WalkedFrom(vertices, same, adjacency, r.value, walks)
    ensures r.Success? ==> forall a :: 0 <= a < |r.value| ==> fresh(r.value[a])
    ensures r.Failure? ==> r.error in {DuplicateKey, IndexOutOfRange}
  {
    rest := adjacency;
    var loops: seq<Loop> := [];
    walks, owner := [], map[];
    var selfLink := false;
    while rest != map[]
      invariant Walking(vertices, same, adjacency, rest, loops, walks, owner, selfLink)
      invariant forall a :: 0 <= a < |loops| ==> fresh(loops[a])
      decreases |rest|
    {
      var failed;
      ghost var prior := loops;
      failed, rest, loops, walks, owner, selfLink := WalkNext(vertices, same, adjacency, rest, loops, walks, owner, selfLink);
      if failed {
        return Failure(DuplicateKey), rest, walks, owner;
      }
      forall a | 0 <= a < |loops| ensures fresh(loops[a]) {
        if loops == prior {
          assert fresh(prior[a]);
        } else if a < |prior| {
          assert loops[a] == loops[..|prior|][a] == prior[a];
          assert fresh(prior[a]);
        } else {
          assert a == |prior|;
        }
      }
    }
    if selfLink {
      return Failure(IndexOutOfRange), rest, walks, owner;
    }
    r := Success(loops);
  }

  /** One turn of `WalkAll`: walk one chain and record it. */
  method WalkNext<V>(vertices: seq<V>, same: (V, V) -> bool, adjacency: map<int, int>, rest: map<int, int>,
                     loops: seq<Loop>, ghost walks: seq<seq<int>>, ghost owner: map<int, nat>, selfLink: bool)
    returns (failed: bool, rest': map<int, int>, loops': seq<Loop>, ghost walks': seq<seq<int>>,
             ghost owner': map<int, nat>, selfLink': bool)
    requires rest != map[] && Walking(vertices, same, adjacency, rest, loops, walks, owner, selfLink)
    ensures !failed ==> Walking(vertices, same, adjacency, rest', loops', walks', owner', selfLink')
    ensures |rest'| < |rest|
    ensures loops' == loops || (|loops'| == |loops| + 1 && loops'[..|loops|] == loops && fresh(loops'[|loops|]))
  {
    var walked;
    ghost var walk;
    walked, rest', walk := WalkChain(vertices, same, rest);
    failed, loops', walks', owner', selfLink' := walked.Failure?, loops, walks, owner, selfLink;
    if failed {
      return;
    }
    if walked.value.SelfLink? {
      WalkingSelf(vertices, same, adjacency, rest, rest', loops, walks, owner, selfLink, walk);
      selfLink' := true;
    } else {
      var loop := walked.value.loop;
      owner' := WalkingChain(vertices, same, adjacency, rest, rest', loops, walks, owner, selfLink, loop, walk);
      loops' := loops + [loop];
      walks' := walks + [walk];
    }
  }

  lemma AddWalked<V>(vertices: seq<V>, same: (V, V) -> bool, adjacency: map<int, int>,
                     loops: seq<Loop>, walks: seq<seq<int>>, loop: Loop, walk: seq<int>)
    requires WalkedFrom(vertices, same, adjacency, loops, walks)
    requires |walk| >= 2 && NodesIn(walk, |vertices|) && walk[0] in adjacency && Follows(adjacency, walk, 0)
    requires loop.Nodes == Traced(vertices, same, walk)
    ensures WalkedFrom(vertices, same, adjacency, loops + [loop], walks + [walk])
  {
    var loops', walks' := loops + [loop], walks + [walk];
    forall a | 0 <= a < |loops'|
      ensures && |walks'[a]| >= 2 && NodesIn(walks'[a], |vertices|)
              && walks'[a][0] in adjacency && Follows(adjacency, walks'[a], 0)
              && loops'[a].Nodes == Traced(vertices, same, walks'[a])
    {
      if a < |loops| {
        assert loops'[a] == loops[a] && walks'[a] == walks[a];
      }
    }
  }

  /** The chains of a list of loops. */
  ghost function NodesOf(loops: seq<Loop>): (r: seq<seq<int>>)
    reads loops
    ensures |r| == |loops| && forall a :: 0 <= a < |loops| ==> r[a] == loops[a].Nodes
  {
    seq(|loops|, a requires 0 <= a < |loops| reads loops => loops[a].Nodes)
  }

  /** A chain is closed when its two ends lie at the same position. */
  ghost predicate Closed<V>(vertices: seq<V>, same: (V, V) -> bool, nodes: seq<int>) {
    && |nodes| >= 2 && 0 <= nodes[0] < |vertices| && 0 <= nodes[|nodes| - 1] < |vertices|
    && same(vertices[nodes[0]], vertices[nodes[|nodes| - 1]])
  }

  /** The clearing phase: a chain whose two ends lie at the same position
      is already closed; it is cleared. The others are the unevaluated ones
      the stitching phase works on. */
  method ClearClosed<V>(vertices: seq<V>, same: (V, V) -> bool, loops: seq<Loop>)
    returns (unevaluated: set<int>)
    requires Family(loops, |vertices|) && forall a :: 0 <= a < |loops| ==> |loops[a].Nodes| >= 2
    modifies loops
    ensures Family(loops, |vertices|)
    ensures forall a :: a in unevaluated ==> 0 <= a < |loops|
    ensures forall a :: a in unevaluated ==>
      loops[a].Nodes == old(loops[a].Nodes) && |loops[a].Nodes| >= 2 && !Closed(vertices, same, loops[a].Nodes)
    ensures forall a :: 0 <= a < |loops| && a !in unevaluated ==>
      loops[a].Nodes == [] && Closed(vertices, same, old(loops[a].Nodes))
  {
    ghost var nodes := NodesOf(loops);
    unevaluated := {};
    for i := 0 to |loops|
      invariant Family(loops, |vertices|)
      invariant forall a :: a in unevaluated ==> 0 <= a < i
      invariant forall a :: a in unevaluated ==>
        loops[a].Nodes == nodes[a] && |nodes[a]| >= 2 && !Closed(vertices, same, nodes[a])
      invariant forall a :: 0 <= a < i && a !in unevaluated ==>
        loops[a].Nodes == [] && Closed(vertices, same, nodes[a])
      invariant forall a :: i <= a < |loops| ==> loops[a].Nodes == nodes[a] && |nodes[a]| >= 2
    {
      var closed := ClearIfClosed(vertices, same, loops, i);
      if !closed {
        unevaluated := unevaluated + {i};
      }
    }
  }

  /** One step of the clearing phase, on the loop at position `i`. */
  method ClearIfClosed<V>(vertices: seq<V>, same: (V, V) -> bool, loops: seq<Loop>, i: nat) returns (closed: bool)
    requires Family(loops, |vertices|) && i < |loops| && |loops[i].Nodes| >= 2
    modifies loops[i]
    ensures Family(loops, |vertices|)
    ensures closed == Closed(vertices, same, old(loops[i].Nodes))
    ensures loops[i].Nodes == if closed then [] else old(loops[i].Nodes)
    ensures forall a :: 0 <= a < |loops| && a != i ==> loops[a].Nodes == old(loops[a].Nodes)
  {
    var loop := loops[i];
    assert ValidOver(loop, |vertices|);
    ghost var nodes := loop.Nodes;
    assert nodes[0] == loop.first && nodes[|nodes| - 1] == loop.last;
    closed := same(vertices[loop.first], vertices[loop.last]);
    if closed {
      loop.Clear();
    }
    forall a | 0 <= a < |loops| && a != i ensures loops[a].Nodes == old(loops[a].Nodes) {
      assert loops[a] != loop;
    }
  }

  /** The chain stitching makes of `a` (kept) and `b` (consumed): `b` goes
      in front of `a` when `bFirst`, behind it otherwise; a node the two
      share at the seam is kept once. */
  ghost function Stitched(na: seq<int>, nb: seq<int>, bFirst: bool): seq<int>
    requires |na| >= 2 && |nb| >= 2
  {
    if bFirst then (if nb[|nb| - 1] == na[0] then nb + na[1..] else nb + na)
    else (if na[|na| - 1] == nb[0] then na + nb[1..] else na + nb)
  }

  /** The stitch closes the chain into a cycle with `first == last`: the
      far ends of the two chains are one node. */
  ghost predicate Degenerate(na: seq<int>, nb: seq<int>, bFirst: bool)
    requires |na| >= 2 && |nb| >= 2
  {
    if bFirst then na[|na| - 1] == nb[0] else nb[|nb| - 1] == na[0]
  }

  /** The cycle a closing stitch makes, opened just before its first node:
      the stitched chain without its last node, which is its first. */
  ghost function Opened(na: seq<int>, nb: seq<int>, bFirst: bool): seq<int>
    requires |na| >= 2 && |nb| >= 2
  {
    var c := Stitched(na, nb, bFirst);
    c[..|c| - 1]
  }

  /** A closing stitch keeps every node of both chains and adds none. */
  lemma OpenedNodes(na: seq<int>, nb: seq<int>, bFirst: bool)
    requires |na| >= 2 && |nb| >= 2 && Degenerate(na, nb, bFirst)
    ensures |Opened(na, nb, bFirst)| >= 2
    ensures forall x :: x in Opened(na, nb, bFirst) <==> x in na || x in nb
  {
    StitchedNodes(na, nb, bFirst);
    var c := Stitched(na, nb, bFirst);
    var o := c[..|c| - 1];
    assert |c| >= 3 && c[|c| - 1] == c[0];
    forall x | x in c ensures x in o {
      var k :| 0 <= k < |c| && c[k] == x;
      if k == |c| - 1 {
        assert o[0] == x;
      } else {
        assert o[k] == x;
      }
    }
    assert forall x :: x in o ==> x in c;
  }

  /** The links of a closing stitch run round a cycle through its first
      node `s`; without the link into `s` they link the `Opened` chain. */
  lemma CloseLinks(fa: map<int, int>, ba: map<int, int>, na: seq<int>,
                   fb: map<int, int>, bb: map<int, int>, nb: seq<int>, bFirst: bool)
    requires |na| >= 2 && ChainLinks(fa, ba, na[0], na[|na| - 1], na)
    requires |nb| >= 2 && ChainLinks(fb, bb, nb[0], nb[|nb| - 1], nb)
    requires fa.Keys !! fb.Keys && ba.Keys !! bb.Keys && Degenerate(na, nb, bFirst)
    ensures var f, b := StitchFwd(fa, fb, na, nb, bFirst), StitchBwd(ba, bb, na, nb, bFirst);
      var s := if bFirst then nb[0] else na[0];
      && s in b && ChainLinks(f - {b[s]}, b - {s}, s, b[s], Opened(na, nb, bFirst))
    ensures na[0] in fa && nb[0] in fb && na[|na| - 1] in ba && nb[|nb| - 1] in bb
    ensures bFirst && nb[|nb| - 1] != na[0] ==> nb[|nb| - 1] !in fa + fb && na[0] !in ba + bb
    ensures !bFirst && na[|na| - 1] != nb[0] ==> na[|na| - 1] !in fa + fb && nb[0] !in ba + bb
  {
    var fia, laa, fib, lab := na[0], na[|na| - 1], nb[0], nb[|nb| - 1];
    assert fia in na && laa in na && fib in nb && lab in nb;
    assert fia != laa && fib != lab;
    SharedEnds(fa, ba, fia, laa, na, fb, bb, fib, lab, nb);
    if bFirst {
      CloseInFront(fa, ba, na, fb, bb, nb);
    } else {
      ChainClose(fa, ba, na, fb, bb, nb);
    }
  }

  /** `CloseLinks` when `b` goes in front of `a`. */
  lemma CloseInFront(fa: map<int, int>, ba: map<int, int>, na: seq<int>,
                     fb: map<int, int>, bb: map<int, int>, nb: seq<int>)
    requires |na| >= 2 && ChainLinks(fa, ba, na[0], na[|na| - 1], na)
    requires |nb| >= 2 && ChainLinks(fb, bb, nb[0], nb[|nb| - 1], nb)
    requires fa.Keys !! fb.Keys && ba.Keys !! bb.Keys && na[|na| - 1] == nb[0]
    ensures var f, b := StitchFwd(fa, fb, na, nb, true), StitchBwd(ba, bb, na, nb, true);
      nb[0] in b && ChainLinks(f - {b[nb[0]]}, b - {nb[0]}, nb[0], b[nb[0]], Opened(na, nb, true))
  {
    UnionSwap(fa, fb);
    UnionSwap(ba, bb);
    ChainClose(fb, bb, nb, fa, ba, na);
  }

  lemma UnionSwap(m1: map<int, int>, m2: map<int, int>)
    requires m1.Keys !! m2.Keys
    ensures m1 + m2 == m2 + m1
  {
    forall y | y in m1 + m2 ensures y in m2 + m1 && (m1 + m2)[y] == (m2 + m1)[y] {
      if y in m2 {
        assert y !in m1;
      }
    }
    assert (m1 + m2).Keys == (m2 + m1).Keys;
  }

  /** The forward map after a stitch: the union of both maps, plus the
      link across the seam unless the seam is a shared node. */
  ghost function StitchFwd(fa: map<int, int>, fb: map<int, int>, na: seq<int>, nb: seq<int>, bFirst: bool): map<int, int>
    requires |na| >= 2 && |nb| >= 2
  {
    if bFirst then (if nb[|nb| - 1] == na[0] then fa + fb else (fa + fb)[nb[|nb| - 1] := na[0]])
    else (if na[|na| - 1] == nb[0] then fa + fb else (fa + fb)[na[|na| - 1] := nb[0]])
  }

  /** The backward map after a stitch. */
  ghost function StitchBwd(ba: map<int, int>, bb: map<int, int>, na: seq<int>, nb: seq<int>, bFirst: bool): map<int, int>
    requires |na| >= 2 && |nb| >= 2
  {
    if bFirst then (if nb[|nb| - 1] == na[0] then ba + bb else (ba + bb)[na[0] := nb[|nb| - 1]])
    else (if na[|na| - 1] == nb[0] then ba + bb else (ba + bb)[nb[0] := na[|na| - 1]])
  }

  /** Two chains with no common link key that do not close onto each other
      stitch into one chain; the seam link, when one is added, starts at a
      node with no forward link and ends at one with no backward link. */
  lemma StitchLinks(fa: map<int, int>, ba: map<int, int>, na: seq<int>,
                    fb: map<int, int>, bb: map<int, int>, nb: seq<int>, bFirst: bool)
    requires |na| >= 2 && ChainLinks(fa, ba, na[0], na[|na| - 1], na)
    requires |nb| >= 2 && ChainLinks(fb, bb, nb[0], nb[|nb| - 1], nb)
    requires fa.Keys !! fb.Keys && ba.Keys !! bb.Keys && !Degenerate(na, nb, bFirst)
    ensures ChainLinks(StitchFwd(fa, fb, na, nb, bFirst), StitchBwd(ba, bb, na, nb, bFirst),
                       if bFirst then nb[0] else na[0], if bFirst then na[|na| - 1] else nb[|nb| - 1],
                       Stitched(na, nb, bFirst))
    ensures na[0] in fa && nb[0] in fb && na[|na| - 1] in ba && nb[|nb| - 1] in bb
    ensures bFirst && nb[|nb| - 1] != na[0] ==> nb[|nb| - 1] !in fa + fb && na[0] !in ba + bb
    ensures !bFirst && na[|na| - 1] != nb[0] ==> na[|na| - 1] !in fa + fb && nb[0] !in ba + bb
  {
    var fia, laa, fib, lab := na[0], na[|na| - 1], nb[0], nb[|nb| - 1];
    assert fia in na && laa in na && fib in nb && lab in nb;
    assert fia != laa && fib != lab;
    SharedEnds(fa, ba, fia, laa, na, fb, bb, fib, lab, nb);
    assert fa + fb == fb + fa && ba + bb == bb + ba;
    if bFirst {
      if lab != fia {
        assert lab !in na && fia !in nb;
        ChainJoin(fb, bb, fib, lab, nb, fa, ba, fia, laa, na);
      } else {
        ChainFuse(fb, bb, fib, lab, nb, fa, ba, fia, laa, na);
      }
    } else {
      if laa != fib {
        assert laa !in nb && fib !in na;
        ChainJoin(fa, ba, fia, laa, na, fb, bb, fib, lab, nb);
      } else {
        ChainFuse(fa, ba, fia, laa, na, fb, bb, fib, lab, nb);
      }
    }
  }

  lemma StitchedNodesIn(na: seq<int>, nb: seq<int>, bFirst: bool, n: int)
    requires |na| >= 2 && |nb| >= 2 && NodesIn(na, n) && NodesIn(nb, n)
    ensures NodesIn(Stitched(na, nb, bFirst), n)
  {
    assert NodesIn(na[1..], n) && NodesIn(nb[1..], n);
  }

  /** The mutation half of a stitch: adds the links of chain `nb` to `a`,
      then the seam link unless the seam is a shared node, and moves the
      end of `a` that the seam replaced. When that leaves `first == last`,
      the links run round a cycle; it is opened before `first`, by the
      steps with which `RemoveLink(first)` starts the repeat pass on such
      a loop, and `closed` says so. */
  method JoinInto(a: Loop, fb: map<int, int>, bb: map<int, int>, bf: int, bl: int, ghost nb: seq<int>, bFirst: bool)
    returns (closed: bool)
    requires a.Valid() && |a.Nodes| >= 2
    requires |nb| >= 2 && bf == nb[0] && bl == nb[|nb| - 1] && ChainLinks(fb, bb, bf, bl, nb)
    requires a.forwardLinks.Keys !! fb.Keys && a.backwardLinks.Keys !! bb.Keys
    modifies a
    ensures a.Valid() && StitchedInto(old(a.Nodes), nb, bFirst, closed, a.Nodes)
  {
    var fa, ba := a.forwardLinks, a.backwardLinks;
    ghost var na := a.Nodes;
    assert a.first == na[0] && a.last == na[|na| - 1];
    LinkInto(a, fb, bb, bf, bl, nb, bFirst);
    closed := a.first == a.last;
    assert closed == Degenerate(na, nb, bFirst) by {
      assert na[0] != na[|na| - 1] && nb[0] != nb[|nb| - 1];
    }
    if closed {
      CloseLinks(fa, ba, na, fb, bb, nb, bFirst);
      var p := a.backwardLinks[a.first];
      a.forwardLinks := a.forwardLinks - {p};
      a.last := p;
      a.backwardLinks := a.backwardLinks - {a.first};
      a.Nodes := Opened(na, nb, bFirst);
    } else {
      StitchLinks(fa, ba, na, fb, bb, nb, bFirst);
      a.Nodes := Stitched(na, nb, bFirst);
    }
  }

  /** The steps of a stitch on the link maps and ends of `a`: the links of
      `b` are added, then the seam link unless the seam is a shared node,
      and the end of `a` the seam replaced moves to the far end of `b`. */
  method LinkInto(a: Loop, fb: map<int, int>, bb: map<int, int>, bf: int, bl: int, ghost nb: seq<int>, bFirst: bool)
    requires a.Valid() && |a.Nodes| >= 2
    requires |nb| >= 2 && bf == nb[0] && bl == nb[|nb| - 1] && ChainLinks(fb, bb, bf, bl, nb)
    requires a.forwardLinks.Keys !! fb.Keys && a.backwardLinks.Keys !! bb.Keys
    modifies a
    ensures a.forwardLinks == StitchFwd(old(a.forwardLinks), fb, old(a.Nodes), nb, bFirst)
    ensures a.backwardLinks == StitchBwd(old(a.backwardLinks), bb, old(a.Nodes), nb, bFirst)
    ensures a.first == (if bFirst then nb[0] else old(a.Nodes)[0])
    ensures a.last == (if bFirst then old(a.Nodes)[|old(a.Nodes)| - 1] else nb[|nb| - 1])
  {
    var fa, ba := a.forwardLinks, a.backwardLinks;
    ghost var na := a.Nodes;
    assert a.first == na[0] && a.last == na[|na| - 1];
    SeamKeys(fa, ba, na, fb, bb, nb);
    a.forwardLinks := fa + fb;
    a.backwardLinks := ba + bb;
    if bFirst {
      if bl != a.first {
        a.AddLink(bl, a.first);
      }
      a.first := bf;
    } else {
      if bf != a.last {
        a.AddLink(a.last, bf);
      }
      a.last := bl;
    }
  }

  /** The ends of two chains with no common link key: a seam link between
      them, when the seam is not a shared node, starts at a node with no
      forward link and ends at one with no backward link. */
  lemma SeamKeys(fa: map<int, int>, ba: map<int, int>, na: seq<int>,
                 fb: map<int, int>, bb: map<int, int>, nb: seq<int>)
    requires |na| >= 2 && ChainLinks(fa, ba, na[0], na[|na| - 1], na)
    requires |nb| >= 2 && ChainLinks(fb, bb, nb[0], nb[|nb| - 1], nb)
    requires fa.Keys !! fb.Keys && ba.Keys !! bb.Keys
    ensures na[0] in fa && nb[0] in fb && na[|na| - 1] in ba && nb[|nb| - 1] in bb
    ensures nb[|nb| - 1] != na[0] ==> nb[|nb| - 1] !in fa + fb && na[0] !in ba + bb
    ensures na[|na| - 1] != nb[0] ==> na[|na| - 1] !in fa + fb && nb[0] !in ba + bb
  {
    var fia, laa, fib, lab := na[0], na[|na| - 1], nb[0], nb[|nb| - 1];
    assert fia in na && laa in na && fib in nb && lab in nb;
    assert fia != laa && fib != lab;
    SharedEnds(fa, ba, fia, laa, na, fb, bb, fib, lab, nb);
  }

  /** Moves every link of `b` into `a`, joins the two chains at the ends
      whose positions match (a new link unless the ends are one node), and
      clears `b`. Fails on a link key both loops hold. When the far ends of
      the two chains are one node the stitch closes a cycle; `a` then holds
      it opened before its first node, and the result is `true`. */
  method Stitch<V>(vertices: seq<V>, same: (V, V) -> bool, a: Loop, b: Loop) returns (r: Result<bool>)
    requires a != b && a.Valid() && b.Valid() && |a.Nodes| >= 2 && |b.Nodes| >= 2
    requires NodesIn(a.Nodes, |vertices|) && NodesIn(b.Nodes, |vertices|)
    modifies a, b
    ensures var bFirst := same(vertices[old(b.last)], vertices[old(a.first)]);
      && (r.Success? <==> old(a.forwardLinks.Keys !! b.forwardLinks.Keys && a.backwardLinks.Keys !! b.backwardLinks.Keys))
      && (r.Failure? ==> r.error == DuplicateKey)
      && (r.Success? ==>
            && a.Valid() && b.Valid() && b.Nodes == [] && NodesIn(a.Nodes, |vertices|)
            && StitchedInto(old(a.Nodes), old(b.Nodes), bFirst, r.value, a.Nodes))
  {
    ghost var na, nb := a.Nodes, b.Nodes;
    assert a.first == na[0] && a.last == na[|na| - 1] && b.first == nb[0] && b.last == nb[|nb| - 1];
    var bFirst := same(vertices[b.last], vertices[a.first]);
    if !(a.forwardLinks.Keys !! b.forwardLinks.Keys && a.backwardLinks.Keys !! b.backwardLinks.Keys) {
      return Failure(DuplicateKey);
    }
    var closed := JoinInto(a, b.forwardLinks, b.backwardLinks, b.first, b.last, nb, bFirst);
    StitchedNodesIn(na, nb, bFirst, |vertices|);
    b.Clear();
    r := Success(closed);
  }

  /** `c` is what stitching chain `nb` onto chain `na` gives: the
      `Stitched` chain, or, when the stitch closes a cycle (`closed`), the
      `Opened` one. */
  ghost predicate StitchedInto(na: seq<int>, nb: seq<int>, bFirst: bool, closed: bool, c: seq<int>) {
    && |na| >= 2 && |nb| >= 2 && closed == Degenerate(na, nb, bFirst)
    && c == if closed then Opened(na, nb, bFirst) else Stitched(na, nb, bFirst)
  }

  /** Stitching keeps every node of both chains and adds none. */
  lemma StitchedNodes(na: seq<int>, nb: seq<int>, bFirst: bool)
    requires |na| >= 2 && |nb| >= 2
    ensures |Stitched(na, nb, bFirst)| >= 2
    ensures forall x :: x in Stitched(na, nb, bFirst) <==> x in na || x in nb
  {
    assert na[0] in na && nb[0] in nb;
    assert forall x :: x in na[1..] ==> x in na;
    assert forall x :: x in nb[1..] ==> x in nb;
    assert forall x :: x in na && x != na[0] ==> x in na[1..] by {
      forall x | x in na && x != na[0] ensures x in na[1..] {
        var k :| 0 <= k < |na| && na[k] == x;
        assert na[1..][k - 1] == x;
      }
    }
    assert forall x :: x in nb && x != nb[0] ==> x in nb[1..] by {
      forall x | x in nb && x != nb[0] ensures x in nb[1..] {
        var k :| 0 <= k < |nb| && nb[k] == x;
        assert nb[1..][k - 1] == x;
      }
    }
  }

  /** The ends of chain `na` as the loop holding it has them: `first` and
      `last`, or `first` twice when a stitch closed the loop into a cycle. */
  ghost function Tail(na: seq<int>, closed: bool): int
    requires |na| >= 2
  {
    if closed then na[0] else na[|na| - 1]
  }

  /** The two chains meet: the start of `nb` lies where `na` ends, or the
      end of `nb` lies where `na` starts. */
  ghost predicate Meets<V>(vertices: seq<V>, same: (V, V) -> bool, na: seq<int>, closed: bool, nb: seq<int>) {
    && |na| >= 2 && |nb| >= 2 && NodesIn(na, |vertices|) && NodesIn(nb, |vertices|)
    && (same(vertices[nb[0]], vertices[Tail(na, closed)]) || same(vertices[nb[|nb| - 1]], vertices[na[0]]))
  }

  /** The search for a partner of loop `i` among the unevaluated loops. The
      set is visited in an unspecified order and the first partner found is
      taken. */
  method FindMatch<V>(vertices: seq<V>, same: (V, V) -> bool, loops: seq<Loop>, i: nat, closed: bool, unevaluated: set<int>)
    returns (found: bool, j: int)
    requires Family(loops, |vertices|) && i < |loops| && |loops[i].Nodes| >= 2
    requires forall a :: a in unevaluated ==> 0 <= a < |loops| && |loops[a].Nodes| >= 2
    ensures found ==> j in unevaluated && Meets(vertices, same, loops[i].Nodes, closed, loops[j].Nodes)
    ensures !found ==> forall a :: a in unevaluated ==> !Meets(vertices, same, loops[i].Nodes, closed, loops[a].Nodes)
  {
    assert ValidOver(loops[i], |vertices|);
    ghost var ni := loops[i].Nodes;
    assert loops[i].first == ni[0] && loops[i].last == ni[|ni| - 1];
    var tail := if closed then loops[i].first else loops[i].last;
    var pending := unevaluated;
    while pending != {}
      invariant pending <= unevaluated
      invariant forall a :: a in unevaluated && a !in pending ==> !Meets(vertices, same, ni, closed, loops[a].Nodes)
      decreases |pending|
    {
      assert (forall a :: a !in pending) ==> pending == {};
      var a :| a in pending;
      assert ValidOver(loops[a], |vertices|);
      ghost var na := loops[a].Nodes;
      assert loops[a].first == na[0] && loops[a].last == na[|na| - 1];
      if same(vertices[loops[a].first], vertices[tail]) || same(vertices[loops[a].last], vertices[loops[i].first]) {
        return true, a;
      }
      pending := pending - {a};
    }
    return false, -1;
  }

  /** One stitch inside the list: loop `j` is stitched onto loop `i`;
      `true` when it closed loop `i` into a cycle. */
  method StitchAt<V>(vertices: seq<V>, same: (V, V) -> bool, loops: seq<Loop>, i: nat, j: nat) returns (r: Result<bool>)
    requires Family(loops, |vertices|) && i < |loops| && j < |loops| && i != j
    requires |loops[i].Nodes| >= 2 && |loops[j].Nodes| >= 2
    modifies loops[i], loops[j]
    ensures r.Failure? ==> r.error == DuplicateKey
    ensures r.Success? ==>
      && Family(loops, |vertices|) && |loops[i].Nodes| >= 2 && loops[j].Nodes == []
      && forall x :: x in loops[i].Nodes <==> x in old(loops[i].Nodes) || x in old(loops[j].Nodes)
  {
    assert ValidOver(loops[i], |vertices|) && ValidOver(loops[j], |vertices|);
    ghost var na, nb := loops[i].Nodes, loops[j].Nodes;
    ghost var bFirst := same(vertices[nb[|nb| - 1]], vertices[na[0]]);
    r := Stitch(vertices, same, loops[i], loops[j]);
    if r.Success? {
      JoinedNodes(na, nb, bFirst, r.value, loops[i].Nodes);
      forall a | 0 <= a < |loops|
        ensures ValidOver(loops[a], |vertices|)
      {
        if a != i && a != j {
          assert loops[a] != loops[i] && loops[a] != loops[j];
          assert old(ValidOver(loops[a], |vertices|));
        }
      }
    }
  }

  /** A stitch, closing or not, keeps every node of both chains and adds
      none. */
  lemma JoinedNodes(na: seq<int>, nb: seq<int>, bFirst: bool, closed: bool, c: seq<int>)
    requires StitchedInto(na, nb, bFirst, closed, c)
    ensures |c| >= 2 && forall x :: x in c <==> x in na || x in nb
  {
    if closed {
      OpenedNodes(na, nb, bFirst);
    } else {
      StitchedNodes(na, nb, bFirst);
    }
  }

  /** `after` is `before` with the chains at the positions `taken`
      absorbed into the chain at `i`: that chain now holds exactly its own
      nodes and theirs, the taken ones are empty, and every other chain is
      as it was. */
  ghost predicate Absorbed(before: seq<seq<int>>, after: seq<seq<int>>, i: int, taken: set<int>) {
    && |after| == |before| && 0 <= i < |before| && i !in taken
    && (forall a :: a in taken ==> 0 <= a < |before| && after[a] == [])
    && (forall x :: x in after[i] <==> x in before[i] || exists a :: a in taken && x in before[a])
    && (forall a :: 0 <= a < |before| && a != i && a !in taken ==> after[a] == before[a])
  }

  /** Absorbing one more chain `j`. */
  lemma AbsorbedStep(nodes: seq<seq<int>>, mid: seq<seq<int>>, next: seq<seq<int>>, i: int, taken: set<int>, j: int)
    requires Absorbed(nodes, mid, i, taken) && 0 <= j < |nodes| && j != i && j !in taken && mid[j] == nodes[j]
    requires |next| == |mid| && next[j] == []
    requires forall x :: x in next[i] <==> x in mid[i] || x in mid[j]
    requires forall a :: 0 <= a < |mid| && a != i && a != j ==> next[a] == mid[a]
    ensures Absorbed(nodes, next, i, taken + {j})
  {
    forall x ensures x in next[i] <==> x in nodes[i] || exists a :: a in taken + {j} && x in nodes[a] {
      if x in nodes[j] {
        assert j in taken + {j};
      }
      if exists a :: a in taken + {j} && x in nodes[a] {
        var a :| a in taken + {j} && x in nodes[a];
        if a != j {
          assert x in mid[i];
        }
      }
    }
  }

  /** The stitching of loop `i`: while some unevaluated loop meets it, that
      loop is stitched onto it and leaves the unevaluated set. Returns the
      unevaluated loops left, none of which meets loop `i`; the others are
      `Absorbed` into loop `i`. `closed` when a stitch closed loop `i` into
      a cycle: its ends are then both its first node, and a further partner
      fails, since every node of the cycle already has both links and the
      next one added is a duplicate key. */
  method Absorb<V>(vertices: seq<V>, same: (V, V) -> bool, loops: seq<Loop>, i: nat, unevaluated: set<int>)
    returns (r: Result<set<int>>, closed: bool)
    requires Family(loops, |vertices|) && i < |loops| && i !in unevaluated && |loops[i].Nodes| >= 2
    requires forall a :: a in unevaluated ==> 0 <= a < |loops| && |loops[a].Nodes| >= 2
    modifies loops
    ensures r.Failure? ==> r.error == DuplicateKey
    ensures r.Success? ==>
      && Family(loops, |vertices|) && |loops[i].Nodes| >= 2 && r.value <= unevaluated
      && Absorbed(old(NodesOf(loops)), NodesOf(loops), i, unevaluated - r.value)
      && (forall a :: a in r.value ==> !Meets(vertices, same, loops[i].Nodes, closed, loops[a].Nodes))
  {
    ghost var nodes := NodesOf(loops);
    var rest := unevaluated;
    closed := false;
    var found, j := FindMatch(vertices, same, loops, i, closed, rest);
    assert unevaluated - rest == {};
    while found
      invariant Absorbing(vertices, loops, nodes, i, unevaluated, rest)
      invariant found ==> j in rest
      invariant !found ==> forall a :: a in rest ==> !Meets(vertices, same, loops[i].Nodes, closed, loops[a].Nodes)
      decreases |rest|
    {
      if closed {
        return Failure(DuplicateKey), closed;
      }
      var stitched;
      stitched, rest, found, j, closed := AbsorbNext(vertices, same, loops, i, j, nodes, unevaluated, rest);
      if stitched.Failure? {
        return Failure(stitched.error), closed;
      }
    }
    r := Success(rest);
  }

  /** The state `Absorb` keeps between two stitches: the loops in `rest`
      are untouched and the others taken so far are `Absorbed` into `i`. */
  ghost predicate Absorbing<V>(vertices: seq<V>, loops: seq<Loop>, nodes: seq<seq<int>>, i: nat, unevaluated: set<int>, rest: set<int>)
    reads loops
  {
    && Family(loops, |vertices|) && i < |loops| && |loops[i].Nodes| >= 2 && rest <= unevaluated
    && |nodes| == |loops|
    && (forall a :: a in unevaluated ==> 0 <= a < |loops| && a != i)
    && (forall a :: a in rest ==> |loops[a].Nodes| >= 2 && loops[a].Nodes == nodes[a])
    && Absorbed(nodes, NodesOf(loops), i, unevaluated - rest)
  }

  /** One turn of the loop in `Absorb`: stitch `j`, then look for the next match. */
  method AbsorbNext<V>(vertices: seq<V>, same: (V, V) -> bool, loops: seq<Loop>, i: nat, j: int,
                       ghost nodes: seq<seq<int>>, ghost unevaluated: set<int>, rest: set<int>)
    returns (r: Result<()>, rest': set<int>, found: bool, j': int, closed: bool)
    requires Absorbing(vertices, loops, nodes, i, unevaluated, rest) && j in rest
    modifies loops
    ensures |rest'| < |rest|
    ensures r.Failure? ==> r.error == DuplicateKey
    ensures r.Success? ==> Absorbing(vertices, loops, nodes, i, unevaluated, rest')
    ensures r.Success? && found ==> j' in rest'
    ensures r.Success? && !found ==> forall a :: a in rest' ==> !Meets(vertices, same, loops[i].Nodes, closed, loops[a].Nodes)
  {
    rest', found, j', closed := rest - {j}, false, j, false;
    var stitched := AbsorbOne(vertices, same, loops, i, j, nodes, unevaluated - rest);
    if stitched.Failure? {
      return Failure(stitched.error), rest', found, j', closed;
    }
    r, closed := Success(()), stitched.value;
    assert unevaluated - rest + {j} == unevaluated - rest';
    found, j' := FindMatch(vertices, same, loops, i, closed, rest');
  }

  /** One step of `Absorb`: loop `j`, still as it was at the start, is
      stitched onto loop `i`, which has already absorbed `taken`. */
  method AbsorbOne<V>(vertices: seq<V>, same: (V, V) -> bool, loops: seq<Loop>, i: nat, j: nat,
                      ghost nodes: seq<seq<int>>, ghost taken: set<int>)
    returns (r: Result<bool>)
    requires Family(loops, |vertices|) && i < |loops| && j < |loops| && i != j
    requires |loops[i].Nodes| >= 2 && |loops[j].Nodes| >= 2
    requires Absorbed(nodes, NodesOf(loops), i, taken) && j !in taken && loops[j].Nodes == nodes[j]
    modifies loops[i], loops[j]
    ensures r.Failure? ==> r.error == DuplicateKey
    ensures r.Success? ==>
      && Family(loops, |vertices|) && |loops[i].Nodes| >= 2
      && Absorbed(nodes, NodesOf(loops), i, taken + {j})
      && forall a :: 0 <= a < |loops| && a != i && a != j ==> loops[a].Nodes == old(loops[a].Nodes)
  {
    ghost var mid := NodesOf(loops);
    r := StitchAt(vertices, same, loops, i, j);
    if r.Success? {
      ghost var next := NodesOf(loops);
      forall a | 0 <= a < |loops| && a != i && a != j ensures next[a] == mid[a] {
        assert loops[a] != loops[i] && loops[a] != loops[j];
      }
      AbsorbedStep(nodes, mid, next, i, taken, j);
    }
  }

  /** Where every node of the original chains `nodes` of the unevaluated
      loops is now: `holder` names, for each unevaluated loop, an
      unevaluated loop whose chain in `now` holds all of its nodes. */
  ghost predicate Held(nodes: seq<seq<int>>, now: seq<seq<int>>, unevaluated: set<int>, holder: map<int, int>) {
    forall b {:trigger HeldAt(nodes, now, unevaluated, holder, b)} :: b in unevaluated ==> HeldAt(nodes, now, unevaluated, holder, b)
  }

  /** Chain `b` of `nodes` lies inside the unevaluated chain `holder[b]` of `now`. */
  ghost predicate HeldAt(nodes: seq<seq<int>>, now: seq<seq<int>>, unevaluated: set<int>, holder: map<int, int>, b: int) {
    && b in holder && holder[b] in unevaluated && 0 <= b < |nodes| && 0 <= holder[b] < |now|
    && forall x :: x in nodes[b] ==> x in now[holder[b]]
  }

  /** Every node of an unevaluated chain in `now` is in `pool`. */
  ghost predicate Pooled(now: seq<seq<int>>, unevaluated: set<int>, pool: set<int>) {
    forall a :: a in unevaluated && 0 <= a < |now| ==> InPool(now[a], pool)
  }

  /** Every node of `chain` is in `pool`. */
  ghost predicate InPool(chain: seq<int>, pool: set<int>) {
    forall x :: x in chain ==> x in pool
  }

  /** One absorption keeps every original node somewhere and adds none. */
  lemma StitchStep(nodes: seq<seq<int>>, before: seq<seq<int>>, after: seq<seq<int>>, unevaluated: set<int>,
                   holder: map<int, int>, pool: set<int>, i: int, taken: set<int>)
    returns (holder': map<int, int>)
    requires Held(nodes, before, unevaluated, holder) && Pooled(before, unevaluated, pool)
    requires Pooled(nodes, unevaluated, pool)
    requires |before| == |nodes| && i in unevaluated && taken <= unevaluated
    requires Absorbed(before, after, i, taken)
    requires forall a :: a in taken ==> before[a] == nodes[a]
    ensures Held(nodes, after, unevaluated, holder') && Pooled(after, unevaluated, pool)
  {
    holder' := StillHeld(nodes, before, after, unevaluated, holder, i, taken);
    StillPooled(nodes, before, after, unevaluated, pool, i, taken);
  }

  lemma StillHeld(nodes: seq<seq<int>>, before: seq<seq<int>>, after: seq<seq<int>>, unevaluated: set<int>,
                  holder: map<int, int>, i: int, taken: set<int>)
    returns (holder': map<int, int>)
    requires Held(nodes, before, unevaluated, holder)
    requires i in unevaluated && taken <= unevaluated
    requires Absorbed(before, after, i, taken)
    ensures Held(nodes, after, unevaluated, holder')
  {
    holder' := map b | b in holder :: if holder[b] in taken then i else holder[b];
    forall b | b in unevaluated ensures HeldAt(nodes, after, unevaluated, holder', b) {
      assert HeldAt(nodes, before, unevaluated, holder, b);
      var h := holder[b];
      forall x | x in nodes[b] ensures x in after[holder'[b]] {
        assert x in before[h];
        if h in taken {
          assert h in taken && x in before[h];
        }
      }
    }
  }

  lemma StillPooled(nodes: seq<seq<int>>, before: seq<seq<int>>, after: seq<seq<int>>, unevaluated: set<int>,
                    pool: set<int>, i: int, taken: set<int>)
    requires Pooled(before, unevaluated, pool) && Pooled(nodes, unevaluated, pool)
    requires |before| == |nodes| && i in unevaluated && taken <= unevaluated
    requires Absorbed(before, after, i, taken)
    requires forall a :: a in taken ==> before[a] == nodes[a]
    ensures Pooled(after, unevaluated, pool)
  {
    forall a | a in unevaluated && 0 <= a < |after| ensures InPool(after[a], pool) {
      if a == i {
        assert InPool(before[i], pool);
        forall x | x in after[i] ensures x in pool {
          if x !in before[i] {
            var c :| c in taken && x in before[c];
            assert InPool(nodes[c], pool);
          }
        }
      } else if a in taken {
        assert after[a] == [];
      } else {
        assert after[a] == before[a];
        assert InPool(before[a], pool);
      }
    }
  }

  /** The stitching phase: every loop still unevaluated, in list order,
      absorbs the loops that meet it. No node is lost or made up: every
      node of an unevaluated loop ends up in some unevaluated loop, and
      every node such a loop holds was in one before. */
  method StitchAll<V>(vertices: seq<V>, same: (V, V) -> bool, loops: seq<Loop>, unevaluated: set<int>)
    returns (r: Result<()>, cycles: set<Loop>)
    requires Family(loops, |vertices|)
    requires forall a :: a in unevaluated ==> 0 <= a < |loops| && |loops[a].Nodes| >= 2
    modifies loops
    ensures r.Failure? ==> r.error == DuplicateKey
    ensures r.Success? ==>
      && Family(loops, |vertices|)
      && (forall a :: 0 <= a < |loops| && a !in unevaluated ==> loops[a].Nodes == old(loops[a].Nodes))
      && (forall a :: a in unevaluated ==> loops[a].Nodes == [] || |loops[a].Nodes| >= 2)
    ensures r.Success? ==> forall a, x :: a in unevaluated && x in loops[a].Nodes ==>
      exists b :: b in unevaluated && x in old(loops[b].Nodes)
    ensures r.Success? ==> forall b, x :: b in unevaluated && x in old(loops[b].Nodes) ==>
      exists a :: a in unevaluated && x in loops[a].Nodes
  {
    ghost var nodes := NodesOf(loops);
    ghost var holder: map<int, int> := map b | b in unevaluated :: b;
    ghost var pool := set b, x | b in unevaluated && 0 <= b < |nodes| && x in nodes[b] :: x;
    assert Held(nodes, nodes, unevaluated, holder) by {
      forall b | b in unevaluated ensures HeldAt(nodes, nodes, unevaluated, holder, b) {
      }
    }
    assert Pooled(nodes, unevaluated, pool) by {
      forall a | a in unevaluated && 0 <= a < |nodes| ensures InPool(nodes[a], pool) {
      }
    }
    var rest := unevaluated;
    cycles := {};
    for i := 0 to |loops|
      invariant Stitching(vertices, loops, nodes, unevaluated, rest, i, holder, pool)
    {
      var stitched;
      stitched, rest, cycles, holder := StitchNext(vertices, same, loops, i, nodes, unevaluated, rest, cycles, holder, pool);
      if stitched.Failure? {
        return Failure(stitched.error), cycles;
      }
    }
    r := Success(());
    Conserved(nodes, NodesOf(loops), unevaluated, holder, pool);
  }

  /** The state `StitchAll` keeps before loop `i`: the loops in `rest`, and
      those never unevaluated, are untouched, and every original node is
      `Held` and `Pooled`. */
  ghost predicate Stitching<V>(vertices: seq<V>, loops: seq<Loop>, nodes: seq<seq<int>>, unevaluated: set<int>,
                               rest: set<int>, i: int, holder: map<int, int>, pool: set<int>)
    reads loops
  {
    && Family(loops, |vertices|) && rest <= unevaluated && |nodes| == |loops|
    && (forall a :: a in unevaluated ==> 0 <= a < |loops| && |nodes[a]| >= 2)
    && (forall a :: a in rest ==> i <= a && loops[a].Nodes == nodes[a])
    && (forall a :: 0 <= a < |loops| && a !in unevaluated ==> loops[a].Nodes == nodes[a])
    && (forall a :: a in unevaluated ==> loops[a].Nodes == [] || |loops[a].Nodes| >= 2)
    && Held(nodes, NodesOf(loops), unevaluated, holder) && Pooled(NodesOf(loops), unevaluated, pool)
    && Pooled(nodes, unevaluated, pool)
  }

  /** One turn of the loop in `StitchAll`: loop `i`, if still unevaluated,
      absorbs the unevaluated loops that meet it, and joins `cycles` if a
      stitch closed it. */
  method StitchNext<V>(vertices: seq<V>, same: (V, V) -> bool, loops: seq<Loop>, i: int, ghost nodes: seq<seq<int>>,
                       ghost unevaluated: set<int>, rest: set<int>, cycles: set<Loop>, ghost holder: map<int, int>,
                       ghost pool: set<int>)
    returns (r: Result<()>, rest': set<int>, cycles': set<Loop>, ghost holder': map<int, int>)
    requires Stitching(vertices, loops, nodes, unevaluated, rest, i, holder, pool) && 0 <= i < |loops|
    modifies loops
    ensures r.Failure? ==> r.error == DuplicateKey
    ensures r.Success? ==> Stitching(vertices, loops, nodes, unevaluated, rest', i + 1, holder', pool)
  {
    r, rest', cycles', holder' := Success(()), rest, cycles, holder;
    if i in rest {
      rest' := rest - {i};
      ghost var before := NodesOf(loops);
      var absorbed, closed := Absorb(vertices, same, loops, i, rest');
      if absorbed.Failure? {
        r := Failure(absorbed.error);
        return;
      }
      holder' := StitchStep(nodes, before, NodesOf(loops), unevaluated, holder, pool, i, rest' - absorbed.value);
      rest' := absorbed.value;
      if closed {
        cycles' := cycles + {loops[i]};
      }
    }
  }

  /** What `Held` and `Pooled` give at the end of the stitching phase. */
  lemma Conserved(nodes: seq<seq<int>>, now: seq<seq<int>>, unevaluated: set<int>, holder: map<int, int>, pool: set<int>)
    requires Held(nodes, now, unevaluated, holder) && Pooled(now, unevaluated, pool)
    requires pool == set b, x | b in unevaluated && 0 <= b < |nodes| && x in nodes[b] :: x
    requires |now| == |nodes| && forall a :: a in unevaluated ==> 0 <= a < |nodes|
    ensures forall a, x :: a in unevaluated && x in now[a] ==> exists b :: b in unevaluated && x in nodes[b]
    ensures forall b, x :: b in unevaluated && x in nodes[b] ==> exists a :: a in unevaluated && x in now[a]
  {
    forall a, x | a in unevaluated && x in now[a]
      ensures exists b :: b in unevaluated && x in nodes[b]
    {
      assert InPool(now[a], pool) && x in now[a];
      var b :| b in unevaluated && 0 <= b < |nodes| && x in nodes[b];
    }
    forall b, x | b in unevaluated && x in nodes[b]
      ensures exists a :: a in unevaluated && x in now[a]
    {
      assert HeldAt(nodes, now, unevaluated, holder, b) && x in nodes[b];
    }
  }

  /** The list without its cleared loops (`first == -1`), in order. */
  function Remaining(loops: seq<Loop>): (r: seq<Loop>)
    reads loops
    ensures |r| <= |loops|
    ensures forall b :: 0 <= b < |r| ==> r[b] in loops && r[b].first != -1
    ensures forall a :: 0 <= a < |loops| && loops[a].first != -1 ==> loops[a] in r
  {
    if loops == [] then []
    else (if loops[0].first != -1 then [loops[0]] else []) + Remaining(loops[1..])
  }

  /** Dropping loops from a list of distinct objects keeps them distinct. */
  lemma {:induction false} RemainingDistinct(loops: seq<Loop>)
    requires forall a, b :: 0 <= a < b < |loops| ==> loops[a] != loops[b]
    ensures forall a, b :: 0 <= a < b < |Remaining(loops)| ==> Remaining(loops)[a] != Remaining(loops)[b]
  {
    if loops != [] {
      var t := Remaining(loops[1..]);
      RemainingDistinct(loops[1..]);
      if loops[0].first != -1 {
        assert loops[0] !in loops[1..] by {
          forall k | 1 <= k < |loops| ensures loops[k] != loops[0] {
          }
        }
        assert loops[0] !in t;
        var r := Remaining(loops);
        assert r == [loops[0]] + t;
      }
    }
  }

  /** Dropping the cleared loops leaves distinct valid loops, none of them
      empty. */
  lemma RemainingFamily(loops: seq<Loop>, n: int)
    requires Family(loops, n)
    ensures Family(Remaining(loops), n)
    ensures forall b :: 0 <= b < |Remaining(loops)| ==> Remaining(loops)[b].Nodes != []
  {
    var r := Remaining(loops);
    RemainingDistinct(loops);
    forall b | 0 <= b < |r| ensures ValidOver(r[b], n) && r[b].Nodes != [] {
      var a :| 0 <= a < |loops| && loops[a] == r[b];
      assert ValidOver(loops[a], n);
    }
  }

  /** `xs` is a subsequence of `ys`: `idx` names, in increasing order,
      the position in `ys` each element of `xs` comes from. */
  ghost predicate Picks(xs: seq<int>, ys: seq<int>, idx: seq<nat>) {
    && |idx| == |xs|
    && (forall i :: 0 <= i < |idx| ==> idx[i] < |ys| && xs[i] == ys[idx[i]])
    && (forall i, j :: 0 <= i < j < |idx| ==> idx[i] < idx[j])
  }

  lemma PicksAll(ys: seq<int>) returns (idx: seq<nat>)
    ensures Picks(ys, ys, idx)
  {
    idx := seq(|ys|, i requires 0 <= i => i);
  }

  /** Erasing one element of a subsequence leaves a subsequence. */
  lemma PicksErase(xs: seq<int>, ys: seq<int>, idx: seq<nat>, k: nat) returns (idx': seq<nat>)
    requires Picks(xs, ys, idx) && k < |xs|
    ensures Picks(Erase(xs, k), ys, idx')
  {
    idx' := idx[..k] + idx[k + 1..];
    var e := Erase(xs, k);
    forall i | 0 <= i < |idx'| ensures idx'[i] < |ys| && e[i] == ys[idx'[i]] {
      if i < k {
        assert idx'[i] == idx[i];
      } else {
        assert idx'[i] == idx[i + 1];
      }
    }
    forall i, j | 0 <= i < j < |idx'| ensures idx'[i] < idx'[j] {
      var i0 := if i < k then i else i + 1;
      var j0 := if j < k then j else j + 1;
      assert idx'[i] == idx[i0] && idx'[j] == idx[j0];
    }
  }

  /** No node of the cycle `nodes` lies at the position of its predecessor. */
  ghost predicate NoRepeats<V>(vertices: seq<V>, same: (V, V) -> bool, nodes: seq<int>) {
    && NodesIn(nodes, |vertices|)
    && forall k :: 0 <= k < |nodes| ==> !same(vertices[nodes[k]], vertices[nodes[PrevPos(k, |nodes|)]])
  }

  lemma NoRepeatsAt<V>(vertices: seq<V>, same: (V, V) -> bool, nodes: seq<int>, k: nat)
    ensures NoRepeats(vertices, same, nodes) && k < |nodes| ==>
      !same(vertices[nodes[k]], vertices[nodes[PrevPos(k, |nodes|)]])
  {
  }

  /** How many steps the repeat-removal pass still has to take from
      position `p` of a cycle of `n` nodes before it is back at position 1,
      where it stops. */
  ghost function StepsLeft(p: nat, n: nat): nat
    requires p < n
  {
    if p == 0 then 1 else n - p + 1
  }

  /** The repeat-removal pass over one loop: starting after `first`, each
      node removes its predecessors while they lie at its own position,
      then the pass moves on, until it is back after `first`. A single node
      at its own position would remove itself, which fails in the source
      (the missing backward link of a one-node loop). A loop a stitch
      closed (`closed`, held opened before `first`) is a cycle in the
      source, whose `first` is its own successor and predecessor: the pass
      starts at `first` itself, opens the cycle there when `first` lies at
      its own position, then removes the predecessors of `first` that lie
      there and stops after that one node; a cycle it cannot open is left
      closed, which the model reports as `UnopenedCycle`. The chain left
      is a subsequence of the old one, and a chain without repeats is left
      as it is. */
  method DropRepeats<V>(vertices: seq<V>, same: (V, V) -> bool, loop: Loop, closed: bool) returns (r: Result<()>, ghost idx: seq<nat>)
    requires ValidOver(loop, |vertices|) && loop.Nodes != []
    modifies loop
    ensures r.Failure? ==> r.error in {KeyNotFound, UnopenedCycle}
    ensures (r.Failure? && r.error == UnopenedCycle) <==> closed && !same(vertices[old(loop.first)], vertices[old(loop.first)])
    ensures r.Success? ==> ValidOver(loop, |vertices|) && loop.Nodes != []
    ensures r.Success? ==> forall x :: x in loop.Nodes ==> x in old(loop.Nodes)
    ensures r.Success? ==> Picks(loop.Nodes, old(loop.Nodes), idx)
    ensures NoRepeats(vertices, same, old(loop.Nodes)) && (closed ==> same(vertices[old(loop.first)], vertices[old(loop.first)])) ==>
      r.Success? && loop.Nodes == old(loop.Nodes)
  {
    ghost var nodes := loop.Nodes;
    idx := PicksAll(nodes);
    IndexOfDistinct(loop.Nodes, 0);
    if closed && !same(vertices[loop.first], vertices[loop.first]) {
      return Failure(UnopenedCycle), idx;
    }
    ghost var p: nat := if closed then 0 else NextPos(0, |loop.Nodes|);
    var index := if closed then loop.first else loop.Next(loop.first);
    while true
      invariant Dropping(vertices, same, loop, nodes, idx, p, index)
      decreases StepsLeft(p, |loop.Nodes|) + |loop.Nodes|
    {
      var ok, done;
      ok, done, index, p, idx := DropStep(vertices, same, loop, index, p, nodes, idx);
      if !ok {
        return Failure(KeyNotFound), idx;
      }
      if done {
        break;
      }
    }
    r := Success(());
  }

  /** One turn of the pass: drop the repeats before `index`, then move on
      to its successor; `done` when that is the node after `first`. */
  method DropStep<V>(vertices: seq<V>, same: (V, V) -> bool, loop: Loop, index: int,
                     ghost p: nat, ghost nodes: seq<int>, ghost idx: seq<nat>)
    returns (ok: bool, done: bool, index': int, ghost p': nat, ghost idx': seq<nat>)
    requires Dropping(vertices, same, loop, nodes, idx, p, index)
    modifies loop
    ensures !ok ==> !NoRepeats(vertices, same, nodes)
    ensures ok ==> Dropping(vertices, same, loop, nodes, idx', p', index')
    ensures ok && !done ==> StepsLeft(p', |loop.Nodes|) + |loop.Nodes| < StepsLeft(p, |old(loop.Nodes)|) + |old(loop.Nodes)|
  {
    ok, p', idx' := DropBefore(vertices, same, loop, index, p, nodes, idx);
    done, index' := false, index;
    if ok {
      done, index', p' := MoveOn(vertices, same, loop, nodes, idx', p', index);
    }
  }

  /** The end of a turn of the pass: move on to the successor of `index`;
      `done` when that is the node after `first`. */
  method MoveOn<V>(vertices: seq<V>, same: (V, V) -> bool, loop: Loop, ghost nodes: seq<int>, ghost idx: seq<nat>,
                   ghost p: nat, index: int)
    returns (done: bool, index': int, ghost p': nat)
    requires Dropping(vertices, same, loop, nodes, idx, p, index)
    ensures Dropping(vertices, same, loop, nodes, idx, p', index')
    ensures !done ==> StepsLeft(p', |loop.Nodes|) < StepsLeft(p, |loop.Nodes|)
  {
    ghost var n := |loop.Nodes|;
    IndexOfDistinct(loop.Nodes, p);
    index' := loop.Next(index);
    StepsDecrease(p, n);
    p' := NextPos(p, n);
    IndexOfDistinct(loop.Nodes, 0);
    done := index' == loop.Next(loop.first);
  }

  /** Moving on from `p` takes the pass one step closer to its end, unless
      it arrives at position 1, where it stops. */
  lemma StepsDecrease(p: nat, n: nat)
    requires p < n
    ensures NextPos(p, n) != NextPos(0, n) ==> StepsLeft(NextPos(p, n), n) < StepsLeft(p, n)
  {
  }

  /** What holds along the pass: the chain is a subsequence of the
      original `nodes`, still all of it if `nodes` has no repeats, and
      `index` is its node at position `p`. */
  ghost predicate Dropping<V>(vertices: seq<V>, same: (V, V) -> bool, loop: Loop, nodes: seq<int>, idx: seq<nat>, p: nat, index: int)
    reads loop
  {
    && loop.Valid() && loop.Nodes != [] && NodesIn(loop.Nodes, |vertices|)
    && (forall x :: x in loop.Nodes ==> x in nodes)
    && Picks(loop.Nodes, nodes, idx)
    && (NoRepeats(vertices, same, nodes) ==> loop.Nodes == nodes)
    && p < |loop.Nodes| && index == loop.Nodes[p]
  }

  /** The inner loop of the pass: removes the predecessors of `index`
      while they lie at its position. Fails when `index` is left alone at
      its own position, which cannot happen when `nodes` has no repeats. */
  method DropBefore<V>(vertices: seq<V>, same: (V, V) -> bool, loop: Loop, index: int,
                       ghost p: nat, ghost nodes: seq<int>, ghost idx: seq<nat>)
    returns (ok: bool, ghost p': nat, ghost idx': seq<nat>)
    requires Dropping(vertices, same, loop, nodes, idx, p, index)
    modifies loop
    ensures ok ==> Dropping(vertices, same, loop, nodes, idx', p', index)
    ensures ok ==> StepsLeft(p', |loop.Nodes|) + |loop.Nodes| <= StepsLeft(p, |old(loop.Nodes)|) + |old(loop.Nodes)|
    ensures ok ==> !same(vertices[index], vertices[loop.Prev(index)])
    ensures !ok ==> !NoRepeats(vertices, same, nodes)
  {
    ok, p', idx' := true, p, idx;
    ghost var bound := StepsLeft(p, |loop.Nodes|) + |loop.Nodes|;
    while same(vertices[index], vertices[loop.Prev(index)])
      invariant Dropping(vertices, same, loop, nodes, idx', p', index)
      invariant StepsLeft(p', |loop.Nodes|) + |loop.Nodes| <= bound
      decreases |loop.Nodes|
    {
      IndexOfDistinct(loop.Nodes, p');
      NoRepeatsAt(vertices, same, nodes, p');
      if loop.first == loop.last {
        return false, p', idx';
      }
      p', idx' := RemovePrev(loop, index, p', |vertices|, nodes, idx');
    }
  }

  /** One removal of the pass: the predecessor of `index` (at position `p`)
      leaves the loop; `index` moves one position down unless it is
      `first`. */
  method RemovePrev(loop: Loop, index: int, ghost p: nat, ghost n: int, ghost nodes: seq<int>, ghost idx: seq<nat>)
    returns (ghost q: nat, ghost idx': seq<nat>)
    requires ValidOver(loop, n) && p < |loop.Nodes| && index == loop.Nodes[p] && loop.first != loop.last
    requires Picks(loop.Nodes, nodes, idx)
    modifies loop
    ensures ValidOver(loop, n) && loop.Nodes != []
    ensures loop.Nodes == Erase(old(loop.Nodes), PrevPos(p, |old(loop.Nodes)|))
    ensures forall x :: x in loop.Nodes ==> x in old(loop.Nodes)
    ensures Picks(loop.Nodes, nodes, idx')
    ensures q < |loop.Nodes| && index == loop.Nodes[q]
    ensures StepsLeft(q, |loop.Nodes|) <= StepsLeft(p, |old(loop.Nodes)|)
  {
    ghost var before := loop.Nodes;
    assert |before| >= 2 by { assert before[0] == loop.first && before[|before| - 1] == loop.last; }
    IndexOfDistinct(before, p);
    ghost var k := PrevPos(p, |before|);
    IndexOfDistinct(before, k);
    EraseDistinct(before, k);
    loop.RemoveLink(loop.Prev(index));
    q := if p == 0 then 0 else p - 1;
    idx' := PicksErase(before, nodes, idx, k);
  }

  /** The repeat-removal pass over every loop of the list; `cycles` are
      the loops a stitch closed. */
  method DropRepeatsAll<V>(vertices: seq<V>, same: (V, V) -> bool, loops: seq<Loop>, cycles: set<Loop>)
    returns (r: Result<()>, ghost picks: seq<seq<nat>>)
    requires Family(loops, |vertices|) && forall a :: 0 <= a < |loops| ==> loops[a].Nodes != []
    modifies loops
    ensures r.Failure? ==> r.error in {KeyNotFound, UnopenedCycle}
    ensures r.Success? ==> Family(loops, |vertices|) && forall a :: 0 <= a < |loops| ==> loops[a].Nodes != []
    ensures r.Success? ==> forall a, x :: 0 <= a < |loops| && x in loops[a].Nodes ==> x in old(loops[a].Nodes)
    ensures r.Success? ==> |picks| == |loops| && forall a :: 0 <= a < |loops| ==> Picks(loops[a].Nodes, old(loops[a].Nodes), picks[a])
    ensures r.Success? ==> forall a :: 0 <= a < |loops| && Kept(vertices, same, old(loops[a].Nodes), loops[a] in cycles) ==> loops[a].Nodes == old(loops[a].Nodes)
    ensures (forall a :: 0 <= a < |loops| ==> Kept(vertices, same, old(loops[a].Nodes), loops[a] in cycles)) ==>
      r.Success? && forall a :: 0 <= a < |loops| ==> loops[a].Nodes == old(loops[a].Nodes)
    ensures r.Success? ==> Thinned(vertices, same, old(NodesOf(loops)), NodesOf(loops), picks)
  {
    ghost var nodes := NodesOf(loops);
    picks := [];
    for i := 0 to |loops|
      invariant DroppedUpTo(vertices, same, loops, cycles, nodes, picks, i)
    {
      ghost var before := loops[i].Nodes;
      var dropped, idx := DropRepeatsAt(vertices, same, loops, i, loops[i] in cycles);
      if dropped.Failure? {
        assert before == nodes[i] == old(loops[i].Nodes) && !Kept(vertices, same, before, loops[i] in cycles);
        assert !forall a :: 0 <= a < |loops| ==> Kept(vertices, same, old(loops[a].Nodes), loops[a] in cycles);
        return dropped, picks;
      }
      picks := picks + [idx];
    }
    r := Success(());
    forall a | 0 <= a < |loops| && Kept(vertices, same, old(loops[a].Nodes), loops[a] in cycles) ensures loops[a].Nodes == old(loops[a].Nodes) {
      assert nodes[a] == old(loops[a].Nodes) && Kept(vertices, same, nodes[a], loops[a] in cycles);
    }
    assert forall a :: 0 <= a < |loops| ==> nodes[a] == old(loops[a].Nodes);
    ThinnedAll(vertices, same, loops, cycles, nodes, picks);
  }

  /** The end state of `DropRepeatsAll`, as `Thinned` states it. */
  lemma ThinnedAll<V>(vertices: seq<V>, same: (V, V) -> bool, loops: seq<Loop>, cycles: set<Loop>,
                      nodes: seq<seq<int>>, picks: seq<seq<nat>>)
    requires DroppedUpTo(vertices, same, loops, cycles, nodes, picks, |loops|)
    ensures Thinned(vertices, same, nodes, NodesOf(loops), picks)
  {
    forall b | 0 <= b < |loops| && Kept(vertices, same, nodes[b], true) ensures loops[b].Nodes == nodes[b] {
      assert Kept(vertices, same, nodes[b], loops[b] in cycles);
    }
  }

  /** The chain has no repeats and, if a stitch closed it, its first node
      lies at its own position: the repeat pass leaves it whole. */
  ghost predicate Kept<V>(vertices: seq<V>, same: (V, V) -> bool, nodes: seq<int>, closed: bool) {
    && NoRepeats(vertices, same, nodes) && nodes != []
    && (closed ==> same(vertices[nodes[0]], vertices[nodes[0]]))
  }

  /** The state of `DropRepeatsAll` before loop `i`: the loops before it
      hold subsequences (`picks`) of their original chains `nodes`, kept
      whole where those are `Kept`; the others are untouched. */
  ghost predicate DroppedUpTo<V>(vertices: seq<V>, same: (V, V) -> bool, loops: seq<Loop>, cycles: set<Loop>,
                                 nodes: seq<seq<int>>, picks: seq<seq<nat>>, i: int)
    reads loops
  {
    && Family(loops, |vertices|) && (forall a :: 0 <= a < |loops| ==> loops[a].Nodes != [])
    && |nodes| == |loops| && |picks| == i && 0 <= i <= |loops|
    && (forall a, x :: 0 <= a < i && x in loops[a].Nodes ==> x in nodes[a])
    && (forall a :: 0 <= a < i ==> Picks(loops[a].Nodes, nodes[a], picks[a]))
    && (forall a :: 0 <= a < i && Kept(vertices, same, nodes[a], loops[a] in cycles) ==> loops[a].Nodes == nodes[a])
    && (forall a :: i <= a < |loops| ==> loops[a].Nodes == nodes[a])
  }

  /** The pass over the loop at position `i` of the list, leaving the
      others as they are. */
  method DropRepeatsAt<V>(vertices: seq<V>, same: (V, V) -> bool, loops: seq<Loop>, i: int, closed: bool)
    returns (r: Result<()>, ghost idx: seq<nat>)
    requires Family(loops, |vertices|) && 0 <= i < |loops| && forall a :: 0 <= a < |loops| ==> loops[a].Nodes != []
    modifies loops[i]
    ensures r.Failure? ==> r.error in {KeyNotFound, UnopenedCycle} && !Kept(vertices, same, old(loops[i].Nodes), closed)
    ensures r.Success? ==>
      && Family(loops, |vertices|) && (forall a :: 0 <= a < |loops| ==> loops[a].Nodes != [])
      && (forall x :: x in loops[i].Nodes ==> x in old(loops[i].Nodes))
      && Picks(loops[i].Nodes, old(loops[i].Nodes), idx)
      && (Kept(vertices, same, old(loops[i].Nodes), closed) ==> loops[i].Nodes == old(loops[i].Nodes))
    ensures forall a :: 0 <= a < |loops| && a != i ==> loops[a].Nodes == old(loops[a].Nodes)
  {
    var loop := loops[i];
    assert ValidOver(loop, |vertices|);
    assert loop.first == loop.Nodes[0];
    r, idx := DropRepeats(vertices, same, loop, closed);
    forall a | 0 <= a < |loops| && a != i ensures loops[a].Nodes == old(loops[a].Nodes) {
      assert loops[a] != loop;
    }
    if r.Success? {
      forall a | 0 <= a < |loops| ensures ValidOver(loops[a], |vertices|) && loops[a].Nodes != [] {
        if a != i {
          assert loops[a] != loop;
        }
      }
    }
  }

  /** What `EdgesToLoops` went through to reach its outlines: the walks
      and the chains they traced (`walked`), the chains after clearing and
      stitching (`stitched`, position by position), and where in them the
      nodes kept by the repeat pass come from (`picks`). */
  datatype Outline = Outline(walks: seq<seq<int>>, owner: map<int, nat>, walked: seq<seq<int>>,
                             stitched: seq<seq<int>>, picks: seq<seq<nat>>)

  /** `chains` are the outlines `EdgesToLoops` derives from the adjacency
      through the stages `o` records: the walks share out every key of the
      adjacency and trace the `walked` chains, which are `Gathered` into
      the `stitched` ones, whose non-empty chains are `Thinned` into
      `chains`. */
  ghost predicate OutlineOf<V>(vertices: seq<V>, same: (V, V) -> bool, adjacency: map<int, int>, o: Outline, chains: seq<seq<int>>) {
    && Owned(adjacency, map[], o.walks, o.owner)
    && Walks(vertices, same, adjacency, o.walked, o.walks)
    && Gathered(vertices, same, o.walked, o.stitched)
    && Thinned(vertices, same, NonEmpty(o.stitched), chains, o.picks)
  }

  /** Each chain of `walked` is the one `Traced` from its walk, which
      starts at a key of the adjacency and follows its links. */
  ghost predicate Walks<V>(vertices: seq<V>, same: (V, V) -> bool, adjacency: map<int, int>,
                           walked: seq<seq<int>>, walks: seq<seq<int>>) {
    && |walks| == |walked|
    && forall a :: 0 <= a < |walks| ==>
         && |walks[a]| >= 2 && NodesIn(walks[a], |vertices|)
         && walks[a][0] in adjacency && Follows(adjacency, walks[a], 0)
         && walked[a] == Traced(vertices, same, walks[a])
  }

  lemma WalksOf<V>(vertices: seq<V>, same: (V, V) -> bool, adjacency: map<int, int>, loops: seq<Loop>, walks: seq<seq<int>>)
    requires WalkedFrom(vertices, same, adjacency, loops, walks)
    ensures Walks(vertices, same, adjacency, NodesOf(loops), walks)
  {
  }

  /** The clearing and stitching phases took the `walked` chains to the
      `stitched` ones: a closed chain is left empty, every chain is empty
      or has two nodes or more, and the stitched chains hold exactly the
      nodes of the walked chains that were not closed. */
  ghost predicate Gathered<V>(vertices: seq<V>, same: (V, V) -> bool, walked: seq<seq<int>>, stitched: seq<seq<int>>) {
    && |stitched| == |walked|
    && (forall a :: 0 <= a < |walked| && Closed(vertices, same, walked[a]) ==> stitched[a] == [])
    && (forall a :: 0 <= a < |stitched| ==> stitched[a] == [] || |stitched[a]| >= 2)
    && (forall a, x :: 0 <= a < |stitched| && x in stitched[a] ==>
          exists b :: 0 <= b < |walked| && !Closed(vertices, same, walked[b]) && x in walked[b])
    && (forall b, x :: 0 <= b < |walked| && !Closed(vertices, same, walked[b]) && x in walked[b] ==>
          exists a :: 0 <= a < |stitched| && x in stitched[a])
  }

  /** The repeat pass took the `stitched` chains, one by one, to `chains`:
      each is a non-empty subsequence of its stitched chain (`picks`), and
      the whole of it when that chain is `Kept` even as a cycle. */
  ghost predicate Thinned<V>(vertices: seq<V>, same: (V, V) -> bool, stitched: seq<seq<int>>,
                             chains: seq<seq<int>>, picks: seq<seq<nat>>) {
    && |chains| == |stitched| && |picks| == |chains|
    && forall b :: 0 <= b < |chains| ==>
         && chains[b] != [] && Picks(chains[b], stitched[b], picks[b])
         && (Kept(vertices, same, stitched[b], true) ==> chains[b] == stitched[b])
  }

  /** The non-empty chains of `chains`, in order. */
  function NonEmpty(chains: seq<seq<int>>): (r: seq<seq<int>>)
    ensures |r| <= |chains|
    ensures forall b :: 0 <= b < |r| ==> r[b] != []
  {
    if chains == [] then []
    else (if chains[0] != [] then [chains[0]] else []) + NonEmpty(chains[1..])
  }

  /** Dropping the cleared loops drops exactly the empty chains. */
  lemma {:induction false} RemainingNodes(loops: seq<Loop>, n: int)
    requires forall a :: 0 <= a < |loops| ==> ValidOver(loops[a], n)
    ensures NodesOf(Remaining(loops)) == NonEmpty(NodesOf(loops))
  {
    if loops != [] {
      var t := loops[1..];
      assert forall a :: 0 <= a < |t| ==> ValidOver(t[a], n) by {
        forall a | 0 <= a < |t| ensures ValidOver(t[a], n) {
          assert t[a] == loops[a + 1];
        }
      }
      RemainingNodes(t, n);
      assert ValidOver(loops[0], n);
      RemainingStep(loops, n);
      NonEmptyStep(loops);
    }
  }

  /** `Remaining` keeps the first loop exactly when its chain is not empty. */
  lemma RemainingStep(loops: seq<Loop>, n: int)
    requires loops != [] && ValidOver(loops[0], n)
    ensures NodesOf(Remaining(loops)) ==
      (if loops[0].Nodes != [] then [loops[0].Nodes] else []) + NodesOf(Remaining(loops[1..]))
  {
    var l, kept := loops[0], Remaining(loops[1..]);
    assert (l.first != -1) == (l.Nodes != []) by {
      if l.Nodes != [] {
        assert l.first == l.Nodes[0];
      }
    }
    if l.first != -1 {
      assert Remaining(loops) == [l] + kept;
      ConsNodes(l, kept);
    } else {
      assert Remaining(loops) == kept;
    }
  }

  /** `NonEmpty` of the chains of a list, one loop at a time. */
  lemma NonEmptyStep(loops: seq<Loop>)
    requires loops != []
    ensures NonEmpty(NodesOf(loops)) ==
      (if loops[0].Nodes != [] then [loops[0].Nodes] else []) + NonEmpty(NodesOf(loops[1..]))
  {
    var all, rest := NodesOf(loops), NodesOf(loops[1..]);
    assert all[1..] == rest by {
      forall a | 0 <= a < |rest| ensures all[1..][a] == rest[a] {
        assert loops[1..][a] == loops[a + 1];
      }
    }
  }

  lemma ConsNodes(l: Loop, loops: seq<Loop>)
    ensures NodesOf([l] + loops) == [l.Nodes] + NodesOf(loops)
  {
    var lhs, rhs := NodesOf([l] + loops), [l.Nodes] + NodesOf(loops);
    forall a | 0 <= a < |lhs| ensures lhs[a] == rhs[a] {
      if a > 0 {
        assert ([l] + loops)[a] == loops[a - 1];
      }
    }
  }

  /** Turns the cut edges of one side into outlines: walk the chains,
      clear the closed ones, stitch the others together, drop the cleared
      loops, and remove repeated positions. The result is a list of
      distinct new loops, each valid and non-empty, whose chains are the
      `OutlineOf` the adjacency; the adjacency the walk consumed is left
      empty. */
  method EdgesToLoops<V>(vertices: seq<V>, same: (V, V) -> bool, adjacency: map<int, int>)
    returns (r: Result<seq<Loop>>, drained: map<int, int>, ghost outline: Outline)
    requires Indices(adjacency, |vertices|)
    ensures r.Success? ==> drained == map[]
    ensures r.Success? ==> Family(r.value, |vertices|)
    ensures r.Success? ==> OutlineOf(vertices, same, adjacency, outline, NodesOf(r.value))
    ensures r.Success? ==> forall a :: 0 <= a < |r.value| ==> fresh(r.value[a]) && r.value[a].Nodes != []
    ensures r.Success? ==> forall a, x :: 0 <= a < |r.value| && x in r.value[a].Nodes ==> Drawn(adjacency, x)
    ensures r.Failure? ==> r.error in {DuplicateKey, IndexOutOfRange, UnopenedCycle, KeyNotFound}
  {
    var walked;
    ghost var walks, owner;
    walked, drained, walks, owner := WalkAll(vertices, same, adjacency);
    outline := Outline(walks, owner, [], [], []);
    if walked.Failure? {
      return Failure(walked.error), drained, outline;
    }
    var loops := walked.value;
    WalkedDrawn(vertices, same, adjacency, loops, walks);
    WalksOf(vertices, same, adjacency, loops, walks);
    ghost var walkedNodes := NodesOf(loops);
    ghost var stitchedNodes, picks;
    r, stitchedNodes, picks := Outlines(vertices, same, loops, adjacency);
    if r.Success? {
      outline := Outline(walks, owner, walkedNodes, stitchedNodes, picks);
      LoopsDrawn(adjacency, r.value);
      forall a | 0 <= a < |r.value| ensures fresh(r.value[a]) && r.value[a].Nodes != [] {
        assert NodesOf(r.value)[a] != [];
      }
    }
  }

  /** The phases of `EdgesToLoops` after the walk: the walked chains of
      `loops` are `Gathered` into the `stitched` ones, whose non-empty
      chains are `Thinned` into those of the result, a list of loops drawn
      from `loops`. */
  method Outlines<V>(vertices: seq<V>, same: (V, V) -> bool, loops: seq<Loop>, ghost adjacency: map<int, int>)
    returns (r: Result<seq<Loop>>, ghost stitched: seq<seq<int>>, ghost picks: seq<seq<nat>>)
    requires Family(loops, |vertices|) && forall a :: 0 <= a < |loops| ==> |loops[a].Nodes| >= 2
    requires AllDrawn(adjacency, NodesOf(loops))
    modifies loops
    ensures r.Failure? ==> r.error in {DuplicateKey, UnopenedCycle, KeyNotFound}
    ensures r.Success? ==> Family(r.value, |vertices|) && AllDrawn(adjacency, NodesOf(r.value))
    ensures r.Success? ==> forall b :: 0 <= b < |r.value| ==> r.value[b] in loops
    ensures r.Success? ==> Gathered(vertices, same, old(NodesOf(loops)), stitched)
    ensures r.Success? ==> Thinned(vertices, same, NonEmpty(stitched), NodesOf(r.value), picks)
  {
    picks := [];
    var joined, cycles := ClearAndStitch(vertices, same, loops, adjacency);
    stitched := NodesOf(loops);
    if joined.Failure? {
      return Failure(joined.error), stitched, picks;
    }
    r, picks := KeepAndDrop(vertices, same, loops, cycles, adjacency);
  }

  /** The last phases of `EdgesToLoops`: drop the cleared loops, then the
      repeated positions of the others (`cycles` are the loops a stitch
      closed). */
  method KeepAndDrop<V>(vertices: seq<V>, same: (V, V) -> bool, loops: seq<Loop>, cycles: set<Loop>,
                        ghost adjacency: map<int, int>)
    returns (r: Result<seq<Loop>>, ghost picks: seq<seq<nat>>)
    requires Family(loops, |vertices|) && AllDrawn(adjacency, NodesOf(loops))
    modifies loops
    ensures r.Failure? ==> r.error in {KeyNotFound, UnopenedCycle}
    ensures r.Success? ==> Family(r.value, |vertices|) && AllDrawn(adjacency, NodesOf(r.value))
    ensures r.Success? ==> r.value == old(Remaining(loops)) && forall b :: 0 <= b < |r.value| ==> r.value[b] in loops
    ensures r.Success? ==> Thinned(vertices, same, NonEmpty(old(NodesOf(loops))), NodesOf(r.value), picks)
  {
    RemainingFamily(loops, |vertices|);
    RemainingDrawn(adjacency, loops);
    RemainingNodes(loops, |vertices|);
    var kept := Remaining(loops);
    ghost var keptNodes := NodesOf(kept);
    var dropped;
    dropped, picks := DropRepeatsAll(vertices, same, kept, cycles);
    if dropped.Failure? {
      return Failure(dropped.error), picks;
    }
    r := Success(kept);
    ShrunkDrawn(adjacency, keptNodes, NodesOf(kept));
  }

  lemma LoopsDrawn(adjacency: map<int, int>, loops: seq<Loop>)
    requires AllDrawn(adjacency, NodesOf(loops))
    ensures forall a, x :: 0 <= a < |loops| && x in loops[a].Nodes ==> Drawn(adjacency, x)
  {
    var nodes := NodesOf(loops);
    forall a, x | 0 <= a < |loops| && x in loops[a].Nodes ensures Drawn(adjacency, x) {
      assert x in nodes[a];
    }
  }

  lemma ShrunkDrawn(adjacency: map<int, int>, before: seq<seq<int>>, after: seq<seq<int>>)
    requires AllDrawn(adjacency, before) && |after| == |before|
    requires forall a, x :: 0 <= a < |after| && x in after[a] ==> x in before[a]
    ensures AllDrawn(adjacency, after)
  {
  }

  /** The middle phases of `EdgesToLoops`: clear the closed chains, then
      stitch the others; the chains go from the walked ones to ones
      `Gathered` from them, and `cycles` are the loops a stitch closed. */
  method ClearAndStitch<V>(vertices: seq<V>, same: (V, V) -> bool, loops: seq<Loop>, ghost adjacency: map<int, int>)
    returns (r: Result<()>, cycles: set<Loop>)
    requires Family(loops, |vertices|) && forall a :: 0 <= a < |loops| ==> |loops[a].Nodes| >= 2
    requires AllDrawn(adjacency, NodesOf(loops))
    modifies loops
    ensures r.Failure? ==> r.error == DuplicateKey
    ensures r.Success? ==> Family(loops, |vertices|) && AllDrawn(adjacency, NodesOf(loops))
    ensures r.Success? ==> Gathered(vertices, same, old(NodesOf(loops)), NodesOf(loops))
  {
    ghost var walkedNodes := NodesOf(loops);
    var unevaluated := ClearClosed(vertices, same, loops);
    ghost var clearedNodes := NodesOf(loops);
    ClearedDrawn(adjacency, walkedNodes, clearedNodes);
    r, cycles := StitchAll(vertices, same, loops, unevaluated);
    if r.Success? {
      StitchedDrawn(adjacency, clearedNodes, NodesOf(loops), unevaluated);
      GatheredFrom(vertices, same, walkedNodes, clearedNodes, NodesOf(loops), unevaluated);
    }
  }

  /** The clearing phase followed by the stitching phase gathers the
      walked chains. */
  lemma GatheredFrom<V>(vertices: seq<V>, same: (V, V) -> bool, walked: seq<seq<int>>, cleared: seq<seq<int>>,
                        stitched: seq<seq<int>>, unevaluated: set<int>)
    requires |cleared| == |walked| && |stitched| == |walked|
    requires forall a :: a in unevaluated ==> 0 <= a < |walked|
    requires forall a :: a in unevaluated ==> cleared[a] == walked[a] && !Closed(vertices, same, walked[a])
    requires forall a :: 0 <= a < |walked| && a !in unevaluated ==> cleared[a] == [] && Closed(vertices, same, walked[a])
    requires forall a :: 0 <= a < |walked| && a !in unevaluated ==> stitched[a] == cleared[a]
    requires forall a :: a in unevaluated ==> stitched[a] == [] || |stitched[a]| >= 2
    requires forall a, x :: a in unevaluated && x in stitched[a] ==> exists b :: b in unevaluated && x in cleared[b]
    requires forall b, x :: b in unevaluated && x in cleared[b] ==> exists a :: a in unevaluated && x in stitched[a]
    ensures Gathered(vertices, same, walked, stitched)
  {
    forall a, x | 0 <= a < |stitched| && x in stitched[a]
      ensures exists b :: 0 <= b < |walked| && !Closed(vertices, same, walked[b]) && x in walked[b]
    {
      assert a in unevaluated;
      var b :| b in unevaluated && x in cleared[b];
    }
    forall b, x | 0 <= b < |walked| && !Closed(vertices, same, walked[b]) && x in walked[b]
      ensures exists a :: 0 <= a < |stitched| && x in stitched[a]
    {
      assert b in unevaluated && x in cleared[b];
      var a :| a in unevaluated && x in stitched[a];
    }
  }

  lemma ClearedDrawn(adjacency: map<int, int>, before: seq<seq<int>>, after: seq<seq<int>>)
    requires AllDrawn(adjacency, before) && |after| == |before|
    requires forall a :: 0 <= a < |after| ==> after[a] == before[a] || after[a] == []
    ensures AllDrawn(adjacency, after)
  {
    forall a, x | 0 <= a < |after| && x in after[a] ensures Drawn(adjacency, x) {
      assert after[a] == before[a];
    }
  }

  lemma StitchedDrawn(adjacency: map<int, int>, before: seq<seq<int>>, after: seq<seq<int>>, unevaluated: set<int>)
    requires AllDrawn(adjacency, before) && |after| == |before|
    requires forall a :: a in unevaluated ==> 0 <= a < |before|
    requires forall a :: 0 <= a < |after| && a !in unevaluated ==> after[a] == before[a]
    requires forall a, x :: a in unevaluated && x in after[a] ==> exists b :: b in unevaluated && x in before[b]
    ensures AllDrawn(adjacency, after)
  {
    forall a, x | 0 <= a < |after| && x in after[a] ensures Drawn(adjacency, x) {
      if a in unevaluated {
        var b :| b in unevaluated && x in before[b];
      } else {
        assert after[a] == before[a];
      }
    }
  }

  lemma RemainingDrawn(adjacency: map<int, int>, loops: seq<Loop>)
    requires AllDrawn(adjacency, NodesOf(loops))
    ensures AllDrawn(adjacency, NodesOf(Remaining(loops)))
  {
    var kept := Remaining(loops);
    var nodes := NodesOf(loops);
    forall b, x | 0 <= b < |kept| && x in kept[b].Nodes ensures Drawn(adjacency, x) {
      var a :| 0 <= a < |loops| && loops[a] == kept[b];
      assert x in nodes[a];
    }
  }

  /** Every node of every chain in `nodes` is drawn from the adjacency. */
  ghost predicate AllDrawn(adjacency: map<int, int>, nodes: seq<seq<int>>) {
    forall a, x :: 0 <= a < |nodes| && x in nodes[a] ==> Drawn(adjacency, x)
  }

  /** The walked chains hold only nodes of the adjacency. */
  lemma WalkedDrawn<V>(vertices: seq<V>, same: (V, V) -> bool, adjacency: map<int, int>, loops: seq<Loop>, walks: seq<seq<int>>)
    requires WalkedFrom(vertices, same, adjacency, loops, walks)
    ensures AllDrawn(adjacency, NodesOf(loops))
  {
    var nodes := NodesOf(loops);
    forall a, x | 0 <= a < |nodes| && x in nodes[a] ensures Drawn(adjacency, x) {
      TracedWithin(vertices, same, walks[a]);
      WalkDrawn(adjacency, walks[a]);
    }
  }
}
