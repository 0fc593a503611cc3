/** The cyclic doubly linked index list (the `Loop` class of the kernel).

    A loop is kept as two maps, `forwardLinks` (index to successor) and
    `backwardLinks` (index to predecessor), plus the two ends `first` and
    `last`. The maps hold the open chain from `first` to `last`; the closing
    edge `last -> first` is implicit in `Next` and `Prev`. A cleared loop
    (`first == -1`) is the sentinel for "consumed by a merge". */
module Loops {

  /** No index occurs twice in `s`. */
  ghost predicate Distinct(s: seq<int>) {
    forall i, j :: 0 <= i < j < |s| ==> s[i] != s[j]
  }

  /** The position after `p` on a cycle of `n` positions. */
  function NextPos(p: nat, n: nat): (q: nat)
    requires p < n
    ensures q < n
  {
    if p + 1 == n then 0 else p + 1
  }

  /** The position before `p` on a cycle of `n` positions. */
  function PrevPos(p: nat, n: nat): (q: nat)
    requires p < n
    ensures q < n
  {
    if p == 0 then n - 1 else p - 1
  }

  /** The position of `x` in `s` (its first occurrence). */
  ghost function IndexOf(s: seq<int>, x: int): (k: nat)
    requires x in s
    ensures k < |s| && s[k] == x
  {
    if s[0] == x then 0 else 1 + IndexOf(s[1..], x)
  }

  /** `s` without the element at position `k`. */
  function Erase(s: seq<int>, k: nat): (r: seq<int>)
    requires k < |s|
    ensures |r| == |s| - 1
    ensures forall j {:trigger r[j]} :: 0 <= j < k ==> r[j] == s[j]
    ensures forall j :: k <= j < |r| ==> r[j] == s[j + 1]
  {
    s[..k] + s[k + 1..]
  }

  lemma IndexOfDistinct(s: seq<int>, k: nat)
    requires Distinct(s) && k < |s|
    ensures IndexOf(s, s[k]) == k
  {
  }

  lemma {:induction false} EraseDistinct(s: seq<int>, k: nat)
    requires Distinct(s) && k < |s|
    ensures Distinct(Erase(s, k))
    ensures forall x :: x in Erase(s, k) <==> x in s && x != s[k]
  {
    var r := Erase(s, k);
    forall x | x in s && x != s[k] ensures x in r {
      var i := IndexOf(s, x);
      if i < k { assert r[i] == x; } else { assert r[i - 1] == x; }
    }
  }

  lemma ConcatDistinct(a: seq<int>, b: seq<int>)
    requires Distinct(a) && Distinct(b)
    requires forall x :: x in a ==> x !in b
    ensures Distinct(a + b)
  {
    var n := a + b;
    forall i, j | 0 <= i < j < |n| ensures n[i] != n[j] {
      if i < |a| <= j { assert n[i] == a[i] && a[i] in a && n[j] == b[j - |a|]; }
      else if |a| <= i { assert n[i] == b[i - |a|] && n[j] == b[j - |a|]; }
    }
  }

  lemma TailDistinct(s: seq<int>)
    requires Distinct(s) && s != []
    ensures Distinct(s[1..]) && s[0] !in s[1..]
  {
    forall i, j | 0 <= i < j < |s| - 1 ensures s[1..][i] != s[1..][j] {
      assert s[1..][i] == s[i + 1] && s[1..][j] == s[j + 1];
    }
  }

  /** A distinct sequence has as many elements as its set. */
  lemma {:induction false} DistinctCard(s: seq<int>)
    requires Distinct(s)
    ensures |(set x | x in s)| == |s|
  {
    if s != [] {
      TailDistinct(s);
      DistinctCard(s[1..]);
      assert (set x | x in s) == (set x | x in s[1..]) + {s[0]};
    }
  }

  /** The ends of a chain: the sentinel -1 for an empty chain. */
  ghost predicate Ends(first: int, last: int, nodes: seq<int>) {
    if nodes == [] then first == -1 && last == -1
    else first == nodes[0] && last == nodes[|nodes| - 1]
  }

  /** The keys of `m` are the nodes of the chain except `skip`. */
  ghost predicate KeysOf(m: map<int, int>, nodes: seq<int>, skip: int) {
    forall x {:trigger x in nodes} :: x in m <==> x in nodes && x != skip
  }

  /** `fwd` maps every node but the last to its successor in the chain. */
  ghost predicate ForwardLinks(fwd: map<int, int>, nodes: seq<int>) {
    forall i :: 0 <= i < |nodes| - 1 ==> nodes[i] in fwd && fwd[nodes[i]] == nodes[i + 1]
  }

  /** `bwd` maps every node but the first to its predecessor in the chain. */
  ghost predicate BackwardLinks(bwd: map<int, int>, nodes: seq<int>) {
    forall i :: 0 < i < |nodes| ==> nodes[i] in bwd && bwd[nodes[i]] == nodes[i - 1]
  }

  /** The loop invariant: `fwd` and `bwd` link the chain `nodes` of distinct
      vertex indices from `first` to `last` and nothing else; an empty chain
      is the cleared state with both ends at -1. */
  ghost predicate ChainLinks(fwd: map<int, int>, bwd: map<int, int>, first: int, last: int, nodes: seq<int>) {
    && Distinct(nodes)
    && (forall i :: 0 <= i < |nodes| ==> nodes[i] >= 0)
    && Ends(first, last, nodes)
    && KeysOf(fwd, nodes, last)
    && KeysOf(bwd, nodes, first)
    && ForwardLinks(fwd, nodes)
    && BackwardLinks(bwd, nodes)
  }

  /** The two maps of a valid loop are mutual inverses. */
  lemma LinksInverse(fwd: map<int, int>, bwd: map<int, int>, first: int, last: int, nodes: seq<int>)
    requires ChainLinks(fwd, bwd, first, last, nodes)
    ensures forall x :: x in fwd ==> fwd[x] in bwd && bwd[fwd[x]] == x
    ensures forall y :: y in bwd ==> bwd[y] in fwd && fwd[bwd[y]] == y
  {
    forall x | x in fwd ensures fwd[x] in bwd && bwd[fwd[x]] == x {
      var i := IndexOf(nodes, x);
      assert nodes[i + 1] == fwd[x];
    }
    forall y | y in bwd ensures bwd[y] in fwd && fwd[bwd[y]] == y {
      var i := IndexOf(nodes, y);
      assert nodes[i - 1] == bwd[y];
    }
  }

  /** A valid loop has one forward link per node but the last. */
  lemma LinkCount(fwd: map<int, int>, bwd: map<int, int>, first: int, last: int, nodes: seq<int>)
    requires ChainLinks(fwd, bwd, first, last, nodes)
    ensures |fwd| == if nodes == [] then 0 else |nodes| - 1
  {
    if nodes != [] {
      var body := nodes[..|nodes| - 1];
      assert Distinct(body);
      DistinctCard(body);
      assert fwd.Keys == (set x | x in body) by {
        forall x | x in fwd ensures x in body {
          var i := IndexOf(nodes, x);
          assert i < |nodes| - 1;
          assert body[i] == x;
        }
        forall x | x in body ensures x in fwd {
          var i := IndexOf(body, x);
          assert nodes[i] == x;
        }
      }
      assert |fwd| == |fwd.Keys|;
    } else {
      assert forall x :: x in fwd ==> x in nodes;
      assert fwd.Keys == {};
    }
  }

  /** An empty chain has no links. */
  lemma ChainEmpty(fwd: map<int, int>, bwd: map<int, int>, first: int, last: int, nodes: seq<int>)
    requires ChainLinks(fwd, bwd, first, last, nodes) && nodes == []
    ensures fwd == map[] && bwd == map[]
  {
    assert forall x :: x in fwd ==> x in nodes;
    assert forall x :: x in bwd ==> x in nodes;
  }

  /** The first link of a new loop. */
  lemma ChainStart(start: int, end: int)
    requires 0 <= start && 0 <= end && start != end
    ensures ChainLinks(map[start := end], map[end := start], start, end, [start, end])
  {
  }

  // Appending a node behind `last`, component by component.

  lemma KeysAppendForward(fwd: map<int, int>, nodes: seq<int>, last: int, end: int)
    requires KeysOf(fwd, nodes, last) && last in nodes && end !in nodes
    ensures KeysOf(fwd[last := end], nodes + [end], end)
  {
  }

  lemma KeysAppendBackward(bwd: map<int, int>, nodes: seq<int>, first: int, last: int, end: int)
    requires KeysOf(bwd, nodes, first) && first in nodes && end !in nodes
    ensures KeysOf(bwd[end := last], nodes + [end], first)
  {
  }

  lemma ForwardAppend(fwd: map<int, int>, nodes: seq<int>, end: int)
    requires Distinct(nodes) && ForwardLinks(fwd, nodes) && nodes != []
    ensures ForwardLinks(fwd[nodes[|nodes| - 1] := end], nodes + [end])
  {
    var n := nodes + [end];
    var last := nodes[|nodes| - 1];
    forall i | 0 <= i < |n| - 1 ensures n[i] in fwd[last := end] && fwd[last := end][n[i]] == n[i + 1] {
      if i < |nodes| - 1 { assert n[i] == nodes[i] != last; }
    }
  }

  lemma BackwardAppend(bwd: map<int, int>, nodes: seq<int>, end: int)
    requires BackwardLinks(bwd, nodes) && nodes != [] && end !in nodes
    ensures BackwardLinks(bwd[end := nodes[|nodes| - 1]], nodes + [end])
  {
    var n := nodes + [end];
    var b := bwd[end := nodes[|nodes| - 1]];
    forall i | 0 < i < |n| ensures n[i] in b && b[n[i]] == n[i - 1] {
      if i < |nodes| { assert n[i] == nodes[i] && nodes[i] in nodes; }
    }
  }

  /** Appending a fresh node after `last`. */
  lemma ChainAppend(fwd: map<int, int>, bwd: map<int, int>, first: int, last: int, nodes: seq<int>, end: int)
    requires ChainLinks(fwd, bwd, first, last, nodes) && nodes != []
    requires 0 <= end && end !in nodes
    ensures ChainLinks(fwd[last := end], bwd[end := last], first, end, nodes + [end])
  {
    assert nodes[0] in nodes && nodes[|nodes| - 1] in nodes;
    ConcatDistinct(nodes, [end]);
    KeysAppendForward(fwd, nodes, last, end);
    KeysAppendBackward(bwd, nodes, first, last, end);
    ForwardAppend(fwd, nodes, end);
    BackwardAppend(bwd, nodes, end);
  }

  // Removing a node, component by component.

  lemma KeysErase(m: map<int, int>, nodes: seq<int>, skip: int, k: nat)
    requires Distinct(nodes) && KeysOf(m, nodes, skip) && k < |nodes|
    ensures KeysOf(m - {nodes[k]}, Erase(nodes, k), skip)
  {
    EraseDistinct(nodes, k);
  }

  lemma KeysShift(m: map<int, int>, nodes: seq<int>, skip: int, k: nat, newSkip: int)
    requires Distinct(nodes) && KeysOf(m, nodes, skip) && k < |nodes| && nodes[k] == skip
    ensures KeysOf(m - {newSkip}, Erase(nodes, k), newSkip)
  {
    EraseDistinct(nodes, k);
  }

  lemma KeysUpdate(m: map<int, int>, nodes: seq<int>, skip: int, a: int, b: int)
    requires KeysOf(m, nodes, skip) && a in m
    ensures KeysOf(m[a := b], nodes, skip)
  {
  }

  lemma EraseValues(nodes: seq<int>, k: nat)
    requires (forall i :: 0 <= i < |nodes| ==> nodes[i] >= 0) && k < |nodes|
    ensures forall i :: 0 <= i < |Erase(nodes, k)| ==> Erase(nodes, k)[i] >= 0
  {
  }

  lemma ForwardEraseLast(fwd: map<int, int>, nodes: seq<int>)
    requires Distinct(nodes) && ForwardLinks(fwd, nodes) && |nodes| >= 2
    ensures ForwardLinks(fwd - {nodes[|nodes| - 2]}, Erase(nodes, |nodes| - 1))
  {
    var n := Erase(nodes, |nodes| - 1);
    forall i | 0 <= i < |n| - 1 ensures n[i] in fwd - {nodes[|nodes| - 2]} && (fwd - {nodes[|nodes| - 2]})[n[i]] == n[i + 1] {
      assert n[i] == nodes[i] && n[i + 1] == nodes[i + 1];
    }
  }

  lemma BackwardEraseLast(bwd: map<int, int>, nodes: seq<int>)
    requires Distinct(nodes) && BackwardLinks(bwd, nodes) && |nodes| >= 2
    ensures BackwardLinks(bwd - {nodes[|nodes| - 1]}, Erase(nodes, |nodes| - 1))
  {
    var n := Erase(nodes, |nodes| - 1);
    forall i | 0 < i < |n| ensures n[i] in bwd - {nodes[|nodes| - 1]} && (bwd - {nodes[|nodes| - 1]})[n[i]] == n[i - 1] {
      assert n[i] == nodes[i] && n[i - 1] == nodes[i - 1];
    }
  }

  lemma ForwardEraseFirst(fwd: map<int, int>, nodes: seq<int>)
    requires Distinct(nodes) && ForwardLinks(fwd, nodes) && |nodes| >= 2
    ensures ForwardLinks(fwd - {nodes[0]}, Erase(nodes, 0))
  {
    var n := Erase(nodes, 0);
    forall i | 0 <= i < |n| - 1 ensures n[i] in fwd - {nodes[0]} && (fwd - {nodes[0]})[n[i]] == n[i + 1] {
      assert n[i] == nodes[i + 1] && n[i + 1] == nodes[i + 2];
    }
  }

  lemma BackwardEraseFirst(bwd: map<int, int>, nodes: seq<int>)
    requires Distinct(nodes) && BackwardLinks(bwd, nodes) && |nodes| >= 2
    ensures BackwardLinks(bwd - {nodes[1]}, Erase(nodes, 0))
  {
    var n := Erase(nodes, 0);
    forall i | 0 < i < |n| ensures n[i] in bwd - {nodes[1]} && (bwd - {nodes[1]})[n[i]] == n[i - 1] {
      assert n[i] == nodes[i + 1] && n[i - 1] == nodes[i];
    }
  }

  lemma ForwardEraseInner(fwd: map<int, int>, nodes: seq<int>, k: nat)
    requires Distinct(nodes) && ForwardLinks(fwd, nodes) && 0 < k < |nodes| - 1
    ensures ForwardLinks(fwd[nodes[k - 1] := nodes[k + 1]] - {nodes[k]}, Erase(nodes, k))
  {
    var n := Erase(nodes, k);
    var f := fwd[nodes[k - 1] := nodes[k + 1]] - {nodes[k]};
    forall i | 0 <= i < |n| - 1 ensures n[i] in f && f[n[i]] == n[i + 1] {
      if i < k - 1 {
        assert n[i] == nodes[i] && n[i + 1] == nodes[i + 1];
      } else if i == k - 1 {
        assert n[i] == nodes[k - 1] && n[i + 1] == nodes[k + 1];
      } else {
        assert n[i] == nodes[i + 1] && n[i + 1] == nodes[i + 2];
      }
    }
  }

  lemma BackwardEraseInner(bwd: map<int, int>, nodes: seq<int>, k: nat)
    requires Distinct(nodes) && BackwardLinks(bwd, nodes) && 0 < k < |nodes| - 1
    ensures BackwardLinks(bwd[nodes[k + 1] := nodes[k - 1]] - {nodes[k]}, Erase(nodes, k))
  {
    var n := Erase(nodes, k);
    var b := bwd[nodes[k + 1] := nodes[k - 1]] - {nodes[k]};
    forall i | 0 < i < |n| ensures n[i] in b && b[n[i]] == n[i - 1] {
      if i < k {
        assert n[i] == nodes[i] && n[i - 1] == nodes[i - 1];
      } else if i == k {
        assert n[i] == nodes[k + 1] && n[i - 1] == nodes[k - 1];
      } else {
        assert n[i] == nodes[i + 1] && n[i - 1] == nodes[i];
      }
    }
  }

  /** Removing `last`: its predecessor becomes the new `last`. */
  lemma ChainRemoveLast(fwd: map<int, int>, bwd: map<int, int>, first: int, last: int, nodes: seq<int>)
    requires ChainLinks(fwd, bwd, first, last, nodes) && |nodes| >= 2
    ensures bwd[last] == nodes[|nodes| - 2]
    ensures ChainLinks(fwd - {bwd[last]}, bwd - {last}, first, bwd[last], Erase(nodes, |nodes| - 1))
  {
    var m := |nodes| - 1;
    assert bwd[nodes[m]] == nodes[m - 1];
    EraseDistinct(nodes, m);
    EraseValues(nodes, m);
    KeysShift(fwd, nodes, last, m, nodes[m - 1]);
    KeysErase(bwd, nodes, first, m);
    ForwardEraseLast(fwd, nodes);
    BackwardEraseLast(bwd, nodes);
  }

  /** Removing `first`: its successor becomes the new `first`. */
  lemma ChainRemoveFirst(fwd: map<int, int>, bwd: map<int, int>, first: int, last: int, nodes: seq<int>)
    requires ChainLinks(fwd, bwd, first, last, nodes) && |nodes| >= 2
    ensures fwd[first] == nodes[1]
    ensures ChainLinks(fwd - {first}, bwd - {fwd[first]}, fwd[first], last, Erase(nodes, 0))
  {
    assert fwd[nodes[0]] == nodes[1];
    EraseDistinct(nodes, 0);
    EraseValues(nodes, 0);
    KeysErase(fwd, nodes, last, 0);
    KeysShift(bwd, nodes, first, 0, nodes[1]);
    ForwardEraseFirst(fwd, nodes);
    BackwardEraseFirst(bwd, nodes);
  }

  /** Removing an inner node: its two neighbours are linked to each other. */
  lemma ChainRemoveInner(fwd: map<int, int>, bwd: map<int, int>, first: int, last: int, nodes: seq<int>, k: nat)
    requires ChainLinks(fwd, bwd, first, last, nodes) && 0 < k < |nodes| - 1
    ensures var x := nodes[k];
      && bwd[x] == nodes[k - 1] && fwd[x] == nodes[k + 1]
      && ChainLinks(fwd[bwd[x] := fwd[x]] - {x}, bwd[fwd[x] := bwd[x]] - {x}, first, last, Erase(nodes, k))
  {
    assert bwd[nodes[k]] == nodes[k - 1] && fwd[nodes[k]] == nodes[k + 1];
    assert nodes[k - 1] in nodes && nodes[k + 1] in nodes;
    assert nodes[k - 1] != last && nodes[k + 1] != first;
    EraseDistinct(nodes, k);
    EraseValues(nodes, k);
    KeysUpdate(fwd, nodes, last, nodes[k - 1], nodes[k + 1]);
    KeysErase(fwd[nodes[k - 1] := nodes[k + 1]], nodes, last, k);
    KeysUpdate(bwd, nodes, first, nodes[k + 1], nodes[k - 1]);
    KeysErase(bwd[nodes[k + 1] := nodes[k - 1]], nodes, first, k);
    ForwardEraseInner(fwd, nodes, k);
    BackwardEraseInner(bwd, nodes, k);
  }

  /** Two loops whose link maps share no key can share at most their ends:
      the last node of one may be the first node of the other. */
  lemma SharedEnds(f1: map<int, int>, b1: map<int, int>, fi1: int, la1: int, n1: seq<int>,
                   f2: map<int, int>, b2: map<int, int>, fi2: int, la2: int, n2: seq<int>)
    requires ChainLinks(f1, b1, fi1, la1, n1) && |n1| >= 2
    requires ChainLinks(f2, b2, fi2, la2, n2) && |n2| >= 2
    requires f1.Keys !! f2.Keys && b1.Keys !! b2.Keys
    ensures forall x :: x in n1 && x in n2 ==> (x == la1 && x == fi2) || (x == la2 && x == fi1)
  {
    assert fi1 != la1 by { assert n1[0] != n1[|n1| - 1]; }
    assert fi2 != la2 by { assert n2[0] != n2[|n2| - 1]; }
    forall x | x in n1 && x in n2 ensures (x == la1 && x == fi2) || (x == la2 && x == fi1) {
      if x != la1 && x != la2 { assert false; }
      if x != fi1 && x != fi2 { assert false; }
    }
  }

  // Joining two disjoint chains with a new link, component by component.

  lemma JoinKeys(f1: map<int, int>, b1: map<int, int>, fi1: int, la1: int, n1: seq<int>,
                 f2: map<int, int>, b2: map<int, int>, fi2: int, la2: int, n2: seq<int>)
    requires KeysOf(f1, n1, la1) && KeysOf(b1, n1, fi1) && la1 in n1 && fi1 in n1
    requires KeysOf(f2, n2, la2) && KeysOf(b2, n2, fi2) && la2 in n2 && fi2 in n2
    requires forall x :: x in n1 ==> x !in n2
    ensures KeysOf((f1 + f2)[la1 := fi2], n1 + n2, la2)
    ensures KeysOf((b1 + b2)[fi2 := la1], n1 + n2, fi1)
  {
    forall x ensures x in (f1 + f2)[la1 := fi2] <==> x in n1 + n2 && x != la2 {
      if x in n1 { assert x !in n2; }
    }
    forall x ensures x in (b1 + b2)[fi2 := la1] <==> x in n1 + n2 && x != fi1 {
      if x in n2 { assert x !in n1; }
    }
  }

  lemma JoinForward(f1: map<int, int>, n1: seq<int>, f2: map<int, int>, la2: int, n2: seq<int>)
    requires Distinct(n1) && ForwardLinks(f1, n1) && n1 != []
    requires KeysOf(f2, n2, la2) && ForwardLinks(f2, n2) && n2 != []
    requires forall x :: x in n1 ==> x !in n2
    ensures ForwardLinks((f1 + f2)[n1[|n1| - 1] := n2[0]], n1 + n2)
  {
    var n := n1 + n2;
    var c := |n1|;
    var la1 := n1[c - 1];
    var f := (f1 + f2)[la1 := n2[0]];
    forall i | 0 <= i < |n| - 1 ensures n[i] in f && f[n[i]] == n[i + 1] {
      if i < c - 1 {
        assert n[i] == n1[i] && n[i + 1] == n1[i + 1] && n1[i] in n1;
        assert n1[i] != la1 && n1[i] !in f2;
      } else if i >= c {
        assert n[i] == n2[i - c] && n[i + 1] == n2[i - c + 1] && n2[i - c] in n2 && la1 in n1;
      }
    }
  }

  lemma JoinBackward(b1: map<int, int>, n1: seq<int>, b2: map<int, int>, fi2: int, n2: seq<int>)
    requires BackwardLinks(b1, n1) && n1 != []
    requires Distinct(n2) && KeysOf(b2, n2, fi2) && BackwardLinks(b2, n2) && n2 != [] && fi2 == n2[0]
    requires forall x :: x in n1 ==> x !in n2
    ensures BackwardLinks((b1 + b2)[fi2 := n1[|n1| - 1]], n1 + n2)
  {
    var n := n1 + n2;
    var c := |n1|;
    var b := (b1 + b2)[fi2 := n1[c - 1]];
    forall i | 0 < i < |n| ensures n[i] in b && b[n[i]] == n[i - 1] {
      if i < c {
        assert n[i] == n1[i] && n[i - 1] == n1[i - 1] && n1[i] in n1 && fi2 in n2;
        assert n1[i] !in b2;
      } else if i > c {
        assert n[i] == n2[i - c] && n[i - 1] == n2[i - c - 1] && n2[i - c] != n2[0];
      }
    }
  }

  /** Gluing chain 2 behind chain 1 with a new link `la1 -> fi2`. */
  lemma ChainJoin(f1: map<int, int>, b1: map<int, int>, fi1: int, la1: int, n1: seq<int>,
                  f2: map<int, int>, b2: map<int, int>, fi2: int, la2: int, n2: seq<int>)
    requires ChainLinks(f1, b1, fi1, la1, n1) && n1 != []
    requires ChainLinks(f2, b2, fi2, la2, n2) && n2 != []
    requires forall x :: x in n1 ==> x !in n2
    ensures ChainLinks((f1 + f2)[la1 := fi2], (b1 + b2)[fi2 := la1], fi1, la2, n1 + n2)
  {
    assert n1[0] in n1 && n1[|n1| - 1] in n1 && n2[0] in n2 && n2[|n2| - 1] in n2;
    ConcatDistinct(n1, n2);
    JoinKeys(f1, b1, fi1, la1, n1, f2, b2, fi2, la2, n2);
    JoinForward(f1, n1, f2, la2, n2);
    JoinBackward(b1, n1, b2, fi2, n2);
  }

  lemma FuseMaps(m1: map<int, int>, m2: map<int, int>, a: int, b: int)
    requires a !in m1 && a in m2 && m2[a] == b
    ensures (m1 + (m2 - {a}))[a := b] == m1 + m2
  {
  }

  /** Dropping a key of the second map before the union and an update of
      another key is dropping it after them. */
  lemma DropThenSet(m1: map<int, int>, m2: map<int, int>, x: int, k: int, v: int)
    requires x !in m1 && x != k
    ensures (m1 + (m2 - {x}))[k := v] == (m1 + m2)[k := v] - {x}
  {
    var l, r := (m1 + (m2 - {x}))[k := v], (m1 + m2)[k := v] - {x};
    forall y ensures (y in l <==> y in r) && (y in l ==> l[y] == r[y]) {
    }
    assert l.Keys == r.Keys;
  }

  /** Gluing chain 2 behind chain 1 where they share the node `la1 == fi2`. */
  lemma ChainFuse(f1: map<int, int>, b1: map<int, int>, fi1: int, la1: int, n1: seq<int>,
                  f2: map<int, int>, b2: map<int, int>, fi2: int, la2: int, n2: seq<int>)
    requires ChainLinks(f1, b1, fi1, la1, n1) && |n1| >= 2
    requires ChainLinks(f2, b2, fi2, la2, n2) && |n2| >= 2
    requires la1 == fi2
    requires forall x :: x in n1 && x in n2 ==> x == la1
    ensures ChainLinks(f1 + f2, b1 + b2, fi1, la2, n1 + n2[1..])
  {
    var second := n2[1];
    ChainRemoveFirst(f2, b2, fi2, la2, n2);
    EraseDistinct(n2, 0);
    assert Erase(n2, 0) == n2[1..];
    assert second !in n1 by { assert second in n2 && second != n2[0]; }
    ChainJoin(f1, b1, fi1, la1, n1, f2 - {fi2}, b2 - {second}, second, la2, n2[1..]);
    assert la1 in n1 && second in n2;
    assert la1 !in f1 && second !in b1 && f2[fi2] == second && b2[second] == la1;
    FuseMaps(f1, f2, la1, second);
    FuseMaps(b1, b2, second, la1);
  }

  /** Closing two chains into a cycle: chain 2 ends at the node `s` where
      chain 1 starts, and chain 2 is glued behind chain 1 by a link from
      its last node (or at a node the two share). The links then run round
      a cycle through `s`; opened just before `s`, they link the chain from
      `s` round to its predecessor. */
  lemma ChainClose(f1: map<int, int>, b1: map<int, int>, n1: seq<int>,
                   f2: map<int, int>, b2: map<int, int>, n2: seq<int>)
    requires |n1| >= 2 && ChainLinks(f1, b1, n1[0], n1[|n1| - 1], n1)
    requires |n2| >= 2 && ChainLinks(f2, b2, n2[0], n2[|n2| - 1], n2)
    requires f1.Keys !! f2.Keys && b1.Keys !! b2.Keys && n2[|n2| - 1] == n1[0]
    ensures var s, l1, h2 := n1[0], n1[|n1| - 1], n2[0];
      var f := if l1 == h2 then f1 + f2 else (f1 + f2)[l1 := h2];
      var b := if l1 == h2 then b1 + b2 else (b1 + b2)[h2 := l1];
      var c := if l1 == h2 then n1 + n2[1..] else n1 + n2;
      && |c| >= 3 && c[|c| - 1] == s
      && s in b && b[s] == n2[|n2| - 2]
      && ChainLinks(f - {b[s]}, b - {s}, s, b[s], c[..|c| - 1])
  {
    var s, l1, h2, l2 := n1[0], n1[|n1| - 1], n2[0], n2[|n2| - 1];
    var m := |n2| - 1;
    var p := n2[m - 1];
    assert s != l1 && h2 != l2;
    SharedEnds(f1, b1, s, l1, n1, f2, b2, h2, l2, n2);
    ChainRemoveLast(f2, b2, h2, l2, n2);
    EraseDistinct(n2, m);
    var rest := n2[..m];
    assert Erase(n2, m) == rest;
    assert p in n2 && p != l2 && p in rest;
    assert p in f1 ==> p in n1;
    assert p in n1 ==> p == l1;
    assert l1 in n1 && l1 !in f1;
    assert s !in b1 && s in b2 && b2[s] == p;
    if l1 != h2 {
      ChainCloseApart(f1, b1, n1, f2, b2, n2, rest);
    } else if m == 1 {
      ChainCloseShort(f1, b1, n1, f2, b2, n2);
    } else {
      ChainCloseFused(f1, b1, n1, f2, b2, n2, rest);
    }
  }

  /** `ChainClose` with a new seam link. */
  lemma ChainCloseApart(f1: map<int, int>, b1: map<int, int>, n1: seq<int>,
                        f2: map<int, int>, b2: map<int, int>, n2: seq<int>, rest: seq<int>)
    requires |n1| >= 2 && ChainLinks(f1, b1, n1[0], n1[|n1| - 1], n1)
    requires |n2| >= 2 && n2[|n2| - 1] == n1[0] && rest == n2[..|n2| - 1]
    requires ChainLinks(f2 - {n2[|n2| - 2]}, b2 - {n1[0]}, n2[0], n2[|n2| - 2], rest)
    requires n2[|n2| - 2] !in f1 && n1[0] !in b1 && n1[0] in b2 && b2[n1[0]] == n2[|n2| - 2]
    requires n1[|n1| - 1] != n2[0] && forall x :: x in n1 && x in n2 ==> x == n1[0]
    requires forall x :: x in rest <==> x in n2 && x != n1[0]
    ensures var s, l1, h2 := n1[0], n1[|n1| - 1], n2[0];
      var b := (b1 + b2)[h2 := l1];
      && s in b && b[s] == n2[|n2| - 2]
      && ChainLinks((f1 + f2)[l1 := h2] - {b[s]}, b - {s}, s, b[s], (n1 + n2)[..|n1| + |n2| - 1])
  {
    var s, l1, h2, p := n1[0], n1[|n1| - 1], n2[0], n2[|n2| - 2];
    ChainJoin(f1, b1, s, l1, n1, f2 - {p}, b2 - {s}, h2, p, rest);
    assert p in rest && p in n2 && l1 in n1 && p != s;
    assert p != l1;
    assert rest[0] == h2 && h2 in rest && h2 != s;
    DropThenSet(f1, f2, p, l1, h2);
    DropThenSet(b1, b2, s, h2, l1);
    var c := n1 + n2;
    assert forall k :: 0 <= k < |n1| + |n2| - 1 ==> c[k] == (n1 + rest)[k];
    assert c[..|n1| + |n2| - 1] == n1 + rest;
  }

  /** `ChainClose` when chain 2 is just the seam node and `s`. */
  lemma ChainCloseShort(f1: map<int, int>, b1: map<int, int>, n1: seq<int>,
                        f2: map<int, int>, b2: map<int, int>, n2: seq<int>)
    requires |n1| >= 2 && ChainLinks(f1, b1, n1[0], n1[|n1| - 1], n1)
    requires |n2| == 2 && ChainLinks(f2, b2, n2[0], n2[1], n2)
    requires n2[1] == n1[0] && n1[|n1| - 1] == n2[0]
    ensures var s, p := n1[0], n2[0];
      && s in b1 + b2 && (b1 + b2)[s] == p
      && ChainLinks(f1 + f2 - {p}, b1 + b2 - {s}, s, p, (n1 + n2[1..])[..|n1|])
  {
    var s, p := n1[0], n2[0];
    assert n2[0] in n2 && n2[1] in n2;
    assert forall x :: x in n2 ==> x == p || x == s by {
      forall x | x in n2 ensures x == p || x == s {
        var k :| 0 <= k < |n2| && n2[k] == x;
      }
    }
    assert forall x :: x in f2 <==> x == p by {
      forall x ensures x in f2 <==> x == p {
        if x in f2 { assert x in n2; }
        if x == p { assert x in n2; }
      }
    }
    assert forall x :: x in b2 <==> x == s by {
      forall x ensures x in b2 <==> x == s {
        if x in b2 { assert x in n2; }
        if x == s { assert x in n2; }
      }
    }
    assert n1[0] in n1 && n1[|n1| - 1] in n1;
    assert p !in f1 && s !in b1;
    assert forall x :: x in f1 + f2 - {p} <==> x in f1;
    assert forall x :: x in f1 ==> (f1 + f2 - {p})[x] == f1[x];
    assert f1 + f2 - {p} == f1;
    assert forall x :: x in b1 + b2 - {s} <==> x in b1;
    assert forall x :: x in b1 ==> (b1 + b2 - {s})[x] == b1[x];
    assert b1 + b2 - {s} == b1;
    assert (n1 + n2[1..])[..|n1|] == n1;
  }

  /** `ChainClose` when the seam is a node both chains hold. */
  lemma ChainCloseFused(f1: map<int, int>, b1: map<int, int>, n1: seq<int>,
                        f2: map<int, int>, b2: map<int, int>, n2: seq<int>, rest: seq<int>)
    requires |n1| >= 2 && ChainLinks(f1, b1, n1[0], n1[|n1| - 1], n1)
    requires |n2| >= 3 && n2[|n2| - 1] == n1[0] && rest == n2[..|n2| - 1]
    requires ChainLinks(f2 - {n2[|n2| - 2]}, b2 - {n1[0]}, n2[0], n2[|n2| - 2], rest)
    requires n2[|n2| - 2] !in f1 && n1[0] !in b1 && n1[0] in b2 && b2[n1[0]] == n2[|n2| - 2]
    requires n1[|n1| - 1] == n2[0] && forall x :: x in n1 && x in n2 ==> x == n1[0] || x == n2[0]
    requires forall x :: x in rest <==> x in n2 && x != n1[0]
    ensures var s, p := n1[0], n2[|n2| - 2];
      && s in b1 + b2 && (b1 + b2)[s] == p
      && ChainLinks(f1 + f2 - {p}, b1 + b2 - {s}, s, p, (n1 + n2[1..])[..|n1| + |n2| - 2])
  {
    var s, l1, p := n1[0], n1[|n1| - 1], n2[|n2| - 2];
    assert forall x :: x in n1 && x in rest ==> x == l1;
    ChainFuse(f1, b1, s, l1, n1, f2 - {p}, b2 - {s}, n2[0], p, rest);
    assert f1 + (f2 - {p}) == f1 + f2 - {p};
    assert b1 + (b2 - {s}) == b1 + b2 - {s};
    assert (n1 + n2[1..])[..|n1| + |n2| - 2] == n1 + rest[1..];
  }

  /** The loop object. `Nodes` is its abstract value: the chain of indices
      from `first` to `last`, which `Next` and `Prev` close into a cycle. */
  class Loop {
    var forwardLinks: map<int, int>
    var backwardLinks: map<int, int>
    var first: int
    var last: int
    ghost var Nodes: seq<int>

    ghost predicate Valid()
      reads this
    {
      ChainLinks(forwardLinks, backwardLinks, first, last, Nodes)
    }

    /** A new loop is empty, with both ends at the sentinel -1. */
    constructor ()
      ensures Valid() && Nodes == []
      ensures first == -1 && last == -1 && forwardLinks == map[] && backwardLinks == map[]
    {
      forwardLinks := map[];
      backwardLinks := map[];
      first := -1;
      last := -1;
      Nodes := [];
    }

    /** A loop over given link maps and ends, taken as they are; it is a
        valid loop over `nodes` exactly when the maps link that chain. */
    constructor FromLinks(forwardLinks: map<int, int>, backwardLinks: map<int, int>, first: int, last: int, ghost nodes: seq<int>)
      ensures this.first == first && this.last == last
      ensures this.forwardLinks == forwardLinks && this.backwardLinks == backwardLinks
      ensures Nodes == nodes
      ensures Valid() <==> ChainLinks(forwardLinks, backwardLinks, first, last, nodes)
    {
      this.forwardLinks := forwardLinks;
      this.backwardLinks := backwardLinks;
      this.first := first;
      this.last := last;
      Nodes := nodes;
    }

    /** The successor of `index` on the cycle; `last` wraps around to `first`. */
    function Next(index: int): (r: int)
      reads this
      requires Valid() && index in Nodes
      ensures r == Nodes[NextPos(IndexOf(Nodes, index), |Nodes|)]
    {
      IndexOfDistinct(Nodes, |Nodes| - 1);
      if index == last then first
      else
        var k := IndexOf(Nodes, index);
        assert k < |Nodes| - 1 && Nodes[k] == index;
        assert forwardLinks[index] == Nodes[k + 1];
        forwardLinks[index]
    }

    /** The predecessor of `index` on the cycle; `first` wraps around to `last`. */
    function Prev(index: int): (r: int)
      reads this
      requires Valid() && index in Nodes
      ensures r == Nodes[PrevPos(IndexOf(Nodes, index), |Nodes|)]
    {
      IndexOfDistinct(Nodes, 0);
      if index == first then last
      else
        var k := IndexOf(Nodes, index);
        assert 0 < k && Nodes[k] == index;
        assert backwardLinks[index] == Nodes[k - 1];
        backwardLinks[index]
    }

    /** Adds the link `start -> end` to both maps. An end that has no
        outgoing link becomes `last`, a start with no incoming link becomes
        `first`. On a valid loop this starts the chain or extends it at
        `last`. */
    method AddLink(start: int, end: int)
      requires start !in forwardLinks && end !in backwardLinks
      modifies this
      ensures forwardLinks == old(forwardLinks)[start := end]
      ensures backwardLinks == old(backwardLinks)[end := start]
      ensures last == if end in forwardLinks then old(last) else end
      ensures first == if start in backwardLinks then old(first) else start
      ensures old(Valid()) && old(Nodes) == [] && 0 <= start && 0 <= end && start != end ==>
                Valid() && Nodes == [start, end]
      ensures old(Valid()) && old(Nodes) != [] && start == old(last) && 0 <= end && end !in old(Nodes) ==>
                Valid() && Nodes == old(Nodes) + [end]
    {
      ghost var wasValid, nodes := Valid(), Nodes;
      ghost var f, b, fi, la := forwardLinks, backwardLinks, first, last;
      forwardLinks := forwardLinks[start := end];
      backwardLinks := backwardLinks[end := start];
      if end !in forwardLinks { last := end; }
      if start !in backwardLinks { first := start; }
      if wasValid && nodes == [] && 0 <= start && 0 <= end && start != end {
        ChainEmpty(f, b, fi, la, nodes);
        ChainStart(start, end);
        Nodes := [start, end];
      } else if wasValid && nodes != [] && start == la && 0 <= end && end !in nodes {
        ChainAppend(f, b, fi, la, nodes, end);
        Nodes := nodes + [end];
      }
    }

    /** Replaces the `last` node by `newLast`, relinking its predecessor. */
    method SetLast(newLast: int)
      requires Valid() && |Nodes| >= 2 && 0 <= newLast && newLast !in Nodes
      modifies this
      ensures Valid()
      ensures Nodes == old(Nodes[..|Nodes| - 1]) + [newLast]
      ensures first == old(first) && last == newLast
    {
      ghost var nodes, m := Nodes, |Nodes| - 1;
      ghost var p := backwardLinks[last];
      ChainRemoveLast(forwardLinks, backwardLinks, first, last, nodes);
      EraseDistinct(nodes, m);
      ChainAppend(forwardLinks - {p}, backwardLinks - {last}, first, p, Erase(nodes, m), newLast);
      assert Erase(nodes, m) == nodes[..m];
      assert (forwardLinks - {p})[p := newLast] == forwardLinks[p := newLast];
      assert (backwardLinks - {last})[newLast := p] == backwardLinks[newLast := p] - {last} by {
        assert newLast != last;
      }
      forwardLinks := forwardLinks[backwardLinks[last] := newLast];
      backwardLinks := backwardLinks[newLast := backwardLinks[last]] - {last};
      last := newLast;
      Nodes := nodes[..m] + [newLast];
    }

    /** Removes `index` from the cycle: its neighbours become adjacent, and an
        end that is removed moves to its neighbour. */
    method RemoveLink(index: int)
      requires Valid() && index in Nodes && |Nodes| >= 2
      modifies this
      ensures Valid()
      ensures Nodes == Erase(old(Nodes), IndexOf(old(Nodes), index))
    {
      ghost var nodes := Nodes;
      ghost var k := IndexOf(nodes, index);
      IndexOfDistinct(nodes, 0);
      IndexOfDistinct(nodes, |nodes| - 1);
      if index == last {
        ChainRemoveLast(forwardLinks, backwardLinks, first, last, nodes);
        forwardLinks := forwardLinks - {backwardLinks[index]};
        last := backwardLinks[index];
        backwardLinks := backwardLinks - {index};
      } else if index == first {
        ChainRemoveFirst(forwardLinks, backwardLinks, first, last, nodes);
        backwardLinks := backwardLinks - {forwardLinks[index]};
        first := forwardLinks[index];
        forwardLinks := forwardLinks - {index};
      } else {
        ChainRemoveInner(forwardLinks, backwardLinks, first, last, nodes, k);
        forwardLinks := forwardLinks[backwardLinks[index] := forwardLinks[index]];
        backwardLinks := backwardLinks[forwardLinks[index] := backwardLinks[index]];
        forwardLinks := forwardLinks - {index};
        backwardLinks := backwardLinks - {index};
      }
      Nodes := Erase(nodes, k);
    }

    /** The nodes of the cycle from `first` to `last`; an empty loop yields [-1]. */
    method ToList() returns (result: seq<int>)
      requires Valid()
      ensures result == if Nodes == [] then [-1] else Nodes
    {
      result := [];
      var index := first;
      while index != last
        invariant Nodes != [] ==> |result| < |Nodes| && index == Nodes[|result|] && result == Nodes[..|result|]
        invariant Nodes == [] ==> result == [] && index == -1
        decreases |Nodes| - |result|
      {
        IndexOfDistinct(Nodes, |result|);
        result := result + [index];
        index := Next(index);
      }
      result := result + [index];
    }

    /** Empties both maps and resets both ends to the sentinel -1. */
    method Clear()
      modifies this
      ensures Valid() && Nodes == [] && first == -1 && last == -1
    {
      forwardLinks := map[];
      backwardLinks := map[];
      first := -1;
      last := -1;
      Nodes := [];
    }
  }

  /** `Next(last) == first` and `Prev(first) == last`. */
  lemma CycleCloses(loop: Loop)
    requires loop.Valid() && loop.Nodes != []
    ensures loop.Next(loop.last) == loop.first && loop.Prev(loop.first) == loop.last
  {
    IndexOfDistinct(loop.Nodes, 0);
    IndexOfDistinct(loop.Nodes, |loop.Nodes| - 1);
  }

  /** `Next` and `Prev` undo each other on every node of a valid loop. */
  lemma NextPrevInverse(loop: Loop, x: int)
    requires loop.Valid() && x in loop.Nodes
    ensures loop.Next(loop.Prev(x)) == x && loop.Prev(loop.Next(x)) == x
  {
    var n := loop.Nodes;
    var k := IndexOf(n, x);
    IndexOfDistinct(n, PrevPos(k, |n|));
    IndexOfDistinct(n, NextPos(k, |n|));
  }
}
