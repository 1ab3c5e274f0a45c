/** Costed edges, paths made of them, and the cost-ordered frontier of
    partial paths that both search variants keep (`SimpleEdge`, `pathLength`,
    `lastNodeInPath`, `pushPath`). */
module Paths {

  /** One action: a directed, costed step between two states. */
  datatype Edge<N> = Edge(from: N, to: N, cost: real)

  /** Sum of the edge costs, accumulated left to right like `reduce`.
      The source's `reduce` has no initial value and throws on an empty
      path; every path the searches measure is non-empty, and the empty
      path is given length 0 here. */
  function PathLength<N>(path: seq<Edge<N>>): real
  {
    if |path| == 0 then 0.0 else PathLength(path[..|path| - 1]) + path[|path| - 1].cost
  }

  /** The destination of the final edge. */
  function LastNodeInPath<N>(path: seq<Edge<N>>): N
    requires |path| > 0
  {
    path[|path| - 1].to
  }

  /** The state a path from `start` reaches: `start` itself for no edges. */
  function End<N>(start: N, path: seq<Edge<N>>): N
  {
    if |path| == 0 then start else LastNodeInPath(path)
  }

  /** The state the `i`-th edge of a path from `start` leaves from. */
  function NodeAt<N>(start: N, path: seq<Edge<N>>, i: nat): N
    requires i <= |path|
  {
    if i == 0 then start else path[i - 1].to
  }

  /** `path` is a walk from `start` in the graph whose outgoing edges are
      given by `edges`: every edge is one of the edges of the state the
      previous edge reached. */
  ghost predicate IsPathFrom<N>(edges: N -> seq<Edge<N>>, start: N, path: seq<Edge<N>>)
  {
    forall i :: 0 <= i < |path| ==> path[i] in edges(NodeAt(start, path, i))
  }

  /** Every edge listed for a state leaves that state (edges are created by
      `addEdge` on the state they leave). */
  ghost predicate EdgesFromSelf<N(!new)>(edges: N -> seq<Edge<N>>)
  {
    forall n, e :: e in edges(n) ==> e.from == n
  }

  /** Each edge starts where the previous one ended, the first at `start`. */
  ghost predicate Chained<N>(start: N, path: seq<Edge<N>>)
  {
    && (|path| > 0 ==> path[0].from == start)
    && (forall i :: 0 < i < |path| ==> path[i].from == path[i - 1].to)
  }

  ghost predicate NonNegativeCosts<N(!new)>(edges: N -> seq<Edge<N>>)
  {
    forall n, e :: e in edges(n) ==> e.cost >= 0.0
  }

  /** Appending an edge adds exactly its cost. */
  lemma PathLengthAppend<N>(path: seq<Edge<N>>, e: Edge<N>)
    ensures PathLength(path + [e]) == PathLength(path) + e.cost
  {
    assert (path + [e])[..|path|] == path;
  }

  /** The length of a concatenation is the sum of the lengths. */
  lemma {:induction false} PathLengthConcat<N>(p: seq<Edge<N>>, q: seq<Edge<N>>)
    ensures PathLength(p + q) == PathLength(p) + PathLength(q)
    decreases |q|
  {
    if |q| == 0 {
      assert p + q == p;
    } else {
      var q' := q[..|q| - 1];
      assert p + q == (p + q') + [q[|q| - 1]];
      PathLengthAppend(p + q', q[|q| - 1]);
      PathLengthConcat(p, q');
      PathLengthAppend(q', q[|q| - 1]);
      assert q' + [q[|q| - 1]] == q;
    }
  }

  /** The cost of edges that each cost at least zero is at least zero. */
  lemma {:induction false} PathLengthNonNegative<N>(path: seq<Edge<N>>)
    requires forall i :: 0 <= i < |path| ==> path[i].cost >= 0.0
    ensures PathLength(path) >= 0.0
    decreases |path|
  {
    if |path| > 0 {
      PathLengthNonNegative(path[..|path| - 1]);
    }
  }

  /** A path of unit-cost edges is as long as it has edges. */
  lemma {:induction false} PathLengthUnitCosts<N>(path: seq<Edge<N>>)
    requires forall i :: 0 <= i < |path| ==> path[i].cost == 1.0
    ensures PathLength(path) == |path| as real
    decreases |path|
  {
    if |path| > 0 {
      PathLengthUnitCosts(path[..|path| - 1]);
    }
  }

  /** With non-negative costs, a prefix never costs more than the path. */
  lemma PathLengthPrefix<N(!new)>(edges: N -> seq<Edge<N>>, start: N, path: seq<Edge<N>>, k: nat)
    requires NonNegativeCosts(edges)
    requires IsPathFrom(edges, start, path)
    requires k <= |path|
    ensures 0.0 <= PathLength(path[..k]) <= PathLength(path)
  {
    forall i | 0 <= i < |path|
      ensures path[i].cost >= 0.0
    {
      assert path[i] in edges(NodeAt(start, path, i));
    }
    assert path == path[..k] + path[k..];
    PathLengthConcat(path[..k], path[k..]);
    PathLengthNonNegative(path[..k]);
    PathLengthNonNegative(path[k..]);
  }

  /** A prefix of a path is a path. */
  lemma PrefixIsPath<N>(edges: N -> seq<Edge<N>>, start: N, path: seq<Edge<N>>, k: nat)
    requires IsPathFrom(edges, start, path)
    requires k <= |path|
    ensures IsPathFrom(edges, start, path[..k])
  {
    forall i | 0 <= i < k
      ensures path[..k][i] in edges(NodeAt(start, path[..k], i))
    {
      assert path[..k][i] == path[i];
      assert NodeAt(start, path[..k], i) == NodeAt(start, path, i);
    }
  }

  /** Extending a path with an edge of the state it reaches gives a path. */
  lemma ExtendIsPath<N>(edges: N -> seq<Edge<N>>, start: N, path: seq<Edge<N>>, e: Edge<N>)
    requires IsPathFrom(edges, start, path)
    requires e in edges(End(start, path))
    ensures IsPathFrom(edges, start, path + [e])
    ensures End(start, path + [e]) == e.to
  {
    var p := path + [e];
    forall i | 0 <= i < |p|
      ensures p[i] in edges(NodeAt(start, p, i))
    {
      if i < |path| {
        assert NodeAt(start, p, i) == NodeAt(start, path, i);
      } else {
        assert NodeAt(start, p, i) == End(start, path);
      }
    }
  }

  /** When every edge leaves the state it is listed for, a path is a chain:
      it starts at `start` and each edge starts where the previous ended. */
  lemma PathIsChained<N(!new)>(edges: N -> seq<Edge<N>>, start: N, path: seq<Edge<N>>)
    requires EdgesFromSelf(edges)
    requires IsPathFrom(edges, start, path)
    ensures Chained(start, path)
  {
    if |path| > 0 {
      assert path[0] in edges(NodeAt(start, path, 0));
    }
    forall i | 0 < i < |path|
      ensures path[i].from == path[i - 1].to
    {
      assert path[i] in edges(NodeAt(start, path, i));
    }
  }

  /** A non-empty path is a shorter path followed by one edge of the state
      that shorter path reaches. */
  lemma LastEdge<N>(edges: N -> seq<Edge<N>>, start: N, path: seq<Edge<N>>)
    requires IsPathFrom(edges, start, path)
    requires |path| > 0
    ensures IsPathFrom(edges, start, path[..|path| - 1])
    ensures path[|path| - 1] in edges(End(start, path[..|path| - 1]))
    ensures End(start, path) == path[|path| - 1].to
    ensures path == path[..|path| - 1] + [path[|path| - 1]]
  {
    var k := |path| - 1;
    PrefixIsPath(edges, start, path, k);
    if k > 0 {
      assert path[..k][k - 1] == path[k - 1];
    }
    assert End(start, path[..k]) == NodeAt(start, path, k);
    assert path[k] in edges(NodeAt(start, path, k));
    assert path == path[..k] + [path[k]];
  }

  /** A property of states that every edge carries from its source to its
      target holds all along a path from a state that has it. */
  lemma {:induction false} InvariantAlongPath<N(!new)>(edges: N -> seq<Edge<N>>, inv: N -> bool, start: N,
                                                      path: seq<Edge<N>>)
    requires inv(start)
    requires forall n, e :: inv(n) && e in edges(n) ==> inv(e.to)
    requires IsPathFrom(edges, start, path)
    ensures forall i :: 0 <= i <= |path| ==> inv(NodeAt(start, path, i))
    ensures inv(End(start, path))
    decreases |path|
  {
    if |path| > 0 {
      var k := |path| - 1;
      PrefixIsPath(edges, start, path, k);
      InvariantAlongPath(edges, inv, start, path[..k]);
      assert forall i :: 0 <= i <= k ==> NodeAt(start, path[..k], i) == NodeAt(start, path, i);
      assert path[k] in edges(NodeAt(start, path, k));
    }
  }

  /** A potential `d` that no edge can raise by more than its cost, on the
      states where `inv` holds, bounds the cost of every path from below:
      reaching a state costs at least the rise in potential. */
  lemma {:induction false} PotentialBound<N(!new)>(edges: N -> seq<Edge<N>>, inv: N -> bool, d: N -> real, start: N,
                                                  path: seq<Edge<N>>)
    requires inv(start)
    requires forall n, e :: inv(n) && e in edges(n) ==> inv(e.to) && d(e.to) <= d(n) + e.cost
    requires IsPathFrom(edges, start, path)
    ensures inv(End(start, path))
    ensures d(End(start, path)) <= d(start) + PathLength(path)
    decreases |path|
  {
    if |path| > 0 {
      var k := |path| - 1;
      PrefixIsPath(edges, start, path, k);
      PotentialBound(edges, inv, d, start, path[..k]);
      assert End(start, path[..k]) == NodeAt(start, path, k);
      assert path[k] in edges(NodeAt(start, path, k));
    }
  }

  // ---------------------------------------------------------------------
  // The frontier: partial paths ordered by length.

  ghost predicate SortedByLength<N>(frontier: seq<seq<Edge<N>>>)
  {
    forall i, j :: 0 <= i < j < |frontier| ==> PathLength(frontier[i]) <= PathLength(frontier[j])
  }

  /** Stable insertion of `p`: it goes after every entry at the back that is
      not longer than it. */
  function Insert<N>(frontier: seq<seq<Edge<N>>>, p: seq<Edge<N>>): (r: seq<seq<Edge<N>>>)
    ensures |r| == |frontier| + 1
    decreases |frontier|
  {
    if |frontier| == 0 then [p]
    else if PathLength(frontier[|frontier| - 1]) <= PathLength(p) then frontier + [p]
    else Insert(frontier[..|frontier| - 1], p) + [frontier[|frontier| - 1]]
  }

  /** Where `Insert` puts the new path: after a block of entries whose last
      is not longer than it, before a block of entries all strictly longer. */
  ghost predicate InsertedAt<N>(frontier: seq<seq<Edge<N>>>, p: seq<Edge<N>>, r: seq<seq<Edge<N>>>, k: int)
  {
    && 0 <= k <= |frontier|
    && r == frontier[..k] + [p] + frontier[k..]
    && (forall i :: k <= i < |frontier| ==> PathLength(p) < PathLength(frontier[i]))
    && (k > 0 ==> PathLength(frontier[k - 1]) <= PathLength(p))
  }

  lemma {:induction false} InsertPosition<N>(frontier: seq<seq<Edge<N>>>, p: seq<Edge<N>>) returns (k: int)
    ensures InsertedAt(frontier, p, Insert(frontier, p), k)
    decreases |frontier|
  {
    if |frontier| == 0 {
      k := 0;
      assert [p] == frontier[..0] + [p] + frontier[0..];
    } else if PathLength(frontier[|frontier| - 1]) <= PathLength(p) {
      k := |frontier|;
      assert frontier + [p] == frontier[..|frontier|] + [p] + frontier[|frontier|..];
    } else {
      var init := frontier[..|frontier| - 1];
      var r' := Insert(init, p);
      k := InsertPosition(init, p);
      assert r' + [frontier[|frontier| - 1]] == frontier[..k] + [p] + frontier[k..] by {
        assert init[..k] == frontier[..k];
        assert init[k..] + [frontier[|frontier| - 1]] == frontier[k..];
      }
      forall i | k <= i < |frontier|
        ensures PathLength(p) < PathLength(frontier[i])
      {
        if i < |init| {
          assert frontier[i] == init[i];
        }
      }
      if k > 0 {
        assert frontier[k - 1] == init[k - 1];
      }
    }
  }

  /** A stable sort of paths by length, built from insertions; Javascript's
      `Array.prototype.sort` is stable, so this is the order `sort` with
      the comparator `pathLength(a) - pathLength(b)` produces. */
  function StableSortByLength<N>(s: seq<seq<Edge<N>>>): (r: seq<seq<Edge<N>>>)
    ensures SortedByLength(r)
    ensures multiset(r) == multiset(s)
  {
    if |s| == 0 then []
    else
      var init := s[..|s| - 1];
      assert s == init + [s[|s| - 1]];
      InsertSorted(StableSortByLength(init), s[|s| - 1]);
      Insert(StableSortByLength(init), s[|s| - 1])
  }

  /** `pushPath`: append the new path, then sort the frontier by length.
      The result is sorted and holds the earlier entries and the new path;
      on a sorted frontier it is the stable insertion of the new path, after
      every entry that is not longer and before every longer one. */
  function PushPath<N>(allPaths: seq<seq<Edge<N>>>, newPath: seq<Edge<N>>): (r: seq<seq<Edge<N>>>)
    ensures SortedByLength(r)
    ensures multiset(r) == multiset(allPaths) + multiset{newPath}
    ensures SortedByLength(allPaths) ==> r == Insert(allPaths, newPath)
  {
    var s := allPaths + [newPath];
    assert s[..|s| - 1] == allPaths;
    SortedIsFixed(allPaths);
    StableSortByLength(s)
  }

  /** Insertion into a sorted frontier keeps it sorted, keeps every earlier
      entry (in the same relative order) and adds the new one. */
  lemma InsertSorted<N>(frontier: seq<seq<Edge<N>>>, p: seq<Edge<N>>)
    requires SortedByLength(frontier)
    ensures SortedByLength(Insert(frontier, p))
    ensures multiset(Insert(frontier, p)) == multiset(frontier) + multiset{p}
  {
    var k := InsertPosition(frontier, p);
    InsertedAtSorted(frontier, p, Insert(frontier, p), k);
    InsertedAtMultiset(frontier, p, Insert(frontier, p), k);
  }

  lemma InsertedAtMultiset<N>(frontier: seq<seq<Edge<N>>>, p: seq<Edge<N>>, r: seq<seq<Edge<N>>>, k: int)
    requires InsertedAt(frontier, p, r, k)
    ensures multiset(r) == multiset(frontier) + multiset{p}
  {
    var a, b := frontier[..k], frontier[k..];
    assert frontier == a + b;
    assert r == a + [p] + b;
    assert multiset(r) == multiset(a) + multiset([p]) + multiset(b);
    assert multiset(frontier) == multiset(a) + multiset(b);
  }

  lemma InsertedAtSorted<N>(frontier: seq<seq<Edge<N>>>, p: seq<Edge<N>>, r: seq<seq<Edge<N>>>, k: int)
    requires SortedByLength(frontier)
    requires InsertedAt(frontier, p, r, k)
    ensures SortedByLength(r)
  {
    forall i, j | 0 <= i < j < |r|
      ensures PathLength(r[i]) <= PathLength(r[j])
    {
      var a := if i < k then frontier[i] else if i == k then p else frontier[i - 1];
      var b := if j < k then frontier[j] else if j == k then p else frontier[j - 1];
      assert r[i] == a;
      assert r[j] == b;
      if j == k {
        assert PathLength(frontier[i]) <= PathLength(frontier[k - 1]);
      }
    }
  }

  /** Sorting an already sorted frontier leaves it unchanged. */
  lemma {:induction false} SortSortedIsIdentity<N>(s: seq<seq<Edge<N>>>)
    requires SortedByLength(s)
    ensures StableSortByLength(s) == s
    decreases |s|
  {
    if |s| > 0 {
      var init, x := s[..|s| - 1], s[|s| - 1];
      assert s == init + [x];
      assert SortedByLength(init) by {
        forall i, j | 0 <= i < j < |init|
          ensures PathLength(init[i]) <= PathLength(init[j])
        {
          assert init[i] == s[i] && init[j] == s[j];
        }
      }
      SortSortedIsIdentity(init);
      if |init| > 0 {
        assert init[|init| - 1] == s[|s| - 2];
      }
      assert Insert(init, x) == init + [x];
    }
  }

  lemma SortedIsFixed<N>(s: seq<seq<Edge<N>>>)
    ensures SortedByLength(s) ==> StableSortByLength(s) == s
  {
    if SortedByLength(s) {
      SortSortedIsIdentity(s);
    }
  }

  /** After `pushPath` the entries are the earlier ones and the new one. */
  lemma PushPathMember<N>(allPaths: seq<seq<Edge<N>>>, newPath: seq<Edge<N>>, f: seq<Edge<N>>)
    ensures f in PushPath(allPaths, newPath) <==> f in allPaths || f == newPath
  {
    var r := PushPath(allPaths, newPath);
    assert f in r <==> f in multiset(r);
    assert f in allPaths <==> f in multiset(allPaths);
  }
}
