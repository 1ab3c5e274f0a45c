/** The uniform-cost search shared by both variants (`shortestPath`,
    `isNodeChecked`): a frontier of partial paths kept sorted by length, the
    cheapest one taken off the front, its last state goal-tested, marked
    checked and expanded into every successor that is not yet checked.

    The search is generic in the state type `N`. `edges` lists a state's
    outgoing edges (the lazily filled `getEdges`), `key` is what the
    checked-state test compares (two states are "the same" when their keys
    are equal) and `isGoal` is the goal test (`lastNode.equals(end)`). */
module Search {
  import opened Paths

  datatype SearchResult<N> =
    | Found(path: seq<Edge<N>>)   // the winning path (empty only for the already-at-goal case)
    | NotFound                    // the frontier ran empty: `undefined` in the source
    | OutOfFuel                   // the step bound ran out first (not a source outcome)

  /** Some checked state has the same key as `node`. */
  ghost predicate KeyChecked<N, K>(key: N -> K, checked: seq<N>, node: N)
  {
    exists j :: 0 <= j < |checked| && key(checked[j]) == key(node)
  }

  /** `isNodeChecked`: scan the checked states from the front for one equal
      to `node`. */
  function IsNodeChecked<N, K(==)>(key: N -> K, checkedNodes: seq<N>, node: N): (r: bool)
    ensures r <==> KeyChecked(key, checkedNodes, node)
  {
    CheckedFrom(key, checkedNodes, node, 0)
  }

  function CheckedFrom<N, K(==)>(key: N -> K, checkedNodes: seq<N>, node: N, i: nat): (r: bool)
    requires i <= |checkedNodes|
    ensures r <==> exists j :: i <= j < |checkedNodes| && key(checkedNodes[j]) == key(node)
    decreases |checkedNodes| - i
  {
    if i == |checkedNodes| then false
    else if key(checkedNodes[i]) == key(node) then true
    else CheckedFrom(key, checkedNodes, node, i + 1)
  }

  // ---------------------------------------------------------------------
  // Conditions under which the search finds a cheapest path.

  /** States with equal keys offer (at least) equally cheap moves to states
      with equal keys: pruning one of them loses nothing. */
  ghost predicate KeyCongruent<N(!new), K>(edges: N -> seq<Edge<N>>, key: N -> K)
  {
    forall a, b {:trigger NoDearerMoves(edges, key, a, b)} :: key(a) == key(b) ==> NoDearerMoves(edges, key, a, b)
  }

  /** Move for move, `a` reaches the same keys as `b` at no greater cost. */
  ghost predicate NoDearerMoves<N, K>(edges: N -> seq<Edge<N>>, key: N -> K, a: N, b: N)
  {
    && |edges(a)| == |edges(b)|
    && forall i :: 0 <= i < |edges(b)| ==>
         key(edges(a)[i].to) == key(edges(b)[i].to) && edges(a)[i].cost <= edges(b)[i].cost
  }

  /** The goal test cannot tell states with equal keys apart. */
  ghost predicate GoalRespectsKey<N(!new), K>(key: N -> K, isGoal: N -> bool)
  {
    forall a, b :: key(a) == key(b) ==> isGoal(a) == isGoal(b)
  }

  ghost predicate WellBehaved<N(!new), K>(edges: N -> seq<Edge<N>>, key: N -> K, isGoal: N -> bool)
  {
    NonNegativeCosts(edges) && KeyCongruent(edges, key) && GoalRespectsKey(key, isGoal)
  }

  // ---------------------------------------------------------------------
  // The loop invariant of the search.
  //
  // `costs[j]` is the length of the path along which `checked[j]` was taken
  // off the frontier (0 for the start state).

  /** Every edge of a checked state that leads to an unchecked state has been
      pushed: some frontier entry reaches a state with the same key at no
      greater cost. */
  ghost predicate Covered<N(!new), K>(edges: N -> seq<Edge<N>>, key: N -> K, checked: seq<N>, costs: seq<real>,
                                         frontier: seq<seq<Edge<N>>>)
  {
    && |costs| == |checked|
    && forall j, e :: 0 <= j < |checked| && e in edges(checked[j]) && !KeyChecked(key, checked, e.to) ==>
         exists f :: f in frontier && |f| > 0 && key(LastNodeInPath(f)) == key(e.to) && PathLength(f) <= costs[j] + e.cost
  }

  /** Every checked key was reached at least as cheaply as by any path. */
  ghost predicate Optimal<N(!new), K>(edges: N -> seq<Edge<N>>, key: N -> K, start: N, checked: seq<N>, costs: seq<real>)
  {
    && |costs| == |checked|
    && forall p :: IsPathFrom(edges, start, p) && KeyChecked(key, checked, End(start, p)) ==>
         exists j :: 0 <= j < |checked| && key(checked[j]) == key(End(start, p)) && costs[j] <= PathLength(p)
  }

  ghost predicate SearchInv<N(!new), K>(edges: N -> seq<Edge<N>>, key: N -> K, isGoal: N -> bool, start: N,
                                           frontier: seq<seq<Edge<N>>>, checked: seq<N>, costs: seq<real>)
  {
    && |checked| == |costs| > 0
    && checked[0] == start
    && costs[0] == 0.0
    && (forall j :: 0 < j < |checked| ==> !isGoal(checked[j]))
    && SortedByLength(frontier)
    && (forall f :: f in frontier ==> |f| > 0 && IsPathFrom(edges, start, f))
    && (forall f :: f in frontier ==> Pruned(key, start, checked, f))
    && Covered(edges, key, checked, costs, frontier)
    && (WellBehaved(edges, key, isGoal) ==> Optimal(edges, key, start, checked, costs))
  }

  lemma OptimalWitness<N(!new), K>(edges: N -> seq<Edge<N>>, key: N -> K, start: N, checked: seq<N>, costs: seq<real>,
                                   p: seq<Edge<N>>) returns (j: int)
    requires Optimal(edges, key, start, checked, costs)
    requires IsPathFrom(edges, start, p) && KeyChecked(key, checked, End(start, p))
    ensures 0 <= j < |checked| && key(checked[j]) == key(End(start, p)) && costs[j] <= PathLength(p)
  {
    j :| 0 <= j < |checked| && key(checked[j]) == key(End(start, p)) && costs[j] <= PathLength(p);
  }

  lemma CongruentEdge<N(!new), K>(edges: N -> seq<Edge<N>>, key: N -> K, a: N, b: N, e: Edge<N>) returns (e': Edge<N>)
    requires KeyCongruent(edges, key)
    requires key(a) == key(b) && e in edges(b)
    ensures e' in edges(a) && key(e'.to) == key(e.to) && e'.cost <= e.cost
  {
    assert NoDearerMoves(edges, key, a, b);
    var i :| 0 <= i < |edges(b)| && edges(b)[i] == e;
    e' := edges(a)[i];
  }

  lemma CoveringEntry<N(!new), K>(edges: N -> seq<Edge<N>>, key: N -> K, checked: seq<N>, costs: seq<real>,
                                  frontier: seq<seq<Edge<N>>>, j: int, e: Edge<N>) returns (f: seq<Edge<N>>)
    requires Covered(edges, key, checked, costs, frontier)
    requires 0 <= j < |checked| && e in edges(checked[j]) && !KeyChecked(key, checked, e.to)
    ensures f in frontier && |f| > 0 && key(LastNodeInPath(f)) == key(e.to) && PathLength(f) <= costs[j] + e.cost
  {
    f :| f in frontier && |f| > 0 && key(LastNodeInPath(f)) == key(e.to) && PathLength(f) <= costs[j] + e.cost;
  }

  /** Any path to a state whose key is not yet checked is matched, at no
      smaller cost, by some frontier entry. */
  lemma {:induction false} FrontierCovers<N(!new), K>(edges: N -> seq<Edge<N>>, key: N -> K, start: N,
                                                      frontier: seq<seq<Edge<N>>>, checked: seq<N>, costs: seq<real>,
                                                      p: seq<Edge<N>>) returns (f: seq<Edge<N>>)
    requires |checked| > 0 && checked[0] == start
    requires Covered(edges, key, checked, costs, frontier)
    requires Optimal(edges, key, start, checked, costs)
    requires NonNegativeCosts(edges) && KeyCongruent(edges, key)
    requires IsPathFrom(edges, start, p)
    requires !KeyChecked(key, checked, End(start, p))
    ensures f in frontier && PathLength(f) <= PathLength(p)
    decreases |p|
  {
    if |p| == 0 {
      assert false;
    }
    LastEdge(edges, start, p);
    var p', e := p[..|p| - 1], p[|p| - 1];
    assert e.cost >= 0.0;
    assert PathLength(p) == PathLength(p') + e.cost;
    if KeyChecked(key, checked, End(start, p')) {
      f := CoverFromChecked(edges, key, start, frontier, checked, costs, p', e);
    } else {
      f := FrontierCovers(edges, key, start, frontier, checked, costs, p');
    }
  }

  /** The step of `FrontierCovers` where the path's last edge leaves a
      checked state: the matching move of the checked state was pushed. */
  lemma CoverFromChecked<N(!new), K>(edges: N -> seq<Edge<N>>, key: N -> K, start: N,
                                     frontier: seq<seq<Edge<N>>>, checked: seq<N>, costs: seq<real>,
                                     p: seq<Edge<N>>, e: Edge<N>) returns (f: seq<Edge<N>>)
    requires Covered(edges, key, checked, costs, frontier)
    requires Optimal(edges, key, start, checked, costs)
    requires KeyCongruent(edges, key)
    requires IsPathFrom(edges, start, p) && KeyChecked(key, checked, End(start, p))
    requires e in edges(End(start, p)) && !KeyChecked(key, checked, e.to)
    ensures f in frontier && PathLength(f) <= PathLength(p) + e.cost
  {
    var j := OptimalWitness(edges, key, start, checked, costs, p);
    var e' := CongruentEdge(edges, key, checked[j], End(start, p), e);
    assert !KeyChecked(key, checked, e'.to);
    f := CoveringEntry(edges, key, checked, costs, frontier, j, e');
  }

  /** The front of the frontier is no longer than any path to a state whose
      key is not yet checked. */
  lemma FrontIsCheapest<N(!new), K>(edges: N -> seq<Edge<N>>, key: N -> K, isGoal: N -> bool, start: N,
                                        frontier: seq<seq<Edge<N>>>, checked: seq<N>, costs: seq<real>,
                                        p: seq<Edge<N>>)
    requires SearchInv(edges, key, isGoal, start, frontier, checked, costs)
    requires WellBehaved(edges, key, isGoal)
    requires IsPathFrom(edges, start, p)
    requires !KeyChecked(key, checked, End(start, p))
    ensures |frontier| > 0 && PathLength(frontier[0]) <= PathLength(p)
  {
    var f := FrontierCovers(edges, key, start, frontier, checked, costs, p);
    var i :| 0 <= i < |frontier| && frontier[i] == f;
    if i > 0 {
      assert PathLength(frontier[0]) <= PathLength(frontier[i]);
    }
  }

  /** No path from the start reaches a goal state whose key is checked: the
      checked states were all goal-tested (or are the start). */
  lemma CheckedAreNotGoals<N(!new), K>(edges: N -> seq<Edge<N>>, key: N -> K, isGoal: N -> bool, start: N,
                                           frontier: seq<seq<Edge<N>>>, checked: seq<N>, costs: seq<real>,
                                           p: seq<Edge<N>>)
    requires SearchInv(edges, key, isGoal, start, frontier, checked, costs)
    requires GoalRespectsKey(key, isGoal)
    requires !isGoal(start)
    requires isGoal(End(start, p))
    ensures !KeyChecked(key, checked, End(start, p))
  {
    if KeyChecked(key, checked, End(start, p)) {
      assert false;
    }
  }

  /** The extensions of `current` by those edges of `es` whose target is
      not checked, in the order of `es`: what one pass of the inner
      `forEach` pushes. */
  function UncheckedExtensions<N, K(==)>(key: N -> K, checked: seq<N>, current: seq<Edge<N>>, es: seq<Edge<N>>)
    : (r: seq<seq<Edge<N>>>)
    ensures |r| <= |es|
    ensures forall f :: f in r ==>
      exists i :: 0 <= i < |es| && !KeyChecked(key, checked, es[i].to) && f == current + [es[i]]
    ensures forall i :: 0 <= i < |es| && !KeyChecked(key, checked, es[i].to) ==> current + [es[i]] in r
    decreases |es|
  {
    if |es| == 0 then []
    else
      var init, e := es[..|es| - 1], es[|es| - 1];
      assert forall i :: 0 <= i < |init| ==> init[i] == es[i];
      UncheckedExtensions(key, checked, current, init) + if IsNodeChecked(key, checked, e.to) then [] else [current + [e]]
  }

  /** Every entry of `r` is an entry of `frontier` or `current` extended by
      one of the first `k` edges of `es` whose target is not checked. */
  ghost predicate OnlyExtensions<N, K>(key: N -> K, checked: seq<N>, frontier: seq<seq<Edge<N>>>, current: seq<Edge<N>>,
                                       es: seq<Edge<N>>, k: int, r: seq<seq<Edge<N>>>)
  {
    forall f :: f in r ==>
      f in frontier || exists i :: 0 <= i < k && i < |es| && !KeyChecked(key, checked, es[i].to) && f == current + [es[i]]
  }

  /** Pushes one extended path per edge of `es` whose target is not checked
      (the inner `forEach` of the search; with `current` empty and nothing
      checked it is the initialisation of the frontier). The result holds
      the earlier entries and exactly those extensions, once each, sorted:
      an extension to a checked state is never pushed. */
  method PushSuccessors<N, K(==)>(key: N -> K, frontier: seq<seq<Edge<N>>>, current: seq<Edge<N>>,
                                  es: seq<Edge<N>>, checked: seq<N>)
    returns (r: seq<seq<Edge<N>>>)
    requires SortedByLength(frontier)
    ensures SortedByLength(r)
    ensures multiset(r) == multiset(frontier) + multiset(UncheckedExtensions(key, checked, current, es))
    ensures forall f :: f in frontier ==> f in r
    ensures OnlyExtensions(key, checked, frontier, current, es, |es|, r)
    ensures forall i :: 0 <= i < |es| && !KeyChecked(key, checked, es[i].to) ==> current + [es[i]] in r
    ensures |es| == 0 ==> r == frontier
  {
    r := PushEach(key, frontier, current, es, checked);
    PushedMembers(key, checked, frontier, current, es, r);
  }

  /** The loop of `PushSuccessors`: pushes the extensions one by one, in
      the order of `es`, skipping those whose target is checked. */
  method PushEach<N, K(==)>(key: N -> K, frontier: seq<seq<Edge<N>>>, current: seq<Edge<N>>,
                            es: seq<Edge<N>>, checked: seq<N>)
    returns (r: seq<seq<Edge<N>>>)
    requires SortedByLength(frontier)
    ensures SortedByLength(r)
    ensures multiset(r) == multiset(frontier) + multiset(UncheckedExtensions(key, checked, current, es))
    ensures |es| == 0 ==> r == frontier
  {
    r := frontier;
    var i := 0;
    while i < |es|
      invariant 0 <= i <= |es|
      invariant i == 0 ==> r == frontier
      invariant SortedByLength(r)
      invariant multiset(r) == multiset(frontier) + multiset(UncheckedExtensions(key, checked, current, es[..i]))
    {
      PushStep(key, checked, frontier, current, es, i, r);
      if !IsNodeChecked(key, checked, es[i].to) {
        r := PushPath(r, current + [es[i]]);
      }
      i := i + 1;
    }
    assert es[..|es|] == es;
  }

  /** One pass of the loop of `PushSuccessors`: the frontier stays sorted
      and gains the extension by `es[i]` exactly when its target is not
      checked. */
  lemma PushStep<N, K>(key: N -> K, checked: seq<N>, frontier: seq<seq<Edge<N>>>, current: seq<Edge<N>>,
                           es: seq<Edge<N>>, i: int, r: seq<seq<Edge<N>>>)
    requires 0 <= i < |es|
    requires multiset(r) == multiset(frontier) + multiset(UncheckedExtensions(key, checked, current, es[..i]))
    ensures var r' := if IsNodeChecked(key, checked, es[i].to) then r else PushPath(r, current + [es[i]]);
      multiset(r') == multiset(frontier) + multiset(UncheckedExtensions(key, checked, current, es[..i + 1]))
  {
    assert es[..i + 1][..i] == es[..i];
  }

  /** The entries of a frontier holding the earlier entries and the
      unchecked extensions. */
  lemma PushedMembers<N, K>(key: N -> K, checked: seq<N>, frontier: seq<seq<Edge<N>>>, current: seq<Edge<N>>,
                            es: seq<Edge<N>>, r: seq<seq<Edge<N>>>)
    requires multiset(r) == multiset(frontier) + multiset(UncheckedExtensions(key, checked, current, es))
    ensures forall f :: f in frontier ==> f in r
    ensures OnlyExtensions(key, checked, frontier, current, es, |es|, r)
    ensures forall i :: 0 <= i < |es| && !KeyChecked(key, checked, es[i].to) ==> current + [es[i]] in r
  {
    var ext := UncheckedExtensions(key, checked, current, es);
    forall f | f in frontier
      ensures f in r
    {
      assert f in multiset(frontier);
      assert f in multiset(r);
    }
    forall f | f in r
      ensures f in frontier || f in ext
    {
      assert f in multiset(r);
      assert f in multiset(frontier) || f in multiset(ext);
    }
    forall i | 0 <= i < |es| && !KeyChecked(key, checked, es[i].to)
      ensures current + [es[i]] in r
    {
      assert current + [es[i]] in ext;
      assert current + [es[i]] in multiset(ext);
      assert current + [es[i]] in multiset(r);
    }
  }

  // ---------------------------------------------------------------------
  // What the pruning keeps out of the frontier.

  /** Every state `f` passes through before its last edge has a checked
      key. */
  ghost predicate PrefixesChecked<N, K>(key: N -> K, start: N, checked: seq<N>, f: seq<Edge<N>>)
  {
    forall k :: 0 <= k < |f| ==> KeyChecked(key, checked, NodeAt(start, f, k))
  }

  /** No state along `p` has the key of an earlier one, except that the
      first edge may lead back to the start (the start's own edges are
      pushed before anything is checked). */
  ghost predicate NoRevisit<N, K>(key: N -> K, start: N, p: seq<Edge<N>>)
  {
    forall i, j :: 0 <= i < j <= |p| && 2 <= j ==> key(NodeAt(start, p, i)) != key(NodeAt(start, p, j))
  }

  /** `NoRevisit` for the identity key: no state appears twice along `p`,
      except that the first edge may lead back to the start. */
  ghost predicate NoStateTwice<N>(start: N, p: seq<Edge<N>>)
  {
    forall i, j :: 0 <= i < j <= |p| && 2 <= j ==> NodeAt(start, p, i) != NodeAt(start, p, j)
  }

  /** What the pruning guarantees of a frontier entry. */
  ghost predicate Pruned<N, K>(key: N -> K, start: N, checked: seq<N>, f: seq<Edge<N>>)
  {
    PrefixesChecked(key, start, checked, f) && NoRevisit(key, start, f)
  }

  lemma CheckedKeysDiffer<N, K>(key: N -> K, checked: seq<N>, x: N, y: N)
    requires KeyChecked(key, checked, x) && !KeyChecked(key, checked, y)
    ensures key(x) != key(y)
  {
    var m :| 0 <= m < |checked| && key(checked[m]) == key(x);
  }

  /** Checking one more state keeps an entry pruned. */
  lemma StillPruned<N, K>(key: N -> K, start: N, checked: seq<N>, x: N, f: seq<Edge<N>>)
    requires Pruned(key, start, checked, f)
    ensures Pruned(key, start, checked + [x], f)
  {
    forall k | 0 <= k < |f|
      ensures KeyChecked(key, checked + [x], NodeAt(start, f, k))
    {
      KeyCheckedAppend(key, checked, x, NodeAt(start, f, k));
    }
  }

  /** Extending a pruned entry by an edge to a state not checked once its
      end is checked gives a pruned entry. */
  lemma ExtendPruned<N, K>(key: N -> K, start: N, checked: seq<N>, current: seq<Edge<N>>, e: Edge<N>)
    requires |current| > 0 && Pruned(key, start, checked, current)
    requires !KeyChecked(key, checked + [LastNodeInPath(current)], e.to)
    ensures Pruned(key, start, checked + [LastNodeInPath(current)], current + [e])
  {
    var last := LastNodeInPath(current);
    var checked' := checked + [last];
    var f := current + [e];
    forall k | 0 <= k <= |current|
      ensures KeyChecked(key, checked', NodeAt(start, f, k))
    {
      if k < |current| {
        assert NodeAt(start, f, k) == NodeAt(start, current, k);
        KeyCheckedAppend(key, checked, last, NodeAt(start, current, k));
      } else {
        assert NodeAt(start, f, k) == last;
        assert checked'[|checked|] == last;
      }
    }
    forall i, j | 0 <= i < j <= |f| && 2 <= j
      ensures key(NodeAt(start, f, i)) != key(NodeAt(start, f, j))
    {
      if j <= |current| {
        assert NodeAt(start, f, i) == NodeAt(start, current, i);
        assert NodeAt(start, f, j) == NodeAt(start, current, j);
      } else {
        assert NodeAt(start, f, j) == e.to;
        CheckedKeysDiffer(key, checked', NodeAt(start, f, i), e.to);
      }
    }
  }

  /** After an expansion every frontier entry is still pruned. */
  lemma ExpandedPruned<N, K>(key: N -> K, start: N, checked: seq<N>, frontier: seq<seq<Edge<N>>>,
                             es: seq<Edge<N>>, nf: seq<seq<Edge<N>>>)
    requires |frontier| > 0 && |frontier[0]| > 0
    requires forall f :: f in frontier ==> Pruned(key, start, checked, f)
    requires OnlyExtensions(key, checked + [LastNodeInPath(frontier[0])], frontier[1..], frontier[0], es, |es|, nf)
    ensures forall f :: f in nf ==> Pruned(key, start, checked + [LastNodeInPath(frontier[0])], f)
  {
    var current := frontier[0];
    assert current in frontier;
    forall f | f in nf
      ensures Pruned(key, start, checked + [LastNodeInPath(current)], f)
    {
      if f in frontier[1..] {
        assert f in frontier;
        StillPruned(key, start, checked, LastNodeInPath(current), f);
      } else {
        var i :| 0 <= i < |es| && !KeyChecked(key, checked + [LastNodeInPath(current)], es[i].to) && f == current + [es[i]];
        ExtendPruned(key, start, checked, current, es[i]);
      }
    }
  }

  // ---------------------------------------------------------------------
  // The invariant holds initially and is kept by every expansion.

  lemma InitialInv<N(!new), K>(edges: N -> seq<Edge<N>>, key: N -> K, isGoal: N -> bool, start: N,
                               frontier: seq<seq<Edge<N>>>)
    requires SortedByLength(frontier)
    requires OnlyExtensions(key, [], [], [], edges(start), |edges(start)|, frontier)
    requires forall i :: 0 <= i < |edges(start)| && !KeyChecked(key, [], edges(start)[i].to) ==> [] + [edges(start)[i]] in frontier
    ensures SearchInv(edges, key, isGoal, start, frontier, [start], [0.0])
  {
    InitialValid(edges, key, start, frontier);
    InitialCovered(edges, key, start, frontier);
    if WellBehaved(edges, key, isGoal) {
      InitialOptimal(edges, key, start);
    }
  }

  /** The start's one-edge paths are paths from the start, and pruned:
      they pass through the start only. */
  lemma InitialValid<N, K>(edges: N -> seq<Edge<N>>, key: N -> K, start: N, frontier: seq<seq<Edge<N>>>)
    requires OnlyExtensions(key, [], [], [], edges(start), |edges(start)|, frontier)
    ensures forall f :: f in frontier ==> |f| > 0 && IsPathFrom(edges, start, f) && Pruned(key, start, [start], f)
  {
    var es := edges(start);
    forall f | f in frontier
      ensures |f| > 0 && IsPathFrom(edges, start, f) && Pruned(key, start, [start], f)
    {
      var i :| 0 <= i < |es| && f == [] + [es[i]];
      ExtendIsPath(edges, start, [], es[i]);
      assert NodeAt(start, f, 0) == [start][0];
    }
  }

  lemma InitialCovered<N(!new), K>(edges: N -> seq<Edge<N>>, key: N -> K, start: N, frontier: seq<seq<Edge<N>>>)
    requires forall i :: 0 <= i < |edges(start)| && !KeyChecked(key, [], edges(start)[i].to) ==> [] + [edges(start)[i]] in frontier
    ensures Covered(edges, key, [start], [0.0], frontier)
  {
    var es := edges(start);
    forall j, e | 0 <= j < 1 && e in edges([start][j]) && !KeyChecked(key, [start], e.to)
      ensures exists f :: f in frontier && |f| > 0 && key(LastNodeInPath(f)) == key(e.to) && PathLength(f) <= [0.0][j] + e.cost
    {
      var i :| 0 <= i < |es| && es[i] == e;
      assert !KeyChecked(key, [], es[i].to);
      assert [] + [e] in frontier;
      assert PathLength([] + [e]) == 0.0 + e.cost;
    }
  }

  lemma InitialOptimal<N(!new), K>(edges: N -> seq<Edge<N>>, key: N -> K, start: N)
    requires NonNegativeCosts(edges)
    ensures Optimal(edges, key, start, [start], [0.0])
  {
    forall p | IsPathFrom(edges, start, p) && KeyChecked(key, [start], End(start, p))
      ensures exists j :: 0 <= j < 1 && key([start][j]) == key(End(start, p)) && [0.0][j] <= PathLength(p)
    {
      PathLengthPrefix(edges, start, p, 0);
    }
  }

  /** Appending `x` to the checked states checks what was checked before,
      and `x`'s key. */
  lemma KeyCheckedAppend<N, K>(key: N -> K, checked: seq<N>, x: N, n: N)
    ensures KeyChecked(key, checked + [x], n) <==> KeyChecked(key, checked, n) || key(x) == key(n)
  {
    var c := checked + [x];
    if KeyChecked(key, checked, n) {
      var i :| 0 <= i < |checked| && key(checked[i]) == key(n);
      assert c[i] == checked[i];
    }
    if key(x) == key(n) {
      assert c[|checked|] == x;
    }
    if KeyChecked(key, c, n) {
      var i :| 0 <= i < |c| && key(c[i]) == key(n);
      if i < |checked| {
        assert c[i] == checked[i];
      }
    }
  }

  /** The entries after an expansion are paths from the start. */
  lemma ExpandedAreValid<N(!new), K>(edges: N -> seq<Edge<N>>, key: N -> K, isGoal: N -> bool, start: N,
                                     checked': seq<N>, frontier: seq<seq<Edge<N>>>, nf: seq<seq<Edge<N>>>)
    requires |frontier| > 0
    requires forall f :: f in frontier ==> |f| > 0 && IsPathFrom(edges, start, f)
    requires OnlyExtensions(key, checked', frontier[1..], frontier[0], edges(LastNodeInPath(frontier[0])),
                            |edges(LastNodeInPath(frontier[0]))|, nf)
    ensures forall f :: f in nf ==> |f| > 0 && IsPathFrom(edges, start, f)
  {
    var current := frontier[0];
    var es := edges(LastNodeInPath(current));
    forall f | f in nf
      ensures |f| > 0 && IsPathFrom(edges, start, f)
    {
      if f !in frontier[1..] {
        var i :| 0 <= i < |es| && !KeyChecked(key, checked', es[i].to) && f == current + [es[i]];
        assert End(start, current) == LastNodeInPath(current);
        ExtendIsPath(edges, start, current, es[i]);
      } else {
        assert f in frontier;
      }
    }
  }

  /** After an expansion every edge of a checked state to an unchecked one
      is still covered. */
  lemma ExpandedCovered<N(!new), K>(edges: N -> seq<Edge<N>>, key: N -> K, checked: seq<N>, costs: seq<real>,
                                        frontier: seq<seq<Edge<N>>>, nf: seq<seq<Edge<N>>>)
    requires |frontier| > 0 && |frontier[0]| > 0
    requires Covered(edges, key, checked, costs, frontier)
    requires forall f :: f in frontier[1..] ==> f in nf
    requires forall i :: 0 <= i < |edges(LastNodeInPath(frontier[0]))|
               && !KeyChecked(key, checked + [LastNodeInPath(frontier[0])], edges(LastNodeInPath(frontier[0]))[i].to)
               ==> frontier[0] + [edges(LastNodeInPath(frontier[0]))[i]] in nf
    ensures Covered(edges, key, checked + [LastNodeInPath(frontier[0])], costs + [PathLength(frontier[0])], nf)
  {
    var current := frontier[0];
    var last := LastNodeInPath(current);
    var es := edges(last);
    var checked' := checked + [last];
    var costs' := costs + [PathLength(current)];
    forall j, e | 0 <= j < |checked'| && e in edges(checked'[j]) && !KeyChecked(key, checked', e.to)
      ensures exists f :: f in nf && |f| > 0 && key(LastNodeInPath(f)) == key(e.to) && PathLength(f) <= costs'[j] + e.cost
    {
      if j < |checked| {
        assert checked'[j] == checked[j];
        KeyCheckedAppend(key, checked, last, e.to);
        var f := CoveringEntry(edges, key, checked, costs, frontier, j, e);
        var k :| 0 <= k < |frontier| && frontier[k] == f;
        if k == 0 {
          assert false;
        }
        assert f in frontier[1..] by { assert frontier[1..][k - 1] == f; }
        assert costs'[j] == costs[j];
      } else {
        var i :| 0 <= i < |es| && es[i] == e;
        assert current + [e] in nf;
        PathLengthAppend(current, e);
        assert LastNodeInPath(current + [e]) == e.to;
      }
    }
  }

  /** After an expansion every checked key, the new one included, was
      reached at least as cheaply as by any path. */
  lemma ExpandedOptimal<N(!new), K>(edges: N -> seq<Edge<N>>, key: N -> K, isGoal: N -> bool, start: N,
                                        frontier: seq<seq<Edge<N>>>, checked: seq<N>, costs: seq<real>)
    requires SearchInv(edges, key, isGoal, start, frontier, checked, costs)
    requires WellBehaved(edges, key, isGoal)
    requires |frontier| > 0 && |frontier[0]| > 0
    ensures Optimal(edges, key, start, checked + [LastNodeInPath(frontier[0])], costs + [PathLength(frontier[0])])
  {
    var last := LastNodeInPath(frontier[0]);
    var checked' := checked + [last];
    var costs' := costs + [PathLength(frontier[0])];
    forall p | IsPathFrom(edges, start, p) && KeyChecked(key, checked', End(start, p))
      ensures exists j :: 0 <= j < |checked'| && key(checked'[j]) == key(End(start, p)) && costs'[j] <= PathLength(p)
    {
      if KeyChecked(key, checked, End(start, p)) {
        var j := OptimalWitness(edges, key, start, checked, costs, p);
        assert checked'[j] == checked[j] && costs'[j] == costs[j];
      } else {
        var j :| 0 <= j < |checked'| && key(checked'[j]) == key(End(start, p));
        if j < |checked| {
          assert false;
        }
        FrontIsCheapest(edges, key, isGoal, start, frontier, checked, costs, p);
      }
    }
  }

  lemma ExpandKeepsInv<N(!new), K>(edges: N -> seq<Edge<N>>, key: N -> K, isGoal: N -> bool, start: N,
                                       frontier: seq<seq<Edge<N>>>, checked: seq<N>, costs: seq<real>,
                                       nf: seq<seq<Edge<N>>>)
    requires SearchInv(edges, key, isGoal, start, frontier, checked, costs)
    requires |frontier| > 0
    requires !isGoal(LastNodeInPath(frontier[0]))
    requires SortedByLength(nf)
    requires forall f :: f in frontier[1..] ==> f in nf
    requires OnlyExtensions(key, checked + [LastNodeInPath(frontier[0])], frontier[1..], frontier[0],
                            edges(LastNodeInPath(frontier[0])), |edges(LastNodeInPath(frontier[0]))|, nf)
    requires forall i :: 0 <= i < |edges(LastNodeInPath(frontier[0]))|
               && !KeyChecked(key, checked + [LastNodeInPath(frontier[0])], edges(LastNodeInPath(frontier[0]))[i].to)
               ==> frontier[0] + [edges(LastNodeInPath(frontier[0]))[i]] in nf
    ensures SearchInv(edges, key, isGoal, start, nf, checked + [LastNodeInPath(frontier[0])],
                      costs + [PathLength(frontier[0])])
  {
    assert frontier[0] in frontier;
    ExpandedAreValid(edges, key, isGoal, start, checked + [LastNodeInPath(frontier[0])], frontier, nf);
    ExpandedPruned(key, start, checked, frontier, edges(LastNodeInPath(frontier[0])), nf);
    ExpandedCovered(edges, key, checked, costs, frontier, nf);
    if WellBehaved(edges, key, isGoal) {
      ExpandedOptimal(edges, key, isGoal, start, frontier, checked, costs);
    }
  }

  /** The front entry, when it ends at a goal, is a cheapest path to one. */
  lemma FoundIsCheapest<N(!new), K>(edges: N -> seq<Edge<N>>, key: N -> K, isGoal: N -> bool, start: N,
                                        frontier: seq<seq<Edge<N>>>, checked: seq<N>, costs: seq<real>)
    requires SearchInv(edges, key, isGoal, start, frontier, checked, costs)
    requires |frontier| > 0
    ensures WellBehaved(edges, key, isGoal) && !isGoal(start) ==>
      forall p :: IsPathFrom(edges, start, p) && isGoal(End(start, p)) ==> PathLength(frontier[0]) <= PathLength(p)
  {
    if WellBehaved(edges, key, isGoal) && !isGoal(start) {
      forall p | IsPathFrom(edges, start, p) && isGoal(End(start, p))
        ensures PathLength(frontier[0]) <= PathLength(p)
      {
        CheckedAreNotGoals(edges, key, isGoal, start, frontier, checked, costs, p);
        FrontIsCheapest(edges, key, isGoal, start, frontier, checked, costs, p);
      }
    }
  }

  /** An empty frontier means no goal state is reachable at all. */
  lemma ExhaustedMeansUnreachable<N(!new), K>(edges: N -> seq<Edge<N>>, key: N -> K, isGoal: N -> bool, start: N,
                                                  checked: seq<N>, costs: seq<real>)
    requires SearchInv(edges, key, isGoal, start, [], checked, costs)
    ensures WellBehaved(edges, key, isGoal) && !isGoal(start) ==>
      forall p :: IsPathFrom(edges, start, p) ==> !isGoal(End(start, p))
  {
    if WellBehaved(edges, key, isGoal) && !isGoal(start) {
      forall p | IsPathFrom(edges, start, p)
        ensures !isGoal(End(start, p))
      {
        if isGoal(End(start, p)) {
          CheckedAreNotGoals(edges, key, isGoal, start, [], checked, costs, p);
          var f := FrontierCovers(edges, key, start, [], checked, costs, p);
        }
      }
    }
  }

  // ---------------------------------------------------------------------
  // The search.

  /** `shortestPath` without the already-at-goal test (the weighted-graph
      version): seed the frontier with one single-edge path per edge of
      `start`, mark `start` checked, then repeatedly take the cheapest
      path off the front; return it when its last state is a goal, else
      mark that state checked and push each extension to a state that is
      not checked. `fuel` bounds the number of iterations. */
  method ShortestPath<N(!new), K(==)>(edges: N -> seq<Edge<N>>, key: N -> K, isGoal: N -> bool, start: N, fuel: nat)
    returns (r: SearchResult<N>)
    ensures r.Found? ==> |r.path| > 0 && IsPathFrom(edges, start, r.path) && isGoal(End(start, r.path))
    ensures r.Found? ==> NoRevisit(key, start, r.path)
    ensures r.Found? && WellBehaved(edges, key, isGoal) && !isGoal(start) ==>
      forall p :: IsPathFrom(edges, start, p) && isGoal(End(start, p)) ==> PathLength(r.path) <= PathLength(p)
    ensures r.NotFound? && WellBehaved(edges, key, isGoal) && !isGoal(start) ==>
      forall p :: IsPathFrom(edges, start, p) ==> !isGoal(End(start, p))
    ensures |edges(start)| == 0 ==> r.NotFound?
  {
    var frontier := PushSuccessors(key, [], [], edges(start), []);
    var checked := [start];
    ghost var costs := [0.0];
    InitialInv(edges, key, isGoal, start, frontier);
    var steps := 0;
    while |frontier| != 0 && steps < fuel
      invariant SearchInv(edges, key, isGoal, start, frontier, checked, costs)
      invariant |edges(start)| == 0 ==> |frontier| == 0
      decreases fuel - steps
    {
      var current := frontier[0];
      var lastNode := LastNodeInPath(current);
      if isGoal(lastNode) {
        assert current in frontier;
        assert Pruned(key, start, checked, current);
        FoundIsCheapest(edges, key, isGoal, start, frontier, checked, costs);
        return Found(current);
      }
      var nextChecked := checked + [lastNode];
      var nf := PushSuccessors(key, frontier[1..], current, edges(lastNode), nextChecked);
      ExpandKeepsInv(edges, key, isGoal, start, frontier, checked, costs, nf);
      frontier, checked := nf, nextChecked;
      costs := costs + [PathLength(current)];
      steps := steps + 1;
    }
    if |frontier| == 0 {
      ExhaustedMeansUnreachable(edges, key, isGoal, start, checked, costs);
      return NotFound;
    }
    return OutOfFuel;
  }

  /** `shortestPath` with the already-at-goal test first (the robot
      version): the empty path when `start` is itself a goal, otherwise the
      search above. Its result is a cheapest goal path from `start` whether
      or not `start` is a goal, and `NotFound` means no goal is reachable,
      `start` included. */
  method ShortestPathOrHere<N(!new), K(==)>(edges: N -> seq<Edge<N>>, key: N -> K, isGoal: N -> bool, start: N,
                                           fuel: nat)
    returns (r: SearchResult<N>)
    ensures r.Found? ==> IsPathFrom(edges, start, r.path) && isGoal(End(start, r.path))
    ensures r.Found? ==> NoRevisit(key, start, r.path)
    ensures (r.Found? && |r.path| == 0) <==> isGoal(start)
    ensures r.Found? && WellBehaved(edges, key, isGoal) ==>
      forall p :: IsPathFrom(edges, start, p) && isGoal(End(start, p)) ==> PathLength(r.path) <= PathLength(p)
    ensures r.NotFound? && WellBehaved(edges, key, isGoal) ==>
      forall p :: IsPathFrom(edges, start, p) ==> !isGoal(End(start, p))
  {
    if isGoal(start) {
      if WellBehaved(edges, key, isGoal) {
        forall p: seq<Edge<N>> | IsPathFrom(edges, start, p)
          ensures PathLength<N>([]) <= PathLength(p)
        {
          forall i | 0 <= i < |p|
            ensures p[i].cost >= 0.0
          {
            assert p[i] in edges(NodeAt(start, p, i));
          }
          PathLengthNonNegative(p);
        }
      }
      return Found([]);
    }
    r := ShortestPath(edges, key, isGoal, start, fuel);
  }
}
