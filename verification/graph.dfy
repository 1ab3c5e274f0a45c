/** The weighted-graph version of `source/main.ts`: `WeightedNode`s named by
    id, each with the list of edges `addEdge` gave it, searched by
    `shortestPath` without an already-at-goal test; and the three demo
    graphs the file builds and searches. */
module WeightedGraph {
  import opened Paths
  import opened Search

  /** Each node id with the edges added to it so far. */
  type Graph = map<string, seq<Edge<string>>>

  /** `WeightedNode.getEdges`: the edges stored for a node (none for a node
      that was given none). */
  function Neighbours(g: Graph, id: string): seq<Edge<string>>
  {
    if id in g then g[id] else []
  }

  function Out(g: Graph): string -> seq<Edge<string>>
  {
    id => Neighbours(g, id)
  }

  /** `WeightedNode.addEdge`: appends one edge to the node's own list and
      leaves every other node's list alone. */
  function AddEdge(g: Graph, from: string, to: string, cost: real): (r: Graph)
    ensures Neighbours(r, from) == Neighbours(g, from) + [Edge(from, to, cost)]
    ensures forall id :: id != from ==> Neighbours(r, id) == Neighbours(g, id)
  {
    g[from := Neighbours(g, from) + [Edge(from, to, cost)]]
  }

  /** Every stored edge leaves the node it is stored at. */
  ghost predicate Labelled(g: Graph)
  {
    forall id, e :: e in Neighbours(g, id) ==> e.from == id
  }

  lemma AddEdgeKeepsLabelled(g: Graph, from: string, to: string, cost: real)
    requires Labelled(g)
    ensures Labelled(AddEdge(g, from, to, cost))
  {
    var r := AddEdge(g, from, to, cost);
    forall id, e | e in Neighbours(r, id)
      ensures e.from == id
    {
      if id == from {
        assert e in Neighbours(g, from) || e == Edge(from, to, cost);
      }
    }
  }

  /** `WeightedNode.equals`: nodes are the same when their ids are. */
  predicate SameNode(a: string, b: string)
  {
    a == b
  }

  /** `shortestPath(start, end)` on a weighted graph. A found path is a
      non-empty chain of stored edges from `start` to `end`; with
      non-negative costs and `start` other than `end` it is a cheapest one,
      and `NotFound` means `end` cannot be reached. A start without edges
      gives `NotFound`, whatever `end` is. */
  method ShortestPath(g: Graph, start: string, end: string, fuel: nat) returns (r: SearchResult<string>)
    ensures r.Found? ==> |r.path| > 0 && IsPathFrom(Out(g), start, r.path) && SameNode(End(start, r.path), end)
    ensures r.Found? && Labelled(g) ==> Chained(start, r.path)
    ensures r.Found? ==> NoStateTwice(start, r.path)
    ensures r.Found? && NonNegativeCosts(Out(g)) && start != end ==>
      forall p :: IsPathFrom(Out(g), start, p) && End(start, p) == end ==> PathLength(r.path) <= PathLength(p)
    ensures r.NotFound? && NonNegativeCosts(Out(g)) && start != end ==>
      forall p :: IsPathFrom(Out(g), start, p) ==> End(start, p) != end
    ensures |Neighbours(g, start)| == 0 ==> r.NotFound?
  {
    r := Search.ShortestPath(Out(g), (id: string) => id, (id: string) => SameNode(id, end), start, fuel);
    if r.Found? && Labelled(g) {
      PathIsChained(Out(g), start, r.path);
    }
  }

  // ---------------------------------------------------------------------
  // A start that is its own goal

  /** The search has no already-at-goal test: asked for a path from a node
      to itself, with no edges out of it, it reports that there is none,
      although the empty path reaches it. */
  method SelfSearchNotFound(fuel: nat) returns (r: SearchResult<string>)
    ensures r.NotFound?
    ensures IsPathFrom(Out(AddEdge(map[], "2", "1", 1.0)), "1", []) && End<string>("1", []) == "1"
  {
    var g := AddEdge(map[], "2", "1", 1.0);
    r := ShortestPath(g, "1", "1", fuel);
  }

  // ---------------------------------------------------------------------
  // The demo graphs
  //
  // Each graph is built with `AddEdge` as the source builds it; its shape
  // is then stated once, node by node, and the proofs about paths use only
  // which edges enter a node.

  /** Nodes 1 to 5: 1→2 (4), 1→3 (2), 3→2 (1), 3→4 (10), 4→5 (1). */
  function DemoGraph(): Graph
  {
    AddEdge(AddEdge(AddEdge(AddEdge(AddEdge(map[], "1", "2", 4.0), "1", "3", 2.0), "3", "2", 1.0), "3", "4", 10.0), "4", "5", 1.0)
  }

  ghost predicate IsDemoGraph(g: Graph)
  {
    forall n :: Neighbours(g, n) ==
      if n == "1" then [Edge("1", "2", 4.0), Edge("1", "3", 2.0)]
      else if n == "3" then [Edge("3", "2", 1.0), Edge("3", "4", 10.0)]
      else if n == "4" then [Edge("4", "5", 1.0)]
      else []
  }

  lemma DemoGraphShape()
    ensures IsDemoGraph(DemoGraph())
  {
  }

  /** The edges that enter nodes 1, 3, 4 and 5 of the first demo graph. */
  lemma DemoInto(g: Graph, n: string, e: Edge<string>)
    requires IsDemoGraph(g) && e in Out(g)(n)
    ensures e.cost >= 0.0
    ensures e.to != "1"
    ensures e.to == "3" ==> n == "1" && e == Edge("1", "3", 2.0)
    ensures e.to == "4" ==> n == "3" && e == Edge("3", "4", 10.0)
    ensures e.to == "5" ==> n == "4" && e == Edge("4", "5", 1.0)
  {
    assert Out(g)(n) == Neighbours(g, n);
  }

  lemma DemoPathsToOne(g: Graph, p: seq<Edge<string>>)
    requires IsDemoGraph(g)
    requires IsPathFrom(Out(g), "1", p) && End("1", p) == "1"
    ensures p == []
  {
    if |p| > 0 {
      LastEdge(Out(g), "1", p);
      DemoInto(g, End("1", p[..|p| - 1]), p[|p| - 1]);
      assert false;
    }
  }

  lemma DemoPathsToThree(g: Graph, p: seq<Edge<string>>)
    requires IsDemoGraph(g)
    requires IsPathFrom(Out(g), "1", p) && End("1", p) == "3"
    ensures p == [Edge("1", "3", 2.0)]
  {
    LastEdge(Out(g), "1", p);
    DemoInto(g, End("1", p[..|p| - 1]), p[|p| - 1]);
    DemoPathsToOne(g, p[..|p| - 1]);
  }

  lemma DemoPathsToFour(g: Graph, p: seq<Edge<string>>)
    requires IsDemoGraph(g)
    requires IsPathFrom(Out(g), "1", p) && End("1", p) == "4"
    ensures p == [Edge("1", "3", 2.0), Edge("3", "4", 10.0)]
  {
    LastEdge(Out(g), "1", p);
    DemoInto(g, End("1", p[..|p| - 1]), p[|p| - 1]);
    DemoPathsToThree(g, p[..|p| - 1]);
  }

  /** In the first demo graph exactly one path leads from node 1 to node 5:
      1→3→4→5, of length 13. */
  lemma DemoPathsToFive(g: Graph, p: seq<Edge<string>>)
    requires IsDemoGraph(g)
    requires IsPathFrom(Out(g), "1", p) && End("1", p) == "5"
    ensures p == [Edge("1", "3", 2.0), Edge("3", "4", 10.0), Edge("4", "5", 1.0)]
    ensures PathLength(p) == 13.0
  {
    LastEdge(Out(g), "1", p);
    DemoInto(g, End("1", p[..|p| - 1]), p[|p| - 1]);
    DemoPathsToFour(g, p[..|p| - 1]);
    RouteLength(Edge("1", "3", 2.0), Edge("3", "4", 10.0), Edge("4", "5", 1.0));
  }

  lemma RouteLength(a: Edge<string>, b: Edge<string>, c: Edge<string>)
    ensures PathLength([a, b, c]) == a.cost + b.cost + c.cost
  {
    PathLengthAppend([a, b], c);
    assert [a, b] + [c] == [a, b, c];
    PathLengthAppend([a], b);
    assert [a] + [b] == [a, b];
    PathLengthAppend([], a);
    assert [] + [a] == [a];
  }

  lemma DemoNonNegative(g: Graph)
    requires IsDemoGraph(g)
    ensures NonNegativeCosts(Out(g))
  {
    forall n, e | e in Out(g)(n)
      ensures e.cost >= 0.0
    {
      DemoInto(g, n, e);
    }
  }

  /** 1→3→4→5 is a path of the first demo graph. */
  lemma DemoRouteIsPath(g: Graph)
    requires IsDemoGraph(g)
    ensures var route := [Edge("1", "3", 2.0), Edge("3", "4", 10.0), Edge("4", "5", 1.0)];
      IsPathFrom(Out(g), "1", route) && End("1", route) == "5"
  {
    var route := [Edge("1", "3", 2.0), Edge("3", "4", 10.0), Edge("4", "5", 1.0)];
    assert route[0] in Neighbours(g, "1");
    assert route[1] in Neighbours(g, "3");
    assert route[2] in Neighbours(g, "4");
    assert NodeAt("1", route, 1) == "3" && NodeAt("1", route, 2) == "4";
    assert forall i :: 0 <= i < 3 ==> route[i] in Out(g)(NodeAt("1", route, i));
  }

  /** The first demo: the search from node 1 to node 5 returns 1→3→4→5, of
      length 13, unless it runs out of steps. */
  method Demo(fuel: nat) returns (r: SearchResult<string>)
    ensures r.Found? ==> r.path == [Edge("1", "3", 2.0), Edge("3", "4", 10.0), Edge("4", "5", 1.0)]
    ensures r.Found? ==> PathLength(r.path) == 13.0
    ensures !r.NotFound?
  {
    var g := DemoGraph();
    DemoGraphShape();
    DemoNonNegative(g);
    DemoRouteIsPath(g);
    r := ShortestPath(g, "1", "5", fuel);
    if r.Found? {
      DemoPathsToFive(g, r.path);
    }
  }

  /** A single stored edge is a path of its own cost. */
  lemma DirectEdge(g: Graph, start: string, e: Edge<string>)
    requires e in Neighbours(g, start)
    ensures IsPathFrom(Out(g), start, [e]) && End(start, [e]) == e.to && PathLength([e]) == e.cost
  {
    assert [e][0] in Out(g)(NodeAt(start, [e], 0));
    PathLengthAppend([], e);
    assert [] + [e] == [e];
  }

  /** Nodes 1 to 6: 1→2 (1), 1→6 (4), and the chain 2→3→4→5→6 at 1 each. */
  function DemoGraphA(): Graph
  {
    AddEdge(AddEdge(AddEdge(AddEdge(AddEdge(AddEdge(map[], "1", "2", 1.0), "1", "6", 4.0), "2", "3", 1.0), "3", "4", 1.0),
            "4", "5", 1.0), "5", "6", 1.0)
  }

  ghost predicate IsDemoGraphA(g: Graph)
  {
    forall n :: Neighbours(g, n) ==
      if n == "1" then [Edge("1", "2", 1.0), Edge("1", "6", 4.0)]
      else if n == "2" then [Edge("2", "3", 1.0)]
      else if n == "3" then [Edge("3", "4", 1.0)]
      else if n == "4" then [Edge("4", "5", 1.0)]
      else if n == "5" then [Edge("5", "6", 1.0)]
      else []
  }

  lemma DemoGraphAShape()
    ensures IsDemoGraphA(DemoGraphA())
  {
  }

  /** The long way round in the second demo graph: 1→2→3→4→5→6. */
  function DemoAChain(): seq<Edge<string>>
  {
    [Edge("1", "2", 1.0), Edge("2", "3", 1.0), Edge("3", "4", 1.0), Edge("4", "5", 1.0), Edge("5", "6", 1.0)]
  }

  /** The edges that enter each node of the second demo graph. */
  lemma DemoAInto(g: Graph, n: string, e: Edge<string>)
    requires IsDemoGraphA(g) && e in Out(g)(n)
    ensures e.cost >= 0.0
    ensures e.to != "1"
    ensures e.to == "2" ==> n == "1" && e == DemoAChain()[0]
    ensures e.to == "3" ==> n == "2" && e == DemoAChain()[1]
    ensures e.to == "4" ==> n == "3" && e == DemoAChain()[2]
    ensures e.to == "5" ==> n == "4" && e == DemoAChain()[3]
    ensures e.to == "6" ==> (n == "1" && e == Edge("1", "6", 4.0)) || (n == "5" && e == DemoAChain()[4])
  {
    assert Out(g)(n) == Neighbours(g, n);
  }

  lemma DemoAPathsToOne(g: Graph, p: seq<Edge<string>>)
    requires IsDemoGraphA(g)
    requires IsPathFrom(Out(g), "1", p) && End("1", p) == "1"
    ensures p == []
  {
    if |p| > 0 {
      LastEdge(Out(g), "1", p);
      DemoAInto(g, End("1", p[..|p| - 1]), p[|p| - 1]);
      assert false;
    }
  }

  lemma DemoAPathsToTwo(g: Graph, p: seq<Edge<string>>)
    requires IsDemoGraphA(g)
    requires IsPathFrom(Out(g), "1", p) && End("1", p) == "2"
    ensures p == DemoAChain()[..1]
  {
    LastEdge(Out(g), "1", p);
    DemoAInto(g, End("1", p[..|p| - 1]), p[|p| - 1]);
    DemoAPathsToOne(g, p[..|p| - 1]);
  }

  lemma DemoAPathsToThree(g: Graph, p: seq<Edge<string>>)
    requires IsDemoGraphA(g)
    requires IsPathFrom(Out(g), "1", p) && End("1", p) == "3"
    ensures p == DemoAChain()[..2]
  {
    LastEdge(Out(g), "1", p);
    DemoAInto(g, End("1", p[..|p| - 1]), p[|p| - 1]);
    DemoAPathsToTwo(g, p[..|p| - 1]);
    assert DemoAChain()[..2] == DemoAChain()[..1] + [DemoAChain()[1]];
  }

  lemma DemoAPathsToFour(g: Graph, p: seq<Edge<string>>)
    requires IsDemoGraphA(g)
    requires IsPathFrom(Out(g), "1", p) && End("1", p) == "4"
    ensures p == DemoAChain()[..3]
  {
    LastEdge(Out(g), "1", p);
    DemoAInto(g, End("1", p[..|p| - 1]), p[|p| - 1]);
    DemoAPathsToThree(g, p[..|p| - 1]);
    assert DemoAChain()[..3] == DemoAChain()[..2] + [DemoAChain()[2]];
  }

  lemma DemoAPathsToFive(g: Graph, p: seq<Edge<string>>)
    requires IsDemoGraphA(g)
    requires IsPathFrom(Out(g), "1", p) && End("1", p) == "5"
    ensures p == DemoAChain()[..4]
  {
    LastEdge(Out(g), "1", p);
    DemoAInto(g, End("1", p[..|p| - 1]), p[|p| - 1]);
    DemoAPathsToFour(g, p[..|p| - 1]);
    assert DemoAChain()[..4] == DemoAChain()[..3] + [DemoAChain()[3]];
  }

  /** Two paths lead from node 1 to node 6 in the second demo graph: the
      direct edge, of length 4, and the chain, of length 5. */
  lemma DemoAPathsToSix(g: Graph, p: seq<Edge<string>>)
    requires IsDemoGraphA(g)
    requires IsPathFrom(Out(g), "1", p) && End("1", p) == "6"
    ensures p == [Edge("1", "6", 4.0)] || p == DemoAChain()
  {
    LastEdge(Out(g), "1", p);
    var p', e := p[..|p| - 1], p[|p| - 1];
    DemoAInto(g, End("1", p'), e);
    if End("1", p') == "1" {
      DemoAPathsToOne(g, p');
      assert p == [] + [e];
    } else {
      DemoAPathsToFive(g, p');
      assert p == DemoAChain()[..4] + [DemoAChain()[4]];
    }
  }

  lemma DemoAChainLength()
    ensures PathLength(DemoAChain()) == 5.0
  {
    var c := DemoAChain();
    RouteLength(c[0], c[1], c[2]);
    assert c[..3] == [c[0], c[1], c[2]];
    PathLengthAppend(c[..3], c[3]);
    assert c[..3] + [c[3]] == c[..4];
    PathLengthAppend(c[..4], c[4]);
    assert c[..4] + [c[4]] == c;
  }

  /** The second demo: from node 1 to node 6 the search returns the direct
      edge of length 4, not the chain of length 5. */
  method DemoA(fuel: nat) returns (r: SearchResult<string>)
    ensures r.Found? ==> r.path == [Edge("1", "6", 4.0)]
    ensures !r.NotFound?
  {
    var g := DemoGraphA();
    DemoGraphAShape();
    forall n, e | e in Out(g)(n)
      ensures e.cost >= 0.0
    {
      DemoAInto(g, n, e);
    }
    assert Edge("1", "6", 4.0) in Neighbours(g, "1");
    DirectEdge(g, "1", Edge("1", "6", 4.0));
    r := ShortestPath(g, "1", "6", fuel);
    if r.Found? {
      DemoAPathsToSix(g, r.path);
      DemoAChainLength();
    }
  }

  /** Nodes 1 to 6: 1→2 (1), 1→6 (10), and the cycle 2→3→4→5→1 at 1 each. */
  function DemoGraphB(): Graph
  {
    AddEdge(AddEdge(AddEdge(AddEdge(AddEdge(AddEdge(map[], "1", "2", 1.0), "1", "6", 10.0), "2", "3", 1.0), "3", "4", 1.0),
            "4", "5", 1.0), "5", "1", 1.0)
  }

  ghost predicate IsDemoGraphB(g: Graph)
  {
    forall n :: Neighbours(g, n) ==
      if n == "1" then [Edge("1", "2", 1.0), Edge("1", "6", 10.0)]
      else if n == "2" then [Edge("2", "3", 1.0)]
      else if n == "3" then [Edge("3", "4", 1.0)]
      else if n == "4" then [Edge("4", "5", 1.0)]
      else if n == "5" then [Edge("5", "1", 1.0)]
      else []
  }

  lemma DemoGraphBShape()
    ensures IsDemoGraphB(DemoGraphB())
  {
  }

  /** The edges that enter nodes 1 and 6 of the third demo graph. */
  lemma DemoBInto(g: Graph, n: string, e: Edge<string>)
    requires IsDemoGraphB(g) && e in Out(g)(n)
    ensures e.cost >= 0.0
    ensures e.to == "1" ==> n == "5" && e == Edge("5", "1", 1.0)
    ensures e.to == "6" ==> n == "1" && e == Edge("1", "6", 10.0)
  {
    assert Out(g)(n) == Neighbours(g, n);
  }

  lemma DemoBNonNegative(g: Graph)
    requires IsDemoGraphB(g)
    ensures NonNegativeCosts(Out(g))
  {
    forall n, e | e in Out(g)(n)
      ensures e.cost >= 0.0
    {
      DemoBInto(g, n, e);
    }
  }

  /** Going round the cycle of the third demo graph back to node 1 costs
      at least 1. */
  lemma DemoBRoundTrip(g: Graph, q: seq<Edge<string>>)
    requires IsDemoGraphB(g)
    requires IsPathFrom(Out(g), "1", q) && End("1", q) == "1" && |q| > 0
    ensures PathLength(q) >= 1.0
  {
    DemoBNonNegative(g);
    LastEdge(Out(g), "1", q);
    var q' := q[..|q| - 1];
    DemoBInto(g, End("1", q'), q[|q| - 1]);
    PathLengthAppend(q', q[|q| - 1]);
    PathLengthPrefix(Out(g), "1", q, |q| - 1);
  }

  /** Every path from node 1 to node 6 in the third demo graph ends with
      the direct edge; going round the cycle first costs at least 1 more, so
      the direct edge alone is the only path of length 10 or less. */
  lemma DemoBCheapestToSix(g: Graph, p: seq<Edge<string>>)
    requires IsDemoGraphB(g)
    requires IsPathFrom(Out(g), "1", p) && End("1", p) == "6"
    requires PathLength(p) <= 10.0
    ensures p == [Edge("1", "6", 10.0)]
  {
    LastEdge(Out(g), "1", p);
    var p' := p[..|p| - 1];
    DemoBInto(g, End("1", p'), p[|p| - 1]);
    PathLengthAppend(p', p[|p| - 1]);
    if |p'| > 0 {
      DemoBRoundTrip(g, p');
      assert false;
    }
  }

  /** The third demo: from node 1 to node 6 the search cannot report that
      no path exists, and a path it finds is the direct edge of length 10,
      not a route round the cycle back to node 1. */
  method DemoB(fuel: nat) returns (r: SearchResult<string>)
    ensures r.Found? ==> r.path == [Edge("1", "6", 10.0)]
    ensures !r.NotFound?
  {
    var g := DemoGraphB();
    DemoGraphBShape();
    DemoBNonNegative(g);
    assert Edge("1", "6", 10.0) in Neighbours(g, "1");
    DirectEdge(g, "1", Edge("1", "6", 10.0));
    r := ShortestPath(g, "1", "6", fuel);
    if r.Found? {
      DemoBCheapestToSix(g, r.path);
    }
  }
}
