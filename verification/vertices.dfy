/** A vertex of a lazily expanded graph: a state together with the edges
    computed for it so far (`Robot.getEdges`, `WorldNode.getEdges`,
    `addEdge`).

    The module stands on its own: the searches take the edges of a state
    as a pure function, and `GetEdges` shows that the stored list agrees
    with that function, so no search imports this module. */
module Vertices {
  import opened Paths

  datatype Vertex<N> = Vertex(state: N, edges: seq<Edge<N>>)

  /** `addEdge`: appends an edge from this vertex's state. */
  function AddEdge<N>(v: Vertex<N>, neighbour: N, cost: real): (r: Vertex<N>)
    ensures r.state == v.state
    ensures |r.edges| == |v.edges| + 1 && r.edges[..|v.edges|] == v.edges
    ensures r.edges[|v.edges|].from == v.state && r.edges[|v.edges|].to == neighbour && r.edges[|v.edges|].cost == cost
  {
    v.(edges := v.edges + [Edge(v.state, neighbour, cost)])
  }

  /** The stored edges are either not yet computed or exactly the
      expansion of the state. */
  ghost predicate CacheAgrees<N>(expand: N -> seq<Edge<N>>, v: Vertex<N>)
  {
    v.edges == [] || v.edges == expand(v.state)
  }

  /** `getEdges`: expands the state when no edges are stored yet, stores the
      result, and returns the stored edges. */
  function GetEdges<N>(expand: N -> seq<Edge<N>>, v: Vertex<N>): (r: (Vertex<N>, seq<Edge<N>>))
    ensures r.0.state == v.state && r.1 == r.0.edges
    ensures CacheAgrees(expand, v) ==> r.1 == expand(v.state) && CacheAgrees(expand, r.0)
    ensures |v.edges| > 0 ==> r.0 == v
  {
    var v' := if |v.edges| == 0 then v.(edges := expand(v.state)) else v;
    (v', v'.edges)
  }

  /** Asking again returns the same edges and leaves the vertex as it was
      after the first call: the expansion is computed once. */
  lemma GetEdgesStable<N>(expand: N -> seq<Edge<N>>, v: Vertex<N>)
    ensures var (v1, es1) := GetEdges(expand, v);
      GetEdges(expand, v1) == (v1, es1)
  {
  }
}
