/** The grid world of `source/main.ts`: a `SimpleWorld` is a position on a
    map of cells, where the cells marked `'r'` are rooms; a `WorldNode`
    wraps a world state with its lazily generated edges. */
module GridWorld {
  import opened Wrappers
  import opened Paths
  import opened Search

  /** A map (rows of cells, indexed `[y][x]`) and the position on it. */
  datatype SimpleWorld = SimpleWorld(grid: seq<seq<string>>, x: int, y: int)

  /** The cell at `(x, y)` is a room. */
  ghost predicate Cell(grid: seq<seq<string>>, x: int, y: int)
  {
    0 <= y < |grid| && 0 <= x < |grid[y]| && grid[y][x] == "r"
  }

  function Abs(n: int): nat
  {
    if n < 0 then -n else n
  }

  /** The number of unit steps between two positions. */
  function Distance(a: SimpleWorld, b: SimpleWorld): nat
  {
    Abs(a.x - b.x) + Abs(a.y - b.y)
  }

  /** `getRoom`: the cell at `(x, y)` of a row that exists; none (the
      source's `undefined`) when `x` is outside the row. */
  function GetRoom(grid: seq<seq<string>>, x: int, y: int): (r: Option<string>)
    requires 0 <= y < |grid|
    ensures r.Some? <==> 0 <= x < |grid[y]|
    ensures r.Some? ==> r.value == grid[y][x]
  {
    if 0 <= x < |grid[y]| then Some(grid[y][x]) else None
  }

  /** `isRoom`: the cell at `(x, y)` is `'r'`; a position outside the row
      is not a room. */
  predicate IsRoom(grid: seq<seq<string>>, x: int, y: int)
    requires 0 <= y < |grid|
    ensures IsRoom(grid, x, y) <==> Cell(grid, x, y)
  {
    GetRoom(grid, x, y) == Some("r")
  }

  /** `s` is a room of `w`'s map one unit step from `w`. */
  ghost predicate ValidNext(w: SimpleWorld, s: SimpleWorld)
  {
    s.grid == w.grid && Distance(w, s) == 1 && Cell(w.grid, s.x, s.y)
  }

  /** Where a neighbour lies: 0 right, 1 left, 2 below, 3 above. */
  function Rank(w: SimpleWorld, s: SimpleWorld): int
  {
    if s.x == w.x + 1 then 0 else if s.x == w.x - 1 then 1 else if s.y == w.y + 1 then 2 else 3
  }

  /** `generateValidNextStates`: the neighbouring rooms right, left, below
      and above, in that order, each on the same map. The current row must
      exist (the source reads its length). */
  function GenerateValidNextStates(w: SimpleWorld): (r: seq<SimpleWorld>)
    requires 0 <= w.y < |w.grid|
    ensures |r| <= 4
    ensures forall s :: s in r <==> s.grid == w.grid && Distance(w, s) == 1 && Cell(w.grid, s.x, s.y)
    ensures forall i, j :: 0 <= i < j < |r| ==> Rank(w, r[i]) < Rank(w, r[j])
  {
    NextStatesAreRooms(w);
    RoomsAreNextStates(w);
    NextStatesInOrder(w);
    NextStates(w)
  }

  /** The four checks in the source's order. */
  function NextStates(w: SimpleWorld): seq<SimpleWorld>
    requires 0 <= w.y < |w.grid|
  {
    var (g, x, y) := (w.grid, w.x, w.y);
    (if x + 1 < |g[y]| && IsRoom(g, x + 1, y) then [SimpleWorld(g, x + 1, y)] else [])
    + (if x - 1 >= 0 && IsRoom(g, x - 1, y) then [SimpleWorld(g, x - 1, y)] else [])
    + (if y + 1 < |g| && IsRoom(g, x, y + 1) then [SimpleWorld(g, x, y + 1)] else [])
    + (if y - 1 >= 0 && IsRoom(g, x, y - 1) then [SimpleWorld(g, x, y - 1)] else [])
  }

  lemma NextStatesAreRooms(w: SimpleWorld)
    requires 0 <= w.y < |w.grid|
    ensures |NextStates(w)| <= 4
    ensures forall s :: s in NextStates(w) ==> s.grid == w.grid && Distance(w, s) == 1 && Cell(w.grid, s.x, s.y)
  {
    var (g, x, y) := (w.grid, w.x, w.y);
    var right := if x + 1 < |g[y]| && IsRoom(g, x + 1, y) then [SimpleWorld(g, x + 1, y)] else [];
    var left := if x - 1 >= 0 && IsRoom(g, x - 1, y) then [SimpleWorld(g, x - 1, y)] else [];
    var below := if y + 1 < |g| && IsRoom(g, x, y + 1) then [SimpleWorld(g, x, y + 1)] else [];
    var above := if y - 1 >= 0 && IsRoom(g, x, y - 1) then [SimpleWorld(g, x, y - 1)] else [];
    PieceIsNext(w, right, 1, 0);
    PieceIsNext(w, left, -1, 0);
    PieceIsNext(w, below, 0, 1);
    PieceIsNext(w, above, 0, -1);
    assert NextStates(w) == right + left + below + above;
    assert forall s :: s in NextStates(w) ==> ValidNext(w, s);
  }

  /** One of the four checks yields nothing, or the room one unit step
      away, which is then a valid next state. */
  lemma PieceIsNext(w: SimpleWorld, piece: seq<SimpleWorld>, dx: int, dy: int)
    requires Abs(dx) + Abs(dy) == 1
    requires piece == [] || (piece == [SimpleWorld(w.grid, w.x + dx, w.y + dy)] && 0 <= w.y + dy < |w.grid|
                             && IsRoom(w.grid, w.x + dx, w.y + dy))
    ensures |piece| <= 1
    ensures forall s :: s in piece ==> ValidNext(w, s)
  {
  }

  lemma RoomsAreNextStates(w: SimpleWorld)
    requires 0 <= w.y < |w.grid|
    ensures forall s: SimpleWorld :: s.grid == w.grid && Distance(w, s) == 1 && Cell(w.grid, s.x, s.y) ==> s in NextStates(w)
  {
    forall s: SimpleWorld | s.grid == w.grid && Distance(w, s) == 1 && Cell(w.grid, s.x, s.y)
      ensures s in NextStates(w)
    {
      if s.y == w.y {
        assert s.x == w.x + 1 || s.x == w.x - 1;
      } else {
        assert s.x == w.x && (s.y == w.y + 1 || s.y == w.y - 1);
      }
    }
  }

  lemma NextStatesInOrder(w: SimpleWorld)
    requires 0 <= w.y < |w.grid|
    ensures forall i, j :: 0 <= i < j < |NextStates(w)| ==> Rank(w, NextStates(w)[i]) < Rank(w, NextStates(w)[j])
  {
  }

  /** `SimpleWorld.equals`: same position; the maps are not compared, so
      it is state equality between worlds on one map. */
  predicate Equals(a: SimpleWorld, b: SimpleWorld)
    ensures a.grid == b.grid ==> (Equals(a, b) <==> a == b)
  {
    a.x == b.x && a.y == b.y
  }

  /** `generateEdges`: one edge of cost 1 per valid next state, in order. */
  function GenerateEdges(w: SimpleWorld): (r: seq<Edge<SimpleWorld>>)
    requires 0 <= w.y < |w.grid|
    ensures |r| == |GenerateValidNextStates(w)|
    ensures forall i :: 0 <= i < |r| ==> r[i] == Edge(w, GenerateValidNextStates(w)[i], 1.0)
  {
    var next := GenerateValidNextStates(w);
    seq(|next|, i requires 0 <= i < |next| => Edge(w, next[i], 1.0))
  }

  /** The edges `WorldNode.getEdges` returns for a state, total: a state
      whose row does not exist (on which the source would fail) has none. */
  function Expand(w: SimpleWorld): (r: seq<Edge<SimpleWorld>>)
    ensures 0 <= w.y < |w.grid| ==>
      forall e :: e in r <==>
        e.from == w && e.cost == 1.0 && e.to.grid == w.grid && Distance(w, e.to) == 1 && Cell(w.grid, e.to.x, e.to.y)
    ensures forall e :: e in r ==> e.from == w && e.cost == 1.0 && e.to.grid == w.grid && Distance(w, e.to) == 1
  {
    if 0 <= w.y < |w.grid| then
      var es := GenerateEdges(w);
      assert forall e :: e in es ==> exists i :: 0 <= i < |es| && e == Edge(w, GenerateValidNextStates(w)[i], 1.0);
      assert forall s :: s in GenerateValidNextStates(w) ==> Edge(w, s, 1.0) in es;
      es
    else []
  }

  /** Every state reached from `start` is on `start`'s map. */
  lemma ReachableShareGrid(start: SimpleWorld, path: seq<Edge<SimpleWorld>>)
    requires IsPathFrom(Expand, start, path)
    ensures forall i :: 0 <= i <= |path| ==> NodeAt(start, path, i).grid == start.grid
    ensures End(start, path).grid == start.grid
  {
    InvariantAlongPath(Expand, (s: SimpleWorld) => s.grid == start.grid, start, path);
  }

  /** On one map, equal positions are equal states: the checked-state test
      by equality is the source's scan with `equals`. */
  lemma CheckedTestIsEquals(start: SimpleWorld, checked: seq<SimpleWorld>, node: SimpleWorld)
    requires forall j :: 0 <= j < |checked| ==> checked[j].grid == start.grid
    requires node.grid == start.grid
    ensures IsNodeChecked((s: SimpleWorld) => s, checked, node) <==>
      exists j :: 0 <= j < |checked| && Equals(checked[j], node)
  {
  }

  /** `shortestPath(start, goal)` over world nodes (no already-at-goal
      test). A found path is a non-empty chain of unit moves over `start`'s
      map ending at the goal position; when `start` is not already there it
      is a shortest one, and `NotFound` means the goal position cannot be
      reached. */
  method ShortestPath(start: SimpleWorld, goal: SimpleWorld, fuel: nat) returns (r: SearchResult<SimpleWorld>)
    ensures r.Found? ==>
      && |r.path| > 0
      && IsPathFrom(Expand, start, r.path)
      && Chained(start, r.path)
      && Equals(End(start, r.path), goal)
      && End(start, r.path).grid == start.grid
      && NoStateTwice(start, r.path)
    ensures r.Found? && !Equals(start, goal) ==>
      forall p :: IsPathFrom(Expand, start, p) && Equals(End(start, p), goal) ==> PathLength(r.path) <= PathLength(p)
    ensures r.NotFound? && !Equals(start, goal) ==>
      forall p :: IsPathFrom(Expand, start, p) ==> !Equals(End(start, p), goal)
  {
    assert WellBehaved(Expand, (s: SimpleWorld) => s, (s: SimpleWorld) => Equals(s, goal));
    r := Search.ShortestPath(Expand, (s: SimpleWorld) => s, (s: SimpleWorld) => Equals(s, goal), start, fuel);
    if r.Found? {
      PathIsChained(Expand, start, r.path);
      ReachableShareGrid(start, r.path);
    }
  }

  /** Every path from `start` is at least as long as the distance it
      covers. */
  lemma PathCoversDistance(start: SimpleWorld, p: seq<Edge<SimpleWorld>>)
    requires IsPathFrom(Expand, start, p)
    ensures Distance(start, End(start, p)) as real <= PathLength(p)
  {
    var d := (s: SimpleWorld) => Distance(start, s) as real;
    forall n, e | e in Expand(n)
      ensures d(e.to) <= d(n) + e.cost
    {
    }
    PotentialBound(Expand, (s: SimpleWorld) => true, d, start, p);
  }

  // ---------------------------------------------------------------------
  // The demo worlds

  /** The walk through the listed positions on `grid`, one unit edge per
      step. */
  function Walk(grid: seq<seq<string>>, ps: seq<(int, int)>): (r: seq<Edge<SimpleWorld>>)
    requires |ps| > 0
    ensures |r| == |ps| - 1
  {
    seq(|ps| - 1, i requires 0 <= i < |ps| - 1 =>
      Edge(SimpleWorld(grid, ps[i].0, ps[i].1), SimpleWorld(grid, ps[i + 1].0, ps[i + 1].1), 1.0))
  }

  /** A walk through rooms, each a unit step from the one before, is a path
      whose length is its number of steps. */
  lemma WalkIsPath(grid: seq<seq<string>>, ps: seq<(int, int)>)
    requires |ps| > 0
    requires forall i :: 0 <= i < |ps| ==> Cell(grid, ps[i].0, ps[i].1)
    requires forall i :: 0 <= i < |ps| - 1 ==> Abs(ps[i].0 - ps[i + 1].0) + Abs(ps[i].1 - ps[i + 1].1) == 1
    ensures var start := SimpleWorld(grid, ps[0].0, ps[0].1);
      && IsPathFrom(Expand, start, Walk(grid, ps))
      && End(start, Walk(grid, ps)) == SimpleWorld(grid, ps[|ps| - 1].0, ps[|ps| - 1].1)
      && PathLength(Walk(grid, ps)) == (|ps| - 1) as real
  {
    var start := SimpleWorld(grid, ps[0].0, ps[0].1);
    var w := Walk(grid, ps);
    forall i | 0 <= i < |w|
      ensures w[i] in Expand(NodeAt(start, w, i))
    {
      assert NodeAt(start, w, i) == SimpleWorld(grid, ps[i].0, ps[i].1);
    }
    PathLengthUnitCosts(w);
  }

  /** The first grid demo's map: a corridor down the left, across row 1,
      and down the right to (2, 4). */
  function BasicGrid(): seq<seq<string>>
  {
    [["r", "x", "x"], ["r", "r", "r"], ["r", "x", "r"], ["r", "x", "r"], ["x", "x", "r"]]
  }

  /** What a grid search result means when a route as long as the distance
      to the goal position exists: no path is ruled out, and a path found
      is exactly that long and ends on the goal position of the start's
      map. */
  lemma DemoOutcome(start: SimpleWorld, goal: SimpleWorld, route: seq<Edge<SimpleWorld>>, r: SearchResult<SimpleWorld>)
    requires !Equals(start, goal)
    requires IsPathFrom(Expand, start, route) && End(start, route) == SimpleWorld(start.grid, goal.x, goal.y)
    requires PathLength(route) == Distance(start, End(start, route)) as real
    requires r.Found? ==> IsPathFrom(Expand, start, r.path) && Equals(End(start, r.path), goal)
                          && End(start, r.path).grid == start.grid
    requires r.Found? ==>
      forall p :: IsPathFrom(Expand, start, p) && Equals(End(start, p), goal) ==> PathLength(r.path) <= PathLength(p)
    requires r.NotFound? ==> forall p :: IsPathFrom(Expand, start, p) ==> !Equals(End(start, p), goal)
    ensures r.Found? ==> PathLength(r.path) == PathLength(route) && End(start, r.path) == End(start, route)
    ensures !r.NotFound?
  {
    assert Equals(End(start, route), goal);
    if r.Found? {
      PathCoversDistance(start, r.path);
    }
  }

  /** Down the left, across row 1 and down the right: a path of 6 steps
      from (0, 0) to (2, 4) on the first demo's map. */
  lemma BasicGridRoute() returns (w: seq<Edge<SimpleWorld>>)
    ensures IsPathFrom(Expand, SimpleWorld(BasicGrid(), 0, 0), w)
    ensures End(SimpleWorld(BasicGrid(), 0, 0), w) == SimpleWorld(BasicGrid(), 2, 4)
    ensures PathLength(w) == 6.0 == Distance(SimpleWorld(BasicGrid(), 0, 0), SimpleWorld(BasicGrid(), 2, 4)) as real
  {
    var ps := [(0, 0), (0, 1), (1, 1), (2, 1), (2, 2), (2, 3), (2, 4)];
    WalkIsPath(BasicGrid(), ps);
    w := Walk(BasicGrid(), ps);
  }

  /** The first grid demo: from (0, 0) to the position (2, 4) of a goal
      built on an empty map, the search finds a walk of 6 steps, the fewest
      possible. */
  method BasicGridDemo(fuel: nat) returns (r: SearchResult<SimpleWorld>)
    ensures r.Found? ==> PathLength(r.path) == 6.0 && End(SimpleWorld(BasicGrid(), 0, 0), r.path) == SimpleWorld(BasicGrid(), 2, 4)
    ensures !r.NotFound?
  {
    var start := SimpleWorld(BasicGrid(), 0, 0);
    var goal := SimpleWorld([], 2, 4);
    ghost var route := BasicGridRoute();
    r := ShortestPath(start, goal, fuel);
    DemoOutcome(start, goal, route, r);
  }

  /** The second grid demo's map: a ring of rooms round the edge with a
      spur in from the left at row 2. */
  function RingGrid(): seq<seq<string>>
  {
    [["r", "r", "r", "r", "r"],
     ["r", "x", "x", "x", "r"],
     ["r", "r", "r", "x", "r"],
     ["x", "x", "r", "x", "r"],
     ["x", "x", "r", "r", "r"]]
  }

  /** Left along row 2 and up the left side: a path of 4 steps from (2, 2)
      to (0, 0) on the ring map. */
  lemma RingGridRoute() returns (w: seq<Edge<SimpleWorld>>)
    ensures IsPathFrom(Expand, SimpleWorld(RingGrid(), 2, 2), w)
    ensures End(SimpleWorld(RingGrid(), 2, 2), w) == SimpleWorld(RingGrid(), 0, 0)
    ensures PathLength(w) == 4.0 == Distance(SimpleWorld(RingGrid(), 2, 2), SimpleWorld(RingGrid(), 0, 0)) as real
  {
    var ps := [(2, 2), (1, 2), (0, 2), (0, 1), (0, 0)];
    WalkIsPath(RingGrid(), ps);
    w := Walk(RingGrid(), ps);
    assert Distance(SimpleWorld(RingGrid(), 2, 2), SimpleWorld(RingGrid(), 0, 0)) == 4;
  }

  /** The second grid demo, first goal: from (2, 2) to (0, 0) the search
      finds a walk of 4 steps, the fewest possible. */
  method RingGridDemo(fuel: nat) returns (r: SearchResult<SimpleWorld>)
    ensures r.Found? ==> PathLength(r.path) == 4.0 && End(SimpleWorld(RingGrid(), 2, 2), r.path) == SimpleWorld(RingGrid(), 0, 0)
    ensures !r.NotFound?
  {
    var start := SimpleWorld(RingGrid(), 2, 2);
    var goal := SimpleWorld([], 0, 0);
    ghost var route := RingGridRoute();
    r := ShortestPath(start, goal, fuel);
    DemoOutcome(start, goal, route, r);
  }

  /** The room cells of the ring map: row 0, the left column down to row
      2, row 2 across to the spur, the spur down column 2, row 4 from the
      spur and the right column. */
  predicate RingRoom(x: int, y: int)
  {
    || (y == 0 && 0 <= x <= 4)
    || (x == 4 && 0 <= y <= 4)
    || (x == 0 && 0 <= y <= 2)
    || (y == 2 && 0 <= x <= 2)
    || (x == 2 && 2 <= y <= 4)
    || (y == 4 && 2 <= x <= 4)
  }

  /** A map whose room cells are exactly those of the ring map. */
  ghost predicate RingShape(g: seq<seq<string>>)
  {
    forall x, y :: Cell(g, x, y) <==> RingRoom(x, y)
  }

  /** The ring map has the ring's shape. */
  lemma RingGridShape()
    ensures RingShape(RingGrid())
  {
    var g := RingGrid();
    forall x, y | Cell(g, x, y)
      ensures RingRoom(x, y)
    {
      assert 0 <= y < 5 && 0 <= x < 5;
    }
    forall x, y | RingRoom(x, y)
      ensures Cell(g, x, y)
    {
      assert 0 <= y < 5 && 0 <= x < 5;
    }
  }

  /** The fewest unit steps from a room `(x, y)` of the ring map to the
      room (4, 1), the position of the second demo goal. */
  function RingStepsToFourOne(x: int, y: int): int
  {
    if x == 4 && y == 1 then 0
    else if x == 4 && (y == 0 || y == 2) then 1
    else if (x == 3 && y == 0) || (x == 4 && y == 3) then 2
    else if (x == 2 && y == 0) || (x == 4 && y == 4) then 3
    else if (x == 1 && y == 0) || (x == 3 && y == 4) then 4
    else if (x == 0 && y == 0) || (x == 2 && y == 4) then 5
    else if (x == 0 && y == 1) || (x == 2 && y == 3) then 6
    else if (x == 0 || x == 2) && y == 2 then 7
    else 8
  }

  /** One unit step between rooms of the ring lowers the step count to
      (4, 1) by at most one. */
  lemma RingStepsStep(x: int, y: int, x': int, y': int)
    requires RingRoom(x, y) && RingRoom(x', y')
    requires Abs(x - x') + Abs(y - y') == 1
    ensures RingStepsToFourOne(x, y) <= RingStepsToFourOne(x', y') + 1
  {
  }

  /** A room of a map with the ring's shape. */
  ghost predicate OnRing(g: seq<seq<string>>, s: SimpleWorld)
  {
    s.grid == g && RingRoom(s.x, s.y)
  }

  /** A move from a room of a ring-shaped map leads to a room of that map
      and lowers the step count to (4, 1) by at most its cost. */
  lemma RingEdgeStep(g: seq<seq<string>>, n: SimpleWorld, e: Edge<SimpleWorld>)
    requires RingShape(g) && OnRing(g, n) && e in Expand(n)
    ensures OnRing(g, e.to)
    ensures RingStepsToFourOne(n.x, n.y) as real <= RingStepsToFourOne(e.to.x, e.to.y) as real + e.cost
  {
    assert Cell(g, n.x, n.y);
    assert Cell(g, e.to.x, e.to.y);
    RingStepsStep(n.x, n.y, e.to.x, e.to.y);
  }

  /** Every path from a room of a ring-shaped map stays on rooms of that map
      and costs at least the drop in step count to (4, 1) between its
      ends. */
  lemma RingStepsBound(g: seq<seq<string>>, start: SimpleWorld, p: seq<Edge<SimpleWorld>>)
    requires RingShape(g) && OnRing(g, start) && IsPathFrom(Expand, start, p)
    ensures OnRing(g, End(start, p))
    ensures PathLength(p) >= (RingStepsToFourOne(start.x, start.y) - RingStepsToFourOne(End(start, p).x, End(start, p).y)) as real
  {
    var inv := (s: SimpleWorld) => OnRing(g, s);
    var d := (s: SimpleWorld) => -(RingStepsToFourOne(s.x, s.y) as real);
    forall n, e | inv(n) && e in Expand(n)
      ensures inv(e.to) && d(e.to) <= d(n) + e.cost
    {
      RingEdgeStep(g, n, e);
    }
    PotentialBound(Expand, inv, d, start, p);
  }

  /** Down the spur, along the bottom and up the right side: a path of 7
      steps from the room (2, 2) to (4, 1) on the ring map, as many as the
      step count of (2, 2). */
  lemma RingGridRouteTwo() returns (w: seq<Edge<SimpleWorld>>)
    ensures RingShape(RingGrid()) && OnRing(RingGrid(), SimpleWorld(RingGrid(), 2, 2))
    ensures IsPathFrom(Expand, SimpleWorld(RingGrid(), 2, 2), w)
    ensures End(SimpleWorld(RingGrid(), 2, 2), w) == SimpleWorld(RingGrid(), 4, 1)
    ensures |w| == 7 == RingStepsToFourOne(2, 2) && RingStepsToFourOne(4, 1) == 0
    ensures PathLength(w) == |w| as real
  {
    var ps := [(2, 2), (2, 3), (2, 4), (3, 4), (4, 4), (4, 3), (4, 2), (4, 1)];
    WalkIsPath(RingGrid(), ps);
    w := Walk(RingGrid(), ps);
    RingGridShape();
  }

  /** What a search on a ring-shaped map towards the position (4, 1) means
      when a unit-step route as long as the start's step count exists: no
      path is ruled out, and a path found has exactly that many steps and
      ends where the route ends, on (4, 1) of that map. */
  lemma RingDemoOutcome(g: seq<seq<string>>, start: SimpleWorld, goal: SimpleWorld, route: seq<Edge<SimpleWorld>>,
                        r: SearchResult<SimpleWorld>)
    requires RingShape(g) && OnRing(g, start) && !Equals(start, goal) && RingStepsToFourOne(goal.x, goal.y) == 0
    requires IsPathFrom(Expand, start, route) && End(start, route) == SimpleWorld(g, goal.x, goal.y)
    requires |route| == RingStepsToFourOne(start.x, start.y) && PathLength(route) == |route| as real
    requires r.Found? ==> IsPathFrom(Expand, start, r.path) && Equals(End(start, r.path), goal)
                          && End(start, r.path).grid == start.grid && |r.path| > 0
    requires r.Found? ==>
      forall p :: IsPathFrom(Expand, start, p) && Equals(End(start, p), goal) ==> PathLength(r.path) <= PathLength(p)
    requires r.NotFound? ==> forall p :: IsPathFrom(Expand, start, p) ==> !Equals(End(start, p), goal)
    ensures r.Found? ==> |r.path| == |route| && r.path[|r.path| - 1].to == End(start, route)
    ensures !r.NotFound?
  {
    assert Equals(End(start, route), goal);
    if r.Found? {
      RingStepsBound(g, start, r.path);
      forall i | 0 <= i < |r.path|
        ensures r.path[i].cost == 1.0
      {
        assert r.path[i] in Expand(NodeAt(start, r.path, i));
      }
      PathLengthUnitCosts(r.path);
    }
  }

  /** The second grid demo, second goal: from (2, 2) to (4, 1) the search
      finds a walk of 7 steps round the ring, the fewest possible, although
      the two positions are only 3 unit steps apart. */
  method RingGridDemoTwo(fuel: nat) returns (r: SearchResult<SimpleWorld>)
    ensures r.Found? ==> |r.path| == 7 && r.path[6].to == SimpleWorld(RingGrid(), 4, 1)
    ensures !r.NotFound?
  {
    var start := SimpleWorld(RingGrid(), 2, 2);
    var goal := SimpleWorld([], 4, 1);
    ghost var route := RingGridRouteTwo();
    r := ShortestPath(start, goal, fuel);
    RingDemoOutcome(RingGrid(), start, goal, route, r);
  }
}
