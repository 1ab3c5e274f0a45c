/** `shortestPath` of `script.js`: the robot world searched from a start
    state for a state that matches a goal, skipping states that
    `compareWorldState` finds already expanded. */
module RobotSearch {
  import opened Paths
  import opened Search
  import opened RobotWorld
  import opened Ascii
  import opened Wrappers

  /** `getEdges` on a robot state, total: a state whose location is out of
      range (on which the source would fail) has no moves. */
  function Expand(s: Robot): (r: seq<Edge<Robot>>)
    ensures forall e :: e in r ==> e.from == s
    ensures ValidLocation(s) ==> |r| >= |s.rooms[s.location].connections|
  {
    if ValidLocation(s) then MoveRobot(s) else []
  }

  /** `state.equals(end)`, total in the same way. */
  predicate Matches(end: Goal, s: Robot)
  {
    (end.place.Some? ==> ValidLocation(s)) && Equals(s, end)
  }

  /** Every move costs 1, 10 or 0.25, never less than zero. */
  lemma MoveCostsPositive(s: Robot)
    ensures forall e :: e in Expand(s) ==> e.cost > 0.0
  {
    if ValidLocation(s) {
      var es := MoveRobot(s);
      var n := |s.rooms[s.location].connections|;
      forall j | 0 <= j < |es|
        ensures es[j].cost > 0.0
      {
        if j < n {
          if s.rooms[s.location].connections[j].connectionType == Hallway {
            HallwayMove(s, j);
          } else {
            DoorMove(s, j);
          }
        } else {
          HandlingMoves(s);
        }
      }
    }
  }

  lemma SameShapeTransitive(a: Robot, b: Robot, c: Robot)
    requires SameShape(a, b) && SameShape(b, c)
    ensures SameShape(a, c)
  {
  }

  /** Every state on a path from a well-formed start is well-formed and
      over the start's rooms: the searched states all have the same shape. */
  lemma ReachableStates(start: Robot, path: seq<Edge<Robot>>)
    requires WellFormed(start)
    requires IsPathFrom(Expand, start, path)
    ensures forall i :: 0 <= i <= |path| ==>
      WellFormed(NodeAt(start, path, i)) && SameShape(start, NodeAt(start, path, i))
    ensures WellFormed(End(start, path)) && SameShape(start, End(start, path))
  {
    var inv := (s: Robot) => WellFormed(s) && SameShape(start, s);
    forall n, e | inv(n) && e in Expand(n)
      ensures inv(e.to)
    {
      MovesPreserveWellFormed(n);
      SameShapeTransitive(start, n, e.to);
    }
    InvariantAlongPath(Expand, inv, start, path);
  }

  /** On states of the start's shape, the checked-state test by equality
      is the source's scan with `compareWorldState`. */
  lemma CheckedTestIsCompare(start: Robot, checked: seq<Robot>, node: Robot)
    requires forall j :: 0 <= j < |checked| ==> SameShape(start, checked[j])
    requires SameShape(start, node)
    ensures IsNodeChecked((s: Robot) => s, checked, node) <==>
      exists j :: 0 <= j < |checked| && |checked[j].rooms| <= |node.rooms| && CompareWorldState(checked[j], node)
  {
    forall j | 0 <= j < |checked|
      ensures |checked[j].rooms| <= |node.rooms| && (CompareWorldState(checked[j], node) <==> checked[j] == node)
    {
      CompareIsEquality(checked[j], node);
    }
  }

  /** The search is well behaved on robot states: costs are positive, and
      with equality as the checked-state test two "same" states are one. */
  lemma RobotSearchWellBehaved(end: Goal)
    ensures WellBehaved(Expand, (s: Robot) => s, (s: Robot) => Matches(end, s))
  {
    forall n, e | e in Expand(n)
      ensures e.cost >= 0.0
    {
      MoveCostsPositive(n);
    }
  }

  /** `shortestPath(start, end)`. The empty path exactly when the start
      already matches; otherwise a non-empty chain of moves from `start` to a
      matching state that costs no more than any other such chain; `NotFound`
      only when no chain of moves reaches a matching state. */
  method ShortestPath(start: Robot, end: Goal, fuel: nat) returns (r: SearchResult<Robot>)
    requires WellFormed(start)
    ensures (r.Found? && |r.path| == 0) <==> Equals(start, end)
    ensures r.Found? ==>
      && IsPathFrom(Expand, start, r.path)
      && Chained(start, r.path)
      && WellFormed(End(start, r.path))
      && Equals(End(start, r.path), end)
      && NoStateTwice(start, r.path)
    ensures r.Found? ==>
      forall p :: IsPathFrom(Expand, start, p) && Matches(end, End(start, p)) ==> PathLength(r.path) <= PathLength(p)
    ensures r.NotFound? ==> forall p :: IsPathFrom(Expand, start, p) ==> !Matches(end, End(start, p))
  {
    RobotSearchWellBehaved(end);
    r := ShortestPathOrHere(Expand, (s: Robot) => s, (s: Robot) => Matches(end, s), start, fuel);
    if r.Found? {
      ReachableStates(start, r.path);
      PathIsChained(Expand, start, r.path);
    }
  }

  // ---------------------------------------------------------------------
  // A door between two rooms

  /** Room `a` with a door east to room `b`, which holds the Key and has the
      matching door back west. */
  function DoorMap(): seq<Room>
  {
    [Room("a", Nothing, [Connection("E", Door, "b")]), Room("b", Key, [Connection("W", Door, "a")])]
  }

  /** The same rooms once the door is forced: a hallway both ways, the
      rewritten connections upper-cased. */
  function ForcedMap(): seq<Room>
  {
    [Room("a", Nothing, [Connection("E", Hallway, "B")]), Room("b", Key, [Connection("W", Hallway, "A")])]
  }

  lemma CaseFacts()
    ensures Upper("a") == "A" && Upper("b") == "B"
    ensures Lower("a") == "a" && Lower("b") == "b" && Lower("A") == "a" && Lower("B") == "b"
    ensures Upper("E") == "E" && Upper("W") == "W"
  {
    assert Upper("E") == [UpperChar('E')];
    assert Upper("W") == [UpperChar('W')];
    assert Upper("a") == [UpperChar('a')];
    assert Upper("b") == [UpperChar('b')];
    assert Lower("a") == [LowerChar('a')];
    assert Lower("b") == [LowerChar('b')];
    assert Lower("A") == [LowerChar('A')];
    assert Lower("B") == [LowerChar('B')];
  }

  /** In `a` with empty hands the only move is forcing the door, which
      leaves the robot in `a`. */
  lemma ForceIsTheOnlyMove()
    ensures Expand(Robot(Nothing, DoorMap(), 0)) ==
      [Edge(Robot(Nothing, DoorMap(), 0), Robot(Nothing, ForcedMap(), 0), 10.0)]
  {
    CaseFacts();
    var s := Robot(Nothing, DoorMap(), 0);
    assert RewriteConnections([Connection("E", Door, "b")], "B", Hallway) == [Connection("E", Hallway, "B")];
    assert RewriteConnections([Connection("W", Door, "a")], "A", Hallway) == [Connection("W", Hallway, "A")];
    assert UpdateRoom(DoorMap()[0], "A", "B", Hallway) == ForcedMap()[0];
    assert UpdateRoom(DoorMap()[1], "A", "B", Hallway) == ForcedMap()[1];
    assert UpdateRoomConnection("a", "B", Hallway, DoorMap()) == ForcedMap();
    assert ConnectionMove(s, DoorMap()[0].connections[0]) == Edge(s, Robot(Nothing, ForcedMap(), 0), 10.0);
  }

  /** After forcing, the only move from `a` is the hallway into `b`. */
  lemma HallwayIsTheOnlyMove()
    ensures Expand(Robot(Nothing, ForcedMap(), 0)) ==
      [Edge(Robot(Nothing, ForcedMap(), 0), Robot(Nothing, ForcedMap(), 1), 1.0)]
  {
    CaseFacts();
    var s := Robot(Nothing, ForcedMap(), 0);
    assert !NameMatches(ForcedMap(), 0, "B") && NameMatches(ForcedMap(), 1, "B");
    assert GetRoomIndex(ForcedMap(), "B") == 1;
    assert ConnectionMove(s, ForcedMap()[0].connections[0]) == Edge(s, Robot(Nothing, ForcedMap(), 1), 1.0);
  }

  /** The door map's start is well formed: both connections resolve. */
  lemma DoorMapWellFormed()
    ensures WellFormed(Robot(Nothing, DoorMap(), 0))
  {
    CaseFacts();
    assert !NameMatches(DoorMap(), 0, "b") && NameMatches(DoorMap(), 1, "b");
    assert GetRoomIndex(DoorMap(), "b") == 1;
    assert NameMatches(DoorMap(), 0, "a");
    assert GetRoomIndex(DoorMap(), "a") == 0;
  }

  /** Forcing the door and then walking through it. */
  function DoorRoute(): seq<Edge<Robot>>
  {
    [Edge(Robot(Nothing, DoorMap(), 0), Robot(Nothing, ForcedMap(), 0), 10.0),
     Edge(Robot(Nothing, ForcedMap(), 0), Robot(Nothing, ForcedMap(), 1), 1.0)]
  }

  /** The route is a path from `a` that ends in `b`, at cost 11. */
  lemma DoorRouteReachesB()
    ensures IsPathFrom(Expand, Robot(Nothing, DoorMap(), 0), DoorRoute())
    ensures Matches(GotoGoal("b", ""), End(Robot(Nothing, DoorMap(), 0), DoorRoute()))
    ensures PathLength(DoorRoute()) == 11.0
  {
    var s0 := Robot(Nothing, DoorMap(), 0);
    var route := DoorRoute();
    ForceIsTheOnlyMove();
    HallwayIsTheOnlyMove();
    assert route[0] in Expand(NodeAt(s0, route, 0));
    assert route[1] in Expand(NodeAt(s0, route, 1));
    assert StringToObjectType("") == None;
    PathLengthAppend([route[0]], route[1]);
    PathLengthAppend([], route[0]);
    assert [route[0]] == [] + [route[0]];
    assert route == [route[0]] + [route[1]];
  }

  /** Every way into `b` forces the door (10) and then walks through
      (1): at least 11. */
  lemma DoorRouteLowerBound(p: seq<Edge<Robot>>)
    requires IsPathFrom(Expand, Robot(Nothing, DoorMap(), 0), p)
    requires Matches(GotoGoal("b", ""), End(Robot(Nothing, DoorMap(), 0), p))
    ensures PathLength(p) >= 11.0
  {
    var s0 := Robot(Nothing, DoorMap(), 0);
    ForceIsTheOnlyMove();
    HallwayIsTheOnlyMove();
    assert |p| > 0;
    assert p[0] in Expand(NodeAt(s0, p, 0));
    assert |p| > 1;
    assert p[1] in Expand(NodeAt(s0, p, 1));
    assert p[..2] == DoorRoute();
    DoorRouteReachesB();
    RobotSearchWellBehaved(GotoGoal("b", ""));
    PathLengthPrefix(Expand, s0, p, 2);
  }

  /** Searching from `a` for `goto b`: the search finds a route, and it
      costs 11, forcing the door (10) and then walking through it (1). */
  method DoorDemo(fuel: nat) returns (r: SearchResult<Robot>)
    ensures r.Found? ==> PathLength(r.path) == 11.0
    ensures !r.NotFound?
  {
    DoorMapWellFormed();
    DoorRouteReachesB();
    r := ShortestPath(Robot(Nothing, DoorMap(), 0), GotoGoal("b", ""), fuel);
    if r.Found? {
      DoorRouteLowerBound(r.path);
    }
  }
}
