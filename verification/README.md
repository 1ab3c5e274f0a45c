# Robot planner: a Dafny model

This project models the planning core of a small robot-planning program in two variants.

**`script.js`, the robot world.** A robot stands in one room of a list of rooms and carries at most one object (Key, Orb or Nothing). Each room lists its connections as `"<direction> <H|D> <room>"` strings. The moves are:

- walk through a hallway, at cost 1;
- force a door, at cost 10;
- open a door with the Key, at cost 1, which uses the Key up;
- pick up an object, at cost 0.25;
- drop an object, at cost 0.25.

A uniform-cost search (`shortestPath`) looks for the cheapest chain of moves to a state that matches a partial goal. The goals come from `put`, `goto` and `get` commands. The file also lays the rooms out on a grid for drawing (`createRoomGrid`).

**`source/main.ts`, the TypeScript variant.** It uses the same search without the already-at-goal test. It searches two kinds of graph:

- weighted graphs of `WeightedNode`s;
- a grid world, `SimpleWorld`, whose `'r'` cells are rooms joined by unit moves.

It builds five demo problems and runs six searches on them: the ring map is searched for two goals.

## Modules

- **`Paths`** (`paths.dfy`)
  - edges and paths;
  - `pathLength`, `lastNodeInPath`;
  - the frontier that `pushPath` keeps sorted.
- **`Search`** (`search.dfy`)
  - the generic search over any state type, given:
    - the edges of a state;
    - a key that the checked-state test compares;
    - a goal test;
  - `isNodeChecked`;
  - with and without the already-at-goal test;
  - the loop invariant that gives optimality and unreachability.
- **`RobotWorld`** (`robot.dfy`)
  - rooms and robot states;
  - room lookup, `updateRoomConnection` and `moveRobot`;
  - object names and goal matching (`equals`);
  - `compareWorldState`.
- **`RobotSearch`** (`robot_search.dfy`)
  - `shortestPath` of `script.js` on robot states;
  - a worked door example.
- **`Vertices`** (`vertices.dfy`): the lazily filled edge list of a vertex (`addEdge`, `getEdges`).
- **`RoomLayout`** (`layout.dfy`): `createRoomGrid` and `isRoomProcessed`.
- **`WeightedGraph`** (`graph.dfy`): `WeightedNode`, the weighted search, and the three graph demos.
- **`GridWorld`** (`grid.dfy`): `SimpleWorld`, `WorldNode` and the three grid searches.
- **`Wrappers`** and **`Ascii`**: helpers for `Option`, and ASCII case folding for `toLocaleUpperCase` and `toLocaleLowerCase`.

The model follows the code where the system's written description differs from it:

- **Doors do not move the robot.** The description says forcing the door from `a` to `b` takes the robot into `b` at cost 10. In `script.js` (lines 59-73), forcing or unlocking a door leaves the robot where it is. The door becomes a hallway on both sides, and a further hallway move is needed to go through. The cheapest way into `b` therefore costs 11. `RobotSearch.DoorDemo` proves this.
- **The equality test really is `compareWorldState`.** The description treats the checked-state test as full state equality. The code's `compareWorldState` reads the second state's rooms by the first state's indices, so it is a prefix test (`RobotWorld.CompareIsPrefixCheck`). It is equality only between states over the same rooms (`RobotWorld.CompareIsEquality`). Every state the search meets is over the start's rooms (`RobotSearch.ReachableStates`).

## Model

| member | source | states |
|---|---|---|
| `RobotWorld.CopyRoom` | script.js:9-11 | The copy of a room is a value equal to the original, so changing the copy cannot change the original. |
| `RobotWorld.CopyAllRooms` | script.js:154-158 | The copied room list equals the original, room for room. A successor built from it shares nothing with its parent. |
| `RobotWorld.GetRoomIndex` | script.js:146-153 | Returns the index of the first room whose name matches ignoring case: every earlier room fails to match. Returns -1 exactly when no room matches. |
| `RobotWorld.GetRoom` | script.js:138-145 | Returns a room exactly when some name matches ignoring case. That room is the first match. |
| `RobotWorld.GetRoomIndexDependsOnNames` | script.js:146-153 | Lookups in two room lists with the same names agree. They also agree for two names that are equal ignoring case. |
| `RobotWorld.UpdateRoomConnection` | script.js:98-128 | Names and contents stay the same, and every connection list keeps its length. A connection from the source room to the target room, or back, gets the new type, and its direction and target are upper-cased. Every other connection is unchanged. |
| `RobotWorld.MoveRobot` | script.js:44-97 | There is one edge per connection of the current room, plus one more when a pick-up or a drop is possible. Every edge leaves the current state. |
| `RobotWorld.HallwayMove` | script.js:54-57 | A hallway edge costs 1. It moves the robot to the room that the target name resolves to. Hands and rooms are unchanged. |
| `RobotWorld.DoorMove` | script.js:59-73 | A door edge leaves the robot in place and turns the door into a hallway on both sides. Without the Key it costs 10 and the hands are unchanged. With the Key it costs 1 and the Key is gone. Nothing else in the rooms changes. |
| `RobotWorld.HandlingMoves` | script.js:75-96 | Pick-up and drop never both apply. Pick-up moves the room's object into empty hands, and drop moves the held object into an empty room. Each costs 0.25 and comes after the connection edges. |
| `RobotWorld.PickUpDropRoundTrip` | script.js:75-96 | Dropping what was just picked up restores the state, and so does the reverse. The successors always offer that undoing edge. |
| `RobotWorld.MovesPreserveWellFormed` | script.js:44-97 | From a state whose location and connections all resolve, every successor is again such a state over the same rooms. So no move leaves the map. |
| `RobotWorld.DoorKeepsTargets` | script.js:98-128 | Rewriting a door keeps every connection target resolvable, because it changes targets only in case. |
| `RobotWorld.ObjectsConserved` | script.js:44-97 | No move creates or destroys an object. The one exception is opening a door with the Key, which removes exactly one Key. |
| `RobotWorld.HandlingConserves` | script.js:75-96 | A pick-up or a drop moves one object between the hands and the room, so the world holds the same objects before and after. |
| `RobotWorld.StringToObjectType` | script.js:1039-1053 | Returns an object exactly when the text is some object's name ignoring case, and then it returns that object. Any other text gives no object. |
| `RobotWorld.ObjectNameRoundTrip` | script.js:1039-1053 | An object's own name, written in any case, reads back as that object. |
| `RobotWorld.EqualsIsMonotone` | script.js:159-177 | The empty goal matches every state. A state that matches a goal also matches every goal that asks for less. |
| `RobotWorld.ExactGoalIsState` | script.js:159-177 | A goal that fixes holding, room and contents is matched exactly by the states with that held object, room name and room contents. |
| `RobotWorld.GoalsMetByTheirMoves` | script.js:978-1024 | The drop move meets `put`, the pick-up move meets `get` (both naming the current room), and every state meets `goto` its own room. |
| `RobotWorld.Equals` | script.js:159-177 | A state meets a goal exactly when the goal asks for no more than the state's own full description: its held object, its room's name and its room's contents. |
| `RobotWorld.CompareIsEquality` | script.js:229-253 | For two states over the same rooms, the comparison holds in either direction exactly when the states are equal. |
| `RobotWorld.CompareIsPrefixCheck` | script.js:229-253 | For states over different rooms the comparison is not equality: any state compares equal to every state with the same location and hands and further rooms after its own, although the two differ. |
| `RobotSearch.ShortestPath` | script.js:180-220 | The result is the empty path exactly when the start already matches the goal. Otherwise it is a chain of moves from the start to a matching, well-formed state that, apart from a first move back to the start, never returns to an earlier state, and it costs no more than any other such chain. The search returns no path only when no chain reaches a match. |
| `RobotSearch.CheckedTestIsCompare` | script.js:221-228 | On states shaped like the start, the checked-state test by equality agrees with scanning the checked states with `compareWorldState`. |
| `RobotSearch.ReachableStates` | script.js:180-220 | Every state on a path from a well-formed start is well-formed and over the start's rooms. |
| `RobotSearch.MoveCostsPositive` | script.js:44-97 | Every move costs more than zero. |
| `RobotSearch.RobotSearchWellBehaved` | script.js:180-220 | Robot search meets the conditions for optimality: costs are non-negative, and equal states are interchangeable. |
| `RobotSearch.ForceIsTheOnlyMove` | script.js:59-65 | With empty hands in front of a door, the only move forces it for 10. The robot stays put and the door becomes a hallway both ways. |
| `RobotSearch.DoorRouteLowerBound` | script.js:54-65 | Every way from `a` into `b` through the door costs at least 11. |
| `RobotSearch.DoorDemo` | script.js:54-73 | Searching from `a` for `goto b` cannot report that no path exists. Any path it finds costs exactly 11: forcing (10) and then walking through (1). |
| `Vertices.AddEdge` | script.js:129-131 | The vertex keeps its state and its earlier edges. One edge is appended, from the vertex's own state to the neighbour at the given cost. |
| `Vertices.GetEdges` | script.js:132-137 | The first call fills the edge list with the state's moves, and a later call returns the stored list unchanged. A list that was empty or already the expansion yields exactly the expansion. |
| `Vertices.GetEdgesStable` | script.js:132-137 | Asking twice gives the same edges and the same vertex: the expansion is computed once. |
| `Search.IsNodeChecked` | script.js:221-228 | True exactly when some checked state has the node's key. |
| `Search.UncheckedExtensions` | script.js:201-213 | Every extension listed is the current path extended by one edge whose target is not checked, and every such edge's extension is listed. There are no more of them than edges. |
| `Search.PushSuccessors` | script.js:201-213 | The frontier stays sorted. Counted with repetitions, it holds exactly the earlier entries plus one one-edge extension of the current path for each edge to a state not yet checked; an edge to a checked state adds nothing. With no edges the frontier is unchanged. |
| `Search.ShortestPathOrHere` | script.js:180-220 | The empty path is returned exactly when the start is a goal. A returned path leads to a goal and, apart from a first edge back to the start, never visits a state with the key of an earlier one. Under non-negative costs no other path to a goal is cheaper. Not finding a path means no goal, the start included, is reachable. |
| `Search.ShortestPath` | source/main.ts:285-322 | A returned path is non-empty and leads from the start to a goal. Apart from a first edge back to the start, it never visits a state with the key of an earlier one. When costs are non-negative and the start is not a goal, it is a cheapest one, and not finding a path means no goal is reachable. A start without edges gives no path. |
| `Search.FoundIsCheapest` | source/main.ts:295-303 | Under the loop invariant, the front of the sorted frontier, when it reaches a goal, costs no more than any path to a goal. |
| `Search.ExhaustedMeansUnreachable` | source/main.ts:295-321 | Under the loop invariant, an empty frontier means no path from the start reaches a goal. |
| `Search.ExpandKeepsInv` | source/main.ts:304-320 | Taking the front path off the frontier, marking its end checked and pushing its unchecked extensions keeps the loop invariant. |
| `Search.ExpandedPruned` | script.js:198-213 | After an expansion every entry of the frontier passes only through checked states and, apart from a first edge back to the start, never reaches a state with the key of an earlier one. |
| `Paths.PushPathMember` | source/main.ts:333-336 | After a push the entries are exactly the earlier entries and the new path. |
| `Paths.PushPath` | script.js:254-257 | The result is sorted by length and holds, counted with repetitions, exactly the earlier entries and the new path. On a sorted frontier it is the stable insertion: the new path goes after every entry that is not longer and before every longer one. |
| `Paths.StableSortByLength` | source/main.ts:335 | The result is sorted by path length and is a permutation of the input. |
| `Paths.SortSortedIsIdentity` | source/main.ts:333-336 | Stably sorting an already sorted frontier leaves it unchanged. |
| `Paths.PathLengthAppend` | script.js:258-260 | Appending an edge adds exactly that edge's cost to the path length. |
| `Paths.PathLengthConcat` | source/main.ts:338-340 | The length of two paths joined is the sum of their lengths. |
| `Paths.PathLengthPrefix` | source/main.ts:338-340 | With non-negative costs, a prefix of a path never costs more than the whole path, and costs at least zero. |
| `Paths.LastEdge` | script.js:261-263 | A non-empty path ends at its last edge's target, which is what `lastNodeInPath` reads. Without that edge it is a path to the state the last edge leaves. |
| `RoomLayout.IsRoomProcessed` | script.js:385-392 | True exactly when some placed room has the same name. |
| `RoomLayout.Step` | script.js:289-343 | Placing a neighbour only ever appends. It adds one room exactly when the target is not yet placed and the direction is N, E, S or W. The new room sits one step from its parent in that direction and does not carry the robot. Afterwards the target is placed, and the bounds still enclose everything. |
| `RoomLayout.StepKeepsInv` | script.js:289-343 | One connection step keeps the layout invariant: the start is first at the origin and alone carries the robot, and names are distinct. The bounds enclose every room, every room is one of the map's, and every later room lies one compass step from a room placed before it. |
| `RoomLayout.PlaceNeighbours` | script.js:287-344 | Processing one room's connections keeps the earlier placements. Afterwards every compass connection's target is placed. |
| `RoomLayout.Explore` | script.js:274-349 | The breadth-first walk ends with the layout invariant. Every compass connection of every placed room leads to a placed room. |
| `RoomLayout.Paint` | script.js:371 | Each cell of the painted grid holds the last room written at its coordinates, or keeps its old value when none was written there. |
| `RoomLayout.PaintedWalk` | script.js:345-371 | Painting a finished walk, shifted to start at 0, gives a non-empty grid whose every room sits at its own coordinates and is a room of the map, with the robot mark on the start only and no name in two cells. |
| `RoomLayout.WalkCellsFilled` | script.js:345-371 | Painting a finished walk fills the cell at every placed room's shifted coordinates. |
| `RoomLayout.CreateRoomGrid` | script.js:274-373 | The grid is exactly the painting of a finished breadth-first walk from the robot's room, shifted so the smallest coordinates are 0. That walk keeps the layout invariant and places every compass neighbour of every placed room, and each placed room fills a cell. The grid is a non-empty rectangle. Every room in it sits at its own coordinates and is a room of the map, only the robot's room carries the robot mark, and no room name shows in two cells. |
| `WeightedGraph.AddEdge` | source/main.ts:121-123 | The node's edge list gains one edge from the node to the neighbour at the given cost. Every other node's list is unchanged. |
| `WeightedGraph.AddEdgeKeepsLabelled` | source/main.ts:121-127 | If every stored edge leaves the node it is stored at, that still holds after adding an edge. |
| `WeightedGraph.ShortestPath` | source/main.ts:285-322 | A returned path is a non-empty chain of stored edges ending at the goal node that, apart from a first edge back to the start, visits no node twice. With non-negative costs and a start other than the goal, it is cheapest, and not finding a path means the goal cannot be reached. A start without edges gives no path. |
| `WeightedGraph.SelfSearchNotFound` | source/main.ts:285-322 | A search from a node to itself, when that node has no out-edges, reports no path, although the empty path reaches it. |
| `WeightedGraph.Demo` | source/main.ts:371-387 | From node 1 to node 5 the search cannot report that no path exists. Any path it finds is 1→3→4→5, of length 13. |
| `WeightedGraph.DemoA` | source/main.ts:389-406 | From node 1 to node 6 any path found is the direct edge of length 4, not the chain of five unit edges. |
| `WeightedGraph.DemoB` | source/main.ts:408-425 | From node 1 to node 6 the search cannot report that no path exists. Any path it finds is the direct edge of length 10, not a route round the cycle back to node 1. |
| `WeightedGraph.DemoBCheapestToSix` | source/main.ts:408-425 | In the third demo graph, the only path from node 1 to node 6 of length 10 or less is the direct edge: going round the cycle first costs more. |
| `GridWorld.GenerateValidNextStates` | source/main.ts:217-259 | Returns at most four states on the same map. A state is among them exactly when it is one unit step away on a room cell. They come in the order right, left, below, above. |
| `GridWorld.IsRoom` | source/main.ts:261-268 | A position is a room exactly when it lies within its row and the cell there is `'r'`. |
| `GridWorld.Equals` | source/main.ts:270-273 | Worlds are compared by position only, so between worlds on one map the test holds exactly when they are the same world. |
| `GridWorld.GenerateEdges` | source/main.ts:178-185 | There is one edge of cost 1 from the world to each valid next state, in order. |
| `GridWorld.Expand` | source/main.ts:171-176 | The edges of a world with an existing row are exactly the unit-cost moves to a neighbouring room cell on the same map. |
| `GridWorld.CheckedTestIsEquals` | source/main.ts:324-331 | On one map, the checked-state test by equality agrees with scanning the checked worlds with `SimpleWorld.equals`, which compares positions only. |
| `GridWorld.ShortestPath` | source/main.ts:285-322 | A returned path is a non-empty chain of unit moves on the start's map that ends at the goal position and, apart from a first move back to the start, visits no world twice. When the start is elsewhere it is shortest, and not finding a path means the goal position cannot be reached. |
| `GridWorld.PathCoversDistance` | source/main.ts:217-259 | Every path is at least as long as the number of unit steps between its ends. |
| `GridWorld.BasicGridDemo` | source/main.ts:427-430 | On the first map, from (0,0) towards (2,4), the search cannot report that no path exists. Any path it finds takes 6 steps and ends at (2,4). |
| `GridWorld.RingGridDemo` | source/main.ts:432-445 | On the ring map, from (2,2) towards (0,0), the search cannot report that no path exists. Any path it finds takes 4 steps and ends at (0,0). |
| `GridWorld.RingStepsBound` | source/main.ts:432-438 | On any map whose room cells are those of the ring map, every path from a room stays on rooms and costs at least the drop, between its ends, in the fewest steps to (4,1). |
| `GridWorld.RingGridDemoTwo` | source/main.ts:432-446 | On the ring map, from (2,2) towards (4,1), the search cannot report that no path exists. Any path it finds has 7 steps round the ring and its last step reaches (4,1), although the two positions are only 3 unit steps apart. |
| `Ascii.UpperEqualIffLowerEqual` | script.js:98-128 | Comparing names upper-cased and comparing them lower-cased agree. So the upper-casing lookups and the lower-casing lookups select the same rooms. |

## Left out

- Search.ShortestPath, Search.ShortestPathOrHere, RobotSearch.ShortestPath, RobotSearch.DoorDemo, WeightedGraph.Demo, WeightedGraph.DemoA, WeightedGraph.DemoB, GridWorld.BasicGridDemo, GridWorld.RingGridDemo, GridWorld.RingGridDemoTwo: search termination is not modelled. Every search takes a step bound `fuel` and may return `OutOfFuel`. The source's `while` loop ends because the robot and grid state spaces are finite, and that argument is not modelled. The found-path, optimality and unreachability properties hold whenever the bound is not hit.
- Search.ShortestPath: optimality and unreachability hold only when costs are non-negative, the checked-state test identifies interchangeable states, and the start is not a goal. These hypotheses are the antecedents of the ensures clauses.
- Search.ShortestPathOrHere: optimality and unreachability hold only under the same hypotheses, apart from the condition on the start.
- WeightedGraph.ShortestPath: optimality and unreachability hold only for graphs with non-negative costs and a start other than the goal. The source does not check costs. The graph is a map from node id to edge list, so node ids are assumed unique. The source's `equals` compares ids only, and two distinct nodes with one id, which the source would confuse in the checked-state test, have no counterpart here.
- Paths.StableSortByLength: stability is stated only through Paths.SortSortedIsIdentity and the insertion clause of Paths.PushPath, which is the only way the search sorts.
- GridWorld.ShortestPath: optimality and unreachability are stated only for a start away from the goal. The robot and grid searches discharge the other hypotheses themselves (RobotSearch.RobotSearchWellBehaved).
- **Empty path length.** `pathLength` of an empty path throws in the source, because `reduce` has no initial value. Here it is 0. No search measures an empty path.
- **Arithmetic and case folding.** Costs are exact reals, not IEEE doubles; every cost in the program is exact in binary. `toLocaleUpperCase` and `toLocaleLowerCase` are modelled on ASCII letters only.
- **Connection kinds.** Connection strings are modelled already split into direction, kind and target. Only the kinds `H` and `D` exist. A kind token that is neither yields no move in the source, and has no counterpart here.
- **Invalid states.** A robot state whose location, or a connection target, does not resolve makes the source fail (`undefined.connections`). The robot search and `createRoomGrid` therefore require `WellFormed` starts. `RobotSearch.Expand` and `RobotSearch.Matches` give such states no moves and no match.
- **Undefined results.** An empty grid cell, an unknown object name and a missing room are `None`, where the source has `undefined`.
- **Goal parsing.** `parseGoal` and `executeGoal` read the page and write feedback. Only the goals they construct are modelled (`RobotWorld.PutGoal`, `RobotWorld.GotoGoal`, `RobotWorld.GetGoal`).
- **The rest of the program.** These are I/O and presentation, and are not part of this model:
  - the map data (`createMap`);
  - the random ids of rooms;
  - the DOM, canvas and console output (`printPath`, `printRoomGrid`, `render`, `drawRobotPath`, `init`);
  - the `toString` and `addNode` helpers of the TypeScript graph classes.
- **Mutable vertices.** The search uses `edges` as a pure function of the state. The stored edge list of a vertex is modelled separately in `Vertices`, and `Vertices.GetEdges` shows that the stored list agrees with that function.

## Findings

| source | as written | input that shows it | evidently intended | confidence | as-written member | corrected member |
|---|---|---|---|---|---|---|
| source/main.ts:285-322 | `shortestPath` has no already-at-goal test. It seeds the frontier with the start's edges and goal-tests only the ends of non-empty paths. | A search from node `1` to node `1` where node `1` has no out-edges (one edge `2`→`1` exists) returns `undefined`, "no path", although the start is the goal. | Return the empty path when the start is the goal, as `script.js:181-184` does. | not executed | `WeightedGraph.SelfSearchNotFound` | `Search.ShortestPathOrHere` |
