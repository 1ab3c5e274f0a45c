/** Laying the robot's rooms out on a grid for drawing (`createRoomGrid`):
    a breadth-first walk from the robot's room that gives every room it
    reaches integer coordinates one step from the room it was reached
    from, then shifts the coordinates so the smallest are 0 and files
    each room in a rectangular grid. */
module RoomLayout {
  import opened Wrappers
  import opened RobotWorld

  /** A room with its grid coordinates; `robot` marks the starting room. */
  datatype Placed = Placed(x: int, y: int, room: Room, robot: bool)

  /** The walk's state: the rooms placed so far, in the order placed, and
      the smallest and largest coordinates seen. */
  datatype Layout = Layout(placed: seq<Placed>, minX: int, maxX: int, minY: int, maxY: int)

  type Grid = seq<seq<Option<Placed>>>

  /** The compass step a direction token stands for; only the four
      upper-case tokens place a room. */
  function Offset(direction: string): Option<(int, int)>
  {
    if direction == "N" then Some((0, -1))
    else if direction == "E" then Some((1, 0))
    else if direction == "S" then Some((0, 1))
    else if direction == "W" then Some((-1, 0))
    else None
  }

  /** Some placed room carries this exact name. */
  predicate Processed(placed: seq<Placed>, name: string)
  {
    exists j :: 0 <= j < |placed| && placed[j].room.name == name
  }

  /** `isRoomProcessed`: a scan of the placed rooms for the room's exact
      name. */
  function IsRoomProcessed(placed: seq<Placed>, room: Room): (r: bool)
    ensures r <==> Processed(placed, room.name)
  {
    if |placed| == 0 then false
    else if placed[0].room.name == room.name then true
    else
      assert forall j :: 1 <= j < |placed| ==> placed[j] == placed[1..][j - 1];
      IsRoomProcessed(placed[1..], room)
  }

  // ---------------------------------------------------------------------
  // The walk

  /** One connection of the room being processed: if its target is not yet
      placed and its direction is a compass token, the target is placed one
      step away in that direction and the matching bound is widened. */
  function Step(rooms: seq<Room>, l: Layout, parent: Placed, c: Connection): (r: Layout)
    requires GetRoom(rooms, c.roomName).Some?
    ensures l.placed <= r.placed && |r.placed| <= |l.placed| + 1
    ensures var target := GetRoom(rooms, c.roomName).value;
      |r.placed| == |l.placed| + 1 <==> !Processed(l.placed, target.name) && Offset(c.direction).Some?
    ensures var target := GetRoom(rooms, c.roomName).value;
      |r.placed| == |l.placed| + 1 ==>
        var d := Offset(c.direction).value;
        r.placed[|l.placed|] == Placed(parent.x + d.0, parent.y + d.1, target, false)
    ensures Offset(c.direction).Some? ==> Processed(r.placed, GetRoom(rooms, c.roomName).value.name)
    ensures Bounded(l) && InBounds(l, parent) ==> Bounded(r)
  {
    var target := GetRoom(rooms, c.roomName).value;
    if IsRoomProcessed(l.placed, target) then l
    else if c.direction == "N" then
      var p := Placed(parent.x, parent.y - 1, target, false);
      assert p.room.name == target.name;
      l.(placed := l.placed + [p], minY := if l.minY > parent.y - 1 then parent.y - 1 else l.minY)
    else if c.direction == "E" then
      var p := Placed(parent.x + 1, parent.y, target, false);
      assert p.room.name == target.name;
      l.(placed := l.placed + [p], maxX := if l.maxX < parent.x + 1 then parent.x + 1 else l.maxX)
    else if c.direction == "S" then
      var p := Placed(parent.x, parent.y + 1, target, false);
      assert p.room.name == target.name;
      l.(placed := l.placed + [p], maxY := if l.maxY < parent.y + 1 then parent.y + 1 else l.maxY)
    else if c.direction == "W" then
      var p := Placed(parent.x - 1, parent.y, target, false);
      assert p.room.name == target.name;
      l.(placed := l.placed + [p], minX := if l.minX > parent.x - 1 then parent.x - 1 else l.minX)
    else l
  }

  /** The room lies within the layout's bounds. */
  predicate InBounds(l: Layout, p: Placed)
  {
    l.minX <= p.x <= l.maxX && l.minY <= p.y <= l.maxY
  }

  /** The bounds enclose the origin and every placed room. */
  predicate Bounded(l: Layout)
  {
    && l.minX <= 0 <= l.maxX && l.minY <= 0 <= l.maxY
    && forall i :: 0 <= i < |l.placed| ==> InBounds(l, l.placed[i])
  }

  /** No two placed rooms carry the same name. */
  predicate DistinctNames(placed: seq<Placed>)
  {
    forall i, j :: 0 <= i < j < |placed| ==> placed[i].room.name != placed[j].room.name
  }

  /** Connection `k` of `a`'s room leads to `b`'s room, and `b` lies one
      step from `a` in that connection's direction. */
  predicate Link(rooms: seq<Room>, a: Placed, k: int, b: Placed)
  {
    && 0 <= k < |a.room.connections|
    && var c := a.room.connections[k];
    && GetRoom(rooms, c.roomName) == Some(b.room)
    && Offset(c.direction) == Some((b.x - a.x, b.y - a.y))
  }

  /** Placed room `i` was reached from an earlier placed room. */
  ghost predicate Linked(rooms: seq<Room>, placed: seq<Placed>, i: int)
    requires 0 <= i < |placed|
  {
    exists j, k :: 0 <= j < i && Link(rooms, placed[j], k, placed[i])
  }

  /** What the walk keeps true: the starting room sits first, at the
      origin, and alone carries the robot; names are distinct; bounds
      enclose everything; every room is one of the map's; every later
      room is one compass step from the room it was reached from. */
  ghost predicate LayoutInv(rooms: seq<Room>, start: Room, l: Layout)
  {
    && |l.placed| > 0
    && l.placed[0] == Placed(0, 0, start, true)
    && (forall i :: 0 < i < |l.placed| ==> !l.placed[i].robot)
    && DistinctNames(l.placed)
    && Bounded(l)
    && (forall i :: 0 <= i < |l.placed| ==> l.placed[i].room in rooms)
    && forall i :: 0 < i < |l.placed| ==> Linked(rooms, l.placed, i)
  }

  /** Every connection of every room in the map leads to a room `getRoom`
      finds. */
  predicate Resolves(rooms: seq<Room>)
  {
    forall r, c :: r in rooms && c in r.connections ==> GetRoom(rooms, c.roomName).Some?
  }

  /** Every compass connection of placed room `i` leads to a placed room. */
  predicate NeighboursPlaced(rooms: seq<Room>, placed: seq<Placed>, i: int)
    requires 0 <= i < |placed|
  {
    forall k :: 0 <= k < |placed[i].room.connections| ==>
      var c := placed[i].room.connections[k];
      GetRoom(rooms, c.roomName).Some? && Offset(c.direction).Some? ==>
        Processed(placed, GetRoom(rooms, c.roomName).value.name)
  }

  /** Taking one connection keeps the walk's invariant. */
  lemma StepKeepsInv(rooms: seq<Room>, start: Room, l: Layout, pi: int, k: int)
    requires LayoutInv(rooms, start, l)
    requires 0 <= pi < |l.placed| && 0 <= k < |l.placed[pi].room.connections|
    requires GetRoom(rooms, l.placed[pi].room.connections[k].roomName).Some?
    ensures LayoutInv(rooms, start, Step(rooms, l, l.placed[pi], l.placed[pi].room.connections[k]))
  {
    var parent := l.placed[pi];
    var c := parent.room.connections[k];
    var r := Step(rooms, l, parent, c);
    var n := |l.placed|;
    assert forall i :: 0 <= i < n ==> r.placed[i] == l.placed[i];
    if |r.placed| == n + 1 {
      var target := GetRoom(rooms, c.roomName).value;
      assert r.placed[n].room == target;
      assert !Processed(l.placed, target.name);
      assert Link(rooms, r.placed[pi], k, r.placed[n]);
      forall i | 0 < i < |r.placed|
        ensures Linked(rooms, r.placed, i)
      {
        if i < n {
          assert Linked(rooms, l.placed, i);
          var j, k' :| 0 <= j < i && Link(rooms, l.placed[j], k', l.placed[i]);
          assert Link(rooms, r.placed[j], k', r.placed[i]);
        }
      }
    }
  }

  /** `connections.forEach` for the room at index `pi`, from connection `m`
      on: each connection in turn through `Step`. */
  function PlaceNeighbours(rooms: seq<Room>, l: Layout, pi: nat, m: nat): (r: Layout)
    requires Resolves(rooms)
    requires pi < |l.placed| && l.placed[pi].room in rooms
    requires m <= |l.placed[pi].room.connections|
    ensures l.placed <= r.placed
    ensures forall k :: m <= k < |l.placed[pi].room.connections| ==>
      var c := l.placed[pi].room.connections[k];
      Offset(c.direction).Some? ==> Processed(r.placed, GetRoom(rooms, c.roomName).value.name)
    decreases |l.placed[pi].room.connections| - m
  {
    var conns := l.placed[pi].room.connections;
    if m == |conns| then l
    else
      var l' := Step(rooms, l, l.placed[pi], conns[m]);
      assert l'.placed[pi] == l.placed[pi];
      var r := PlaceNeighbours(rooms, l', pi, m + 1);
      ProcessedGrows(l'.placed, r.placed);
      r
  }

  /** `PlaceNeighbours` keeps the walk's invariant. */
  lemma {:induction false} PlaceNeighboursKeepsInv(rooms: seq<Room>, start: Room, l: Layout, pi: nat, m: nat)
    requires Resolves(rooms)
    requires LayoutInv(rooms, start, l)
    requires pi < |l.placed| && m <= |l.placed[pi].room.connections|
    ensures LayoutInv(rooms, start, PlaceNeighbours(rooms, l, pi, m))
    decreases |l.placed[pi].room.connections| - m
  {
    var conns := l.placed[pi].room.connections;
    if m < |conns| {
      StepKeepsInv(rooms, start, l, pi, m);
      var l' := Step(rooms, l, l.placed[pi], conns[m]);
      assert l'.placed[pi] == l.placed[pi];
      PlaceNeighboursKeepsInv(rooms, start, l', pi, m + 1);
    }
  }

  /** A name once placed stays placed as the list grows. */
  lemma ProcessedGrows(a: seq<Placed>, b: seq<Placed>)
    requires a <= b
    ensures forall name :: Processed(a, name) ==> Processed(b, name)
  {
    forall name | Processed(a, name)
      ensures Processed(b, name)
    {
      var j :| 0 <= j < |a| && a[j].room.name == name;
      assert b[j] == a[j];
    }
  }

  /** Distinctly named rooms of the map are no more than its names. */
  lemma {:induction false} PlacedWithinNames(rooms: seq<Room>, placed: seq<Placed>)
    requires DistinctNames(placed)
    requires forall i :: 0 <= i < |placed| ==> placed[i].room in rooms
    ensures |placed| <= |set r | r in rooms :: r.name|
  {
    var names := set i | 0 <= i < |placed| :: placed[i].room.name;
    DistinctNamesCount(placed);
    assert names <= set r | r in rooms :: r.name by {
      forall name | name in names
        ensures name in set r | r in rooms :: r.name
      {
        var i :| 0 <= i < |placed| && placed[i].room.name == name;
        assert placed[i].room in rooms;
      }
    }
    SubsetCount(names, set r | r in rooms :: r.name);
  }

  lemma {:induction false} DistinctNamesCount(placed: seq<Placed>)
    requires DistinctNames(placed)
    ensures |set i | 0 <= i < |placed| :: placed[i].room.name| == |placed|
  {
    if |placed| > 0 {
      var front := placed[..|placed| - 1];
      assert forall i :: 0 <= i < |front| ==> front[i] == placed[i];
      DistinctNamesCount(front);
      var last := placed[|placed| - 1].room.name;
      var names := set i | 0 <= i < |placed| :: placed[i].room.name;
      var frontNames := set i | 0 <= i < |front| :: front[i].room.name;
      assert names == frontNames + {last} by {
        forall name | name in names
          ensures name in frontNames + {last}
        {
          var i :| 0 <= i < |placed| && placed[i].room.name == name;
          if i < |front| {
            assert front[i] == placed[i];
          }
        }
      }
      assert last !in frontNames by {
        forall i | 0 <= i < |front|
          ensures front[i].room.name != last
        {
          assert front[i] == placed[i];
        }
      }
    }
  }

  lemma {:induction false} SubsetCount<T>(a: set<T>, b: set<T>)
    requires a <= b
    ensures |a| <= |b|
    decreases |b|
  {
    if a != {} {
      var x :| x in a;
      SubsetCount(a - {x}, b - {x});
    }
  }

  /** The walk (`createRoomGrid` up to its normalisation): the robot's
      room is placed at the origin, then the rooms are taken in the order
      placed and each one's connections are followed in order. Every room
      it places is next to the room it was reached from, no name is placed
      twice, and it stops only once every compass connection of every
      placed room leads to a placed room. */
  method Explore(s: Robot) returns (l: Layout)
    requires WellFormed(s)
    ensures LayoutInv(s.rooms, s.rooms[s.location], l)
    ensures forall i :: 0 <= i < |l.placed| ==> NeighboursPlaced(s.rooms, l.placed, i)
  {
    WellFormedResolves(s);
    var start := s.rooms[s.location];
    l := Layout([Placed(0, 0, start, true)], 0, 0, 0, 0);
    var k := 0;
    PlacedWithinNames(s.rooms, l.placed);
    while k < |l.placed|
      invariant 0 <= k <= |l.placed| <= |set r | r in s.rooms :: r.name|
      invariant LayoutInv(s.rooms, start, l)
      invariant forall i :: 0 <= i < k ==> NeighboursPlaced(s.rooms, l.placed, i)
      decreases |set r | r in s.rooms :: r.name| - k
    {
      var l' := PlaceNeighbours(s.rooms, l, k, 0);
      PlaceNeighboursKeepsInv(s.rooms, start, l, k, 0);
      ClosureGrows(s.rooms, l.placed, l'.placed, k);
      l := l';
      PlacedWithinNames(s.rooms, l.placed);
      k := k + 1;
    }
  }

  /** After the connections of room `k` are processed, rooms `0..k` have
      all their compass neighbours placed: placing only appends, so the
      earlier rooms' neighbours stay placed. */
  lemma ClosureGrows(rooms: seq<Room>, before: seq<Placed>, after: seq<Placed>, k: int)
    requires 0 <= k < |before| && before <= after
    requires forall i :: 0 <= i < k ==> NeighboursPlaced(rooms, before, i)
    requires forall m :: 0 <= m < |before[k].room.connections| ==>
      var c := before[k].room.connections[m];
      Offset(c.direction).Some? && GetRoom(rooms, c.roomName).Some? ==> Processed(after, GetRoom(rooms, c.roomName).value.name)
    ensures forall i :: 0 <= i <= k ==> NeighboursPlaced(rooms, after, i)
  {
    ProcessedGrows(before, after);
    forall i | 0 <= i <= k
      ensures NeighboursPlaced(rooms, after, i)
    {
      assert after[i] == before[i];
      if i < k {
        assert NeighboursPlaced(rooms, before, i);
      }
    }
  }

  lemma WellFormedResolves(s: Robot)
    requires WellFormed(s)
    ensures Resolves(s.rooms)
  {
    forall r, c | r in s.rooms && c in r.connections
      ensures GetRoom(s.rooms, c.roomName).Some?
    {
      var i :| 0 <= i < |s.rooms| && s.rooms[i] == r;
      var k :| 0 <= k < |r.connections| && r.connections[k] == c;
      assert GetRoomIndex(s.rooms, s.rooms[i].connections[k].roomName) >= 0;
    }
  }

  // ---------------------------------------------------------------------
  // Normalising and filling the grid

  /** Every room shifted so that the smallest coordinates become 0. */
  function Normalise(l: Layout): (r: seq<Placed>)
    ensures |r| == |l.placed|
    ensures forall i :: 0 <= i < |r| ==> r[i] == l.placed[i].(x := l.placed[i].x - l.minX, y := l.placed[i].y - l.minY)
  {
    seq(|l.placed|, i requires 0 <= i < |l.placed| =>
      l.placed[i].(x := l.placed[i].x - l.minX, y := l.placed[i].y - l.minY))
  }

  /** A grid of `height` rows of `width` empty cells. */
  function Blank(width: nat, height: nat): (r: Grid)
    ensures |r| == height && forall y :: 0 <= y < height ==> |r[y]| == width
    ensures forall y, x :: 0 <= y < height && 0 <= x < width ==> r[y][x] == None
  {
    seq(height, _ => seq(width, _ => None))
  }

  /** The last room in `placed` at `(x, y)`, if any: the one a later
      write leaves in that cell. */
  function LastAt(placed: seq<Placed>, x: int, y: int): (r: Option<Placed>)
    ensures r.Some? <==> exists i :: 0 <= i < |placed| && placed[i].x == x && placed[i].y == y
    ensures r.Some? ==> exists i :: 0 <= i < |placed| && placed[i] == r.value && r.value.x == x && r.value.y == y
                                      && forall j :: i < j < |placed| ==> !(placed[j].x == x && placed[j].y == y)
  {
    if |placed| == 0 then None
    else
      var rest := LastAt(placed[1..], x, y);
      assert forall j :: 1 <= j < |placed| ==> placed[j] == placed[1..][j - 1];
      if rest.Some? then rest
      else if placed[0].x == x && placed[0].y == y then Some(placed[0])
      else None
  }

  /** The grid fits `(x, y)`. */
  predicate Fits(grid: Grid, x: int, y: int)
  {
    0 <= y < |grid| && 0 <= x < |grid[y]|
  }

  /** Each room in turn written into its cell, as the final `forEach`
      does; each cell ends up holding the last room written to it. */
  function Paint(grid: Grid, placed: seq<Placed>): (r: Grid)
    requires forall i :: 0 <= i < |placed| ==> Fits(grid, placed[i].x, placed[i].y)
    ensures |r| == |grid| && forall y :: 0 <= y < |grid| ==> |r[y]| == |grid[y]|
    ensures forall y, x :: Fits(grid, x, y) ==>
      r[y][x] == if LastAt(placed, x, y).Some? then LastAt(placed, x, y) else grid[y][x]
    decreases |placed|
  {
    if |placed| == 0 then grid
    else
      var p := placed[0];
      assert Fits(grid, p.x, p.y);
      var grid' := grid[p.y := grid[p.y][p.x := Some(p)]];
      assert forall y :: 0 <= y < |grid| ==> |grid'[y]| == |grid[y]|;
      assert forall i :: 1 <= i < |placed| ==> placed[i] == placed[1..][i - 1];
      assert forall i :: 0 <= i < |placed| - 1 ==> Fits(grid', placed[1..][i].x, placed[1..][i].y) by {
        forall i | 0 <= i < |placed| - 1
          ensures Fits(grid', placed[1..][i].x, placed[1..][i].y)
        {
          assert placed[1..][i] == placed[i + 1];
          assert Fits(grid, placed[i + 1].x, placed[i + 1].y);
        }
      }
      Paint(grid', placed[1..])
  }

  /** If cell `(x, y)` holds a room, the room sits at those coordinates,
      is a room of the map, and carries the robot mark only if it is
      `start`. */
  predicate CellPlaced(grid: Grid, rooms: seq<Room>, start: Room, y: int, x: int)
  {
    0 <= y < |grid| && 0 <= x < |grid[y]| && grid[y][x].Some? ==>
      var p := grid[y][x].value;
      p.x == x && p.y == y && p.room in rooms && (p.robot ==> p.room == start)
  }

  ghost predicate CellsPlaced(grid: Grid, rooms: seq<Room>, start: Room)
  {
    forall y, x :: CellPlaced(grid, rooms, start, y, x)
  }

  /** Two distinct filled cells hold rooms of different names. */
  predicate NamesDiffer(grid: Grid, y: int, x: int, y': int, x': int)
  {
    0 <= y < |grid| && 0 <= x < |grid[y]| && 0 <= y' < |grid| && 0 <= x' < |grid[y']| &&
    grid[y][x].Some? && grid[y'][x'].Some? && (y, x) != (y', x') ==>
      grid[y][x].value.room.name != grid[y'][x'].value.room.name
  }

  /** No room name shows in two cells of the grid. */
  ghost predicate NamesOnce(grid: Grid)
  {
    forall y, x, y', x' :: NamesDiffer(grid, y, x, y', x')
  }

  /** Painting distinctly named rooms of the map, each within the blank
      grid, yields a grid whose cells hold rooms at their own coordinates,
      each name at most once. */
  lemma PaintedCells(placed: seq<Placed>, rooms: seq<Room>, start: Room, width: nat, height: nat)
    requires forall i :: 0 <= i < |placed| ==> 0 <= placed[i].x < width && 0 <= placed[i].y < height
    requires DistinctNames(placed)
    requires forall i :: 0 <= i < |placed| ==> placed[i].room in rooms && (placed[i].robot ==> placed[i].room == start)
    ensures CellsPlaced(Paint(Blank(width, height), placed), rooms, start)
    ensures NamesOnce(Paint(Blank(width, height), placed))
  {
    var grid: Grid := Paint(Blank(width, height), placed);
    forall y: int, x: int
      ensures CellPlaced(grid, rooms, start, y, x)
    {
      if 0 <= y < |grid| && 0 <= x < |grid[y]| && grid[y][x].Some? {
        var i := PaintedCell(placed, width, height, y, x);
      }
    }
    forall y: int, x: int, y': int, x': int
      ensures NamesDiffer(grid, y, x, y', x')
    {
      PaintedNamesDiffer(placed, width, height, y, x, y', x');
    }
  }

  lemma PaintedNamesDiffer(placed: seq<Placed>, width: nat, height: nat, y: int, x: int, y': int, x': int)
    requires forall i :: 0 <= i < |placed| ==> 0 <= placed[i].x < width && 0 <= placed[i].y < height
    requires DistinctNames(placed)
    ensures NamesDiffer(Paint(Blank(width, height), placed), y, x, y', x')
  {
    if 0 <= y < height && 0 <= x < width && 0 <= y' < height && 0 <= x' < width && (y, x) != (y', x') {
      var a := LastAt(placed, x, y);
      var b := LastAt(placed, x', y');
      if a.Some? && b.Some? {
        var i :| 0 <= i < |placed| && placed[i] == a.value && a.value.x == x && a.value.y == y;
        var j :| 0 <= j < |placed| && placed[j] == b.value && b.value.x == x' && b.value.y == y';
        assert i != j;
      }
    }
  }

  /** A filled cell of the painted grid holds one of the painted rooms,
      at its own coordinates. */
  lemma PaintedCell(placed: seq<Placed>, width: nat, height: nat, y: int, x: int) returns (i: int)
    requires forall i :: 0 <= i < |placed| ==> 0 <= placed[i].x < width && 0 <= placed[i].y < height
    requires 0 <= y < height && 0 <= x < width
    requires Paint(Blank(width, height), placed)[y][x].Some?
    ensures 0 <= i < |placed| && Paint(Blank(width, height), placed)[y][x] == Some(placed[i])
    ensures placed[i].x == x && placed[i].y == y
  {
    var c := LastAt(placed, x, y);
    assert c.Some?;
    i :| 0 <= i < |placed| && placed[i] == c.value && c.value.x == x && c.value.y == y;
  }

  /** The shifted coordinates of a finished walk fit the grid one cell
      larger than the largest of them. */
  lemma WalkFits(rooms: seq<Room>, start: Room, walk: Layout)
    requires LayoutInv(rooms, start, walk)
    ensures var placed := Normalise(walk);
      forall i :: 0 <= i < |placed| ==>
        0 <= placed[i].x < walk.maxX - walk.minX + 1 && 0 <= placed[i].y < walk.maxY - walk.minY + 1
  {
    assert forall i :: 0 <= i < |walk.placed| ==> InBounds(walk, walk.placed[i]);
  }

  /** Painting a finished walk gives a grid of rooms of the map at their own
      coordinates, each name at most once, the robot mark only on the start. */
  lemma PaintedWalk(rooms: seq<Room>, start: Room, walk: Layout)
    requires LayoutInv(rooms, start, walk)
    ensures walk.maxX - walk.minX + 1 > 0 && walk.maxY - walk.minY + 1 > 0
    ensures var grid := Paint(Blank(walk.maxX - walk.minX + 1, walk.maxY - walk.minY + 1), Normalise(walk));
      CellsPlaced(grid, rooms, start) && NamesOnce(grid)
  {
    var placed := Normalise(walk);
    WalkFits(rooms, start, walk);
    assert DistinctNames(placed) by {
      assert forall i :: 0 <= i < |placed| ==> placed[i].room == walk.placed[i].room;
    }
    assert forall i :: 0 <= i < |placed| ==> placed[i].room == walk.placed[i].room && placed[i].robot == walk.placed[i].robot;
    PaintedCells(placed, rooms, start, walk.maxX - walk.minX + 1, walk.maxY - walk.minY + 1);
  }

  /** Every room the walk placed fills the cell of its shifted coordinates
      (with the latest room placed there, when two share a cell). */
  lemma WalkCellsFilled(rooms: seq<Room>, start: Room, walk: Layout)
    requires LayoutInv(rooms, start, walk)
    ensures walk.maxX - walk.minX + 1 > 0 && walk.maxY - walk.minY + 1 > 0
    ensures var grid := Paint(Blank(walk.maxX - walk.minX + 1, walk.maxY - walk.minY + 1), Normalise(walk));
      forall i :: 0 <= i < |walk.placed| ==> grid[walk.placed[i].y - walk.minY][walk.placed[i].x - walk.minX].Some?
  {
    var placed := Normalise(walk);
    WalkFits(rooms, start, walk);
    var grid: Grid := Paint(Blank(walk.maxX - walk.minX + 1, walk.maxY - walk.minY + 1), placed);
    forall i | 0 <= i < |walk.placed|
      ensures grid[walk.placed[i].y - walk.minY][walk.placed[i].x - walk.minX].Some?
    {
      assert placed[i].x == walk.placed[i].x - walk.minX && placed[i].y == walk.placed[i].y - walk.minY;
      assert LastAt(placed, placed[i].x, placed[i].y).Some?;
    }
  }

  /** `createRoomGrid`: the walk, then every room shifted so the smallest
      coordinates are 0 and filed in a grid one cell larger than the
      largest shifted coordinates. The grid is a non-empty rectangle;
      every room in it sits in the cell of its own coordinates and is a
      room of the map; only the robot's room can carry the robot mark; and
      no name shows in two cells. */
  method CreateRoomGrid(s: Robot) returns (grid: Grid, ghost l: Layout)
    requires WellFormed(s)
    ensures LayoutInv(s.rooms, s.rooms[s.location], l)
    ensures forall i :: 0 <= i < |l.placed| ==> NeighboursPlaced(s.rooms, l.placed, i)
    ensures grid == Paint(Blank(l.maxX - l.minX + 1, l.maxY - l.minY + 1), Normalise(l))
    ensures forall i :: 0 <= i < |l.placed| ==> grid[l.placed[i].y - l.minY][l.placed[i].x - l.minX].Some?
    ensures |grid| > 0 && forall y :: 0 <= y < |grid| ==> |grid[y]| == |grid[0]| > 0
    ensures CellsPlaced(grid, s.rooms, s.rooms[s.location])
    ensures NamesOnce(grid)
  {
    var walk := Explore(s);
    l := walk;
    PaintedWalk(s.rooms, s.rooms[s.location], walk);
    WalkCellsFilled(s.rooms, s.rooms[s.location], walk);
    grid := Paint(Blank(walk.maxX - walk.minX + 1, walk.maxY - walk.minY + 1), Normalise(walk));
  }
}
