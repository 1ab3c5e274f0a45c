/** The robot planning world of `script.js`: a robot that stands in one
    room of a list of rooms, carries at most one object, and moves through
    hallways, forces or unlocks doors, and picks up or drops objects. */
module RobotWorld {
  import opened Wrappers
  import opened Ascii
  import opened Paths

  datatype ObjectType = Key | Orb | Nothing

  /** The `H` and `D` connection kinds of the map's connection strings. */
  datatype ConnectionType = Hallway | Door

  /** One connection string `"<direction> <H|D> <room name>"`, tokenised. */
  datatype Connection = Connection(direction: string, connectionType: ConnectionType, roomName: string)

  datatype Room = Room(name: string, contents: ObjectType, connections: seq<Connection>)

  /** A world state: what the robot holds, every room as it is in this
      state, and the index of the robot's room. */
  datatype Robot = Robot(holding: ObjectType, rooms: seq<Room>, location: int)

  const HallwayCost: real := 1.0
  const ForceDoorCost: real := 10.0
  const KeyDoorCost: real := 1.0
  const PickUpCost: real := 0.25
  const DropCost: real := 0.25

  /** The robot stands in an existing room. */
  predicate ValidLocation(s: Robot)
  {
    0 <= s.location < |s.rooms|
  }

  // ---------------------------------------------------------------------
  // Copies and room lookup

  /** `copyRoom`: a fresh room with a fresh connection list. */
  function CopyRoom(room: Room): (r: Room)
    ensures r == room
  {
    Room(room.name, room.contents, room.connections[..])
  }

  /** `copyAllRooms`: the room list, room by room copied. With values in
      place of shared objects a copy is equal to, and independent of, the
      original: writing to it cannot change the parent state. */
  function CopyAllRooms(rooms: seq<Room>): (r: seq<Room>)
    ensures r == rooms
  {
    seq(|rooms|, i requires 0 <= i < |rooms| => CopyRoom(rooms[i]))
  }

  /** The name of room `i` matches `roomName` ignoring case. */
  predicate NameMatches(rooms: seq<Room>, i: int, roomName: string)
    requires 0 <= i < |rooms|
  {
    Lower(rooms[i].name) == Lower(roomName)
  }

  /** `getRoomIndex`: the first room whose name matches ignoring case, or -1. */
  function GetRoomIndex(rooms: seq<Room>, roomName: string): (r: int)
    ensures -1 <= r < |rooms|
    ensures r >= 0 ==> NameMatches(rooms, r, roomName) && forall i :: 0 <= i < r ==> !NameMatches(rooms, i, roomName)
    ensures r == -1 <==> forall i :: 0 <= i < |rooms| ==> !NameMatches(rooms, i, roomName)
  {
    IndexFrom(rooms, roomName, 0)
  }

  function IndexFrom(rooms: seq<Room>, roomName: string, i: nat): (r: int)
    requires i <= |rooms|
    requires forall k :: 0 <= k < i ==> !NameMatches(rooms, k, roomName)
    ensures -1 <= r < |rooms|
    ensures r >= 0 ==> NameMatches(rooms, r, roomName) && forall k :: 0 <= k < r ==> !NameMatches(rooms, k, roomName)
    ensures r == -1 <==> forall k :: 0 <= k < |rooms| ==> !NameMatches(rooms, k, roomName)
    decreases |rooms| - i
  {
    if i == |rooms| then -1
    else if NameMatches(rooms, i, roomName) then i
    else IndexFrom(rooms, roomName, i + 1)
  }

  /** `getRoom`: the first room whose name matches ignoring case. */
  function GetRoom(rooms: seq<Room>, roomName: string): (r: Option<Room>)
    ensures r.Some? <==> exists i :: 0 <= i < |rooms| && NameMatches(rooms, i, roomName)
    ensures r.Some? ==> exists i :: 0 <= i < |rooms| && rooms[i] == r.value && NameMatches(rooms, i, roomName)
                                    && forall k :: 0 <= k < i ==> !NameMatches(rooms, k, roomName)
  {
    var i := GetRoomIndex(rooms, roomName);
    if i >= 0 then Some(rooms[i]) else None
  }

  /** Two room lists with the same names, in order. */
  predicate SameNames(a: seq<Room>, b: seq<Room>)
  {
    |a| == |b| && forall i :: 0 <= i < |a| ==> a[i].name == b[i].name
  }

  /** The lookup depends only on the names, and only on the case-folded
      form of the name looked up. */
  lemma GetRoomIndexDependsOnNames(a: seq<Room>, b: seq<Room>, x: string, y: string)
    requires SameNames(a, b)
    requires Lower(x) == Lower(y)
    ensures GetRoomIndex(a, x) == GetRoomIndex(b, y)
  {
    assert forall i :: 0 <= i < |a| ==> (NameMatches(a, i, x) <==> NameMatches(b, i, y));
  }

  // ---------------------------------------------------------------------
  // Rewriting connections (`updateRoomConnection`)

  /** Rewrites every connection whose target is `target` (ignoring case) to
      `"<DIRECTION> <type> <target>"`, with the direction upper-cased. */
  function RewriteConnections(connections: seq<Connection>, target: string, connectionType: ConnectionType): (r: seq<Connection>)
    ensures |r| == |connections|
  {
    seq(|connections|, j requires 0 <= j < |connections| =>
      if Upper(connections[j].roomName) == target
      then Connection(Upper(connections[j].direction), connectionType, target)
      else connections[j])
  }

  /** One room's part of `updateRoomConnection`: first the room named
      `from` has its connections to `to` rewritten, then the room named `to`
      has its connections to `from` rewritten (both names upper-cased). */
  function UpdateRoom(room: Room, from: string, to: string, connectionType: ConnectionType): Room
  {
    var r1 := if Upper(room.name) == from then room.(connections := RewriteConnections(room.connections, to, connectionType)) else room;
    if Upper(r1.name) == to then r1.(connections := RewriteConnections(r1.connections, from, connectionType)) else r1
  }

  /** `updateRoomConnection`: in `roomList`, every connection from the room
      named `roomNameFrom` to `roomNameTo`, and every one back, gets
      `connectionType`; names are compared ignoring case, and a rewritten
      connection has its direction and target upper-cased. */
  function UpdateRoomConnection(roomNameFrom: string, roomNameTo: string, connectionType: ConnectionType,
                                roomList: seq<Room>): (r: seq<Room>)
    ensures |r| == |roomList|
    ensures forall i :: 0 <= i < |r| ==>
      && r[i].name == roomList[i].name
      && r[i].contents == roomList[i].contents
      && |r[i].connections| == |roomList[i].connections|
    ensures forall i, j :: 0 <= i < |r| && 0 <= j < |r[i].connections| ==>
      ConnectionUpdated(roomList[i], roomList[i].connections[j], r[i].connections[j], roomNameFrom, roomNameTo, connectionType)
  {
    var from, to := Upper(roomNameFrom), Upper(roomNameTo);
    UpperOfUpper(roomNameFrom);
    UpperOfUpper(roomNameTo);
    seq(|roomList|, i requires 0 <= i < |roomList| => UpdateRoom(roomList[i], from, to, connectionType))
  }

  /** How one connection `c` of `room` ends up as `c'`: a connection between
      the two named rooms (in either direction, names ignoring case) gets
      the new type, with its direction and target upper-cased; every other
      connection is unchanged. */
  predicate ConnectionUpdated(room: Room, c: Connection, c': Connection, from: string, to: string,
                              connectionType: ConnectionType)
  {
    var forward := Upper(room.name) == Upper(from) && Upper(c.roomName) == Upper(to);
    var backward := Upper(room.name) == Upper(to) && Upper(c.roomName) == Upper(from);
    if forward || backward then
      && c'.connectionType == connectionType
      && c'.roomName == Upper(c.roomName)
      && c'.direction == Upper(c.direction)
    else
      c' == c
  }

  // ---------------------------------------------------------------------
  // Successors (`moveRobot`)

  /** The edge one connection of the current room produces. */
  function ConnectionMove(s: Robot, c: Connection): Edge<Robot>
    requires ValidLocation(s)
  {
    var roomName := Upper(c.roomName);
    match c.connectionType
    case Hallway =>
      Edge(s, Robot(s.holding, CopyAllRooms(s.rooms), GetRoomIndex(s.rooms, roomName)), HallwayCost)
    case Door =>
      var copiedRooms := UpdateRoomConnection(s.rooms[s.location].name, roomName, Hallway, CopyAllRooms(s.rooms));
      if s.holding != Key then
        Edge(s, Robot(s.holding, copiedRooms, s.location), ForceDoorCost)
      else
        Edge(s, Robot(Nothing, copiedRooms, s.location), KeyDoorCost)
  }

  predicate CanPickUp(s: Robot)
    requires ValidLocation(s)
  {
    s.holding == Nothing && s.rooms[s.location].contents != Nothing
  }

  predicate CanDrop(s: Robot)
    requires ValidLocation(s)
  {
    s.holding != Nothing && s.rooms[s.location].contents == Nothing
  }

  /** The state after picking up the contents of the current room. */
  function PickUp(s: Robot): Robot
    requires ValidLocation(s)
  {
    var copiedRooms := CopyAllRooms(s.rooms);
    Robot(s.rooms[s.location].contents, copiedRooms[s.location := copiedRooms[s.location].(contents := Nothing)], s.location)
  }

  /** The state after dropping the held object in the current room. */
  function Drop(s: Robot): Robot
    requires ValidLocation(s)
  {
    var copiedRooms := CopyAllRooms(s.rooms);
    Robot(Nothing, copiedRooms[s.location := copiedRooms[s.location].(contents := s.holding)], s.location)
  }

  /** `moveRobot`: one edge per connection of the current room, in order,
      then a pick-up edge or a drop edge when one applies. */
  function MoveRobot(s: Robot): (r: seq<Edge<Robot>>)
    requires ValidLocation(s)
    ensures |r| == |s.rooms[s.location].connections| + (if CanPickUp(s) || CanDrop(s) then 1 else 0)
    ensures forall e :: e in r ==> e.from == s
  {
    var connections := s.rooms[s.location].connections;
    seq(|connections|, j requires 0 <= j < |connections| => ConnectionMove(s, connections[j]))
    + (if CanPickUp(s) then [Edge(s, PickUp(s), PickUpCost)] else [])
    + (if CanDrop(s) then [Edge(s, Drop(s), DropCost)] else [])
  }

  // ---------------------------------------------------------------------
  // What each successor is

  /** The hallway edge moves the robot to the first room named like the
      hallway's target, at cost 1, and changes nothing else. */
  lemma HallwayMove(s: Robot, j: int)
    requires ValidLocation(s)
    requires 0 <= j < |s.rooms[s.location].connections|
    requires s.rooms[s.location].connections[j].connectionType == Hallway
    ensures var e := MoveRobot(s)[j];
      && e.cost == 1.0
      && e.to.holding == s.holding
      && e.to.rooms == s.rooms
      && e.to.location == GetRoomIndex(s.rooms, s.rooms[s.location].connections[j].roomName)
  {
    var c := s.rooms[s.location].connections[j];
    LowerOfUpper(c.roomName);
    GetRoomIndexDependsOnNames(s.rooms, s.rooms, Upper(c.roomName), c.roomName);
  }

  /** A door edge leaves the robot where it is and turns the door into a
      hallway on both sides: every connection between the current room and
      the door's target, either way, becomes a hallway, and nothing else in
      the rooms changes. Without the Key it costs 10 and the hands are
      unchanged; with the Key it costs 1 and the Key is used up. */
  lemma DoorMove(s: Robot, j: int)
    requires ValidLocation(s)
    requires 0 <= j < |s.rooms[s.location].connections|
    requires s.rooms[s.location].connections[j].connectionType == Door
    ensures var e := MoveRobot(s)[j];
      var target := s.rooms[s.location].connections[j].roomName;
      && e.to.location == s.location
      && (s.holding != Key ==> e.cost == 10.0 && e.to.holding == s.holding)
      && (s.holding == Key ==> e.cost == 1.0 && e.to.holding == Nothing)
      && |e.to.rooms| == |s.rooms|
      && (forall i :: 0 <= i < |s.rooms| ==>
            && e.to.rooms[i].name == s.rooms[i].name
            && e.to.rooms[i].contents == s.rooms[i].contents
            && |e.to.rooms[i].connections| == |s.rooms[i].connections|)
      && (forall i, k :: 0 <= i < |s.rooms| && 0 <= k < |s.rooms[i].connections| ==>
            ConnectionUpdated(s.rooms[i], s.rooms[i].connections[k], e.to.rooms[i].connections[k],
                              s.rooms[s.location].name, target, Hallway))
  {
    var c := s.rooms[s.location].connections[j];
    UpperOfUpper(c.roomName);
    var e := MoveRobot(s)[j];
    assert e == ConnectionMove(s, c);
  }

  /** The pick-up edge, when present, takes the room's object into the
      robot's hands at cost 0.25; the drop edge, when present, puts the held
      object into the empty room at cost 0.25. At most one of them exists. */
  lemma HandlingMoves(s: Robot)
    requires ValidLocation(s)
    ensures !(CanPickUp(s) && CanDrop(s))
    ensures var n := |s.rooms[s.location].connections|;
      CanPickUp(s) ==> MoveRobot(s)[n] == Edge(s, PickUp(s), 0.25)
    ensures var n := |s.rooms[s.location].connections|;
      CanDrop(s) ==> MoveRobot(s)[n] == Edge(s, Drop(s), 0.25)
    ensures CanPickUp(s) ==>
      && PickUp(s).holding == s.rooms[s.location].contents
      && PickUp(s).rooms[s.location].contents == Nothing
      && PickUp(s).location == s.location
    ensures CanDrop(s) ==>
      && Drop(s).holding == Nothing
      && Drop(s).rooms[s.location].contents == s.holding
      && Drop(s).location == s.location
  {
  }

  /** Dropping what was just picked up restores the state, and so does
      picking up what was just dropped; the undoing edge is always offered. */
  lemma PickUpDropRoundTrip(s: Robot)
    requires ValidLocation(s)
    ensures CanPickUp(s) ==> CanDrop(PickUp(s)) && Drop(PickUp(s)) == s && Edge(PickUp(s), s, 0.25) in MoveRobot(PickUp(s))
    ensures CanDrop(s) ==> CanPickUp(Drop(s)) && PickUp(Drop(s)) == s && Edge(Drop(s), s, 0.25) in MoveRobot(Drop(s))
  {
    if CanPickUp(s) {
      var t := PickUp(s);
      assert t.rooms[s.location := t.rooms[s.location].(contents := t.holding)] == s.rooms;
      HandlingMoves(t);
    }
    if CanDrop(s) {
      var t := Drop(s);
      assert t.rooms[s.location := t.rooms[s.location].(contents := t.rooms[s.location].contents)] == t.rooms;
      assert t.rooms[s.location := t.rooms[s.location].(contents := Nothing)] == s.rooms;
      HandlingMoves(t);
    }
  }

  // ---------------------------------------------------------------------
  // Invariants every move keeps

  /** The robot stands in a room, and every connection of every room leads
      to a room that `getRoomIndex` can find. */
  predicate WellFormed(s: Robot)
  {
    && ValidLocation(s)
    && forall i, k :: 0 <= i < |s.rooms| && 0 <= k < |s.rooms[i].connections| ==>
         GetRoomIndex(s.rooms, s.rooms[i].connections[k].roomName) >= 0
  }

  /** Two states over the same rooms: same names, in the same order, with
      the same number of connections each. */
  predicate SameShape(a: Robot, b: Robot)
  {
    && SameNames(a.rooms, b.rooms)
    && forall i :: 0 <= i < |a.rooms| ==> |a.rooms[i].connections| == |b.rooms[i].connections|
  }

  /** The successors of a well-formed state are well-formed and over the
      same rooms; so no move can lead the robot out of the map. */
  lemma MovesPreserveWellFormed(s: Robot)
    requires WellFormed(s)
    ensures forall e :: e in MoveRobot(s) ==> WellFormed(e.to) && SameShape(s, e.to)
  {
    var es := MoveRobot(s);
    var n := |s.rooms[s.location].connections|;
    forall j | 0 <= j < |es|
      ensures WellFormed(es[j].to) && SameShape(s, es[j].to)
    {
      if j < n {
        var c := s.rooms[s.location].connections[j];
        if c.connectionType == Hallway {
          HallwayMove(s, j);
        } else {
          DoorMove(s, j);
          DoorKeepsTargets(s, es[j].to, s.rooms[s.location].name, c.roomName);
        }
      } else {
        HandlingMoves(s);
        var t := es[j].to;
        forall i, k | 0 <= i < |t.rooms| && 0 <= k < |t.rooms[i].connections|
          ensures GetRoomIndex(t.rooms, t.rooms[i].connections[k].roomName) >= 0
        {
          GetRoomIndexDependsOnNames(s.rooms, t.rooms, s.rooms[i].connections[k].roomName, t.rooms[i].connections[k].roomName);
        }
      }
    }
  }

  /** Rewriting a door keeps every connection's target up to case, so every
      target still resolves. */
  lemma DoorKeepsTargets(s: Robot, t: Robot, from: string, to: string)
    requires WellFormed(s)
    requires 0 <= t.location < |t.rooms| && t.location == s.location
    requires SameShape(s, t)
    requires forall i, k :: 0 <= i < |s.rooms| && 0 <= k < |s.rooms[i].connections| ==>
      ConnectionUpdated(s.rooms[i], s.rooms[i].connections[k], t.rooms[i].connections[k], from, to, Hallway)
    ensures WellFormed(t)
  {
    forall i, k | 0 <= i < |t.rooms| && 0 <= k < |t.rooms[i].connections|
      ensures GetRoomIndex(t.rooms, t.rooms[i].connections[k].roomName) >= 0
    {
      var c, c' := s.rooms[i].connections[k], t.rooms[i].connections[k];
      UpperEqualIffLowerEqual(c.roomName, c'.roomName);
      GetRoomIndexDependsOnNames(s.rooms, t.rooms, c.roomName, c'.roomName);
    }
  }

  /** The objects in the world, each counted once: the rooms' contents and
      what the robot holds. */
  function Objects(s: Robot): multiset<ObjectType>
  {
    (multiset(Contents(s.rooms)) + multiset{s.holding})[Nothing := 0]
  }

  function Contents(rooms: seq<Room>): (r: seq<ObjectType>)
    ensures |r| == |rooms| && forall i :: 0 <= i < |rooms| ==> r[i] == rooms[i].contents
  {
    seq(|rooms|, i requires 0 <= i < |rooms| => rooms[i].contents)
  }

  /** No move creates or destroys an object, except that opening a door
      with the Key uses the Key up. */
  lemma ObjectsConserved(s: Robot, j: int)
    requires ValidLocation(s)
    requires 0 <= j < |MoveRobot(s)|
    ensures var e := MoveRobot(s)[j];
      if j < |s.rooms[s.location].connections| && s.rooms[s.location].connections[j].connectionType == Door && s.holding == Key
      then Objects(e.to) + multiset{Key} == Objects(s)
      else Objects(e.to) == Objects(s)
  {
    if j < |s.rooms[s.location].connections| {
      ConnectionConserves(s, j);
    } else {
      HandlingConserves(s, j);
    }
  }

  /** A hallway or door edge leaves every room's contents as they were. */
  lemma ConnectionConserves(s: Robot, j: int)
    requires ValidLocation(s)
    requires 0 <= j < |s.rooms[s.location].connections|
    ensures Contents(MoveRobot(s)[j].to.rooms) == Contents(s.rooms)
    ensures var c := s.rooms[s.location].connections[j];
      MoveRobot(s)[j].to.holding == if c.connectionType == Door && s.holding == Key then Nothing else s.holding
  {
    var c := s.rooms[s.location].connections[j];
    if c.connectionType == Hallway {
      HallwayMove(s, j);
    } else {
      DoorMove(s, j);
    }
  }

  /** A pick-up or drop edge moves one object between hands and room. */
  lemma HandlingConserves(s: Robot, j: int)
    requires ValidLocation(s)
    requires |s.rooms[s.location].connections| <= j < |MoveRobot(s)|
    ensures Objects(MoveRobot(s)[j].to) == Objects(s)
  {
    HandlingMoves(s);
    var e := MoveRobot(s)[j];
    var cs := Contents(s.rooms);
    var l := s.location;
    var v := if CanPickUp(s) then Nothing else s.holding;
    assert Contents(e.to.rooms) == cs[l := v];
    MultisetUpdate(cs, l, v);
  }

  lemma MultisetUpdate<T>(a: seq<T>, i: int, v: T)
    requires 0 <= i < |a|
    ensures multiset(a[i := v]) + multiset{a[i]} == multiset(a) + multiset{v}
  {
    assert a == a[..i] + [a[i]] + a[i+1..];
    assert a[i := v] == a[..i] + [v] + a[i+1..];
  }

  // ---------------------------------------------------------------------
  // Object names (`stringToObjectType`)

  /** The text of each object type. */
  function ObjectName(o: ObjectType): string
  {
    match o
    case Key => "Key"
    case Orb => "Orb"
    case Nothing => "Nothing"
  }

  /** `stringToObjectType`: the object type named by `text`, ignoring case;
      `None` for any other text (the source's `undefined`). */
  function StringToObjectType(text: string): (r: Option<ObjectType>)
    ensures r.Some? <==> exists o :: Lower(text) == Lower(ObjectName(o))
    ensures r.Some? ==> Lower(text) == Lower(ObjectName(r.value))
  {
    ObjectNamesLower();
    var lowercase := Lower(text);
    if lowercase == "key" then Some(Key)
    else if lowercase == "orb" then Some(Orb)
    else if lowercase == "nothing" then Some(Nothing)
    else None
  }

  lemma ObjectNamesLower()
    ensures Lower(ObjectName(Key)) == "key"
    ensures Lower(ObjectName(Orb)) == "orb"
    ensures Lower(ObjectName(Nothing)) == "nothing"
  {
    assert Lower("Key") == [LowerChar('K'), LowerChar('e'), LowerChar('y')];
    assert Lower("Orb") == [LowerChar('O'), LowerChar('r'), LowerChar('b')];
    assert Lower("Nothing") == [LowerChar('N'), LowerChar('o'), LowerChar('t'), LowerChar('h'), LowerChar('i'), LowerChar('n'), LowerChar('g')];
  }

  /** Every object's own name, in any case, reads back as that object. */
  lemma ObjectNameRoundTrip(o: ObjectType, text: string)
    requires Lower(text) == Lower(ObjectName(o))
    ensures StringToObjectType(text) == Some(o)
  {
    ObjectNamesLower();
  }

  // ---------------------------------------------------------------------
  // Goals (`equals` against a partial goal state)

  /** The room part of a goal: the room's name, and, when given, what the
      room must contain. */
  datatype RoomPattern = RoomPattern(name: string, contents: Option<ObjectType>)

  /** A goal state with optional parts: what the robot must hold, and the
      room it must stand in. An absent part is not compared. */
  datatype Goal = Goal(holding: Option<ObjectType>, place: Option<RoomPattern>)

  /** The exact goal a state meets: its held object, and its room's name
      and contents. */
  function Describe(s: Robot): Goal
    requires ValidLocation(s)
  {
    Goal(Some(s.holding), Some(RoomPattern(s.rooms[s.location].name, Some(s.rooms[s.location].contents))))
  }

  /** `equals(goal)`: the robot's room has the goal room's name (compared
      exactly) and, if given, its contents; the robot holds the goal
      object, if given. So a state meets a goal exactly when its own full
      description asks for at least what the goal asks for. */
  predicate Equals(s: Robot, goal: Goal)
    requires goal.place.Some? ==> ValidLocation(s)
    ensures ValidLocation(s) ==> (Equals(s, goal) <==> Refines(Describe(s), goal))
  {
    && (goal.place.Some? ==>
          && s.rooms[s.location].name == goal.place.value.name
          && (goal.place.value.contents.Some? ==> s.rooms[s.location].contents == goal.place.value.contents.value))
    && (goal.holding.Some? ==> s.holding == goal.holding.value)
  }

  /** A goal that fixes every part it can fix. */
  predicate Exact(goal: Goal)
  {
    goal.holding.Some? && goal.place.Some? && goal.place.value.contents.Some?
  }

  /** `goal` asks for no less than `weaker` does. */
  predicate Refines(goal: Goal, weaker: Goal)
  {
    && (weaker.holding.Some? ==> goal.holding == weaker.holding)
    && (weaker.place.Some? ==>
          && goal.place.Some?
          && goal.place.value.name == weaker.place.value.name
          && (weaker.place.value.contents.Some? ==> goal.place.value.contents == weaker.place.value.contents))
  }

  /** The empty goal matches every state, and a state that matches a goal
      matches every goal that asks for less. */
  lemma EqualsIsMonotone(s: Robot, goal: Goal, weaker: Goal)
    requires goal.place.Some? ==> ValidLocation(s)
    requires Refines(goal, weaker)
    ensures Equals(s, Goal(None, None))
    ensures Equals(s, goal) ==> Equals(s, weaker)
  {
  }

  /** An exact goal is matched exactly by the states whose robot holds the
      goal object and stands in a room with the goal room's name and
      contents: the goal acts as a full state. */
  lemma ExactGoalIsState(s: Robot, goal: Goal)
    requires Exact(goal) && ValidLocation(s)
    ensures Equals(s, goal) <==>
      s.holding == goal.holding.value && s.rooms[s.location].name == goal.place.value.name
      && s.rooms[s.location].contents == goal.place.value.contents.value
  {
  }

  /** `put <object> [room]`: hands empty, and when a room is named, standing
      there with the object in it. An empty token counts as absent. */
  function PutGoal(item: string, room: string): Goal
  {
    Goal(Some(Nothing), if room != "" then Some(RoomPattern(room, StringToObjectType(item))) else None)
  }

  /** `goto <room> [object]`: standing in the room, holding the object when
      one is named. */
  function GotoGoal(room: string, item: string): Goal
  {
    Goal(StringToObjectType(item), Some(RoomPattern(room, None)))
  }

  /** `get <object> [room]`: holding the object, and when a room is named,
      standing there with the room empty. */
  function GetGoal(item: string, room: string): Goal
  {
    Goal(StringToObjectType(item), if room != "" then Some(RoomPattern(room, Some(Nothing))) else None)
  }

  /** Each command's goal is met by the move that carries it out: dropping
      the held object meets `put`, picking up meets `get` (both naming the
      current room), and every state meets `goto` its own room. */
  lemma GoalsMetByTheirMoves(s: Robot)
    requires ValidLocation(s)
    ensures var name := s.rooms[s.location].name;
      CanDrop(s) ==> Equals(Drop(s), PutGoal(ObjectName(s.holding), name))
    ensures var name := s.rooms[s.location].name;
      CanPickUp(s) ==> Equals(PickUp(s), GetGoal(ObjectName(s.rooms[s.location].contents), name))
    ensures Equals(s, GotoGoal(s.rooms[s.location].name, ""))
    ensures Equals(s, GotoGoal(s.rooms[s.location].name, ObjectName(s.holding)))
  {
    ObjectNameRoundTrip(s.holding, ObjectName(s.holding));
    ObjectNameRoundTrip(s.rooms[s.location].contents, ObjectName(s.rooms[s.location].contents));
  }

  // ---------------------------------------------------------------------
  // Full state equality (`compareWorldState`)

  /** `compareWorldState`: same location and held object, and every room of
      `a` equal to the room at the same index in `b` (name, contents and
      each of `a`'s connections). The source reads `b`'s rooms by `a`'s
      indices, so `b` must have at least as many rooms. */
  predicate CompareWorldState(a: Robot, b: Robot)
    requires |a.rooms| <= |b.rooms|
  {
    && a.location == b.location
    && a.holding == b.holding
    && forall i :: 0 <= i < |a.rooms| ==>
         && a.rooms[i].name == b.rooms[i].name
         && a.rooms[i].contents == b.rooms[i].contents
         && forall j :: 0 <= j < |a.rooms[i].connections| ==>
              j < |b.rooms[i].connections| && a.rooms[i].connections[j] == b.rooms[i].connections[j]
  }

  /** Between states over the same rooms the comparison is plain equality,
      in both directions. */
  lemma CompareIsEquality(a: Robot, b: Robot)
    requires SameShape(a, b)
    ensures CompareWorldState(a, b) <==> a == b
    ensures CompareWorldState(b, a) <==> a == b
  {
    if CompareWorldState(a, b) {
      assert forall i :: 0 <= i < |a.rooms| ==> a.rooms[i].connections == b.rooms[i].connections;
      assert forall i :: 0 <= i < |a.rooms| ==> a.rooms[i] == b.rooms[i];
      assert a.rooms == b.rooms;
    }
    if CompareWorldState(b, a) {
      assert forall i :: 0 <= i < |a.rooms| ==> a.rooms[i].connections == b.rooms[i].connections;
      assert forall i :: 0 <= i < |a.rooms| ==> a.rooms[i] == b.rooms[i];
      assert a.rooms == b.rooms;
    }
  }

  /** Without the shape condition the comparison is not equality: a state
      compares equal to every state that has the same location and hands
      and further rooms after its own. */
  lemma CompareIsPrefixCheck(a: Robot, extra: seq<Room>)
    ensures CompareWorldState(a, a.(rooms := a.rooms + extra))
    ensures |extra| > 0 ==> a != a.(rooms := a.rooms + extra)
  {
    var b := a.(rooms := a.rooms + extra);
    assert forall i :: 0 <= i < |a.rooms| ==> b.rooms[i] == a.rooms[i];
    if |extra| > 0 {
      assert |b.rooms| != |a.rooms|;
    }
  }
}
