/** The scatter generator of Program.cs as an object: the terrain array it fills in
    place (GoRogue's map reduced to one terrain per cell), the room list, the
    random-number generator, and the player's position. */
module Scatter {
  import opened Lattice
  import opened ScatterMap
  import Rng

  /** The terrain array as a value, indexed [x][y]. */
  type Grid = seq<seq<Terrain>>

  class Program {
    const width: int
    const height: int
    /** GoRogue's `Map.Terrain`, indexed [x, y]. */
    const terrain: array2<Terrain>
    var rooms: seq<Room>
    const rng: Rng.Random
    var player: Point

    predicate Dims() { terrain.Length0 == width && terrain.Length1 == height }

    predicate InGrid(p: Point) { 0 <= p.x < width && 0 <= p.y < height }

    /** Strictly inside the map's one-cell border. */
    predicate Inner(p: Point) { 0 < p.x < width - 1 && 0 < p.y < height - 1 }

    ghost function Snapshot(): (g: Grid)
      reads terrain
      requires Dims()
      ensures |g| == width && forall x :: 0 <= x < width ==> |g[x]| == height
      ensures forall x, y :: 0 <= x < width && 0 <= y < height ==> g[x][y] == terrain[x, y]
    {
      seq(width, x requires 0 <= x < width reads terrain =>
        seq(height, y requires 0 <= y < height reads terrain => terrain[x, y]))
    }

    /** The map of the given size, every cell `Wall` (its terrain before
        `GenerateStyleMap` runs is not modelled), no rooms, and the draws the
        random-number generator yields. */
    constructor (width: int, height: int, draws: nat -> int)
      requires width >= 0 && height >= 0
      ensures this.width == width && this.height == height && Dims() && fresh(terrain)
      ensures fresh(rng) && rng.draws == draws && rng.cursor == 0
      ensures rooms == []
    {
      this.width := width;
      this.height := height;
      terrain := new Terrain[width, height]((x, y) => Wall);
      rooms := [];
      rng := new Rng.Random(draws);
      player := Point(0, 0);
    }

    /** `GenerateStyleMap`'s first loop: every cell becomes `Wall`. */
    method FillWalls()
      requires Dims()
      modifies terrain
      ensures forall x, y :: 0 <= x < width && 0 <= y < height ==> terrain[x, y] == Wall
    {
      var x := 0;
      while x < width
        invariant 0 <= x <= width
        invariant forall i, j :: 0 <= i < x && 0 <= j < height ==> terrain[i, j] == Wall
      {
        var y := 0;
        while y < height
          invariant 0 <= y <= height
          invariant forall i, j :: 0 <= j < height && (0 <= i < x || (i == x && 0 <= j < y)) ==> terrain[i, j] == Wall
        {
          terrain[x, y] := Wall;
          y := y + 1;
        }
        x := x + 1;
      }
    }

    /** The room fits on the map. */
    predicate OnMap(r: Room)
    {
      0 <= r.topLeft.x && r.topLeft.x + r.width <= width && 0 <= r.topLeft.y && r.topLeft.y + r.height <= height
    }

    /** The floor loop of `CreateRoom`: the strict interior of the room becomes
        `Floor`, its ring and everything else keep their terrain. */
    method CarveInterior(room: Room)
      requires Dims() && OnMap(room)
      modifies terrain
      ensures forall x, y :: 0 <= x < width && 0 <= y < height ==>
        terrain[x, y] == if room.Interior(Point(x, y)) then Floor else old(terrain[x, y])
    {
      var x := room.topLeft.x;
      while x < room.topLeft.x + room.width
        invariant room.topLeft.x <= x <= Max(room.topLeft.x, room.topLeft.x + room.width)
        invariant forall i, j :: 0 <= i < width && 0 <= j < height ==>
          terrain[i, j] == if i < x && room.Interior(Point(i, j)) then Floor else old(terrain[i, j])
      {
        var y := room.topLeft.y;
        while y < room.topLeft.y + room.height
          invariant room.topLeft.y <= y <= Max(room.topLeft.y, room.topLeft.y + room.height)
          invariant forall i, j :: 0 <= i < width && 0 <= j < height ==>
            terrain[i, j] ==
              if (i < x || (i == x && j < y)) && room.Interior(Point(i, j)) then Floor else old(terrain[i, j])
        {
          if x > room.topLeft.x && x < room.topLeft.x + room.width - 1 &&
             y > room.topLeft.y && y < room.topLeft.y + room.height - 1 {
            terrain[x, y] := Floor;
          }
          y := y + 1;
        }
        x := x + 1;
      }
    }

    /** Each of the four corner cells becomes a pillar on a roll below 70
        percent; a very large room also gets one in its centre. */
    method AddPillarsToRoom(room: Room)
      requires Dims() && OnMap(room) && room.width > 15 && room.height > 10
      modifies terrain, rng
      ensures rng.cursor == old(rng.cursor) + 4
      ensures forall x, y :: 0 <= x < width && 0 <= y < height ==>
        terrain[x, y] == if Point(x, y) in PillarCells(room, rng.draws, old(rng.cursor)) then Pillar
                         else old(terrain[x, y])
    {
      PlaceCornerPillars(room);
      if room.width > 18 && room.height > 12 {
        var center := room.Center();
        terrain[center.x, center.y] := Pillar;
      }
    }

    /** The corner loop of `AddPillarsToRoom`. */
    method PlaceCornerPillars(room: Room)
      requires Dims() && OnMap(room) && room.width > 15 && room.height > 10
      modifies terrain, rng
      ensures rng.cursor == old(rng.cursor) + 4
      ensures forall x, y :: 0 <= x < width && 0 <= y < height ==>
        terrain[x, y] == if Point(x, y) in ChosenCorners(room, rng.draws, old(rng.cursor), 4) then Pillar
                         else old(terrain[x, y])
    {
      ghost var c0 := rng.cursor;
      var positions := PillarCorners(room);
      var k := 0;
      while k < 4
        invariant 0 <= k <= 4 && rng.cursor == c0 + k
        invariant forall x, y :: 0 <= x < width && 0 <= y < height ==>
          terrain[x, y] == if Point(x, y) in ChosenCorners(room, rng.draws, c0, k) then Pillar
                           else old(terrain[x, y])
      {
        ghost var chosen := ChosenCorners(room, rng.draws, c0, k);
        var roll := rng.NextRoll();
        var pos := positions[k];
        if roll < 70 {
          terrain[pos.x, pos.y] := Pillar;
        }
        assert ChosenCorners(room, rng.draws, c0, k + 1) == chosen + if roll < 70 then [pos] else [];
        k := k + 1;
      }
    }

    /** `CreateRoom`: the interior becomes floor, then a room wider than 15 and
        taller than 10 gets its pillars. */
    method CreateRoom(room: Room)
      requires Dims() && OnMap(room)
      modifies terrain, rng
      ensures rng.cursor == old(rng.cursor) + if room.width > 15 && room.height > 10 then 4 else 0
      ensures forall x, y :: 0 <= x < width && 0 <= y < height ==>
        terrain[x, y] ==
          if room.width > 15 && room.height > 10 && Point(x, y) in PillarCells(room, rng.draws, old(rng.cursor))
          then Pillar
          else if room.Interior(Point(x, y)) then Floor
          else old(terrain[x, y])
    {
      CarveInterior(room);
      if room.width > 15 && room.height > 10 {
        AddPillarsToRoom(room);
      }
    }

    /** The overlap scan of `GenerateRooms`, stopping at the first clash. */
    method OverlapsExisting(newRoom: Room) returns (overlaps: bool)
      ensures overlaps <==> OverlapsAny(newRoom, rooms)
    {
      overlaps := false;
      var i := 0;
      while i < |rooms|
        invariant 0 <= i <= |rooms|
        invariant !overlaps && forall j :: 0 <= j < i ==> !RoomsOverlap(newRoom, rooms[j], Buffer)
      {
        if RoomsOverlap(newRoom, rooms[i], Buffer) {
          overlaps := true;
          return;
        }
        i := i + 1;
      }
    }

    /** One attempt of `GenerateRooms`: four draws give a room, which is kept,
        and its interior carved, when it clashes with no room kept so far. */
    method TryRoom()
      requires Dims() && RoomsFit(width, height)
      modifies terrain, rng, this`rooms
      ensures rng.cursor == old(rng.cursor) + 4
      ensures var r := SampleRoom(width, height, rng.draws, old(rng.cursor));
        rooms == Kept(old(rooms), r)
      ensures forall x, y :: 0 <= x < width && 0 <= y < height ==>
        terrain[x, y] ==
          if !OverlapsAny(SampleRoom(width, height, rng.draws, old(rng.cursor)), old(rooms)) &&
             SampleRoom(width, height, rng.draws, old(rng.cursor)).Interior(Point(x, y))
          then Floor else old(terrain[x, y])
    {
      var roomWidth := rng.Next(12, 14);
      var roomHeight := rng.Next(10, 12);
      var roomX := rng.Next(3, width - roomWidth - 3);
      var roomY := rng.Next(3, height - roomHeight - 3);
      var newRoom := Room(Point(roomX, roomY), roomWidth, roomHeight);
      var overlaps := OverlapsExisting(newRoom);
      if !overlaps {
        rooms := rooms + [newRoom];
        CreateRoom(newRoom);
      }
    }

    /** Rejection sampling: a target count in [10, 20), then up to 500 attempts,
        each drawing a room and keeping it, with its interior carved, when it
        clashes with no room kept so far. */
    method GenerateRooms()
      requires Dims() && RoomsFit(width, height)
      modifies terrain, rng, this`rooms
      ensures rooms == GeneratedRooms(width, height, rng.draws, old(rng.cursor)).0
      ensures rng.cursor == GeneratedRooms(width, height, rng.draws, old(rng.cursor)).1
      ensures forall x, y :: 0 <= x < width && 0 <= y < height ==>
        terrain[x, y] == if InAnyInterior(rooms, Point(x, y)) then Floor else old(terrain[x, y])
    {
      rooms := [];
      var attempts := 0;
      var maxAttempts := MaxAttempts;
      ghost var c0 := rng.cursor;
      var targetRooms := rng.Next(10, 20);
      ghost var goal := Attempts(width, height, rng.draws, rng.cursor, targetRooms, 0, []);
      GeneratedRoomsFrom(width, height, rng.draws, c0, targetRooms);
      while |rooms| < targetRooms && attempts < maxAttempts
        invariant 0 <= attempts <= maxAttempts
        invariant Attempts(width, height, rng.draws, rng.cursor, targetRooms, attempts, rooms) == goal
        invariant forall x, y :: 0 <= x < width && 0 <= y < height ==>
          terrain[x, y] == if InAnyInterior(rooms, Point(x, y)) then Floor else old(terrain[x, y])
        decreases maxAttempts - attempts
      {
        ghost var before := rooms;
        ghost var c1 := rng.cursor;
        ghost var a0 := attempts;
        ghost var r := SampleRoom(width, height, rng.draws, c1);
        attempts := attempts + 1;
        TryRoom();
        assert Attempts(width, height, rng.draws, rng.cursor, targetRooms, attempts, rooms) == goal by {
          AttemptsStep(width, height, rng.draws, c1, targetRooms, a0, before);
        }
        if !OverlapsAny(r, before) {
          forall x, y | 0 <= x < width && 0 <= y < height
            ensures terrain[x, y] == if InAnyInterior(rooms, Point(x, y)) then Floor else old(terrain[x, y])
          {
            InAnyInteriorSnoc(before, r, Point(x, y));
          }
        }
      }
      assert Attempts(width, height, rng.draws, rng.cursor, targetRooms, attempts, rooms) == (rooms, rng.cursor);
    }

    /** `IsInRoom`: the scan over the room list, stopping at the first room
        that contains the cell. */
    method IsInRoom(position: Point) returns (b: bool)
      ensures b <==> InAnyRoom(rooms, position)
    {
      var i := 0;
      while i < |rooms|
        invariant 0 <= i <= |rooms|
        invariant forall j :: 0 <= j < i ==> !rooms[j].Contains(position)
      {
        if rooms[i].Contains(position) {
          return true;
        }
        i := i + 1;
      }
      return false;
    }

    /** `GetCorridorPath`: the start, then one point per step along x to the
        end's column, then one per step along y to the end. */
    static method GetCorridorPath(start: Point, end: Point) returns (path: seq<Point>)
      ensures path == LPath(start, end)
    {
      path := WalkColumns(start, end);
      path := WalkRows(start, end, path);
    }

    /** The first loop of `GetCorridorPath`: the path up to the end's column. */
    static method WalkColumns(start: Point, end: Point) returns (path: seq<Point>)
      ensures |path| == Abs(end.x - start.x) + 1
      ensures forall i :: 0 <= i < |path| ==> path[i] == PathPoint(start, end, i)
    {
      var current := start;
      path := [current];
      while current.x != end.x
        invariant 1 <= |path| <= Abs(end.x - start.x) + 1
        invariant forall i :: 0 <= i < |path| ==> path[i] == PathPoint(start, end, i)
        invariant current == PathPoint(start, end, |path| - 1)
        decreases Abs(end.x - start.x) + 1 - |path|
      {
        WalkX(start, end, |path| - 1);
        current := Point(current.x + Sign(end.x - current.x), current.y);
        path := path + [current];
      }
      WalkX(start, end, |path| - 1);
    }

    /** The second loop of `GetCorridorPath`: from the end's column to the end. */
    static method WalkRows(start: Point, end: Point, prefix: seq<Point>) returns (path: seq<Point>)
      requires |prefix| == Abs(end.x - start.x) + 1
      requires forall i :: 0 <= i < |prefix| ==> prefix[i] == PathPoint(start, end, i)
      ensures path == LPath(start, end)
    {
      path := prefix;
      var current := path[|path| - 1];
      WalkY(start, end, |path| - 1);
      while current.y != end.y
        invariant Abs(end.x - start.x) + 1 <= |path| <= Abs(end.x - start.x) + Abs(end.y - start.y) + 1
        invariant forall i :: 0 <= i < |path| ==> path[i] == PathPoint(start, end, i)
        invariant current == PathPoint(start, end, |path| - 1)
        decreases Abs(end.x - start.x) + Abs(end.y - start.y) + 1 - |path|
      {
        WalkY(start, end, |path| - 1);
        current := Point(current.x, current.y + Sign(end.y - current.y));
        path := path + [current];
      }
      WalkY(start, end, |path| - 1);
    }

    /** One brushed cell of `CreateThickCorridor`: on the map's interior and not
        a pillar, it draws a roll and takes the terrain `CorridorTile` gives. */
    method StampCell(pos: Point)
      requires Dims()
      modifies terrain, rng
      ensures rng.cursor == old(rng.cursor) +
        if Inner(pos) && !Protected(rooms, old(terrain[pos.x, pos.y]), pos) then 1 else 0
      ensures forall x, y :: 0 <= x < width && 0 <= y < height ==>
        terrain[x, y] ==
          if Point(x, y) == pos && Inner(pos) && !Protected(rooms, old(terrain[x, y]), pos)
          then CorridorTile(Rng.Roll(rng.draws(old(rng.cursor))))
          else old(terrain[x, y])
    {
      if pos.x > 0 && pos.x < width - 1 && pos.y > 0 && pos.y < height - 1 {
        var currentTerrain := terrain[pos.x, pos.y];
        var inRoom := IsInRoom(pos);
        var isPillar := !Walkable(currentTerrain) && !Transparent(currentTerrain) && inRoom;
        if !isPillar {
          var random := rng.NextRoll();
          var t := if random < 1 then Water else if random < 3 then Grass else Floor;
          terrain[pos.x, pos.y] := t;
        }
      }
    }

    /** The map differs from `g` only on interior cells that `g` does not
        protect, and only by holding corridor terrain there. */
    ghost predicate CorridorChanges(g: Grid)
      reads this, terrain
      requires Dims() && |g| == width && forall x :: 0 <= x < width ==> |g[x]| == height
    {
      forall x, y :: 0 <= x < width && 0 <= y < height ==>
        terrain[x, y] == g[x][y] ||
        (Inner(Point(x, y)) && !Protected(rooms, g[x][y], Point(x, y)) && CorridorTerrain(terrain[x, y]))
    }

    /** The dx-th column of the brush around `p`. */
    method StampColumn(p: Point, dx: int)
      requires Dims()
      modifies terrain, rng
      ensures rng.cursor >= old(rng.cursor)
      ensures forall x, y :: 0 <= x < width && 0 <= y < height ==>
        if x == p.x + dx && -HalfWidthY <= y - p.y <= HalfWidthY && Inner(Point(x, y)) &&
           !Protected(rooms, old(terrain[x, y]), Point(x, y))
        then CorridorTerrain(terrain[x, y]) else terrain[x, y] == old(terrain[x, y])
    {
      var dy := -HalfWidthY;
      while dy <= HalfWidthY
        invariant -HalfWidthY <= dy <= HalfWidthY + 1
        invariant rng.cursor >= old(rng.cursor)
        invariant forall x, y :: 0 <= x < width && 0 <= y < height ==>
          if x == p.x + dx && -HalfWidthY <= y - p.y < dy && Inner(Point(x, y)) &&
             !Protected(rooms, old(terrain[x, y]), Point(x, y))
          then CorridorTerrain(terrain[x, y]) else terrain[x, y] == old(terrain[x, y])
      {
        StampCell(Point(p.x + dx, p.y + dy));
        dy := dy + 1;
      }
    }

    /** The whole brush around `p`: 13 columns of 9 cells. */
    method StampBrush(p: Point)
      requires Dims()
      modifies terrain, rng
      ensures rng.cursor >= old(rng.cursor)
      ensures forall x, y :: 0 <= x < width && 0 <= y < height ==>
        if InBrush(p, Point(x, y)) && Inner(Point(x, y)) && !Protected(rooms, old(terrain[x, y]), Point(x, y))
        then CorridorTerrain(terrain[x, y]) else terrain[x, y] == old(terrain[x, y])
    {
      var dx := -HalfWidthX;
      while dx <= HalfWidthX
        invariant -HalfWidthX <= dx <= HalfWidthX + 1
        invariant rng.cursor >= old(rng.cursor)
        invariant forall x, y :: 0 <= x < width && 0 <= y < height ==>
          if -HalfWidthX <= x - p.x < dx && -HalfWidthY <= y - p.y <= HalfWidthY && Inner(Point(x, y)) &&
             !Protected(rooms, old(terrain[x, y]), Point(x, y))
          then CorridorTerrain(terrain[x, y]) else terrain[x, y] == old(terrain[x, y])
      {
        StampColumn(p, dx);
        dx := dx + 1;
      }
    }

    /** `CreateThickCorridor`: the brush swept along the L path from `start`
        to `end`. Every swept interior cell that is not a pillar ends with
        corridor terrain; no other cell changes. */
    method CreateThickCorridor(start: Point, end: Point)
      requires Dims()
      modifies terrain, rng
      ensures rng.cursor >= old(rng.cursor)
      ensures forall x, y :: 0 <= x < width && 0 <= y < height ==>
        if Inner(Point(x, y)) && Swept(LPath(start, end), Point(x, y)) &&
           !Protected(rooms, old(terrain[x, y]), Point(x, y))
        then CorridorTerrain(terrain[x, y]) else terrain[x, y] == old(terrain[x, y])
    {
      var path := GetCorridorPath(start, end);
      var k := 0;
      while k < |path|
        invariant 0 <= k <= |path|
        invariant rng.cursor >= old(rng.cursor)
        invariant forall x, y :: 0 <= x < width && 0 <= y < height ==>
          if Inner(Point(x, y)) && Swept(path[..k], Point(x, y)) &&
             !Protected(rooms, old(terrain[x, y]), Point(x, y))
          then CorridorTerrain(terrain[x, y]) else terrain[x, y] == old(terrain[x, y])
      {
        StampBrush(path[k]);
        forall x, y | 0 <= x < width && 0 <= y < height
          ensures Swept(path[..k + 1], Point(x, y)) <==> Swept(path[..k], Point(x, y)) || InBrush(path[k], Point(x, y))
        {
          assert path[..k + 1] == path[..k] + [path[k]];
          SweptSnoc(path[..k], path[k], Point(x, y));
        }
        k := k + 1;
      }
      assert path[..|path|] == path;
    }

    /** A grid of the map's size. */
    predicate Sized(g: Grid)
    {
      |g| == width && forall x :: 0 <= x < width ==> |g[x]| == height
    }

    /** The corridor from `a` to `b` has been cut into the map that was `g`:
        every swept interior cell that `g` does not protect holds corridor
        terrain. */
    ghost predicate Carved(g: Grid, a: Point, b: Point)
      reads this, terrain
      requires Dims() && Sized(g)
    {
      forall x, y ::
        0 <= x < width && 0 <= y < height && Inner(Point(x, y)) &&
        Swept(LPath(a, b), Point(x, y)) && !Protected(rooms, g[x][y], Point(x, y))
        ==> CorridorTerrain(terrain[x, y])
    }

    ghost predicate AllCarved(g: Grid, links: seq<(Point, Point)>)
      reads this, terrain
      requires Dims() && Sized(g)
    {
      forall k :: 0 <= k < |links| ==> Carved(g, links[k].0, links[k].1)
    }

    /** One `CreateThickCorridor` call of `ConnectRoomsWithThickCorridors`,
        seen from the map `g` the pass started on: the new corridor is cut,
        the earlier ones stay cut, and every change so far is corridor
        terrain on a cell `g` does not protect. */
    method Link(a: Point, b: Point, ghost g: Grid, ghost done: seq<(Point, Point)>)
      requires Dims() && Sized(g) && CorridorChanges(g) && AllCarved(g, done)
      modifies terrain, rng
      ensures rng.cursor >= old(rng.cursor)
      ensures CorridorChanges(g) && AllCarved(g, done + [(a, b)])
    {
      ghost var before := Snapshot();
      CreateThickCorridor(a, b);
      forall x, y | 0 <= x < width && 0 <= y < height
        ensures Protected(rooms, before[x][y], Point(x, y)) <==> Protected(rooms, g[x][y], Point(x, y))
      {
      }
    }

    /** The two chain steps of `ConnectRoomsWithThickCorridors`. */
    method ChainCorridors(ghost g: Grid)
      requires Dims() && Sized(g) && |rooms| >= 2 && CorridorChanges(g)
      modifies terrain, rng
      ensures rng.cursor >= old(rng.cursor)
      ensures CorridorChanges(g) && AllCarved(g, ChainLinks(rooms))
    {
      ghost var chain := ChainLinks(rooms);
      var i := 0;
      while i < |rooms| - 1
        invariant 0 <= i <= |rooms| - 1
        invariant rng.cursor >= old(rng.cursor)
        invariant CorridorChanges(g) && AllCarved(g, chain[..i])
      {
        Link(rooms[i].Center(), rooms[i + 1].Center(), g, chain[..i]);
        ChainLinksGrow(rooms, i);
        i := i + 1;
      }
      ChainLinksClose(rooms);
      if |rooms| > 2 {
        Link(rooms[|rooms| - 1].Center(), rooms[0].Center(), g, chain[..i]);
      }
    }

    /** A link between the centres of two distinct rooms. */
    predicate BetweenRooms(link: (Point, Point))
      reads this
    {
      exists i, j :: 0 <= i < |rooms| && 0 <= j < |rooms| && i != j &&
        link == (rooms[i].Center(), rooms[j].Center())
    }

    /** `ConnectRoomsWithThickCorridors`: each room to the next, the last
        back to the first when there are more than two, then one or two
        extra corridors between randomly chosen distinct rooms. The links
        cut are returned as a ghost result. */
    method ConnectRoomsWithThickCorridors() returns (ghost links: seq<(Point, Point)>)
      requires Dims()
      modifies terrain, rng
      ensures |rooms| < 2 ==>
        links == [] && rng.cursor == old(rng.cursor) &&
        (forall x, y :: 0 <= x < width && 0 <= y < height ==> terrain[x, y] == old(terrain[x, y]))
      ensures |rooms| >= 2 ==>
        ChainLinks(rooms) <= links && |links| <= |ChainLinks(rooms)| + 2
      ensures forall k :: |ChainLinks(rooms)| <= k < |links| ==> BetweenRooms(links[k])
      ensures Sized(old(Snapshot())) && CorridorChanges(old(Snapshot())) && AllCarved(old(Snapshot()), links)
    {
      ghost var g := Snapshot();
      links := [];
      if |rooms| < 2 {
        return;
      }
      ChainCorridors(g);
      var extraConnections := rng.Next(1, 3);
      links := ExtraCorridors(extraConnections, g);
    }

    /** The extra-connection loop of `ConnectRoomsWithThickCorridors`: for
        each of `count` rounds two draws pick rooms, joined when distinct. */
    method ExtraCorridors(count: nat, ghost g: Grid) returns (ghost links: seq<(Point, Point)>)
      requires Dims() && Sized(g) && |rooms| >= 2 && CorridorChanges(g) && AllCarved(g, ChainLinks(rooms))
      modifies terrain, rng
      ensures rng.cursor >= old(rng.cursor)
      ensures ChainLinks(rooms) <= links && |links| <= |ChainLinks(rooms)| + count
      ensures forall k :: |ChainLinks(rooms)| <= k < |links| ==> BetweenRooms(links[k])
      ensures CorridorChanges(g) && AllCarved(g, links)
    {
      ghost var chain := ChainLinks(rooms);
      links := chain;
      var i := 0;
      while i < count
        invariant 0 <= i <= count
        invariant chain <= links && |links| <= |chain| + i
        invariant forall k :: |chain| <= k < |links| ==> BetweenRooms(links[k])
        invariant rng.cursor >= old(rng.cursor)
        invariant CorridorChanges(g) && AllCarved(g, links)
      {
        links := ExtraLink(g, links);
        i := i + 1;
      }
    }

    /** One round of that loop. */
    method ExtraLink(ghost g: Grid, ghost done: seq<(Point, Point)>) returns (ghost links: seq<(Point, Point)>)
      requires Dims() && Sized(g) && |rooms| >= 2 && CorridorChanges(g) && AllCarved(g, done)
      modifies terrain, rng
      ensures rng.cursor >= old(rng.cursor)
      ensures links == done || (|links| == |done| + 1 && done <= links && BetweenRooms(links[|done|]))
      ensures CorridorChanges(g) && AllCarved(g, links)
    {
      links := done;
      var room1 := rng.Next(0, |rooms|);
      var room2 := rng.Next(0, |rooms|);
      if room1 != room2 {
        var a, b := rooms[room1].Center(), rooms[room2].Center();
        Link(a, b, g, done);
        links := done + [(a, b)];
        assert BetweenRooms(links[|done|]);
      }
    }

    /** `AddAlcoveToRoom`: a draw picks the side, a second the offset along
        it, and that ring cell becomes floor. */
    method AddAlcoveToRoom(room: Room)
      requires Dims() && OnMap(room) && room.width >= 6 && room.height >= 6
      modifies terrain, rng
      ensures rng.cursor == old(rng.cursor) + 2
      ensures forall x, y :: 0 <= x < width && 0 <= y < height ==>
        terrain[x, y] == if Point(x, y) == AlcoveOf(room, rng.draws, old(rng.cursor)) then Floor else old(terrain[x, y])
    {
      var wallSide := rng.Next(0, 4);
      var alcovePos;
      if wallSide == 0 {
        var alcoveX := rng.Next(room.topLeft.x + 3, room.topLeft.x + room.width - 3);
        alcovePos := Point(alcoveX, room.topLeft.y);
      } else if wallSide == 1 {
        var alcoveY := rng.Next(room.topLeft.y + 3, room.topLeft.y + room.height - 3);
        alcovePos := Point(room.topLeft.x + room.width - 1, alcoveY);
      } else if wallSide == 2 {
        var alcoveX := rng.Next(room.topLeft.x + 3, room.topLeft.x + room.width - 3);
        alcovePos := Point(alcoveX, room.topLeft.y + room.height - 1);
      } else {
        var alcoveY := rng.Next(room.topLeft.y + 3, room.topLeft.y + room.height - 3);
        alcovePos := Point(room.topLeft.x, alcoveY);
      }
      terrain[alcovePos.x, alcovePos.y] := Floor;
    }

    /** Every room lies on the map. */
    predicate AllOnMap()
      reads this
    {
      forall i :: 0 <= i < |rooms| ==> OnMap(rooms[i])
    }

    /** `AddArchitecturalDetails`: each room in turn gets an alcove on a 60
        percent roll. The cells opened and the draws used are those of
        `Alcoves`; nothing else changes. */
    method AddArchitecturalDetails()
      requires Dims() && AlcovesFit(rooms) && AllOnMap()
      modifies terrain, rng
      ensures rng.cursor == Alcoves(rooms, rng.draws, old(rng.cursor)).1
      ensures forall x, y :: 0 <= x < width && 0 <= y < height ==>
        terrain[x, y] == if Point(x, y) in Alcoves(rooms, rng.draws, old(rng.cursor)).0 then Floor else old(terrain[x, y])
    {
      var i := 0;
      while i < |rooms|
        invariant 0 <= i <= |rooms|
        invariant rng.cursor == Alcoves(rooms[..i], rng.draws, old(rng.cursor)).1
        invariant forall x, y :: 0 <= x < width && 0 <= y < height ==>
          terrain[x, y] == if Point(x, y) in Alcoves(rooms[..i], rng.draws, old(rng.cursor)).0 then Floor else old(terrain[x, y])
      {
        AlcovesStep(rooms, rng.draws, old(rng.cursor), i);
        ghost var prev := Alcoves(rooms[..i], rng.draws, old(rng.cursor));
        ghost var next := Alcoves(rooms[..i + 1], rng.draws, old(rng.cursor));
        DetailRoom(rooms[i]);
        forall x, y | 0 <= x < width && 0 <= y < height
          ensures Point(x, y) in next.0 <==>
            Point(x, y) in prev.0 || (Rng.Roll(rng.draws(prev.1)) < 60 && Point(x, y) == AlcoveOf(rooms[i], rng.draws, prev.1 + 1))
        {
        }
        i := i + 1;
      }
      assert rooms[..i] == rooms;
    }

    /** One round of that loop: the roll for `room`, then its alcove. */
    method DetailRoom(room: Room)
      requires Dims() && OnMap(room) && room.width >= 6 && room.height >= 6
      modifies terrain, rng
      ensures rng.cursor == old(rng.cursor) + if Rng.Roll(rng.draws(old(rng.cursor))) < 60 then 3 else 1
      ensures forall x, y :: 0 <= x < width && 0 <= y < height ==>
        terrain[x, y] ==
          if Rng.Roll(rng.draws(old(rng.cursor))) < 60 && Point(x, y) == AlcoveOf(room, rng.draws, old(rng.cursor) + 1)
          then Floor else old(terrain[x, y])
    {
      var roll := rng.NextRoll();
      if roll < 60 {
        AddAlcoveToRoom(room);
      }
    }

    /** Cell (i, j) comes before cell (x, y) in the column-major scan. */
    static predicate ScannedBefore(i: int, j: int, x: int, y: int)
    {
      i < x || (i == x && j < y)
    }

    /** The fallback scan of `FindValidPlayerPosition`: the first walkable
        cell off the border, columns left to right, each top to bottom. */
    method FirstWalkable() returns (found: bool, p: Point)
      requires Dims()
      ensures found ==>
        Inner(p) && Walkable(terrain[p.x, p.y]) &&
        forall i, j :: 0 < i < width - 1 && 0 < j < height - 1 && ScannedBefore(i, j, p.x, p.y) ==>
          !Walkable(terrain[i, j])
      ensures !found <==> forall i, j :: 0 < i < width - 1 && 0 < j < height - 1 ==> !Walkable(terrain[i, j])
    {
      var x := 1;
      while x < width - 1
        invariant 1 <= x <= Max(1, width - 1)
        invariant forall i, j :: 0 < i < x && 0 < j < height - 1 ==> !Walkable(terrain[i, j])
      {
        var y := 1;
        while y < height - 1
          invariant 1 <= y <= Max(1, height - 1)
          invariant forall i, j :: 0 < i < width - 1 && 0 < j < height - 1 && ScannedBefore(i, j, x, y) ==>
            !Walkable(terrain[i, j])
        {
          if Walkable(terrain[x, y]) {
            return true, Point(x, y);
          }
          y := y + 1;
        }
        x := x + 1;
      }
      return false, Point(0, 0);
    }

    /** `FindValidPlayerPosition`: the centre of the first room; failing
        that, the first walkable cell of the scan; failing that, the map's
        centre, which is turned into floor. */
    method FindValidPlayerPosition() returns (p: Point)
      requires Dims() && width >= 1 && height >= 1
      modifies terrain
      ensures |rooms| > 0 ==> p == rooms[0].Center()
      ensures |rooms| == 0 && !(forall i, j :: 0 < i < width - 1 && 0 < j < height - 1 ==> !Walkable(old(terrain[i, j]))) ==>
        Inner(p) && Walkable(terrain[p.x, p.y]) &&
        forall i, j :: 0 < i < width - 1 && 0 < j < height - 1 && ScannedBefore(i, j, p.x, p.y) ==>
          !Walkable(terrain[i, j])
      ensures |rooms| == 0 && (forall i, j :: 0 < i < width - 1 && 0 < j < height - 1 ==> !Walkable(old(terrain[i, j]))) ==>
        p == Point(width / 2, height / 2)
      ensures forall x, y :: 0 <= x < width && 0 <= y < height ==>
        terrain[x, y] ==
          if |rooms| == 0 && Point(x, y) == Point(width / 2, height / 2) &&
             (forall i, j :: 0 < i < width - 1 && 0 < j < height - 1 ==> !Walkable(old(terrain[i, j])))
          then Floor else old(terrain[x, y])
    {
      if |rooms| > 0 {
        return rooms[0].Center();
      }
      var found, q := FirstWalkable();
      if found {
        return q;
      }
      p := Point(width / 2, height / 2);
      terrain[p.x, p.y] := Floor;
    }

    /** `TryMovePlayer`: the player steps by (dx, dy) when the target cell is
        on the map and walkable, and stays put otherwise. */
    method TryMovePlayer(dx: int, dy: int)
      requires Dims()
      modifies this`player
      ensures var q := Point(old(player).x + dx, old(player).y + dy);
        player == if InGrid(q) && Walkable(terrain[q.x, q.y]) then q else old(player)
    {
      var newPosition := Point(player.x + dx, player.y + dy);
      if newPosition.x < 0 || newPosition.x >= width || newPosition.y < 0 || newPosition.y >= height {
        return;
      }
      if Walkable(terrain[newPosition.x, newPosition.y]) {
        player := newPosition;
      }
    }

    /** The finished map around the rooms: a wall border, corridor terrain
        across every room interior, wall rings broken only by the given
        alcoves, and no pillar anywhere. */
    ghost predicate StyleMapCells(alcoves: seq<Point>)
      reads this, terrain
      requires Dims()
    {
      forall x, y :: 0 <= x < width && 0 <= y < height ==>
        (!Inner(Point(x, y)) ==> terrain[x, y] == Wall) &&
        (InAnyInterior(rooms, Point(x, y)) ==> CorridorTerrain(terrain[x, y])) &&
        (InAnyRoom(rooms, Point(x, y)) && !InAnyInterior(rooms, Point(x, y)) ==>
           terrain[x, y] == if Point(x, y) in alcoves then Floor else Wall) &&
        terrain[x, y] != Pillar
    }

    /** The last step of `GenerateStyleMap`, on the map the corridors left:
        the alcoves open ring cells and keep every corridor cut. */
    method DetailAfterCorridors(ghost g: Grid, ghost links: seq<(Point, Point)>)
      requires Dims() && RoomsFit(width, height) && forall r :: r in rooms ==> RoomInBounds(width, height, r)
      requires g == RoomsGrid(width, height, rooms) && CorridorChanges(g) && AllCarved(g, links)
      modifies terrain, rng
      ensures AlcovesFit(rooms) && rng.cursor == Alcoves(rooms, rng.draws, old(rng.cursor)).1
      ensures StyleMapCells(Alcoves(rooms, rng.draws, old(rng.cursor)).0)
      ensures AllCarved(g, links)
    {
      assert AlcovesFit(rooms) && AllOnMap() by {
        forall i | 0 <= i < |rooms|
          ensures rooms[i].width >= 6 && rooms[i].height >= 6 && OnMap(rooms[i])
        {
          assert RoomInBounds(width, height, rooms[i]);
        }
      }
      ghost var mid := Snapshot();
      AddArchitecturalDetails();
      ghost var alcoves := Alcoves(rooms, rng.draws, old(rng.cursor)).0;
      forall x, y | 0 <= x < width && 0 <= y < height
        ensures CorridorTerrain(mid[x][y]) ==> CorridorTerrain(terrain[x, y])
        ensures Point(x, y) !in alcoves ==> terrain[x, y] == mid[x][y]
      {
      }
      forall x, y | 0 <= x < width && 0 <= y < height && Point(x, y) in alcoves
        ensures Inner(Point(x, y))
      {
        var i :| 0 <= i < |rooms| && rooms[i].OnRing(Point(x, y));
        assert RoomInBounds(width, height, rooms[i]);
      }
    }

    /** `GenerateStyleMap`: walls everywhere, then the rooms, the corridors
        and the alcoves. The rooms are those `GeneratedRooms` gives for the
        draws; the corridors cut are returned as a ghost result, chain links
        first; `c` is the draw position the alcove pass starts from. */
    method GenerateStyleMap() returns (ghost links: seq<(Point, Point)>, ghost c: nat)
      requires Dims() && RoomsFit(width, height)
      modifies terrain, rng, this`rooms
      ensures rooms == GeneratedRooms(width, height, rng.draws, old(rng.cursor)).0
      ensures Apart(rooms) && forall r :: r in rooms ==> RoomInBounds(width, height, r)
      ensures AlcovesFit(rooms) && rng.cursor == Alcoves(rooms, rng.draws, c).1
      ensures StyleMapCells(Alcoves(rooms, rng.draws, c).0)
      ensures ChainLinks(rooms) <= links && |links| <= |ChainLinks(rooms)| + 2
      ensures forall k :: |ChainLinks(rooms)| <= k < |links| ==> BetweenRooms(links[k])
      ensures AllCarved(RoomsGrid(width, height, rooms), links)
    {
      FillWalls();
      GenerateRooms();
      GeneratedRoomsProperties(width, height, rng.draws, old(rng.cursor));
      ghost var g := RoomsGrid(width, height, rooms);
      GridsEqual(Snapshot(), g);
      links := ConnectRoomsWithThickCorridors();
      c := rng.cursor;
      DetailAfterCorridors(g, links);
    }
  }
}
