/** The values of the scatter generator (the generation half of Program.cs): the
    terrain kinds and their flags, the Room struct, the buffered overlap test, and
    the specification functions that say which rooms `GenerateRooms` accepts, where
    a thick corridor reaches, and which cells `AddArchitecturalDetails` opens. */
module ScatterMap {
  import opened Lattice
  import Rng

  /** The five terrain objects TerrainFactory builds. */
  datatype Terrain = Wall | Floor | Water | Grass | Pillar

  /** TerrainFactory's `isWalkable` flag. */
  function Walkable(t: Terrain): bool
  {
    match t
    case Wall => false
    case Floor => true
    case Water => false
    case Grass => true
    case Pillar => false
  }

  /** TerrainFactory's `isTransparent` flag. */
  function Transparent(t: Terrain): bool
  {
    match t
    case Wall => false
    case Floor => true
    case Water => true
    case Grass => true
    case Pillar => false
  }

  /** The terrains a thick corridor stamps. */
  predicate CorridorTerrain(t: Terrain)
  {
    t == Floor || t == Water || t == Grass
  }

  /** Exactly walls and pillars block both movement and sight, and no corridor
      terrain does. */
  lemma SolidTerrains(t: Terrain)
    ensures !Walkable(t) && !Transparent(t) <==> t == Wall || t == Pillar
    ensures CorridorTerrain(t) ==> Transparent(t)
  {
  }

  /** Program.cs's Room struct. */
  datatype Room = Room(topLeft: Point, width: int, height: int)
  {
    /** The midpoint, rounded as C#'s integer division rounds. A room of
        positive extent contains its centre. */
    function Center(): (c: Point)
      ensures width > 0 && height > 0 ==> Contains(c)
    {
      Point(topLeft.x + Quot(width, 2), topLeft.y + Quot(height, 2))
    }

    /** Half-open: [x, x + width) by [y, y + height). */
    predicate Contains(p: Point)
    {
      topLeft.x <= p.x < topLeft.x + width && topLeft.y <= p.y < topLeft.y + height
    }

    /** The cells `CreateRoom` turns into floor: inside the room, off its edge. */
    predicate Interior(p: Point)
    {
      topLeft.x < p.x < topLeft.x + width - 1 && topLeft.y < p.y < topLeft.y + height - 1
    }

    /** The room's outermost ring of cells. */
    predicate OnRing(p: Point)
    {
      Contains(p) && !Interior(p)
    }
  }

  /** The overlap test of `GenerateRooms`, with a safety margin of `buffer` cells. */
  predicate RoomsOverlap(a: Room, b: Room, buffer: int)
  {
    !(a.topLeft.x + a.width + buffer <= b.topLeft.x ||
      b.topLeft.x + b.width + buffer <= a.topLeft.x ||
      a.topLeft.y + a.height + buffer <= b.topLeft.y ||
      b.topLeft.y + b.height + buffer <= a.topLeft.y)
  }

  lemma RoomsOverlapSymmetric(a: Room, b: Room, buffer: int)
    ensures RoomsOverlap(a, b, buffer) <==> RoomsOverlap(b, a, buffer)
  {
  }

  /** Chessboard distance between two cells. */
  function Chebyshev(p: Point, q: Point): nat
  {
    Max(Abs(p.x - q.x), Abs(p.y - q.y))
  }

  /** Two cells of two intervals, as close as the intervals allow: when the
      intervals come within `buffer` of each other, so do the two cells. */
  lemma NearCells(alo: int, an: int, blo: int, bn: int, buffer: int) returns (u: int, v: int)
    requires an >= 1 && bn >= 1 && buffer >= 0
    requires alo + an + buffer > blo && blo + bn + buffer > alo
    ensures alo <= u < alo + an && blo <= v < blo + bn && Abs(u - v) <= buffer
  {
    if alo + an - 1 < blo {
      u, v := alo + an - 1, blo;
    } else if blo + bn - 1 < alo {
      u, v := alo, blo + bn - 1;
    } else {
      u := Max(alo, blo);
      v := u;
    }
  }

  /** Two rooms of positive extent overlap, margin included, exactly when some
      cell of one lies within `buffer` steps (in the chessboard metric) of some
      cell of the other; so accepted rooms keep `buffer` clear cells between them
      on one axis or the other. */
  lemma RoomsOverlapIsNearness(a: Room, b: Room, buffer: int)
    requires a.width > 0 && a.height > 0 && b.width > 0 && b.height > 0 && buffer >= 0
    ensures RoomsOverlap(a, b, buffer) <==>
      exists p, q :: a.Contains(p) && b.Contains(q) && Chebyshev(p, q) <= buffer
  {
    if RoomsOverlap(a, b, buffer) {
      var px, qx := NearCells(a.topLeft.x, a.width, b.topLeft.x, b.width, buffer);
      var py, qy := NearCells(a.topLeft.y, a.height, b.topLeft.y, b.height, buffer);
      assert a.Contains(Point(px, py)) && b.Contains(Point(qx, qy)) && Chebyshev(Point(px, py), Point(qx, qy)) <= buffer;
    }
  }

  // ---------------------------------------------------------------------------
  // GenerateRooms

  const MaxAttempts := 500
  const Buffer := 4

  /** The grid is large enough that no position draw of `GenerateRooms` gets a
      reversed range (upper bound below the lower one), so `Random.Next` never
      throws. */
  predicate RoomsFit(width: int, height: int)
  {
    width >= 19 && height >= 17
  }

  /** Width 12 or 13, height 10 or 11, at least three cells from every edge of
      the grid. */
  predicate RoomInBounds(width: int, height: int, r: Room)
  {
    (r.width == 12 || r.width == 13) && (r.height == 10 || r.height == 11) &&
    3 <= r.topLeft.x && r.topLeft.x + r.width <= width - 3 &&
    3 <= r.topLeft.y && r.topLeft.y + r.height <= height - 3
  }

  /** The room one attempt draws: width, height, then the origin. The far edge
      keeps four cells from the grid's edge, since the upper bound of the origin
      draw is exclusive, except on a grid so tight that the draw's range is
      empty (a 13-wide room on a grid 19 wide, or an 11-tall room on a grid 17
      tall), for which `Random.Next` returns the lower bound. */
  function SampleRoom(width: int, height: int, draws: nat -> int, c: nat): (r: Room)
    requires RoomsFit(width, height)
    ensures RoomInBounds(width, height, r)
    ensures width >= 20 ==> r.topLeft.x + r.width <= width - 4
    ensures height >= 18 ==> r.topLeft.y + r.height <= height - 4
  {
    var w := Rng.Pick(12, 14, draws(c));
    var h := Rng.Pick(10, 12, draws(c + 1));
    var x := Rng.Pick(3, width - w - 3, draws(c + 2));
    var y := Rng.Pick(3, height - h - 3, draws(c + 3));
    Room(Point(x, y), w, h)
  }

  predicate OverlapsAny(r: Room, rooms: seq<Room>)
  {
    exists i :: 0 <= i < |rooms| && RoomsOverlap(r, rooms[i], Buffer)
  }

  /** No two rooms of the list overlap. */
  predicate Apart(rooms: seq<Room>)
  {
    forall i, j :: 0 <= i < |rooms| && 0 <= j < |rooms| && i != j ==> !RoomsOverlap(rooms[i], rooms[j], Buffer)
  }

  /** The room list after one attempt at `r`: kept when it clashes with no room
      accepted so far. */
  function Kept(rooms: seq<Room>, r: Room): (k: seq<Room>)
    ensures OverlapsAny(r, rooms) ==> k == rooms
    ensures !OverlapsAny(r, rooms) ==> k == rooms + [r]
  {
    if OverlapsAny(r, rooms) then rooms else rooms + [r]
  }

  /** The attempt loop of `GenerateRooms` from attempt number `attempts` on,
      with `acc` accepted so far and the next draw at `c`: the rooms accepted
      and the next draw position. */
  function Attempts(width: int, height: int, draws: nat -> int, c: nat, target: int, attempts: nat,
                    acc: seq<Room>): (seq<Room>, nat)
    requires RoomsFit(width, height)
    // Naming the cursor as well, which no call leaves as a literal, keeps the
    // verifier from unfolding a call with a literal attempt count 500 levels deep.
    decreases MaxAttempts - attempts, c
  {
    if |acc| >= target || attempts >= MaxAttempts then (acc, c)
    else
      var r := SampleRoom(width, height, draws, c);
      Attempts(width, height, draws, c + 4, target, attempts + 1, Kept(acc, r))
  }

  /** What `GenerateRooms` produces when its draws start at `c`: the target
      count is drawn first, then the attempts run. */
  function GeneratedRooms(width: int, height: int, draws: nat -> int, c: nat): (seq<Room>, nat)
    requires RoomsFit(width, height)
  {
    Attempts(width, height, draws, c + 1, Rng.Pick(10, 20, draws(c)), 0, [])
  }

  /** One attempt further: four draws give a room, kept when it clashes with
      no room accepted so far. */
  lemma AttemptsStep(width: int, height: int, draws: nat -> int, c: nat, target: int, attempts: nat,
                     acc: seq<Room>)
    requires RoomsFit(width, height) && |acc| < target && attempts < MaxAttempts
    ensures var r := SampleRoom(width, height, draws, c);
      Attempts(width, height, draws, c, target, attempts, acc) ==
      Attempts(width, height, draws, c + 4, target, attempts + 1, Kept(acc, r))
  {
  }

  /** `GeneratedRooms` once the target count has been drawn. */
  lemma GeneratedRoomsFrom(width: int, height: int, draws: nat -> int, c: nat, target: int)
    requires RoomsFit(width, height) && target == Rng.Pick(10, 20, draws(c))
    ensures GeneratedRooms(width, height, draws, c) == Attempts(width, height, draws, c + 1, target, 0, [])
  {
  }

  /** The attempt loop keeps the accepted rooms pairwise apart and inside their
      bounds, only ever appends, never goes past the target, and stops early (before
      all 500 attempts, four draws each) only once the target is reached. */
  lemma {:induction false} AttemptsProperties(width: int, height: int, draws: nat -> int, c: nat, target: int,
                                              attempts: nat, acc: seq<Room>)
    requires RoomsFit(width, height) && attempts <= MaxAttempts
    requires Apart(acc) && forall r :: r in acc ==> RoomInBounds(width, height, r)
    ensures var (rs, next) := Attempts(width, height, draws, c, target, attempts, acc);
      Apart(rs) && (forall r :: r in rs ==> RoomInBounds(width, height, r)) &&
      |acc| <= |rs| && rs[..|acc|] == acc &&
      (|acc| <= target ==> |rs| <= target) &&
      c <= next <= c + 4 * (MaxAttempts - attempts) &&
      (next < c + 4 * (MaxAttempts - attempts) ==> |rs| >= target)
    decreases MaxAttempts - attempts
  {
    if |acc| >= target || attempts >= MaxAttempts {
    } else {
      var r := SampleRoom(width, height, draws, c);
      var acc' := Kept(acc, r);
      if !OverlapsAny(r, acc) {
        forall i | 0 <= i < |acc|
          ensures !RoomsOverlap(r, acc[i], Buffer) && !RoomsOverlap(acc[i], r, Buffer)
        {
          RoomsOverlapSymmetric(r, acc[i], Buffer);
        }
        assert Apart(acc');
        assert acc'[..|acc|] == acc;
      }
      AttemptsProperties(width, height, draws, c + 4, target, attempts + 1, acc');
      var rs := Attempts(width, height, draws, c + 4, target, attempts + 1, acc').0;
      assert rs[..|acc|] == rs[..|acc'|][..|acc|];
    }
  }

  /** Every run of `GenerateRooms` accepts fewer than 20 rooms, pairwise apart,
      each of the sizes and within the margins of `RoomInBounds`. */
  lemma GeneratedRoomsProperties(width: int, height: int, draws: nat -> int, c: nat)
    requires RoomsFit(width, height)
    ensures var (rs, next) := GeneratedRooms(width, height, draws, c);
      Apart(rs) && |rs| < 20 && (forall r :: r in rs ==> RoomInBounds(width, height, r)) &&
      c + 1 <= next <= c + 1 + 4 * MaxAttempts
  {
    AttemptsProperties(width, height, draws, c + 1, Rng.Pick(10, 20, draws(c)), 0, []);
  }

  /** No room `GenerateRooms` accepts is large enough for `AddPillarsToRoom`. */
  lemma SampledRoomsHaveNoPillars(width: int, height: int, r: Room)
    requires RoomInBounds(width, height, r)
    ensures !(r.width > 15 && r.height > 10)
  {
  }

  /** Some room of the list has (x, y) in its interior. */
  predicate InAnyInterior(rooms: seq<Room>, p: Point)
  {
    exists i :: 0 <= i < |rooms| && rooms[i].Interior(p)
  }

  /** Some room of the list contains the cell: `IsInRoom`. */
  predicate InAnyRoom(rooms: seq<Room>, p: Point)
  {
    exists i :: 0 <= i < |rooms| && rooms[i].Contains(p)
  }

  lemma InAnyInteriorSnoc(rooms: seq<Room>, r: Room, p: Point)
    ensures InAnyInterior(rooms + [r], p) <==> InAnyInterior(rooms, p) || r.Interior(p)
  {
    if InAnyInterior(rooms + [r], p) {
      var i :| 0 <= i < |rooms + [r]| && (rooms + [r])[i].Interior(p);
      if i < |rooms| { assert rooms[i] == (rooms + [r])[i]; }
    }
    if InAnyInterior(rooms, p) {
      var i :| 0 <= i < |rooms| && rooms[i].Interior(p);
      assert (rooms + [r])[i] == rooms[i];
    }
    if r.Interior(p) {
      assert (rooms + [r])[|rooms|] == r;
    }
  }

  // ---------------------------------------------------------------------------
  // AddPillarsToRoom

  /** The four candidate pillar cells: three cells in from each corner. */
  function PillarCorners(r: Room): seq<Point>
  {
    [Point(r.topLeft.x + 3, r.topLeft.y + 3),
     Point(r.topLeft.x + r.width - 4, r.topLeft.y + 3),
     Point(r.topLeft.x + 3, r.topLeft.y + r.height - 4),
     Point(r.topLeft.x + r.width - 4, r.topLeft.y + r.height - 4)]
  }

  /** The first `k` corners, each kept when its roll (drawn at `c`, `c + 1`, ...)
      is below 70 percent. */
  function ChosenCorners(r: Room, draws: nat -> int, c: nat, k: nat): (ps: seq<Point>)
    requires k <= 4
  {
    if k == 0 then []
    else ChosenCorners(r, draws, c, k - 1) +
         (if Rng.Roll(draws(c + k - 1)) < 70 then [PillarCorners(r)[k - 1]] else [])
  }

  /** The cells `AddPillarsToRoom` turns into pillars: the chosen corners, and
      the centre in a very large room. */
  function PillarCells(r: Room, draws: nat -> int, c: nat): seq<Point>
  {
    ChosenCorners(r, draws, c, 4) + (if r.width > 18 && r.height > 12 then [r.Center()] else [])
  }

  /** In a room wide and tall enough for pillars, every pillar stands on its
      interior, so no pillar lands on the wall ring. */
  lemma PillarsInside(r: Room, draws: nat -> int, c: nat, p: Point)
    requires r.width > 15 && r.height > 10 && p in PillarCells(r, draws, c)
    ensures r.Interior(p)
  {
    if p in ChosenCorners(r, draws, c, 4) {
      ChosenAmongCorners(r, draws, c, 4, p);
    }
  }

  lemma {:induction false} ChosenAmongCorners(r: Room, draws: nat -> int, c: nat, k: nat, p: Point)
    requires k <= 4 && p in ChosenCorners(r, draws, c, k)
    ensures exists i :: 0 <= i < k && p == PillarCorners(r)[i]
  {
    if p !in ChosenCorners(r, draws, c, k - 1) {
      assert p == PillarCorners(r)[k - 1];
    } else {
      ChosenAmongCorners(r, draws, c, k - 1, p);
    }
  }

  // ---------------------------------------------------------------------------
  // CreateThickCorridor

  const HalfWidthX := 6
  const HalfWidthY := 4

  /** The cell lies in the brush centred on `p`: 13 columns by 9 rows. */
  predicate InBrush(p: Point, cell: Point)
  {
    -HalfWidthX <= cell.x - p.x <= HalfWidthX && -HalfWidthY <= cell.y - p.y <= HalfWidthY
  }

  /** Some point of the path has the cell in its brush. */
  predicate Swept(path: seq<Point>, cell: Point)
  {
    exists k :: 0 <= k < |path| && InBrush(path[k], cell)
  }

  lemma SweptSnoc(path: seq<Point>, p: Point, cell: Point)
    ensures Swept(path + [p], cell) <==> Swept(path, cell) || InBrush(p, cell)
  {
    if Swept(path + [p], cell) {
      var k :| 0 <= k < |path + [p]| && InBrush((path + [p])[k], cell);
      if k < |path| { assert path[k] == (path + [p])[k]; }
    }
    if Swept(path, cell) {
      var k :| 0 <= k < |path| && InBrush(path[k], cell);
      assert (path + [p])[k] == path[k];
    }
    if InBrush(p, cell) {
      assert (path + [p])[|path|] == p;
    }
  }

  /** The cell counts as a pillar for `CreateThickCorridor`: it holds terrain that
      blocks movement and sight and lies in a room. Walls on a room's ring count,
      too. */
  predicate Protected(rooms: seq<Room>, t: Terrain, cell: Point)
  {
    !Walkable(t) && !Transparent(t) && InAnyRoom(rooms, cell)
  }

  /** The terrain a stamped cell gets from its roll: water below 1 percent,
      grass below 3, floor otherwise. */
  function CorridorTile(roll: int): (t: Terrain)
    ensures CorridorTerrain(t)
  {
    if roll < 1 then Water else if roll < 3 then Grass else Floor
  }

  // ---------------------------------------------------------------------------
  // AddArchitecturalDetails

  /** The cell `AddAlcoveToRoom` opens, from its two draws at `c`: the side
      (north, east, south, west), then the offset along it. */
  function AlcoveOf(r: Room, draws: nat -> int, c: nat): (p: Point)
    requires r.width >= 6 && r.height >= 6
    ensures r.OnRing(p)
    ensures p.y == r.topLeft.y || p.y == r.topLeft.y + r.height - 1 ==>
      r.topLeft.x + 3 <= p.x && (p.x < r.topLeft.x + r.width - 3 || r.width == 6)
    ensures p.x == r.topLeft.x || p.x == r.topLeft.x + r.width - 1 ==>
      r.topLeft.y + 3 <= p.y && (p.y < r.topLeft.y + r.height - 3 || r.height == 6)
  {
    var side := Rng.Pick(0, 4, draws(c));
    var alongX := Rng.Pick(r.topLeft.x + 3, r.topLeft.x + r.width - 3, draws(c + 1));
    var alongY := Rng.Pick(r.topLeft.y + 3, r.topLeft.y + r.height - 3, draws(c + 1));
    if side == 0 then Point(alongX, r.topLeft.y)
    else if side == 1 then Point(r.topLeft.x + r.width - 1, alongY)
    else if side == 2 then Point(alongX, r.topLeft.y + r.height - 1)
    else Point(r.topLeft.x, alongY)
  }

  /** Rooms large enough for an alcove. */
  predicate AlcovesFit(rooms: seq<Room>)
  {
    forall i :: 0 <= i < |rooms| ==> rooms[i].width >= 6 && rooms[i].height >= 6
  }

  /** The cells `AddArchitecturalDetails` opens for the rooms in order, drawing
      from `c`: a 60 percent roll per room, and two more draws for each alcove;
      and the next draw position. */
  function Alcoves(rooms: seq<Room>, draws: nat -> int, c: nat): (res: (seq<Point>, nat))
    requires AlcovesFit(rooms)
    ensures res.1 >= c
    ensures forall p :: p in res.0 ==> exists i :: 0 <= i < |rooms| && rooms[i].OnRing(p)
  {
    if rooms == [] then ([], c)
    else
      var last := rooms[|rooms| - 1];
      var prev := Alcoves(rooms[..|rooms| - 1], draws, c);
      if Rng.Roll(draws(prev.1)) < 60 then
        (prev.0 + [AlcoveOf(last, draws, prev.1 + 1)], prev.1 + 3)
      else (prev.0, prev.1 + 1)
  }

  /** `Alcoves` one room further along the list. */
  lemma AlcovesStep(rooms: seq<Room>, draws: nat -> int, c: nat, i: int)
    requires AlcovesFit(rooms) && 0 <= i < |rooms|
    ensures AlcovesFit(rooms[..i]) && AlcovesFit(rooms[..i + 1])
    ensures var prev := Alcoves(rooms[..i], draws, c);
      Alcoves(rooms[..i + 1], draws, c) ==
        if Rng.Roll(draws(prev.1)) < 60 then (prev.0 + [AlcoveOf(rooms[i], draws, prev.1 + 1)], prev.1 + 3)
        else (prev.0, prev.1 + 1)
  {
    assert rooms[..i + 1][..i] == rooms[..i];
  }

  // ---------------------------------------------------------------------------
  // ConnectRoomsWithThickCorridors

  /** The corridors the chain pass draws: each room to the next, then, with
      more than two rooms, the last back to the first. */
  function ChainLinks(rooms: seq<Room>): (links: seq<(Point, Point)>)
    ensures |rooms| < 2 ==> links == []
    ensures |rooms| >= 2 ==> |links| == |rooms| - 1 + (if |rooms| > 2 then 1 else 0)
    ensures forall i :: 0 <= i < |rooms| - 1 ==> links[i] == (rooms[i].Center(), rooms[i + 1].Center())
    ensures |rooms| > 2 ==> links[|rooms| - 1] == (rooms[|rooms| - 1].Center(), rooms[0].Center())
  {
    if |rooms| < 2 then []
    else
      seq(|rooms| - 1, i requires 0 <= i < |rooms| - 1 => (rooms[i].Center(), rooms[i + 1].Center())) +
      (if |rooms| > 2 then [(rooms[|rooms| - 1].Center(), rooms[0].Center())] else [])
  }

  /** The chain grows one link per room. */
  lemma ChainLinksGrow(rooms: seq<Room>, i: int)
    requires |rooms| >= 2 && 0 <= i < |rooms| - 1
    ensures ChainLinks(rooms)[..i + 1] == ChainLinks(rooms)[..i] + [(rooms[i].Center(), rooms[i + 1].Center())]
  {
    var c := ChainLinks(rooms);
    var link := (rooms[i].Center(), rooms[i + 1].Center());
    assert c[i] == link;
    forall k | 0 <= k <= i
      ensures c[..i + 1][k] == (c[..i] + [link])[k]
    {
    }
  }

  /** The chain closes with the link from the last room to the first. */
  lemma ChainLinksClose(rooms: seq<Room>)
    requires |rooms| >= 2
    ensures ChainLinks(rooms) == ChainLinks(rooms)[..|rooms| - 1] +
      (if |rooms| > 2 then [(rooms[|rooms| - 1].Center(), rooms[0].Center())] else [])
  {
  }

  /** The map once `GenerateRooms` has run on an all-`Wall` map: floor exactly
      on the rooms' interiors. */
  function RoomsGrid(width: nat, height: nat, rooms: seq<Room>): (g: seq<seq<Terrain>>)
    ensures |g| == width && forall x :: 0 <= x < width ==> |g[x]| == height
    ensures forall x, y :: 0 <= x < width && 0 <= y < height ==>
      g[x][y] == if InAnyInterior(rooms, Point(x, y)) then Floor else Wall
  {
    seq(width, x => seq(height, y => if InAnyInterior(rooms, Point(x, y)) then Floor else Wall))
  }

  /** On that map the cells corridors must spare are exactly the room cells off
      every interior: the rooms' wall rings. */
  lemma RingsAreProtected(width: nat, height: nat, rooms: seq<Room>, x: int, y: int)
    requires 0 <= x < width && 0 <= y < height
    ensures Protected(rooms, RoomsGrid(width, height, rooms)[x][y], Point(x, y)) <==>
      InAnyRoom(rooms, Point(x, y)) && !InAnyInterior(rooms, Point(x, y))
  {
  }
}
