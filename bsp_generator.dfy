/** BSPDungeonGenerator as an object: the tile array it fills in place, the list
    of rooms it appends to, its random-number generator, and the partition tree
    `Generate` links up in memory. Each method is specified by the functions of
    module BspTree applied to the state before the call. */
module Bsp {
  import opened Lattice
  import opened BspTree
  import Rng

  /** A node of the partition tree. `repr` is the set of nodes of its subtree. */
  class Node {
    var area: Rect
    var left: Node?
    var right: Node?
    var room: Rect
    ghost var repr: set<Node>

    /** The subtree is a tree: its children own disjoint parts of `repr` and
        neither reaches back to this node. */
    ghost predicate Valid()
      reads this, repr
      decreases repr
    {
      this in repr &&
      (left != null ==>
         left in repr && left.repr <= repr && this !in left.repr && left.Valid()) &&
      (right != null ==>
         right in repr && right.repr <= repr && this !in right.repr && right.Valid()) &&
      (left != null && right != null ==> left.repr !! right.repr)
    }

    /** The subtree as a value. */
    ghost function Model(): Tree
      reads this, repr
      requires Valid()
      decreases repr
    {
      Tree(area,
           if left == null then None else Some(left.Model()),
           if right == null then None else Some(right.Model()),
           room)
    }

    /** A node starts as a leaf over `area` with no room. */
    constructor (area: Rect)
      ensures this.area == area && left == null && right == null && room == Empty
      ensures Valid() && fresh(repr) && repr == {this}
      ensures Model() == Leaf(area)
    {
      this.area := area;
      left := null;
      right := null;
      room := Empty;
      repr := {this};
    }
  }

  /** A child link as a value: `None` for null. */
  ghost function ModelOf(n: Node?): Option<Tree>
    reads if n == null then {} else n.repr
    requires n != null ==> n.Valid()
  {
    if n == null then None else Some(n.Model())
  }

  class Generator {
    const width: int
    const height: int
    const minRoomSize: int
    const maxDepth: int
    var rooms: seq<Rect>
    const rng: Rng.Random
    /** The tile array, indexed [x, y]. */
    const tiles: array2<TileType>

    function Cfg(): Config { Config(width, height, minRoomSize, maxDepth) }

    predicate Dims() { tiles.Length0 == width && tiles.Length1 == height }

    predicate InGrid(x: int, y: int) { 0 <= x < width && 0 <= y < height }

    /** The tile array as a value, indexed [x][y]. */
    ghost function Snapshot(): (g: Cells)
      reads tiles
      requires Dims()
      ensures |g| == width
      ensures forall x :: 0 <= x < width ==> |g[x]| == height
      ensures forall x, y :: InGrid(x, y) ==> g[x][y] == tiles[x, y]
    {
      seq(width, x requires 0 <= x < width reads tiles =>
        seq(height, y requires 0 <= y < height reads tiles => tiles[x, y]))
    }

    /** The seed is replaced by the stream of draws it selects. The tile array
        starts out all `Floor`, the default value of the C# enumeration. */
    constructor (width: int, height: int, minRoomSize: int, maxDepth: int, draws: nat -> int)
      requires width >= 0 && height >= 0
      ensures this.width == width && this.height == height
      ensures this.minRoomSize == minRoomSize && this.maxDepth == maxDepth
      ensures fresh(rng) && rng.draws == draws && rng.cursor == 0
      ensures fresh(tiles) && Dims()
      ensures forall x, y :: InGrid(x, y) ==> tiles[x, y] == Floor
      ensures rooms == []
    {
      this.width := width;
      this.height := height;
      this.minRoomSize := minRoomSize;
      this.maxDepth := maxDepth;
      rng := new Rng.Random(draws);
      tiles := new TileType[width, height]((x, y) => Floor);
      rooms := [];
    }

    /** Splits a fresh node as `SplitTree` says, consuming the same draws. */
    method Split(node: Node, depth: int)
      requires node.Valid() && node.repr == {node} && node.Model() == Leaf(node.area)
      requires minRoomSize >= 1 && AxisDefined(node.area)
      modifies node, rng
      ensures node.area == old(node.area)
      ensures node.Valid() && fresh(node.repr - {node})
      ensures rng.cursor == SplitTree(Cfg(), rng.draws, old(node.area), depth, old(rng.cursor)).1
      ensures node.Model() == SplitTree(Cfg(), rng.draws, old(node.area), depth, old(rng.cursor)).0
      decreases maxDepth - depth, 1
    {
      if depth >= maxDepth {
        return;
      }
      ghost var c0 := rng.cursor;
      var cut := ChooseCut(node.area);
      if cut.None? {
        return;
      }
      SplitHalves(node, depth, c0, cut.value);
    }

    /** The draws of `Split` before it recurses: the axis coin, then -- when the
        region is long enough along that axis -- the offset of the cut. */
    method ChooseCut(area: Rect) returns (cut: Option<(Rect, Rect)>)
      requires minRoomSize >= 1 && AxisDefined(area)
      modifies rng
      ensures cut == CutOf(Cfg(), rng.draws, area, old(rng.cursor))
      ensures rng.cursor == old(rng.cursor) + (if cut.None? then 1 else 2)
    {
      var coin := rng.Next(0, 2);
      var splitH := SplitHorizontally(area, coin == 0);
      var max := (if splitH then area.height else area.width) - minRoomSize;
      if max <= minRoomSize {
        return None;
      }
      var split := rng.Next(minRoomSize, max);
      return Some(Cut(area, splitH, split));
    }

    /** The rest of `Split` once a cut is chosen: the node gets one fresh child
        per half, and the two children are split in turn, left first. */
    method SplitHalves(node: Node, depth: int, ghost c0: nat, halves: (Rect, Rect))
      requires node.Valid() && node.repr == {node} && node.Model() == Leaf(node.area)
      requires minRoomSize >= 1 && depth < maxDepth && AxisDefined(node.area)
      requires CutOf(Cfg(), rng.draws, node.area, c0) == Some(halves) && rng.cursor == c0 + 2
      modifies node, rng
      ensures node.area == old(node.area)
      ensures node.Valid() && fresh(node.repr - {node})
      ensures rng.cursor == SplitTree(Cfg(), rng.draws, node.area, depth, c0).1
      ensures node.Model() == SplitTree(Cfg(), rng.draws, node.area, depth, c0).0
      decreases maxDepth - depth, 0
    {
      SplitTreeStep(Cfg(), rng.draws, node.area, depth, c0, halves);
      var left := new Node(halves.0);
      var right := new Node(halves.1);
      SplitBoth(left, right, depth + 1);
      Link(node, left, right);
    }

    /** Splits two fresh sibling nodes, left first, each as `SplitTree` says. */
    method SplitBoth(left: Node, right: Node, depth: int)
      requires left.Valid() && left.repr == {left} && left.Model() == Leaf(left.area)
      requires right.Valid() && right.repr == {right} && right.Model() == Leaf(right.area)
      requires left != right
      requires minRoomSize >= 1 && AxisDefined(left.area) && AxisDefined(right.area)
      modifies left, right, rng
      ensures left.Valid() && right.Valid() && left.repr !! right.repr
      ensures fresh(left.repr - {left}) && fresh(right.repr - {right})
      ensures left.Model() == SplitTree(Cfg(), rng.draws, old(left.area), depth, old(rng.cursor)).0
      ensures right.Model() == SplitTree(Cfg(), rng.draws, old(right.area), depth,
                                         SplitTree(Cfg(), rng.draws, old(left.area), depth, old(rng.cursor)).1).0
      ensures rng.cursor == SplitTree(Cfg(), rng.draws, old(right.area), depth,
                                      SplitTree(Cfg(), rng.draws, old(left.area), depth, old(rng.cursor)).1).1
      decreases maxDepth - depth, 2
    {
      Split(left, depth);
      Split(right, depth);
    }

    /** Hangs two disjoint subtrees below a childless node. */
    static method Link(node: Node, left: Node, right: Node)
      requires node.Valid() && node.left == null && node.right == null
      requires left.Valid() && right.Valid()
      requires node !in left.repr && node !in right.repr && left.repr !! right.repr
      modifies node
      ensures node.area == old(node.area) && node.room == old(node.room)
      ensures node.Valid() && node.repr == {node} + left.repr + right.repr
      ensures node.Model() == Tree(node.area, Some(left.Model()), Some(right.Model()), node.room)
    {
      node.left := left;
      node.right := right;
      node.repr := {node} + left.repr + right.repr;
    }

    /** The room-marking loop of `CreateRooms`: every cell of `room` becomes
        `Floor`, nothing else changes. */
    method Carve(room: Rect)
      requires Dims() && InsideBorder(Cfg(), room)
      modifies tiles
      ensures forall x, y :: InGrid(x, y) ==>
        tiles[x, y] == if room.Contains(x, y) then Floor else old(tiles[x, y])
    {
      var x := room.Left();
      while x < room.Right()
        invariant room.Left() <= x <= Max(room.Left(), room.Right())
        invariant forall i, j :: InGrid(i, j) ==>
          tiles[i, j] == if room.Left() <= i < x && room.Top() <= j < room.Bottom() then Floor else old(tiles[i, j])
      {
        var y := room.Top();
        while y < room.Bottom()
          invariant room.Top() <= y <= Max(room.Top(), room.Bottom())
          invariant forall i, j :: InGrid(i, j) ==>
            tiles[i, j] ==
              if (room.Left() <= i < x && room.Top() <= j < room.Bottom()) || (i == x && room.Top() <= j < y)
              then Floor else old(tiles[i, j])
        {
          tiles[x, y] := Floor;
          y := y + 1;
        }
        x := x + 1;
      }
    }

    /** Sets to `Floor` exactly the cells `OnSegment` names: the run from
        `start` to `end` along row (or column) `fixedCoord`, skipping every
        cell on the border or outside the grid. */
    method CreateCorridor(start: int, end: int, fixedCoord: int, horizontal: bool)
      requires Dims()
      modifies tiles
      ensures forall x, y :: InGrid(x, y) ==>
        tiles[x, y] == if OnSegment(Cfg(), Segment(start, end, fixedCoord, horizontal), x, y)
                     then Floor else old(tiles[x, y])
    {
      var i := Min(start, end);
      while i <= Max(start, end)
        invariant Min(start, end) <= i <= Max(start, end) + 1
        invariant forall x, y :: InGrid(x, y) ==>
          tiles[x, y] ==
            if 0 < x < width - 1 && 0 < y < height - 1 &&
               (if horizontal then y == fixedCoord && Min(start, end) <= x < i
                else x == fixedCoord && Min(start, end) <= y < i)
            then Floor else old(tiles[x, y])
      {
        if horizontal {
          if !(i <= 0 || i >= width - 1 || fixedCoord <= 0 || fixedCoord >= height - 1) {
            tiles[i, fixedCoord] := Floor;
          }
        } else {
          if !(i <= 0 || i >= height - 1 || fixedCoord <= 0 || fixedCoord >= width - 1) {
            tiles[fixedCoord, i] := Floor;
          }
        }
        i := i + 1;
      }
    }

    /** Joins the representative rooms of every pair of siblings below `node`,
        pre-order, drawing one coin per pair: the calls are those `Corridors`
        lists, and the cells they cover become `Floor`. */
    method ConnectRooms(node: Node)
      requires Dims() && node.Valid()
      modifies tiles, rng
      ensures rng.cursor == Corridors(Cfg(), rng.draws, old(node.Model()), old(rng.cursor)).1
      ensures forall x, y :: InGrid(x, y) ==>
        tiles[x, y] == if Covered(Cfg(), Corridors(Cfg(), rng.draws, old(node.Model()), old(rng.cursor)).0, x, y)
                       then Floor else old(tiles[x, y])
      decreases node.repr, 1
    {
      if node.left != null && node.right != null {
        ConnectBelow(node);
      } else {
        assert Corridors(Cfg(), rng.draws, node.Model(), rng.cursor) == ([], rng.cursor);
        forall x, y | InGrid(x, y)
          ensures !Covered(Cfg(), [], x, y)
        {
        }
      }
    }

    /** `ConnectRooms` at a node with two children: its own pair of corridor
        calls, then the left subtree's, then the right subtree's. */
    method ConnectBelow(node: Node)
      requires Dims() && node.Valid() && node.left != null && node.right != null
      modifies tiles, rng
      ensures rng.cursor == Corridors(Cfg(), rng.draws, old(node.Model()), old(rng.cursor)).1
      ensures forall x, y :: InGrid(x, y) ==>
        tiles[x, y] == if Covered(Cfg(), Corridors(Cfg(), rng.draws, old(node.Model()), old(rng.cursor)).0, x, y)
                       then Floor else old(tiles[x, y])
      decreases node.repr, 0
    {
      ghost var t := node.Model();
      ghost var c0 := rng.cursor;
      ghost var l := Corridors(Cfg(), rng.draws, t.left.value, c0 + 1);
      ghost var r := Corridors(Cfg(), rng.draws, t.right.value, l.1);
      ghost var own := NodeCorridor(rng.draws, t, c0);
      CorridorsStep(Cfg(), rng.draws, t, c0, l, r);
      ConnectPair(node);
      assert node.left.Model() == t.left.value && node.right.Model() == t.right.value;
      label Own:
      ConnectChildren(node.left, node.right);
      forall x, y | InGrid(x, y)
        ensures tiles[x, y] == if Covered(Cfg(), own + (l.0 + r.0), x, y) then Floor else old(tiles[x, y])
      {
        PaveAppend(Cfg(), own, l.0 + r.0, x, y, old(tiles[x, y]), old@Own(tiles[x, y]), tiles[x, y]);
      }
    }

    /** `ConnectRooms` on two siblings in turn, left first. */
    method ConnectChildren(left: Node, right: Node)
      requires Dims() && left.Valid() && right.Valid() && left.repr !! right.repr
      modifies tiles, rng
      ensures rng.cursor == Corridors(Cfg(), rng.draws, old(right.Model()),
                                      Corridors(Cfg(), rng.draws, old(left.Model()), old(rng.cursor)).1).1
      ensures forall x, y :: InGrid(x, y) ==>
        tiles[x, y] == if Covered(Cfg(), Corridors(Cfg(), rng.draws, old(left.Model()), old(rng.cursor)).0 +
                                         Corridors(Cfg(), rng.draws, old(right.Model()),
                                                   Corridors(Cfg(), rng.draws, old(left.Model()), old(rng.cursor)).1).0, x, y)
                       then Floor else old(tiles[x, y])
      decreases left.repr + right.repr, 2
    {
      ghost var l := Corridors(Cfg(), rng.draws, left.Model(), rng.cursor);
      ghost var r := Corridors(Cfg(), rng.draws, right.Model(), l.1);
      ConnectRooms(left);
      label Left:
      ConnectRooms(right);
      forall x, y | InGrid(x, y)
        ensures tiles[x, y] == if Covered(Cfg(), l.0 + r.0, x, y) then Floor else old(tiles[x, y])
      {
        PaveAppend(Cfg(), l.0, r.0, x, y, old(tiles[x, y]), old@Left(tiles[x, y]), tiles[x, y]);
      }
    }

    /** The part of `ConnectRooms` at a node with two children: the centres of
        the two representative rooms are joined by an L of two corridor calls,
        horizontal first when the coin comes up 0. */
    method ConnectPair(node: Node)
      requires Dims() && node.Valid() && node.left != null && node.right != null
      modifies tiles, rng
      ensures rng.cursor == old(rng.cursor) + 1
      ensures forall x, y :: InGrid(x, y) ==>
        tiles[x, y] == if Covered(Cfg(), NodeCorridor(rng.draws, old(node.Model()), old(rng.cursor)), x, y)
                       then Floor else old(tiles[x, y])
    {
      ghost var own := NodeCorridor(rng.draws, node.Model(), rng.cursor);
      var roomA := GetRoom(node.left);
      var roomB := GetRoom(node.right);
      var centerA := roomA.Center();
      var centerB := roomB.Center();
      var coin := rng.Next(0, 2);
      if coin == 0 {
        CreateCorridor(centerA.x, centerB.x, centerA.y, true);
        label First:
        CreateCorridor(centerA.y, centerB.y, centerB.x, false);
        forall x, y | InGrid(x, y)
          ensures tiles[x, y] == if Covered(Cfg(), own, x, y) then Floor else old(tiles[x, y])
        {
          PaveTwo(Cfg(), own[0], own[1], x, y, old(tiles[x, y]), old@First(tiles[x, y]), tiles[x, y]);
        }
      } else {
        CreateCorridor(centerA.y, centerB.y, centerA.x, false);
        label First:
        CreateCorridor(centerA.x, centerB.x, centerB.y, true);
        forall x, y | InGrid(x, y)
          ensures tiles[x, y] == if Covered(Cfg(), own, x, y) then Floor else old(tiles[x, y])
        {
          PaveTwo(Cfg(), own[0], own[1], x, y, old(tiles[x, y]), old@First(tiles[x, y]), tiles[x, y]);
        }
      }
    }

    /** The room that stands for a subtree: its own room if recorded, else the
        left subtree's, else the right subtree's, else `Empty` -- that is, the
        first room of the subtree in pre-order, or `Empty` when it holds none. */
    function GetRoom(node: Node): (r: Rect)
      reads node, node.repr
      requires node.Valid()
      ensures r == FirstRoom(node.Model())
      ensures r == Empty <==> StoredRooms(node.Model()) == []
      ensures StoredRooms(node.Model()) != [] ==> r == StoredRooms(node.Model())[0]
      decreases node.repr
    {
      FirstRoomIsFirstStored(node.Model());
      if node.room != Empty then node.room
      else
        var leftRoom := if node.left != null then GetRoom(node.left) else Empty;
        var rightRoom := if node.right != null then GetRoom(node.right) else Empty;
        if leftRoom != Empty then leftRoom
        else if rightRoom != Empty then rightRoom
        else Empty
    }

    /** Gives every eligible leaf below `node` a room as `PlaceRooms` says,
        appends the rooms to `rooms` in the same order, and carves each into
        the tile array. */
    method CreateRooms(node: Node)
      requires Dims() && node.Valid() && Placeable(Cfg(), node.Model())
      modifies node.repr, tiles, rng, this`rooms
      ensures node.Valid() && node.repr == old(node.repr)
      ensures node.Model() == PlaceRooms(Cfg(), rng.draws, old(node.Model()), old(rng.cursor)).tree
      ensures rooms == old(rooms) + PlaceRooms(Cfg(), rng.draws, old(node.Model()), old(rng.cursor)).rooms
      ensures rng.cursor == PlaceRooms(Cfg(), rng.draws, old(node.Model()), old(rng.cursor)).next
      ensures forall x, y :: InGrid(x, y) ==>
        tiles[x, y] == if InAnyRoom(PlaceRooms(Cfg(), rng.draws, old(node.Model()), old(rng.cursor)).rooms, x, y)
                       then Floor else old(tiles[x, y])
      decreases node.repr, 2
    {
      if node.left != null || node.right != null {
        CreateRoomsBelow(node);
        return;
      }
      if node.area.width <= minRoomSize || node.area.height <= minRoomSize {
        return;
      }
      PlaceRoom(node);
    }

    /** `CreateRooms` on a node with a child: the left subtree first, then the
        right one. */
    method CreateRoomsBelow(node: Node)
      requires Dims() && node.Valid() && Placeable(Cfg(), node.Model())
      requires node.left != null || node.right != null
      modifies node.repr, tiles, rng, this`rooms
      ensures node.Valid() && node.repr == old(node.repr)
      ensures node.Model() == PlaceRooms(Cfg(), rng.draws, old(node.Model()), old(rng.cursor)).tree
      ensures rooms == old(rooms) + PlaceRooms(Cfg(), rng.draws, old(node.Model()), old(rng.cursor)).rooms
      ensures rng.cursor == PlaceRooms(Cfg(), rng.draws, old(node.Model()), old(rng.cursor)).next
      ensures forall x, y :: InGrid(x, y) ==>
        tiles[x, y] == if InAnyRoom(PlaceRooms(Cfg(), rng.draws, old(node.Model()), old(rng.cursor)).rooms, x, y)
                       then Floor else old(tiles[x, y])
      decreases node.repr, 1
    {
      ghost var t := node.Model();
      ghost var rooms0 := rooms;
      ghost var l := PlaceChild(Cfg(), rng.draws, t.left, rng.cursor);
      ghost var r := PlaceChild(Cfg(), rng.draws, t.right, l.next);
      PlaceRoomsStep(Cfg(), rng.draws, t, rng.cursor, l, r);
      assert ModelOf(node.left) == t.left && ModelOf(node.right) == t.right;
      CreateRoomsChild(node.left);
      label Mid:
      CreateRoomsChild(node.right);
      AppendAssoc(rooms0, l.rooms, r.rooms);
      assert node.Model() == Tree(t.area, ModelOf(node.left), ModelOf(node.right), t.room);
      forall x, y | InGrid(x, y)
        ensures tiles[x, y] == if InAnyRoom(l.rooms + r.rooms, x, y) then Floor else old(tiles[x, y])
      {
        PaintAppend(l.rooms, r.rooms, x, y, old(tiles[x, y]), old@Mid(tiles[x, y]), tiles[x, y]);
      }
    }

    /** `CreateRooms` on a child link, which may be null. */
    method CreateRoomsChild(n: Node?)
      requires Dims() && (n != null ==> n.Valid())
      requires ModelOf(n).Some? ==> Placeable(Cfg(), ModelOf(n).value)
      modifies if n == null then {} else n.repr, tiles, rng, this`rooms
      ensures n != null ==> n.Valid() && n.repr == old(n.repr)
      ensures ModelOf(n) == ChildTree(old(ModelOf(n)), PlaceChild(Cfg(), rng.draws, old(ModelOf(n)), old(rng.cursor)))
      ensures rooms == old(rooms) + PlaceChild(Cfg(), rng.draws, old(ModelOf(n)), old(rng.cursor)).rooms
      ensures rng.cursor == PlaceChild(Cfg(), rng.draws, old(ModelOf(n)), old(rng.cursor)).next
      ensures forall x, y :: InGrid(x, y) ==>
        tiles[x, y] == if InAnyRoom(PlaceChild(Cfg(), rng.draws, old(ModelOf(n)), old(rng.cursor)).rooms, x, y)
                       then Floor else old(tiles[x, y])
      decreases if n == null then {} else n.repr, 3
    {
      if n != null {
        CreateRooms(n);
      }
    }

    /** The four draws of `CreateRooms` on an eligible leaf: width and height,
        then the origin within the usable region of `area`. */
    method DrawRoom(area: Rect) returns (room: Rect)
      requires NodeWidth(Cfg(), area) >= minRoomSize - 1 && NodeHeight(Cfg(), area) >= minRoomSize - 1
      modifies rng
      ensures room == LeafRoom(Cfg(), rng.draws, area, old(rng.cursor))
      ensures rng.cursor == old(rng.cursor) + 4
    {
      var nodeX := Max(area.x, 1);
      var nodeY := Max(area.y, 1);
      var nodeWidth := Min(area.width, width - 2 - nodeX);
      var nodeHeight := Min(area.height, height - 2 - nodeY);
      var maxRoomWidth := Max(minRoomSize, nodeWidth);
      var maxRoomHeight := Max(minRoomSize, nodeHeight);
      var roomWidth := rng.Next(minRoomSize, maxRoomWidth + 1);
      var roomHeight := rng.Next(minRoomSize, maxRoomHeight + 1);
      var roomX := rng.Next(nodeX, nodeX + nodeWidth - roomWidth + 1);
      var roomY := rng.Next(nodeY, nodeY + nodeHeight - roomHeight + 1);
      room := Rect(roomX, roomY, roomWidth, roomHeight);
    }

    /** `CreateRooms` on an eligible leaf: four draws give the room, which is
        recorded in the node, appended to the list and carved. */
    method PlaceRoom(node: Node)
      requires Dims() && node.Valid() && Placeable(Cfg(), node.Model())
      requires node.left == null && node.right == null
      requires node.area.width > minRoomSize && node.area.height > minRoomSize
      modifies node, tiles, rng, this`rooms
      ensures node.Valid() && node.repr == old(node.repr)
      ensures node.Model() == PlaceRooms(Cfg(), rng.draws, old(node.Model()), old(rng.cursor)).tree
      ensures rooms == old(rooms) + PlaceRooms(Cfg(), rng.draws, old(node.Model()), old(rng.cursor)).rooms
      ensures rng.cursor == PlaceRooms(Cfg(), rng.draws, old(node.Model()), old(rng.cursor)).next
      ensures forall x, y :: InGrid(x, y) ==>
        tiles[x, y] == if InAnyRoom(PlaceRooms(Cfg(), rng.draws, old(node.Model()), old(rng.cursor)).rooms, x, y)
                       then Floor else old(tiles[x, y])
    {
      ghost var c0 := rng.cursor;
      var room := DrawRoom(node.area);
      rooms := rooms + [room];
      node.room := room;
      Carve(room);
      forall x, y | InGrid(x, y)
        ensures InAnyRoom([room], x, y) == room.Contains(x, y)
      {
        if InAnyRoom([room], x, y) {
          var k :| 0 <= k < 1 && [room][k].Contains(x, y);
        }
        if room.Contains(x, y) {
          assert [room][0] == room;
        }
      }
    }

    /** `Generate`'s first loop: every cell becomes `Wall`. */
    method FillWalls()
      requires Dims()
      modifies tiles
      ensures forall x, y :: InGrid(x, y) ==> tiles[x, y] == Wall
    {
      var x := 0;
      while x < width
        invariant 0 <= x <= width
        invariant forall i, j :: InGrid(i, j) && i < x ==> tiles[i, j] == Wall
      {
        var y := 0;
        while y < height
          invariant 0 <= y <= height
          invariant forall i, j :: InGrid(i, j) && (i < x || (i == x && j < y)) ==> tiles[i, j] == Wall
        {
          tiles[x, y] := Wall;
          y := y + 1;
        }
        x := x + 1;
      }
    }

    /** One column of `AddRandomElements`: each interior `Floor` cell of column
        `x` draws one roll and becomes what `Decoration` says. `g` is the grid
        as the decoration pass found it, and its draws started at `c0`. */
    method DecorateColumn(x: int, ghost g: Cells, ghost c0: nat, waterChance: int, grassChance: int)
      requires Dims() && 1 <= x < width - 1
      requires |g| == width && forall i :: 0 <= i < width ==> |g[i]| == height
      requires forall j :: 0 <= j < height ==> tiles[x, j] == g[x][j]
      requires rng.cursor == c0 + FloorsBefore(g, height, x, 1)
      modifies tiles, rng
      ensures rng.cursor == c0 + FloorsBefore(g, height, x + 1, 1)
      ensures forall i, j :: InGrid(i, j) ==>
        tiles[i, j] == if i == x then DecoratedCell(g, height, rng.draws, c0, i, j, waterChance, grassChance)
                       else old(tiles[i, j])
    {
      var y := 1;
      while y < height - 1
        invariant 1 <= y <= Max(1, height - 1)
        invariant rng.cursor == c0 + FloorsBefore(g, height, x, y)
        invariant forall i, j :: InGrid(i, j) ==>
          tiles[i, j] == if i == x && j < y then DecoratedCell(g, height, rng.draws, c0, i, j, waterChance, grassChance)
                         else old(tiles[i, j])
      {
        if tiles[x, y] == Floor {
          var roll := rng.NextRoll();
          if roll < waterChance {
            tiles[x, y] := Water;
          } else if roll < waterChance + grassChance {
            tiles[x, y] := Grass;
          }
        }
        y := y + 1;
      }
      assert FloorsBefore(g, height, x + 1, 1) == FloorsBefore(g, height, x, height - 1);
    }

    /** Turns interior `Floor` cells into `Water` or `Grass`, one roll per
        such cell, column by column; the chances are percentages. */
    method AddRandomElements(waterChance: int, grassChance: int)
      requires Dims()
      modifies tiles, rng
      ensures rng.cursor == old(rng.cursor) + FloorsBefore(old(Snapshot()), height, Max(1, width - 1), 1)
      ensures forall x, y :: InGrid(x, y) ==>
        tiles[x, y] == DecoratedCell(old(Snapshot()), height, rng.draws, old(rng.cursor), x, y, waterChance, grassChance)
    {
      ghost var g := Snapshot();
      ghost var c0 := rng.cursor;
      var x := 1;
      while x < width - 1
        invariant 1 <= x <= Max(1, width - 1)
        invariant rng.cursor == c0 + FloorsBefore(g, height, x, 1)
        invariant forall i, j :: InGrid(i, j) ==>
          tiles[i, j] == if i < x then DecoratedCell(g, height, rng.draws, c0, i, j, waterChance, grassChance)
                         else g[i][j]
      {
        DecorateColumn(x, g, c0, waterChance, grassChance);
        x := x + 1;
      }
    }

    /** Fills the grid with `Wall`, splits the whole grid, places and carves
        the rooms, joins them and decorates the floor, as `LayoutOf` and
        `DecoratedCell` say. */
    method Generate()
      requires Dims() && GridConfig(Cfg())
      modifies tiles, rng, this`rooms
      ensures rooms == old(rooms) + LayoutOf(Cfg(), rng.draws, old(rng.cursor)).rooms
      ensures rng.cursor == LayoutOf(Cfg(), rng.draws, old(rng.cursor)).next +
        FloorsBefore(LaidOut(Cfg(), LayoutOf(Cfg(), rng.draws, old(rng.cursor))), height, width - 1, 1)
      ensures forall x, y :: InGrid(x, y) ==>
        tiles[x, y] == DecoratedCell(LaidOut(Cfg(), LayoutOf(Cfg(), rng.draws, old(rng.cursor))), height,
                                     rng.draws, LayoutOf(Cfg(), rng.draws, old(rng.cursor)).next, x, y, 5, 10)
    {
      ghost var c0 := rng.cursor;
      FillWalls();
      var root := new Node(Rect(0, 0, width, height));
      Split(root, 0);
      ghost var s := SplitTree(Cfg(), rng.draws, Grid(Cfg()), 0, c0);
      SplitTreeShape(Cfg(), rng.draws, Grid(Cfg()), 0, c0);
      SplitTreeTiles(Cfg(), rng.draws, Grid(Cfg()), 0, c0);
      PartitionedInside(s.0, minRoomSize, Grid(Cfg()));
      InsideIsPlaceable(Cfg(), s.0);
      CreateRooms(root);
      ConnectRooms(root);
      ghost var l := LayoutOf(Cfg(), rng.draws, c0);
      forall x, y | InGrid(x, y)
        ensures tiles[x, y] == LaidOut(Cfg(), l)[x][y]
      {
      }
      GridsEqual(Snapshot(), LaidOut(Cfg(), l));
      AddRandomElements(5, 10);
    }
  }
}
