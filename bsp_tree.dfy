/** Value-level model of the BSP generator's geometry: tile kinds, rectangles, the
    partition tree, and the specification functions that say which tree `Split`
    builds and which rooms `CreateRooms` places for a given stream of draws. */
module BspTree {
  import opened Lattice
  import Rng

  /** TileType of the BSP generator; `Floor` (0) is the array's default value,
      and the value `CreateRooms` writes as the literal 0. */
  datatype TileType = Floor | Wall | Water | Grass

  datatype Option<T> = None | Some(value: T)

  /** The generator's Rectangle struct; equality is structural. */
  datatype Rect = Rect(x: int, y: int, width: int, height: int)
  {
    function Left(): int { x }
    function Right(): int { x + width }
    function Top(): int { y }
    function Bottom(): int { y + height }

    predicate IsEmpty() { width == 0 || height == 0 }

    /** The midpoint, rounded as C#'s integer division rounds. A rectangle of
        positive extent contains its centre. */
    function Center(): (c: Point)
      ensures width > 0 && height > 0 ==> Contains(c.x, c.y)
    {
      Point(x + Quot(width, 2), y + Quot(height, 2))
    }

    /** The cell (cx, cy) lies in [Left, Right) x [Top, Bottom). */
    predicate Contains(cx: int, cy: int)
    {
      Left() <= cx < Right() && Top() <= cy < Bottom()
    }
  }

  const Empty := Rect(0, 0, 0, 0)

  /** The generator's parameters. */
  datatype Config = Config(width: int, height: int, minRoomSize: int, maxDepth: int)

  /** The node structure `Split` and `CreateRooms` build, as a value:
      a region, optionally a left and a right child, and a room (`Empty` if none). */
  datatype Tree = Tree(area: Rect, left: Option<Tree>, right: Option<Tree>, room: Rect)

  /** A node as its constructor creates it. */
  function Leaf(area: Rect): Tree
  {
    Tree(area, None, None, Empty)
  }

  predicate IsLeaf(t: Tree)
  {
    t.left.None? && t.right.None?
  }

  // ---------------------------------------------------------------------------
  // Split

  /** The axis test divides one side by the other; these are the cases in which
      that division does not divide by zero. */
  predicate AxisDefined(a: Rect)
  {
    (a.width > a.height ==> a.height != 0) && (a.height > a.width ==> a.width != 0)
  }

  /** Axis choice of `Split`: the coin drawn first stands unless the region is
      elongated (true is a horizontal cut). */
  function SplitHorizontally(a: Rect, coin: bool): bool
    requires AxisDefined(a)
  {
    if a.width > a.height && Quot(a.width, a.height) * 4 >= 5 then false
    else if a.height > a.width && Quot(a.height, a.width) * 4 >= 5 then true
    else coin
  }

  /** The source compares the integer quotient of the two sides with 1.25, so
      the coin is overridden exactly when one side is at least twice the other:
      a wide region is cut vertically, a tall one horizontally. */
  lemma AxisChoice(a: Rect, coin: bool)
    requires a.width > 0 && a.height > 0
    ensures SplitHorizontally(a, coin) ==
      (if a.width >= 2 * a.height then false
       else if a.height >= 2 * a.width then true
       else coin)
  {
    QuotAtLeastTwo(a.width, a.height);
    QuotAtLeastTwo(a.height, a.width);
  }

  /** For positive sides, the truncated quotient is at least 1.25 iff it is at
      least 2 iff the dividend is at least twice the divisor. */
  lemma QuotAtLeastTwo(p: int, q: int)
    requires p > 0 && q > 0
    ensures Quot(p, q) * 4 >= 5 <==> p >= 2 * q
  {
    var d := p / q;
    assert p == d * q + p % q;
  }

  /** The two children of a cut at offset `split`: a horizontal cut keeps the
      width and divides the height, a vertical one the reverse. */
  function Cut(a: Rect, splitH: bool, split: int): (Rect, Rect)
  {
    if splitH then (Rect(a.x, a.y, a.width, split), Rect(a.x, a.y + split, a.width, a.height - split))
    else (Rect(a.x, a.y, split, a.height), Rect(a.x + split, a.y, a.width - split, a.height))
  }

  /** The cut `Split` makes of a region from the draws at `c` (the coin) and
      `c + 1` (the offset), or `None` when the region is too small along the
      chosen axis: no longer than twice `minRoomSize`. A cut tiles the region
      exactly, each child measures at least `minRoomSize` along the cut axis,
      and the right (or lower) one measures more. */
  function CutOf(cfg: Config, draws: nat -> int, area: Rect, c: nat): (r: Option<(Rect, Rect)>)
    requires cfg.minRoomSize >= 1 && AxisDefined(area)
    ensures r.None? <==>
      (if SplitHorizontally(area, Rng.Pick(0, 2, draws(c)) == 0) then area.height else area.width) <= 2 * cfg.minRoomSize
    ensures r.Some? ==> ProperCut(area, r.value.0, r.value.1, cfg.minRoomSize)
    ensures r.Some? ==>
      (r.value.0.width == area.width && r.value.1.height > cfg.minRoomSize) ||
      (r.value.0.height == area.height && r.value.1.width > cfg.minRoomSize)
    ensures r.Some? ==> AxisDefined(r.value.0) && AxisDefined(r.value.1)
  {
    var splitH := SplitHorizontally(area, Rng.Pick(0, 2, draws(c)) == 0);
    var max := (if splitH then area.height else area.width) - cfg.minRoomSize;
    if max <= cfg.minRoomSize then None
    else
      var split := Rng.Pick(cfg.minRoomSize, max, draws(c + 1));
      CutAxisDefined(cfg.minRoomSize, area, splitH, split, max);
      Some(Cut(area, splitH, split))
  }

  /** The tree `Split(node, depth)` builds below a fresh node over `area`, drawing
      from `draws` starting at position `c`, and the position after it. */
  function SplitTree(cfg: Config, draws: nat -> int, area: Rect, depth: int, c: nat): (Tree, nat)
    requires cfg.minRoomSize >= 1 && AxisDefined(area)
    decreases cfg.maxDepth - depth
  {
    if depth >= cfg.maxDepth then (Leaf(area), c)
    else
      match CutOf(cfg, draws, area, c)
      case None => (Leaf(area), c + 1)
      case Some(halves) =>
        var l := SplitTree(cfg, draws, halves.0, depth + 1, c + 2);
        var r := SplitTree(cfg, draws, halves.1, depth + 1, l.1);
        (Tree(area, Some(l.0), Some(r.0), Empty), r.1)
  }

  /** One step of `SplitTree` where a cut is made: the two halves are split in
      turn, the right one starting from where the left one stopped. */
  lemma SplitTreeStep(cfg: Config, draws: nat -> int, area: Rect, depth: int, c: nat, halves: (Rect, Rect))
    requires cfg.minRoomSize >= 1 && AxisDefined(area)
    requires depth < cfg.maxDepth && CutOf(cfg, draws, area, c) == Some(halves)
    ensures AxisDefined(halves.0) && AxisDefined(halves.1)
    ensures SplitTree(cfg, draws, area, depth, c) ==
      (Tree(area, Some(SplitTree(cfg, draws, halves.0, depth + 1, c + 2).0),
                  Some(SplitTree(cfg, draws, halves.1, depth + 1, SplitTree(cfg, draws, halves.0, depth + 1, c + 2).1).0),
                  Empty),
       SplitTree(cfg, draws, halves.1, depth + 1, SplitTree(cfg, draws, halves.0, depth + 1, c + 2).1).1)
  {
  }

  /** Every node has both children or neither. */
  predicate WellShaped(t: Tree)
  {
    (t.left.Some? <==> t.right.Some?) &&
    (t.left.Some? ==> WellShaped(t.left.value)) &&
    (t.right.Some? ==> WellShaped(t.right.value))
  }

  predicate NoRooms(t: Tree)
  {
    t.room == Empty &&
    (t.left.Some? ==> NoRooms(t.left.value)) &&
    (t.right.Some? ==> NoRooms(t.right.value))
  }

  /** `l` and `r` tile `p` exactly, cut across one axis, each at least `m` long
      along the cut axis. */
  predicate ProperCut(p: Rect, l: Rect, r: Rect, m: int)
  {
    l.x == p.x && l.y == p.y &&
    ((r.x == p.x && l.width == p.width && r.width == p.width &&
      r.y == p.y + l.height && l.height + r.height == p.height &&
      l.height >= m && r.height >= m) ||
     (r.y == p.y && l.height == p.height && r.height == p.height &&
      r.x == p.x + l.width && l.width + r.width == p.width &&
      l.width >= m && r.width >= m))
  }

  /** Every node with two children is properly cut into them. */
  predicate Partitioned(t: Tree, m: int)
  {
    (t.left.Some? && t.right.Some? ==> ProperCut(t.area, t.left.value.area, t.right.value.area, m)) &&
    (t.left.Some? ==> Partitioned(t.left.value, m)) &&
    (t.right.Some? ==> Partitioned(t.right.value, m))
  }

  function Height(t: Tree): nat
  {
    if IsLeaf(t) then 0
    else
      var hl := if t.left.Some? then Height(t.left.value) else 0;
      var hr := if t.right.Some? then Height(t.right.value) else 0;
      1 + Max(hl, hr)
  }

  function LeafCount(t: Tree): nat
  {
    if IsLeaf(t) then 1
    else (if t.left.Some? then LeafCount(t.left.value) else 0) +
         (if t.right.Some? then LeafCount(t.right.value) else 0)
  }

  function Pow2(n: nat): nat
  {
    if n == 0 then 1 else 2 * Pow2(n - 1)
  }

  lemma {:induction false} Pow2Positive(n: nat)
    ensures Pow2(n) >= 1
  {
    if n > 0 { Pow2Positive(n - 1); }
  }

  /** `Split` leaves every node with two children or none, keeps the root's
      region, and places no rooms. */
  lemma {:induction false} SplitTreeShape(cfg: Config, draws: nat -> int, area: Rect, depth: int, c: nat)
    requires cfg.minRoomSize >= 1 && AxisDefined(area)
    ensures SplitTree(cfg, draws, area, depth, c).0.area == area
    ensures WellShaped(SplitTree(cfg, draws, area, depth, c).0)
    ensures NoRooms(SplitTree(cfg, draws, area, depth, c).0)
    ensures SplitTree(cfg, draws, area, depth, c).1 >= c
    decreases cfg.maxDepth - depth
  {
    if depth < cfg.maxDepth {
      match CutOf(cfg, draws, area, c)
      case None =>
      case Some(halves) =>
        var l := SplitTree(cfg, draws, halves.0, depth + 1, c + 2);
        SplitTreeShape(cfg, draws, halves.0, depth + 1, c + 2);
        SplitTreeShape(cfg, draws, halves.1, depth + 1, l.1);
    }
  }

  /** The children of a node `Split` cut tile it exactly, and each measures at
      least `minRoomSize` along the cut axis. */
  lemma {:induction false} SplitTreeTiles(cfg: Config, draws: nat -> int, area: Rect, depth: int, c: nat)
    requires cfg.minRoomSize >= 1 && AxisDefined(area)
    ensures Partitioned(SplitTree(cfg, draws, area, depth, c).0, cfg.minRoomSize)
    decreases cfg.maxDepth - depth
  {
    if depth < cfg.maxDepth {
      match CutOf(cfg, draws, area, c)
      case None =>
      case Some(halves) =>
        var l := SplitTree(cfg, draws, halves.0, depth + 1, c + 2);
        SplitTreeShape(cfg, draws, halves.0, depth + 1, c + 2);
        SplitTreeShape(cfg, draws, halves.1, depth + 1, l.1);
        SplitTreeTiles(cfg, draws, halves.0, depth + 1, c + 2);
        SplitTreeTiles(cfg, draws, halves.1, depth + 1, l.1);
    }
  }

  /** Recursion stops at `maxDepth`: the tree built below depth `depth` is at
      most `maxDepth - depth` high. */
  lemma {:induction false} SplitTreeDepth(cfg: Config, draws: nat -> int, area: Rect, depth: int, c: nat)
    requires cfg.minRoomSize >= 1 && AxisDefined(area)
    requires depth <= cfg.maxDepth
    ensures Height(SplitTree(cfg, draws, area, depth, c).0) <= cfg.maxDepth - depth
    decreases cfg.maxDepth - depth
  {
    if depth < cfg.maxDepth {
      match CutOf(cfg, draws, area, c)
      case None =>
        assert SplitTree(cfg, draws, area, depth, c).0 == Leaf(area);
      case Some(halves) =>
        var l := SplitTree(cfg, draws, halves.0, depth + 1, c + 2);
        var r := SplitTree(cfg, draws, halves.1, depth + 1, l.1);
        SplitTreeDepth(cfg, draws, halves.0, depth + 1, c + 2);
        SplitTreeDepth(cfg, draws, halves.1, depth + 1, l.1);
        var t := Tree(area, Some(l.0), Some(r.0), Empty);
        assert SplitTree(cfg, draws, area, depth, c).0 == t;
        assert Height(t) == 1 + Max(Height(l.0), Height(r.0));
    } else {
      assert SplitTree(cfg, draws, area, depth, c).0 == Leaf(area);
    }
  }

  /** The tree built below depth `depth` has at most 2^(maxDepth - depth) leaves. */
  lemma SplitTreeLeaves(cfg: Config, draws: nat -> int, area: Rect, depth: int, c: nat)
    requires cfg.minRoomSize >= 1 && AxisDefined(area)
    requires depth <= cfg.maxDepth
    ensures LeafCount(SplitTree(cfg, draws, area, depth, c).0) <= Pow2(cfg.maxDepth - depth)
  {
    var t := SplitTree(cfg, draws, area, depth, c).0;
    SplitTreeDepth(cfg, draws, area, depth, c);
    LeavesByHeight(t);
    Pow2Monotone(Height(t), cfg.maxDepth - depth);
  }

  /** A binary tree has at most 2^height leaves. */
  lemma {:induction false} LeavesByHeight(t: Tree)
    ensures LeafCount(t) <= Pow2(Height(t))
    decreases t
  {
    if !IsLeaf(t) {
      var h := Height(t);
      if t.left.Some? {
        LeavesByHeight(t.left.value);
        Pow2Monotone(Height(t.left.value), h - 1);
      }
      if t.right.Some? {
        LeavesByHeight(t.right.value);
        Pow2Monotone(Height(t.right.value), h - 1);
      }
      assert Pow2(h) == 2 * Pow2(h - 1);
    }
  }

  lemma {:induction false} Pow2Monotone(a: nat, b: nat)
    requires a <= b
    ensures Pow2(a) <= Pow2(b)
    decreases b
  {
    if a < b {
      Pow2Monotone(a, b - 1);
      Pow2Positive(b - 1);
    }
  }

  /** A cut at an offset drawn from [m, axis - m) gives children on which the
      axis test is again defined, each at least `m` long on the cut axis. */
  lemma CutAxisDefined(m: int, a: Rect, splitH: bool, split: int, max: int)
    requires m >= 1 && AxisDefined(a)
    requires max == (if splitH then a.height else a.width) - m
    requires max > m && m <= split < max
    ensures AxisDefined(Cut(a, splitH, split).0) && AxisDefined(Cut(a, splitH, split).1)
    ensures ProperCut(a, Cut(a, splitH, split).0, Cut(a, splitH, split).1, m)
  {
  }

  // ---------------------------------------------------------------------------
  // CreateRooms

  /** Origin of the usable region of a leaf, clamped away from the top and left border. */
  function NodeX(a: Rect): int { Max(a.x, 1) }
  function NodeY(a: Rect): int { Max(a.y, 1) }

  /** Extent of the usable region, clamped so that it stops two cells short of
      the far border. */
  function NodeWidth(cfg: Config, a: Rect): int { Min(a.width, cfg.width - 2 - NodeX(a)) }
  function NodeHeight(cfg: Config, a: Rect): int { Min(a.height, cfg.height - 2 - NodeY(a)) }

  /** A leaf that gets a room. */
  predicate RoomEligible(cfg: Config, t: Tree)
  {
    IsLeaf(t) && t.area.width > cfg.minRoomSize && t.area.height > cfg.minRoomSize
  }

  /** Every eligible leaf's usable region is at least `minRoomSize - 1` in each
      direction; otherwise the origin draw would get a reversed range (its upper
      bound below its lower one) and throw. */
  predicate Placeable(cfg: Config, t: Tree)
  {
    (RoomEligible(cfg, t) ==>
       NodeWidth(cfg, t.area) >= cfg.minRoomSize - 1 && NodeHeight(cfg, t.area) >= cfg.minRoomSize - 1) &&
    (t.left.Some? ==> Placeable(cfg, t.left.value)) &&
    (t.right.Some? ==> Placeable(cfg, t.right.value))
  }

  /** Strictly inside the grid's one-cell border. */
  predicate InsideBorder(cfg: Config, r: Rect)
  {
    1 <= r.Left() && r.Right() <= cfg.width - 1 && 1 <= r.Top() && r.Bottom() <= cfg.height - 1
  }

  /** The room a leaf over `a` gets from the four draws at `c`..`c+3`: width,
      height, then x and y of the origin. Each side is at least `minRoomSize`;
      the room never reaches the border, and when the drawn size fits the usable
      region it also keeps clear of the row and column next to the far border. */
  function LeafRoom(cfg: Config, draws: nat -> int, a: Rect, c: nat): (room: Rect)
    requires NodeWidth(cfg, a) >= cfg.minRoomSize - 1 && NodeHeight(cfg, a) >= cfg.minRoomSize - 1
    ensures room.width >= cfg.minRoomSize && room.height >= cfg.minRoomSize
    ensures InsideBorder(cfg, room)
    ensures room.width <= NodeWidth(cfg, a) ==> room.Right() <= cfg.width - 2
    ensures room.height <= NodeHeight(cfg, a) ==> room.Bottom() <= cfg.height - 2
    ensures NodeX(a) <= room.x && NodeY(a) <= room.y
  {
    var m := cfg.minRoomSize;
    var nodeX, nodeY := NodeX(a), NodeY(a);
    var nodeWidth, nodeHeight := NodeWidth(cfg, a), NodeHeight(cfg, a);
    var roomWidth := Rng.Pick(m, Max(m, nodeWidth) + 1, draws(c));
    var roomHeight := Rng.Pick(m, Max(m, nodeHeight) + 1, draws(c + 1));
    var roomX := Rng.Pick(nodeX, nodeX + nodeWidth - roomWidth + 1, draws(c + 2));
    var roomY := Rng.Pick(nodeY, nodeY + nodeHeight - roomHeight + 1, draws(c + 3));
    Rect(roomX, roomY, roomWidth, roomHeight)
  }

  /** What `CreateRooms` produces from a tree: the tree with rooms recorded, the
      rooms in the order they are appended to the list, and the next draw. */
  datatype Placement = Placement(tree: Tree, rooms: seq<Rect>, next: nat)

  function PlaceRooms(cfg: Config, draws: nat -> int, t: Tree, c: nat): Placement
    requires Placeable(cfg, t)
    decreases t
  {
    if t.left.Some? || t.right.Some? then
      var l := if t.left.Some? then PlaceRooms(cfg, draws, t.left.value, c) else Placement(t, [], c);
      var r := if t.right.Some? then PlaceRooms(cfg, draws, t.right.value, l.next) else Placement(t, [], l.next);
      Placement(Tree(t.area, if t.left.Some? then Some(l.tree) else None,
                     if t.right.Some? then Some(r.tree) else None, t.room),
                l.rooms + r.rooms, r.next)
    else if t.area.width <= cfg.minRoomSize || t.area.height <= cfg.minRoomSize then
      Placement(t, [], c)
    else
      var room := LeafRoom(cfg, draws, t.area, c);
      Placement(t.(room := room), [room], c + 4)
  }

  /** `PlaceRooms` on a child that may be missing; a missing child places
      nothing and draws nothing. */
  function PlaceChild(cfg: Config, draws: nat -> int, o: Option<Tree>, c: nat): (p: Placement)
    requires o.Some? ==> Placeable(cfg, o.value)
  {
    if o.Some? then PlaceRooms(cfg, draws, o.value, c) else Placement(Leaf(Empty), [], c)
  }

  /** The child link after placement: present exactly when it was before. */
  function ChildTree(o: Option<Tree>, p: Placement): Option<Tree>
  {
    if o.Some? then Some(p.tree) else None
  }

  /** `PlaceRooms` on a node with a child: the left subtree is placed first,
      the right one continues from the draw where the left one stopped. */
  lemma PlaceRoomsStep(cfg: Config, draws: nat -> int, t: Tree, c: nat, l: Placement, r: Placement)
    requires Placeable(cfg, t) && (t.left.Some? || t.right.Some?)
    requires l == PlaceChild(cfg, draws, t.left, c)
    requires r == PlaceChild(cfg, draws, t.right, l.next)
    ensures PlaceRooms(cfg, draws, t, c) ==
      Placement(Tree(t.area, ChildTree(t.left, l), ChildTree(t.right, r), t.room), l.rooms + r.rooms, r.next)
  {
  }

  /** Same regions and same child structure. */
  predicate SameShape(t: Tree, u: Tree)
  {
    t.area == u.area && t.left.Some? == u.left.Some? && t.right.Some? == u.right.Some? &&
    (t.left.Some? ==> SameShape(t.left.value, u.left.value)) &&
    (t.right.Some? ==> SameShape(t.right.value, u.right.value))
  }

  /** The rooms recorded in a tree, in pre-order, skipping `Empty`. */
  function StoredRooms(t: Tree): seq<Rect>
  {
    var below := (if t.left.Some? then StoredRooms(t.left.value) else []) +
                 (if t.right.Some? then StoredRooms(t.right.value) else []);
    if t.room != Empty then [t.room] + below else below
  }

  lemma {:induction false} StoredRoomsNotEmpty(t: Tree)
    ensures Empty !in StoredRooms(t)
    decreases t
  {
    if t.left.Some? { StoredRoomsNotEmpty(t.left.value); }
    if t.right.Some? { StoredRoomsNotEmpty(t.right.value); }
  }

  /** Rooms sit exactly on the eligible leaves: internal nodes and small leaves
      keep `Empty`, every eligible leaf records a non-empty room. */
  predicate RoomsOnEligibleLeaves(cfg: Config, t: Tree)
  {
    (RoomEligible(cfg, t) <==> t.room != Empty) &&
    (t.left.Some? ==> RoomsOnEligibleLeaves(cfg, t.left.value)) &&
    (t.right.Some? ==> RoomsOnEligibleLeaves(cfg, t.right.value))
  }

  /** `CreateRooms` changes no region or child link, places a room on exactly the
      eligible leaves, and appends to the list exactly the rooms it records in
      the tree, in the same order. */
  lemma PlaceRoomsRecords(cfg: Config, draws: nat -> int, t: Tree, c: nat)
    requires Placeable(cfg, t) && NoRooms(t) && cfg.minRoomSize >= 1
    ensures SameShape(t, PlaceRooms(cfg, draws, t, c).tree)
    ensures RoomsOnEligibleLeaves(cfg, PlaceRooms(cfg, draws, t, c).tree)
    ensures PlaceRooms(cfg, draws, t, c).rooms == StoredRooms(PlaceRooms(cfg, draws, t, c).tree)
    ensures PlaceRooms(cfg, draws, t, c).next >= c
  {
    PlaceRoomsShape(cfg, draws, t, c);
    PlaceRoomsList(cfg, draws, t, c);
  }

  /** The shape half of `PlaceRoomsRecords`. */
  lemma {:induction false} PlaceRoomsShape(cfg: Config, draws: nat -> int, t: Tree, c: nat)
    requires Placeable(cfg, t) && NoRooms(t) && cfg.minRoomSize >= 1
    ensures SameShape(t, PlaceRooms(cfg, draws, t, c).tree)
    ensures RoomsOnEligibleLeaves(cfg, PlaceRooms(cfg, draws, t, c).tree)
    decreases t
  {
    if t.left.Some? || t.right.Some? {
      var l := PlaceChild(cfg, draws, t.left, c);
      var r := PlaceChild(cfg, draws, t.right, l.next);
      PlaceRoomsStep(cfg, draws, t, c, l, r);
      if t.left.Some? { PlaceRoomsShape(cfg, draws, t.left.value, c); }
      if t.right.Some? { PlaceRoomsShape(cfg, draws, t.right.value, l.next); }
      var u := Tree(t.area, ChildTree(t.left, l), ChildTree(t.right, r), t.room);
      assert u.room == Empty && !RoomEligible(cfg, u);
    } else if t.area.width <= cfg.minRoomSize || t.area.height <= cfg.minRoomSize {
      assert PlaceRooms(cfg, draws, t, c).tree == t;
    } else {
      assert PlaceRooms(cfg, draws, t, c).tree.room.width >= 1;
    }
  }

  /** The list half of `PlaceRoomsRecords`. */
  lemma {:induction false} PlaceRoomsList(cfg: Config, draws: nat -> int, t: Tree, c: nat)
    requires Placeable(cfg, t) && NoRooms(t) && cfg.minRoomSize >= 1
    ensures PlaceRooms(cfg, draws, t, c).rooms == StoredRooms(PlaceRooms(cfg, draws, t, c).tree)
    ensures PlaceRooms(cfg, draws, t, c).next >= c
    decreases t
  {
    if t.left.Some? || t.right.Some? {
      var l := PlaceChild(cfg, draws, t.left, c);
      var r := PlaceChild(cfg, draws, t.right, l.next);
      PlaceRoomsStep(cfg, draws, t, c, l, r);
      if t.left.Some? { PlaceRoomsList(cfg, draws, t.left.value, c); }
      if t.right.Some? { PlaceRoomsList(cfg, draws, t.right.value, l.next); }
      var u := Tree(t.area, ChildTree(t.left, l), ChildTree(t.right, r), t.room);
      assert StoredRooms(u) ==
        (if u.left.Some? then StoredRooms(u.left.value) else []) +
        (if u.right.Some? then StoredRooms(u.right.value) else []);
    } else if t.area.width <= cfg.minRoomSize || t.area.height <= cfg.minRoomSize {
      assert PlaceRooms(cfg, draws, t, c).tree == t;
    } else {
      assert PlaceRooms(cfg, draws, t, c).tree.room.width >= 1;
    }
  }

  /** Every room `CreateRooms` places is at least `minRoomSize` on each side and
      lies strictly inside the grid's border; there are no more rooms than leaves. */
  lemma {:induction false} PlaceRoomsBounds(cfg: Config, draws: nat -> int, t: Tree, c: nat)
    requires Placeable(cfg, t)
    ensures |PlaceRooms(cfg, draws, t, c).rooms| <= LeafCount(t)
    ensures forall r :: r in PlaceRooms(cfg, draws, t, c).rooms ==>
      InsideBorder(cfg, r) && r.width >= cfg.minRoomSize && r.height >= cfg.minRoomSize
    decreases t
  {
    if t.left.Some? || t.right.Some? {
      var l := if t.left.Some? then PlaceRooms(cfg, draws, t.left.value, c) else Placement(t, [], c);
      if t.left.Some? { PlaceRoomsBounds(cfg, draws, t.left.value, c); }
      if t.right.Some? { PlaceRoomsBounds(cfg, draws, t.right.value, l.next); }
    }
  }

  /** Every region of the tree lies inside `b`. */
  predicate AreasInside(t: Tree, b: Rect)
  {
    b.x <= t.area.x && t.area.x + t.area.width <= b.x + b.width &&
    b.y <= t.area.y && t.area.y + t.area.height <= b.y + b.height &&
    (t.left.Some? ==> AreasInside(t.left.value, b)) &&
    (t.right.Some? ==> AreasInside(t.right.value, b))
  }

  /** A properly partitioned tree whose root lies inside `b` has all its regions
      inside `b`. */
  lemma {:induction false} PartitionedInside(t: Tree, m: int, b: Rect)
    requires m >= 1 && Partitioned(t, m) && WellShaped(t)
    requires b.x <= t.area.x && t.area.x + t.area.width <= b.x + b.width
    requires b.y <= t.area.y && t.area.y + t.area.height <= b.y + b.height
    ensures AreasInside(t, b)
    decreases t
  {
    if t.left.Some? {
      PartitionedInside(t.left.value, m, b);
      PartitionedInside(t.right.value, m, b);
    }
  }

  /** The grid is not `minRoomSize + 1` wide while more than `minRoomSize`
      tall, nor the reverse. */
  predicate NotTight(cfg: Config)
  {
    !(cfg.width == cfg.minRoomSize + 1 && cfg.height > cfg.minRoomSize) &&
    !(cfg.height == cfg.minRoomSize + 1 && cfg.width > cfg.minRoomSize)
  }

  /** On a grid that is not tight, every leaf region inside the grid leaves room
      for the draws of `CreateRooms`: a leaf large enough for a room forces the
      grid to be at least `minRoomSize + 2` in each direction. */
  lemma {:induction false} InsideIsPlaceable(cfg: Config, t: Tree)
    requires NotTight(cfg)
    requires AreasInside(t, Rect(0, 0, cfg.width, cfg.height))
    ensures Placeable(cfg, t)
    decreases t
  {
    if t.left.Some? { InsideIsPlaceable(cfg, t.left.value); }
    if t.right.Some? { InsideIsPlaceable(cfg, t.right.value); }
  }

  /** The origin draw of `CreateRooms` along one axis, with usable extent `n`
      and the side drawn from [m, max(m, n) + 1), has a range that is not
      reversed (upper bound at least the lower one) exactly when `n >= m - 1`;
      otherwise `Random.Next` throws. So `Placeable` is
      exactly the condition under which `CreateRooms` does not throw. */
  lemma OriginDrawDefined(m: int, n: int, d: int)
    requires m >= 1
    ensures var side := Rng.Pick(m, Max(m, n) + 1, d);
      n - side + 1 >= 0 <==> n >= m - 1
  {
  }

  /** On a grid `minRoomSize + 1` wide and more than `minRoomSize` tall, the
      lowest leaf of every split is eligible for a room but its usable width is
      `minRoomSize - 2`: `CreateRooms` throws, whatever the draws. */
  lemma {:induction false} TightColumnNotPlaceable(cfg: Config, draws: nat -> int, area: Rect, depth: int, c: nat)
    requires cfg.minRoomSize >= 1 && AxisDefined(area)
    requires area.x == 0 && area.width == cfg.width == cfg.minRoomSize + 1 && area.height > cfg.minRoomSize
    ensures !Placeable(cfg, SplitTree(cfg, draws, area, depth, c).0)
    decreases cfg.maxDepth - depth
  {
    if depth < cfg.maxDepth && CutOf(cfg, draws, area, c).Some? {
      var halves := CutOf(cfg, draws, area, c).value;
      SplitTreeStep(cfg, draws, area, depth, c, halves);
      TightColumnNotPlaceable(cfg, draws, halves.1, depth + 1, SplitTree(cfg, draws, halves.0, depth + 1, c + 2).1);
    }
  }

  /** The same for a grid `minRoomSize + 1` tall and more than `minRoomSize` wide. */
  lemma {:induction false} TightRowNotPlaceable(cfg: Config, draws: nat -> int, area: Rect, depth: int, c: nat)
    requires cfg.minRoomSize >= 1 && AxisDefined(area)
    requires area.y == 0 && area.height == cfg.height == cfg.minRoomSize + 1 && area.width > cfg.minRoomSize
    ensures !Placeable(cfg, SplitTree(cfg, draws, area, depth, c).0)
    decreases cfg.maxDepth - depth
  {
    if depth < cfg.maxDepth && CutOf(cfg, draws, area, c).Some? {
      var halves := CutOf(cfg, draws, area, c).value;
      SplitTreeStep(cfg, draws, area, depth, c, halves);
      TightRowNotPlaceable(cfg, draws, halves.1, depth + 1, SplitTree(cfg, draws, halves.0, depth + 1, c + 2).1);
    }
  }

  /** A tight grid is exactly one on which `Generate` throws in `CreateRooms`
      for every stream of draws; `GridConfig` excludes those grids and no others
      with a positive minimum room size and sides the axis test can divide by. */
  lemma TightGridNotPlaceable(cfg: Config, draws: nat -> int, c: nat)
    requires cfg.minRoomSize >= 1 && cfg.width >= 0 && cfg.height >= 0
    requires !NotTight(cfg)
    ensures AxisDefined(Grid(cfg)) && !Placeable(cfg, SplitTree(cfg, draws, Grid(cfg), 0, c).0)
  {
    if cfg.width == cfg.minRoomSize + 1 && cfg.height > cfg.minRoomSize {
      TightColumnNotPlaceable(cfg, draws, Grid(cfg), 0, c);
    } else {
      TightRowNotPlaceable(cfg, draws, Grid(cfg), 0, c);
    }
  }

  // ---------------------------------------------------------------------------
  // GetRoom and ConnectRooms

  /** The room `GetRoom` reports for a subtree: the first room recorded in
      pre-order, or `Empty` when the subtree holds none. */
  function FirstRoom(t: Tree): Rect
  {
    if t.room != Empty then t.room
    else
      var l := if t.left.Some? then FirstRoom(t.left.value) else Empty;
      var r := if t.right.Some? then FirstRoom(t.right.value) else Empty;
      if l != Empty then l else r
  }

  /** `FirstRoom` is the first room of `StoredRooms`, and `Empty` exactly when
      the subtree records none. */
  lemma FirstRoomIsFirstStored(t: Tree)
    ensures FirstRoom(t) == Empty <==> StoredRooms(t) == []
    ensures StoredRooms(t) != [] ==> FirstRoom(t) == StoredRooms(t)[0]
  {
    FirstRoomHead(t);
    StoredRoomsNotEmpty(t);
    if StoredRooms(t) != [] {
      assert StoredRooms(t)[0] in StoredRooms(t);
    }
  }

  /** The first room of a list, `Empty` for none. */
  function HeadRoom(s: seq<Rect>): Rect
  {
    if s == [] then Empty else s[0]
  }

  lemma HeadRoomAppend(a: seq<Rect>, b: seq<Rect>)
    requires a != [] ==> a[0] != Empty
    ensures HeadRoom(a + b) == if HeadRoom(a) != Empty then HeadRoom(a) else HeadRoom(b)
  {
    if a != [] {
      assert (a + b)[0] == a[0];
    } else {
      assert a + b == b;
    }
  }

  lemma StoredHeadNotEmpty(t: Tree)
    ensures StoredRooms(t) != [] ==> StoredRooms(t)[0] != Empty
  {
    StoredRoomsNotEmpty(t);
    if StoredRooms(t) != [] {
      assert StoredRooms(t)[0] in StoredRooms(t);
    }
  }

  lemma {:induction false} FirstRoomHead(t: Tree)
    ensures FirstRoom(t) == HeadRoom(StoredRooms(t))
    decreases t
  {
    if t.left.Some? { FirstRoomHead(t.left.value); }
    if t.right.Some? { FirstRoomHead(t.right.value); }
    if t.room == Empty && t.left.Some? && t.right.Some? {
      FirstRoomOfPair(t);
    } else {
      FirstRoomOfOne(t);
    }
  }

  /** One level of `FirstRoomHead` for a node without a room and with both children. */
  lemma FirstRoomOfPair(t: Tree)
    requires t.room == Empty && t.left.Some? && t.right.Some?
    requires FirstRoom(t.left.value) == HeadRoom(StoredRooms(t.left.value))
    requires FirstRoom(t.right.value) == HeadRoom(StoredRooms(t.right.value))
    ensures FirstRoom(t) == HeadRoom(StoredRooms(t))
  {
    var a, b := t.left.value, t.right.value;
    var sa, sb := StoredRooms(a), StoredRooms(b);
    StoredHeadNotEmpty(a);
    HeadRoomAppend(sa, sb);
  }

  /** One level of `FirstRoomHead` for every other node. */
  lemma FirstRoomOfOne(t: Tree)
    requires !(t.room == Empty && t.left.Some? && t.right.Some?)
    requires t.left.Some? ==> FirstRoom(t.left.value) == HeadRoom(StoredRooms(t.left.value))
    requires t.right.Some? ==> FirstRoom(t.right.value) == HeadRoom(StoredRooms(t.right.value))
    ensures FirstRoom(t) == HeadRoom(StoredRooms(t))
  {
    if t.room != Empty {
      assert StoredRooms(t)[0] == t.room;
    } else if t.left.Some? {
      assert StoredRooms(t) == StoredRooms(t.left.value);
    } else if t.right.Some? {
      assert StoredRooms(t) == StoredRooms(t.right.value);
    } else {
      assert StoredRooms(t) == [];
    }
  }

  /** One `CreateCorridor(start, end, fixedCoord, horizontal)` call. */
  datatype Segment = Segment(start: int, end: int, fixedCoord: int, horizontal: bool)

  /** The cell (x, y) is one `CreateCorridor` sets to `Floor`: on the fixed row
      (or column), between the two ends inclusive, and strictly inside the border. */
  predicate OnSegment(cfg: Config, s: Segment, x: int, y: int)
  {
    0 < x < cfg.width - 1 && 0 < y < cfg.height - 1 &&
    if s.horizontal then y == s.fixedCoord && Min(s.start, s.end) <= x <= Max(s.start, s.end)
    else x == s.fixedCoord && Min(s.start, s.end) <= y <= Max(s.start, s.end)
  }

  predicate Covered(cfg: Config, segs: seq<Segment>, x: int, y: int)
  {
    exists k :: 0 <= k < |segs| && OnSegment(cfg, segs[k], x, y)
  }

  lemma CoveredAppend(cfg: Config, a: seq<Segment>, b: seq<Segment>, x: int, y: int)
    ensures Covered(cfg, a + b, x, y) <==> Covered(cfg, a, x, y) || Covered(cfg, b, x, y)
  {
    if Covered(cfg, a + b, x, y) {
      var k :| 0 <= k < |a + b| && OnSegment(cfg, (a + b)[k], x, y);
      if k >= |a| { assert b[k - |a|] == (a + b)[k]; }
    }
    if Covered(cfg, a, x, y) {
      var k :| 0 <= k < |a| && OnSegment(cfg, a[k], x, y);
      assert (a + b)[k] == a[k];
    }
    if Covered(cfg, b, x, y) {
      var k :| 0 <= k < |b| && OnSegment(cfg, b[k], x, y);
      assert (a + b)[|a| + k] == b[k];
    }
  }

  lemma CoveredPair(cfg: Config, s: Segment, t: Segment, x: int, y: int)
    ensures Covered(cfg, [s, t], x, y) <==> OnSegment(cfg, s, x, y) || OnSegment(cfg, t, x, y)
  {
    var pair := [s, t];
    if Covered(cfg, pair, x, y) {
      var k :| 0 <= k < |pair| && OnSegment(cfg, pair[k], x, y);
      assert k == 0 || k == 1;
    }
    if OnSegment(cfg, s, x, y) { assert pair[0] == s; }
    if OnSegment(cfg, t, x, y) { assert pair[1] == t; }
  }

  /** The two corridor calls `ConnectRooms` makes between centres `a` and `b`;
      the coin picks horizontal-then-vertical or vertical-then-horizontal. */
  function LCorridor(a: Point, b: Point, horizontalFirst: bool): (s: seq<Segment>)
    ensures |s| == 2
  {
    if horizontalFirst then [Segment(a.x, b.x, a.y, true), Segment(a.y, b.y, b.x, false)]
    else [Segment(a.y, b.y, a.x, false), Segment(a.x, b.x, b.y, true)]
  }

  /** The corridor calls `ConnectRooms` makes on a tree, in call order, drawing
      one coin per node with two children from position `c`; and the next
      position. Pairs are not skipped when a subtree holds no room: the centre of
      `Empty`, (0, 0), is used instead. */
  function Corridors(cfg: Config, draws: nat -> int, t: Tree, c: nat): (seq<Segment>, nat)
    decreases t, 1
  {
    if t.left.Some? && t.right.Some? then CorridorsAt(cfg, draws, t, c) else ([], c)
  }

  /** `Corridors` at a node with two children: its own two calls, then the
      left subtree's, then the right subtree's. */
  function CorridorsAt(cfg: Config, draws: nat -> int, t: Tree, c: nat): (seq<Segment>, nat)
    requires t.left.Some? && t.right.Some?
    decreases t, 0
  {
    var a := FirstRoom(t.left.value).Center();
    var b := FirstRoom(t.right.value).Center();
    var first := LCorridor(a, b, Rng.Pick(0, 2, draws(c)) == 0);
    var l := Corridors(cfg, draws, t.left.value, c + 1);
    var r := Corridors(cfg, draws, t.right.value, l.1);
    (first + l.0 + r.0, r.1)
  }

  /** The cells set to `Floor` by `segs` contain every point of an L-shaped
      lattice path from `a` to `b` (either orientation). */
  predicate Joined(cfg: Config, segs: seq<Segment>, a: Point, b: Point)
  {
    (forall i :: 0 <= i < |LPath(a, b)| ==> Covered(cfg, segs, LPath(a, b)[i].x, LPath(a, b)[i].y)) ||
    (forall i :: 0 <= i < |LPath(b, a)| ==> Covered(cfg, segs, LPath(b, a)[i].x, LPath(b, a)[i].y))
  }

  /** For every node with two children that both hold a room, the corridor
      cells join the centres of their representative rooms. */
  predicate SiblingsJoined(cfg: Config, t: Tree, segs: seq<Segment>)
  {
    (t.left.Some? && t.right.Some? &&
     FirstRoom(t.left.value) != Empty && FirstRoom(t.right.value) != Empty ==>
       Joined(cfg, segs, FirstRoom(t.left.value).Center(), FirstRoom(t.right.value).Center())) &&
    (t.left.Some? ==> SiblingsJoined(cfg, t.left.value, segs)) &&
    (t.right.Some? ==> SiblingsJoined(cfg, t.right.value, segs))
  }

  /** Every room recorded in the tree has positive extent and lies strictly
      inside the border. */
  predicate RoomsInsideBorder(cfg: Config, t: Tree)
  {
    forall r :: r in StoredRooms(t) ==> InsideBorder(cfg, r) && r.width > 0 && r.height > 0
  }

  predicate InsidePoint(cfg: Config, p: Point)
  {
    0 < p.x < cfg.width - 1 && 0 < p.y < cfg.height - 1
  }

  /** The two calls of one connection cover an L path between the two centres
      whenever both centres lie strictly inside the border. */
  lemma LCorridorJoins(cfg: Config, a: Point, b: Point, horizontalFirst: bool)
    requires InsidePoint(cfg, a) && InsidePoint(cfg, b)
    ensures Joined(cfg, LCorridor(a, b, horizontalFirst), a, b)
  {
    var segs := LCorridor(a, b, horizontalFirst);
    if horizontalFirst {
      forall i | 0 <= i < |LPath(a, b)|
        ensures Covered(cfg, segs, LPath(a, b)[i].x, LPath(a, b)[i].y)
      {
        LPathInBox(a, b, i);
        var p := LPath(a, b)[i];
        if i <= Abs(b.x - a.x) {
          assert OnSegment(cfg, segs[0], p.x, p.y);
        } else {
          assert OnSegment(cfg, segs[1], p.x, p.y);
        }
      }
    } else {
      forall i | 0 <= i < |LPath(b, a)|
        ensures Covered(cfg, segs, LPath(b, a)[i].x, LPath(b, a)[i].y)
      {
        LPathInBox(b, a, i);
        var p := LPath(b, a)[i];
        if i <= Abs(a.x - b.x) {
          assert OnSegment(cfg, segs[1], p.x, p.y);
        } else {
          assert OnSegment(cfg, segs[0], p.x, p.y);
        }
      }
    }
  }

  /** Adding corridor calls before or after never uncovers a cell. */
  lemma JoinedGrows(cfg: Config, pre: seq<Segment>, segs: seq<Segment>, post: seq<Segment>, a: Point, b: Point)
    requires Joined(cfg, segs, a, b)
    ensures Joined(cfg, pre + segs + post, a, b)
  {
    var all := pre + segs + post;
    forall x, y | Covered(cfg, segs, x, y) ensures Covered(cfg, all, x, y) {
      var k :| 0 <= k < |segs| && OnSegment(cfg, segs[k], x, y);
      assert all[|pre| + k] == segs[k];
    }
  }

  lemma {:induction false} SiblingsJoinedGrows(cfg: Config, t: Tree, pre: seq<Segment>, segs: seq<Segment>, post: seq<Segment>)
    requires SiblingsJoined(cfg, t, segs)
    ensures SiblingsJoined(cfg, t, pre + segs + post)
    decreases t
  {
    if t.left.Some? && t.right.Some? &&
       FirstRoom(t.left.value) != Empty && FirstRoom(t.right.value) != Empty {
      JoinedGrows(cfg, pre, segs, post, FirstRoom(t.left.value).Center(), FirstRoom(t.right.value).Center());
    }
    if t.left.Some? { SiblingsJoinedGrows(cfg, t.left.value, pre, segs, post); }
    if t.right.Some? { SiblingsJoinedGrows(cfg, t.right.value, pre, segs, post); }
  }

  lemma RoomsInsideBorderChildren(cfg: Config, t: Tree)
    requires RoomsInsideBorder(cfg, t)
    ensures t.left.Some? ==> RoomsInsideBorder(cfg, t.left.value)
    ensures t.right.Some? ==> RoomsInsideBorder(cfg, t.right.value)
  {
  }

  /** Connectivity: once every recorded room lies inside the border, the
      corridors `ConnectRooms` lays join, for every node with two children that
      both hold a room, the centres of the two representative rooms by an L
      path. */
  lemma {:induction false} CorridorsJoinSiblings(cfg: Config, draws: nat -> int, t: Tree, c: nat)
    requires WellShaped(t) && RoomsInsideBorder(cfg, t)
    ensures SiblingsJoined(cfg, t, Corridors(cfg, draws, t, c).0)
    decreases t
  {
    if t.left.Some? && t.right.Some? {
      var l := Corridors(cfg, draws, t.left.value, c + 1);
      var r := Corridors(cfg, draws, t.right.value, l.1);
      var segs := Corridors(cfg, draws, t, c).0;
      assert segs == NodeCorridor(draws, t, c) + l.0 + r.0 by { CorridorsSplit(cfg, draws, t, c); }
      assert SiblingsJoined(cfg, t.left.value, l.0) && SiblingsJoined(cfg, t.right.value, r.0) by {
        RoomsInsideBorderChildren(cfg, t);
        CorridorsJoinSiblings(cfg, draws, t.left.value, c + 1);
        CorridorsJoinSiblings(cfg, draws, t.right.value, l.1);
      }
      NodeJoinedWhenRooms(cfg, draws, t, c);
      SiblingsJoinedCombine(cfg, t, NodeCorridor(draws, t, c), l.0, r.0);
    }
  }

  /** The node's own pair of calls joins its representative rooms whenever
      both subtrees hold one. */
  lemma NodeJoinedWhenRooms(cfg: Config, draws: nat -> int, t: Tree, c: nat)
    requires t.left.Some? && t.right.Some? && RoomsInsideBorder(cfg, t)
    ensures FirstRoom(t.left.value) != Empty && FirstRoom(t.right.value) != Empty ==>
      Joined(cfg, Corridors(cfg, draws, t, c).0,
             FirstRoom(t.left.value).Center(), FirstRoom(t.right.value).Center())
  {
    if FirstRoom(t.left.value) != Empty && FirstRoom(t.right.value) != Empty {
      RoomsInsideBorderChildren(cfg, t);
      FirstRoomInside(cfg, t.left.value);
      FirstRoomInside(cfg, t.right.value);
      NodeJoined(cfg, draws, t, c);
    }
  }

  /** A node's siblings are joined by its own calls followed by its
      subtrees' calls, once each part does its share. */
  lemma SiblingsJoinedCombine(cfg: Config, t: Tree, first: seq<Segment>, l: seq<Segment>, r: seq<Segment>)
    requires t.left.Some? && t.right.Some?
    requires FirstRoom(t.left.value) != Empty && FirstRoom(t.right.value) != Empty ==>
      Joined(cfg, first + l + r, FirstRoom(t.left.value).Center(), FirstRoom(t.right.value).Center())
    requires SiblingsJoined(cfg, t.left.value, l) && SiblingsJoined(cfg, t.right.value, r)
    ensures SiblingsJoined(cfg, t, first + l + r)
  {
    SiblingsJoinedGrows(cfg, t.left.value, first, l, r);
    assert first + l + r + [] == first + l + r;
    SiblingsJoinedGrows(cfg, t.right.value, first + l, r, []);
  }

  /** The two corridor calls made at a node with two children. */
  function NodeCorridor(draws: nat -> int, t: Tree, c: nat): (s: seq<Segment>)
    requires t.left.Some? && t.right.Some?
    ensures |s| == 2
  {
    LCorridor(FirstRoom(t.left.value).Center(), FirstRoom(t.right.value).Center(),
              Rng.Pick(0, 2, draws(c)) == 0)
  }

  /** How `Corridors` of a node with two children splits into its own two
      calls and those of its subtrees. */
  lemma CorridorsSplit(cfg: Config, draws: nat -> int, t: Tree, c: nat)
    requires t.left.Some? && t.right.Some?
    ensures var l := Corridors(cfg, draws, t.left.value, c + 1);
      var r := Corridors(cfg, draws, t.right.value, l.1);
      Corridors(cfg, draws, t, c).0 == NodeCorridor(draws, t, c) + l.0 + r.0
  {
  }

  /** `Corridors` on a node with two children: its own two calls, then those
      of the left subtree, then those of the right one, which continues from
      the draw where the left one stopped. */
  lemma CorridorsStep(cfg: Config, draws: nat -> int, t: Tree, c: nat, l: (seq<Segment>, nat), r: (seq<Segment>, nat))
    requires t.left.Some? && t.right.Some?
    requires l == Corridors(cfg, draws, t.left.value, c + 1)
    requires r == Corridors(cfg, draws, t.right.value, l.1)
    ensures Corridors(cfg, draws, t, c) == (NodeCorridor(draws, t, c) + (l.0 + r.0), r.1)
  {
    AppendAssoc(NodeCorridor(draws, t, c), l.0, r.0);
  }

  /** Carving the cells of the calls `a` and then those of `b` into a cell is
      carving the cells of `a + b`. */
  lemma PaveAppend(cfg: Config, a: seq<Segment>, b: seq<Segment>, x: int, y: int,
                   v0: TileType, v1: TileType, v2: TileType)
    requires v1 == if Covered(cfg, a, x, y) then Floor else v0
    requires v2 == if Covered(cfg, b, x, y) then Floor else v1
    ensures v2 == if Covered(cfg, a + b, x, y) then Floor else v0
  {
    CoveredAppend(cfg, a, b, x, y);
  }

  /** The same for two single calls. */
  lemma PaveTwo(cfg: Config, s: Segment, u: Segment, x: int, y: int, v0: TileType, v1: TileType, v2: TileType)
    requires v1 == if OnSegment(cfg, s, x, y) then Floor else v0
    requires v2 == if OnSegment(cfg, u, x, y) then Floor else v1
    ensures v2 == if Covered(cfg, [s, u], x, y) then Floor else v0
  {
    CoveredPair(cfg, s, u, x, y);
  }

  /** The first two calls on a node with two children are its own. */
  lemma CorridorsHead(cfg: Config, draws: nat -> int, t: Tree, c: nat)
    requires t.left.Some? && t.right.Some?
    ensures |Corridors(cfg, draws, t, c).0| >= 2
    ensures Corridors(cfg, draws, t, c).0[1] == NodeCorridor(draws, t, c)[1]
  {
    CorridorsSplit(cfg, draws, t, c);
  }

  /** The representative room of a subtree whose rooms all lie inside the
      border has its centre inside the border. */
  lemma FirstRoomInside(cfg: Config, t: Tree)
    requires RoomsInsideBorder(cfg, t) && FirstRoom(t) != Empty
    ensures InsidePoint(cfg, FirstRoom(t).Center())
  {
    FirstRoomIsFirstStored(t);
    assert FirstRoom(t) in StoredRooms(t);
  }

  /** A corridor that joins two points still does when more calls follow it. */
  lemma JoinedPrefix(cfg: Config, segs: seq<Segment>, first: seq<Segment>, a: Point, b: Point)
    requires Joined(cfg, first, a, b) && |first| <= |segs| && segs[..|first|] == first
    ensures Joined(cfg, segs, a, b)
  {
    JoinedGrows(cfg, [], first, segs[|first|..], a, b);
    assert [] + first + segs[|first|..] == segs;
  }

  /** The two calls made at a node join its two representative rooms. */
  lemma {:induction false} NodeJoined(cfg: Config, draws: nat -> int, t: Tree, c: nat)
    requires t.left.Some? && t.right.Some?
    requires InsidePoint(cfg, FirstRoom(t.left.value).Center())
    requires InsidePoint(cfg, FirstRoom(t.right.value).Center())
    ensures Joined(cfg, Corridors(cfg, draws, t, c).0,
                   FirstRoom(t.left.value).Center(), FirstRoom(t.right.value).Center())
  {
    var a, b := FirstRoom(t.left.value).Center(), FirstRoom(t.right.value).Center();
    CorridorsSplit(cfg, draws, t, c);
    LCorridorJoins(cfg, a, b, Rng.Pick(0, 2, draws(c)) == 0);
    var segs := Corridors(cfg, draws, t, c).0;
    assert segs[..2] == NodeCorridor(draws, t, c);
    JoinedPrefix(cfg, segs, NodeCorridor(draws, t, c), a, b);
  }

  /** The centre of `Empty` is the corner (0, 0). */
  lemma EmptyCenter()
    ensures Empty.Center() == Point(0, 0)
  {
  }

  /** Where the left subtree holds no room, `ConnectRooms` does not skip the
      pair: it lays the node's corridor from the centre of `Empty`, the corner
      (0, 0). */
  lemma EmptySideFromCorner(draws: nat -> int, t: Tree, c: nat)
    requires t.left.Some? && t.right.Some?
    requires FirstRoom(t.left.value) == Empty
    ensures NodeCorridor(draws, t, c) ==
      LCorridor(Point(0, 0), FirstRoom(t.right.value).Center(), Rng.Pick(0, 2, draws(c)) == 0)
  {
    EmptyCenter();
  }

  /** The mirror case: where the right subtree holds no room, the node's
      corridor runs from the left room's centre to the corner (0, 0). */
  lemma EmptySideToCorner(draws: nat -> int, t: Tree, c: nat)
    requires t.left.Some? && t.right.Some?
    requires FirstRoom(t.right.value) == Empty
    ensures NodeCorridor(draws, t, c) ==
      LCorridor(FirstRoom(t.left.value).Center(), Point(0, 0), Rng.Pick(0, 2, draws(c)) == 0)
  {
    EmptyCenter();
  }

  /** A corridor from the corner to an interior point: its first call runs
      along the border row or column and sets nothing, and its second call
      still reaches from the cell next to the border to the point. */
  lemma CornerCorridorCarves(cfg: Config, b: Point, horizontalFirst: bool)
    requires InsidePoint(cfg, b)
    ensures var segs := LCorridor(Point(0, 0), b, horizontalFirst);
      forall x, y :: !OnSegment(cfg, segs[0], x, y)
    ensures var segs := LCorridor(Point(0, 0), b, horizontalFirst);
      if horizontalFirst
      then forall y :: 1 <= y <= b.y ==> OnSegment(cfg, segs[1], b.x, y)
      else forall x :: 1 <= x <= b.x ==> OnSegment(cfg, segs[1], x, b.y)
  {
  }

  // ---------------------------------------------------------------------------
  // Generate

  predicate InAnyRoom(rooms: seq<Rect>, x: int, y: int)
  {
    exists k :: 0 <= k < |rooms| && rooms[k].Contains(x, y)
  }

  /** Carving the rooms of `a` and then those of `b` into a cell is carving
      the rooms of `a + b`. */
  lemma PaintAppend(a: seq<Rect>, b: seq<Rect>, x: int, y: int, v0: TileType, v1: TileType, v2: TileType)
    requires v1 == if InAnyRoom(a, x, y) then Floor else v0
    requires v2 == if InAnyRoom(b, x, y) then Floor else v1
    ensures v2 == if InAnyRoom(a + b, x, y) then Floor else v0
  {
    InAnyRoomAppend(a, b, x, y);
  }

  lemma AppendAssoc<T>(a: seq<T>, b: seq<T>, c: seq<T>)
    ensures (a + b) + c == a + (b + c)
  {
  }

  lemma InAnyRoomAppend(a: seq<Rect>, b: seq<Rect>, x: int, y: int)
    ensures InAnyRoom(a + b, x, y) <==> InAnyRoom(a, x, y) || InAnyRoom(b, x, y)
  {
    if InAnyRoom(a + b, x, y) {
      var k :| 0 <= k < |a + b| && (a + b)[k].Contains(x, y);
      if k >= |a| { assert b[k - |a|] == (a + b)[k]; }
    }
    if InAnyRoom(a, x, y) {
      var k :| 0 <= k < |a| && a[k].Contains(x, y);
      assert (a + b)[k] == a[k];
    }
    if InAnyRoom(b, x, y) {
      var k :| 0 <= k < |b| && b[k].Contains(x, y);
      assert (a + b)[|a| + k] == b[k];
    }
  }

  /** What one `Generate` lays out before decoration: the tree with its rooms,
      the rooms in list order, the corridor calls, and the next draw position. */
  datatype Layout = Layout(tree: Tree, rooms: seq<Rect>, corridors: seq<Segment>, next: nat)

  /** The parameters for which `Generate` throws for no stream of draws: a
      positive minimum room size, no negative side, no side zero while the
      other is not (the axis test would divide by it), and a grid that is not
      tight (see `TightGridNotPlaceable`). */
  predicate GridConfig(cfg: Config)
  {
    cfg.minRoomSize >= 1 && cfg.width >= 0 && cfg.height >= 0 && AxisDefined(Grid(cfg)) && NotTight(cfg)
  }

  function Grid(cfg: Config): Rect { Rect(0, 0, cfg.width, cfg.height) }

  function LayoutOf(cfg: Config, draws: nat -> int, c: nat): Layout
    requires GridConfig(cfg)
  {
    var s := SplitTree(cfg, draws, Grid(cfg), 0, c);
    SplitTreeShape(cfg, draws, Grid(cfg), 0, c);
    SplitTreeTiles(cfg, draws, Grid(cfg), 0, c);
    PartitionedInside(s.0, cfg.minRoomSize, Grid(cfg));
    InsideIsPlaceable(cfg, s.0);
    var p := PlaceRooms(cfg, draws, s.0, s.1);
    var k := Corridors(cfg, draws, p.tree, p.next);
    Layout(p.tree, p.rooms, k.0, k.1)
  }

  /** Properties of a whole layout: every node has two children or none, every
      room is at least `minRoomSize` on each side and strictly inside the border,
      there are at most 2^maxDepth rooms, and sibling subtrees that both hold a
      room are joined by corridor cells. */
  lemma LayoutProperties(cfg: Config, draws: nat -> int, c: nat)
    requires GridConfig(cfg)
    ensures WellShaped(LayoutOf(cfg, draws, c).tree)
    ensures |LayoutOf(cfg, draws, c).rooms| <= Pow2(Max(0, cfg.maxDepth))
    ensures forall r :: r in LayoutOf(cfg, draws, c).rooms ==>
      InsideBorder(cfg, r) && r.width >= cfg.minRoomSize && r.height >= cfg.minRoomSize
    ensures SiblingsJoined(cfg, LayoutOf(cfg, draws, c).tree, LayoutOf(cfg, draws, c).corridors)
  {
    var s := SplitTree(cfg, draws, Grid(cfg), 0, c);
    SplitTreeShape(cfg, draws, Grid(cfg), 0, c);
    SplitTreeTiles(cfg, draws, Grid(cfg), 0, c);
    PartitionedInside(s.0, cfg.minRoomSize, Grid(cfg));
    InsideIsPlaceable(cfg, s.0);
    var p := PlaceRooms(cfg, draws, s.0, s.1);
    PlaceRoomsRecords(cfg, draws, s.0, s.1);
    PlaceRoomsBounds(cfg, draws, s.0, s.1);
    SameShapeWellShaped(s.0, p.tree);
    if cfg.maxDepth >= 0 {
      SplitTreeLeaves(cfg, draws, Grid(cfg), 0, c);
    } else {
      assert s.0 == Leaf(Grid(cfg));
    }
    CorridorsJoinSiblings(cfg, draws, p.tree, p.next);
  }

  lemma {:induction false} SameShapeWellShaped(t: Tree, u: Tree)
    requires SameShape(t, u) && WellShaped(t)
    ensures WellShaped(u)
    decreases t
  {
    if t.left.Some? { SameShapeWellShaped(t.left.value, u.left.value); }
    if t.right.Some? { SameShapeWellShaped(t.right.value, u.right.value); }
  }

  // ---------------------------------------------------------------------------
  // AddRandomElements

  /** A snapshot of the tile array, indexed [x][y]. */
  type Cells = seq<seq<TileType>>

  predicate FloorAt(g: Cells, x: int, y: int)
  {
    0 <= x < |g| && 0 <= y < |g[x]| && g[x][y] == Floor
  }

  /** The number of cells `AddRandomElements` finds to be `Floor` before it
      reaches (x, y): columns 1 .. x-1 entirely, then rows 1 .. y-1 of column x,
      never the border. Each of them consumes one draw. */
  function FloorsBefore(g: Cells, height: int, x: int, y: int): nat
    decreases x, y
  {
    if x <= 1 && y <= 1 then 0
    else if y <= 1 then FloorsBefore(g, height, x - 1, height - 1)
    else FloorsBefore(g, height, x, y - 1) + (if FloorAt(g, x, y - 1) then 1 else 0)
  }

  /** The tile a `Floor` cell becomes for a roll: `Water` below `waterChance`,
      `Grass` below `waterChance + grassChance`, otherwise it stays `Floor`. */
  function Decoration(roll: int, waterChance: int, grassChance: int): (t: TileType)
    ensures t == Floor || t == Water || t == Grass
  {
    if roll < waterChance then Water
    else if roll < waterChance + grassChance then Grass
    else Floor
  }

  /** The tile `AddRandomElements` leaves at (x, y) of a grid `g` whose cells
      it reads before changing them, when its draws start at position `c`. */
  function DecoratedCell(g: Cells, height: int, draws: nat -> int, c: nat, x: int, y: int,
                         waterChance: int, grassChance: int): (t: TileType)
    requires 0 <= x < |g| && 0 <= y < |g[x]|
    ensures t != g[x][y] ==> g[x][y] == Floor && (t == Water || t == Grass)
    ensures t != g[x][y] ==> 0 < x < |g| - 1 && 0 < y < height - 1
  {
    if 0 < x < |g| - 1 && 0 < y < height - 1 && g[x][y] == Floor
    then Decoration(Rng.Roll(draws(c + FloorsBefore(g, height, x, y))), waterChance, grassChance)
    else g[x][y]
  }

  /** (x1, y1) comes before (x2, y2) in the order `AddRandomElements` visits
      cells: column by column, each column top to bottom. */
  predicate VisitedBefore(x1: int, y1: int, x2: int, y2: int)
  {
    x1 < x2 || (x1 == x2 && y1 < y2)
  }

  /** The draw count grows along the visiting order. */
  lemma {:induction false} FloorsBeforeMonotone(g: Cells, height: int, x1: int, y1: int, x2: int, y2: int)
    requires 1 <= x1 && 1 <= y1 < height && 1 <= y2 < height
    requires VisitedBefore(x1, y1, x2, y2) || (x1 == x2 && y1 == y2)
    ensures FloorsBefore(g, height, x1, y1) <= FloorsBefore(g, height, x2, y2)
    decreases x2, y2
  {
    if x1 == x2 && y1 == y2 {
    } else if y2 > 1 {
      FloorsBeforeMonotone(g, height, x1, y1, x2, y2 - 1);
    } else {
      FloorsBeforeMonotone(g, height, x1, y1, x2 - 1, height - 1);
    }
  }

  /** Every interior `Floor` cell is decorated by a draw of its own: a later
      cell's draw comes strictly after an earlier `Floor` cell's. */
  lemma FloorsBeforeDistinct(g: Cells, height: int, x1: int, y1: int, x2: int, y2: int)
    requires 1 <= x1 && 1 <= y1 < height - 1 && 1 <= y2 < height - 1
    requires FloorAt(g, x1, y1) && VisitedBefore(x1, y1, x2, y2)
    ensures FloorsBefore(g, height, x1, y1) < FloorsBefore(g, height, x2, y2)
  {
    assert FloorsBefore(g, height, x1, y1 + 1) == FloorsBefore(g, height, x1, y1) + 1;
    if x1 == x2 {
      FloorsBeforeMonotone(g, height, x1, y1 + 1, x2, y2);
    } else {
      FloorsBeforeMonotone(g, height, x1, y1 + 1, x1, height - 1);
      assert FloorsBefore(g, height, x1 + 1, 1) == FloorsBefore(g, height, x1, height - 1);
      FloorsBeforeMonotone(g, height, x1 + 1, 1, x2, y2);
    }
  }

  /** The tile array once `Generate` has filled it with `Wall`, carved the
      rooms and the corridors of `l`, before decoration: `Floor` exactly where a
      room or a corridor call reaches. */
  function LaidOut(cfg: Config, l: Layout): (g: Cells)
    requires cfg.width >= 0 && cfg.height >= 0
    ensures |g| == cfg.width && forall x :: 0 <= x < cfg.width ==> |g[x]| == cfg.height
    ensures forall x, y :: 0 <= x < cfg.width && 0 <= y < cfg.height ==> g[x][y] == Floor || g[x][y] == Wall
  {
    seq(cfg.width, x =>
      seq(cfg.height, y => if InAnyRoom(l.rooms, x, y) || Covered(cfg, l.corridors, x, y) then Floor else Wall))
  }

  /** After `Generate` the outer border is all `Wall`: rooms keep clear of it,
      corridor calls skip it, and decoration only touches interior cells. */
  lemma BorderStaysWall(cfg: Config, draws: nat -> int, c: nat, x: int, y: int)
    requires GridConfig(cfg)
    requires 0 <= x < cfg.width && 0 <= y < cfg.height
    requires x == 0 || x == cfg.width - 1 || y == 0 || y == cfg.height - 1
    ensures var l := LayoutOf(cfg, draws, c);
      DecoratedCell(LaidOut(cfg, l), cfg.height, draws, l.next, x, y, 5, 10) == Wall
  {
    var l := LayoutOf(cfg, draws, c);
    LayoutProperties(cfg, draws, c);
  }
}
