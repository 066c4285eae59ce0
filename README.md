# BSP console dungeon: a verified model of its two map generators

The repository builds dungeon maps for a console roguelike in two ways.

- **`BSPDungeonGenerator`** (BSPDungeonGenerator.cs).
  - It fills a `TileType[width, height]` array with walls.
  - It splits the whole grid recursively into a binary tree of `Node`s (binary space partitioning).
  - It places one random room on each large enough leaf, recording it in the node and in a room list.
  - It joins every pair of sibling subtrees with an L-shaped pair of one-cell corridors between their representative rooms.
  - It sprinkles water and grass over the interior floor.
- **The scatter generator** (the generation half of Program.cs).
  - It walls in a 300 × 120 GoRogue map.
  - It scatters 12–13 × 10–11 rooms by rejection sampling, with a 4-cell margin between rooms.
  - It carves each room's interior, and adds pillars to large rooms.
  - It links the rooms in a cycle with thick corridors: a 13 × 9 brush swept along an L path. It then adds one or two random extra links.
  - It opens alcoves in the rooms' wall rings.
  - It places and moves the player.

## How the model is built

Both generators change state step by step, so each is a Dafny `class`.

- **BSP generator:** `Bsp.Generator` holds the tile array as an `array2`, the room list as a `seq`, and its random-number generator. The partition tree is a linked structure of `Bsp.Node` objects. Each subtree owns a ghost `repr` set; `Valid()` states that the subtrees are disjoint.
- **Scatter generator:** `Scatter.Program` holds the terrain array, the room list, the random-number generator and the player's position.

Every method is proved against a specification function or relation applied to the state before the call. Most methods are tied to a function. The thick-corridor methods (`CreateThickCorridor`, `StampColumn`, `StampBrush`, `Link`, `ChainCorridors`, `ExtraCorridors` and `ExtraLink`) are tied only to a relation: each swept cell gets corridor terrain, and the cursor does not go back.

- **BSP generator:** `SplitTree`, `PlaceRooms`, `Corridors`, `LayoutOf`, `LaidOut` and `DecoratedCell` in module `BspTree`.
- **Scatter generator:** `GeneratedRooms`, `PillarCells`, `ChainLinks`, `AlcoveOf` and `Alcoves` in module `ScatterMap`, and `LPath` in module `Lattice`.

The properties the two generators are meant to have are lemmas about those functions. Examples: the children of a cut tile their parent; rooms stay inside the border; sibling rooms are joined; accepted rooms are pairwise apart.

**Randomness.** `System.Random` is modelled as a fixed stream of raw draws (`Rng.Random.draws`) read by a cursor.

- `Next(lo, hi)` maps a draw to `[lo, hi)`, clamping it to the nearest end. For `lo == hi` it returns `lo`, as .NET does.
- `NextDouble()` becomes a whole-percentage roll in `[0, 100)`. Every probability the generators test is written as a whole percentage (1, 3, 5, 10, 15, 60 and 70 percent). So every outcome of each comparison stays reachable, with its probability, up to the rounding of the double constants (for example, `0.05 + 0.10` evaluates just above 0.15).

Each specification function takes the stream and the cursor position. So for most methods the exact sequence of draws they consume is part of the contract. The exceptions are the thick-corridor methods, listed under "## Left out". `CreateThickCorridor`, its helpers `StampColumn` and `StampBrush`, and the linking methods `Link`, `ChainCorridors`, `ExtraCorridors` and `ExtraLink` bound the cursor only from below. `ConnectRoomsWithThickCorridors` and `GenerateStyleMap` state the cursor only through a ghost result.

**Behaviour of the source that the model keeps as written:**

- **Unusable representative room.** `ConnectRooms` does not skip a pair whose representative room is `Empty`. It lays that corridor from the corner (0, 0) (`BspTree.EmptySideFromCorner`).
- **Room overhang.** `CreateRooms` clamps a leaf's origin to 1 without shrinking the usable width. So a room can overhang its leaf by one cell, though never the grid's border (`BspTree.LeafRoom`).
- **Room list not cleared.** `Generate` appends to the room list without clearing it (`Bsp.Generator.Generate`).
- **Far-edge margin.** The scatter generator's far-edge margin of four cells fails only on the tightest grids, where the origin draw's range is empty and `Random.Next` returns its lower bound: a 13-wide room on a grid 19 wide, or an 11-tall room on a grid 17 tall (`ScatterMap.SampleRoom`).
- **Rings count as pillars.** `CreateThickCorridor` treats every cell that blocks movement and sight and lies in a room as a pillar, and walls on a room's ring qualify. So a corridor never breaks a room's wall ring. On the finished map, every ring cell is `Wall` except the alcoves that `AddArchitecturalDetails` opens (`Scatter.Program.GenerateStyleMap`, through `StyleMapCells`).
- **No pillars in practice.** No room `GenerateRooms` can draw is large enough for `AddPillarsToRoom` (`ScatterMap.SampledRoomsHaveNoPillars`).

## Model

| member | source | states |
|---|---|---|
| Rng.Pick | Program.cs:103-115 | A draw maps into `[lo, hi)`, or to `lo` when the range is empty, as `Random.Next(lo, hi)` does |
| Rng.PickReachesAll | Program.cs:103-115 | Every value of the range is the outcome of some draw, so the model excludes no choice the platform can make |
| Rng.Roll | Program.cs:247 | `NextDouble()` as a percentage roll, always in `[0, 100)` |
| Rng.Random.constructor | BSPDungeonGenerator.cs:19 | A generator starts at the first draw of the stream its seed selects |
| Rng.Random.Next | Program.cs:103 | `Next(lo, hi)` consumes exactly one draw and yields `Pick` of it |
| Rng.Random.NextRoll | Program.cs:297 | `NextDouble()` consumes exactly one draw and yields its roll |
| Lattice.Quot | BSPDungeonGenerator.cs:45-47 | C# integer division, which truncates toward zero |
| Lattice.LPath | Program.cs:265-289 | The corridor path has `Abs(dx) + Abs(dy) + 1` points |
| Lattice.LPathEnds | Program.cs:265-289 | The path starts at `start` and ends at `end` |
| Lattice.LPathSteps | Program.cs:275-286 | Consecutive points are one orthogonal step apart |
| Lattice.LPathHorizontalFirst | Program.cs:273-286 | Every horizontal step comes before every vertical one |
| Lattice.LPathInBox | Program.cs:265-289 | Every point lies in the bounding box of the two ends |
| BspTree.Rect.Center | BSPDungeonGenerator.cs:236 | A rectangle of positive extent contains its centre (C# truncating division) |
| BspTree.AxisChoice | BSPDungeonGenerator.cs:44-48 | The coin decides the axis unless one side is at least twice the other; then a wide region is cut vertically and a tall one horizontally |
| BspTree.QuotAtLeastTwo | BSPDungeonGenerator.cs:46-48 | Comparing a truncated quotient with 1.25 is the same as comparing the dividend with twice the divisor |
| BspTree.CutOf | BSPDungeonGenerator.cs:44-63 | `None` exactly when the chosen axis is at most `2 * minRoomSize`; otherwise the cut tiles its region exactly, each child at least `minRoomSize` long on the cut axis and the right (lower) one longer |
| BspTree.SplitTreeStep | BSPDungeonGenerator.cs:55-67 | After a cut, the left half is split first and the right half continues from the draw where the left stopped |
| BspTree.SplitTreeShape | BSPDungeonGenerator.cs:40-68 | `Split` keeps the root's region, leaves every node with two children or none, and records no room |
| BspTree.SplitTreeTiles | BSPDungeonGenerator.cs:50-63 | At every cut node the children tile the parent exactly and meet the minimum size |
| BspTree.SplitTreeDepth | BSPDungeonGenerator.cs:42 | The tree below depth `d` is at most `maxDepth - d` high |
| BspTree.SplitTreeLeaves | BSPDungeonGenerator.cs:40-68 | The tree below depth `d` has at most `2^(maxDepth - d)` leaves |
| BspTree.LeafRoom | BSPDungeonGenerator.cs:84-98 | A placed room is at least `minRoomSize` on each side and strictly inside the border; it stops short of the far border when the drawn size fits |
| BspTree.PlaceRoomsStep | BSPDungeonGenerator.cs:72-81 | `CreateRooms` places the left subtree first; the right continues from the draw where the left stopped |
| BspTree.PlaceRoomsRecords | BSPDungeonGenerator.cs:70-108 | `CreateRooms` keeps every region and child link, records a room on exactly the eligible leaves, and appends exactly the recorded rooms in pre-order |
| BspTree.PlaceRoomsBounds | BSPDungeonGenerator.cs:84-102 | There are no more rooms than leaves; each is at least `minRoomSize` per side and strictly inside the border |
| BspTree.InsideIsPlaceable | BSPDungeonGenerator.cs:80-98 | On a grid that is not tight, no room draw of `CreateRooms` gets a reversed range (upper bound below the lower one), the case in which `Random.Next` throws |
| BspTree.OriginDrawDefined | BSPDungeonGenerator.cs:90-98 | The origin draw's range is not reversed exactly when the usable extent is at least `minRoomSize - 1`, so `Placeable` is exactly the no-throw condition |
| BspTree.TightGridNotPlaceable | BSPDungeonGenerator.cs:40-98 | On a tight grid, some leaf eligible for a room gets a reversed origin range whatever the draws, so the source throws |
| BspTree.FirstRoomIsFirstStored | BSPDungeonGenerator.cs:155-168 | The representative room is the first room recorded in pre-order, and `Empty` exactly when the subtree records none |
| BspTree.LCorridorJoins | BSPDungeonGenerator.cs:120-129 | Between two centres inside the border, the two corridor calls cover an L path joining them, in either orientation |
| BspTree.CorridorsStep | BSPDungeonGenerator.cs:110-132 | At a node with two children: its own pair of calls, then the left subtree's, then the right subtree's, which continues the draws |
| BspTree.CorridorsJoinSiblings | BSPDungeonGenerator.cs:110-134 | When every room lies inside the border, every pair of siblings that both hold a room is joined by corridor floor |
| BspTree.EmptySideFromCorner | BSPDungeonGenerator.cs:114-118 | A pair whose left subtree holds no room is still connected, from the centre of `Empty`, which is (0, 0) |
| BspTree.EmptySideToCorner | BSPDungeonGenerator.cs:114-130 | A pair whose right subtree holds no room is still connected, to the centre of `Empty`, which is (0, 0) |
| BspTree.CornerCorridorCarves | BSPDungeonGenerator.cs:170-187 | From (0, 0) the first call runs along the border and sets nothing; the second still reaches from next to the border to the room |
| BspTree.Decoration | BSPDungeonGenerator.cs:136-152 | A decorated floor cell becomes `Floor`, `Water` or `Grass` |
| BspTree.DecoratedCell | BSPDungeonGenerator.cs:136-152 | Decoration only turns interior `Floor` cells into `Water` or `Grass` |
| BspTree.FloorsBeforeDistinct | BSPDungeonGenerator.cs:138-150 | Each interior floor cell gets a draw of its own, later in the column-major scan than those of earlier floor cells |
| BspTree.LaidOut | BSPDungeonGenerator.cs:25-37 | The reference grid before decoration: it has the grid's dimensions and holds only `Floor` and `Wall`. `Generate` and `BorderStaysWall` are proved against it |
| BspTree.LayoutProperties | BSPDungeonGenerator.cs:25-37 | A whole layout is well shaped, has at most `2^maxDepth` rooms each inside the border and of minimum size, and joins every pair of siblings with rooms |
| BspTree.BorderStaysWall | BSPDungeonGenerator.cs:25-38 | After `Generate` the grid's outer border is all `Wall` |
| Bsp.Node.constructor | BSPDungeonGenerator.cs:210-222 | A new node is a leaf over its region with no room |
| Bsp.Generator.constructor | BSPDungeonGenerator.cs:13-23 | Dimensions and parameters as given; an all-`Floor` tile array (the enum's default) and an empty room list |
| Bsp.Generator.FillWalls | BSPDungeonGenerator.cs:28-30 | Every cell becomes `Wall` |
| Bsp.Generator.Split | BSPDungeonGenerator.cs:40-68 | The linked tree built below a fresh node is `SplitTree` of its region, and the cursor ends where `SplitTree` says |
| Bsp.Generator.ChooseCut | BSPDungeonGenerator.cs:44-53 | The axis coin and, when the region is long enough, the offset; one or two draws |
| Bsp.Generator.CreateRooms | BSPDungeonGenerator.cs:70-108 | The tree, the appended rooms and the cursor are those of `PlaceRooms`; exactly the placed rooms' cells become `Floor` |
| Bsp.Generator.DrawRoom | BSPDungeonGenerator.cs:84-98 | The four draws of a leaf give `LeafRoom` |
| Bsp.Generator.GetRoom | BSPDungeonGenerator.cs:155-168 | The first room recorded in the subtree in pre-order, `Empty` exactly when there is none |
| Bsp.Generator.CreateCorridor | BSPDungeonGenerator.cs:170-187 | Exactly the run between the ends on the fixed row or column becomes `Floor`, border cells skipped |
| Bsp.Generator.ConnectRooms | BSPDungeonGenerator.cs:110-134 | Exactly the cells of the calls `Corridors` lists become `Floor`; one coin per pair of siblings |
| Bsp.Generator.AddRandomElements | BSPDungeonGenerator.cs:136-152 | Every cell ends as `DecoratedCell` of the grid as found; one draw per interior floor cell |
| Bsp.Generator.Generate | BSPDungeonGenerator.cs:25-38 | The appended rooms, the cursor and every tile are those of `LayoutOf`, `LaidOut` and `DecoratedCell` with 5 % water and 10 % grass |
| ScatterMap.SolidTerrains | Program.cs:11-27 | Exactly walls and pillars block both movement and sight; corridor terrain never blocks sight |
| ScatterMap.Room.Center | Program.cs:41 | A room of positive extent contains its centre |
| ScatterMap.RoomsOverlapSymmetric | Program.cs:138-144 | The overlap test does not depend on argument order |
| ScatterMap.RoomsOverlapIsNearness | Program.cs:138-144 | Two rooms overlap, margin included, exactly when some cell of one is within `buffer` chessboard steps of some cell of the other |
| ScatterMap.SampleRoom | Program.cs:110-117 | A sampled room is 12–13 by 10–11 and at least 3 cells from every edge; the far edge keeps 4 cells unless the origin range is empty |
| ScatterMap.AttemptsProperties | Program.cs:105-135 | The attempt loop only appends, keeps rooms pairwise apart and in bounds, never exceeds the target, and stops before 500 attempts only at the target |
| ScatterMap.GeneratedRoomsProperties | Program.cs:96-136 | `GenerateRooms` accepts under 20 rooms, pairwise apart and in bounds, consuming at most 2001 draws |
| ScatterMap.SampledRoomsHaveNoPillars | Program.cs:163-166 | No room the sampler draws is large enough for pillars |
| ScatterMap.InAnyInteriorSnoc | Program.cs:132-133 | Adding a room adds exactly its interior to the carved cells |
| ScatterMap.PillarsInside | Program.cs:169-193 | In a room large enough for pillars, every pillar stands on the interior, never on the wall ring |
| ScatterMap.CorridorTile | Program.cs:247-257 | A stamped cell becomes `Floor`, `Water` or `Grass` |
| ScatterMap.AlcoveOf | Program.cs:304-340 | An alcove is on the room's wall ring, at least 3 cells from the corner it starts from |
| ScatterMap.Alcoves | Program.cs:291-302 | Every opened cell lies on some room's ring; the cursor never moves back |
| ScatterMap.AlcovesStep | Program.cs:294-301 | One room further: a 60 % roll, then two draws for its alcove |
| ScatterMap.ChainLinks | Program.cs:197-209 | Each room is linked to the next, and with more than two rooms the last to the first; none with fewer than two |
| ScatterMap.ChainLinksGrow | Program.cs:200-203 | The chain grows by one link per room |
| ScatterMap.RingsAreProtected | Program.cs:243 | Once rooms are carved, the cells corridors must spare are exactly the rooms' wall rings |
| Scatter.Program.constructor | Program.cs:60-61 | A map of the given size with no rooms and the generator at its first draw |
| Scatter.Program.FillWalls | Program.cs:78-84 | Every cell becomes `Wall` |
| Scatter.Program.CarveInterior | Program.cs:149-160 | Exactly the strict interior of the room becomes `Floor` |
| Scatter.Program.AddPillarsToRoom | Program.cs:169-193 | Exactly the chosen corners (and the centre of a very large room) become `Pillar`; four draws |
| Scatter.Program.CreateRoom | Program.cs:146-167 | The interior becomes `Floor`; pillars only in a room wider than 15 and taller than 10 |
| Scatter.Program.OverlapsExisting | Program.cs:119-128 | True exactly when the new room overlaps some kept room |
| Scatter.Program.TryRoom | Program.cs:107-134 | Four draws give the room; it is kept and carved exactly when it overlaps no kept room |
| Scatter.Program.GenerateRooms | Program.cs:96-136 | The rooms and the cursor are `GeneratedRooms`; exactly the rooms' interiors become `Floor` |
| Scatter.Program.IsInRoom | Program.cs:504-512 | True exactly when some room contains the cell |
| Scatter.Program.GetCorridorPath | Program.cs:265-289 | The path is `LPath` of the two ends |
| Scatter.Program.StampCell | Program.cs:237-258 | An interior cell that is not a pillar takes `CorridorTile` of the next roll and consumes exactly that one draw; any other cell consumes none and nothing changes |
| Scatter.Program.CreateThickCorridor | Program.cs:224-263 | Every interior cell the brush sweeps along the path and that is not a pillar holds corridor terrain; no other cell changes |
| Scatter.Program.ConnectRoomsWithThickCorridors | Program.cs:195-222 | Nothing with fewer than two rooms; otherwise the chain links and at most two extra links between distinct rooms are carved, and every change is corridor terrain on an unprotected interior cell |
| Scatter.Program.AddAlcoveToRoom | Program.cs:304-340 | Exactly the cell `AlcoveOf` gives becomes `Floor`; two draws |
| Scatter.Program.AddArchitecturalDetails | Program.cs:291-302 | The cells opened and the cursor are those of `Alcoves` |
| Scatter.Program.FirstWalkable | Program.cs:351-358 | The first walkable non-border cell in column-major order; none found exactly when no such cell is walkable |
| Scatter.Program.FindValidPlayerPosition | Program.cs:342-364 | The first room's centre; else the first walkable cell of the scan; else the map's centre, which alone becomes `Floor` |
| Scatter.Program.TryMovePlayer | Program.cs:404-425 | The player moves exactly when the target cell is on the map and walkable |
| Scatter.Program.GenerateStyleMap | Program.cs:75-94 | The rooms are pairwise apart and in bounds; the border is `Wall`; interiors hold corridor terrain; rings are `Wall` except at alcoves; no pillar anywhere; every chain and extra link is carved |

## Left out

- **Display and input:** console output (`PrintMap` in BSPDungeonGenerator.cs; `RenderMap` and `RenderTerrain` in Program.cs), the game loop and key handling (`GameLoop`), and `Main`. `GetMap` is a plain accessor.
- **GoRogue:** its `Map`, `GameObject`, entity layers and `Distance` are reduced to one terrain value per cell and a player position. `EntityFactory` and the add/remove-entity calls of `TryMovePlayer` are not modelled.
- **Seeding:** how a seed (or the clock, for `new Random()`) selects the stream of draws, and the platform's generator algorithm. The stream is a parameter.
- **Floating point:** `NextDouble()` is a whole-percentage roll. The model keeps every outcome of each comparison reachable, with its probability, up to the rounding of the double constants. It does not model the double values at which the rounding matters: `0.05 + 0.10` evaluates just above 0.15, so in the source a `NextDouble()` result in that sliver is `Grass`, while the percentage 15 is `Floor`.
- **Exceptions as preconditions:** where the source would throw, the model requires the input that avoids it.
  - A reversed draw range, whose upper bound is below its lower one: `Placeable`, `RoomsFit`, and the minimum room size of `AddAlcoveToRoom`. An empty range (equal bounds) does not throw; `Random.Next` returns the lower bound, and the model keeps that case.
  - `GridConfig`, for `Generate`, excludes only grids on which the source throws, except for the two cases on the `BspTree.GridConfig` lines below. A negative side is excluded because allocating the grid throws.
    - A tight grid is `minRoomSize + 1` on one side and more than `minRoomSize` on the other. There the source throws in `CreateRooms` for every stream of draws (`BspTree.TightGridNotPlaceable`).
    - Grids with a side of `minRoomSize` or less are otherwise included; there `CreateRooms` places no room.
  - A division by zero in the axis test: `AxisDefined`.
  - An out-of-range array index: `OnMap`, and `width, height >= 1` for `FindValidPlayerPosition`.
- **BspTree.GridConfig:** it also excludes a grid with one side zero and the other positive, even when `maxDepth <= 0`. For such a grid `Split` returns before the axis test, so the source does not throw.
- **BspTree.GridConfig:** it requires `minRoomSize >= 1`. With a smaller minimum, `Split` can draw a zero-length child, and the axis test then divides by zero for some streams of draws. Which streams do so is not modelled.
- **Bsp.Generator.Split:** requires a fresh leaf node, which is how `Generate` calls it.
- **Integer width:** C#'s `int` is 32 bits wide; the model's integers are unbounded. The values both generators compute are coordinates and extents inside the grid, or such a value plus one, so they do not wrap for any grid whose sides fit in an `int`. The one sum with an unbounded operand is `TryMovePlayer`'s `player + (dx, dy)`. With the player on the map, a wrapped sum is negative, so the move is refused exactly as the model refuses the unwrapped, off-map sum.
- **Initial terrain:** the constructors' starting terrain for the scatter map is not modelled (GoRogue's blank map); `GenerateStyleMap` overwrites every cell first.
- **Scatter.Program.CreateThickCorridor:** states that each swept cell holds corridor terrain and that the cursor does not move back. It does not state which of `Floor`, `Water` and `Grass` each cell gets, or the exact number of draws. `StampCell` states both for one cell: the roll's terrain, and one draw exactly when the cell is stamped.
- **Scatter.Program.ConnectRoomsWithThickCorridors:** the extra links are stated only to join distinct rooms, not tied to the draws that pick them. The links are a ghost result.
- **Scatter.Program.GenerateStyleMap:** the draw position where the alcove pass starts is a ghost result, not a closed formula. The terrain each corridor cell gets, and whether corridor cells outside rooms connect the rooms, are not stated.
- **Scatter.Program.FindValidPlayerPosition:** the centre of the first room may hold `Water`, because a corridor roll can turn it into water; the model does not exclude that.
- **Helper methods:** `ChooseCut`, `SplitHalves`, `CreateRoomsBelow`, `ConnectBelow`, `StampColumn`, `ExtraLink`, `DetailRoom` and the like split one source method so that each proof stays small. They carry the parts of that method's contract.
