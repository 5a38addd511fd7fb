# Procedural dungeon generator: a Dafny model

This project models the generation core of the `ADungeonSpace` actor (an Unreal Engine
procedural dungeon). The core has five steps:

1. A square dungeon of `DungeonSize` world units is split recursively by binary space
   partitioning (`SplitSpace`). Nodes are addressed heap-style: the root is 0 and the
   children of node i are 2i+1 and 2i+2. Recursion stops at `maxElements =
   2^(RoomSplitIterations+1) - 1`, or when a space is too small to split.
2. Every odd node registers a corridor in a table keyed by its index. Its even sibling
   closes that corridor with an end point two tiles across the split.
3. The rooms are the nodes on the last split level or with a missing child
   (`SelectDungeonRooms`). Each room is shrunk by a random number of whole tiles
   (`ShrinkSpaceToRoom`).
4. `FillTileGrid` fills a row-major array of `(DungeonSize / TileSize)^2` tiles in three
   passes:
   - rooms become ROOM tiles with a floor;
   - empty tiles on a corridor's path become CORRIDOR tiles with a floor and two side
     walls;
   - every room gets walls on its bottom and top rows. Its left and right columns get
     walls wherever `CheckIfWallShouldBePlaced` says so. For a room whose left and right
     columns differ, that rule leaves the room open exactly once towards each corridor
     its side cells face. Rooms one tile wide or tall are a different story (see
     Findings).
5. `BeginPlay` generates the dungeon and prints the tree's keys in order (`PrintTree`).

## How the model is built

- `FMath::RandRange` is an oracle. Every random draw reads the next value of a choice
  sequence (`Oracle.Draws`), so a property proved for all sequences holds for every run.
  `Oracle.RandRangeOnto`, `Rooms.ShrinkAxisOnto` and `Dungeon.RootDataOnto` show that the
  oracle does not constrain a draw beyond its range.
- C++ integer division rounds toward zero. It is modelled as `DungeonTypes.TruncDiv`.
- `MinRoomRatio` is a fraction `ratioNum / ratioDen`.
- Pointers become values:
  - an `FSpace*` tree is a `Space` datatype;
  - the `TMap<int, FCorridor*>` is a `map<int, Corridor>`, threaded through
    `SplitSpace` together with the random stream (`GenState`);
  - the in-place passes over `TileArray` are pure functions from grid to grid.
- The model takes insertion order for iterating the `TMap`. SplitSpace inserts the keys
  in pre-order, and `Dungeon.TableOrder` gives the corridor loop that order.
- The wall pass takes its rules as a parameter (`Walls.WallRule`), with two parts:
  - the neighbour rule: `FlatIndex` is the code as written, `SameRow` the corrected
    rule;
  - the side tests: `ElseIf` is the code as written, `EachSide` the corrected tests.

  `Walls.AsWritten` and `Walls.Corrected` name the two combinations (see Findings).
  Every lemma about the pipeline holds for every rule.

Modules, in dependency order:

- `DungeonTypes` (types.dfy): enums, structs, configuration, C++ division.
- `Oracle` (oracle.dfy): the random draws.
- `Partition`, `PartitionProofs`, `PartitionTree` and `PartitionCorridors` (partition*.dfy,
  corridors.dfy): `SplitSpace`, its tree and its corridor table.
- `Rooms` (rooms.dfy): selection and shrinking.
- `TreeText` (print_tree.dfy): `PrintTree`.
- `TileGrid` (tile_grid.dfy): the room and corridor passes.
- `Walls` (walls.dfy): the wall pass.
- `Dungeon` (dungeon.dfy): construction, `GenerateDungeon`, `FillTileGrid` and `BeginPlay`.

Behaviour of the code that a reader may not expect; the model follows the code:

- **Too-small spaces.** A space too small to split returns the pointer it was given
  (always null), not a leaf node (DungeonSpace.cpp:105-106).
- **Random horizontal split.** When both axes can be split and the draw picks a
  horizontal split, the offset is `RandRange(maxYTiles, maxYTiles)`, so it is always
  `maxYTiles` (DungeonSpace.cpp:184). `Partition.NextSplit` states this.
- **Corridor end points.** A corridor's end is not axis-aligned with its start. A
  corridor across a vertical split ends two tiles below its start; one across a
  horizontal split ends two tiles right of its start (`PartitionCorridors.Closed`). The
  corridor loop walks only the start's row or column.
- **Odd shrink draws.** An odd number of removed tiles moves the origin by `-1 / 2 == 0`
  tiles, not by half a tile (DungeonSpace.cpp:525-527).
- **Walls.** Walls are placed per room, on its border rows and columns, by
  `CheckIfWallShouldBePlaced`. They are not derived from all four neighbours of every
  tile. A room whose left and right columns differ is left open on its sides exactly
  once towards each corridor it faces there (`Walls.WallRoomOpensOnce`).
- **Corridor tiles.** Each corridor tile gets a floor and two side walls
  (DungeonSpace.cpp:287-291, 329-333).
- **Negative iteration count.** A negative `RoomSplitIterations` is not rejected.
  `pow(2, n+1) - 1` truncates to 0, and the dungeon is empty (`Dungeon.GenerateNothing`).
- **Header field names.** The header declares `FTile.objects` and an `FCorridor` without
  `id`, `fromSpaceID` and `toSpaceID`. The .cpp uses `objectsToSpawn`, `corridorID` and
  those corridor fields. The model follows the .cpp.

## Model

| member | source | states |
|---|---|---|
| DungeonTypes.InitialGrid | Source/ProceduralGenDungeon/Private/DungeonSpace.cpp:12-13 | The constructor's array has rows*rows tiles, each EMPTY at (0,0) with no objects. |
| DungeonTypes.TruncDivRoundsTowardZero | Source/ProceduralGenDungeon/Private/DungeonSpace.cpp:253 | The division used for tile indices rounds toward zero: the remainder has the sign of the dividend and is smaller than the divisor. |
| DungeonTypes.SeparationOf | Source/ProceduralGenDungeon/Private/DungeonSpace.cpp:87 | Casting the draw of RandRange(0, 1) to ESeperation gives the enumerator whose value is the draw. |
| DungeonTypes.SeparationCodeRoundTrip | Source/ProceduralGenDungeon/Public/DungeonSpace.h:10-13 | VERTICAL and HORIZONTAL have values 0 and 1, and casting the value back gives the enumerator. |
| DungeonTypes.DefaultConfigIsValid | Source/ProceduralGenDungeon/Public/DungeonSpace.h:174-188 | The defaults (36000, 5, 600, 2, 0.4) meet the documented constraints: the size is a multiple of the tile size and the ratio lies in 0..1. |
| Oracle.RandRange | Source/ProceduralGenDungeon/Private/DungeonSpace.cpp:87-88 | A draw lies in the inclusive range [lo, hi] and consumes one value of the stream. |
| Oracle.RandRangeOnto | Source/ProceduralGenDungeon/Private/DungeonSpace.cpp:182 | Every value of the range is drawn by some stream. |
| Partition.AdjustChild | Source/ProceduralGenDungeon/Private/DungeonSpace.cpp:109-156 | An odd child takes the left or top part of the parent and registers a new corridor under its index, with the next id. An even child takes the other part and closes its sibling's corridor, if there is one, changing no other entry. |
| Partition.NextSplit | Source/ProceduralGenDungeon/Private/DungeonSpace.cpp:168-199 | There is no split exactly when neither axis is valid. A chosen axis is valid, and its offset lies within that axis's bounds. A horizontal split chosen while both axes are valid always takes maxYTiles. |
| Partition.SplitStep | Source/ProceduralGenDungeon/Private/DungeonSpace.cpp:101-199 | A created node is keyed by its index and gets the rectangle its parity selects. Its children receive the node's rectangle. |
| Partition.SplitTree | Source/ProceduralGenDungeon/Private/DungeonSpace.cpp:97-107 | Past the index bound, or with a parent too small to split, the given pointer and state come back unchanged. Otherwise a node is created. |
| Partition.SplitTreeHeap | Source/ProceduralGenDungeon/Private/DungeonSpace.cpp:202-204 | Every node is keyed by its heap address, and every key is below maxElements. |
| Partition.SplitSpace | Source/ProceduralGenDungeon/Private/DungeonSpace.cpp:95-207 | SplitSpace returns `current` untouched when it does not proceed. Otherwise it returns a node keyed by the index with its parity's rectangle, and the subtree is heap-keyed below maxElements. |
| PartitionProofs.IndexBoundIsDepthBound | Source/ProceduralGenDungeon/Private/DungeonSpace.cpp:81 | A node index is below 2^(n+1)-1 exactly when its depth is at most n. |
| PartitionProofs.HalvesTile | Source/ProceduralGenDungeon/Private/DungeonSpace.cpp:111-144 | The odd and even halves of a split that fits its parent cover the parent without overlap. |
| PartitionProofs.TilesPartition | Source/ProceduralGenDungeon/Private/DungeonSpace.cpp:111-144 | Two halves that tile a rectangle contain exactly its points, and no point is in both. |
| PartitionProofs.CorridorGeometry | Source/ProceduralGenDungeon/Private/DungeonSpace.cpp:125-126 | A corridor across a vertical split ends two tiles below its start and to its right. Across a horizontal split it ends two tiles right of its start and below it. |
| PartitionProofs.NextSplitFits | Source/ProceduralGenDungeon/Private/DungeonSpace.cpp:169-199 | With a ratio in 0..1, a chosen split fits inside the node's rectangle. |
| PartitionTree.StepShape | Source/ProceduralGenDungeon/Private/DungeonSpace.cpp:109-199 | One step keeps the data well placed. A split node's two halves tile the node, and alignment to the tile grid passes to the children. |
| PartitionTree.SplitShape | Source/ProceduralGenDungeon/Private/DungeonSpace.cpp:95-207 | The built tree is partitioned (children tile their parent) and non-negative. It is tile-aligned when the root is. With an odd index bound, every node has two children or none. |
| PartitionCorridors.OddKeysAreOddNodeKeys | Source/ProceduralGenDungeon/Private/DungeonSpace.cpp:111 | The nodes that register a corridor are exactly the odd-keyed nodes of the tree. |
| PartitionCorridors.RegisteredIds | Source/ProceduralGenDungeon/Private/DungeonSpace.cpp:129-131 | Registering or closing a corridor keeps the ids 1..n with none repeated. |
| PartitionCorridors.PairClosed | Source/ProceduralGenDungeon/Private/DungeonSpace.cpp:147-153 | A corridor opened on the odd half and closed by the even half runs from the odd node to its sibling, two tiles across the split. |
| PartitionCorridors.SplitCorridors | Source/ProceduralGenDungeon/Private/DungeonSpace.cpp:124-153 | For a whole dungeon the table has one corridor per odd node, keyed by it. The ids are 1..n, handed out in the pre-order in which SplitSpace reaches the odd nodes. Every corridor is closed by the node's even sibling, which is below the index bound. |
| PartitionCorridors.SplitTreeIdsKept | Source/ProceduralGenDungeon/Private/DungeonSpace.cpp:146-153 | A subtree changes no id outside itself: closing a sibling's corridor keeps its id. |
| PartitionCorridors.SplitTreeOrder | Source/ProceduralGenDungeon/Private/DungeonSpace.cpp:124-153 | A subtree started on a table without its keys adds one entry per odd node. The j-th odd node in pre-order gets as id the starting table's size plus j + 1. |
| Rooms.SelectDungeonRooms | Source/ProceduralGenDungeon/Private/DungeonSpace.cpp:220-232 | A null tree yields no rooms. A node that passes the room test is appended before its subtrees' rooms. |
| Rooms.SelectIsPreOrderFilter | Source/ProceduralGenDungeon/Private/DungeonSpace.cpp:220-232 | The rooms are, in order, the pre-order visits that pass the room test. |
| Rooms.SelectIff | Source/ProceduralGenDungeon/Private/DungeonSpace.cpp:225 | A visited node of a heap-keyed tree is selected exactly when it is on the last level or misses a child. |
| Rooms.RoomsAreLeaves | Source/ProceduralGenDungeon/Private/DungeonSpace.cpp:220-232 | On a tree SplitSpace builds, the selected rooms are exactly the leaves, left to right. |
| Rooms.ShrinkAxis | Source/ProceduralGenDungeon/Private/DungeonSpace.cpp:518-528 | With at most one spare tile nothing changes and nothing is drawn. Otherwise 1..extra tiles are removed. An even count recentres the axis exactly; an odd count keeps the origin. |
| Rooms.ShrinkAxisInside | Source/ProceduralGenDungeon/Private/DungeonSpace.cpp:530-540 | The shrunk axis lies inside the original. A shrunk axis keeps at least MinTilesPerRoom whole tiles, and at least half of them. |
| Rooms.ShrinkAxisOnto | Source/ProceduralGenDungeon/Private/DungeonSpace.cpp:523 | Every admissible number of removed tiles is chosen by some stream. |
| Rooms.ShrinkSpaceToRoom | Source/ProceduralGenDungeon/Private/DungeonSpace.cpp:514-542 | The room stays inside its space and keeps its key. A shrunk side keeps at least MinTilesPerRoom tiles. An axis with at most one spare tile is unchanged. |
| Rooms.ShrinkRooms | Source/ProceduralGenDungeon/Private/DungeonSpace.cpp:240-242 | Every room is shrunk inside itself, in order, keeping its key. |
| TreeText.FromIntRoundTrip | Source/ProceduralGenDungeon/Private/DungeonSpace.cpp:214 | Reading back the decimal form of a key gives the key. |
| TreeText.InOrderKeysAreNodeKeys | Source/ProceduralGenDungeon/Private/DungeonSpace.cpp:209-218 | The in-order listing holds exactly the tree's keys. |
| TreeText.PrintTree | Source/ProceduralGenDungeon/Private/DungeonSpace.cpp:209-218 | PrintTree only appends to the string it is given. |
| TreeText.PrintTreeRenders | Source/ProceduralGenDungeon/Private/DungeonSpace.cpp:211-216 | PrintTree appends, for each key in order, its decimal form and a space. |
| TreeText.PrintTreeRoundTrip | Source/ProceduralGenDungeon/Private/DungeonSpace.cpp:209-218 | Splitting the printed text at spaces and parsing each word gives the in-order keys. |
| TileGrid.AscendingMembers | Source/ProceduralGenDungeon/Private/DungeonSpace.cpp:249-251 | The ascending loop visits exactly the values from its start up to below its limit that are whole steps from the start. |
| TileGrid.DescendingMembers | Source/ProceduralGenDungeon/Private/DungeonSpace.cpp:318 | The descending loop visits exactly the values from its start down to its limit that are whole steps from the start. |
| TileGrid.RowMajorMembers | Source/ProceduralGenDungeon/Private/DungeonSpace.cpp:249-251 | The nested loop visits exactly the points whose row and column both loops visit. |
| TileGrid.PaintRoomCellsSpec | Source/ProceduralGenDungeon/Private/DungeonSpace.cpp:249-262 | One room's loop paints exactly the valid tiles its cells map to, and no other tile changes. |
| TileGrid.PaintRoomCellsOnce | Source/ProceduralGenDungeon/Private/DungeonSpace.cpp:253-259 | When no two cells share a tile, each painted tile gains exactly one floor and records its cell's corner. |
| TileGrid.PaintRoomsSpec | Source/ProceduralGenDungeon/Private/DungeonSpace.cpp:240-265 | The room pass makes a tile ROOM, with floors appended, exactly when some room cell maps to it. Every other tile is unchanged. |
| TileGrid.PaintRoomsConsistent | Source/ProceduralGenDungeon/Private/DungeonSpace.cpp:256-257 | After the room pass, a tile still has objects exactly when it is not EMPTY. |
| TileGrid.CorridorObjects | Source/ProceduralGenDungeon/Private/DungeonSpace.cpp:282-291 | A corridor tile gets a floor followed by two walls. |
| TileGrid.PaintCorridorCellsSpec | Source/ProceduralGenDungeon/Private/DungeonSpace.cpp:272-354 | One corridor's loop turns exactly the empty tiles on its path into its own CORRIDOR tiles. Tiles with objects and tiles off its path are untouched. |
| TileGrid.FirstCover | Source/ProceduralGenDungeon/Private/DungeonSpace.cpp:268 | FirstCover gives the first corridor, in visiting order, whose path reaches the tile. No earlier corridor's path reaches it. |
| TileGrid.PaintCorridorsSpec | Source/ProceduralGenDungeon/Private/DungeonSpace.cpp:267-355 | The corridor pass never touches a tile that has objects. An empty tile becomes a tile of the first corridor whose path reaches it, and stays unchanged when no path does. |
| TileGrid.PaintCorridorsConsistent | Source/ProceduralGenDungeon/Private/DungeonSpace.cpp:279 | The corridor pass changes no non-EMPTY tile, and it keeps "objects exactly on non-EMPTY tiles". |
| Walls.CheckIfWallShouldBePlaced | Source/ProceduralGenDungeon/Private/DungeonSpace.cpp:544-572 | A wall is placed exactly when the neighbour is off the array, EMPTY, or a corridor already connected. The list gains the neighbour's corridor id exactly when the neighbour is a corridor not yet on it, and is unchanged otherwise; it never repeats an id. |
| Walls.WallRoomSpec | Source/ProceduralGenDungeon/Private/DungeonSpace.cpp:358-401 | One room's wall loop only appends walls, and only to its own tiles. No tile changes type, corridor id or corner. |
| Walls.WallCellsOpenings | Source/ProceduralGenDungeon/Private/DungeonSpace.cpp:366-393 | During the loop, the connection list only grows, never repeats, and names only corridor tiles of the grid. Every id added is one some cell faces from its side column. |
| Walls.WallRoomOpenings | Source/ProceduralGenDungeon/Private/DungeonSpace.cpp:366-393 | A room's list of openings repeats no corridor. It names only corridors of the grid that one of its side cells faces. |
| Walls.WallCellsOpensOnce | Source/ProceduralGenDungeon/Private/DungeonSpace.cpp:366-393 | For a room whose columns differ, with cells on distinct tiles: corridor c ends on the list exactly when it was on it or some cell faces it. If it was not on it, the first cell facing c is left open on its side, and every other cell facing c is walled there. |
| Walls.WallRoomOpensOnce | Source/ProceduralGenDungeon/Private/DungeonSpace.cpp:353-393 | A room whose columns differ opens onto each corridor it faces exactly once. Its list names c exactly when a side cell faces c. The first such cell has no wall on that side, and every other cell facing c does. |
| Walls.WallRoomWalls | Source/ProceduralGenDungeon/Private/DungeonSpace.cpp:375-393 | Every room cell carries a bottom wall on the bottom row. It carries a top wall on the top row, unless ElseIf skips it because that row is also the bottom row. The left column is walled wherever its neighbour is off the array or EMPTY. The right column is too, where the right test runs: the columns differ, or EachSide is used. |
| Walls.WallRoomConsistent | Source/ProceduralGenDungeon/Private/DungeonSpace.cpp:373-393 | If no tile of the room is EMPTY, the wall loop keeps objects exactly on non-EMPTY tiles. |
| Walls.WallRoomsSpec | Source/ProceduralGenDungeon/Private/DungeonSpace.cpp:358-401 | The wall pass over all rooms appends walls to rooms' tiles only, and changes nothing else. |
| Walls.WallRoomsOpenings | Source/ProceduralGenDungeon/Private/DungeonSpace.cpp:358-401 | Every room's openings are distinct corridors of the grid. Each is faced by one of that room's side cells in the walled grid. The wall pass keeps the grid's corridor ids. |
| Walls.WallRoomsConsistent | Source/ProceduralGenDungeon/Private/DungeonSpace.cpp:358-401 | If no room tile is EMPTY, the wall pass keeps objects exactly on non-EMPTY tiles. |
| Walls.FlatIndexOpensEdge | Source/ProceduralGenDungeon/Private/DungeonSpace.cpp:384 | As written, a room on the dungeon's left edge with a room at the end of the row below gets no left wall. With the same-row neighbour it gets one. |
| Walls.SameRowWallsEdges | Source/ProceduralGenDungeon/Private/DungeonSpace.cpp:384-393 | With the same-row neighbour, a room cell on the dungeon's left edge always gets a left wall. A cell on its right edge gets a right wall wherever the right test runs: in a room wider than one tile, or always with EachSide. |
| Walls.ElseIfLeavesSidesOpen | Source/ProceduralGenDungeon/Private/DungeonSpace.cpp:375-392 | As written, a one-tile room with nothing around it gets only a bottom and a left wall. With EachSide it gets all four walls. |
| Walls.ElseIfOpensTwice | Source/ProceduralGenDungeon/Private/DungeonSpace.cpp:384-392 | As written, a room one tile wide with EMPTY to its left and a corridor to its right gets no right wall and records no corridor. With EachSide it records the corridor, opens onto it once, and walls the second tile. |
| Walls.EachSideWallsAllSides | Source/ProceduralGenDungeon/Private/DungeonSpace.cpp:375-392 | With EachSide, every room cell is walled on each room side it lies on wherever that side faces nothing: bottom row, top row, and left and right columns towards a tile off the array or EMPTY. This holds also in rooms one tile wide or tall. |
| Dungeon.Construct | Source/ProceduralGenDungeon/Private/DungeonSpace.cpp:12-13 | The tile array has (DungeonSize / TileSize)^2 tiles, all EMPTY with no objects. |
| Dungeon.RootData | Source/ProceduralGenDungeon/Private/DungeonSpace.cpp:82-88 | The root is the whole dungeon at (0, 0) with key 0. Its split offset lies in [MinTilesPerRoom, rows - MinTilesPerRoom], and it uses two draws. |
| Dungeon.RootDataOnto | Source/ProceduralGenDungeon/Private/DungeonSpace.cpp:87-88 | Every separation and every admissible offset is the root's for some stream. |
| Dungeon.TableOrder | Source/ProceduralGenDungeon/Private/DungeonSpace.cpp:268 | The corridor loop visits exactly the table's keys that belong to the tree. |
| Dungeon.TableOrderDistinct | Source/ProceduralGenDungeon/Private/DungeonSpace.cpp:131 | The visiting order names no key twice. |
| Dungeon.TableOrderIsOddOrder | Source/ProceduralGenDungeon/Private/DungeonSpace.cpp:268 | On a table keyed by exactly the odd nodes, the visiting order is the pre-order of the odd nodes. |
| Dungeon.FillTileGrid | Source/ProceduralGenDungeon/Private/DungeonSpace.cpp:234-403 | The array keeps its size, and every room is shrunk inside itself with its key. |
| Dungeon.GenerateDungeon | Source/ProceduralGenDungeon/Private/DungeonSpace.cpp:79-93 | The tree is null or heap-keyed below 2^(n+1)-1. The tile array keeps its size, and each room has its openings. |
| Dungeon.BeginPlay | Source/ProceduralGenDungeon/Private/DungeonSpace.cpp:36-45 | The printed text reads back as the generated tree's keys in order. |
| Dungeon.RootAligned | Source/ProceduralGenDungeon/Private/DungeonSpace.cpp:83-88 | For a valid configuration, the root rectangle is non-negative and aligned to the tiles. |
| Dungeon.GenerateTree | Source/ProceduralGenDungeon/Private/DungeonSpace.cpp:79-90 | The generated tree partitions the dungeon, is non-negative and tile-aligned, and has the whole dungeon at its root. With n >= 0, every node has two children or none, and the rooms are exactly the leaves. |
| Dungeon.GenerateNothing | Source/ProceduralGenDungeon/Private/DungeonSpace.cpp:81 | A negative iteration count gives no tree, no rooms and no corridors. |
| Dungeon.GenerateSingleRoom | Source/ProceduralGenDungeon/Private/DungeonSpace.cpp:81-90 | With zero iterations there are no corridors and at most one room: the root, which is a leaf, shrunk inside the whole dungeon. |
| Dungeon.GenerateCorridors | Source/ProceduralGenDungeon/Private/DungeonSpace.cpp:89-91 | The generated table has one closed corridor per odd node. The corridor loop visits each entry exactly once, in creation order, and the j-th corridor visited has id j + 1. |
| Dungeon.TilePasses | Source/ProceduralGenDungeon/Private/DungeonSpace.cpp:240-401 | After the three passes, a tile is ROOM exactly when a room covers it, and CORRIDOR exactly when no room covers it and a corridor's path does. A corridor tile carries that corridor's id, and objects sit exactly on non-EMPTY tiles. |
| Dungeon.FillTileAt | Source/ProceduralGenDungeon/Private/DungeonSpace.cpp:234-403 | On a fresh array, each tile ends as TileOutcome describes, and a corridor tile's id is one the table handed out. |
| Dungeon.FillTileGridSpec | Source/ProceduralGenDungeon/Private/DungeonSpace.cpp:234-403 | On a fresh array: ROOM exactly on the shrunk rooms' tiles, and CORRIDOR exactly on other tiles a corridor reaches, with the first such corridor's id. Every other tile is EMPTY. Each room's openings are distinct ids of the table, each faced by one of the room's side cells. |
| Dungeon.GenerateTiles | Source/ProceduralGenDungeon/Private/DungeonSpace.cpp:79-91 | FillTileGridSpec's statement for a whole generated dungeon on the constructor's array, with openings faced in the final tiles. |

## Left out

- **Rendering:** `ConstructDungeonGrid`, `CreateCellGrid`, the minimap, the mesh components
  and the on-screen message. They build engine geometry from the tile array and decide
  nothing about it.
- **Engine lifecycle:** `Tick` and `Super::BeginPlay` are engine calls with no effect on
  generation.
- **`FMath::RandRange`:** an oracle over a choice sequence. Its distribution is engine
  code; the model states only the range of each draw, and every draw is reachable.
- **`MinRoomRatio`:** the float is an exact fraction `ratioNum / ratioDen`. Float rounding
  of `float(dim) * MinRoomRatio` is not modelled.
- **Integer width:** `int` is unbounded. The 32-bit overflow of `pow(2, n+1) - 1`, of the
  tile arithmetic and of `rows * rows` for huge configurations is not modelled.
- **Constructor timing:** the constructor sizes `TileArray` from the field defaults
  before the editor applies its values. The model passes the grid to `GenerateDungeon`
  explicitly, and `Dungeon.Construct` builds it from a configuration.
- **Shrunk rooms and the tree:** `ShrinkSpaceToRoom` edits the room nodes inside the
  tree. The model returns the shrunk rooms separately (`Dungeon.rooms`) and keeps the tree
  as it was split. Nothing after the shrink reads the tree except `PrintTree`, which reads
  only keys.
- **Unset node fields:** the `seperation` and `tilesSeperated` of created nodes are never
  set. The model stores `Vertical` and 0 there.
- **Memory:** node and corridor allocation, and the leak of the `temp` node when a space
  is too small, are not modelled.
- **Commented-out code:** the corridor end walls in `FillTileGrid`
  (DungeonSpace.cpp:301-311, 343-353) are not modelled.
- **`TMap` iteration order:** the model takes insertion order, which for this table is
  the pre-order of the odd nodes. The engine does not document this order.
- **ProceduralGenDungeonGameModeBase, BaseCharacter and SpawnPlatform:** these are not
  part of this model.
- Walls.WallRoomWalls: states the walls a cell is sure to carry, judged by the grid
  before the wall pass. It does not say which side walls are omitted towards corridors;
  Walls.WallRoomOpensOnce covers that.
- Walls.WallRoomOpensOnce: assumes a room whose left and right columns differ, whose
  cells map to distinct tiles, and whose tiles carry no side walls yet. A one-tile-wide
  room is the subject of the second finding. That a generated dungeon meets the other
  two conditions is not proved here.
- Dungeon.GenerateDungeon: its own contract states the tree shape and the sizes. The
  tile contents are stated by Dungeon.GenerateTiles, and the tree by
  Dungeon.GenerateTree.

## Findings

| source | as written | input that shows it | evidently intended | confidence | as-written member | corrected member |
|---|---|---|---|---|---|---|
| Source/ProceduralGenDungeon/Private/DungeonSpace.cpp:384-389 | The wall loop looks beside a cell at flat index `tileIndex - 1` or `tileIndex + 1`. On the first or last column this is the last tile of the row below or the first tile of the row above, so a room on the dungeon's edge can be left without a wall. | A 2 x 2 array with TileSize 1: a one-tile room at column 0, row 1, and a ROOM tile at index 1 (column 1, row 0). The room looks left at tile 1, sees a room, and gets no left wall. | A neighbour off the row counts as off the array, so the dungeon edge is walled wherever the side test runs (always, together with the second finding's correction). This is what the rule itself does for an index outside the array. | not executed | Walls.FlatIndexOpensEdge | Walls.SameRowWallsEdges |
| Source/ProceduralGenDungeon/Private/DungeonSpace.cpp:375-392 | The top-row test is the `else` of the bottom-row test, and the right-column test is the `else` of the left-column test. A room one tile tall therefore never gets a top wall. In a room one tile wide, the right neighbour is tested only where the left test placed no wall. | A 3 x 3 array with TileSize 1 and a one-tile room in the middle, with nothing around it, gets a bottom wall and a left wall only. A room one tile wide and two tall, EMPTY on its left and corridor 7 on its right, gets no right wall and records no corridor, so it is open to corridor 7 on both tiles (Walls.ElseIfOpensTwice). | Each side of the room is tested on its own, so every side that faces nothing is walled. | not executed | Walls.ElseIfLeavesSidesOpen | Walls.EachSideWallsAllSides |
