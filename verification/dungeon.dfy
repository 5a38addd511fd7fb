/** The actor end to end: the tile array made at construction (DungeonSpace.cpp:12-13),
    GenerateDungeon (DungeonSpace.cpp:79-93) with FillTileGrid (DungeonSpace.cpp:234-403),
    and the tree listing BeginPlay prints (DungeonSpace.cpp:37-45). */
module Dungeon {
  import opened DungeonTypes
  import opened Oracle
  import opened Partition
  import opened PartitionProofs
  import opened PartitionTree
  import opened PartitionCorridors
  import opened Rooms
  import opened TreeText
  import opened TileGrid
  import opened Walls

  /** The generator's state after GenerateDungeon: the space tree, the corridor table,
      the rooms (shrunk by FillTileGrid), the tile array, and for each room the ids of the
      corridors it was left open to. */
  datatype Dungeon = Dungeon(root: Space, corridors: map<int, Corridor>, rooms: seq<Data>,
                             tiles: seq<Tile>, openings: seq<seq<int>>)

  /** Tiles per row and column: DungeonSize / TileSize by C++ division. */
  function Rows(cfg: Config): int
    requires cfg.tileSize > 0
  {
    TruncDiv(cfg.dungeonSize, cfg.tileSize)
  }

  /** The constructor's tile array: rows * rows default tiles. */
  function Construct(cfg: Config): (g: seq<Tile>)
    requires cfg.tileSize > 0
    ensures |g| == Rows(cfg) * Rows(cfg)
    ensures EmptyGrid(g)
  {
    var rows := Rows(cfg);
    InitialGrid(if rows < 0 then -rows else rows)
  }

  /** Every tile is EMPTY with nothing to spawn. */
  predicate EmptyGrid(g: seq<Tile>)
  {
    forall j :: 0 <= j < |g| ==> g[j].tileType == EmptyTile && g[j].objects == []
  }

  /** The root's data (DungeonSpace.cpp:82-88): the whole dungeon, with the separation
      drawn from {0, 1} and the tiles separated drawn between MinTilesPerRoom and the
      tiles per row less MinTilesPerRoom. */
  function RootData(cfg: Config, draws: Draws): (r: (Data, Draws))
    requires cfg.tileSize > 0
    ensures var d := r.0;
            && d.key == 0 && d.left == 0 && d.bottom == 0
            && d.width == cfg.dungeonSize && d.height == cfg.dungeonSize
    ensures var lo, hi := cfg.minTilesPerRoom, Rows(cfg) - cfg.minTilesPerRoom;
            lo <= hi ==> lo <= r.0.tilesSeperated <= hi
    ensures |draws| >= 2 ==> r.1 == draws[2..]
  {
    var (code, d1) := RandRange(0, 1, draws);
    var (ts, d2) := RandRange(cfg.minTilesPerRoom, Rows(cfg) - cfg.minTilesPerRoom, d1);
    (Data(0, cfg.dungeonSize, cfg.dungeonSize, 0, 0, SeparationOf(code), ts), d2)
  }

  /** Every separation and every admissible tile count is some stream's root. */
  lemma RootDataOnto(cfg: Config, sep: Separation, ts: int, rest: Draws)
    requires cfg.tileSize > 0
    requires cfg.minTilesPerRoom <= ts <= Rows(cfg) - cfg.minTilesPerRoom
    ensures RootData(cfg, [SeparationCode(sep), ts - cfg.minTilesPerRoom] + rest)
            == (Data(0, cfg.dungeonSize, cfg.dungeonSize, 0, 0, sep, ts), rest)
  {
    var draws := [SeparationCode(sep), ts - cfg.minTilesPerRoom] + rest;
    assert draws == [SeparationCode(sep) - 0] + ([ts - cfg.minTilesPerRoom] + rest);
    RandRangeOnto(0, 1, SeparationCode(sep), [ts - cfg.minTilesPerRoom] + rest);
    RandRangeOnto(cfg.minTilesPerRoom, Rows(cfg) - cfg.minTilesPerRoom, ts, rest);
    SeparationCodeRoundTrip(sep);
  }

  /** The order the corridor loop visits the table in: the keys in the order they were
      added, which is the pre-order in which SplitSpace reached their nodes. */
  function TableOrder(t: Space, m: map<int, Corridor>): (ks: seq<int>)
    ensures forall n :: 0 <= n < |ks| ==> ks[n] in m
    ensures forall k :: k in ks <==> k in m && k in NodeKeys(t)
    decreases t
  {
    if t.Nil? then []
    else
      (if t.data.key in m then [t.data.key] else [])
      + TableOrder(t.left, m) + TableOrder(t.right, m)
  }

  /** On a heap-keyed tree the order names no key twice. */
  lemma {:induction false} TableOrderDistinct(t: Space, i: int, m: map<int, Corridor>)
    requires i >= 0 && HeapKeyed(t, i)
    ensures DistinctBelow(TableOrder(t, m), i)
    decreases t
  {
    if t.Node? {
      var l, r := TableOrder(t.left, m), TableOrder(t.right, m);
      TableOrderDistinct(t.left, 2 * i + 1, m);
      TableOrderDistinct(t.right, 2 * i + 2, m);
      DistinctCombine(i, l, r);
      if i in m {
        assert TableOrder(t, m) == [i] + l + r;
      } else {
        assert TableOrder(t, m) == l + r;
        DistinctCombineNoRoot(i, l, r);
      }
    }
  }

  lemma DistinctCombineNoRoot(i: int, l: seq<int>, r: seq<int>)
    requires i >= 0 && DistinctBelow(l, 2 * i + 1) && DistinctBelow(r, 2 * i + 2)
    ensures DistinctBelow(l + r, i)
  {
    DistinctCombine(i, l, r);
    var s := [i] + l + r;
    assert l + r == s[1..];
  }

  /** FillTileGrid: shrink each room, paint the rooms, paint the corridors in table order,
      then wall the rooms. Returns the tile array, the shrunk rooms, each room's openings
      and the rest of the stream. */
  function FillTileGrid(rule: WallRule, cfg: Config, grid: seq<Tile>, rooms: seq<Data>,
                        m: map<int, Corridor>, order: seq<int>, draws: Draws)
    : (r: (seq<Tile>, seq<Data>, seq<seq<int>>, Draws))
    requires cfg.tileSize > 0 && forall n :: 0 <= n < |order| ==> order[n] in m
    ensures |r.0| == |grid| && |r.1| == |rooms| && |r.2| == |rooms|
    ensures forall j :: 0 <= j < |rooms| ==> Inside(r.1[j], rooms[j]) && r.1[j].key == rooms[j].key
  {
    var T, rows := cfg.tileSize, Rows(cfg);
    var (shrunk, rest) := ShrinkRooms(rooms, cfg, draws);
    var g1 := PaintRooms(grid, shrunk, T, rows);
    var g2 := PaintCorridors(g1, m, order, 0, T, rows);
    var (g3, opens) := WallRooms(rule, g2, shrunk, T, rows);
    (g3, shrunk, opens, rest)
  }

  /** GenerateDungeon on the actor's tile array. */
  function GenerateDungeon(rule: WallRule, cfg: Config, grid: seq<Tile>,
                           draws: Draws): (r: (Dungeon, Draws))
    requires cfg.tileSize > 0 && cfg.ratioDen > 0
    ensures var t := r.0.root;
            t == Nil || (HeapKeyed(t, 0) && KeysBelow(t, MaxElements(cfg.roomSplitIterations)))
    ensures |r.0.tiles| == |grid| && |r.0.openings| == |r.0.rooms|
  {
    var maxElements := MaxElements(cfg.roomSplitIterations);
    var (pd, d1) := RootData(cfg, draws);
    var (root, st) := SplitSpace(cfg, Nil, 0, maxElements, pd, GenState(map[], d1));
    var rooms := SelectDungeonRooms(root, 0, cfg.roomSplitIterations);
    var order := TableOrder(root, st.corridors);
    var (tiles, shrunk, opens, rest) :=
      FillTileGrid(rule, cfg, grid, rooms, st.corridors, order, st.draws);
    (Dungeon(root, st.corridors, shrunk, tiles, opens), rest)
  }

  /** BeginPlay: generate, then list the tree's keys in order into an empty string. */
  function BeginPlay(rule: WallRule, cfg: Config, grid: seq<Tile>,
                     draws: Draws): (r: (Dungeon, string))
    requires cfg.tileSize > 0 && cfg.ratioDen > 0
    ensures ParseListing(r.1) == InOrderKeys(r.0.root)
  {
    var d := GenerateDungeon(rule, cfg, grid, draws).0;
    PrintTreeRoundTrip(d.root);
    (d, PrintTree("", d.root))
  }

  // ------------------------------------------------------------ the tree

  /** The whole dungeon as the root's rectangle, aligned to the tiles. */
  lemma RootAligned(cfg: Config, draws: Draws)
    requires ValidConfig(cfg)
    ensures var pd := RootData(cfg, draws).0;
            WellPlaced(cfg, 0, pd) && Aligned(pd, cfg.tileSize)
  {
  }

  /** The space tree of a generated dungeon tiles the whole dungeon: each split node's
      children tile it, all rectangles are non-negative and aligned to the tiles, the
      root (when the dungeon is large enough to split) is the whole dungeon, and with a
      non-negative iteration count every node has two children or none and the rooms are
      exactly the leaves, left to right. */
  lemma GenerateTree(rule: WallRule, cfg: Config, grid: seq<Tile>, draws: Draws)
    requires ValidConfig(cfg)
    ensures var (pd, d1) := RootData(cfg, draws);
            var maxElements := MaxElements(cfg.roomSplitIterations);
            var st := GenState(map[], d1);
            var t := SplitSpace(cfg, Nil, 0, maxElements, pd, st).0;
            && t == GenerateDungeon(rule, cfg, grid, draws).0.root
            && Partitioned(t) && NonNegative(t) && AlignedTree(t, cfg.tileSize)
            && (Proceeds(cfg, 0, maxElements, pd) ==>
                  t.data.key == 0 && SameRect(t.data, pd))
            && (cfg.roomSplitIterations >= 0 ==>
                  Full(t) && SelectDungeonRooms(t, 0, cfg.roomSplitIterations) == Leaves(t))
  {
    var (pd, d1) := RootData(cfg, draws);
    var maxElements := MaxElements(cfg.roomSplitIterations);
    var st := GenState(map[], d1);
    var t := SplitSpace(cfg, Nil, 0, maxElements, pd, st).0;
    RootAligned(cfg, draws);
    SplitShape(cfg, 0, maxElements, pd, st);
    assert Placed(0, pd, cfg.tileSize) == pd;
    if cfg.roomSplitIterations >= 0 {
      MaxElementsOdd(cfg.roomSplitIterations);
      if t.Node? {
        RoomsAreLeaves(t, 0, cfg.roomSplitIterations);
      }
    }
  }

  /** With a negative iteration count nothing is split: no tree, no rooms, no corridors. */
  lemma GenerateNothing(rule: WallRule, cfg: Config, grid: seq<Tile>, draws: Draws)
    requires cfg.tileSize > 0 && cfg.ratioDen > 0 && cfg.roomSplitIterations < 0
    ensures var d := GenerateDungeon(rule, cfg, grid, draws).0;
            d.root == Nil && d.rooms == [] && d.corridors == map[]
  {
  }

  /** With no split iterations the index bound is 1: the root, when the dungeon is large
      enough to be a space at all, is the one room (shrunk inside the whole dungeon), and
      there are no corridors. */
  lemma GenerateSingleRoom(rule: WallRule, cfg: Config, grid: seq<Tile>, draws: Draws)
    requires ValidConfig(cfg) && cfg.roomSplitIterations == 0
    ensures var d := GenerateDungeon(rule, cfg, grid, draws).0;
            && d.corridors == map[]
            && (d.root.Nil? ==> d.rooms == [])
            && (d.root.Node? ==>
                  && d.root.left.Nil? && d.root.right.Nil?
                  && |d.rooms| == 1 && d.rooms[0].key == 0
                  && Inside(d.rooms[0], RootData(cfg, draws).0))
  {
    var d := GenerateDungeon(rule, cfg, grid, draws).0;
    var t := d.root;
    assert MaxElements(0) == 1;
    GenerateCorridors(rule, cfg, grid, draws);
    GenerateTree(rule, cfg, grid, draws);
    if t.Node? {
      assert t.left.Nil? && t.right.Nil?;
      assert OddKeys(t) == {};
      assert SelectDungeonRooms(t, 0, 0) == [t.data];
    }
  }

  // ------------------------------------------------------------ the corridors

  /** The corridor table of a generated dungeon has one entry per odd node, keyed by the
      node, with ids 1..n handed out in creation order, each running from that node to
      its even sibling; the corridor loop visits each entry exactly once, in creation
      order, so the j-th corridor it paints has id j + 1. */
  lemma GenerateCorridors(rule: WallRule, cfg: Config, grid: seq<Tile>, draws: Draws)
    requires ValidConfig(cfg) && cfg.roomSplitIterations >= 0
    ensures var d := GenerateDungeon(rule, cfg, grid, draws).0;
            var m := d.corridors;
            var order := TableOrder(d.root, m);
            && m.Keys == OddKeys(d.root)
            && IdsDense(m)
            && (forall k :: k in m ==>
                  k % 2 == 1 && k + 1 < MaxElements(cfg.roomSplitIterations)
                  && Closed(m[k], k, cfg.tileSize))
            && (forall k :: k in order <==> k in m)
            && (forall a, b :: 0 <= a < b < |order| ==> order[a] != order[b])
            && order == OddOrder(d.root)
            && forall j :: 0 <= j < |order| ==> m[order[j]].id == j + 1
  {
    var (pd, d1) := RootData(cfg, draws);
    var maxElements := MaxElements(cfg.roomSplitIterations);
    var r := SplitSpace(cfg, Nil, 0, maxElements, pd, GenState(map[], d1));
    RootAligned(cfg, draws);
    MaxElementsOdd(cfg.roomSplitIterations);
    SplitCorridors(cfg, maxElements, pd, GenState(map[], d1));
    OddKeysAreOddNodeKeys(r.0);
    TableOrderIsOddOrder(r.0, r.1.corridors);
    if r.0.Node? {
      TableOrderDistinct(r.0, 0, r.1.corridors);
    }
  }

  /** On a table keyed by exactly the odd keys, the table order is the pre-order of the
      odd keys. */
  lemma {:induction false} TableOrderIsOddOrder(t: Space, m: map<int, Corridor>)
    requires forall k :: k in NodeKeys(t) ==> (k in m <==> k % 2 == 1)
    ensures TableOrder(t, m) == OddOrder(t)
  {
    if t.Node? {
      TableOrderIsOddOrder(t.left, m);
      TableOrderIsOddOrder(t.right, m);
    }
  }

  // ------------------------------------------------------------ the tiles

  /** The ids the corridor table hands out. */
  function TableIds(m: map<int, Corridor>): set<int>
  {
    set k | k in m :: m[k].id
  }

  lemma IdInTable(m: map<int, Corridor>, k: int)
    requires k in m
    ensures m[k].id in TableIds(m)
  {
  }

  /** What FillTileGrid leaves at tile j, in terms of the rooms, the corridors and the
      visiting order: ROOM exactly on the rooms' tiles, CORRIDOR exactly on the other tiles
      some corridor's loop reaches, carrying the id of the first such corridor, EMPTY
      elsewhere; objects exactly on non-EMPTY tiles. */
  predicate TileOutcome(t: Tile, j: int, rooms: seq<Data>, m: map<int, Corridor>,
                        order: seq<int>, T: int, rows: int)
    requires T > 0 && forall n :: 0 <= n < |order| ==> order[n] in m
  {
    var n := FirstCover(m, order, 0, T, rows, j);
    && (t.tileType == RoomTile <==> j in RoomIndices(rooms, T, rows))
    && (t.tileType == CorridorTile <==> j !in RoomIndices(rooms, T, rows) && n < |order|)
    && (t.tileType == CorridorTile ==> t.corridorID == m[order[n]].id)
    && Consistent(t)
  }

  /** One tile through the three passes: a fresh tile a, after the room pass b, after
      the corridor pass c, after the wall pass e. */
  lemma TilePasses(a: Tile, b: Tile, c: Tile, e: Tile, inRooms: bool, covered: bool, cor: Corridor)
    requires a.tileType == EmptyTile && a.objects == []
    requires if inRooms then PaintedRoom(a, b) else b == a
    requires if b.objects == [] && covered then CorridorTileOf(c, cor) else c == b
    requires OnlyWalls(c, e) && (!inRooms ==> e == c)
    ensures e.tileType == RoomTile <==> inRooms
    ensures e.tileType == CorridorTile <==> !inRooms && covered
    ensures c.tileType == CorridorTile ==> c.corridorID == cor.id
    ensures e.tileType == CorridorTile ==> e.corridorID == cor.id
    ensures Consistent(e)
  {
    if inRooms {
      assert b.objects != [];
      assert |e.objects| >= |c.objects|;
    } else if covered {
      assert |c.objects| == 3;
      assert |e.objects| >= |c.objects|;
    }
  }

  lemma FillTileAt(rule: WallRule, grid: seq<Tile>, shrunk: seq<Data>,
                   m: map<int, Corridor>, order: seq<int>, T: int, rows: int, j: int)
    requires T > 0 && forall n :: 0 <= n < |order| ==> order[n] in m
    requires EmptyGrid(grid) && 0 <= j < |grid|
    ensures var g1 := PaintRooms(grid, shrunk, T, rows);
            var g2 := PaintCorridors(g1, m, order, 0, T, rows);
            var g3 := WallRooms(rule, g2, shrunk, T, rows).0;
            TileOutcome(g3[j], j, shrunk, m, order, T, rows)
            && (g2[j].tileType == CorridorTile ==> g2[j].corridorID in TableIds(m))
  {
    var g1 := PaintRooms(grid, shrunk, T, rows);
    var g2 := PaintCorridors(g1, m, order, 0, T, rows);
    var g3 := WallRooms(rule, g2, shrunk, T, rows).0;
    var n := FirstCover(m, order, 0, T, rows, j);
    var inRooms := j in RoomIndices(shrunk, T, rows);
    var covered := n < |order|;
    var none := Corridor(0, Point(0, 0), Point(0, 0), Vertical, 0, 0);
    var cor := if covered then m[order[n]] else none;
    PaintRoomsAt(grid, shrunk, T, rows, j);
    PaintCorridorsAt(g1, m, order, 0, T, rows, j);
    WallRoomsAt(rule, g2, shrunk, T, rows, j);
    TilePasses(grid[j], g1[j], g2[j], g3[j], inRooms, covered, cor);
    if covered {
      IdInTable(m, order[n]);
    }
  }

  /** The tile array FillTileGrid leaves on a fresh array: each tile as TileOutcome says,
      and each room's openings name distinct corridors of the table, each faced by one of
      the room's side cells. */
  lemma FillTileGridSpec(rule: WallRule, cfg: Config, grid: seq<Tile>, rooms: seq<Data>,
                         m: map<int, Corridor>, order: seq<int>, draws: Draws)
    requires cfg.tileSize > 0 && forall n :: 0 <= n < |order| ==> order[n] in m
    requires EmptyGrid(grid)
    ensures var r := FillTileGrid(rule, cfg, grid, rooms, m, order, draws);
            && (forall j :: 0 <= j < |r.0| ==>
                  TileOutcome(r.0[j], j, r.1, m, order, cfg.tileSize, Rows(cfg)))
            && (forall n :: 0 <= n < |r.2| ==>
                  Distinct(r.2[n]) && forall a :: 0 <= a < |r.2[n]| ==> r.2[n][a] in TableIds(m))
            && (forall n :: 0 <= n < |r.2| ==>
                  OpensFacing(rule, r.0, r.1[n], cfg.tileSize, Rows(cfg), r.2[n]))
  {
    var T, rows := cfg.tileSize, Rows(cfg);
    var r := FillTileGrid(rule, cfg, grid, rooms, m, order, draws);
    var shrunk := r.1;
    var g1 := PaintRooms(grid, shrunk, T, rows);
    var g2 := PaintCorridors(g1, m, order, 0, T, rows);
    forall j | 0 <= j < |r.0|
      ensures TileOutcome(r.0[j], j, r.1, m, order, T, rows)
    {
      FillTileAt(rule, grid, shrunk, m, order, T, rows, j);
    }
    WallRoomsOpenings(rule, g2, shrunk, T, rows);
    forall id | id in CorridorIds(g2)
      ensures id in TableIds(m)
    {
      var j :| 0 <= j < |g2| && g2[j].tileType == CorridorTile && g2[j].corridorID == id;
      FillTileAt(rule, grid, shrunk, m, order, T, rows, j);
    }
  }

  /** On the constructor's array, a generated dungeon's tiles are ROOM exactly on the
      shrunk rooms' tiles, CORRIDOR exactly on the other tiles a corridor reaches (with the
      id of the first corridor in table order that does), EMPTY elsewhere; every room is
      left open to distinct corridors of the table, each one a side cell of the room
      faces. */
  lemma GenerateTiles(rule: WallRule, cfg: Config, draws: Draws)
    requires cfg.tileSize > 0 && cfg.ratioDen > 0
    ensures var d := GenerateDungeon(rule, cfg, Construct(cfg), draws).0;
            var order := TableOrder(d.root, d.corridors);
            && (forall j :: 0 <= j < |d.tiles| ==>
                  TileOutcome(d.tiles[j], j, d.rooms, d.corridors, order, cfg.tileSize, Rows(cfg)))
            && (forall n :: 0 <= n < |d.openings| ==>
                  Distinct(d.openings[n])
                  && (forall a :: 0 <= a < |d.openings[n]| ==>
                        d.openings[n][a] in TableIds(d.corridors))
                  && OpensFacing(rule, d.tiles, d.rooms[n], cfg.tileSize, Rows(cfg),
                                 d.openings[n]))
  {
    var grid := Construct(cfg);
    var maxElements := MaxElements(cfg.roomSplitIterations);
    var (pd, d1) := RootData(cfg, draws);
    var (root, st) := SplitSpace(cfg, Nil, 0, maxElements, pd, GenState(map[], d1));
    var rooms := SelectDungeonRooms(root, 0, cfg.roomSplitIterations);
    var order := TableOrder(root, st.corridors);
    FillTileGridSpec(rule, cfg, grid, rooms, st.corridors, order, st.draws);
  }
}
