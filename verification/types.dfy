/** Data model of the dungeon generator: the enums and structs of DungeonSpace.h,
    the configuration fields of ADungeonSpace, and the C++ integer division the
    generator uses for every coordinate. */
module DungeonTypes {

  datatype Option<+T> = None | Some(value: T)

  /** ESeperation: VERTICAL splits the width, HORIZONTAL splits the height. */
  datatype Separation = Vertical | Horizontal

  /** ETileType: a tile is empty until a room or a corridor is painted on it. */
  datatype TileType = EmptyTile | RoomTile | CorridorTile

  /** EDungeonObjectType */
  datatype ObjectType = Floor | Wall | Ceiling | Pillar | Torch

  /** EDungeonObjectAlign */
  datatype Align = Left | Right | Top | Bottom | Center

  /** An FVector whose components are whole numbers (the generator only ever uses
      the directions (0,-1,0) and (1,0,0)). */
  datatype Vec = Vec(x: int, y: int, z: int)

  /** FDungeonObject: one piece of geometry to place on a tile. */
  datatype DungeonObject = DungeonObject(objectType: ObjectType, rotation: Vec, alignment: Align)

  /** FTile, with the fields DungeonSpace.cpp uses (`objectsToSpawn`, `corridorID`). */
  datatype Tile = Tile(left: int, bottom: int, objects: seq<DungeonObject>,
                       tileType: TileType, corridorID: int)

  /** The x/y part of an FIntVector (the generator never sets z). */
  datatype Point = Point(x: int, y: int)

  /** FCorridor, with the fields DungeonSpace.cpp uses (`id`, `fromSpaceID`, `toSpaceID`). */
  datatype Corridor = Corridor(id: int, start: Point, end: Point, seperation: Separation,
                               fromSpaceID: int, toSpaceID: int)

  /** FData: the rectangle of a space plus the split chosen for its children. */
  datatype Data = Data(key: int, width: int, height: int, left: int, bottom: int,
                       seperation: Separation, tilesSeperated: int)

  /** FSpace: a node of the partition tree; Nil stands for a null FSpace pointer. */
  datatype Space = Nil | Node(data: Data, left: Space, right: Space)

  /** The editable fields of ADungeonSpace that drive generation. MinRoomRatio is the
      fraction ratioNum / ratioDen. */
  datatype Config = Config(dungeonSize: int, roomSplitIterations: int, tileSize: int,
                           minTilesPerRoom: int, ratioNum: int, ratioDen: int)

  /** The defaults of DungeonSpace.h: 36000 / 5 / 600 / 2 / 0.4. */
  const DefaultConfig := Config(36000, 5, 600, 2, 2, 5)

  /** What the header documents about the configuration: the dungeon size is a
      non-negative multiple of the tile size and MinRoomRatio lies in 0..1. */
  predicate ValidConfig(c: Config)
  {
    && c.tileSize > 0
    && c.dungeonSize >= 0
    && c.dungeonSize % c.tileSize == 0
    && c.ratioDen > 0
    && 0 <= c.ratioNum <= c.ratioDen
  }

  /** C++ integer division of a by a positive b: the quotient is rounded toward zero. */
  function TruncDiv(a: int, b: int): int
    requires b > 0
  {
    if a >= 0 then a / b else -((-a) / b)
  }

  /** TruncDiv rounds toward zero: the remainder it leaves has the sign of a and is
      smaller than b in magnitude. */
  lemma TruncDivRoundsTowardZero(a: int, b: int)
    requires b > 0
    ensures 0 <= a ==> 0 <= a - TruncDiv(a, b) * b < b
    ensures a < 0 ==> -b < a - TruncDiv(a, b) * b <= 0
  {
    if a >= 0 {
      assert a == b * (a / b) + a % b;
    } else {
      assert -a == b * ((-a) / b) + (-a) % b;
    }
  }

  /** The ESeperation cast `ESeperation(n)` applied to the draw of RandRange(0, 1). */
  function SeparationOf(code: int): (s: Separation)
    requires 0 <= code <= 1
    ensures SeparationCode(s) == code
  {
    if code == 0 then Vertical else Horizontal
  }

  /** The underlying value of an ESeperation: VERTICAL = 0, HORIZONTAL = 1. */
  function SeparationCode(s: Separation): int
  {
    match s
    case Vertical => 0
    case Horizontal => 1
  }

  lemma SeparationCodeRoundTrip(s: Separation)
    ensures 0 <= SeparationCode(s) <= 1
    ensures SeparationOf(SeparationCode(s)) == s
  {
  }

  /** FDungeonObject(): a floor aligned to the centre of its tile. */
  const FloorObject := DungeonObject(Floor, Vec(0, 0, 0), Center)

  /** FTile(): an empty tile at (0, 0) with no objects. */
  const EmptyTileValue := Tile(0, 0, [], EmptyTile, 0)

  /** The tile array of the constructor: rows * rows default tiles. */
  function InitialGrid(rows: nat): (g: seq<Tile>)
    ensures |g| == rows * rows
    ensures forall j :: 0 <= j < |g| ==>
      g[j].tileType == EmptyTile && g[j].objects == [] && g[j].left == 0 && g[j].bottom == 0
  {
    seq(rows * rows, _ => EmptyTileValue)
  }

  /** A tile has objects exactly when it is not empty. */
  predicate Consistent(t: Tile)
  {
    (t.objects == []) == (t.tileType == EmptyTile)
  }

  predicate ConsistentGrid(g: seq<Tile>)
  {
    forall j :: 0 <= j < |g| ==> Consistent(g[j])
  }

  lemma DefaultConfigIsValid()
    ensures ValidConfig(DefaultConfig)
  {
  }
}
