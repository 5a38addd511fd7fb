/** The first two passes of FillTileGrid (DungeonSpace.cpp:234-343): painting the rooms
    and then the corridors into the row-major tile array. The loops of the source become
    explicit sequences of visited coordinates; each pass is a fold over its cells, and
    every write is guarded by the array's IsValidIndex test. */
module TileGrid {
  import opened DungeonTypes
  import opened PartitionProofs

  // ---------------------------------------------------------- coordinates

  /** The values of `for (v = from; v < to; v += T)`. */
  function Ascending(from: int, to: int, T: int): (vs: seq<int>)
    requires T > 0
    ensures from < to ==> |vs| > 0 && vs[0] == from
    decreases if from < to then to - from else 0
  {
    if from < to then [from] + Ascending(from + T, to, T) else []
  }

  /** The values of `for (v = from; v >= to; v -= T)`. */
  function Descending(from: int, to: int, T: int): (vs: seq<int>)
    requires T > 0
    ensures from >= to ==> |vs| > 0 && vs[0] == from
    decreases if from >= to then from - to + 1 else 0
  {
    if from >= to then [from] + Descending(from - T, to, T) else []
  }

  /** Euclidean division is determined by the quotient-remainder equation. */
  lemma DivModUnique(n: int, T: int, q: int, r: int)
    requires T > 0 && 0 <= r < T && n == T * q + r
    ensures n % T == r
  {
    var q', r' := n / T, n % T;
    assert T * (q - q') == r' - r;
    if q - q' >= 1 { MulLe(1, q - q', T); }
    if q - q' <= -1 { MulLe(q - q', -1, T); }
  }

  lemma ModStep(a: int, T: int)
    requires T > 0
    ensures (a + T) % T == a % T
  {
    var q, r := a / T, a % T;
    assert a == T * q + r;
    assert a + T == T * (q + 1) + r;
    DivModUnique(a + T, T, q + 1, r);
  }

  lemma ModSmall(a: int, T: int)
    requires 0 < a < T
    ensures a % T != 0
  {
  }

  /** A value a whole number of steps at or above `from` is `from` itself or a whole
      number of steps at or above the next step. */
  lemma StepMember(from: int, T: int, v: int)
    requires T > 0
    ensures (from <= v && (v - from) % T == 0)
            <==> (v == from || (from + T <= v && (v - (from + T)) % T == 0))
  {
    ModStep(v - (from + T), T);
    if from < v < from + T { ModSmall(v - from, T); }
  }

  /** The ascending loop visits exactly the values from `from` up to below `to` that
      are a whole number of steps away from `from`. */
  lemma {:induction false} AscendingMembers(from: int, to: int, T: int, v: int)
    requires T > 0
    ensures v in Ascending(from, to, T) <==> from <= v < to && (v - from) % T == 0
    decreases if from < to then to - from else 0
  {
    if from < to {
      AscendingMembers(from + T, to, T, v);
      StepMember(from, T, v);
    }
  }

  /** The descending loop visits exactly the values from `from` down to `to` that are a
      whole number of steps away from `from`. */
  lemma {:induction false} DescendingMembers(from: int, to: int, T: int, v: int)
    requires T > 0
    ensures v in Descending(from, to, T) <==> to <= v <= from && (from - v) % T == 0
    decreases if from >= to then from - to + 1 else 0
  {
    if from >= to {
      DescendingMembers(from - T, to, T, v);
      StepMember(-from, T, -v);
    }
  }

  // ---------------------------------------------------------------- cells

  /** The cells of a nested loop: for each y in ys, for each x in xs. */
  function RowMajor(ys: seq<int>, xs: seq<int>): (ps: seq<Point>)
  {
    if ys == [] then [] else Row(xs, ys[0]) + RowMajor(ys[1..], xs)
  }

  function Row(xs: seq<int>, y: int): (ps: seq<Point>)
    ensures |ps| == |xs| && forall j :: 0 <= j < |ps| ==> ps[j] == Point(xs[j], y)
  {
    seq(|xs|, j requires 0 <= j < |xs| => Point(xs[j], y))
  }

  /** The nested loop visits exactly the points whose coordinates both loops visit. */
  lemma {:induction false} RowMajorMembers(ys: seq<int>, xs: seq<int>, p: Point)
    ensures p in RowMajor(ys, xs) <==> p.y in ys && p.x in xs
  {
    if ys != [] {
      RowMajorMembers(ys[1..], xs, p);
      assert p in Row(xs, ys[0]) <==> p.y == ys[0] && p.x in xs;
      assert p.y in ys <==> p.y == ys[0] || p.y in ys[1..];
    }
  }

  /** The cells of a room, in the order of DungeonSpace.cpp:249-251: rows from the bottom
      up, and in each row the columns from left to right. */
  function RoomCells(d: Data, T: int): seq<Point>
    requires T > 0
  {
    RowMajor(Ascending(d.bottom, d.bottom + d.height, T), Ascending(d.left, d.left + d.width, T))
  }

  /** The tile index of a world position (DungeonSpace.cpp:253, 275, 319): the column
      plus the row times the tiles per row, both by C++ division. The flat index does
      not check the column against the row length. */
  function TileIndex(x: int, y: int, T: int, rows: int): int
    requires T > 0
  {
    TruncDiv(x, T) + rows * TruncDiv(y, T)
  }

  /** The tile indices a sequence of cells maps to. */
  function Indices(cells: seq<Point>, T: int, rows: int): set<int>
    requires T > 0
  {
    set p | p in cells :: TileIndex(p.x, p.y, T, rows)
  }

  lemma IndicesCons(cells: seq<Point>, T: int, rows: int)
    requires T > 0 && cells != []
    ensures Indices(cells, T, rows)
         == {TileIndex(cells[0].x, cells[0].y, T, rows)} + Indices(cells[1..], T, rows)
  {
    assert forall p :: p in cells <==> p == cells[0] || p in cells[1..];
  }

  // ------------------------------------------------------------ the room pass

  /** b is a followed by one or more copies of o. */
  predicate Extended(a: seq<DungeonObject>, b: seq<DungeonObject>, o: DungeonObject)
  {
    |b| > |a| && b[..|a|] == a && forall k :: |a| <= k < |b| ==> b[k] == o
  }

  lemma ExtendedTrans(a: seq<DungeonObject>, b: seq<DungeonObject>, c: seq<DungeonObject>,
                      o: DungeonObject)
    requires Extended(a, b, o) && Extended(b, c, o)
    ensures Extended(a, c, o)
  {
    assert c[..|a|] == c[..|b|][..|a|];
  }

  /** One cell of the room loop (DungeonSpace.cpp:253-260): a valid index becomes ROOM,
      gains a floor and records the cell's corner. */
  function PaintRoomTile(g: seq<Tile>, p: Point, T: int, rows: int): (r: seq<Tile>)
    requires T > 0
    ensures |r| == |g|
  {
    var i := TileIndex(p.x, p.y, T, rows);
    if 0 <= i < |g| then
      g[i := g[i].(tileType := RoomTile, objects := g[i].objects + [FloorObject],
                   left := p.x, bottom := p.y)]
    else g
  }

  function PaintRoomCells(g: seq<Tile>, cells: seq<Point>, T: int, rows: int): (r: seq<Tile>)
    requires T > 0
    ensures |r| == |g|
    decreases |cells|
  {
    if cells == [] then g
    else PaintRoomCells(PaintRoomTile(g, cells[0], T, rows), cells[1..], T, rows)
  }

  /** A room cell's tile after the room pass: ROOM, with floors appended to its objects
      and its corridor id kept. */
  predicate PaintedRoom(before: Tile, after: Tile)
  {
    && after.tileType == RoomTile
    && Extended(before.objects, after.objects, FloorObject)
    && after.corridorID == before.corridorID
  }

  /** What the room pass does to tile j: a tile some cell maps to is painted, every
      other tile is left alone. */
  predicate RoomPassAt(g: seq<Tile>, r: seq<Tile>, cells: seq<Point>, T: int, rows: int, j: int)
    requires T > 0 && |r| == |g|
  {
    0 <= j < |g| ==>
      if j in Indices(cells, T, rows) then PaintedRoom(g[j], r[j]) else r[j] == g[j]
  }

  lemma {:induction false} PaintRoomCellsAt(g: seq<Tile>, cells: seq<Point>, T: int, rows: int,
                                            j: int)
    requires T > 0
    ensures RoomPassAt(g, PaintRoomCells(g, cells, T, rows), cells, T, rows, j)
    decreases |cells|
  {
    if cells != [] && 0 <= j < |g| {
      var g1 := PaintRoomTile(g, cells[0], T, rows);
      var r := PaintRoomCells(g1, cells[1..], T, rows);
      PaintRoomCellsAt(g1, cells[1..], T, rows, j);
      IndicesCons(cells, T, rows);
      if j == TileIndex(cells[0].x, cells[0].y, T, rows) && j in Indices(cells[1..], T, rows) {
        ExtendedTrans(g[j].objects, g1[j].objects, r[j].objects, FloorObject);
      }
    }
  }

  /** The room pass for one room paints exactly the tiles its cells map to. */
  lemma PaintRoomCellsSpec(g: seq<Tile>, cells: seq<Point>, T: int, rows: int)
    requires T > 0
    ensures var r := PaintRoomCells(g, cells, T, rows);
            forall j :: 0 <= j < |g| ==>
              if j in Indices(cells, T, rows) then PaintedRoom(g[j], r[j]) else r[j] == g[j]
  {
    var r := PaintRoomCells(g, cells, T, rows);
    forall j | 0 <= j < |g|
      ensures if j in Indices(cells, T, rows) then PaintedRoom(g[j], r[j]) else r[j] == g[j]
    {
      PaintRoomCellsAt(g, cells, T, rows, j);
    }
  }

  /** No two cells map to the same tile index. */
  predicate DistinctIndices(cells: seq<Point>, T: int, rows: int)
    requires T > 0
  {
    forall a, b :: 0 <= a < b < |cells| ==>
      TileIndex(cells[a].x, cells[a].y, T, rows) != TileIndex(cells[b].x, cells[b].y, T, rows)
  }

  /** When no two cells share a tile, each painted tile gains exactly one floor and
      records the corner of the one cell that maps to it. */
  lemma {:induction false} PaintRoomCellsOnce(g: seq<Tile>, cells: seq<Point>, T: int,
                                              rows: int, a: int)
    requires T > 0 && DistinctIndices(cells, T, rows) && 0 <= a < |cells|
    ensures var i := TileIndex(cells[a].x, cells[a].y, T, rows);
            0 <= i < |g| ==>
              PaintRoomCells(g, cells, T, rows)[i]
                == g[i].(tileType := RoomTile, objects := g[i].objects + [FloorObject],
                         left := cells[a].x, bottom := cells[a].y)
    decreases |cells|
  {
    var i := TileIndex(cells[a].x, cells[a].y, T, rows);
    var g1 := PaintRoomTile(g, cells[0], T, rows);
    var rest := cells[1..];
    if a == 0 {
      PaintRoomCellsAt(g1, rest, T, rows, i);
      assert i !in Indices(rest, T, rows) by {
        forall p | p in rest
          ensures TileIndex(p.x, p.y, T, rows) != i
        {
          var b :| 0 <= b < |rest| && rest[b] == p;
          assert cells[b + 1] == p;
        }
      }
    } else {
      assert forall x, y :: 0 <= x < y < |rest| ==>
               rest[x] == cells[x + 1] && rest[y] == cells[y + 1];
      PaintRoomCellsOnce(g1, rest, T, rows, a - 1);
      assert rest[a - 1] == cells[a];
    }
  }

  /** FillTileGrid's room loop (DungeonSpace.cpp:240-265), after each room was shrunk. */
  function PaintRooms(g: seq<Tile>, rooms: seq<Data>, T: int, rows: int): (r: seq<Tile>)
    requires T > 0
    ensures |r| == |g|
    decreases |rooms|
  {
    if rooms == [] then g
    else PaintRooms(PaintRoomCells(g, RoomCells(rooms[0], T), T, rows), rooms[1..], T, rows)
  }

  /** The tiles the cells of the rooms map to. */
  function RoomIndices(rooms: seq<Data>, T: int, rows: int): set<int>
    requires T > 0
    decreases |rooms|
  {
    if rooms == [] then {}
    else Indices(RoomCells(rooms[0], T), T, rows) + RoomIndices(rooms[1..], T, rows)
  }

  lemma PaintedRoomTrans(a: Tile, b: Tile, c: Tile)
    requires PaintedRoom(a, b) && PaintedRoom(b, c)
    ensures PaintedRoom(a, c)
  {
    ExtendedTrans(a.objects, b.objects, c.objects, FloorObject);
  }

  lemma {:induction false} PaintRoomsAt(g: seq<Tile>, rooms: seq<Data>, T: int, rows: int, j: int)
    requires T > 0
    ensures var r := PaintRooms(g, rooms, T, rows);
            0 <= j < |g| ==>
              if j in RoomIndices(rooms, T, rows) then PaintedRoom(g[j], r[j]) else r[j] == g[j]
    decreases |rooms|
  {
    if rooms != [] && 0 <= j < |g| {
      var g1 := PaintRoomCells(g, RoomCells(rooms[0], T), T, rows);
      var r := PaintRooms(g1, rooms[1..], T, rows);
      PaintRoomCellsAt(g, RoomCells(rooms[0], T), T, rows, j);
      PaintRoomsAt(g1, rooms[1..], T, rows, j);
      if j in Indices(RoomCells(rooms[0], T), T, rows) && j in RoomIndices(rooms[1..], T, rows) {
        PaintedRoomTrans(g[j], g1[j], r[j]);
      }
    }
  }

  /** The room loop paints exactly the tiles the rooms' cells map to: each becomes ROOM
      with floors appended to what it held, and every other tile is left alone. */
  lemma PaintRoomsSpec(g: seq<Tile>, rooms: seq<Data>, T: int, rows: int)
    requires T > 0
    ensures var r := PaintRooms(g, rooms, T, rows);
            forall j :: 0 <= j < |g| ==>
              if j in RoomIndices(rooms, T, rows) then PaintedRoom(g[j], r[j]) else r[j] == g[j]
  {
    var r := PaintRooms(g, rooms, T, rows);
    forall j | 0 <= j < |g|
      ensures if j in RoomIndices(rooms, T, rows) then PaintedRoom(g[j], r[j]) else r[j] == g[j]
    {
      PaintRoomsAt(g, rooms, T, rows, j);
    }
  }

  /** The room loop keeps every tile's objects empty exactly when the tile is EMPTY. */
  lemma PaintRoomsConsistent(g: seq<Tile>, rooms: seq<Data>, T: int, rows: int)
    requires T > 0
    ensures ConsistentGrid(g) ==> ConsistentGrid(PaintRooms(g, rooms, T, rows))
  {
    PaintRoomsSpec(g, rooms, T, rows);
  }

  // -------------------------------------------------------- the corridor pass

  /** The floor and the two side walls of a corridor tile (DungeonSpace.cpp:284-291,
      326-333): a corridor across a vertical split runs along x and is walled at its top
      and bottom; one across a horizontal split runs along y and is walled left and right. */
  function CorridorObjects(sep: Separation): (os: seq<DungeonObject>)
    ensures |os| == 3 && os[0] == FloorObject
    ensures forall k :: 1 <= k < 3 ==> os[k].objectType == Wall
  {
    match sep
    case Vertical =>
      [FloorObject, DungeonObject(Wall, Vec(0, -1, 0), Top),
       DungeonObject(Wall, Vec(0, -1, 0), Bottom)]
    case Horizontal =>
      [FloorObject, DungeonObject(Wall, Vec(1, 0, 0), Left),
       DungeonObject(Wall, Vec(1, 0, 0), Right)]
  }

  /** The cells a corridor's loop visits: along x from start to end inclusive at the
      start's y (vertical split), or along y from start down to end at the start's x
      (horizontal split). */
  function CorridorCells(c: Corridor, T: int): seq<Point>
    requires T > 0
  {
    match c.seperation
    case Vertical => Row(Ascending(c.start.x, c.end.x + 1, T), c.start.y)
    case Horizontal =>
      var ys := Descending(c.start.y, c.end.y, T);
      seq(|ys|, j requires 0 <= j < |ys| => Point(c.start.x, ys[j]))
  }

  /** One cell of a corridor loop (DungeonSpace.cpp:276-292, 318-334): a valid tile with
      no objects becomes a corridor tile of this corridor; any other tile is left alone. */
  function PaintCorridorTile(g: seq<Tile>, p: Point, c: Corridor, T: int, rows: int)
    : (r: seq<Tile>)
    requires T > 0
    ensures |r| == |g|
  {
    var i := TileIndex(p.x, p.y, T, rows);
    if 0 <= i < |g| && g[i].objects == [] then
      g[i := Tile(p.x, p.y, CorridorObjects(c.seperation), CorridorTile, c.id)]
    else g
  }

  function PaintCorridorCells(g: seq<Tile>, cells: seq<Point>, c: Corridor, T: int, rows: int)
    : (r: seq<Tile>)
    requires T > 0
    ensures |r| == |g|
    decreases |cells|
  {
    if cells == [] then g
    else PaintCorridorCells(PaintCorridorTile(g, cells[0], c, T, rows), cells[1..], c, T, rows)
  }

  /** A tile the corridor pass wrote for corridor c. */
  predicate CorridorTileOf(t: Tile, c: Corridor)
  {
    t.tileType == CorridorTile && t.objects == CorridorObjects(c.seperation) && t.corridorID == c.id
  }

  /** What painting one corridor does to tile j: a tile with objects is never touched, an
      empty one some cell maps to becomes this corridor's tile, and the rest stay. */
  predicate CorridorPassAt(g: seq<Tile>, r: seq<Tile>, cells: seq<Point>, c: Corridor, T: int,
                           rows: int, j: int)
    requires T > 0 && |r| == |g|
  {
    0 <= j < |g| ==>
      if g[j].objects == [] && j in Indices(cells, T, rows) then CorridorTileOf(r[j], c)
      else r[j] == g[j]
  }

  lemma {:induction false} PaintCorridorCellsAt(g: seq<Tile>, cells: seq<Point>, c: Corridor,
                                                T: int, rows: int, j: int)
    requires T > 0
    ensures CorridorPassAt(g, PaintCorridorCells(g, cells, c, T, rows), cells, c, T, rows, j)
    decreases |cells|
  {
    if cells != [] && 0 <= j < |g| {
      var g1 := PaintCorridorTile(g, cells[0], c, T, rows);
      PaintCorridorCellsAt(g1, cells[1..], c, T, rows, j);
      IndicesCons(cells, T, rows);
    }
  }

  /** The corridor pass for one corridor writes exactly the empty tiles its cells map to,
      each as a tile of this corridor. */
  lemma PaintCorridorCellsSpec(g: seq<Tile>, c: Corridor, T: int, rows: int)
    requires T > 0
    ensures var cells := CorridorCells(c, T);
            var r := PaintCorridorCells(g, cells, c, T, rows);
            forall j :: 0 <= j < |g| ==>
              if g[j].objects == [] && j in Indices(cells, T, rows) then CorridorTileOf(r[j], c)
              else r[j] == g[j]
  {
    var cells := CorridorCells(c, T);
    var r := PaintCorridorCells(g, cells, c, T, rows);
    forall j | 0 <= j < |g|
      ensures if g[j].objects == [] && j in Indices(cells, T, rows) then CorridorTileOf(r[j], c)
              else r[j] == g[j]
    {
      PaintCorridorCellsAt(g, cells, c, T, rows, j);
    }
  }

  /** FillTileGrid's corridor loop (DungeonSpace.cpp:267-343), visiting the corridor
      table in the order `order` lists its keys, from position k on. */
  function PaintCorridors(g: seq<Tile>, m: map<int, Corridor>, order: seq<int>, k: nat, T: int,
                          rows: int): (r: seq<Tile>)
    requires T > 0 && k <= |order| && forall n :: 0 <= n < |order| ==> order[n] in m
    ensures |r| == |g|
    decreases |order| - k
  {
    if k == |order| then g
    else
      var c := m[order[k]];
      var g1 := PaintCorridorCells(g, CorridorCells(c, T), c, T, rows);
      PaintCorridors(g1, m, order, k + 1, T, rows)
  }

  /** The tiles corridor c's loop visits. */
  function CorridorIndices(c: Corridor, T: int, rows: int): set<int>
    requires T > 0
  {
    Indices(CorridorCells(c, T), T, rows)
  }

  /** Whether one of the cells maps to tile j. */
  predicate Visits(cells: seq<Point>, T: int, rows: int, j: int)
    requires T > 0
    decreases |cells|
  {
    && cells != []
    && (TileIndex(cells[0].x, cells[0].y, T, rows) == j || Visits(cells[1..], T, rows, j))
  }

  lemma {:induction false} VisitsIndices(cells: seq<Point>, T: int, rows: int, j: int)
    requires T > 0
    ensures Visits(cells, T, rows, j) <==> j in Indices(cells, T, rows)
    decreases |cells|
  {
    if cells != [] {
      IndicesCons(cells, T, rows);
      VisitsIndices(cells[1..], T, rows, j);
    }
  }

  /** Whether corridor c's loop visits tile j. */
  predicate Covers(c: Corridor, T: int, rows: int, j: int)
    requires T > 0
  {
    Visits(CorridorCells(c, T), T, rows, j)
  }

  /** The position in `order`, from k on, of the first corridor whose loop visits tile j,
      or |order| when none does. */
  function FirstCover(m: map<int, Corridor>, order: seq<int>, k: nat, T: int, rows: int, j: int)
    : (n: nat)
    requires T > 0 && k <= |order| && forall n :: 0 <= n < |order| ==> order[n] in m
    ensures k <= n <= |order|
    ensures n < |order| ==> Covers(m[order[n]], T, rows, j)
    ensures forall i :: k <= i < n ==> !Covers(m[order[i]], T, rows, j)
    decreases |order| - k
  {
    if k == |order| then k
    else if Covers(m[order[k]], T, rows, j) then k
    else FirstCover(m, order, k + 1, T, rows, j)
  }

  /** Painting corridor c alone, stated for tile j. */
  lemma PaintCorridorStep(g: seq<Tile>, c: Corridor, T: int, rows: int, j: int)
    requires T > 0
    ensures var g1 := PaintCorridorCells(g, CorridorCells(c, T), c, T, rows);
            0 <= j < |g| ==>
              if g[j].objects == [] && Covers(c, T, rows, j) then CorridorTileOf(g1[j], c)
              else g1[j] == g[j]
  {
    PaintCorridorCellsAt(g, CorridorCells(c, T), c, T, rows, j);
    VisitsIndices(CorridorCells(c, T), T, rows, j);
  }

  lemma {:induction false} PaintCorridorsAt(g: seq<Tile>, m: map<int, Corridor>, order: seq<int>,
                                            k: nat, T: int, rows: int, j: int)
    requires T > 0 && k <= |order| && forall n :: 0 <= n < |order| ==> order[n] in m
    ensures var r := PaintCorridors(g, m, order, k, T, rows);
            var n := FirstCover(m, order, k, T, rows, j);
            0 <= j < |g| ==>
              if g[j].objects == [] && n < |order| then CorridorTileOf(r[j], m[order[n]])
              else r[j] == g[j]
    decreases |order| - k
  {
    if k < |order| && 0 <= j < |g| {
      var c := m[order[k]];
      var g1 := PaintCorridorCells(g, CorridorCells(c, T), c, T, rows);
      var r := PaintCorridors(g1, m, order, k + 1, T, rows);
      assert PaintCorridors(g, m, order, k, T, rows) == r;
      PaintCorridorStep(g, c, T, rows, j);
      PaintCorridorsAt(g1, m, order, k + 1, T, rows, j);
      if Covers(c, T, rows, j) {
        assert FirstCover(m, order, k, T, rows, j) == k;
        if g[j].objects == [] {
          assert CorridorTileOf(g1[j], c);
          assert |g1[j].objects| == 3;
        }
      } else {
        assert FirstCover(m, order, k, T, rows, j) == FirstCover(m, order, k + 1, T, rows, j);
      }
    }
  }

  /** The corridor loop never touches a tile that holds objects; an empty tile becomes a
      tile of the first corridor in the visiting order whose loop reaches it, and stays
      as it is when none does. */
  lemma PaintCorridorsSpec(g: seq<Tile>, m: map<int, Corridor>, order: seq<int>, T: int,
                           rows: int)
    requires T > 0 && forall n :: 0 <= n < |order| ==> order[n] in m
    ensures var r := PaintCorridors(g, m, order, 0, T, rows);
            forall j :: 0 <= j < |g| ==>
              var n := FirstCover(m, order, 0, T, rows, j);
              if g[j].objects == [] && n < |order| then CorridorTileOf(r[j], m[order[n]])
              else r[j] == g[j]
  {
    var r := PaintCorridors(g, m, order, 0, T, rows);
    forall j | 0 <= j < |g|
      ensures var n := FirstCover(m, order, 0, T, rows, j);
              if g[j].objects == [] && n < |order| then CorridorTileOf(r[j], m[order[n]])
              else r[j] == g[j]
    {
      PaintCorridorsAt(g, m, order, 0, T, rows, j);
    }
  }

  /** The corridor loop keeps every tile's objects empty exactly when the tile is EMPTY,
      and changes no tile that is not EMPTY. */
  lemma PaintCorridorsConsistent(g: seq<Tile>, m: map<int, Corridor>, order: seq<int>, T: int,
                                 rows: int)
    requires T > 0 && forall n :: 0 <= n < |order| ==> order[n] in m
    ensures var r := PaintCorridors(g, m, order, 0, T, rows);
            ConsistentGrid(g) ==>
              ConsistentGrid(r)
              && forall j :: 0 <= j < |g| && g[j].tileType != EmptyTile ==> r[j] == g[j]
  {
    PaintCorridorsSpec(g, m, order, T, rows);
  }
}
