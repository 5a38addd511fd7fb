/** The last pass of FillTileGrid (DungeonSpace.cpp:357-402) and its neighbour rule
    CheckIfWallShouldBePlaced (DungeonSpace.cpp:544-572): every room gets walls along
    its bottom and top rows and, where the neighbour rule says so, along its left and
    right columns. The rule leaves a side open towards a room and towards each corridor
    the room has not opened onto yet, and records that corridor, so a room whose left
    and right columns differ, on tiles of its own, opens onto each corridor it faces
    exactly once. The loop chains its tests with `else`, which leaves a room one tile
    wide or tall open on its top or right side. */
module Walls {
  import opened DungeonTypes
  import opened TileGrid

  const BottomWall := DungeonObject(Wall, Vec(0, -1, 0), Bottom)
  const TopWall := DungeonObject(Wall, Vec(0, -1, 0), Top)
  const LeftWall := DungeonObject(Wall, Vec(1, 0, 0), Left)
  const RightWall := DungeonObject(Wall, Vec(1, 0, 0), Right)

  /** Which tile the wall loop takes to be beside a cell. The loop as written steps the
      flat index by one (FlatIndex), so beside the first or last column it reaches the
      last tile of the row below or the first tile of the row above; SameRow treats a step
      off the row as leaving the array, as the rule's own description intends. */
  datatype NeighbourRule = FlatIndex | SameRow

  /** How the wall loop chains its tests on one cell. As written (ElseIf) the top test
      runs only off the bottom row and the right test only when the left test placed no
      wall, so a room one tile tall or wide is left open on its top or right side;
      EachSide runs the four tests independently. */
  datatype SideTests = ElseIf | EachSide

  /** The rules the wall pass follows. */
  datatype WallRule = WallRule(neighbour: NeighbourRule, sides: SideTests)

  /** The wall loop as written, and with both findings corrected. */
  const AsWritten := WallRule(FlatIndex, ElseIf)
  const Corrected := WallRule(SameRow, EachSide)

  /** The index of the tile beside cell p, dx = -1 to the left and +1 to the right; -1
      when SameRow finds the step leaves the row. */
  function Beside(rule: WallRule, p: Point, dx: int, T: int, rows: int): int
    requires T > 0
  {
    var i := TileIndex(p.x, p.y, T, rows);
    match rule.neighbour
    case FlatIndex => i + dx
    case SameRow => if 0 <= TruncDiv(p.x, T) + dx < rows then i + dx else -1
  }

  predicate Distinct(s: seq<int>)
  {
    forall a, b :: 0 <= a < b < |s| ==> s[a] != s[b]
  }

  /** CheckIfWallShouldBePlaced(adjacentTileIndex, roomCorridorConnections): whether a
      wall goes on the side facing tile `adj`, and the room's list of corridors it has
      opened onto. A wall goes up exactly when the neighbour is outside the array, empty,
      or a corridor the room already opens onto; the list grows only when the room opens
      onto a corridor for the first time, and then by that corridor's id. */
  function CheckIfWallShouldBePlaced(adj: int, g: seq<Tile>, conns: seq<int>)
    : (r: (bool, seq<int>))
    ensures r.0 <==> !(0 <= adj < |g|) || g[adj].tileType == EmptyTile
                     || (g[adj].tileType == CorridorTile && g[adj].corridorID in conns)
    ensures r.1 == if 0 <= adj < |g| && g[adj].tileType == CorridorTile
                         && g[adj].corridorID !in conns
                   then conns + [g[adj].corridorID] else conns
    ensures Distinct(conns) ==> Distinct(r.1)
  {
    if !(0 <= adj < |g|) then (true, conns)
    else if g[adj].tileType == EmptyTile then (true, conns)
    else if g[adj].tileType == CorridorTile then
      if g[adj].corridorID in conns then (true, conns)
      else (false, conns + [g[adj].corridorID])
    else (false, conns)
  }

  function AddObject(g: seq<Tile>, i: int, o: DungeonObject): (r: seq<Tile>)
    requires 0 <= i < |g|
    ensures |r| == |g|
  {
    g[i := g[i].(objects := g[i].objects + [o])]
  }

  /** One cell of the wall loop (DungeonSpace.cpp:370-392) for the room d: a bottom wall
      on the bottom row, a top wall on the top row, a left wall on the left column if the
      neighbour rule says so for the tile to the left, and a right wall on the right
      column if it says so for the tile to the right. With ElseIf the top test is skipped
      on the bottom row and the right test when the left one placed a wall. */
  function WallTile(rule: WallRule, g: seq<Tile>, conns: seq<int>, p: Point, d: Data, T: int,
                    rows: int): (r: (seq<Tile>, seq<int>))
    requires T > 0
    ensures |r.0| == |g|
  {
    var right, top := d.left + d.width, d.bottom + d.height;
    var i := TileIndex(p.x, p.y, T, rows);
    var before, after := Beside(rule, p, -1, T, rows), Beside(rule, p, 1, T, rows);
    if !(0 <= i < |g|) then (g, conns)
    else
      var g0 := if p.y == d.bottom then AddObject(g, i, BottomWall) else g;
      var g1 := if p.y == top - T && (p.y != d.bottom || rule.sides == EachSide)
                then AddObject(g0, i, TopWall) else g0;
      var (leftWall, conns1) :=
        if p.x == d.left then CheckIfWallShouldBePlaced(before, g1, conns) else (false, conns);
      var g2 := if leftWall then AddObject(g1, i, LeftWall) else g1;
      var (rightWall, conns2) :=
        if p.x == right - T && (!leftWall || rule.sides == EachSide)
        then CheckIfWallShouldBePlaced(after, g2, conns1)
        else (false, conns1);
      if rightWall then (AddObject(g2, i, RightWall), conns2) else (g2, conns2)
  }

  function WallCells(rule: WallRule, g: seq<Tile>, conns: seq<int>, cells: seq<Point>,
                     d: Data, T: int, rows: int): (r: (seq<Tile>, seq<int>))
    requires T > 0
    ensures |r.0| == |g|
    decreases |cells|
  {
    if cells == [] then (g, conns)
    else
      var (g1, conns1) := WallTile(rule, g, conns, cells[0], d, T, rows);
      WallCells(rule, g1, conns1, cells[1..], d, T, rows)
  }

  /** The walls of one room, starting from an empty list of corridors (the list is local
      to each iteration of the room loop, DungeonSpace.cpp:353). Returns the grid and the
      ids of the corridors the room was left open to. */
  function WallRoom(rule: WallRule, g: seq<Tile>, d: Data, T: int, rows: int)
    : (r: (seq<Tile>, seq<int>))
    requires T > 0
    ensures |r.0| == |g|
  {
    WallCells(rule, g, [], RoomCells(d, T), d, T, rows)
  }

  /** The wall loop over all rooms; the corridors each room was left open to, per room. */
  function WallRooms(rule: WallRule, g: seq<Tile>, rooms: seq<Data>, T: int, rows: int)
    : (r: (seq<Tile>, seq<seq<int>>))
    requires T > 0
    ensures |r.0| == |g| && |r.1| == |rooms|
    decreases |rooms|
  {
    if rooms == [] then (g, [])
    else
      var (g1, open) := WallRoom(rule, g, rooms[0], T, rows);
      var (g2, opens) := WallRooms(rule, g1, rooms[1..], T, rows);
      (g2, [open] + opens)
  }

  // ------------------------------------------------------------ properties

  /** b is a followed by walls only. */
  predicate WallsAdded(a: seq<DungeonObject>, b: seq<DungeonObject>)
  {
    |b| >= |a| && b[..|a|] == a && forall k :: |a| <= k < |b| ==> b[k].objectType == Wall
  }

  /** The wall pass only appends walls: type, corridor id and corner are kept. */
  predicate OnlyWalls(before: Tile, after: Tile)
  {
    && after.tileType == before.tileType && after.corridorID == before.corridorID
    && after.left == before.left && after.bottom == before.bottom
    && WallsAdded(before.objects, after.objects)
  }

  lemma WallsAddedTrans(a: seq<DungeonObject>, b: seq<DungeonObject>, c: seq<DungeonObject>)
    requires WallsAdded(a, b) && WallsAdded(b, c)
    ensures WallsAdded(a, c)
  {
    assert c[..|a|] == c[..|b|][..|a|];
  }

  /** What the wall pass of one room's cells does to tile j. */
  predicate WallPassAt(g: seq<Tile>, r: seq<Tile>, cells: seq<Point>, T: int, rows: int, j: int)
    requires T > 0 && |r| == |g|
  {
    0 <= j < |g| ==> OnlyWalls(g[j], r[j]) && (j !in Indices(cells, T, rows) ==> r[j] == g[j])
  }

  /** r is g with walls appended to tile i and nothing else changed. */
  predicate WallsOnlyAt(g: seq<Tile>, r: seq<Tile>, i: int)
  {
    && |r| == |g|
    && (forall j :: 0 <= j < |g| && j != i ==> r[j] == g[j])
    && (0 <= i < |g| ==> OnlyWalls(g[i], r[i]))
  }

  lemma AddWallOnlyAt(g: seq<Tile>, g1: seq<Tile>, i: int, o: DungeonObject)
    requires WallsOnlyAt(g, g1, i) && 0 <= i < |g1| && o.objectType == Wall
    ensures WallsOnlyAt(g, AddObject(g1, i, o), i)
  {
    var r := AddObject(g1, i, o);
    assert WallsAdded(g1[i].objects, r[i].objects) by {
      assert r[i].objects[..|g1[i].objects|] == g1[i].objects;
    }
    WallsAddedTrans(g[i].objects, g1[i].objects, r[i].objects);
  }

  /** One cell of the wall loop appends walls to that cell's tile only. */
  lemma WallTileOnlyAt(rule: WallRule, g: seq<Tile>, conns: seq<int>, p: Point, d: Data,
                       T: int, rows: int)
    requires T > 0
    ensures WallsOnlyAt(g, WallTile(rule, g, conns, p, d, T, rows).0, TileIndex(p.x, p.y, T, rows))
  {
    var right, top := d.left + d.width, d.bottom + d.height;
    var i := TileIndex(p.x, p.y, T, rows);
    var before, after := Beside(rule, p, -1, T, rows), Beside(rule, p, 1, T, rows);
    if 0 <= i < |g| {
      assert WallsAdded(g[i].objects, g[i].objects);
      var g0 := if p.y == d.bottom then AddObject(g, i, BottomWall) else g;
      if p.y == d.bottom { AddWallOnlyAt(g, g, i, BottomWall); }
      var g1 := if p.y == top - T && (p.y != d.bottom || rule.sides == EachSide)
                then AddObject(g0, i, TopWall) else g0;
      if g1 != g0 { AddWallOnlyAt(g, g0, i, TopWall); }
      var (leftWall, conns1) :=
        if p.x == d.left then CheckIfWallShouldBePlaced(before, g1, conns) else (false, conns);
      var g2 := if leftWall then AddObject(g1, i, LeftWall) else g1;
      if leftWall { AddWallOnlyAt(g, g1, i, LeftWall); }
      var (rightWall, conns2) :=
        if p.x == right - T && (!leftWall || rule.sides == EachSide)
        then CheckIfWallShouldBePlaced(after, g2, conns1)
        else (false, conns1);
      if rightWall { AddWallOnlyAt(g, g2, i, RightWall); }
    }
  }

  lemma WallTileAt(rule: WallRule, g: seq<Tile>, conns: seq<int>, p: Point, d: Data, T: int,
                   rows: int, j: int)
    requires T > 0
    ensures WallPassAt(g, WallTile(rule, g, conns, p, d, T, rows).0, [p], T, rows, j)
  {
    assert Indices([p], T, rows) == {TileIndex(p.x, p.y, T, rows)} by {
      IndicesCons([p], T, rows);
      assert Indices([], T, rows) == {};
    }
    WallTileOnlyAt(rule, g, conns, p, d, T, rows);
  }

  lemma {:induction false} WallCellsAt(rule: WallRule, g: seq<Tile>, conns: seq<int>,
                                       cells: seq<Point>, d: Data, T: int, rows: int, j: int)
    requires T > 0
    ensures WallPassAt(g, WallCells(rule, g, conns, cells, d, T, rows).0, cells, T, rows, j)
    decreases |cells|
  {
    if cells != [] && 0 <= j < |g| {
      var (g1, conns1) := WallTile(rule, g, conns, cells[0], d, T, rows);
      var r := WallCells(rule, g1, conns1, cells[1..], d, T, rows).0;
      WallTileAt(rule, g, conns, cells[0], d, T, rows, j);
      WallCellsAt(rule, g1, conns1, cells[1..], d, T, rows, j);
      IndicesCons(cells, T, rows);
      IndicesCons([cells[0]], T, rows);
      WallsAddedTrans(g[j].objects, g1[j].objects, r[j].objects);
    }
  }

  /** One room's wall pass appends walls to the tiles of its cells and to nothing else;
      no tile changes type, corridor id or corner. */
  lemma WallRoomSpec(rule: WallRule, g: seq<Tile>, d: Data, T: int, rows: int)
    requires T > 0
    ensures var r := WallRoom(rule, g, d, T, rows).0;
            forall j :: 0 <= j < |g| ==>
              OnlyWalls(g[j], r[j]) && (j !in Indices(RoomCells(d, T), T, rows) ==> r[j] == g[j])
  {
    var r := WallRoom(rule, g, d, T, rows).0;
    forall j | 0 <= j < |g|
      ensures OnlyWalls(g[j], r[j]) && (j !in Indices(RoomCells(d, T), T, rows) ==> r[j] == g[j])
    {
      WallCellsAt(rule, g, [], RoomCells(d, T), d, T, rows, j);
    }
  }

  /** The corridor ids of the corridor tiles of g. */
  function CorridorIds(g: seq<Tile>): set<int>
  {
    set j | 0 <= j < |g| && g[j].tileType == CorridorTile :: g[j].corridorID
  }

  /** Every corridor id on the list is already listed or is the id of a corridor tile. */
  predicate OpensOnto(g: seq<Tile>, before: seq<int>, after: seq<int>)
  {
    forall a :: 0 <= a < |after| ==> after[a] in before || after[a] in CorridorIds(g)
  }

  /** Tile a is a tile of corridor c. */
  predicate CorridorAt(g: seq<Tile>, a: int, c: int)
  {
    0 <= a < |g| && g[a].tileType == CorridorTile && g[a].corridorID == c
  }

  /** Cell p of room d has a tile and looks out of the room at a tile of corridor c: to
      the left from the left column, or to the right from the right column. */
  predicate Faces(rule: WallRule, g: seq<Tile>, p: Point, d: Data, T: int, rows: int, c: int)
    requires T > 0
  {
    && 0 <= TileIndex(p.x, p.y, T, rows) < |g|
    && ((p.x == d.left && CorridorAt(g, Beside(rule, p, -1, T, rows), c))
        || (p.x == d.left + d.width - T && CorridorAt(g, Beside(rule, p, 1, T, rows), c)))
  }

  /** The position of the first cell that faces corridor c, or |cells| when none does. */
  function FirstFacing(rule: WallRule, g: seq<Tile>, cells: seq<Point>, d: Data, T: int,
                       rows: int, c: int): (n: nat)
    requires T > 0
    ensures n <= |cells|
    ensures n < |cells| ==> Faces(rule, g, cells[n], d, T, rows, c)
    ensures forall a :: 0 <= a < n ==> !Faces(rule, g, cells[a], d, T, rows, c)
    decreases |cells|
  {
    if cells == [] then 0
    else if Faces(rule, g, cells[0], d, T, rows, c) then 0
    else 1 + FirstFacing(rule, g, cells[1..], d, T, rows, c)
  }

  /** Some cell faces corridor c. */
  predicate FacedBy(rule: WallRule, g: seq<Tile>, cells: seq<Point>, d: Data, T: int, rows: int,
                    c: int)
    requires T > 0
  {
    FirstFacing(rule, g, cells, d, T, rows, c) < |cells|
  }

  /** The first cell facing c is the same in two grids that agree on types and ids. */
  lemma FirstFacingKept(rule: WallRule, g: seq<Tile>, g1: seq<Tile>, cells: seq<Point>, d: Data,
                        T: int, rows: int, c: int)
    requires T > 0 && |g1| == |g|
    requires forall j :: 0 <= j < |g| ==>
               g1[j].tileType == g[j].tileType && g1[j].corridorID == g[j].corridorID
    ensures FirstFacing(rule, g1, cells, d, T, rows, c) == FirstFacing(rule, g, cells, d, T, rows, c)
  {
    var n, n1 := FirstFacing(rule, g, cells, d, T, rows, c), FirstFacing(rule, g1, cells, d, T, rows, c);
    if n < n1 {
      assert Faces(rule, g, cells[n], d, T, rows, c);
    }
  }

  /** Where the room is left open: the list of corridors it opens onto extends the list it
      started with, repeats no corridor, and names only corridors present in the grid. */
  lemma {:induction false} WallCellsOpenings(rule: WallRule, g: seq<Tile>, conns: seq<int>,
                                             cells: seq<Point>, d: Data, T: int, rows: int)
    requires T > 0 && Distinct(conns)
    ensures var r := WallCells(rule, g, conns, cells, d, T, rows);
            && |r.1| >= |conns| && r.1[..|conns|] == conns
            && Distinct(r.1)
            && OpensOnto(g, conns, r.1)
            && forall a :: 0 <= a < |r.1| ==>
                 r.1[a] in conns || FacedBy(rule, g, cells, d, T, rows, r.1[a])
    decreases |cells|
  {
    if cells != [] {
      var (g1, conns1) := WallTile(rule, g, conns, cells[0], d, T, rows);
      var r := WallCells(rule, g1, conns1, cells[1..], d, T, rows);
      WallTileOpenings(rule, g, conns, cells[0], d, T, rows);
      WallCellsOpenings(rule, g1, conns1, cells[1..], d, T, rows);
      WallTileOnlyAt(rule, g, conns, cells[0], d, T, rows);
      assert r.1[..|conns|] == r.1[..|conns1|][..|conns|];
      forall a | 0 <= a < |r.1|
        ensures r.1[a] in conns || r.1[a] in CorridorIds(g)
        ensures r.1[a] in conns || FacedBy(rule, g, cells, d, T, rows, r.1[a])
      {
        var c := r.1[a];
        if c !in conns1 {
          var j :| 0 <= j < |g1| && g1[j].tileType == CorridorTile && g1[j].corridorID == c;
          WallTileAt(rule, g, conns, cells[0], d, T, rows, j);
          FirstFacingKept(rule, g, g1, cells[1..], d, T, rows, c);
        } else if c !in conns {
          var b :| 0 <= b < |conns1| && conns1[b] == c;
        }
      }
    }
  }

  /** One cell of the wall loop extends the corridor list by at most the ids of corridor
      tiles, keeping it free of repeats; an id it adds is one of a corridor the cell
      faces. */
  lemma WallTileOpenings(rule: WallRule, g: seq<Tile>, conns: seq<int>, p: Point, d: Data,
                         T: int, rows: int)
    requires T > 0 && Distinct(conns)
    ensures var r := WallTile(rule, g, conns, p, d, T, rows);
            && |r.1| >= |conns| && r.1[..|conns|] == conns
            && Distinct(r.1)
            && OpensOnto(g, conns, r.1)
            && forall a :: 0 <= a < |r.1| ==> r.1[a] in conns || Faces(rule, g, p, d, T, rows, r.1[a])
  {
  }

  /** Each corridor on the list is one some side cell of room d faces in g. */
  predicate OpensFacing(rule: WallRule, g: seq<Tile>, d: Data, T: int, rows: int, open: seq<int>)
    requires T > 0
  {
    forall a :: 0 <= a < |open| ==> FacedBy(rule, g, RoomCells(d, T), d, T, rows, open[a])
  }

  /** A room opens onto each corridor at most once: the list of corridors it was left
      open to repeats none, and each is a corridor of the grid that one of the room's
      side cells faces. */
  lemma WallRoomOpenings(rule: WallRule, g: seq<Tile>, d: Data, T: int, rows: int)
    requires T > 0
    ensures var open := WallRoom(rule, g, d, T, rows).1;
            && Distinct(open) && (forall a :: 0 <= a < |open| ==> open[a] in CorridorIds(g))
            && OpensFacing(rule, g, d, T, rows, open)
  {
    WallCellsOpenings(rule, g, [], RoomCells(d, T), d, T, rows);
  }

  // ------------------------------------------------------------ one opening per corridor

  /** The wall on the side cell p looks out of: left on the left column, else right. */
  function SideWall(p: Point, d: Data): DungeonObject
  {
    if p.x == d.left then LeftWall else RightWall
  }

  /** Cell p's tile is in g and carries the wall on its side. */
  predicate HasSideWall(g: seq<Tile>, p: Point, d: Data, T: int, rows: int)
    requires T > 0
  {
    var i := TileIndex(p.x, p.y, T, rows);
    0 <= i < |g| && SideWall(p, d) in g[i].objects
  }

  /** One cell of a room whose left and right columns differ: the list gains c exactly
      when the cell faces c and c is not yet on it, and then the cell's side is left open;
      a cell facing a corridor already on the list is walled on that side. */
  lemma WallTileOpensOnce(rule: WallRule, g: seq<Tile>, conns: seq<int>, p: Point, d: Data,
                          T: int, rows: int, c: int)
    requires T > 0 && d.width != T
    ensures var r := WallTile(rule, g, conns, p, d, T, rows);
            && (c in r.1 <==> c in conns || Faces(rule, g, p, d, T, rows, c))
            && (Faces(rule, g, p, d, T, rows, c) && c in conns ==> HasSideWall(r.0, p, d, T, rows))
            && (Faces(rule, g, p, d, T, rows, c) && c !in conns && !HasSideWall(g, p, d, T, rows)
                ==> !HasSideWall(r.0, p, d, T, rows))
  {
  }

  lemma {:induction false} WallCellsOpensOnce(rule: WallRule, g: seq<Tile>, conns: seq<int>,
                                              cells: seq<Point>, d: Data, T: int, rows: int,
                                              c: int)
    requires T > 0 && d.width != T && DistinctIndices(cells, T, rows)
    requires forall a :: 0 <= a < |cells| ==> !HasSideWall(g, cells[a], d, T, rows)
    ensures var r := WallCells(rule, g, conns, cells, d, T, rows);
            var n := FirstFacing(rule, g, cells, d, T, rows, c);
            && (c in r.1 <==> c in conns || n < |cells|)
            && (c !in conns && n < |cells| ==> !HasSideWall(r.0, cells[n], d, T, rows))
            && forall a :: 0 <= a < |cells| && Faces(rule, g, cells[a], d, T, rows, c)
                           && (c in conns || a != n)
                           ==> HasSideWall(r.0, cells[a], d, T, rows)
    decreases |cells|
  {
    if cells != [] {
      var p, rest := cells[0], cells[1..];
      var i := TileIndex(p.x, p.y, T, rows);
      var (g1, conns1) := WallTile(rule, g, conns, p, d, T, rows);
      var r := WallCells(rule, g1, conns1, rest, d, T, rows);
      WallTileOpensOnce(rule, g, conns, p, d, T, rows, c);
      WallTileOnlyAt(rule, g, conns, p, d, T, rows);
      assert forall x, y :: 0 <= x < y < |rest| ==>
               rest[x] == cells[x + 1] && rest[y] == cells[y + 1];
      assert i !in Indices(rest, T, rows) by {
        forall q | q in rest
          ensures TileIndex(q.x, q.y, T, rows) != i
        {
          var b :| 0 <= b < |rest| && rest[b] == q;
          assert cells[b + 1] == q;
        }
      }
      forall a | 0 <= a < |rest|
        ensures !HasSideWall(g1, rest[a], d, T, rows)
        ensures Faces(rule, g1, rest[a], d, T, rows, c) == Faces(rule, g, rest[a], d, T, rows, c)
      {
        assert rest[a] == cells[a + 1];
      }
      FirstFacingKept(rule, g, g1, rest, d, T, rows, c);
      WallCellsOpensOnce(rule, g1, conns1, rest, d, T, rows, c);
      WallCellsAt(rule, g1, conns1, rest, d, T, rows, i);
      forall a | 0 <= a < |cells| && Faces(rule, g, cells[a], d, T, rows, c)
                 && (c in conns || a != FirstFacing(rule, g, cells, d, T, rows, c))
        ensures HasSideWall(r.0, cells[a], d, T, rows)
      {
        if a > 0 {
          assert cells[a] == rest[a - 1];
        }
      }
    }
  }

  /** A room opens onto each corridor it faces exactly once. For a room whose left and
      right columns differ, whose cells map to distinct tiles without side walls yet: the
      room's list names corridor c exactly when some side cell faces a tile of c; the
      first such cell is left open on that side and every other cell facing c is walled
      there. */
  lemma WallRoomOpensOnce(rule: WallRule, g: seq<Tile>, d: Data, T: int, rows: int, c: int)
    requires T > 0 && d.width != T && DistinctIndices(RoomCells(d, T), T, rows)
    requires var cells := RoomCells(d, T);
             forall a :: 0 <= a < |cells| ==> !HasSideWall(g, cells[a], d, T, rows)
    ensures var cells := RoomCells(d, T);
            var r := WallRoom(rule, g, d, T, rows);
            var n := FirstFacing(rule, g, cells, d, T, rows, c);
            && (c in r.1 <==> n < |cells|)
            && (n < |cells| ==> !HasSideWall(r.0, cells[n], d, T, rows))
            && forall a :: 0 <= a < |cells| && a != n && Faces(rule, g, cells[a], d, T, rows, c)
                           ==> HasSideWall(r.0, cells[a], d, T, rows)
  {
    WallCellsOpensOnce(rule, g, [], RoomCells(d, T), d, T, rows, c);
  }

  // ------------------------------------------------------------ walls placed

  /** Tile a of g is outside the array or EMPTY: the rule puts a wall towards it
      whatever corridors the room already opens onto. */
  predicate FacesNothing(g: seq<Tile>, a: int)
  {
    !(0 <= a < |g|) || g[a].tileType == EmptyTile
  }

  /** The walls cell p of room d is sure to carry in r, judging its neighbours by g: a
      bottom wall on the bottom row; a top wall on the top row, unless ElseIf skips it on
      the bottom row; a left wall on the left column when the tile before it faces
      nothing; and a right wall on the right column when the tile after it faces nothing
      and the right test runs regardless of the left one (the columns differ, or
      EachSide). */
  predicate CellWalls(rule: WallRule, g: seq<Tile>, r: seq<Tile>, p: Point, d: Data, T: int,
                      rows: int)
    requires T > 0
  {
    var i := TileIndex(p.x, p.y, T, rows);
    0 <= i < |r| ==>
      && (p.y == d.bottom ==> BottomWall in r[i].objects)
      && (p.y == d.bottom + d.height - T && (p.y != d.bottom || rule.sides == EachSide)
          ==> TopWall in r[i].objects)
      && (p.x == d.left && FacesNothing(g, Beside(rule, p, -1, T, rows))
          ==> LeftWall in r[i].objects)
      && (p.x == d.left + d.width - T && (p.x != d.left || rule.sides == EachSide)
          && FacesNothing(g, Beside(rule, p, 1, T, rows))
          ==> RightWall in r[i].objects)
  }

  lemma WallsAddedKeeps(a: seq<DungeonObject>, b: seq<DungeonObject>, o: DungeonObject)
    requires WallsAdded(a, b) && o in a
    ensures o in b
  {
    var k :| 0 <= k < |a| && a[k] == o;
    assert b[..|a|][k] == o;
  }

  lemma WallTileWalls(rule: WallRule, g: seq<Tile>, conns: seq<int>, p: Point, d: Data,
                      T: int, rows: int)
    requires T > 0
    ensures CellWalls(rule, g, WallTile(rule, g, conns, p, d, T, rows).0, p, d, T, rows)
  {
  }

  /** Walls stay once placed, and the tile types the rule reads do not change. */
  lemma CellWallsKept(rule: WallRule, g: seq<Tile>, g1: seq<Tile>, r: seq<Tile>, p: Point,
                      d: Data, T: int, rows: int)
    requires T > 0 && |g1| == |g| && |r| == |g| && CellWalls(rule, g, g1, p, d, T, rows)
    requires var i := TileIndex(p.x, p.y, T, rows);
             0 <= i < |g| ==> OnlyWalls(g1[i], r[i])
    ensures CellWalls(rule, g, r, p, d, T, rows)
  {
    var i := TileIndex(p.x, p.y, T, rows);
    if 0 <= i < |g| {
      forall o | o in g1[i].objects
        ensures o in r[i].objects
      {
        WallsAddedKeeps(g1[i].objects, r[i].objects, o);
      }
    }
  }

  lemma CellWallsSameTypes(rule: WallRule, g: seq<Tile>, g1: seq<Tile>, r: seq<Tile>,
                           p: Point, d: Data, T: int, rows: int)
    requires T > 0 && |g1| == |g| && CellWalls(rule, g1, r, p, d, T, rows)
    requires var a, b := Beside(rule, p, -1, T, rows), Beside(rule, p, 1, T, rows);
             && (0 <= a < |g| ==> g1[a].tileType == g[a].tileType)
             && (0 <= b < |g| ==> g1[b].tileType == g[b].tileType)
    ensures CellWalls(rule, g, r, p, d, T, rows)
  {
  }

  lemma {:induction false} WallCellsWalls(rule: WallRule, g: seq<Tile>, conns: seq<int>,
                                          cells: seq<Point>, d: Data, T: int, rows: int, a: int)
    requires T > 0 && 0 <= a < |cells|
    ensures CellWalls(rule, g, WallCells(rule, g, conns, cells, d, T, rows).0, cells[a], d, T, rows)
    decreases |cells|
  {
    var (g1, conns1) := WallTile(rule, g, conns, cells[0], d, T, rows);
    var r := WallCells(rule, g1, conns1, cells[1..], d, T, rows).0;
    var i := TileIndex(cells[a].x, cells[a].y, T, rows);
    if a == 0 {
      WallTileWalls(rule, g, conns, cells[0], d, T, rows);
      WallCellsAt(rule, g1, conns1, cells[1..], d, T, rows, i);
      CellWallsKept(rule, g, g1, r, cells[0], d, T, rows);
    } else {
      WallCellsWalls(rule, g1, conns1, cells[1..], d, T, rows, a - 1);
      WallTileAt(rule, g, conns, cells[0], d, T, rows, Beside(rule, cells[a], -1, T, rows));
      WallTileAt(rule, g, conns, cells[0], d, T, rows, Beside(rule, cells[a], 1, T, rows));
      CellWallsSameTypes(rule, g, g1, r, cells[a], d, T, rows);
    }
  }

  /** After a room's wall pass every cell of the room carries the walls CellWalls names:
      the bottom row is walled at the bottom, the top row at the top, and the side
      columns wherever the neighbouring tile is outside the grid or EMPTY, with the
      exceptions ElseIf makes in a room one tile tall or wide. */
  lemma WallRoomWalls(rule: WallRule, g: seq<Tile>, d: Data, T: int, rows: int)
    requires T > 0
    ensures var cells := RoomCells(d, T);
            var r := WallRoom(rule, g, d, T, rows).0;
            forall a :: 0 <= a < |cells| ==> CellWalls(rule, g, r, cells[a], d, T, rows)
  {
    var cells := RoomCells(d, T);
    forall a | 0 <= a < |cells|
      ensures CellWalls(rule, g, WallRoom(rule, g, d, T, rows).0, cells[a], d, T, rows)
    {
      WallCellsWalls(rule, g, [], cells, d, T, rows, a);
    }
  }

  /** A room's wall pass keeps objects empty exactly on EMPTY tiles as long as none of the
      room's tiles is EMPTY. */
  lemma WallRoomConsistent(rule: WallRule, g: seq<Tile>, d: Data, T: int, rows: int)
    requires T > 0
    ensures (&& ConsistentGrid(g)
             && forall j :: j in Indices(RoomCells(d, T), T, rows) && 0 <= j < |g|
                  ==> g[j].tileType != EmptyTile)
            ==> ConsistentGrid(WallRoom(rule, g, d, T, rows).0)
  {
    WallRoomSpec(rule, g, d, T, rows);
  }

  // ------------------------------------------------------------ all rooms

  lemma OnlyWallsTrans(a: Tile, b: Tile, c: Tile)
    requires OnlyWalls(a, b) && OnlyWalls(b, c)
    ensures OnlyWalls(a, c)
  {
    WallsAddedTrans(a.objects, b.objects, c.objects);
  }

  lemma {:induction false} WallRoomsAt(rule: WallRule, g: seq<Tile>, rooms: seq<Data>,
                                       T: int, rows: int, j: int)
    requires T > 0
    ensures var r := WallRooms(rule, g, rooms, T, rows).0;
            0 <= j < |g| ==>
              OnlyWalls(g[j], r[j]) && (j !in RoomIndices(rooms, T, rows) ==> r[j] == g[j])
    decreases |rooms|
  {
    if rooms != [] && 0 <= j < |g| {
      var g1 := WallRoom(rule, g, rooms[0], T, rows).0;
      var r := WallRooms(rule, g1, rooms[1..], T, rows).0;
      WallCellsAt(rule, g, [], RoomCells(rooms[0], T), rooms[0], T, rows, j);
      WallRoomsAt(rule, g1, rooms[1..], T, rows, j);
      OnlyWallsTrans(g[j], g1[j], r[j]);
    }
  }

  /** The wall loop appends walls to the tiles of the rooms' cells and to nothing else;
      no tile changes type, corridor id or corner. */
  lemma WallRoomsSpec(rule: WallRule, g: seq<Tile>, rooms: seq<Data>, T: int, rows: int)
    requires T > 0
    ensures var r := WallRooms(rule, g, rooms, T, rows).0;
            forall j :: 0 <= j < |g| ==>
              OnlyWalls(g[j], r[j]) && (j !in RoomIndices(rooms, T, rows) ==> r[j] == g[j])
  {
    var r := WallRooms(rule, g, rooms, T, rows).0;
    forall j | 0 <= j < |g|
      ensures OnlyWalls(g[j], r[j]) && (j !in RoomIndices(rooms, T, rows) ==> r[j] == g[j])
    {
      WallRoomsAt(rule, g, rooms, T, rows, j);
    }
  }

  /** Appending walls keeps the corridor ids present in the grid. */
  lemma CorridorIdsKept(g: seq<Tile>, g1: seq<Tile>)
    requires |g1| == |g| && forall j :: 0 <= j < |g| ==> OnlyWalls(g[j], g1[j])
    ensures CorridorIds(g1) == CorridorIds(g)
  {
    forall id | id in CorridorIds(g1)
      ensures id in CorridorIds(g)
    {
      var j :| 0 <= j < |g1| && g1[j].tileType == CorridorTile && g1[j].corridorID == id;
      assert OnlyWalls(g[j], g1[j]);
    }
    forall id | id in CorridorIds(g)
      ensures id in CorridorIds(g1)
    {
      var j :| 0 <= j < |g| && g[j].tileType == CorridorTile && g[j].corridorID == id;
      assert OnlyWalls(g[j], g1[j]);
    }
  }

  /** A list of openings that repeats no corridor and names only corridors of g. */
  predicate OpeningsOf(g: seq<Tile>, open: seq<int>)
  {
    Distinct(open) && forall a :: 0 <= a < |open| ==> open[a] in CorridorIds(g)
  }

  /** One room's wall pass: its openings, and the corridor ids it keeps. */
  lemma WallRoomStep(rule: WallRule, g: seq<Tile>, d: Data, T: int, rows: int)
    requires T > 0
    ensures var r := WallRoom(rule, g, d, T, rows);
            OpeningsOf(g, r.1) && CorridorIds(r.0) == CorridorIds(g)
  {
    WallRoomOpenings(rule, g, d, T, rows);
    WallRoomSpec(rule, g, d, T, rows);
    CorridorIdsKept(g, WallRoom(rule, g, d, T, rows).0);
  }

  /** Every room's list of openings repeats no corridor and names only corridors of the
      grid, each faced by one of that room's side cells in the walled grid; the wall loop
      keeps the corridor ids of the grid. */
  lemma {:induction false} WallRoomsOpenings(rule: WallRule, g: seq<Tile>, rooms: seq<Data>,
                                             T: int, rows: int)
    requires T > 0
    ensures var r := WallRooms(rule, g, rooms, T, rows);
            && CorridorIds(r.0) == CorridorIds(g)
            && (forall n :: 0 <= n < |r.1| ==> OpeningsOf(g, r.1[n]))
            && forall n :: 0 <= n < |r.1| ==> OpensFacing(rule, r.0, rooms[n], T, rows, r.1[n])
    decreases |rooms|
  {
    if rooms != [] {
      var (g1, open) := WallRoom(rule, g, rooms[0], T, rows);
      var (g3, rest) := WallRooms(rule, g1, rooms[1..], T, rows);
      var opens := WallRooms(rule, g, rooms, T, rows).1;
      assert opens == [open] + rest;
      WallRoomStep(rule, g, rooms[0], T, rows);
      WallRoomOpenings(rule, g, rooms[0], T, rows);
      WallRoomsOpenings(rule, g1, rooms[1..], T, rows);
      WallRoomsSpec(rule, g, rooms, T, rows);
      forall n | 0 <= n < |opens|
        ensures OpeningsOf(g, opens[n])
        ensures OpensFacing(rule, g3, rooms[n], T, rows, opens[n])
      {
        if n > 0 {
          assert opens[n] == rest[n - 1] && rooms[n] == rooms[1..][n - 1];
          assert OpeningsOf(g1, rest[n - 1]);
        } else {
          forall a | 0 <= a < |open|
            ensures FacedBy(rule, g3, RoomCells(rooms[0], T), rooms[0], T, rows, open[a])
          {
            FirstFacingKept(rule, g, g3, RoomCells(rooms[0], T), rooms[0], T, rows, open[a]);
          }
        }
      }
    }
  }

  /** The wall loop keeps objects empty exactly on EMPTY tiles as long as no tile of any
      room is EMPTY. */
  lemma {:induction false} WallRoomsConsistent(rule: WallRule, g: seq<Tile>,
                                               rooms: seq<Data>, T: int, rows: int)
    requires T > 0
    ensures (&& ConsistentGrid(g)
             && forall j :: j in RoomIndices(rooms, T, rows) && 0 <= j < |g|
                  ==> g[j].tileType != EmptyTile)
            ==> ConsistentGrid(WallRooms(rule, g, rooms, T, rows).0)
    decreases |rooms|
  {
    var filled := forall j :: j in RoomIndices(rooms, T, rows) && 0 <= j < |g|
                    ==> g[j].tileType != EmptyTile;
    if rooms != [] && ConsistentGrid(g) && filled {
      var g1 := WallRoom(rule, g, rooms[0], T, rows).0;
      WallRoomConsistent(rule, g, rooms[0], T, rows);
      WallRoomSpec(rule, g, rooms[0], T, rows);
      WallRoomsConsistent(rule, g1, rooms[1..], T, rows);
    }
  }

  // ------------------------------------------------------------ the dungeon's edges

  /** With SameRow, a room cell in the first column of the array gets a left wall and a
      cell in the last column gets a right wall, as long as the right test runs there: in
      a room wider than one tile, or with EachSide. With Corrected the edge of the dungeon
      is always walled. */
  lemma SameRowWallsEdges(rule: WallRule, g: seq<Tile>, d: Data, T: int, rows: int)
    requires T > 0 && rule.neighbour == SameRow
    ensures var cells := RoomCells(d, T);
            var r := WallRoom(rule, g, d, T, rows).0;
            forall a :: 0 <= a < |cells| ==>
              var p := cells[a];
              var i := TileIndex(p.x, p.y, T, rows);
              0 <= i < |r| ==>
                && (p.x == d.left && TruncDiv(p.x, T) == 0 ==> LeftWall in r[i].objects)
                && (&& p.x == d.left + d.width - T && TruncDiv(p.x, T) == rows - 1
                    && (p.x != d.left || rule.sides == EachSide)
                    ==> RightWall in r[i].objects)
  {
    WallRoomWalls(rule, g, d, T, rows);
  }

  /** As written, the one-tile room at column 0, row 1 of a 2 x 2 array looks to its left
      at tile 1, the end of row 0; with a room there it gets no left wall although it
      stands on the dungeon's edge. With SameRow it gets one. */
  lemma FlatIndexOpensEdge()
    ensures var room := Tile(1, 0, [FloorObject], RoomTile, 0);
            var g := [EmptyTileValue, room, EmptyTileValue, EmptyTileValue];
            var d := Data(4, 1, 1, 0, 1, Vertical, 0);
            && RoomCells(d, 1) == [Point(0, 1)]
            && TileIndex(0, 1, 1, 2) == 2 && TruncDiv(0, 1) == 0
            && LeftWall !in WallRoom(AsWritten, g, d, 1, 2).0[2].objects
            && LeftWall in WallRoom(AsWritten.(neighbour := SameRow), g, d, 1, 2).0[2].objects
  {
    var d := Data(4, 1, 1, 0, 1, Vertical, 0);
    assert Ascending(1, 2, 1) == [1];
    assert Ascending(0, 1, 1) == [0];
    assert RoomCells(d, 1) == [Point(0, 1)];
  }

  // ------------------------------------------------------------ rooms one tile wide or tall

  /** With EachSide every cell is walled on each side of the room it lies on, wherever
      that side faces nothing: the bottom and top rows, and the left and right columns
      towards a tile outside the array or EMPTY, also in a room one tile wide or tall. */
  lemma EachSideWallsAllSides(rule: WallRule, g: seq<Tile>, d: Data, T: int, rows: int)
    requires T > 0 && rule.sides == EachSide
    ensures var cells := RoomCells(d, T);
            var r := WallRoom(rule, g, d, T, rows).0;
            forall a :: 0 <= a < |cells| ==>
              var p := cells[a];
              var i := TileIndex(p.x, p.y, T, rows);
              0 <= i < |r| ==>
                && (p.y == d.bottom ==> BottomWall in r[i].objects)
                && (p.y == d.bottom + d.height - T ==> TopWall in r[i].objects)
                && (p.x == d.left && FacesNothing(g, Beside(rule, p, -1, T, rows))
                    ==> LeftWall in r[i].objects)
                && (p.x == d.left + d.width - T && FacesNothing(g, Beside(rule, p, 1, T, rows))
                    ==> RightWall in r[i].objects)
  {
    WallRoomWalls(rule, g, d, T, rows);
  }

  /** As written, a one-tile room in the middle of a 3 x 3 array, with nothing around it,
      gets a bottom and a left wall only: the top and right tests never run. With
      EachSide it is walled on all four sides. */
  lemma ElseIfLeavesSidesOpen()
    ensures var room := Tile(1, 1, [FloorObject], RoomTile, 0);
            var g := [EmptyTileValue, EmptyTileValue, EmptyTileValue, EmptyTileValue, room,
                      EmptyTileValue, EmptyTileValue, EmptyTileValue, EmptyTileValue];
            var d := Data(0, 1, 1, 1, 1, Vertical, 0);
            && RoomCells(d, 1) == [Point(1, 1)]
            && WallRoom(AsWritten, g, d, 1, 3).0[4].objects
                 == [FloorObject, BottomWall, LeftWall]
            && WallRoom(Corrected, g, d, 1, 3).0[4].objects
                 == [FloorObject, BottomWall, TopWall, LeftWall, RightWall]
  {
    var d := Data(0, 1, 1, 1, 1, Vertical, 0);
    assert Ascending(1, 2, 1) == [1];
    assert RoomCells(d, 1) == [Point(1, 1)];
  }

  /** As written, a room one tile wide and two tall, EMPTY to its left and corridor 7 to
      its right, never runs the right test: neither tile gets a right wall and the room
      records no corridor, so it opens onto corridor 7 twice. With EachSide it records
      corridor 7, opens onto it from its bottom tile and walls the top one. */
  lemma ElseIfOpensTwice()
    ensures var room := Tile(1, 0, [FloorObject], RoomTile, 0);
            var cor := Tile(2, 0, [FloorObject], CorridorTile, 7);
            var g := [EmptyTileValue, room, cor, EmptyTileValue, room, cor,
                      EmptyTileValue, EmptyTileValue, EmptyTileValue];
            var d := Data(0, 1, 2, 1, 0, Vertical, 0);
            var asWritten := WallRoom(AsWritten, g, d, 1, 3);
            var corrected := WallRoom(Corrected, g, d, 1, 3);
            && RoomCells(d, 1) == [Point(1, 0), Point(1, 1)]
            && asWritten.1 == []
            && RightWall !in asWritten.0[1].objects && RightWall !in asWritten.0[4].objects
            && corrected.1 == [7]
            && RightWall !in corrected.0[1].objects && RightWall in corrected.0[4].objects
  {
    var d := Data(0, 1, 2, 1, 0, Vertical, 0);
    assert Ascending(1, 2, 1) == [1];
    assert Ascending(0, 2, 1) == [0, 1];
    assert RoomCells(d, 1) == [Point(1, 0), Point(1, 1)];
  }
}
