/** Room selection (SelectDungeonRooms, DungeonSpace.cpp:220-232) and room shrinking
    (ShrinkSpaceToRoom, DungeonSpace.cpp:514-542). Rooms are kept as the rectangles of
    the selected nodes, in the order the source appends them to DungeonRooms. */
module Rooms {
  import opened DungeonTypes
  import opened Oracle
  import opened Partition
  import opened PartitionProofs

  // ------------------------------------------------------------- selection

  /** The test of DungeonSpace.cpp:225: the node is at the last split level or misses a
      child. */
  predicate IsRoom(t: Space, depth: int, iterations: int)
    requires t.Node?
  {
    depth == iterations || t.left.Nil? || t.right.Nil?
  }

  /** Every node of a tree, in pre-order, with the depth SelectDungeonRooms visits it at. */
  function PreOrder(t: Space, depth: int): (r: seq<(Space, int)>)
    ensures forall j :: 0 <= j < |r| ==> r[j].0.Node?
    ensures t.Node? ==> |r| > 0 && r[0] == (t, depth)
  {
    if t.Nil? then []
    else [(t, depth)] + PreOrder(t.left, depth + 1) + PreOrder(t.right, depth + 1)
  }

  /** The rectangles of the visits that pass the room test, in visit order. */
  function RoomsOf(visits: seq<(Space, int)>, iterations: int): (r: seq<Data>)
    requires forall j :: 0 <= j < |visits| ==> visits[j].0.Node?
    ensures |r| <= |visits|
  {
    if visits == [] then []
    else
      (if IsRoom(visits[0].0, visits[0].1, iterations) then [visits[0].0.data] else [])
      + RoomsOf(visits[1..], iterations)
  }

  /** SelectDungeonRooms(currentSpace, currentDepth): the rooms appended to DungeonRooms,
      in order. A null tree appends nothing; a node is appended before its subtrees are
      visited, whether or not it is a room. */
  function SelectDungeonRooms(t: Space, depth: int, iterations: int): (rooms: seq<Data>)
    ensures t.Nil? ==> rooms == []
    ensures t.Node? && IsRoom(t, depth, iterations) ==> |rooms| > 0 && rooms[0] == t.data
  {
    if t.Nil? then []
    else
      (if IsRoom(t, depth, iterations) then [t.data] else [])
      + SelectDungeonRooms(t.left, depth + 1, iterations)
      + SelectDungeonRooms(t.right, depth + 1, iterations)
  }

  lemma {:induction false} RoomsOfAppend(a: seq<(Space, int)>, b: seq<(Space, int)>,
                                         iterations: int)
    requires forall j :: 0 <= j < |a| ==> a[j].0.Node?
    requires forall j :: 0 <= j < |b| ==> b[j].0.Node?
    ensures RoomsOf(a + b, iterations) == RoomsOf(a, iterations) + RoomsOf(b, iterations)
  {
    if a == [] {
      assert a + b == b;
    } else {
      var head := if IsRoom(a[0].0, a[0].1, iterations) then [a[0].0.data] else [];
      assert (a + b)[0] == a[0];
      assert (a + b)[1..] == a[1..] + b;
      RoomsOfAppend(a[1..], b, iterations);
      assert RoomsOf(a + b, iterations) == head + RoomsOf(a[1..] + b, iterations);
      assert RoomsOf(a, iterations) == head + RoomsOf(a[1..], iterations);
    }
  }

  /** SelectDungeonRooms appends, in pre-order, exactly the visited nodes that pass the
      room test. */
  lemma {:induction false} SelectIsPreOrderFilter(t: Space, depth: int, iterations: int)
    ensures SelectDungeonRooms(t, depth, iterations) == RoomsOf(PreOrder(t, depth), iterations)
  {
    if t.Node? {
      var l, r := PreOrder(t.left, depth + 1), PreOrder(t.right, depth + 1);
      SelectIsPreOrderFilter(t.left, depth + 1, iterations);
      SelectIsPreOrderFilter(t.right, depth + 1, iterations);
      RoomsOfAppend([(t, depth)] + l, r, iterations);
      RoomsOfAppend([(t, depth)], l, iterations);
      assert ([(t, depth)] + l)[1..] == l;
    }
  }

  /** A visit contributes its rectangle exactly when it passes the room test. */
  lemma {:induction false} RoomsOfMembership(visits: seq<(Space, int)>, iterations: int,
                                             j: int)
    requires forall i :: 0 <= i < |visits| ==> visits[i].0.Node?
    requires 0 <= j < |visits|
    requires forall i :: 0 <= i < |visits| && i != j ==> visits[i].0.data != visits[j].0.data
    ensures visits[j].0.data in RoomsOf(visits, iterations)
            <==> IsRoom(visits[j].0, visits[j].1, iterations)
  {
    if j > 0 {
      RoomsOfMembership(visits[1..], iterations, j - 1);
    } else {
      RoomsOfAbsent(visits[1..], iterations, visits[0].0.data);
    }
  }

  lemma {:induction false} RoomsOfAbsent(visits: seq<(Space, int)>, iterations: int, d: Data)
    requires forall i :: 0 <= i < |visits| ==> visits[i].0.Node?
    requires forall i :: 0 <= i < |visits| ==> visits[i].0.data != d
    ensures d !in RoomsOf(visits, iterations)
  {
    if visits != [] {
      RoomsOfAbsent(visits[1..], iterations, d);
    }
  }

  /** The node keys of a sequence of visits. */
  function VisitKeys(visits: seq<(Space, int)>): (ks: seq<int>)
    requires forall j :: 0 <= j < |visits| ==> visits[j].0.Node?
    ensures |ks| == |visits|
  {
    seq(|visits|, j requires 0 <= j < |visits| => visits[j].0.data.key)
  }

  /** Every key lies in the subtree at i and no key repeats. */
  predicate DistinctBelow(ks: seq<int>, i: int)
    requires i >= 0
  {
    && (forall j :: 0 <= j < |ks| ==> InSubtree(ks[j], i))
    && (forall j, j' :: 0 <= j < j' < |ks| ==> ks[j] != ks[j'])
  }

  lemma DistinctCombine(i: int, l: seq<int>, r: seq<int>)
    requires i >= 0 && DistinctBelow(l, 2 * i + 1) && DistinctBelow(r, 2 * i + 2)
    ensures DistinctBelow([i] + l + r, i)
  {
    var ks := [i] + l + r;
    forall j | 0 <= j < |ks|
      ensures InSubtree(ks[j], i) && (j > 0 ==> ks[j] != i)
      ensures 0 < j <= |l| ==> InSubtree(ks[j], 2 * i + 1)
      ensures |l| < j ==> InSubtree(ks[j], 2 * i + 2)
    {
      if j > 0 {
        SubtreeOfChild(ks[j], i);
      }
    }
    forall j, j' | 0 <= j < j' < |ks|
      ensures ks[j] != ks[j']
    {
      SubtreeOfChild(ks[j], i);
    }
  }

  /** The pre-order visits of a heap-keyed subtree carry distinct keys of that subtree. */
  lemma {:induction false} PreOrderDistinct(t: Space, i: int, depth: int)
    requires i >= 0 && HeapKeyed(t, i)
    ensures DistinctBelow(VisitKeys(PreOrder(t, depth)), i)
  {
    if t.Node? {
      var l, r := PreOrder(t.left, depth + 1), PreOrder(t.right, depth + 1);
      PreOrderDistinct(t.left, 2 * i + 1, depth + 1);
      PreOrderDistinct(t.right, 2 * i + 2, depth + 1);
      DistinctCombine(i, VisitKeys(l), VisitKeys(r));
      assert VisitKeys(PreOrder(t, depth)) == [i] + VisitKeys(l) + VisitKeys(r);
    }
  }

  /** On a heap-keyed tree, a visited node is among the selected rooms exactly when it
      is on the last split level or misses a child. */
  lemma SelectIff(t: Space, i: int, depth: int, iterations: int, j: int)
    requires i >= 0 && HeapKeyed(t, i) && 0 <= j < |PreOrder(t, depth)|
    ensures var v := PreOrder(t, depth)[j];
            v.0.data in SelectDungeonRooms(t, depth, iterations) <==> IsRoom(v.0, v.1, iterations)
  {
    var visits := PreOrder(t, depth);
    PreOrderDistinct(t, i, depth);
    SelectIsPreOrderFilter(t, depth, iterations);
    forall j' | 0 <= j' < |visits| && j' != j
      ensures visits[j'].0.data != visits[j].0.data
    {
      assert VisitKeys(visits)[j'] != VisitKeys(visits)[j];
    }
    RoomsOfMembership(visits, iterations, j);
  }

  /** The rectangles of the leaves of a tree, left to right. */
  function Leaves(t: Space): seq<Data>
  {
    if t.Nil? then []
    else if t.left.Nil? && t.right.Nil? then [t.data]
    else Leaves(t.left) + Leaves(t.right)
  }

  lemma DepthOfChildren(i: nat)
    ensures Depth(2 * i + 1) == Depth(i) + 1 && Depth(2 * i + 2) == Depth(i) + 1
  {
    assert (2 * i + 1 - 1) / 2 == i;
    assert (2 * i + 2 - 1) / 2 == i;
  }

  /** On a tree SplitSpace builds (heap-keyed from i, keys below the index bound, every
      node with two children or none), the rooms selected from node i at its depth are
      exactly the leaves: the depth test never selects an inner node, because an inner
      node's children are below the bound and so the node is above the last level. */
  lemma {:induction false} RoomsAreLeaves(t: Space, i: nat, iterations: nat)
    requires HeapKeyed(t, i) && KeysBelow(t, MaxElements(iterations)) && Full(t)
    ensures SelectDungeonRooms(t, Depth(i), iterations) == Leaves(t)
  {
    if t.Node? {
      DepthOfChildren(i);
      RoomsAreLeaves(t.left, 2 * i + 1, iterations);
      RoomsAreLeaves(t.right, 2 * i + 2, iterations);
      if t.left.Node? {
        InnerAboveLastLevel(i, iterations);
        assert !IsRoom(t, Depth(i), iterations);
      } else {
        assert SelectDungeonRooms(t, Depth(i), iterations) == [t.data];
      }
    }
  }

  /** A node whose odd child is below the index bound is not on the last split level. */
  lemma InnerAboveLastLevel(i: nat, iterations: nat)
    requires 2 * i + 1 < MaxElements(iterations)
    ensures Depth(i) != iterations
  {
    DepthOfChildren(i);
    IndexBoundIsDepthBound(2 * i + 1, iterations);
  }

  // --------------------------------------------------------------- shrinking

  /** The whole tiles along one axis that may be removed from a room: the tiles above
      the minimum, and never more than half of them (DungeonSpace.cpp:519-520, 531-532). */
  function SpareTiles(dim: int, T: int, minTiles: int): int
    requires T > 0
  {
    var tiles := TruncDiv(dim, T);
    var spare := tiles - minTiles;
    var half := TruncDiv(tiles, 2);
    if spare < half then spare else half
  }

  /** One axis of ShrinkSpaceToRoom (DungeonSpace.cpp:518-528 for the width, 530-540 for
      the height): when more than one tile is spare, draw how many to remove and remove
      them; the origin moves up by half of them when that number is even, and stays when
      it is odd (C++ evaluates -1 / 2 to 0). Returns the new origin, the new length, the
      number of tiles removed and the remaining draws. */
  function ShrinkAxis(origin: int, dim: int, T: int, minTiles: int, draws: Draws)
    : (r: (int, int, int, Draws))
    requires T > 0
    ensures var (o, d, k, _) := r;
            var extra := SpareTiles(dim, T, minTiles);
            && (extra <= 1 ==> r == (origin, dim, 0, draws))
            && (extra > 1 ==>
                  && 1 <= k <= extra
                  && d == dim - k * T
                  && (k % 2 == 0 ==> o - origin == (origin + dim) - (o + d))
                  && (k % 2 == 1 ==> o == origin)
                  && r.3 == RandRange(1, extra, draws).1)
  {
    var extra := SpareTiles(dim, T, minTiles);
    if extra > 1 then
      var (k, rest) := RandRange(1, extra, draws);
      var shift := if k % 2 == 1 then TruncDiv(-1, 2) else TruncDiv(k, 2);
      (origin + shift * T, dim - k * T, k, rest)
    else
      (origin, dim, 0, draws)
  }

  /** The arithmetic of one shrunk axis: removing k <= tiles/2 whole tiles, and moving
      the origin by at most k tiles, stays inside the original length and leaves
      tiles - k whole tiles. */
  lemma ShrinkArith(dim: int, tiles: int, k: int, shift: int, T: int)
    requires T > 0 && dim >= 0 && tiles == TruncDiv(dim, T)
    requires 1 <= k && 2 * k <= tiles && 0 <= shift <= k
    ensures 0 <= shift * T <= k * T
    ensures TruncDiv(dim - k * T, T) == tiles - k && dim - k * T > 0
  {
    MulLe(0, shift, T);
    MulLe(shift, k, T);
    DivOfShifted(dim, tiles, k, T);
    PositiveOfDiv(dim - k * T, T);
  }

  lemma PositiveOfDiv(d: int, T: int)
    requires T > 0 && TruncDiv(d, T) >= 1
    ensures d > 0
  {
  }

  /** Removing k whole tiles from a length of `tiles` whole tiles (plus a remainder)
      leaves tiles - k whole tiles. */
  lemma DivOfShifted(dim: int, tiles: int, k: int, T: int)
    requires T > 0 && 0 <= k <= tiles && tiles == TruncDiv(dim, T) && dim >= 0
    ensures TruncDiv(dim - k * T, T) == tiles - k
  {
    TruncDivNonNeg(dim, T);
    var rem := dim - tiles * T;
    assert 0 <= rem < T by { TruncDivRoundsTowardZero(dim, T); }
    var q := tiles - k;
    assert dim - k * T == q * T + rem by {
      assert q * T == tiles * T - k * T;
    }
    MulLe(0, q, T);
    var v := q * T + rem;
    var q', r' := v / T, v % T;
    assert v == q' * T + r';
    assert (q - q') * T == r' - rem;
    if q - q' >= 1 { MulLe(1, q - q', T); }
    if q - q' <= -1 { MulLe(q - q', -1, T); }
  }

  /** The shrunk axis lies inside the original one and keeps at least MinTilesPerRoom
      whole tiles, and at least half of them, whenever it was shrunk. */
  lemma ShrinkAxisInside(origin: int, dim: int, T: int, minTiles: int, draws: Draws)
    requires T > 0
    ensures var r := ShrinkAxis(origin, dim, T, minTiles, draws);
            && origin <= r.0 && r.0 + r.1 <= origin + dim
            && (r.2 > 0 ==> TruncDiv(r.1, T) >= minTiles && 2 * TruncDiv(r.1, T) >= TruncDiv(dim, T)
                            && r.1 > 0)
  {
    var r := ShrinkAxis(origin, dim, T, minTiles, draws);
    var k := r.2;
    if k > 0 {
      var shift := if k % 2 == 1 then TruncDiv(-1, 2) else TruncDiv(k, 2);
      assert r.0 == origin + shift * T && r.1 == dim - k * T;
      ShrinkArith(dim, TruncDiv(dim, T), k, shift, T);
    }
  }

  /** Every number of tiles the source may remove is removed for some draw: the oracle
      leaves the choice in [1, extra] unconstrained. */
  lemma ShrinkAxisOnto(origin: int, dim: int, T: int, minTiles: int, k: int, rest: Draws)
    requires T > 0 && 1 <= k <= SpareTiles(dim, T, minTiles) && SpareTiles(dim, T, minTiles) > 1
    ensures ShrinkAxis(origin, dim, T, minTiles, [k - 1] + rest).1 == dim - k * T
  {
    RandRangeOnto(1, SpareTiles(dim, T, minTiles), k, rest);
  }

  /** The rectangle `inner` lies inside `outer`. */
  predicate Inside(inner: Data, outer: Data)
  {
    && outer.left <= inner.left && inner.left + inner.width <= outer.left + outer.width
    && outer.bottom <= inner.bottom && inner.bottom + inner.height <= outer.bottom + outer.height
  }

  /** ShrinkSpaceToRoom on a room's rectangle: the width first, then the height, each
      drawing from the stream only when it has more than one spare tile. Only the
      rectangle changes; it stays inside the original, and an axis that is shrunk keeps
      at least MinTilesPerRoom whole tiles. */
  function ShrinkSpaceToRoom(d: Data, cfg: Config, draws: Draws): (r: (Data, Draws))
    requires cfg.tileSize > 0
    ensures Inside(r.0, d)
    ensures r.0.key == d.key && r.0.seperation == d.seperation
            && r.0.tilesSeperated == d.tilesSeperated
    ensures r.0.width != d.width ==>
              TruncDiv(r.0.width, cfg.tileSize) >= cfg.minTilesPerRoom && r.0.width > 0
    ensures r.0.height != d.height ==>
              TruncDiv(r.0.height, cfg.tileSize) >= cfg.minTilesPerRoom && r.0.height > 0
    ensures SpareTiles(d.width, cfg.tileSize, cfg.minTilesPerRoom) <= 1 ==>
              r.0.left == d.left && r.0.width == d.width
    ensures SpareTiles(d.height, cfg.tileSize, cfg.minTilesPerRoom) <= 1 ==>
              r.0.bottom == d.bottom && r.0.height == d.height
  {
    var T, m := cfg.tileSize, cfg.minTilesPerRoom;
    var (left, width, kw, draws1) := ShrinkAxis(d.left, d.width, T, m, draws);
    var (bottom, height, kh, draws2) := ShrinkAxis(d.bottom, d.height, T, m, draws1);
    ShrinkAxisInside(d.left, d.width, T, m, draws);
    ShrinkAxisInside(d.bottom, d.height, T, m, draws1);
    (d.(left := left, width := width, bottom := bottom, height := height), draws2)
  }

  /** FillTileGrid's first loop shrinks every room in turn (DungeonSpace.cpp:240-242),
      threading the random stream from one room to the next. */
  function ShrinkRooms(rooms: seq<Data>, cfg: Config, draws: Draws): (r: (seq<Data>, Draws))
    requires cfg.tileSize > 0
    ensures |r.0| == |rooms|
    ensures forall j :: 0 <= j < |rooms| ==> Inside(r.0[j], rooms[j]) && r.0[j].key == rooms[j].key
  {
    if rooms == [] then ([], draws)
    else
      var (first, rest) := ShrinkSpaceToRoom(rooms[0], cfg, draws);
      var (others, last) := ShrinkRooms(rooms[1..], cfg, rest);
      ([first] + others, last)
  }
}
