/** SplitSpace (DungeonSpace.cpp:95-207): recursive binary space partitioning of the
    dungeon square. Nodes are addressed heap-style (root 0, children 2i+1 and 2i+2),
    the recursion is bounded by `index < maxElements`, and a table of corridors keyed
    by the odd child's index is threaded through the recursion. */
module Partition {
  import opened DungeonTypes
  import opened Oracle

  function Pow2(n: nat): (r: nat)
    ensures r >= 1
  {
    if n == 0 then 1 else 2 * Pow2(n - 1)
  }

  /** `pow(2, RoomSplitIterations + 1) - 1` (DungeonSpace.cpp:81). For a negative
      iteration count pow yields a value in (0, 1], so the truncated result is 0. */
  function MaxElements(iterations: int): int
  {
    if iterations < 0 then 0 else Pow2(iterations + 1) - 1
  }

  /** Depth of node i in the heap-style addressing. */
  function Depth(i: nat): nat
  {
    if i == 0 then 0 else 1 + Depth((i - 1) / 2)
  }

  /** Node k lies in the subtree rooted at node i. */
  predicate InSubtree(k: int, i: int)
    requires i >= 0
    decreases k
  {
    if k < i then false else if k == i then true else InSubtree((k - 1) / 2, i)
  }

  // ---------------------------------------------------------------- rectangles

  predicate InRect(d: Data, x: int, y: int)
  {
    d.left <= x < d.left + d.width && d.bottom <= y < d.bottom + d.height
  }

  predicate SameRect(a: Data, b: Data)
  {
    a.left == b.left && a.bottom == b.bottom && a.width == b.width && a.height == b.height
  }

  /** a and b tile p exactly: a vertical cut with a on the left, or a horizontal cut
      with a on top. */
  predicate Tiles(p: Data, a: Data, b: Data)
  {
    || (&& a.left == p.left && a.bottom == p.bottom && a.height == p.height
        && b.left == p.left + a.width && b.bottom == p.bottom && b.height == p.height
        && b.width == p.width - a.width && 0 <= a.width <= p.width && 0 <= p.height)
    || (&& b.left == p.left && b.bottom == p.bottom && b.width == p.width
        && a.left == p.left && a.bottom == p.bottom + b.height && a.width == p.width
        && a.height == p.height - b.height && 0 <= b.height <= p.height && 0 <= p.width)
  }

  /** The length of the parent's rectangle along its split axis. */
  function SplitExtent(pd: Data): int
  {
    if pd.seperation == Vertical then pd.width else pd.height
  }

  /** The parent's split lies inside its (non-negative) rectangle. */
  predicate SplitFits(pd: Data, T: int)
  {
    pd.width >= 0 && pd.height >= 0 && 0 <= pd.tilesSeperated
    && T * pd.tilesSeperated <= SplitExtent(pd)
  }

  /** The rectangle of the odd child (DungeonSpace.cpp:113-121): the left part of a
      vertical split, the top part of a horizontal one. */
  function OddHalf(pd: Data, T: int): Data
  {
    if pd.seperation == Vertical then
      pd.(width := T * pd.tilesSeperated)
    else
      pd.(height := pd.height - T * pd.tilesSeperated,
          bottom := pd.bottom + T * pd.tilesSeperated)
  }

  /** The rectangle of the even child (DungeonSpace.cpp:136-144): the right part of a
      vertical split, the bottom part of a horizontal one. */
  function EvenHalf(pd: Data, T: int): Data
  {
    if pd.seperation == Vertical then
      pd.(width := pd.width - T * pd.tilesSeperated,
          left := pd.left + T * pd.tilesSeperated)
    else
      pd.(height := T * pd.tilesSeperated)
  }

  /** The rectangle node `index` receives from its parent's data. */
  function Placed(index: int, pd: Data, T: int): Data
  {
    if index == 0 then pd
    else if index % 2 == 1 then OddHalf(pd, T)
    else EvenHalf(pd, T)
  }

  /** Corridor start point on the odd child (DungeonSpace.cpp:125-126). */
  function CorridorStart(d: Data, T: int): Point
    requires T > 0
  {
    Point(d.left + (TruncDiv(TruncDiv(d.width, T), 2) - 1) * T,
          d.bottom + (TruncDiv(TruncDiv(d.height, T), 2) + 1) * T)
  }

  /** Corridor end point on the even child (DungeonSpace.cpp:150-151). */
  function CorridorEnd(d: Data, T: int): Point
    requires T > 0
  {
    Point(d.left + (TruncDiv(TruncDiv(d.width, T), 2) + 1) * T,
          d.bottom + (TruncDiv(TruncDiv(d.height, T), 2) - 1) * T)
  }

  // ----------------------------------------------------------- one split step

  /** The corridor table and the random stream, threaded through the recursion. */
  datatype GenState = GenState(corridors: map<int, Corridor>, draws: Draws)

  /** A corridor the odd child has registered and its sibling has not yet closed. */
  function OpenCorridor(id: int, d: Data, sep: Separation, index: int, T: int): Corridor
    requires T > 0
  {
    Corridor(id, CorridorStart(d, T), Point(0, 0), sep, index, 0)
  }

  /** The parity adjustment of a non-root node (DungeonSpace.cpp:109-156): its half of the
      parent's rectangle, and the corridor table with its corridor opened (odd index) or
      its sibling's corridor closed (even index). */
  function AdjustChild(index: int, pd: Data, T: int, corridors: map<int, Corridor>)
    : (r: (Data, map<int, Corridor>))
    requires index > 0 && T > 0
    ensures r.0 == Placed(index, pd, T)
    ensures index % 2 == 1 ==>
      r.1 == corridors[index := OpenCorridor(|corridors| + 1, r.0, pd.seperation, index, T)]
    ensures index % 2 == 0 && index - 1 in corridors ==>
      && r.1.Keys == corridors.Keys
      && r.1[index - 1] == corridors[index - 1].(end := CorridorEnd(r.0, T), toSpaceID := index)
      && forall k :: k in corridors && k != index - 1 ==> r.1[k] == corridors[k]
    ensures index % 2 == 0 && index - 1 !in corridors ==> r.1 == corridors
  {
    if index % 2 == 1 then
      var d := OddHalf(pd, T);
      (d, corridors[index := OpenCorridor(|corridors| + 1, d, pd.seperation, index, T)])
    else
      var d := EvenHalf(pd, T);
      if index - 1 in corridors then
        var sister := corridors[index - 1];
        (d, corridors[index - 1 := sister.(end := CorridorEnd(d, T), toSpaceID := index)])
      else
        (d, corridors)
  }

  /** The choice of a node's split: the axis and the offset in whole tiles. */
  datatype Split = Split(seperation: Separation, tilesSeperated: int)

  /** `int(float(dim) * MinRoomRatio)` with the ratio as the fraction ratioNum / ratioDen. */
  function MinTiles(dim: int, cfg: Config): int
    requires cfg.ratioDen > 0
  {
    TruncDiv(dim * cfg.ratioNum, cfg.ratioDen)
  }

  /** minXTiles (DungeonSpace.cpp:169). */
  function MinXTiles(d: Data, cfg: Config): int
    requires cfg.tileSize > 0 && cfg.ratioDen > 0
  {
    TruncDiv(MinTiles(d.height, cfg), cfg.tileSize)
  }

  /** maxXTiles (DungeonSpace.cpp:170). */
  function MaxXTiles(d: Data, cfg: Config): int
    requires cfg.tileSize > 0 && cfg.ratioDen > 0
  {
    TruncDiv(d.width, cfg.tileSize) - MinXTiles(d, cfg)
  }

  /** minYTiles (DungeonSpace.cpp:173). */
  function MinYTiles(d: Data, cfg: Config): int
    requires cfg.tileSize > 0 && cfg.ratioDen > 0
  {
    TruncDiv(MinTiles(d.width, cfg), cfg.tileSize)
  }

  /** maxYTiles (DungeonSpace.cpp:174). */
  function MaxYTiles(d: Data, cfg: Config): int
    requires cfg.tileSize > 0 && cfg.ratioDen > 0
  {
    TruncDiv(d.height, cfg.tileSize) - MinYTiles(d, cfg)
  }

  /** The next split of a node with rectangle d (DungeonSpace.cpp:168-199); None when
      neither axis admits a split. */
  function NextSplit(d: Data, cfg: Config, draws: Draws): (r: (Option<Split>, Draws))
    requires cfg.tileSize > 0 && cfg.ratioDen > 0
    ensures var vValid := MinXTiles(d, cfg) < MaxXTiles(d, cfg);
            var hValid := MinYTiles(d, cfg) < MaxYTiles(d, cfg);
            && (r.0.None? <==> !vValid && !hValid)
            && (r.0.None? ==> r.1 == draws)
            && (r.0.Some? && r.0.value.seperation == Vertical ==>
                  vValid && MinXTiles(d, cfg) <= r.0.value.tilesSeperated <= MaxXTiles(d, cfg))
            && (r.0.Some? && r.0.value.seperation == Horizontal ==>
                  hValid && MinYTiles(d, cfg) <= r.0.value.tilesSeperated <= MaxYTiles(d, cfg))
            && (r.0.Some? && r.0.value.seperation == Horizontal && vValid ==>
                  r.0.value.tilesSeperated == MaxYTiles(d, cfg))
  {
    var minX, maxX := MinXTiles(d, cfg), MaxXTiles(d, cfg);
    var minY, maxY := MinYTiles(d, cfg), MaxYTiles(d, cfg);
    var vValid, hValid := minX < maxX, minY < maxY;
    if vValid && hValid then
      var (code, draws1) := RandRange(0, 1, draws);
      var sep := SeparationOf(code);
      if sep == Vertical then
        var (ts, draws2) := RandRange(minX, maxX, draws1);
        (Some(Split(Vertical, ts)), draws2)
      else
        var (ts, draws2) := RandRange(maxY, maxY, draws1);
        (Some(Split(Horizontal, ts)), draws2)
    else if vValid then
      var (ts, draws1) := RandRange(minX, maxX, draws);
      (Some(Split(Vertical, ts)), draws1)
    else if hValid then
      var (ts, draws1) := RandRange(minY, maxY, draws);
      (Some(Split(Horizontal, ts)), draws1)
    else
      (None, draws)
  }

  // ------------------------------------------------------------ the recursion

  /** TileSize * MinTilesPerRoom + TileSize * 2 (DungeonSpace.cpp:99). */
  function MinRoomSize(cfg: Config): int
  {
    cfg.tileSize * cfg.minTilesPerRoom + cfg.tileSize * 2
  }

  /** Node `index` is created: it is within the index bound and its parent's rectangle
      is still large enough to split (DungeonSpace.cpp:97, 105). */
  predicate Proceeds(cfg: Config, index: int, maxElements: int, pd: Data)
  {
    index < maxElements && !(pd.width <= MinRoomSize(cfg) && pd.height <= MinRoomSize(cfg))
  }

  /** Every node's key is its heap address, counted from i at the root. */
  predicate HeapKeyed(t: Space, i: int)
  {
    t.Nil? || (t.data.key == i && HeapKeyed(t.left, 2 * i + 1) && HeapKeyed(t.right, 2 * i + 2))
  }

  predicate KeysBelow(t: Space, m: int)
  {
    t.Nil? || (t.data.key < m && KeysBelow(t.left, m) && KeysBelow(t.right, m))
  }

  function NodeKeys(t: Space): set<int>
  {
    if t.Nil? then {} else {t.data.key} + NodeKeys(t.left) + NodeKeys(t.right)
  }

  /** One node of SplitSpace before the recursion (DungeonSpace.cpp:109-199): the node's
      own data, the table and stream after its corridor bookkeeping and its split draws,
      and the data its children receive (None when no split is possible). */
  function SplitStep(cfg: Config, index: int, pd: Data, st: GenState)
    : (r: (Data, GenState, Option<Data>))
    requires cfg.tileSize > 0 && cfg.ratioDen > 0
    ensures r.0.key == index
    ensures index >= 0 ==> SameRect(r.0, Placed(index, pd, cfg.tileSize))
    ensures r.2.Some? ==> SameRect(r.2.value, r.0)
  {
    var T := cfg.tileSize;
    var (d, corridors) :=
      if index > 0 then AdjustChild(index, pd, T, st.corridors) else (pd, st.corridors);
    var (split, draws) := NextSplit(d, cfg, st.draws);
    // the node's own FData is value-initialised: only key and rectangle are set
    var node := Data(index, d.width, d.height, d.left, d.bottom, Vertical, 0);
    var child :=
      if split.None? then None
      else Some(d.(seperation := split.value.seperation,
                   tilesSeperated := split.value.tilesSeperated));
    (node, GenState(corridors, draws), child)
  }

  /** The per-node work as a value, so that the recursion below can be reasoned about
      independently of the arithmetic of one step. */
  type StepFn = (int, Data, GenState) -> (Data, GenState, Option<Data>)

  function Step(cfg: Config): StepFn
    requires cfg.tileSize > 0 && cfg.ratioDen > 0
  {
    (index: int, pd: Data, st: GenState) => SplitStep(cfg, index, pd, st)
  }

  /** The recursion of SplitSpace (DungeonSpace.cpp:97-107, 201-206) around a per-node
      step: stop when the index bound is reached or the parent is too small, otherwise
      build the node and, when it has a split, its odd child and then its even child. */
  function SplitTree(cfg: Config, step: StepFn, current: Space, index: int,
                     maxElements: int, pd: Data, st: GenState): (r: (Space, GenState))
    requires index >= 0
    ensures !Proceeds(cfg, index, maxElements, pd) ==> r == (current, st)
    ensures Proceeds(cfg, index, maxElements, pd) ==> r.0.Node?
    decreases maxElements - index
  {
    if !Proceeds(cfg, index, maxElements, pd) then (current, st)
    else
      var (node, st0, child) := step(index, pd, st);
      match child
      case None => (Node(node, Nil, Nil), st0)
      case Some(childData) =>
        var (l, st1) := SplitTree(cfg, step, Nil, 2 * index + 1, maxElements, childData, st0);
        var (r, st2) := SplitTree(cfg, step, Nil, 2 * index + 2, maxElements, childData, st1);
        (Node(node, l, r), st2)
  }

  /** At node `index`, the step keys the node by its address and gives it the rectangle
      its parity selects from the parent's data. */
  ghost predicate PlacesNodeAt(cfg: Config, step: StepFn, index: int, pd: Data, st: GenState)
    requires cfg.tileSize > 0
  {
    index >= 0 ==>
      && step(index, pd, st).0.key == index
      && SameRect(step(index, pd, st).0, Placed(index, pd, cfg.tileSize))
  }

  ghost predicate PlacesNodes(cfg: Config, step: StepFn)
    requires cfg.tileSize > 0
  {
    forall index: int, pd: Data, st: GenState :: PlacesNodeAt(cfg, step, index, pd, st)
  }

  lemma StepPlacesNodes(cfg: Config)
    requires cfg.tileSize > 0 && cfg.ratioDen > 0
    ensures PlacesNodes(cfg, Step(cfg))
  {
  }

  /** A node that proceeds is keyed by its index and gets the rectangle its parity
      selects from the parent's data. */
  lemma SplitTreeRoot(cfg: Config, step: StepFn, current: Space, index: int,
                      maxElements: int, pd: Data, st: GenState)
    requires cfg.tileSize > 0 && index >= 0 && PlacesNodes(cfg, step)
    ensures var t := SplitTree(cfg, step, current, index, maxElements, pd, st).0;
            Proceeds(cfg, index, maxElements, pd) ==>
              t.data.key == index && SameRect(t.data, Placed(index, pd, cfg.tileSize))
  {
    if Proceeds(cfg, index, maxElements, pd) {
      assert PlacesNodeAt(cfg, step, index, pd, st);
      assert SplitTree(cfg, step, current, index, maxElements, pd, st).0.data
          == step(index, pd, st).0;
    }
  }

  /** Every node below `index` is keyed by its heap address, under maxElements. */
  lemma {:induction false} SplitTreeHeap(cfg: Config, step: StepFn, current: Space,
                                         index: int, maxElements: int, pd: Data, st: GenState)
    requires cfg.tileSize > 0 && index >= 0 && PlacesNodes(cfg, step)
    ensures var t := SplitTree(cfg, step, current, index, maxElements, pd, st).0;
            t == current || (HeapKeyed(t, index) && KeysBelow(t, maxElements))
    decreases maxElements - index
  {
    if Proceeds(cfg, index, maxElements, pd) {
      var s := step(index, pd, st);
      assert PlacesNodeAt(cfg, step, index, pd, st);
      var t := SplitTree(cfg, step, current, index, maxElements, pd, st).0;
      if s.2.Some? {
        var lr := SplitTree(cfg, step, Nil, 2 * index + 1, maxElements, s.2.value, s.1);
        SplitTreeHeap(cfg, step, Nil, 2 * index + 1, maxElements, s.2.value, s.1);
        SplitTreeHeap(cfg, step, Nil, 2 * index + 2, maxElements, s.2.value, lr.1);
        var r := SplitTree(cfg, step, Nil, 2 * index + 2, maxElements, s.2.value, lr.1).0;
        assert t == Node(s.0, lr.0, r);
        assert HeapKeyed(lr.0, 2 * index + 1) && KeysBelow(lr.0, maxElements);
        assert HeapKeyed(r, 2 * index + 2) && KeysBelow(r, maxElements);
      } else {
        assert t == Node(s.0, Nil, Nil);
        assert HeapKeyed(Nil, 2 * index + 1) && HeapKeyed(Nil, 2 * index + 2);
        assert KeysBelow(Nil, maxElements);
      }
    }
  }

  /** SplitSpace(currentSpace, index, maxElements, parentData) (DungeonSpace.cpp:95-207).
      Returns the subtree for node `index` and the updated corridor table and stream. A
      parent too small to split, or an index past maxElements, leaves `current` as it is. */
  function SplitSpace(cfg: Config, current: Space, index: int, maxElements: int, pd: Data,
                      st: GenState): (r: (Space, GenState))
    requires cfg.tileSize > 0 && cfg.ratioDen > 0 && index >= 0
    ensures !Proceeds(cfg, index, maxElements, pd) ==> r == (current, st)
    ensures Proceeds(cfg, index, maxElements, pd) ==>
      && r.0.Node? && r.0.data.key == index
      && SameRect(r.0.data, Placed(index, pd, cfg.tileSize))
    ensures r.0 == current || (HeapKeyed(r.0, index) && KeysBelow(r.0, maxElements))
  {
    StepPlacesNodes(cfg);
    SplitTreeRoot(cfg, Step(cfg), current, index, maxElements, pd, st);
    SplitTreeHeap(cfg, Step(cfg), current, index, maxElements, pd, st);
    SplitTree(cfg, Step(cfg), current, index, maxElements, pd, st)
  }
}
