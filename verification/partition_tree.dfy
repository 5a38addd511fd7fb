/** Properties of the tree SplitSpace builds: children tile their parent, every node
    has two children or none, sizes are non-negative and tile-aligned.

    The inductive proofs are about SplitTree for any per-node step that meets a small
    specification (KeepsShape, KeepsAligned, PlacesNodes); SplitStep is shown to meet
    each once, and the statements about SplitSpace follow. The corridor table is the
    subject of PartitionCorridors. */
module PartitionTree {
  import opened DungeonTypes
  import opened Oracle
  import opened Partition
  import opened PartitionProofs

  // ------------------------------------------------------- what one step does

  /** The data a node receives is well placed: the rectangle is non-negative and a
      non-root node's split fits the parent's rectangle. */
  predicate WellPlaced(cfg: Config, index: int, pd: Data)
  {
    && cfg.tileSize > 0 && index >= 0 && pd.width >= 0 && pd.height >= 0
    && (index > 0 ==> SplitFits(pd, cfg.tileSize))
  }

  lemma TilesSameRect(p: Data, a: Data, b: Data, p': Data, a': Data, b': Data)
    requires Tiles(p, a, b) && SameRect(p, p') && SameRect(a, a') && SameRect(b, b')
    ensures Tiles(p', a', b')
  {
  }

  /** One step of SplitSpace keeps the data well placed, the children's halves tile the
      node, and alignment to the tile grid is inherited. */
  lemma StepShape(cfg: Config, index: int, pd: Data, st: GenState)
    requires cfg.tileSize > 0 && cfg.ratioDen > 0 && 0 <= cfg.ratioNum <= cfg.ratioDen
    ensures var (node, _, child) := SplitStep(cfg, index, pd, st);
            && (WellPlaced(cfg, index, pd) ==>
                  && node.width >= 0 && node.height >= 0
                  && (child.Some? ==>
                        && WellPlaced(cfg, 2 * index + 1, child.value)
                        && WellPlaced(cfg, 2 * index + 2, child.value)
                        && Tiles(node, OddHalf(child.value, cfg.tileSize),
                                 EvenHalf(child.value, cfg.tileSize))))
            && (Aligned(pd, cfg.tileSize) ==>
                  && Aligned(node, cfg.tileSize)
                  && (child.Some? ==> Aligned(child.value, cfg.tileSize)))
  {
    var T := cfg.tileSize;
    var (d, corridors) :=
      if index > 0 then AdjustChild(index, pd, T, st.corridors) else (pd, st.corridors);
    if index > 0 && Aligned(pd, T) {
      HalvesAligned(pd, T);
    }
    var (node, _, child) := SplitStep(cfg, index, pd, st);
    if WellPlaced(cfg, index, pd) {
      if index > 0 { MulLe(0, pd.tilesSeperated, T); }
      NextSplitFits(d, cfg, st.draws);
      if child.Some? {
        var c := child.value;
        HalvesTile(c, T);
        TilesSameRect(c, OddHalf(c, T), EvenHalf(c, T), node, OddHalf(c, T), EvenHalf(c, T));
      }
    }
  }

  /** At node `index`, a step given well-placed data keeps the node's size non-negative,
      passes well-placed data to both children, and the halves of that data tile the
      node. */
  ghost predicate ShapeAt(cfg: Config, step: StepFn, index: int, pd: Data, st: GenState)
  {
    var r := step(index, pd, st);
    WellPlaced(cfg, index, pd) ==>
      && r.0.width >= 0 && r.0.height >= 0
      && (r.2.Some? ==>
            && WellPlaced(cfg, 2 * index + 1, r.2.value)
            && WellPlaced(cfg, 2 * index + 2, r.2.value)
            && Tiles(r.0, OddHalf(r.2.value, cfg.tileSize), EvenHalf(r.2.value, cfg.tileSize)))
  }

  ghost predicate KeepsShape(cfg: Config, step: StepFn)
  {
    forall index: int, pd: Data, st: GenState :: ShapeAt(cfg, step, index, pd, st)
  }

  /** At node `index`, a step given data aligned to the tile grid hands aligned data on
      to the node and its children. */
  ghost predicate AlignedAt(cfg: Config, step: StepFn, index: int, pd: Data, st: GenState)
    requires cfg.tileSize > 0
  {
    var r := step(index, pd, st);
    Aligned(pd, cfg.tileSize) ==>
      && Aligned(r.0, cfg.tileSize)
      && (r.2.Some? ==> Aligned(r.2.value, cfg.tileSize))
  }

  ghost predicate KeepsAligned(cfg: Config, step: StepFn)
    requires cfg.tileSize > 0
  {
    forall index: int, pd: Data, st: GenState :: AlignedAt(cfg, step, index, pd, st)
  }

  lemma StepMeetsShape(cfg: Config)
    requires cfg.tileSize > 0 && cfg.ratioDen > 0 && 0 <= cfg.ratioNum <= cfg.ratioDen
    ensures KeepsShape(cfg, Step(cfg))
    ensures KeepsAligned(cfg, Step(cfg))
  {
    forall index: int, pd: Data, st: GenState
      ensures ShapeAt(cfg, Step(cfg), index, pd, st) && AlignedAt(cfg, Step(cfg), index, pd, st)
    {
      StepShape(cfg, index, pd, st);
    }
  }

  // ------------------------------------------------------------- tree shape

  /** SplitTree at a node that proceeds: the node, then the odd child's subtree grown
      from the state after the node's step, then the even child's from the state after
      that. */
  lemma SplitTreeUnfold(cfg: Config, step: StepFn, current: Space, index: int,
                        maxElements: int, pd: Data, st: GenState)
    requires index >= 0 && Proceeds(cfg, index, maxElements, pd)
    ensures var s := step(index, pd, st);
            var r := SplitTree(cfg, step, current, index, maxElements, pd, st);
            && (s.2.None? ==> r == (Node(s.0, Nil, Nil), s.1))
            && (s.2.Some? ==>
                  var lr := SplitTree(cfg, step, Nil, 2 * index + 1, maxElements, s.2.value, s.1);
                  var rr := SplitTree(cfg, step, Nil, 2 * index + 2, maxElements, s.2.value, lr.1);
                  r == (Node(s.0, lr.0, rr.0), rr.1))
  {
  }

  /** With an odd index bound, sibling indices are both below it or both not. */
  lemma SiblingsProceedTogether(cfg: Config, index: int, maxElements: int, c: Data)
    requires index >= 0 && maxElements % 2 == 1
    ensures Proceeds(cfg, 2 * index + 1, maxElements, c)
            == Proceeds(cfg, 2 * index + 2, maxElements, c)
  {
  }

  /** With an odd index bound every node has two children or none. */
  lemma {:induction false} SplitTreeFull(cfg: Config, step: StepFn, index: int,
                                         maxElements: int, pd: Data, st: GenState)
    requires index >= 0 && maxElements % 2 == 1
    ensures Full(SplitTree(cfg, step, Nil, index, maxElements, pd, st).0)
    decreases maxElements - index
  {
    if Proceeds(cfg, index, maxElements, pd) {
      var s := step(index, pd, st);
      SplitTreeUnfold(cfg, step, Nil, index, maxElements, pd, st);
      if s.2.Some? {
        var c := s.2.value;
        var lr := SplitTree(cfg, step, Nil, 2 * index + 1, maxElements, c, s.1);
        SplitTreeFull(cfg, step, 2 * index + 1, maxElements, c, s.1);
        SplitTreeFull(cfg, step, 2 * index + 2, maxElements, c, lr.1);
        SiblingsProceedTogether(cfg, index, maxElements, c);
      }
    }
  }

  lemma {:induction false} SplitTreeNonNegative(cfg: Config, step: StepFn, index: int,
                                                maxElements: int, pd: Data, st: GenState)
    requires cfg.tileSize > 0 && index >= 0 && KeepsShape(cfg, step)
    ensures WellPlaced(cfg, index, pd) ==>
              NonNegative(SplitTree(cfg, step, Nil, index, maxElements, pd, st).0)
    decreases maxElements - index
  {
    if Proceeds(cfg, index, maxElements, pd) && WellPlaced(cfg, index, pd) {
      var s := step(index, pd, st);
      assert ShapeAt(cfg, step, index, pd, st);
      SplitTreeUnfold(cfg, step, Nil, index, maxElements, pd, st);
      if s.2.Some? {
        var c := s.2.value;
        var lr := SplitTree(cfg, step, Nil, 2 * index + 1, maxElements, c, s.1);
        SplitTreeNonNegative(cfg, step, 2 * index + 1, maxElements, c, s.1);
        SplitTreeNonNegative(cfg, step, 2 * index + 2, maxElements, c, lr.1);
      }
    }
  }

  lemma PartitionedNode(d: Data, l: Space, r: Space)
    requires Partitioned(l) && Partitioned(r)
    requires l.Node? && r.Node? ==> Tiles(d, l.data, r.data)
    ensures Partitioned(Node(d, l, r))
  {
  }

  /** Node 2i+1 receives the odd half of its parent's split and node 2i+2 the even half. */
  lemma PlacedChildren(index: int, c: Data, T: int)
    requires index >= 0
    ensures Placed(2 * index + 1, c, T) == OddHalf(c, T)
    ensures Placed(2 * index + 2, c, T) == EvenHalf(c, T)
  {
    assert (2 * index + 1) % 2 == 1 && (2 * index + 2) % 2 == 0;
  }

  /** The subtrees grown at 2i+1 and 2i+2 from a split's data c are rooted at the odd and
      even halves of c, so when the halves tile the node, the subtrees' roots do. */
  lemma ChildrenTile(cfg: Config, step: StepFn, index: int, maxElements: int, node: Data,
                     c: Data, st0: GenState, st1: GenState)
    requires cfg.tileSize > 0 && index >= 0 && PlacesNodes(cfg, step)
    requires Tiles(node, OddHalf(c, cfg.tileSize), EvenHalf(c, cfg.tileSize))
    ensures var l := SplitTree(cfg, step, Nil, 2 * index + 1, maxElements, c, st0).0;
            var r := SplitTree(cfg, step, Nil, 2 * index + 2, maxElements, c, st1).0;
            l.Node? && r.Node? ==> Tiles(node, l.data, r.data)
  {
    var T := cfg.tileSize;
    var l := SplitTree(cfg, step, Nil, 2 * index + 1, maxElements, c, st0).0;
    var r := SplitTree(cfg, step, Nil, 2 * index + 2, maxElements, c, st1).0;
    if l.Node? && r.Node? {
      SplitTreeRoot(cfg, step, Nil, 2 * index + 1, maxElements, c, st0);
      SplitTreeRoot(cfg, step, Nil, 2 * index + 2, maxElements, c, st1);
      PlacedChildren(index, c, T);
      TilesSameRect(node, OddHalf(c, T), EvenHalf(c, T), node, l.data, r.data);
    }
  }

  lemma {:induction false} SplitTreePartitioned(cfg: Config, step: StepFn, index: int,
                                                maxElements: int, pd: Data, st: GenState)
    requires cfg.tileSize > 0 && index >= 0
    requires KeepsShape(cfg, step) && PlacesNodes(cfg, step)
    ensures WellPlaced(cfg, index, pd) ==>
              Partitioned(SplitTree(cfg, step, Nil, index, maxElements, pd, st).0)
    decreases maxElements - index
  {
    if Proceeds(cfg, index, maxElements, pd) && WellPlaced(cfg, index, pd) {
      var s := step(index, pd, st);
      assert ShapeAt(cfg, step, index, pd, st);
      SplitTreeUnfold(cfg, step, Nil, index, maxElements, pd, st);
      if s.2.Some? {
        var c := s.2.value;
        var lr := SplitTree(cfg, step, Nil, 2 * index + 1, maxElements, c, s.1);
        var rr := SplitTree(cfg, step, Nil, 2 * index + 2, maxElements, c, lr.1);
        SplitTreePartitioned(cfg, step, 2 * index + 1, maxElements, c, s.1);
        SplitTreePartitioned(cfg, step, 2 * index + 2, maxElements, c, lr.1);
        ChildrenTile(cfg, step, index, maxElements, s.0, c, s.1, lr.1);
        PartitionedNode(s.0, lr.0, rr.0);
      }
    }
  }

  lemma {:induction false} SplitTreeAligned(cfg: Config, step: StepFn, index: int,
                                            maxElements: int, pd: Data, st: GenState)
    requires cfg.tileSize > 0 && index >= 0
    requires KeepsAligned(cfg, step)
    ensures Aligned(pd, cfg.tileSize) ==>
              AlignedTree(SplitTree(cfg, step, Nil, index, maxElements, pd, st).0, cfg.tileSize)
    decreases maxElements - index
  {
    if Proceeds(cfg, index, maxElements, pd) && Aligned(pd, cfg.tileSize) {
      var s := step(index, pd, st);
      assert AlignedAt(cfg, step, index, pd, st);
      SplitTreeUnfold(cfg, step, Nil, index, maxElements, pd, st);
      if s.2.Some? {
        var c := s.2.value;
        var lr := SplitTree(cfg, step, Nil, 2 * index + 1, maxElements, c, s.1);
        SplitTreeAligned(cfg, step, 2 * index + 1, maxElements, c, s.1);
        SplitTreeAligned(cfg, step, 2 * index + 2, maxElements, c, lr.1);
      }
    }
  }

  /** The tree SplitSpace builds: children tile their parent, sizes stay non-negative,
      every node is aligned to the tile grid when the root is, and (with an odd index
      bound) siblings are created together. */
  lemma SplitShape(cfg: Config, index: int, maxElements: int, pd: Data, st: GenState)
    requires cfg.ratioDen > 0 && 0 <= cfg.ratioNum <= cfg.ratioDen
    requires WellPlaced(cfg, index, pd)
    ensures var t := SplitSpace(cfg, Nil, index, maxElements, pd, st).0;
            && Partitioned(t) && NonNegative(t)
            && (Aligned(pd, cfg.tileSize) ==> AlignedTree(t, cfg.tileSize))
            && (maxElements % 2 == 1 ==> Full(t))
  {
    StepMeetsShape(cfg);
    StepPlacesNodes(cfg);
    SplitTreePartitioned(cfg, Step(cfg), index, maxElements, pd, st);
    SplitTreeNonNegative(cfg, Step(cfg), index, maxElements, pd, st);
    SplitTreeAligned(cfg, Step(cfg), index, maxElements, pd, st);
    if maxElements % 2 == 1 {
      SplitTreeFull(cfg, Step(cfg), index, maxElements, pd, st);
    }
  }
}
