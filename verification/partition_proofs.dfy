/** Arithmetic, heap-addressing and geometry facts about SplitSpace's building blocks:
    the index bound is a depth bound, the two halves of a split tile their parent, and a
    corridor's end lies two tiles across the split from its start. */
module PartitionProofs {
  import opened DungeonTypes
  import opened Oracle
  import opened Partition

  // ------------------------------------------------------------ arithmetic

  lemma MulLe(a: int, b: int, t: int)
    requires a <= b && t >= 0
    ensures a * t <= b * t
  {
    assert b * t - a * t == (b - a) * t;
  }

  lemma TruncDivOfMultiple(n: int, t: int)
    requires t > 0
    ensures TruncDiv(t * n, t) == n
  {
    if n >= 0 {
      MulLe(0, n, t);
      MultipleMod(n, t);
    } else {
      MulLe(n, 0, t);
      assert -(t * n) == t * (-n);
      MultipleMod(-n, t);
    }
  }

  lemma TruncDivNonNeg(a: int, t: int)
    requires t > 0 && a >= 0
    ensures TruncDiv(a, t) == a / t && 0 <= TruncDiv(a, t) && t * TruncDiv(a, t) <= a
  {
    assert a == t * (a / t) + a % t;
  }

  lemma ModOfMultiple(a: int, n: int, t: int)
    requires t > 0 && a % t == 0
    ensures (a + t * n) % t == 0 && (a - t * n) % t == 0 && (t * n) % t == 0
  {
    var q := a / t;
    assert a == t * q;
    assert a + t * n == t * (q + n);
    assert a - t * n == t * (q - n);
    MultipleMod(q + n, t);
    MultipleMod(q - n, t);
    MultipleMod(n, t);
  }

  lemma MultipleMod(n: int, t: int)
    requires t > 0
    ensures (t * n) % t == 0 && (t * n) / t == n
  {
    var q, r := (t * n) / t, (t * n) % t;
    assert t * n == t * q + r && 0 <= r < t;
    assert t * (n - q) == r;
    if n - q >= 1 { MulLe(1, n - q, t); }
    if n - q <= -1 { MulLe(n - q, -1, t); }
  }

  // ---------------------------------------------------- addressing and depth

  lemma Pow2Monotone(a: nat, b: nat)
    requires a <= b
    ensures Pow2(a) <= Pow2(b)
    decreases b
  {
    if a < b { Pow2Monotone(a, b - 1); }
  }

  /** Node i sits at depth d exactly when 2^d - 1 <= i < 2^(d+1) - 1. */
  lemma {:induction false} DepthBounds(i: nat)
    ensures Pow2(Depth(i)) - 1 <= i < Pow2(Depth(i) + 1) - 1
  {
    if i > 0 {
      DepthBounds((i - 1) / 2);
    }
  }

  /** The index bound `index < maxElements` is a depth bound: a node is below
      maxElements exactly when its depth is at most RoomSplitIterations. */
  lemma IndexBoundIsDepthBound(i: nat, iterations: nat)
    ensures i < MaxElements(iterations) <==> Depth(i) <= iterations
  {
    DepthBounds(i);
    if Depth(i) <= iterations {
      Pow2Monotone(Depth(i) + 1, iterations + 1);
    } else {
      Pow2Monotone(iterations + 1, Depth(i));
    }
  }

  /** maxElements is odd, so sibling indices 2i+1 and 2i+2 are both below it or
      both not. */
  lemma MaxElementsOdd(iterations: nat)
    ensures MaxElements(iterations) % 2 == 1
  {
    assert Pow2(iterations + 1) == 2 * Pow2(iterations);
  }

  lemma {:induction false} SubtreeOfChild(k: int, i: int)
    requires i >= 0
    ensures InSubtree(k, 2 * i + 1) ==> InSubtree(k, i) && k != i
    ensures InSubtree(k, 2 * i + 2) ==> InSubtree(k, i) && k != i
    ensures !(InSubtree(k, 2 * i + 1) && InSubtree(k, 2 * i + 2))
    decreases k
  {
    if k > 2 * i + 2 {
      SubtreeOfChild((k - 1) / 2, i);
    } else if k == 2 * i + 2 {
      assert (k - 1) / 2 == i;
    } else if k == 2 * i + 1 {
      assert (k - 1) / 2 == i;
    }
  }

  /** A node strictly below i lies below one of i's two children. */
  lemma {:induction false} SubtreeSplit(k: int, i: int)
    requires i >= 0 && InSubtree(k, i) && k != i
    ensures InSubtree(k, 2 * i + 1) || InSubtree(k, 2 * i + 2)
    decreases k
  {
    var p := (k - 1) / 2;
    if p != i {
      SubtreeSplit(p, i);
    }
  }

  // ---------------------------------------------------------------- geometry

  /** Two rectangles that tile p cover exactly the points of p, and no point twice. */
  lemma TilesPartition(p: Data, a: Data, b: Data)
    requires Tiles(p, a, b)
    ensures forall x, y :: InRect(p, x, y) <==> InRect(a, x, y) || InRect(b, x, y)
    ensures forall x, y :: !(InRect(a, x, y) && InRect(b, x, y))
  {
  }

  /** The odd and even halves of a split that fits tile the parent. */
  lemma HalvesTile(pd: Data, T: int)
    requires T > 0 && SplitFits(pd, T)
    ensures Tiles(pd, OddHalf(pd, T), EvenHalf(pd, T))
  {
  }

  /** Points one tile either side of the same tile line are two tiles apart. */
  lemma TwoTilesApart(base: int, q: int, T: int)
    ensures (base + (q + 1) * T) - (base + (q - 1) * T) == 2 * T
  {
    assert (q + 1) * T == q * T + T;
    assert (q - 1) * T == q * T - T;
  }

  /** A point one tile before the a-th tile line of a span of ts tiles lies strictly to
      the left of any point one tile after a line at or beyond the span's end. */
  lemma BeforeSpanEnd(left: int, a: int, ts: int, c: int, T: int)
    requires T > 0 && 0 <= a <= ts && 0 <= c
    ensures left + (a - 1) * T < left + T * ts + (c + 1) * T
  {
    MulLe(a, ts, T);
    MulLe(0, c, T);
    assert (a - 1) * T == a * T - T;
    assert (c + 1) * T == c * T + T;
    assert T * ts == ts * T;
  }

  /** Half the tiles of a span of ts whole tiles: between 0 and ts. */
  lemma HalfOfTiles(ts: int, T: int)
    requires T > 0 && 0 <= ts
    ensures 0 <= TruncDiv(TruncDiv(T * ts, T), 2) <= ts
  {
    TruncDivOfMultiple(ts, T);
  }

  /** Half the whole tiles of a non-negative length is non-negative. */
  lemma HalfOfLength(w: int, T: int)
    requires T > 0 && 0 <= w
    ensures 0 <= TruncDiv(TruncDiv(w, T), 2)
  {
    TruncDivNonNeg(w, T);
  }

  /** Corridor geometry (DungeonSpace.cpp:124-131, 147-153): for a vertical split the
      end is two tiles below the start and to its right; for a horizontal split it is
      two tiles to the right of the start and below it. */
  lemma CorridorGeometry(pd: Data, T: int)
    requires T > 0 && SplitFits(pd, T)
    ensures var s := CorridorStart(OddHalf(pd, T), T);
            var e := CorridorEnd(EvenHalf(pd, T), T);
            && (pd.seperation == Vertical ==> e.y == s.y - 2 * T && e.x > s.x)
            && (pd.seperation == Horizontal ==> e.x == s.x + 2 * T && e.y < s.y)
  {
    var ts := pd.tilesSeperated;
    HalfOfTiles(ts, T);
    if pd.seperation == Vertical {
      var rest := pd.width - T * ts;
      HalfOfLength(rest, T);
      TwoTilesApart(pd.bottom, TruncDiv(TruncDiv(pd.height, T), 2), T);
      BeforeSpanEnd(pd.left, TruncDiv(TruncDiv(T * ts, T), 2), ts,
                    TruncDiv(TruncDiv(rest, T), 2), T);
    } else {
      var rest := pd.height - T * ts;
      HalfOfLength(rest, T);
      TwoTilesApart(pd.left, TruncDiv(TruncDiv(pd.width, T), 2), T);
      BeforeSpanEnd(pd.bottom, TruncDiv(TruncDiv(T * ts, T), 2), ts,
                    TruncDiv(TruncDiv(rest, T), 2), T);
    }
  }

  /** A chosen split fits the node's rectangle and leaves each half at least the
      ratio-derived minimum number of whole tiles along the split axis
      (DungeonSpace.cpp:169-199). */
  lemma NextSplitFits(d: Data, cfg: Config, draws: Draws)
    requires cfg.tileSize > 0 && cfg.ratioDen > 0 && 0 <= cfg.ratioNum <= cfg.ratioDen
    requires d.width >= 0 && d.height >= 0
    ensures var r := NextSplit(d, cfg, draws);
            r.0.Some? ==>
              var s := r.0.value;
              var T := cfg.tileSize;
              && SplitFits(d.(seperation := s.seperation, tilesSeperated := s.tilesSeperated), T)
              && (s.seperation == Vertical ==>
                    && s.tilesSeperated >= MinXTiles(d, cfg)
                    && TruncDiv(d.width, T) - s.tilesSeperated >= MinXTiles(d, cfg))
              && (s.seperation == Horizontal ==>
                    && s.tilesSeperated >= MinYTiles(d, cfg)
                    && TruncDiv(d.height, T) - s.tilesSeperated >= MinYTiles(d, cfg))
  {
    var T := cfg.tileSize;
    var r := NextSplit(d, cfg, draws);
    MulLe(0, d.height, cfg.ratioNum);
    MulLe(0, d.width, cfg.ratioNum);
    assert MinTiles(d.height, cfg) >= 0 && MinTiles(d.width, cfg) >= 0;
    TruncDivNonNeg(MinTiles(d.height, cfg), T);
    TruncDivNonNeg(MinTiles(d.width, cfg), T);
    TruncDivNonNeg(d.width, T);
    TruncDivNonNeg(d.height, T);
    if r.0.Some? {
      var ts := r.0.value.tilesSeperated;
      if r.0.value.seperation == Vertical {
        MulLe(ts, TruncDiv(d.width, T), T);
      } else {
        MulLe(ts, TruncDiv(d.height, T), T);
      }
    }
  }

  // ------------------------------------------------------------- tree shape

  /** Every internal node's two children tile its rectangle. */
  predicate Partitioned(t: Space)
  {
    t.Nil? ||
    (&& (t.left.Node? && t.right.Node? ==> Tiles(t.data, t.left.data, t.right.data))
     && Partitioned(t.left) && Partitioned(t.right))
  }

  /** Every node has two children or none. */
  predicate Full(t: Space)
  {
    t.Nil? || (t.left.Nil? == t.right.Nil? && Full(t.left) && Full(t.right))
  }

  predicate NonNegative(t: Space)
  {
    t.Nil? ||
    (t.data.width >= 0 && t.data.height >= 0 && NonNegative(t.left) && NonNegative(t.right))
  }

  /** Position and size are whole multiples of the tile size. */
  predicate Aligned(d: Data, T: int)
    requires T > 0
  {
    d.left % T == 0 && d.bottom % T == 0 && d.width % T == 0 && d.height % T == 0
  }

  predicate AlignedTree(t: Space, T: int)
    requires T > 0
  {
    t.Nil? || (Aligned(t.data, T) && AlignedTree(t.left, T) && AlignedTree(t.right, T))
  }

  lemma HalvesAligned(pd: Data, T: int)
    requires T > 0 && Aligned(pd, T)
    ensures Aligned(OddHalf(pd, T), T) && Aligned(EvenHalf(pd, T), T)
  {
    ModOfMultiple(pd.width, pd.tilesSeperated, T);
    ModOfMultiple(pd.height, pd.tilesSeperated, T);
    ModOfMultiple(pd.left, pd.tilesSeperated, T);
    ModOfMultiple(pd.bottom, pd.tilesSeperated, T);
  }
}
