/** The corridor table SplitSpace threads through the recursion (DungeonSpace.cpp:124-153):
    each odd node registers one corridor under its own index, numbered in creation order,
    and its even sibling closes it with an end point two tiles across the split. */
module PartitionCorridors {
  import opened DungeonTypes
  import opened Oracle
  import opened Partition
  import opened PartitionProofs
  import opened PartitionTree

  // ------------------------------------------------------- what one step does

  /** The corridor table after the bookkeeping of node `index`. */
  function Registered(index: int, pd: Data, T: int, m: map<int, Corridor>): map<int, Corridor>
    requires index >= 0 && T > 0
  {
    if index > 0 then AdjustChild(index, pd, T, m).1 else m
  }

  /** At node `index`, the step does the corridor bookkeeping of SplitSpace and nothing
      else to the table. */
  ghost predicate CorridorsAt(cfg: Config, step: StepFn, index: int, pd: Data, st: GenState)
    requires cfg.tileSize > 0
  {
    index >= 0 ==>
      step(index, pd, st).1.corridors == Registered(index, pd, cfg.tileSize, st.corridors)
  }

  ghost predicate KeepsCorridors(cfg: Config, step: StepFn)
    requires cfg.tileSize > 0
  {
    forall index: int, pd: Data, st: GenState :: CorridorsAt(cfg, step, index, pd, st)
  }

  lemma StepMeetsCorridors(cfg: Config)
    requires cfg.tileSize > 0 && cfg.ratioDen > 0
    ensures KeepsCorridors(cfg, Step(cfg))
  {
  }

  /** The odd node keys of a tree: the nodes that register a corridor. */
  function OddKeys(t: Space): set<int>
  {
    if t.Nil? then {}
    else (if t.data.key % 2 == 1 then {t.data.key} else {}) + OddKeys(t.left) + OddKeys(t.right)
  }

  /** OddKeys are exactly the odd keys among the tree's node keys. */
  lemma {:induction false} OddKeysAreOddNodeKeys(t: Space)
    ensures OddKeys(t) == set k | k in NodeKeys(t) && k % 2 == 1
  {
    if t.Node? {
      OddKeysAreOddNodeKeys(t.left);
      OddKeysAreOddNodeKeys(t.right);
    }
  }

  /** The keys after a node and its two subtrees, from the keys each part adds. */
  lemma KeysCombine(k0: set<int>, k1: set<int>, k2: set<int>, k3: set<int>, index: int,
                    d: Data, l: Space, r: Space)
    requires d.key == index
    requires k1 == k0 + (if index % 2 == 1 then {index} else {})
    requires k2 == k1 + OddKeys(l) && k3 == k2 + OddKeys(r)
    ensures k3 == k0 + OddKeys(Node(d, l, r))
  {
  }

  /** Registering at node `index` adds exactly the key `index` when it is odd. */
  lemma RegisteredKeys(index: int, pd: Data, T: int, m: map<int, Corridor>)
    requires index >= 0 && T > 0
    ensures Registered(index, pd, T, m).Keys == m.Keys + (if index % 2 == 1 then {index} else {})
  {
  }

  /** A step keys its node by its index and adds that index to the table when it is odd. */
  lemma StepKeys(cfg: Config, step: StepFn, index: int, pd: Data, st: GenState)
    requires cfg.tileSize > 0 && index >= 0
    requires KeepsCorridors(cfg, step) && PlacesNodes(cfg, step)
    ensures step(index, pd, st).0.key == index
    ensures step(index, pd, st).1.corridors.Keys
         == st.corridors.Keys + (if index % 2 == 1 then {index} else {})
  {
    assert CorridorsAt(cfg, step, index, pd, st);
    assert PlacesNodeAt(cfg, step, index, pd, st);
    RegisteredKeys(index, pd, cfg.tileSize, st.corridors);
  }

  /** The keys of the table grow by exactly the odd node keys of the subtree built. */
  lemma {:induction false} SplitTreeKeys(cfg: Config, step: StepFn, index: int,
                                         maxElements: int, pd: Data, st: GenState)
    requires cfg.tileSize > 0 && index >= 0
    requires KeepsCorridors(cfg, step) && PlacesNodes(cfg, step)
    ensures var r := SplitTree(cfg, step, Nil, index, maxElements, pd, st);
            r.1.corridors.Keys == st.corridors.Keys + OddKeys(r.0)
    decreases maxElements - index
  {
    if Proceeds(cfg, index, maxElements, pd) {
      var s := step(index, pd, st);
      StepKeys(cfg, step, index, pd, st);
      SplitTreeUnfold(cfg, step, Nil, index, maxElements, pd, st);
      if s.2.Some? {
        var c := s.2.value;
        var lr := SplitTree(cfg, step, Nil, 2 * index + 1, maxElements, c, s.1);
        var rr := SplitTree(cfg, step, Nil, 2 * index + 2, maxElements, c, lr.1);
        SplitTreeKeys(cfg, step, 2 * index + 1, maxElements, c, s.1);
        SplitTreeKeys(cfg, step, 2 * index + 2, maxElements, c, lr.1);
        KeysCombine(st.corridors.Keys, s.1.corridors.Keys, lr.1.corridors.Keys,
                    rr.1.corridors.Keys, index, s.0, lr.0, rr.0);
      } else {
        KeysCombine(st.corridors.Keys, s.1.corridors.Keys, s.1.corridors.Keys,
                    s.1.corridors.Keys, index, s.0, Nil, Nil);
      }
    }
  }

  // ------------------------------------------------------------------ frame

  /** The table entries the subtree at `index` may change: its own nodes' corridors and,
      for an even node, its odd sibling's. */
  predicate Touches(index: int, k: int)
    requires index >= 0
  {
    InSubtree(k, index) || (index > 0 && index % 2 == 0 && k == index - 1)
  }

  /** Every entry of m0 the subtree at `index` does not touch is still in ma, unchanged. */
  predicate Unchanged(m0: map<int, Corridor>, ma: map<int, Corridor>, index: int)
    requires index >= 0
  {
    forall k :: k in m0 && !Touches(index, k) ==> k in ma && ma[k] == m0[k]
  }

  lemma StepFrame(cfg: Config, step: StepFn, index: int, pd: Data, st: GenState)
    requires cfg.tileSize > 0 && index >= 0 && KeepsCorridors(cfg, step)
    ensures Unchanged(st.corridors, step(index, pd, st).1.corridors, index)
  {
    assert CorridorsAt(cfg, step, index, pd, st);
    assert InSubtree(index, index);
  }

  lemma FrameCombine(m0: map<int, Corridor>, m1: map<int, Corridor>, m2: map<int, Corridor>,
                     m3: map<int, Corridor>, index: int)
    requires index >= 0
    requires Unchanged(m0, m1, index) && Unchanged(m1, m2, 2 * index + 1)
    requires Unchanged(m2, m3, 2 * index + 2)
    ensures Unchanged(m0, m3, index)
  {
    assert InSubtree(2 * index + 1, index) by {
      assert (2 * index + 1 - 1) / 2 == index;
    }
    forall k | k in m0 && !Touches(index, k)
      ensures k in m3 && m3[k] == m0[k]
    {
      SubtreeOfChild(k, index);
    }
  }

  /** The subtree at `index` leaves every entry it does not touch as it was. */
  lemma {:induction false} SplitTreeFrame(cfg: Config, step: StepFn, index: int,
                                          maxElements: int, pd: Data, st: GenState)
    requires cfg.tileSize > 0 && index >= 0 && KeepsCorridors(cfg, step)
    ensures Unchanged(st.corridors,
                      SplitTree(cfg, step, Nil, index, maxElements, pd, st).1.corridors, index)
    decreases maxElements - index
  {
    if Proceeds(cfg, index, maxElements, pd) {
      var s := step(index, pd, st);
      StepFrame(cfg, step, index, pd, st);
      SplitTreeUnfold(cfg, step, Nil, index, maxElements, pd, st);
      if s.2.Some? {
        var c := s.2.value;
        var lr := SplitTree(cfg, step, Nil, 2 * index + 1, maxElements, c, s.1);
        var rr := SplitTree(cfg, step, Nil, 2 * index + 2, maxElements, c, lr.1);
        SplitTreeFrame(cfg, step, 2 * index + 1, maxElements, c, s.1);
        SplitTreeFrame(cfg, step, 2 * index + 2, maxElements, c, lr.1);
        FrameCombine(st.corridors, s.1.corridors, lr.1.corridors, rr.1.corridors, index);
      }
    }
  }

  // -------------------------------------------------------------- freshness

  /** No key of ks lies in the subtree at `index`. */
  predicate FreshKeys(ks: set<int>, index: int)
    requires index >= 0
  {
    forall k :: k in ks ==> !InSubtree(k, index)
  }

  /** The odd keys of a heap-keyed subtree lie in that subtree. */
  lemma {:induction false} OddKeysInSubtree(t: Space, i: int)
    requires i >= 0 && HeapKeyed(t, i)
    ensures forall k :: k in OddKeys(t) ==> InSubtree(k, i) && k % 2 == 1
  {
    if t.Node? {
      OddKeysInSubtree(t.left, 2 * i + 1);
      OddKeysInSubtree(t.right, 2 * i + 2);
      forall k | k in OddKeys(t)
        ensures InSubtree(k, i) && k % 2 == 1
      {
        if k in OddKeys(t.left) || k in OddKeys(t.right) {
          SubtreeOfChild(k, i);
        } else {
          assert k == t.data.key;
        }
      }
    }
  }

  /** Keys fresh below a node stay fresh below its children once the node's own key and
      the odd child's subtree keys are added. */
  lemma FreshCombine(k0: set<int>, k1: set<int>, k2: set<int>, index: int, added: set<int>)
    requires index >= 0 && FreshKeys(k0, index)
    requires k1 <= k0 + {index}
    requires k2 == k1 + added && forall k :: k in added ==> InSubtree(k, 2 * index + 1)
    ensures FreshKeys(k1, 2 * index + 1) && FreshKeys(k2, 2 * index + 2)
  {
    forall k | k in k2
      ensures (k in k1 ==> !InSubtree(k, 2 * index + 1)) && !InSubtree(k, 2 * index + 2)
    {
      SubtreeOfChild(k, index);
    }
  }

  /** The tables each child's subtree starts from hold no key of that subtree. */
  lemma FreshChildren(cfg: Config, step: StepFn, index: int, maxElements: int, pd: Data,
                      st: GenState)
    requires cfg.tileSize > 0 && index >= 0
    requires KeepsCorridors(cfg, step) && PlacesNodes(cfg, step)
    requires FreshKeys(st.corridors.Keys, index) && step(index, pd, st).2.Some?
    ensures var s := step(index, pd, st);
            var lr := SplitTree(cfg, step, Nil, 2 * index + 1, maxElements, s.2.value, s.1);
            FreshKeys(s.1.corridors.Keys, 2 * index + 1)
            && FreshKeys(lr.1.corridors.Keys, 2 * index + 2)
  {
    var s := step(index, pd, st);
    var lr := SplitTree(cfg, step, Nil, 2 * index + 1, maxElements, s.2.value, s.1);
    StepKeys(cfg, step, index, pd, st);
    SplitTreeKeys(cfg, step, 2 * index + 1, maxElements, s.2.value, s.1);
    SplitTreeHeap(cfg, step, Nil, 2 * index + 1, maxElements, s.2.value, s.1);
    OddKeysInSubtree(lr.0, 2 * index + 1);
    FreshCombine(st.corridors.Keys, s.1.corridors.Keys, lr.1.corridors.Keys, index,
                 OddKeys(lr.0));
  }

  // -------------------------------------------------------------------- ids

  /** The corridor ids are 1..n for a table of n corridors, each used once. */
  predicate IdsDense(m: map<int, Corridor>)
  {
    && (forall k :: k in m ==> 1 <= m[k].id <= |m|)
    && (forall k1, k2 :: k1 in m && k2 in m && k1 != k2 ==> m[k1].id != m[k2].id)
  }

  /** Registering at a node whose key is not yet in the table keeps the ids dense: an odd
      node's corridor takes the next id, and closing a sibling's corridor keeps its id. */
  lemma RegisteredIds(index: int, pd: Data, T: int, m: map<int, Corridor>)
    requires index >= 0 && T > 0 && index !in m && IdsDense(m)
    ensures IdsDense(Registered(index, pd, T, m))
  {
    var m1 := Registered(index, pd, T, m);
    if index > 0 && index % 2 == 1 {
      assert |m1| == |m| + 1;
    } else if index > 0 && index - 1 in m {
      assert m1.Keys == m.Keys;
      assert |m1| == |m1.Keys| == |m.Keys| == |m|;
    }
  }

  lemma StepIds(cfg: Config, step: StepFn, index: int, pd: Data, st: GenState)
    requires cfg.tileSize > 0 && index >= 0 && KeepsCorridors(cfg, step)
    requires FreshKeys(st.corridors.Keys, index) && IdsDense(st.corridors)
    ensures IdsDense(step(index, pd, st).1.corridors)
  {
    assert CorridorsAt(cfg, step, index, pd, st);
    assert InSubtree(index, index);
    RegisteredIds(index, pd, cfg.tileSize, st.corridors);
  }

  /** Starting from a table with dense ids and no key of the subtree, the ids stay dense. */
  lemma {:induction false} SplitTreeIds(cfg: Config, step: StepFn, index: int,
                                        maxElements: int, pd: Data, st: GenState)
    requires cfg.tileSize > 0 && index >= 0
    requires KeepsCorridors(cfg, step) && PlacesNodes(cfg, step)
    ensures FreshKeys(st.corridors.Keys, index) && IdsDense(st.corridors) ==>
              IdsDense(SplitTree(cfg, step, Nil, index, maxElements, pd, st).1.corridors)
    decreases maxElements - index
  {
    if Proceeds(cfg, index, maxElements, pd)
       && FreshKeys(st.corridors.Keys, index) && IdsDense(st.corridors) {
      var s := step(index, pd, st);
      StepIds(cfg, step, index, pd, st);
      SplitTreeUnfold(cfg, step, Nil, index, maxElements, pd, st);
      if s.2.Some? {
        var c := s.2.value;
        var lr := SplitTree(cfg, step, Nil, 2 * index + 1, maxElements, c, s.1);
        FreshChildren(cfg, step, index, maxElements, pd, st);
        SplitTreeIds(cfg, step, 2 * index + 1, maxElements, c, s.1);
        SplitTreeIds(cfg, step, 2 * index + 2, maxElements, c, lr.1);
      }
    }
  }

  // --------------------------------------------------------- creation order

  /** The odd node keys of a tree in pre-order (node, odd subtree, even subtree): the
      order in which SplitSpace reaches the nodes that register corridors. */
  function OddOrder(t: Space): seq<int>
  {
    if t.Nil? then []
    else (if t.data.key % 2 == 1 then [t.data.key] else []) + OddOrder(t.left) + OddOrder(t.right)
  }

  lemma {:induction false} OddOrderKeys(t: Space)
    ensures forall k :: k in OddOrder(t) <==> k in OddKeys(t)
  {
    if t.Node? {
      OddOrderKeys(t.left);
      OddOrderKeys(t.right);
    }
  }

  /** Every entry of m0 outside the subtree at `index` is still in ma, under the same id. */
  predicate IdsKept(m0: map<int, Corridor>, ma: map<int, Corridor>, index: int)
    requires index >= 0
  {
    forall k :: k in m0 && !InSubtree(k, index) ==> k in ma && ma[k].id == m0[k].id
  }

  lemma StepIdsKept(cfg: Config, step: StepFn, index: int, pd: Data, st: GenState)
    requires cfg.tileSize > 0 && index >= 0 && KeepsCorridors(cfg, step)
    ensures IdsKept(st.corridors, step(index, pd, st).1.corridors, index)
  {
    assert CorridorsAt(cfg, step, index, pd, st);
    assert InSubtree(index, index);
  }

  /** A subtree changes no id outside itself: closing the sibling's corridor keeps its
      id. */
  lemma {:induction false} SplitTreeIdsKept(cfg: Config, step: StepFn, index: int,
                                            maxElements: int, pd: Data, st: GenState)
    requires cfg.tileSize > 0 && index >= 0 && KeepsCorridors(cfg, step)
    ensures IdsKept(st.corridors,
                    SplitTree(cfg, step, Nil, index, maxElements, pd, st).1.corridors, index)
    decreases maxElements - index
  {
    if Proceeds(cfg, index, maxElements, pd) {
      var s := step(index, pd, st);
      StepIdsKept(cfg, step, index, pd, st);
      SplitTreeUnfold(cfg, step, Nil, index, maxElements, pd, st);
      if s.2.Some? {
        var c := s.2.value;
        var lr := SplitTree(cfg, step, Nil, 2 * index + 1, maxElements, c, s.1);
        var rr := SplitTree(cfg, step, Nil, 2 * index + 2, maxElements, c, lr.1);
        SplitTreeIdsKept(cfg, step, 2 * index + 1, maxElements, c, s.1);
        SplitTreeIdsKept(cfg, step, 2 * index + 2, maxElements, c, lr.1);
        forall k | k in st.corridors && !InSubtree(k, index)
          ensures k in rr.1.corridors && rr.1.corridors[k].id == st.corridors[k].id
        {
          SubtreeOfChild(k, index);
        }
      }
    }
  }

  lemma ConcatAt(a: seq<int>, b: seq<int>, c: seq<int>, j: int)
    requires 0 <= j < |a| + |b| + |c|
    ensures (a + b + c)[j]
         == if j < |a| then a[j] else if j < |a| + |b| then b[j - |a|] else c[j - |a| - |b|]
  {
  }

  /** The corridor bookkeeping of one node on a table without its key: an odd node adds
      one entry, with the next id; an even node adds none. */
  lemma StepOrder(cfg: Config, step: StepFn, index: int, pd: Data, st: GenState)
    requires cfg.tileSize > 0 && index >= 0 && KeepsCorridors(cfg, step)
    requires index !in st.corridors
    ensures var ms := step(index, pd, st).1.corridors;
            && |ms| == |st.corridors| + (if index % 2 == 1 then 1 else 0)
            && (index % 2 == 1 ==> index in ms && ms[index].id == |st.corridors| + 1)
  {
    assert CorridorsAt(cfg, step, index, pd, st);
    var m0, ms := st.corridors, step(index, pd, st).1.corridors;
    RegisteredKeys(index, pd, cfg.tileSize, m0);
    if index % 2 == 0 {
      assert |ms| == |ms.Keys| == |m0.Keys| == |m0|;
    }
  }

  /** The order facts of a node and its two subtrees combine into the node's. */
  lemma OrderCombine(index: int, m0: map<int, Corridor>, ms: map<int, Corridor>,
                     ml: map<int, Corridor>, m1: map<int, Corridor>, own: seq<int>,
                     ol: seq<int>, orr: seq<int>)
    requires index >= 0 && own == (if index % 2 == 1 then [index] else [])
    requires |ms| == |m0| + |own| && (own != [] ==> index in ms && ms[index].id == |m0| + 1)
    requires |ml| == |ms| + |ol|
    requires forall j :: 0 <= j < |ol| ==> ol[j] in ml && ml[ol[j]].id == |ms| + j + 1
    requires |m1| == |ml| + |orr|
    requires forall j :: 0 <= j < |orr| ==> orr[j] in m1 && m1[orr[j]].id == |ml| + j + 1
    requires IdsKept(ms, ml, 2 * index + 1) && IdsKept(ml, m1, 2 * index + 2)
    requires forall k :: k in ol ==> InSubtree(k, 2 * index + 1)
    ensures var o := own + ol + orr;
            && |m1| == |m0| + |o|
            && forall j :: 0 <= j < |o| ==> o[j] in m1 && m1[o[j]].id == |m0| + j + 1
  {
    var o := own + ol + orr;
    forall j | 0 <= j < |o|
      ensures o[j] in m1 && m1[o[j]].id == |m0| + j + 1
    {
      ConcatAt(own, ol, orr, j);
      if j < |own| {
        assert o[j] == index && !InSubtree(index, 2 * index + 1);
        assert !InSubtree(index, 2 * index + 2);
      } else if j < |own| + |ol| {
        var k := ol[j - |own|];
        assert k in ol;
        SubtreeOfChild(k, index);
      }
    }
  }

  /** The order facts of a subtree whose root proceeds and splits, from its children's. */
  lemma {:induction false} ChildrenOrder(cfg: Config, step: StepFn, index: int,
                                         maxElements: int, pd: Data, st: GenState)
    requires cfg.tileSize > 0 && index >= 0
    requires KeepsCorridors(cfg, step) && PlacesNodes(cfg, step)
    requires Proceeds(cfg, index, maxElements, pd)
    requires FreshKeys(st.corridors.Keys, index) && step(index, pd, st).2.Some?
    ensures var s := step(index, pd, st);
            var c := s.2.value;
            var lr := SplitTree(cfg, step, Nil, 2 * index + 1, maxElements, c, s.1);
            var rr := SplitTree(cfg, step, Nil, 2 * index + 2, maxElements, c, lr.1);
            var m0, m1 := st.corridors, rr.1.corridors;
            var o := (if index % 2 == 1 then [index] else []) + OddOrder(lr.0) + OddOrder(rr.0);
            && |m1| == |m0| + |o|
            && forall j :: 0 <= j < |o| ==> o[j] in m1 && m1[o[j]].id == |m0| + j + 1
    decreases maxElements - index, 0
  {
    var s := step(index, pd, st);
    var c := s.2.value;
    var lr := SplitTree(cfg, step, Nil, 2 * index + 1, maxElements, c, s.1);
    var rr := SplitTree(cfg, step, Nil, 2 * index + 2, maxElements, c, lr.1);
    var ol, orr := OddOrder(lr.0), OddOrder(rr.0);
    var m0, ms, ml, m1 := st.corridors, s.1.corridors, lr.1.corridors, rr.1.corridors;
    assert InSubtree(index, index);
    StepOrder(cfg, step, index, pd, st);
    FreshChildren(cfg, step, index, maxElements, pd, st);
    SplitTreeOrder(cfg, step, 2 * index + 1, maxElements, c, s.1);
    SplitTreeOrder(cfg, step, 2 * index + 2, maxElements, c, lr.1);
    SplitTreeIdsKept(cfg, step, 2 * index + 1, maxElements, c, s.1);
    SplitTreeIdsKept(cfg, step, 2 * index + 2, maxElements, c, lr.1);
    SplitTreeHeap(cfg, step, Nil, 2 * index + 1, maxElements, c, s.1);
    OddOrderKeys(lr.0);
    OddKeysInSubtree(lr.0, 2 * index + 1);
    OrderCombine(index, m0, ms, ml, m1, if index % 2 == 1 then [index] else [], ol, orr);
  }

  /** A subtree started on a table without its keys registers its odd nodes in
      pre-order: the table grows by one entry per odd node, and the j-th odd node in
      pre-order has id |m0| + j + 1. */
  lemma {:induction false} SplitTreeOrder(cfg: Config, step: StepFn, index: int,
                                          maxElements: int, pd: Data, st: GenState)
    requires cfg.tileSize > 0 && index >= 0
    requires KeepsCorridors(cfg, step) && PlacesNodes(cfg, step)
    ensures var r := SplitTree(cfg, step, Nil, index, maxElements, pd, st);
            var m0, m1, o := st.corridors, r.1.corridors, OddOrder(r.0);
            FreshKeys(m0.Keys, index) ==>
              && |m1| == |m0| + |o|
              && forall j :: 0 <= j < |o| ==> o[j] in m1 && m1[o[j]].id == |m0| + j + 1
    decreases maxElements - index, 1
  {
    if Proceeds(cfg, index, maxElements, pd) && FreshKeys(st.corridors.Keys, index) {
      var s := step(index, pd, st);
      assert PlacesNodeAt(cfg, step, index, pd, st);
      SplitTreeUnfold(cfg, step, Nil, index, maxElements, pd, st);
      if s.2.Some? {
        ChildrenOrder(cfg, step, index, maxElements, pd, st);
      } else {
        assert InSubtree(index, index);
        StepOrder(cfg, step, index, pd, st);
      }
    }
  }

  // ------------------------------------------------------- corridor pairing

  /** Corridor k, registered by odd node k, has been closed by its sibling k+1, with the
      end two tiles across the split from the start. */
  predicate Closed(c: Corridor, k: int, T: int)
  {
    && c.fromSpaceID == k && c.toSpaceID == k + 1
    && (c.seperation == Vertical ==> c.end.y == c.start.y - 2 * T && c.end.x > c.start.x)
    && (c.seperation == Horizontal ==> c.end.x == c.start.x + 2 * T && c.end.y < c.start.y)
  }

  /** Closing, with the even half of a split that fits, the corridor opened on its odd
      half yields a closed corridor. */
  lemma PairClosed(pd: Data, T: int, id: int, o: int)
    requires T > 0 && SplitFits(pd, T)
    ensures Closed(OpenCorridor(id, OddHalf(pd, T), pd.seperation, o, T)
                     .(end := CorridorEnd(EvenHalf(pd, T), T), toSpaceID := o + 1), o, T)
  {
    CorridorGeometry(pd, T);
  }

  /** After the subtree at an odd node, the table holds the corridor the node opened: the
      next id, a start on the node's half of the parent, the parent's separation. */
  lemma SplitTreeOwn(cfg: Config, step: StepFn, index: int, maxElements: int, pd: Data,
                     st: GenState)
    requires cfg.tileSize > 0 && index >= 0 && index % 2 == 1 && KeepsCorridors(cfg, step)
    requires Proceeds(cfg, index, maxElements, pd)
    ensures var ma := SplitTree(cfg, step, Nil, index, maxElements, pd, st).1.corridors;
            && index in ma
            && ma[index] == OpenCorridor(|st.corridors| + 1, OddHalf(pd, cfg.tileSize),
                                         pd.seperation, index, cfg.tileSize)
  {
    var s := step(index, pd, st);
    assert CorridorsAt(cfg, step, index, pd, st);
    SplitTreeUnfold(cfg, step, Nil, index, maxElements, pd, st);
    if s.2.Some? {
      var c := s.2.value;
      var lr := SplitTree(cfg, step, Nil, 2 * index + 1, maxElements, c, s.1);
      SplitTreeFrame(cfg, step, 2 * index + 1, maxElements, c, s.1);
      SplitTreeFrame(cfg, step, 2 * index + 2, maxElements, c, lr.1);
      assert !Touches(2 * index + 1, index) && !Touches(2 * index + 2, index);
    }
  }

  /** The subtree at an even node closes its sibling's corridor, when that corridor was
      opened on the odd half of the same split. */
  lemma SplitTreeClosesSister(cfg: Config, step: StepFn, index: int, maxElements: int,
                              pd: Data, st: GenState, id: int)
    requires cfg.tileSize > 0 && index > 0 && index % 2 == 0 && KeepsCorridors(cfg, step)
    requires Proceeds(cfg, index, maxElements, pd) && SplitFits(pd, cfg.tileSize)
    requires index - 1 in st.corridors
    requires st.corridors[index - 1]
          == OpenCorridor(id, OddHalf(pd, cfg.tileSize), pd.seperation, index - 1, cfg.tileSize)
    ensures var ma := SplitTree(cfg, step, Nil, index, maxElements, pd, st).1.corridors;
            index - 1 in ma && Closed(ma[index - 1], index - 1, cfg.tileSize)
  {
    var s := step(index, pd, st);
    assert CorridorsAt(cfg, step, index, pd, st);
    PairClosed(pd, cfg.tileSize, id, index - 1);
    SplitTreeUnfold(cfg, step, Nil, index, maxElements, pd, st);
    if s.2.Some? {
      var c := s.2.value;
      var lr := SplitTree(cfg, step, Nil, 2 * index + 1, maxElements, c, s.1);
      SplitTreeFrame(cfg, step, 2 * index + 1, maxElements, c, s.1);
      SplitTreeFrame(cfg, step, 2 * index + 2, maxElements, c, lr.1);
      assert !Touches(2 * index + 1, index - 1) && !Touches(2 * index + 2, index - 1);
    }
  }

  /** Every corridor registered strictly inside the subtree at i is closed. */
  predicate ClosedInside(m: map<int, Corridor>, i: int, T: int)
    requires i >= 0
  {
    forall k :: k in m && InSubtree(k, i) && k != i ==> Closed(m[k], k, T)
  }

  /** The corridors inside a node's subtree are closed once the odd child's subtree has
      closed its own, the even child's subtree has closed the odd child's corridor and its
      own, and the even child's subtree left the rest alone. */
  lemma ClosedCombine(m0: map<int, Corridor>, m1: map<int, Corridor>, m2: map<int, Corridor>,
                      m3: map<int, Corridor>, i: int, T: int, a: set<int>, b: set<int>)
    requires i >= 0 && FreshKeys(m0.Keys, i) && m1.Keys <= m0.Keys + {i}
    requires m2.Keys == m1.Keys + a && forall k :: k in a ==> InSubtree(k, 2 * i + 1)
    requires m3.Keys == m2.Keys + b
    requires forall k :: k in b ==> InSubtree(k, 2 * i + 2) && k % 2 == 1
    requires ClosedInside(m2, 2 * i + 1, T) && Unchanged(m2, m3, 2 * i + 2)
    requires 2 * i + 1 in m3 && Closed(m3[2 * i + 1], 2 * i + 1, T)
    requires ClosedInside(m3, 2 * i + 2, T)
    ensures ClosedInside(m3, i, T)
  {
    forall k | k in m3 && InSubtree(k, i) && k != i
      ensures Closed(m3[k], k, T)
    {
      SubtreeSplit(k, i);
      SubtreeOfChild(k, i);
    }
  }

  /** One node of SplitTreeClosed: given that both children's subtrees closed the
      corridors inside them, the corridors inside the node's subtree are closed. */
  lemma ClosedNode(cfg: Config, step: StepFn, index: int, maxElements: int, pd: Data,
                   st: GenState)
    requires cfg.tileSize > 0 && index >= 0
    requires KeepsCorridors(cfg, step) && PlacesNodes(cfg, step)
    requires FreshKeys(st.corridors.Keys, index)
    requires var s := step(index, pd, st);
             && s.2.Some? && SplitFits(s.2.value, cfg.tileSize)
             && Proceeds(cfg, 2 * index + 1, maxElements, s.2.value)
             && Proceeds(cfg, 2 * index + 2, maxElements, s.2.value)
             && var lr := SplitTree(cfg, step, Nil, 2 * index + 1, maxElements, s.2.value, s.1);
                var rr := SplitTree(cfg, step, Nil, 2 * index + 2, maxElements, s.2.value, lr.1);
                && ClosedInside(lr.1.corridors, 2 * index + 1, cfg.tileSize)
                && ClosedInside(rr.1.corridors, 2 * index + 2, cfg.tileSize)
    ensures var s := step(index, pd, st);
            var lr := SplitTree(cfg, step, Nil, 2 * index + 1, maxElements, s.2.value, s.1);
            var rr := SplitTree(cfg, step, Nil, 2 * index + 2, maxElements, s.2.value, lr.1);
            ClosedInside(rr.1.corridors, index, cfg.tileSize)
  {
    var T, s := cfg.tileSize, step(index, pd, st);
    var o, e, c := 2 * index + 1, 2 * index + 2, s.2.value;
    var lr := SplitTree(cfg, step, Nil, o, maxElements, c, s.1);
    var rr := SplitTree(cfg, step, Nil, e, maxElements, c, lr.1);
    StepKeys(cfg, step, index, pd, st);
    SplitTreeOwn(cfg, step, o, maxElements, c, s.1);
    SplitTreeClosesSister(cfg, step, e, maxElements, c, lr.1, |s.1.corridors| + 1);
    SplitTreeFrame(cfg, step, e, maxElements, c, lr.1);
    SplitTreeKeys(cfg, step, o, maxElements, c, s.1);
    SplitTreeKeys(cfg, step, e, maxElements, c, lr.1);
    SplitTreeHeap(cfg, step, Nil, o, maxElements, c, s.1);
    SplitTreeHeap(cfg, step, Nil, e, maxElements, c, lr.1);
    OddKeysInSubtree(lr.0, o);
    OddKeysInSubtree(rr.0, e);
    ClosedCombine(st.corridors, s.1.corridors, lr.1.corridors, rr.1.corridors, index, T,
                  OddKeys(lr.0), OddKeys(rr.0));
  }

  /** With an odd index bound, every corridor registered inside the subtree built from a
      well-placed node and a table holding none of its keys is closed. */
  lemma {:induction false} SplitTreeClosed(cfg: Config, step: StepFn, index: int,
                                           maxElements: int, pd: Data, st: GenState)
    requires cfg.tileSize > 0 && index >= 0 && maxElements % 2 == 1
    requires KeepsCorridors(cfg, step) && KeepsShape(cfg, step) && PlacesNodes(cfg, step)
    ensures WellPlaced(cfg, index, pd) && FreshKeys(st.corridors.Keys, index) ==>
              ClosedInside(SplitTree(cfg, step, Nil, index, maxElements, pd, st).1.corridors,
                           index, cfg.tileSize)
    decreases maxElements - index
  {
    if WellPlaced(cfg, index, pd) && FreshKeys(st.corridors.Keys, index)
       && Proceeds(cfg, index, maxElements, pd) {
      var s := step(index, pd, st);
      assert ShapeAt(cfg, step, index, pd, st);
      StepKeys(cfg, step, index, pd, st);
      SplitTreeUnfold(cfg, step, Nil, index, maxElements, pd, st);
      if s.2.Some? {
        var c := s.2.value;
        SiblingsProceedTogether(cfg, index, maxElements, c);
        if Proceeds(cfg, 2 * index + 1, maxElements, c) {
          var lr := SplitTree(cfg, step, Nil, 2 * index + 1, maxElements, c, s.1);
          FreshChildren(cfg, step, index, maxElements, pd, st);
          SplitTreeClosed(cfg, step, 2 * index + 1, maxElements, c, s.1);
          SplitTreeClosed(cfg, step, 2 * index + 2, maxElements, c, lr.1);
          ClosedNode(cfg, step, index, maxElements, pd, st);
        }
      }
    }
  }

  // --------------------------------------------------------- the whole dungeon

  /** The odd keys of a tree whose keys are below m are below m. */
  lemma {:induction false} OddKeysBelow(t: Space, m: int)
    ensures KeysBelow(t, m) ==> forall k :: k in OddKeys(t) ==> k < m
  {
    if t.Node? {
      OddKeysBelow(t.left, m);
      OddKeysBelow(t.right, m);
    }
  }

  /** The table facts SplitCorridors states, from the per-subtree facts at the root. */
  lemma RootTable(m: map<int, Corridor>, t: Space, maxElements: int, T: int)
    requires maxElements % 2 == 1 && m.Keys == OddKeys(t) && ClosedInside(m, 0, T)
    requires forall k :: k in OddKeys(t) ==> InSubtree(k, 0) && k % 2 == 1 && k < maxElements
    ensures forall k :: k in m ==> k % 2 == 1 && k + 1 < maxElements && Closed(m[k], k, T)
  {
    forall k | k in m
      ensures k % 2 == 1 && k + 1 < maxElements && Closed(m[k], k, T)
    {
      assert k in OddKeys(t);
    }
  }

  /** SplitCorridors for any step that keeps the corridor, shape and placement facts. */
  lemma SplitTreeTable(cfg: Config, step: StepFn, maxElements: int, pd: Data, st: GenState)
    requires cfg.tileSize > 0 && maxElements % 2 == 1 && st.corridors == map[]
    requires KeepsCorridors(cfg, step) && KeepsShape(cfg, step) && PlacesNodes(cfg, step)
    requires WellPlaced(cfg, 0, pd)
    ensures var r := SplitTree(cfg, step, Nil, 0, maxElements, pd, st);
            var m := r.1.corridors;
            && m.Keys == OddKeys(r.0)
            && IdsDense(m)
            && (forall j :: 0 <= j < |OddOrder(r.0)| ==>
                  OddOrder(r.0)[j] in m && m[OddOrder(r.0)[j]].id == j + 1)
            && forall k :: k in m ==>
                 k % 2 == 1 && k + 1 < maxElements && Closed(m[k], k, cfg.tileSize)
  {
    var r := SplitTree(cfg, step, Nil, 0, maxElements, pd, st);
    SplitTreeOrder(cfg, step, 0, maxElements, pd, st);
    SplitTreeKeys(cfg, step, 0, maxElements, pd, st);
    SplitTreeIds(cfg, step, 0, maxElements, pd, st);
    SplitTreeClosed(cfg, step, 0, maxElements, pd, st);
    SplitTreeHeap(cfg, step, Nil, 0, maxElements, pd, st);
    OddKeysInSubtree(r.0, 0);
    OddKeysBelow(r.0, maxElements);
    RootTable(r.1.corridors, r.0, maxElements, cfg.tileSize);
  }

  /** The corridor table of a whole dungeon (SplitSpace from the root with an empty table
      and an odd index bound): one corridor per odd node of the tree, keyed by that node,
      with ids 1..n each used once and handed out in the pre-order in which SplitSpace
      reaches the odd nodes, every one closed by the node's even sibling, which is itself
      below the index bound. */
  lemma SplitCorridors(cfg: Config, maxElements: int, pd: Data, st: GenState)
    requires cfg.ratioDen > 0 && 0 <= cfg.ratioNum <= cfg.ratioDen
    requires WellPlaced(cfg, 0, pd) && maxElements % 2 == 1 && st.corridors == map[]
    ensures var r := SplitSpace(cfg, Nil, 0, maxElements, pd, st);
            var m := r.1.corridors;
            && m.Keys == OddKeys(r.0)
            && IdsDense(m)
            && (forall j :: 0 <= j < |OddOrder(r.0)| ==>
                  OddOrder(r.0)[j] in m && m[OddOrder(r.0)[j]].id == j + 1)
            && forall k :: k in m ==>
                 k % 2 == 1 && k + 1 < maxElements && Closed(m[k], k, cfg.tileSize)
  {
    StepMeetsCorridors(cfg);
    StepMeetsShape(cfg);
    StepPlacesNodes(cfg);
    SplitTreeTable(cfg, Step(cfg), maxElements, pd, st);
  }
}
