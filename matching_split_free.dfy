/**
 * MatchingSplitFree: the matching split distance of two trees over free leaf
 * sets.  Every non-root node of one tree (a leaf as well as an internal node)
 * is a split of that tree's leaves, A against the rest B; it is paired with a
 * split C | D of the other tree, or with padding.  A pair costs the smaller of
 * |A xor C| + |B xor D| and |A xor D| + |B xor C|, the leaves of both trees
 * counted; the distance is half the cheapest pairing.
 */
module MatchingSplitFree {
  import opened Wrappers
  import opened PalTree
  import opened ClustIntersectInfo
  import opened TreeCmpUtils
  import opened TreeCmpUtilsTriplets
  import ClusterDist
  import SplitDist
  import opened CostMatrix
  import opened LapSolver
  import opened FreeNodes

  /**
   * The arithmetic of a pair of real nodes: from the intersection sizes of the
   * two roots, of root 1 with the column node C, of the row node A with root 2
   * and of A with C, the parts bc, ad, bd of the other quadrants, and the cost
   * extSum - 2·max(ac + bd, ad + bc).
   */
  function PairArith(extSum: int, rootsInter: int, r1c: int, ar2: int, ac: int): int
  {
    var bc := r1c - ac;
    var ad := ar2 - ac;
    var bd := rootsInter - ac - bc - ad;
    extSum - 2 * Max(ac + bd, ad + bc)
  }

  /** The arithmetic of a real node against padding: a the node's cluster size, ext its tree's leaf count. */
  function PadArith(extSum: int, a: int, ext: int): int
  {
    var b := ext - a;
    Min(extSum + a - b, extSum + b - a)
  }

  /** What the cell arithmetic reads: a view of the two trees and a SlotPair. */
  predicate FreeArgs(v: TableView, t1: Tree, t2: Tree, x: Slot<NodeRef>, y: Slot<NodeRef>)
  {
    ViewFits(v, t1, t2) && |t1.children| > 0 && |t2.children| > 0 && SlotPair(t1, t2, x, y)
  }

  /** One cell, as getDistance computes it from the table v; rootsInter is the intersection of the two roots. */
  function FreeSplitCell(v: TableView, t1: Tree, t2: Tree, rootsInter: int, x: Slot<NodeRef>, y: Slot<NodeRef>): int
    requires FreeArgs(v, t1, t2, x, y)
  {
    var extSum := |t1.names| + |t2.names|;
    if x.Node? && y.Node? then
      PairArith(extSum, rootsInter, ViewInter(v, t1, t2, Root(t1), y.node),
                ViewInter(v, t1, t2, x.node, Root(t2)), ViewInter(v, t1, t2, x.node, y.node))
    else if x.Node? then PadArith(extSum, ViewSize1(v, t1, t2, x.node), |t1.names|)
    else PadArith(extSum, ViewSize2(v, t1, t2, y.node), |t2.names|)
  }

  /**
   * The cost of pairing split A | B, B = l1 - A, with split C | D, D = l2 - C:
   * the cheaper orientation of the symmetric differences.
   */
  function SplitPairCost(a: set<int>, l1: set<int>, c: set<int>, l2: set<int>): int
  {
    Min(ClusterDist.GetDistXorBit(a, c) + ClusterDist.GetDistXorBit(l1 - a, l2 - c),
        ClusterDist.GetDistXorBit(a, l2 - c) + ClusterDist.GetDistXorBit(l1 - a, c))
  }

  /** The cost of split A | l1 - A against padding: the other tree's leaf count plus twice the smaller side. */
  function SplitPadCost(a: set<int>, l1: set<int>, other: int): int
  {
    other + 2 * Min(|a|, |l1 - a|)
  }

  /** The cost of a pair of slots, stated on the clusters of the two nodes and of the two roots. */
  function FreeSplitCost(g: IdGroup, t1: Tree, t2: Tree, x: Slot<NodeRef>, y: Slot<NodeRef>): int
    requires Shaped(t1) && Shaped(t2) && SlotPair(t1, t2, x, y)
  {
    var l1, l2 := Cluster(g, t1, Root(t1)), Cluster(g, t2, Root(t2));
    if x.Node? && y.Node? then SplitPairCost(Cluster(g, t1, x.node), l1, Cluster(g, t2, y.node), l2)
    else if x.Node? then SplitPadCost(Cluster(g, t1, x.node), l1, |l2|)
    else SplitPadCost(Cluster(g, t2, y.node), l2, |l1|)
  }

  /** The side of the matrix: one less than the larger node count, the root being left out. */
  function FreeSplitSide(t1: Tree, t2: Tree): nat
    requires Shaped(t1) && Shaped(t2)
  {
    FreeSizeIt(t1, t2) - 1
  }

  /** The rows: the nodes of t1 but its root, then padding; the columns the same for t2. */
  function FreeSplitSlots(t1: Tree, t2: Tree, first: bool): (k: seq<Slot<NodeRef>>)
    requires Shaped(t1) && Shaped(t2)
    ensures |k| == FreeSplitSide(t1, t2)
  {
    FreeSlots(if first then t1 else t2, FreeSizeIt(t1, t2), true)
  }

  /** One entry of the matrix: the cost of row a and column b. */
  function FreeSplitEntry(g: IdGroup, t1: Tree, t2: Tree, a: nat, b: nat): int
    requires Shaped(t1) && Shaped(t2)
  {
    var k1, k2 := FreeSplitSlots(t1, t2, true), FreeSplitSlots(t1, t2, false);
    if a < |k1| && b < |k2| then
      FreeSlotsPair(t1, t2, true, k1[a], k2[b]);
      FreeSplitCost(g, t1, t2, k1[a], k2[b])
    else 0
  }

  /** The matrix getDistance builds, stated on the clusters of the two trees. */
  function FreeSplitMatrix(g: IdGroup, t1: Tree, t2: Tree): (o: seq<seq<int>>)
    requires Shaped(t1) && Shaped(t2)
    ensures |o| == FreeSplitSide(t1, t2) && Square(o)
    ensures forall a, b :: 0 <= a < |o| && 0 <= b < |o| ==> o[a][b] == FreeSplitEntry(g, t1, t2, a, b)
  {
    var size := FreeSplitSide(t1, t2);
    seq(size, a requires 0 <= a < size => seq(size, b requires 0 <= b < size => FreeSplitEntry(g, t1, t2, a, b)))
  }

  // ---------------------------------------------------------------------------
  // The cell arithmetic is the cost on the clusters
  // ---------------------------------------------------------------------------

  /** The four quadrants of two splits A | B of l1 and C | D of l2 add up. */
  lemma Quadrants(a: set<int>, l1: set<int>, c: set<int>, l2: set<int>)
    requires a <= l1 && c <= l2
    ensures var b, d := l1 - a, l2 - c;
            && |l1 * c| == |a * c| + |b * c|
            && |a * l2| == |a * c| + |a * d|
            && |l1 * l2| == |a * c| + |a * d| + |b * c| + |b * d|
            && |l1| == |a| + |b| && |l2| == |c| + |d|
  {
    var b, d := l1 - a, l2 - c;
    assert l1 == a + b && l2 == c + d;
    DisjointCard(a, b, c);
    DisjointCard(c, d, a);
    assert (c + d) * a == a * l2 && c * a == a * c && d * a == a * d;
    DisjointCard(a, b, l2);
    DisjointCard(c, d, b);
    assert (c + d) * b == b * l2 && c * b == b * c && d * b == b * d;
  }

  /** The arithmetic of two real nodes is the cheaper orientation of the symmetric differences. */
  lemma PairArithIsCost(a: set<int>, l1: set<int>, c: set<int>, l2: set<int>)
    requires a <= l1 && c <= l2
    ensures PairArith(|l1| + |l2|, |l1 * l2|, |l1 * c|, |a * l2|, |a * c|) == SplitPairCost(a, l1, c, l2)
  {
    var b, d := l1 - a, l2 - c;
    Quadrants(a, l1, c, l2);
    ClusterDist.XorByAnd(a, c);
    ClusterDist.XorByAnd(b, d);
    ClusterDist.XorByAnd(a, d);
    ClusterDist.XorByAnd(b, c);
  }

  /** Against padding the arithmetic is the other tree's leaf count plus twice the smaller side. */
  lemma PadArithIsCost(a: set<int>, l1: set<int>, other: int)
    requires a <= l1
    ensures PadArith(|l1| + other, |a|, |l1|) == SplitPadCost(a, l1, other)
  {
    DiffCard(l1, a);
  }

  /** Each cell computed from a sound view is FreeSplitCost. */
  lemma FreeSplitCellIsCost(v: TableView, g: IdGroup, t1: Tree, t2: Tree, rootsInter: int, x: Slot<NodeRef>, y: Slot<NodeRef>)
    requires Valid(t1) && Valid(t2) && Covers(g, t1) && Covers(g, t2) && ViewSound(v, g, t1, t2)
    requires SlotPair(t1, t2, x, y) && rootsInter == |Cluster(g, t1, Root(t1)) * Cluster(g, t2, Root(t2))|
    ensures FreeArgs(v, t1, t2, x, y)
    ensures FreeSplitCell(v, t1, t2, rootsInter, x, y) == FreeSplitCost(g, t1, t2, x, y)
  {
    if x.Node? && y.Node? {
      PairCellIsCost(v, g, t1, t2, rootsInter, x.node, y.node);
    } else if x.Node? {
      RowPadCellIsCost(v, g, t1, t2, rootsInter, x.node);
    } else {
      ColumnPadCellIsCost(v, g, t1, t2, rootsInter, y.node);
    }
  }

  lemma PairCellIsCost(v: TableView, g: IdGroup, t1: Tree, t2: Tree, rootsInter: int, x: NodeRef, y: NodeRef)
    requires Valid(t1) && Valid(t2) && Covers(g, t1) && Covers(g, t2) && ViewSound(v, g, t1, t2)
    requires IsNode(t1, x) && IsNode(t2, y) && rootsInter == |Cluster(g, t1, Root(t1)) * Cluster(g, t2, Root(t2))|
    ensures FreeArgs(v, t1, t2, Node(x), Node(y))
    ensures FreeSplitCell(v, t1, t2, rootsInter, Node(x), Node(y)) == FreeSplitCost(g, t1, t2, Node(x), Node(y))
  {
    var a, c := Cluster(g, t1, x), Cluster(g, t2, y);
    var l1, l2 := Cluster(g, t1, Root(t1)), Cluster(g, t2, Root(t2));
    RootClusterSize(g, t1);
    RootClusterSize(g, t2);
    ClusterInRoot(g, t1, x);
    ClusterInRoot(g, t2, y);
    PairCellArith(v, t1, t2, rootsInter, x, y, a, c, l1, l2);
  }

  /** The pair arithmetic on a view that holds the four intersections of A, C and the two leaf sets. */
  lemma PairCellArith(v: TableView, t1: Tree, t2: Tree, rootsInter: int, x: NodeRef, y: NodeRef,
                      a: set<int>, c: set<int>, l1: set<int>, l2: set<int>)
    requires FreeArgs(v, t1, t2, Node(x), Node(y)) && a <= l1 && c <= l2
    requires |l1| == |t1.names| && |l2| == |t2.names| && rootsInter == |l1 * l2|
    requires ViewInter(v, t1, t2, Root(t1), y) == |l1 * c| && ViewInter(v, t1, t2, x, Root(t2)) == |a * l2|
    requires ViewInter(v, t1, t2, x, y) == |a * c|
    ensures FreeSplitCell(v, t1, t2, rootsInter, Node(x), Node(y)) == SplitPairCost(a, l1, c, l2)
  {
    PairCellIsArith(v, t1, t2, rootsInter, x, y);
    PairArithIsCost(a, l1, c, l2);
  }

  /** A pair cell is the pair arithmetic on the three intersections it reads. */
  lemma PairCellIsArith(v: TableView, t1: Tree, t2: Tree, rootsInter: int, x: NodeRef, y: NodeRef)
    requires FreeArgs(v, t1, t2, Node(x), Node(y))
    ensures FreeSplitCell(v, t1, t2, rootsInter, Node(x), Node(y))
            == PairArith(|t1.names| + |t2.names|, rootsInter, ViewInter(v, t1, t2, Root(t1), y),
                         ViewInter(v, t1, t2, x, Root(t2)), ViewInter(v, t1, t2, x, y))
  {
  }

  lemma RowPadCellIsCost(v: TableView, g: IdGroup, t1: Tree, t2: Tree, rootsInter: int, x: NodeRef)
    requires Valid(t1) && Valid(t2) && Covers(g, t1) && Covers(g, t2) && ViewSound(v, g, t1, t2) && IsNode(t1, x)
    ensures FreeArgs(v, t1, t2, Node(x), Pad)
    ensures FreeSplitCell(v, t1, t2, rootsInter, Node(x), Pad) == FreeSplitCost(g, t1, t2, Node(x), Pad)
  {
    var l1, l2 := Cluster(g, t1, Root(t1)), Cluster(g, t2, Root(t2));
    RootClusterSize(g, t1);
    RootClusterSize(g, t2);
    ClusterInRoot(g, t1, x);
    assert ViewSize1(v, t1, t2, x) == |Cluster(g, t1, x)|;
    PadArithIsCost(Cluster(g, t1, x), l1, |l2|);
  }

  lemma ColumnPadCellIsCost(v: TableView, g: IdGroup, t1: Tree, t2: Tree, rootsInter: int, y: NodeRef)
    requires Valid(t1) && Valid(t2) && Covers(g, t1) && Covers(g, t2) && ViewSound(v, g, t1, t2) && IsNode(t2, y)
    ensures FreeArgs(v, t1, t2, Pad, Node(y))
    ensures FreeSplitCell(v, t1, t2, rootsInter, Pad, Node(y)) == FreeSplitCost(g, t1, t2, Pad, Node(y))
  {
    var l1, l2 := Cluster(g, t1, Root(t1)), Cluster(g, t2, Root(t2));
    RootClusterSize(g, t1);
    RootClusterSize(g, t2);
    ClusterInRoot(g, t2, y);
    assert ViewSize2(v, t1, t2, y) == |Cluster(g, t2, y)|;
    PadArithIsCost(Cluster(g, t2, y), l2, |l1|);
  }

  // ---------------------------------------------------------------------------
  // What the cost means
  // ---------------------------------------------------------------------------

  /** Taking complements inside l turns a symmetric difference into its complement, or leaves it as it is. */
  lemma ComplementXor(a: set<int>, c: set<int>, l: set<int>)
    requires a <= l && c <= l
    ensures SplitDist.Xor(a, c) <= l
    ensures SplitDist.Xor(a, l - c) == l - SplitDist.Xor(a, c)
    ensures SplitDist.Xor(l - a, c) == l - SplitDist.Xor(a, c)
    ensures SplitDist.Xor(l - a, l - c) == SplitDist.Xor(a, c)
  {
  }

  /**
   * Over one leaf set l the pair cost is twice the split distance
   * min(x, n - x), x = |A xor C|, and the padding cost is n plus twice the
   * distance of A to the trivial split; halving the optimum therefore gives
   * the matching split distance of trees on one leaf set.
   */
  lemma SplitCostsSameLeaves(a: set<int>, c: set<int>, l: set<int>)
    requires a <= l && c <= l
    ensures SplitPairCost(a, l, c, l) == 2 * SplitDist.GetDist1Bit(a, c, |l|)
    ensures SplitPadCost(a, l, |l|) == |l| + 2 * SplitDist.GetDistToOAsMinBit(a, |l|)
  {
    var x := SplitDist.Xor(a, c);
    ComplementXor(a, c, l);
    DiffCard(l, x);
    DiffCard(l, a);
    XorBitIsXorSize(a, c);
    XorBitIsXorSize(l - a, l - c);
    XorBitIsXorSize(a, l - c);
    XorBitIsXorSize(l - a, c);
    assert ClusterDist.GetDistXorBit(a, c) + ClusterDist.GetDistXorBit(l - a, l - c) == 2 * |x|;
    assert ClusterDist.GetDistXorBit(a, l - c) + ClusterDist.GetDistXorBit(l - a, c) == 2 * (|l| - |x|);
  }

  /** getDistXorBit is the size of the symmetric difference as the split distances count it. */
  lemma XorBitIsXorSize(a: set<int>, c: set<int>)
    ensures ClusterDist.GetDistXorBit(a, c) == |SplitDist.Xor(a, c)|
  {
    assert SplitDist.Xor(a, c) == (a - c) + (c - a);
    assert (a - c) * (c - a) == {};
  }

  /** A split paired with itself costs nothing. */
  lemma SplitPairCostSelf(a: set<int>, l: set<int>)
    ensures SplitPairCost(a, l, a, l) == 0
  {
    ClusterDist.XorZero(a, a);
    ClusterDist.XorZero(l - a, l - a);
  }

  /** Every cost lies between 0 and the leaf count of both trees together. */
  lemma SplitCostBounds(a: set<int>, l1: set<int>, c: set<int>, l2: set<int>)
    requires a <= l1 && c <= l2
    ensures 0 <= SplitPairCost(a, l1, c, l2) <= |l1| + |l2|
    ensures 0 <= SplitPadCost(a, l1, |l2|) <= |l1| + |l2|
  {
    var b, d := l1 - a, l2 - c;
    Quadrants(a, l1, c, l2);
    ClusterDist.XorByAnd(a, c);
    ClusterDist.XorByAnd(b, d);
    var _ := ClusterDist.GetAndBit(a, c);
    var _ := ClusterDist.GetAndBit(b, d);
  }

  /** For trees on one leaf set, FreeSplitCost is twice the split distance, as in the matching split metric. */
  lemma FreeSplitSameLeaves(g: IdGroup, t1: Tree, t2: Tree, x: NodeRef, y: NodeRef)
    requires Valid(t1) && Valid(t2) && Covers(g, t1) && Covers(g, t2) && IsNode(t1, x) && IsNode(t2, y)
    requires Cluster(g, t1, Root(t1)) == Cluster(g, t2, Root(t2))
    ensures FreeSplitCost(g, t1, t2, Node(x), Node(y))
            == 2 * SplitDist.GetDist1Bit(Cluster(g, t1, x), Cluster(g, t2, y), |t1.names|)
    ensures FreeSplitCost(g, t1, t2, Node(x), Pad)
            == |t1.names| + 2 * SplitDist.GetDistToOAsMinBit(Cluster(g, t1, x), |t1.names|)
  {
    var a, c, l := Cluster(g, t1, x), Cluster(g, t2, y), Cluster(g, t1, Root(t1));
    RootClusterSize(g, t1);
    ClusterInRoot(g, t1, x);
    ClusterInRoot(g, t2, y);
    assert FreeSplitCost(g, t1, t2, Node(x), Node(y)) == SplitPairCost(a, l, c, l);
    assert FreeSplitCost(g, t1, t2, Node(x), Pad) == SplitPadCost(a, l, |l|);
    SplitCostsSameLeaves(a, c, l);
  }

  /** Every entry of FreeSplitMatrix lies between 0 and the leaf count of both trees together. */
  lemma FreeSplitEntryBound(g: IdGroup, t1: Tree, t2: Tree, a: nat, b: nat)
    requires Valid(t1) && Valid(t2) && Covers(g, t1) && Covers(g, t2)
    ensures 0 <= FreeSplitEntry(g, t1, t2, a, b) <= |t1.names| + |t2.names|
  {
    var k1, k2 := FreeSplitSlots(t1, t2, true), FreeSplitSlots(t1, t2, false);
    if a < |k1| && b < |k2| {
      var x, y := k1[a], k2[b];
      FreeSlotsPair(t1, t2, true, x, y);
      var l1, l2 := Cluster(g, t1, Root(t1)), Cluster(g, t2, Root(t2));
      RootClusterSize(g, t1);
      RootClusterSize(g, t2);
      if x.Node? && y.Node? {
        ClusterInRoot(g, t1, x.node);
        ClusterInRoot(g, t2, y.node);
        SplitCostBounds(Cluster(g, t1, x.node), l1, Cluster(g, t2, y.node), l2);
      } else if x.Node? {
        ClusterInRoot(g, t1, x.node);
        SplitCostBounds(Cluster(g, t1, x.node), l1, {}, l2);
      } else {
        ClusterInRoot(g, t2, y.node);
        SplitCostBounds(Cluster(g, t2, y.node), l2, {}, l1);
      }
    }
  }

  lemma FreeSplitEntriesWithin(g: IdGroup, t1: Tree, t2: Tree)
    requires Valid(t1) && Valid(t2) && Covers(g, t1) && Covers(g, t2)
    ensures EntriesWithin(FreeSplitMatrix(g, t1, t2), 0, LeafSum(t1, t2))
  {
    var o := FreeSplitMatrix(g, t1, t2);
    forall a, b | 0 <= a < |o| && 0 <= b < |o[a]|
      ensures 0 <= o[a][b] <= LeafSum(t1, t2)
    {
      FreeSplitEntryBound(g, t1, t2, a, b);
    }
  }

  /** The optimum lies between 0 and size·(n1 + n2); the distance, its half, accordingly. */
  lemma FreeSplitDistanceBounds(g: IdGroup, t1: Tree, t2: Tree)
    requires Valid(t1) && Valid(t2) && Covers(g, t1) && Covers(g, t2)
    ensures 0 <= Optimum(FreeSplitMatrix(g, t1, t2)).0 <= FreeSplitSide(t1, t2) * LeafSum(t1, t2)
  {
    FreeSplitEntriesWithin(g, t1, t2);
    OptimumBelow(FreeSplitMatrix(g, t1, t2), FreeSplitSide(t1, t2), LeafSum(t1, t2));
  }

  /** A tree is at distance 0 from itself: every node can be paired with itself at no cost. */
  lemma FreeSplitSelfZero(g: IdGroup, t: Tree)
    requires Valid(t) && Covers(g, t)
    ensures Optimum(FreeSplitMatrix(g, t, t)).0 == 0
  {
    var o := FreeSplitMatrix(g, t, t);
    var hi := LeafSum(t, t);
    var k := FreeSplitSlots(t, t, true);
    forall a | 0 <= a < |o|
      ensures o[a][a] == 0
    {
      FreeSlotIs(t, FreeSizeIt(t, t), true, a);
      SplitPairCostSelf(Cluster(g, t, k[a].node), Cluster(g, t, Root(t)));
    }
    FreeSplitEntriesWithin(g, t, t);
    OptimumZero(o, hi);
  }

  // ---------------------------------------------------------------------------
  // getDistance
  // ---------------------------------------------------------------------------

  /** cost is the cell arithmetic of getDistance on the rows and columns of the two trees over g. */
  ghost predicate CostIsFreeSplit(g: IdGroup, t1: Tree, t2: Tree, cost: (Slot<NodeRef>, Slot<NodeRef>) --> int)
    requires Shaped(t1) && Shaped(t2)
  {
    var k1, k2 := FreeSplitSlots(t1, t2, true), FreeSplitSlots(t1, t2, false);
    forall x, y :: x in k1 && y in k2 ==>
      SlotPair(t1, t2, x, y) && cost.requires(x, y) && cost(x, y) == FreeSplitCost(g, t1, t2, x, y)
  }

  /** The matrix the loops fill with such a cost is FreeSplitMatrix. */
  lemma FreeSplitMatrixIs(g: IdGroup, t1: Tree, t2: Tree, cells: seq<seq<int>>, cost: (Slot<NodeRef>, Slot<NodeRef>) --> int)
    requires Shaped(t1) && Shaped(t2) && CostIsFreeSplit(g, t1, t2, cost)
    requires var side, k1, k2 := FreeSplitSide(t1, t2), FreeSplitSlots(t1, t2, true), FreeSplitSlots(t1, t2, false);
             && |cells| == side && (forall a :: 0 <= a < side ==> |cells[a]| == side)
             && (forall a, b :: 0 <= a < side && 0 <= b < side ==> cells[a][b] == Cell(k1, k2, cost, a, b))
    ensures cells == FreeSplitMatrix(g, t1, t2)
  {
    var o := FreeSplitMatrix(g, t1, t2);
    var k1, k2 := FreeSplitSlots(t1, t2, true), FreeSplitSlots(t1, t2, false);
    forall a | 0 <= a < |o|
      ensures cells[a] == o[a]
    {
      forall b | 0 <= b < |o|
        ensures cells[a][b] == o[a][b]
      {
        assert k1[a] in k1 && k2[b] in k2;
      }
    }
  }

  /**
   * The fill loops of getDistance on the table's view v: rows are the nodes of
   * t1 from getAllNodes without the root, then padding, columns the same for
   * t2; each cell is FreeSplitCell.  sizeIt rows and columns are visited, one
   * of each skipped, so the size×size matrix is filled exactly.
   */
  method FillFreeSplit(v: TableView, ghost g: IdGroup, t1: Tree, t2: Tree, rootsInterSize: int, sizeIt: nat)
    returns (cells: array2<int>)
    requires Valid(t1) && Valid(t2) && Covers(g, t1) && Covers(g, t2) && ViewSound(v, g, t1, t2)
    requires rootsInterSize == |Cluster(g, t1, Root(t1)) * Cluster(g, t2, Root(t2))|
    requires sizeIt == FreeSizeIt(t1, t2)
    ensures fresh(cells) && cells.Length0 == FreeSplitSide(t1, t2) && cells.Length1 == FreeSplitSide(t1, t2)
    ensures Rows(cells) == FreeSplitMatrix(g, t1, t2)
  {
    var nodeT1 := GetAllNodes(t1);
    var nodeT2 := GetAllNodes(t2);
    var sel1 := FreeSel(nodeT1[..], Root(t1), sizeIt, true);
    var sel2 := FreeSel(nodeT2[..], Root(t2), sizeIt, true);
    var cost := (x: Slot<NodeRef>, y: Slot<NodeRef>) requires FreeArgs(v, t1, t2, x, y) =>
      FreeSplitCell(v, t1, t2, rootsInterSize, x, y);
    KeptFree(t1, sizeIt, true);
    KeptFree(t2, sizeIt, true);
    var k1, k2 := FreeSplitSlots(t1, t2, true), FreeSplitSlots(t1, t2, false);
    forall x, y | x in k1 && y in k2
      ensures SlotPair(t1, t2, x, y) && FreeArgs(v, t1, t2, x, y)
      ensures FreeSplitCell(v, t1, t2, rootsInterSize, x, y) == FreeSplitCost(g, t1, t2, x, y)
    {
      FreeSlotsPair(t1, t2, true, x, y);
      FreeSplitCellIsCost(v, g, t1, t2, rootsInterSize, x, y);
    }
    assert CostIsFreeSplit(g, t1, t2, cost);
    var r := FillSkipping(sizeIt - 1, sel1, sel2, cost);
    cells := r.value;
    FreeSplitMatrixIs(g, t1, t2, Rows(cells), cost);
  }

  class MatchingSpliMetricFree {
    var rowsol: array<int>
    var colsol: array<int>
    var assigncost: array2<int>
    var cIntM: ClustIntersectInfoMatrix?

    /** Nothing computed yet; the Java fields start as null, here as empty arrays. */
    constructor ()
      ensures cIntM == null && rowsol.Length == 0 && colsol.Length == 0 && assigncost.Length0 == 0
    {
      rowsol := new int[0];
      colsol := new int[0];
      assigncost := new int[0, 0];
      cIntM := null;
    }

    /**
     * getDistance: the id groups of the two trees merged, the intersection
     * table over them, then half the least total cost of a pairing of the
     * non-root nodes of one tree with those of the other, over FreeSplitMatrix.
     */
    method GetDistance(t1: Tree, t2: Tree) returns (r: real)
      requires Valid(t1) && Valid(t2) && Covers(LeafIdGroup(t1), t1) && Covers(LeafIdGroup(t2), t2)
      modifies this
      ensures cIntM != null && fresh(cIntM) && cIntM.t1 == t1 && cIntM.t2 == t2
      ensures NameSet(cIntM.idGroup) == NameSet(t1.names) + NameSet(t2.names)
      ensures forall a, b :: 0 <= a < b < |cIntM.idGroup| ==> cIntM.idGroup[a] != cIntM.idGroup[b]
      ensures rowsol.Length == colsol.Length == assigncost.Length0 == assigncost.Length1 == FreeSplitSide(t1, t2)
      ensures FreeSplitSide(t1, t2) == 0 ==> r == 0.0
      ensures FreeSplitSide(t1, t2) > 0 ==>
                var o := FreeSplitMatrix(cIntM.idGroup, t1, t2);
                && Rows(assigncost) == o && IsPerm(rowsol[..], |o|)
                && r == (Optimum(o).0 as real) / 2.0
    {
      var idGroup1, idGroup2 := LeafIdGroup(t1), LeafIdGroup(t2);
      var idGroup := MergeIdGroups(idGroup1, idGroup2);
      MergedCovers(idGroup, t1);
      MergedCovers(idGroup, t2);
      var m := CalcClustIntersectMatrix(t1, t2, idGroup);
      cIntM := m;
      r := Measure(m);
    }

    /** getDistance once the table m is filled: the matrix side, its empty case, then the solution. */
    method Measure(m: ClustIntersectInfoMatrix) returns (r: real)
      requires TableSound(m)
      modifies this
      ensures cIntM == old(cIntM)
      ensures rowsol.Length == colsol.Length == assigncost.Length0 == assigncost.Length1 == FreeSplitSide(m.t1, m.t2)
      ensures FreeSplitSide(m.t1, m.t2) == 0 ==> r == 0.0
      ensures FreeSplitSide(m.t1, m.t2) > 0 ==>
                var o := FreeSplitMatrix(m.idGroup, m.t1, m.t2);
                && Rows(assigncost) == o && IsPerm(rowsol[..], |o|)
                && r == (Optimum(o).0 as real) / 2.0
    {
      var totSize1 := m.intT1Num + m.extT1Num;
      var totSize2 := m.intT2Num + m.extT2Num;
      var sizeIt := Max(totSize1, totSize2);
      var size := sizeIt - 1;
      if size <= 0 {
        assigncost := new int[0, 0];
        rowsol := new int[0];
        colsol := new int[0];
        return 0.0;
      }
      var cells := BuildFreeSplit(m, sizeIt);
      var metric := Assign(cells);
      r := (metric as real) / 2.0;
    }

    /** Solves the assignment problem of the filled matrix and keeps the solution. */
    method Assign(cells: array2<int>) returns (metric: int)
      requires cells.Length0 == cells.Length1
      modifies this
      ensures assigncost == cells && fresh(rowsol) && fresh(colsol)
      ensures rowsol.Length == colsol.Length == cells.Length0
      ensures Square(Rows(cells)) && IsPerm(rowsol[..], cells.Length0)
      ensures metric == Total(Rows(cells), rowsol[..]) && metric == Optimum(Rows(cells)).0
      ensures cIntM == old(cIntM)
    {
      assigncost := cells;
      rowsol := new int[cells.Length0];
      colsol := new int[cells.Length0];
      metric := LapShort(cells.Length0, assigncost, rowsol, colsol);
      OptimalIsOptimum(Rows(assigncost), metric, rowsol[..]);
    }
  }

  /** The table's part of getDistance: its view, the intersection of the two roots, then the fill loops. */
  method BuildFreeSplit(m: ClustIntersectInfoMatrix, sizeIt: nat) returns (cells: array2<int>)
    requires TableSound(m) && sizeIt == FreeSizeIt(m.t1, m.t2)
    ensures fresh(cells) && cells.Length0 == FreeSplitSide(m.t1, m.t2) && cells.Length1 == FreeSplitSide(m.t1, m.t2)
    ensures Rows(cells) == FreeSplitMatrix(m.idGroup, m.t1, m.t2)
  {
    var rootsInterSize := m.GetInterSize(Root(m.t1), Root(m.t2));
    var v := m.View();
    TableViewSound(m);
    cells := FillFreeSplit(v, m.idGroup, m.t1, m.t2, rootsInterSize, sizeIt);
  }
}
