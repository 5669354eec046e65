/**
 * MatchingClusterFree: the matching cluster distance of MatchingClusterMetricFree,
 * for trees whose leaf sets may differ.  Every node of each tree (leaves,
 * internal nodes and the root, in getAllNodes order) is a cluster over the
 * merged id group; the shorter list is padded with empty clusters up to the
 * larger node count, and the distance is the least total size of symmetric
 * differences over all pairings of the two lists.
 */
module MatchingClusterFree {
  import opened Wrappers
  import opened PalTree
  import opened ClustIntersectInfo
  import opened TreeCmpUtils
  import opened TreeCmpUtilsTriplets
  import opened CostMatrix
  import opened LapSolver
  import opened FreeNodes
  import ClusterDist

  // ---------------------------------------------------------------------------
  // The matrix, stated on clusters
  // ---------------------------------------------------------------------------

  /** The side of the matrix: the larger node count. */
  function ClusterFreeSide(t1: Tree, t2: Tree): nat
  {
    FreeSizeIt(t1, t2)
  }

  /** The rows: every node of t1, then padding; the columns the same for t2. */
  function ClusterFreeSlots(t1: Tree, t2: Tree, first: bool): (k: seq<Slot<NodeRef>>)
    ensures |k| == ClusterFreeSide(t1, t2)
  {
    FreeSlots(if first then t1 else t2, FreeSizeIt(t1, t2), false)
  }

  /** The cluster of a row or column: that of its node, empty for padding. */
  function SlotCluster(g: IdGroup, t: Tree, x: Slot<NodeRef>): set<int>
    requires Shaped(t) && (x.Node? ==> IsNode(t, x.node))
  {
    if x.Node? then Cluster(g, t, x.node) else {}
  }

  /** The cost of pairing two clusters: the size of their symmetric difference. */
  function ClusterFreeCost(g: IdGroup, t1: Tree, t2: Tree, x: Slot<NodeRef>, y: Slot<NodeRef>): int
    requires Shaped(t1) && Shaped(t2) && SlotPair(t1, t2, x, y)
  {
    ClusterDist.GetDistXorBit(SlotCluster(g, t1, x), SlotCluster(g, t2, y))
  }

  /** One entry of the matrix: the cost of row a and column b. */
  function ClusterFreeEntry(g: IdGroup, t1: Tree, t2: Tree, a: nat, b: nat): int
    requires Shaped(t1) && Shaped(t2)
  {
    var k1, k2 := ClusterFreeSlots(t1, t2, true), ClusterFreeSlots(t1, t2, false);
    if a < |k1| && b < |k2| then
      FreeSlotsPair(t1, t2, false, k1[a], k2[b]);
      ClusterFreeCost(g, t1, t2, k1[a], k2[b])
    else 0
  }

  /** The matrix getDistance builds. */
  function ClusterFreeMatrix(g: IdGroup, t1: Tree, t2: Tree): (o: seq<seq<int>>)
    requires Shaped(t1) && Shaped(t2)
    ensures |o| == ClusterFreeSide(t1, t2) && Square(o)
    ensures forall a, b :: 0 <= a < |o| && 0 <= b < |o| ==> o[a][b] == ClusterFreeEntry(g, t1, t2, a, b)
  {
    var size := ClusterFreeSide(t1, t2);
    seq(size, a requires 0 <= a < size => seq(size, b requires 0 <= b < size => ClusterFreeEntry(g, t1, t2, a, b)))
  }

  // ---------------------------------------------------------------------------
  // The cell arithmetic of getDistance
  // ---------------------------------------------------------------------------

  predicate ClusterFreeArgs(v: TableView, t1: Tree, t2: Tree, x: Slot<NodeRef>, y: Slot<NodeRef>)
  {
    ViewFits(v, t1, t2) && |t1.children| > 0 && |t2.children| > 0 && SlotPair(t1, t2, x, y)
  }

  /**
   * What the loop writes for row x and column y, from the table: the two
   * cluster sizes less twice their intersection, or the size of the node's
   * cluster against padding.
   */
  function ClusterFreeCell(v: TableView, t1: Tree, t2: Tree, x: Slot<NodeRef>, y: Slot<NodeRef>): int
    requires ClusterFreeArgs(v, t1, t2, x, y)
  {
    if x.Node? && y.Node? then
      ViewSize1(v, t1, t2, x.node) + ViewSize2(v, t1, t2, y.node) - 2 * ViewInter(v, t1, t2, x.node, y.node)
    else if x.Node? then ViewSize1(v, t1, t2, x.node)
    else ViewSize2(v, t1, t2, y.node)
  }

  /** Against the empty cluster, the symmetric difference is the cluster itself. */
  lemma XorEmpty(c: set<int>)
    ensures ClusterDist.GetDistXorBit(c, {}) == |c| && ClusterDist.GetDistXorBit({}, c) == |c|
  {
    assert c - {} == c;
  }

  /** The cell the loop writes from a sound view is the cost on the clusters. */
  lemma ClusterFreeCellIsCost(v: TableView, g: IdGroup, t1: Tree, t2: Tree, x: Slot<NodeRef>, y: Slot<NodeRef>)
    requires ViewSound(v, g, t1, t2) && SlotPair(t1, t2, x, y)
    ensures ClusterFreeArgs(v, t1, t2, x, y)
    ensures ClusterFreeCell(v, t1, t2, x, y) == ClusterFreeCost(g, t1, t2, x, y)
  {
    if x.Node? && y.Node? {
      ClusterDist.XorByAnd(Cluster(g, t1, x.node), Cluster(g, t2, y.node));
    } else if x.Node? {
      XorEmpty(Cluster(g, t1, x.node));
    } else {
      XorEmpty(Cluster(g, t2, y.node));
    }
  }

  // ---------------------------------------------------------------------------
  // What the distance is
  // ---------------------------------------------------------------------------

  /** An entry is 0 exactly when the row and the column have the same cluster. */
  lemma ClusterFreeEntryZero(g: IdGroup, t1: Tree, t2: Tree, a: nat, b: nat)
    requires Shaped(t1) && Shaped(t2) && a < ClusterFreeSide(t1, t2) && b < ClusterFreeSide(t1, t2)
    ensures var k1, k2 := ClusterFreeSlots(t1, t2, true), ClusterFreeSlots(t1, t2, false);
            && SlotPair(t1, t2, k1[a], k2[b])
            && (ClusterFreeEntry(g, t1, t2, a, b) == 0 <==> SlotCluster(g, t1, k1[a]) == SlotCluster(g, t2, k2[b]))
  {
    var k1, k2 := ClusterFreeSlots(t1, t2, true), ClusterFreeSlots(t1, t2, false);
    FreeSlotsPair(t1, t2, false, k1[a], k2[b]);
    ClusterDist.XorZero(SlotCluster(g, t1, k1[a]), SlotCluster(g, t2, k2[b]));
  }

  /** An entry lies between 0 and the leaves of both trees. */
  lemma ClusterFreeEntryBound(g: IdGroup, t1: Tree, t2: Tree, a: nat, b: nat)
    requires Valid(t1) && Valid(t2) && Covers(g, t1) && Covers(g, t2)
    ensures 0 <= ClusterFreeEntry(g, t1, t2, a, b) <= LeafSum(t1, t2)
  {
    var k1, k2 := ClusterFreeSlots(t1, t2, true), ClusterFreeSlots(t1, t2, false);
    if a < |k1| && b < |k2| {
      var x, y := k1[a], k2[b];
      FreeSlotsPair(t1, t2, false, x, y);
      var c1, c2 := SlotCluster(g, t1, x), SlotCluster(g, t2, y);
      SlotClusterBound(g, t1, x);
      SlotClusterBound(g, t2, y);
      XorBelowSum(c1, c2);
    }
  }

  /** A cluster has at most one id per leaf of its tree. */
  lemma SlotClusterBound(g: IdGroup, t: Tree, x: Slot<NodeRef>)
    requires Valid(t) && Covers(g, t) && (x.Node? ==> IsNode(t, x.node))
    ensures |SlotCluster(g, t, x)| <= |t.names|
  {
    if x.Node? {
      ClusterInRoot(g, t, x.node);
      RootClusterSize(g, t);
      DiffCard(Cluster(g, t, Root(t)), Cluster(g, t, x.node));
    }
  }

  lemma XorBelowSum(c1: set<int>, c2: set<int>)
    ensures 0 <= ClusterDist.GetDistXorBit(c1, c2) <= |c1| + |c2|
  {
    ClusterDist.XorByAnd(c1, c2);
  }

  lemma ClusterFreeEntriesWithin(g: IdGroup, t1: Tree, t2: Tree)
    requires Valid(t1) && Valid(t2) && Covers(g, t1) && Covers(g, t2)
    ensures EntriesWithin(ClusterFreeMatrix(g, t1, t2), 0, LeafSum(t1, t2))
  {
    var o := ClusterFreeMatrix(g, t1, t2);
    forall a, b | 0 <= a < |o| && 0 <= b < |o[a]|
      ensures 0 <= o[a][b] <= LeafSum(t1, t2)
    {
      ClusterFreeEntryBound(g, t1, t2, a, b);
    }
  }

  /** The distance lies between 0 and size·(n1 + n2). */
  lemma ClusterFreeDistanceBounds(g: IdGroup, t1: Tree, t2: Tree)
    requires Valid(t1) && Valid(t2) && Covers(g, t1) && Covers(g, t2)
    ensures 0 <= Optimum(ClusterFreeMatrix(g, t1, t2)).0 <= ClusterFreeSide(t1, t2) * LeafSum(t1, t2)
  {
    ClusterFreeEntriesWithin(g, t1, t2);
    OptimumBelow(ClusterFreeMatrix(g, t1, t2), ClusterFreeSide(t1, t2), LeafSum(t1, t2));
  }

  /** A tree is at distance 0 from itself: each node can be paired with itself. */
  lemma ClusterFreeSelfZero(g: IdGroup, t: Tree)
    requires Valid(t) && Covers(g, t)
    ensures Optimum(ClusterFreeMatrix(g, t, t)).0 == 0
  {
    var o := ClusterFreeMatrix(g, t, t);
    var k := ClusterFreeSlots(t, t, true);
    forall a | 0 <= a < |o|
      ensures o[a][a] == 0
    {
      FreeSlotIs(t, FreeSizeIt(t, t), false, a);
      ClusterDist.XorZero(SlotCluster(g, t, k[a]), SlotCluster(g, t, k[a]));
    }
    ClusterFreeEntriesWithin(g, t, t);
    OptimumZero(o, LeafSum(t, t));
  }

  // ---------------------------------------------------------------------------
  // getDistance
  // ---------------------------------------------------------------------------

  ghost predicate CostIsClusterFree(g: IdGroup, t1: Tree, t2: Tree, cost: (Slot<NodeRef>, Slot<NodeRef>) --> int)
    requires Shaped(t1) && Shaped(t2)
  {
    var k1, k2 := ClusterFreeSlots(t1, t2, true), ClusterFreeSlots(t1, t2, false);
    forall x, y :: x in k1 && y in k2 ==>
      SlotPair(t1, t2, x, y) && cost.requires(x, y) && cost(x, y) == ClusterFreeCost(g, t1, t2, x, y)
  }

  /** The matrix the loops fill with such a cost is ClusterFreeMatrix. */
  lemma ClusterFreeMatrixIs(g: IdGroup, t1: Tree, t2: Tree, cells: seq<seq<int>>, cost: (Slot<NodeRef>, Slot<NodeRef>) --> int)
    requires Shaped(t1) && Shaped(t2) && CostIsClusterFree(g, t1, t2, cost)
    requires var side, k1, k2 := ClusterFreeSide(t1, t2), ClusterFreeSlots(t1, t2, true), ClusterFreeSlots(t1, t2, false);
             && |cells| == side && (forall a :: 0 <= a < side ==> |cells[a]| == side)
             && (forall a, b :: 0 <= a < side && 0 <= b < side ==> cells[a][b] == Cell(k1, k2, cost, a, b))
    ensures cells == ClusterFreeMatrix(g, t1, t2)
  {
    var o := ClusterFreeMatrix(g, t1, t2);
    var k1, k2 := ClusterFreeSlots(t1, t2, true), ClusterFreeSlots(t1, t2, false);
    forall a | 0 <= a < |o|
      ensures cells[a] == o[a]
    {
      forall b | 0 <= b < |o|
        ensures cells[a][b] == o[a][b]
      {
        assert k1[a] in k1 && k2[b] in k2;
      }
    }
  }

  /**
   * The fill loops of getDistance on the table's view v: row i is node i of
   * getAllNodes of t1, or padding past its node count; column j the same for
   * t2.  Nothing is skipped, so row and column counters are i and j.
   */
  method FillClusterFree(v: TableView, ghost g: IdGroup, t1: Tree, t2: Tree, size: nat)
    returns (cells: array2<int>)
    requires ViewSound(v, g, t1, t2) && size == FreeSizeIt(t1, t2)
    ensures fresh(cells) && cells.Length0 == size && cells.Length1 == size
    ensures Rows(cells) == ClusterFreeMatrix(g, t1, t2)
  {
    var nodeT1 := GetAllNodes(t1);
    var nodeT2 := GetAllNodes(t2);
    var sel1 := FreeSel(nodeT1[..], Root(t1), size, false);
    var sel2 := FreeSel(nodeT2[..], Root(t2), size, false);
    var cost := (x: Slot<NodeRef>, y: Slot<NodeRef>) requires ClusterFreeArgs(v, t1, t2, x, y) =>
      ClusterFreeCell(v, t1, t2, x, y);
    KeptFree(t1, size, false);
    KeptFree(t2, size, false);
    var k1, k2 := ClusterFreeSlots(t1, t2, true), ClusterFreeSlots(t1, t2, false);
    forall x, y | x in k1 && y in k2
      ensures SlotPair(t1, t2, x, y) && ClusterFreeArgs(v, t1, t2, x, y)
      ensures ClusterFreeCell(v, t1, t2, x, y) == ClusterFreeCost(g, t1, t2, x, y)
    {
      FreeSlotsPair(t1, t2, false, x, y);
      ClusterFreeCellIsCost(v, g, t1, t2, x, y);
    }
    assert CostIsClusterFree(g, t1, t2, cost);
    var r := FillSkipping(size, sel1, sel2, cost);
    cells := r.value;
    ClusterFreeMatrixIs(g, t1, t2, Rows(cells), cost);
  }

  /** The table's part of getDistance: its view, then the fill loops. */
  method BuildClusterFree(m: ClustIntersectInfoMatrix, size: nat) returns (cells: array2<int>)
    requires TableSound(m) && size == FreeSizeIt(m.t1, m.t2)
    ensures fresh(cells) && cells.Length0 == size && cells.Length1 == size
    ensures Rows(cells) == ClusterFreeMatrix(m.idGroup, m.t1, m.t2)
  {
    var v := m.View();
    TableViewSound(m);
    cells := FillClusterFree(v, m.idGroup, m.t1, m.t2, size);
  }

  class MatchingClusterMetricFree {
    var rowsol: array<int>
    var colsol: array<int>
    var assigncost: array2<int>
    var cIntM: ClustIntersectInfoMatrix?

    /** Nothing computed yet; the Java fields start as null, here as empty arrays. */
    constructor ()
      ensures cIntM == null && rowsol.Length == 0 && colsol.Length == 0 && assigncost.Length0 == 0
    {
      rowsol := new int[0];
      colsol := new int[0];
      assigncost := new int[0, 0];
      cIntM := null;
    }

    /**
     * getDistance: the id groups merged, the intersection table over them,
     * then the least total cost of a pairing of all nodes of one tree with all
     * nodes of the other over ClusterFreeMatrix.  The side is never 0, since
     * every tree has its root.
     */
    method GetDistance(t1: Tree, t2: Tree) returns (r: real)
      requires Valid(t1) && Valid(t2) && Covers(LeafIdGroup(t1), t1) && Covers(LeafIdGroup(t2), t2)
      modifies this
      ensures cIntM != null && fresh(cIntM) && cIntM.t1 == t1 && cIntM.t2 == t2
      ensures NameSet(cIntM.idGroup) == NameSet(t1.names) + NameSet(t2.names)
      ensures forall a, b :: 0 <= a < b < |cIntM.idGroup| ==> cIntM.idGroup[a] != cIntM.idGroup[b]
      ensures rowsol.Length == colsol.Length == assigncost.Length0 == assigncost.Length1 == ClusterFreeSide(t1, t2)
      ensures var o := ClusterFreeMatrix(cIntM.idGroup, t1, t2);
              && Rows(assigncost) == o && IsPerm(rowsol[..], |o|)
              && r == Optimum(o).0 as real
    {
      var idGroup1, idGroup2 := LeafIdGroup(t1), LeafIdGroup(t2);
      var idGroup := MergeIdGroups(idGroup1, idGroup2);
      MergedCovers(idGroup, t1);
      MergedCovers(idGroup, t2);
      var m := CalcClustIntersectMatrix(t1, t2, idGroup);
      cIntM := m;
      r := Measure(m);
    }

    /** getDistance once the table m is filled. */
    method Measure(m: ClustIntersectInfoMatrix) returns (r: real)
      requires TableSound(m)
      modifies this
      ensures cIntM == old(cIntM)
      ensures rowsol.Length == colsol.Length == assigncost.Length0 == assigncost.Length1 == ClusterFreeSide(m.t1, m.t2)
      ensures var o := ClusterFreeMatrix(m.idGroup, m.t1, m.t2);
              && Rows(assigncost) == o && IsPerm(rowsol[..], |o|)
              && r == Optimum(o).0 as real
    {
      var totSize1 := m.intT1Num + m.extT1Num;
      var totSize2 := m.intT2Num + m.extT2Num;
      var size := Max(totSize1, totSize2);
      var cells := BuildClusterFree(m, size);
      var metric := Assign(cells);
      r := metric as real;
    }

    /** Solves the assignment problem of the filled matrix and keeps the solution. */
    method Assign(cells: array2<int>) returns (metric: int)
      requires cells.Length0 == cells.Length1
      modifies this
      ensures assigncost == cells && fresh(rowsol) && fresh(colsol)
      ensures rowsol.Length == colsol.Length == cells.Length0
      ensures Square(Rows(cells)) && IsPerm(rowsol[..], cells.Length0)
      ensures metric == Total(Rows(cells), rowsol[..]) && metric == Optimum(Rows(cells)).0
      ensures cIntM == old(cIntM)
    {
      assigncost := cells;
      rowsol := new int[cells.Length0];
      colsol := new int[cells.Length0];
      metric := LapShort(cells.Length0, assigncost, rowsol, colsol);
      OptimalIsOptimum(Rows(assigncost), metric, rowsol[..]);
    }
  }
}
