/**
 * FreeNodes: the rows and columns of the free-leaf-set matching metrics.
 * Both walk getAllNodes of each tree (the leaves, then the internal nodes)
 * up to the larger node count; the split variant skips the root, the
 * cluster variant keeps it; at and beyond the smaller tree's node count a
 * row or column is padding.
 */
module FreeNodes {
  import opened Wrappers
  import opened PalTree
  import opened ClustIntersectInfo
  import opened TreeCmpUtils
  import opened TreeCmpUtilsTriplets
  import opened CostMatrix
  import opened LapSolver

  /** 1 when the root is skipped, else 0. */
  function Skipped(skipRoot: bool): nat
  {
    if skipRoot then 1 else 0
  }

  /**
   * The candidates of the fill loop over the node list all (getAllNodes), for
   * i < sizeIt: node i (None for the root when skipRoot), then padding.
   */
  function FreeSel(all: seq<NodeRef>, root: NodeRef, sizeIt: nat, skipRoot: bool): seq<Option<Slot<NodeRef>>>
  {
    seq(sizeIt, i requires 0 <= i < sizeIt =>
      if i < |all| then (if skipRoot && all[i] == root then None else Some(Node(all[i])))
      else Some(Pad))
  }

  /** The side of the loops: the larger node count of the two trees. */
  function FreeSizeIt(t1: Tree, t2: Tree): nat
  {
    Max(|t1.names| + |t1.children|, |t2.names| + |t2.children|)
  }

  /** The leaves of both trees together. */
  function LeafSum(t1: Tree, t2: Tree): nat
  {
    |t1.names| + |t2.names|
  }

  /** OptimumWithin for a matrix of side side, with entries in [0, hi]. */
  lemma OptimumBelow(o: seq<seq<int>>, side: nat, hi: int)
    requires Square(o) && EntriesWithin(o, 0, hi) && |o| == side
    ensures 0 <= Optimum(o).0 <= side * hi
  {
    OptimumWithin(o, 0, hi);
  }

  /** A pair of slots for the two trees: nodes of their trees, never two paddings. */
  predicate SlotPair(t1: Tree, t2: Tree, x: Slot<NodeRef>, y: Slot<NodeRef>)
  {
    && !(x.Pad? && y.Pad?)
    && (x.Node? ==> IsNode(t1, x.node))
    && (y.Node? ==> IsNode(t2, y.node))
  }

  /** Slot a of the kept candidates: the a-th node of getAllNodes while there is one left, then padding. */
  function FreeSlot(t: Tree, skipRoot: bool, a: nat): Slot<NodeRef>
  {
    var all := AllNodes(t);
    if a + Skipped(skipRoot) < |all| then Node(all[a]) else Pad
  }

  /** The first n kept slots in closed form. */
  function SlotsUpTo(t: Tree, skipRoot: bool, n: nat): (r: seq<Slot<NodeRef>>)
    ensures |r| == n
  {
    seq(n, a requires 0 <= a => FreeSlot(t, skipRoot, a))
  }

  /** The kept candidates: one less than sizeIt when the root is skipped. */
  function FreeSlots(t: Tree, sizeIt: nat, skipRoot: bool): (r: seq<Slot<NodeRef>>)
    requires Skipped(skipRoot) <= sizeIt
    ensures |r| == sizeIt - Skipped(skipRoot)
  {
    SlotsUpTo(t, skipRoot, sizeIt - Skipped(skipRoot))
  }

  lemma SlotsUpToSnoc(t: Tree, skipRoot: bool, n: nat)
    ensures SlotsUpTo(t, skipRoot, n + 1) == SlotsUpTo(t, skipRoot, n) + [FreeSlot(t, skipRoot, n)]
  {
  }

  /** The loop keeps exactly FreeSlots: every node but the skipped root, in order, then the paddings. */
  lemma KeptFree(t: Tree, sizeIt: nat, skipRoot: bool)
    requires |t.children| > 0 && |AllNodes(t)| <= sizeIt
    ensures Kept(FreeSel(AllNodes(t), Root(t), sizeIt, skipRoot)) == FreeSlots(t, sizeIt, skipRoot)
  {
    var sel := FreeSel(AllNodes(t), Root(t), sizeIt, skipRoot);
    KeptFreePrefix(t, sizeIt, skipRoot, sizeIt);
    assert sel[..sizeIt] == sel;
  }

  /** The length of what the first i candidates keep. */
  function KeptLength(t: Tree, skipRoot: bool, i: nat): nat
  {
    if skipRoot && i >= |AllNodes(t)| && i > 0 then i - 1 else i
  }

  lemma {:induction false} KeptFreePrefix(t: Tree, sizeIt: nat, skipRoot: bool, i: nat)
    requires |t.children| > 0 && |AllNodes(t)| <= sizeIt && i <= sizeIt
    ensures Kept(FreeSel(AllNodes(t), Root(t), sizeIt, skipRoot)[..i]) == SlotsUpTo(t, skipRoot, KeptLength(t, skipRoot, i))
  {
    if i > 0 {
      var sel := FreeSel(AllNodes(t), Root(t), sizeIt, skipRoot);
      var all := AllNodes(t);
      var j := i - 1;
      KeptFreePrefix(t, sizeIt, skipRoot, j);
      KeptSnoc(sel, j);
      AllNodesEach(t, Root(t));
      if j < |all| && skipRoot && all[j] == Root(t) {
        assert j == |all| - 1;
      } else {
        var n := KeptLength(t, skipRoot, j);
        assert KeptLength(t, skipRoot, i) == n + 1;
        SlotsUpToSnoc(t, skipRoot, n);
        assert sel[j].value == FreeSlot(t, skipRoot, n);
      }
    }
  }

  /** What a kept slot is: a node of the tree (never the skipped root), or padding when the tree is the smaller one. */
  lemma FreeSlotIs(t: Tree, sizeIt: nat, skipRoot: bool, a: nat)
    requires |t.children| > 0 && |AllNodes(t)| <= sizeIt && a < sizeIt - Skipped(skipRoot)
    ensures FreeSlot(t, skipRoot, a).Node? ==>
              IsNode(t, FreeSlot(t, skipRoot, a).node) && (skipRoot ==> FreeSlot(t, skipRoot, a).node != Root(t))
    ensures FreeSlot(t, skipRoot, a).Pad? ==> |AllNodes(t)| < sizeIt
  {
    AllNodesEach(t, Root(t));
  }

  /** Every node but the skipped root is some kept slot. */
  lemma FreeSlotHas(t: Tree, sizeIt: nat, skipRoot: bool, x: NodeRef)
    requires |t.children| > 0 && |AllNodes(t)| <= sizeIt && IsNode(t, x) && (skipRoot ==> x != Root(t))
    ensures Node(x) in FreeSlots(t, sizeIt, skipRoot)
  {
    AllNodesEach(t, x);
    var all := AllNodes(t);
    var a :| 0 <= a < |all| && all[a] == x;
    assert a + Skipped(skipRoot) < |all|;
    assert FreeSlots(t, sizeIt, skipRoot)[a] == Node(x);
  }

  /** In a square of side sizeIt - skipped over both trees, a padding row never meets a padding column. */
  lemma NoPadPair(t1: Tree, t2: Tree, skipRoot: bool, a: nat, b: nat)
    requires |t1.children| > 0 && |t2.children| > 0
    requires a < FreeSizeIt(t1, t2) - Skipped(skipRoot) && b < FreeSizeIt(t1, t2) - Skipped(skipRoot)
    ensures !(FreeSlot(t1, skipRoot, a).Pad? && FreeSlot(t2, skipRoot, b).Pad?)
  {
  }

  /** Any kept row and kept column of the two trees form a SlotPair, and a node row is never the skipped root. */
  lemma FreeSlotsPair(t1: Tree, t2: Tree, skipRoot: bool, x: Slot<NodeRef>, y: Slot<NodeRef>)
    requires |t1.children| > 0 && |t2.children| > 0
    requires x in FreeSlots(t1, FreeSizeIt(t1, t2), skipRoot) && y in FreeSlots(t2, FreeSizeIt(t1, t2), skipRoot)
    ensures SlotPair(t1, t2, x, y)
    ensures skipRoot && x.Node? ==> x.node != Root(t1)
    ensures skipRoot && y.Node? ==> y.node != Root(t2)
  {
    var sizeIt := FreeSizeIt(t1, t2);
    var k1, k2 := FreeSlots(t1, sizeIt, skipRoot), FreeSlots(t2, sizeIt, skipRoot);
    var a :| 0 <= a < |k1| && k1[a] == x;
    var b :| 0 <= b < |k2| && k2[b] == y;
    FreeSlotIs(t1, sizeIt, skipRoot, a);
    FreeSlotIs(t2, sizeIt, skipRoot, b);
    NoPadPair(t1, t2, skipRoot, a, b);
  }

  /** A merged id group that holds every leaf name of a tree whose names are distinct covers that tree. */
  lemma MergedCovers(g: IdGroup, t: Tree)
    requires NameSet(t.names) <= NameSet(g) && Covers(LeafIdGroup(t), t)
    ensures Covers(g, t)
  {
    forall l | 0 <= l < |t.names|
      ensures t.names[l] in g
    {
      assert t.names[l] in NameSet(t.names);
      var k :| 0 <= k < |g| && g[k] == t.names[l];
    }
  }

  /** A cluster lies inside the cluster of the root. */
  lemma ClusterInRoot(g: IdGroup, t: Tree, x: NodeRef)
    requires Valid(t) && IsNode(t, x)
    ensures Cluster(g, t, x) <= Cluster(g, t, Root(t))
  {
    forall id | id in Cluster(g, t, x)
      ensures id in Cluster(g, t, Root(t))
    {
      ClusterMember(g, t, x, id);
      var l :| l in Leaves(t, x) && IdOf(g, t.names[l]) == id;
      assert l in Leaves(t, Root(t));
      ClusterMember(g, t, Root(t), id);
    }
  }

  /** The root cluster of a covered tree has one id per leaf. */
  lemma RootClusterSize(g: IdGroup, t: Tree)
    requires Valid(t) && Covers(g, t)
    ensures |Cluster(g, t, Root(t))| == |t.names|
  {
    ClusterSize(g, t, Root(t));
    RootCladeSize(t);
  }

  /** A view that answers with the cluster sizes of g: intersections, and the size of each cluster. */
  ghost predicate ViewSound(v: TableView, g: IdGroup, t1: Tree, t2: Tree)
  {
    && Shaped(t1) && Shaped(t2) && ViewFits(v, t1, t2)
    && (forall x, y {:trigger ViewInter(v, t1, t2, x, y)} :: IsNode(t1, x) && IsNode(t2, y) ==>
          ViewInter(v, t1, t2, x, y) == |Cluster(g, t1, x) * Cluster(g, t2, y)|)
    && (forall x {:trigger ViewSize1(v, t1, t2, x)} :: IsNode(t1, x) ==> ViewSize1(v, t1, t2, x) == |Cluster(g, t1, x)|)
    && (forall y {:trigger ViewSize2(v, t1, t2, y)} :: IsNode(t2, y) ==> ViewSize2(v, t1, t2, y) == |Cluster(g, t2, y)|)
  }

  /** The view of a table calcClustIntersectMatrix has filled answers with the cluster sizes. */
  lemma TableViewSound(m: ClustIntersectInfoMatrix)
    requires TableSound(m)
    ensures ViewSound(m.View(), m.idGroup, m.t1, m.t2)
  {
    forall x | IsNode(m.t1, x)
      ensures ViewSize1(m.View(), m.t1, m.t2, x) == |Cluster(m.idGroup, m.t1, x)|
    {
      ViewSize1IsCluster(m, x);
    }
    forall y | IsNode(m.t2, y)
      ensures ViewSize2(m.View(), m.t1, m.t2, y) == |Cluster(m.idGroup, m.t2, y)|
    {
      ViewSize2IsCluster(m, y);
    }
  }

  /** A cluster size read from the view of a sound table is the size of the cluster of a node of the first tree. */
  lemma ViewSize1IsCluster(m: ClustIntersectInfoMatrix, x: NodeRef)
    requires TableSound(m) && IsNode(m.t1, x)
    ensures ViewSize1(m.View(), m.t1, m.t2, x) == |Cluster(m.idGroup, m.t1, x)|
  {
    ClusterSize(m.idGroup, m.t1, x);
    if x.Ext? {
      LeafCladeSize(m.t1, x.i);
    }
  }

  lemma ViewSize2IsCluster(m: ClustIntersectInfoMatrix, y: NodeRef)
    requires TableSound(m) && IsNode(m.t2, y)
    ensures ViewSize2(m.View(), m.t1, m.t2, y) == |Cluster(m.idGroup, m.t2, y)|
  {
    ClusterSize(m.idGroup, m.t2, y);
    if y.Ext? {
      LeafCladeSize(m.t2, y.i);
    }
  }
}
