/**
 * MatchingClusterOptRF: MatchingClusterMetricOptRF, the matching cluster
 * distance computed after the clusters common to both trees are taken out.
 * Clusters come from RootedTree2BitSetArray over the leaf id group of the
 * first tree; the residual matrix costs getDistXorBit for a pair and the
 * cluster's size against padding.
 */
module MatchingClusterOptRF {
  import opened Wrappers
  import opened PalTree
  import opened LapSolver
  import opened OptRF
  import ClusterDist

  /** The cost of a pair of clusters. */
  function ClusterCost(): (set<int>, set<int>) -> int
  {
    (x, y) => ClusterDist.GetDistXorBit(x, y)
  }

  /** The cost of a cluster against padding. */
  function ClusterPad(): set<int> -> int
  {
    x => ClusterDist.GetDistToOAsMinBit(x)
  }

  /** The matrix getDistance solves. */
  function ClusterOptRFMatrix(t1: Tree, t2: Tree): (o: seq<seq<int>>)
    requires Shaped(t1) && Shaped(t2)
  {
    var g := LeafIdGroup(t1);
    OptRFMatrix(ClusterDist.TreeClusters(g, t1), ClusterDist.TreeClusters(g, t2), ClusterCost(), ClusterPad())
  }

  /**
   * getDistance: the clusters of both trees over the leaf ids of t1 (an
   * exception when a leaf of t2 is not among them), the common clusters taken
   * out, and the least total cost of the residual matrix; 0 when nothing is
   * left.
   */
  method GetDistance(t1: Tree, t2: Tree) returns (r: Result<real, string>)
    requires Shaped(t1) && Shaped(t2)
    ensures r.Success? <==> InnerNamed(LeafIdGroup(t1), t2)
    ensures r.Success? ==> r.value == Optimum(ClusterOptRFMatrix(t1, t2)).0 as real
    ensures r.Success? && ClusterOptRFMatrix(t1, t2) == [] ==> r.value == 0.0
  {
    var idGroup := LeafIdGroup(t1);
    var c1Temp := ClusterDist.RootedTree2BitSetArray(t1, idGroup);
    OwnNamed(t1);
    var c2Temp := ClusterDist.RootedTree2BitSetArray(t2, idGroup);
    if c2Temp.Failure? {
      return Failure(c2Temp.error);
    }
    var metric := SolveResidual(c1Temp.value, c2Temp.value, ClusterCost(), ClusterPad());
    r := Success(metric as real);
  }

  /** A tree whose clusters are all different is at distance 0 from itself. */
  lemma ClusterOptRFSelf(t: Tree)
    requires Shaped(t) && Distinct(ClusterDist.TreeClusters(LeafIdGroup(t), t))
    ensures ClusterOptRFMatrix(t, t) == [] && Optimum(ClusterOptRFMatrix(t, t)).0 == 0
  {
    var s := ClusterDist.TreeClusters(LeafIdGroup(t), t);
    OptRFSelf(s, s, ClusterCost(), ClusterPad());
    OptimumZero(ClusterOptRFMatrix(t, t), 0);
  }
}
