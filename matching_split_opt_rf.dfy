/**
 * MatchingSplitOptRF: MatchingSplitMetricOptRF, the matching split distance
 * computed after the splits common to both trees are taken out, as in the
 * Robinson-Foulds distance.  Splits come from getSplits over the leaf id
 * group of the first tree; the residual matrix costs getDist1Bit for a pair
 * and getDistToOAsMinBit against padding.
 */
module MatchingSplitOptRF {
  import opened Wrappers
  import opened PalTree
  import opened LapSolver
  import opened OptRF
  import SplitDist

  /** The cost of a pair of splits on n leaves. */
  function SplitCost(n: int): (set<int>, set<int>) -> int
  {
    (x, y) => SplitDist.GetDist1Bit(x, y, n)
  }

  /** The cost of a split against padding. */
  function SplitPad(n: int): set<int> -> int
  {
    x => SplitDist.GetDistToOAsMinBit(x, n)
  }

  /** The matrix getDistance solves. */
  function SplitOptRFMatrix(t1: Tree, t2: Tree): (o: seq<seq<int>>)
    requires Shaped(t1) && Shaped(t2)
  {
    var g := LeafIdGroup(t1);
    OptRFMatrix(SplitDist.TreeSplits(g, t1), SplitDist.TreeSplits(g, t2), SplitCost(|t1.names|), SplitPad(|t1.names|))
  }

  /**
   * getDistance: the splits of both trees over the leaf ids of t1 (an
   * exception when a leaf of t2 is not among them), the common splits taken
   * out, and the least total cost of the residual matrix; 0 when nothing is
   * left.
   */
  method GetDistance(t1: Tree, t2: Tree) returns (r: Result<real, string>)
    requires Valid(t1) && Valid(t2)
    ensures r.Success? <==> InnerNamed(LeafIdGroup(t1), t2)
    ensures r.Success? ==> r.value == Optimum(SplitOptRFMatrix(t1, t2)).0 as real
    ensures r.Success? && SplitOptRFMatrix(t1, t2) == [] ==> r.value == 0.0
  {
    var idGroup := LeafIdGroup(t1);
    var s1Temp := SplitDist.GetSplits(t1, idGroup);
    OwnNamed(t1);
    var s2Temp := SplitDist.GetSplits(t2, idGroup);
    if s2Temp.Failure? {
      return Failure(s2Temp.error);
    }
    var n := |t1.names|;
    var metric := SolveResidual(s1Temp.value, s2Temp.value, SplitCost(n), SplitPad(n));
    r := Success(metric as real);
  }

  /** A tree whose splits are all different is at distance 0 from itself. */
  lemma SplitOptRFSelf(t: Tree)
    requires Shaped(t) && Distinct(SplitDist.TreeSplits(LeafIdGroup(t), t))
    ensures SplitOptRFMatrix(t, t) == [] && Optimum(SplitOptRFMatrix(t, t)).0 == 0
  {
    var s := SplitDist.TreeSplits(LeafIdGroup(t), t);
    OptRFSelf(s, s, SplitCost(|t.names|), SplitPad(|t.names|));
    OptimumZero(SplitOptRFMatrix(t, t), 0);
  }
}
