/**
 * MatchingMetric: MatchingSplitMetric and MatchingClusterMetric, which pick
 * one of three variants of their distance from two settings: optimise by RF
 * (remove common elements first) and free leaf set (trees on different
 * leaves).  The two settings are parameters here.
 */
module MatchingMetric {
  import opened Wrappers
  import opened PalTree
  import opened CostMatrix
  import opened LapSolver
  import opened TreeCmpUtils
  import opened MatchingSplitO3
  import opened MatchingSplitFree
  import MatchingSplitOptRF
  import MatchingClusterOptRF
  import MatchingClusterFree

  /** The three variants of a matching metric. */
  datatype Variant = OptRF | Free | O3

  /** The variant getDistance calls: RF pruning first, then the free leaf set, else O3. */
  function Choose(optMsMcByRf: bool, useMsMcFreeLeafSet: bool): (v: Variant)
    ensures v == OptRF <==> optMsMcByRf
    ensures v == Free <==> !optMsMcByRf && useMsMcFreeLeafSet
    ensures v == O3 <==> !optMsMcByRf && !useMsMcFreeLeafSet
  {
    if optMsMcByRf then OptRF
    else if useMsMcFreeLeafSet then Free
    else O3
  }

  /** getAlignment has an alignment to give (it is non-null) only for the O3 variant. */
  predicate HasAlignment(optMsMcByRf: bool, useMsMcFreeLeafSet: bool)
  {
    Choose(optMsMcByRf, useMsMcFreeLeafSet) == O3
  }

  /** Either setting on its own is enough to withhold the alignment. */
  lemma NoAlignmentUnderFlags(optMsMcByRf: bool, useMsMcFreeLeafSet: bool)
    ensures HasAlignment(optMsMcByRf, useMsMcFreeLeafSet) <==> !optMsMcByRf && !useMsMcFreeLeafSet
  {
  }

  /** The distance the O3 variant returns on success. */
  ghost function O3Distance(t1: Tree, t2: Tree): real
    requires Valid(t1) && Valid(t2) && Covers(LeafIdGroup(t1), t1) && Covers(LeafIdGroup(t1), t2)
  {
    var g := LeafIdGroup(t1);
    if O3Size(g, t1, t2) > 0 then Optimum(O3Matrix(g, t1, t2)).0 as real else 0.0
  }

  class MatchingSplitMetric {
    var ms03: MatchingSplitMetricO3
    var msFree: MatchingSpliMetricFree

    /** The two stateful variants; the RF variant keeps no state. */
    constructor ()
      ensures fresh(ms03) && fresh(msFree) && ms03.cIntM == null && msFree.cIntM == null
    {
      ms03 := new MatchingSplitMetricO3();
      msFree := new MatchingSpliMetricFree();
    }

    /** getDistance: the distance of the chosen variant; each variant's own contract says what it is. */
    method GetDistance(optMsMcByRf: bool, useMsMcFreeLeafSet: bool, genAlignments: bool, t1: Tree, t2: Tree)
      returns (r: Result<real, string>)
      requires Valid(t1) && Valid(t2)
      requires Choose(optMsMcByRf, useMsMcFreeLeafSet) == Free ==>
                 Covers(LeafIdGroup(t1), t1) && Covers(LeafIdGroup(t2), t2)
      requires Choose(optMsMcByRf, useMsMcFreeLeafSet) == O3 ==>
                 Covers(LeafIdGroup(t1), t1) && Covers(LeafIdGroup(t1), t2)
      modifies ms03, msFree
      ensures Choose(optMsMcByRf, useMsMcFreeLeafSet) == OptRF ==>
                && (r.Success? <==> InnerNamed(LeafIdGroup(t1), t2))
                && (r.Success? ==> r.value == Optimum(MatchingSplitOptRF.SplitOptRFMatrix(t1, t2)).0 as real)
      ensures Choose(optMsMcByRf, useMsMcFreeLeafSet) == Free ==>
                && r.Success? && msFree.cIntM != null
                && NameSet(msFree.cIntM.idGroup) == NameSet(t1.names) + NameSet(t2.names)
                && r.value == (if FreeSplitSide(t1, t2) == 0 then 0.0
                               else (Optimum(FreeSplitMatrix(msFree.cIntM.idGroup, t1, t2)).0 as real) / 2.0)
      ensures Choose(optMsMcByRf, useMsMcFreeLeafSet) == O3 ==>
                var g := LeafIdGroup(t1);
                && (r.Success? <==> (O3Size(g, t1, t2) >= 0 &&
                      (O3Size(g, t1, t2) == 0 || !Overflows(|O3Rows(g, t1, t2)|, |O3Cols(g, t1, t2)|, O3Size(g, t1, t2)))))
                && (r.Success? ==> r.value == O3Distance(t1, t2))
    {
      if optMsMcByRf {
        r := MatchingSplitOptRF.GetDistance(t1, t2);
        return;
      }
      if useMsMcFreeLeafSet {
        var d := msFree.GetDistance(t1, t2);
        return Success(d);
      }
      var d := ms03.GetDistance(t1, t2, genAlignments);
      if d.Failure? {
        return Failure(d.error);
      }
      return Success(d.value as real);
    }

    /** getAlignment: null under either setting, else the O3 variant's alignment. */
    method GetAlignment(optMsMcByRf: bool, useMsMcFreeLeafSet: bool) returns (r: Option<Result<AlignInfo, string>>)
      requires HasAlignment(optMsMcByRf, useMsMcFreeLeafSet) ==> ms03.AlignReady()
      ensures r.Some? <==> HasAlignment(optMsMcByRf, useMsMcFreeLeafSet)
      ensures r.Some? && r.value.Success? ==>
                && r.value.value.aln == EqAlignment(ms03.cIntM.eqClustList, ms03.cIntM.cSize1[..], |ms03.cIntM.t1.names|)
                                        + ms03.SolverAlignment()
                && r.value.value.totalCost == Along(Rows(ms03.assigncost), ms03.rowsol[..])
    {
      if optMsMcByRf {
        return None;
      }
      if useMsMcFreeLeafSet {
        return None;
      }
      var a := ms03.GetAlignment();
      return Some(a);
    }
  }

  /**
   * MatchingClusterMetric: the same choice over the cluster variants.  The
   * O3 cluster variant is not part of this model, so the distance and the
   * alignment it would give are parameters.
   */
  class MatchingClusterMetric {
    var mcFree: MatchingClusterFree.MatchingClusterMetricFree

    /** The free variant is the one with state here; the RF variant keeps none. */
    constructor ()
      ensures fresh(mcFree) && mcFree.cIntM == null
    {
      mcFree := new MatchingClusterFree.MatchingClusterMetricFree();
    }

    /** getDistance: the distance of the chosen cluster variant. */
    method GetDistance(optMsMcByRf: bool, useMsMcFreeLeafSet: bool, t1: Tree, t2: Tree, o3Distance: real)
      returns (r: Result<real, string>)
      requires Valid(t1) && Valid(t2)
      requires Choose(optMsMcByRf, useMsMcFreeLeafSet) == Free ==>
                 Covers(LeafIdGroup(t1), t1) && Covers(LeafIdGroup(t2), t2)
      modifies mcFree
      ensures Choose(optMsMcByRf, useMsMcFreeLeafSet) == OptRF ==>
                && (r.Success? <==> InnerNamed(LeafIdGroup(t1), t2))
                && (r.Success? ==> r.value == Optimum(MatchingClusterOptRF.ClusterOptRFMatrix(t1, t2)).0 as real)
      ensures Choose(optMsMcByRf, useMsMcFreeLeafSet) == Free ==>
                && r.Success? && mcFree.cIntM != null
                && NameSet(mcFree.cIntM.idGroup) == NameSet(t1.names) + NameSet(t2.names)
                && r.value == Optimum(MatchingClusterFree.ClusterFreeMatrix(mcFree.cIntM.idGroup, t1, t2)).0 as real
      ensures Choose(optMsMcByRf, useMsMcFreeLeafSet) == O3 ==> r == Success(o3Distance)
    {
      if optMsMcByRf {
        r := MatchingClusterOptRF.GetDistance(t1, t2);
        return;
      }
      if useMsMcFreeLeafSet {
        var d := mcFree.GetDistance(t1, t2);
        return Success(d);
      }
      return Success(o3Distance);
    }

    /** getAlignment: null under either setting, else the O3 cluster variant's alignment. */
    method GetAlignment<A>(optMsMcByRf: bool, useMsMcFreeLeafSet: bool, o3Alignment: A) returns (r: Option<A>)
      ensures r.Some? <==> HasAlignment(optMsMcByRf, useMsMcFreeLeafSet)
      ensures r.Some? ==> r.value == o3Alignment
    {
      if optMsMcByRf {
        return None;
      }
      if useMsMcFreeLeafSet {
        return None;
      }
      return Some(o3Alignment);
    }
  }
}
