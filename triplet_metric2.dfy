/**
 * TripletMetric2: the O(n^2) triplet distance of arbitrary rooted trees,
 * composed from the TreeCmpUtils counters as R(T2) - S(T1, T2) + R1(T1, T2).
 */
module TripletMetric2 {
  import opened PalTree
  import opened ClustIntersectInfo
  import opened TreeCmpUtils
  import opened TreeCmpUtilsTriplets

  /** The clade size of every internal node of t. */
  function CladeSizesOf(t: Tree): (r: seq<int>)
    requires Shaped(t)
    ensures |r| == |t.children|
    ensures forall a :: 0 <= a < |t.children| ==> r[a] == |Leaves(t, Int(a))|
  {
    seq(|t.children|, a requires 0 <= a < |t.children| => |Leaves(t, Int(a))|)
  }

  /**
   * getDistance: the intersection table of both trees over the leaf ids of t1,
   * the resolved triplets of t2 from the table's clade sizes of t2, minus those
   * resolved and equal in both, plus those resolved only in t1.  R(T1) is not
   * computed.  `cIM` is the table the distance was computed from.
   */
  method GetDistance(t1: Tree, t2: Tree) returns (dist: real, ghost cIM: ClustIntersectInfoMatrix)
    requires Valid(t1) && Valid(t2) && Covers(LeafIdGroup(t1), t1) && Covers(LeafIdGroup(t1), t2)
    ensures fresh(cIM) && TreeCmpUtilsTriplets.Ready(cIM)
    ensures cIM.t1 == t1 && cIM.t2 == t2 && cIM.idGroup == LeafIdGroup(t1)
    ensures dist == (ResolvedSum(t2, CladeSizesOf(t2), t2.post)
                     - EqualSum(cIM, t1.post, t2.post) + OnlySum(cIM, t1.post, t2.post)) as real
    ensures ResolvedSum(t2, CladeSizesOf(t2), t2.post) >= 0
  {
    WalkNodes(t1);
    WalkNodes(t2);
    var nodesT1 := GetNodesInPostOrder(t1);
    var nodesT2 := GetNodesInPostOrder(t2);
    var m := IntersectTable(t1, t2);
    cIM := m;
    var rt2 := CalcResolvedTriplets(t2, nodesT2, m.cSize2);
    var st1t2 := CalcResolvedAndEqualTriplets(m, nodesT1, nodesT2);
    var r1t1t2 := CalcResolvedOnlyInT1(m, nodesT1, nodesT2);
    ResolvedSumNonNegative(t2, CladeSizesOf(t2), t2.post);
    dist := (rt2 - st1t2 + r1t1t2) as real;
  }

  /** The intersection table over the leaf ids of t1, with what getDistance reads from it. */
  method IntersectTable(t1: Tree, t2: Tree) returns (m: ClustIntersectInfoMatrix)
    requires Valid(t1) && Valid(t2) && Covers(LeafIdGroup(t1), t1) && Covers(LeafIdGroup(t1), t2)
    ensures fresh(m) && m.Valid() && TreeCmpUtilsTriplets.Ready(m)
    ensures m.t1 == t1 && m.t2 == t2 && m.idGroup == LeafIdGroup(t1)
    ensures m.cSize2[..] == CladeSizesOf(t2)
  {
    m := CalcClustIntersectMatrix(t1, t2, LeafIdGroup(t1));
    assert m.cSize2[..] == CladeSizesOf(t2);
  }

  /** Every position of a valid walk holds a node. */
  lemma WalkNodes(t: Tree)
    requires Valid(t)
    ensures forall p :: 0 <= p < |t.post| ==> IsNode(t, t.post[p])
  {
  }
}
